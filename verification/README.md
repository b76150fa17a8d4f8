# Verified model of the file tools server and its release finalizer

This project models the parts of the repository where a fast, stateful or concurrent form has a simple
meaning, and proves that the two agree.

* **Text editing** (`EditDistance`, `Normalization`, `FuzzyMatch`, `Text`, `PatchApply`, `PatchShift`, `WindowDiff`,
  `PatchGrammar`, `PatchParse`, `PatchPrint`, `DiffRenumber`, `HeaderShift`, `DiffShift`, `RenumberText`): the banded edit
  distance against the full recurrence, the fuzzy window search under its work budget, unified patches
  (applying, taking back, parsing, printing), and the diff that looks only at a window around the change
  and renumbers its hunks.
* **Streaming grep** (`GrepMatch`, `GrepScan`, `GrepFile`, `OrderedCommit`, `GrepSearch`, `GrepPaging`): one
  pass with sliding context, an in-place queue and a byte ledger; parallel workers that read stale limits;
  paging. The meaning is a short declarative answer on the whole sequence of lines.
* **One-shot previews** (`PreviewHistory`, `ConfirmationOwners`, `PreviewStore`, `PreviewRouting`): bounded
  caches with expiry and oldest-first eviction, histories of what happened to each preview, and the
  interleavings of several stores with their shared routing index.
* **Apply protocols** (`SharedDisk`, `EncodingApply`, `RestoreApply`): conversion and restore on a disk that an
  environment changes between any two steps.
* **Release finalizer** (`ReleaseAssets`, `ReleaseFinalizer`): the 22-asset contract and the single writer that
  resumes a draft although requests may be lost.

`Wrappers` holds the option and result types, `Basics` a few facts on numbers, characters and finite sets. `dafny verify dfyconfig.toml` checks the whole project.

## Conventions

* Text in patches, diffs and grep is a sequence of bytes written as `char`; in the fuzzy search it is a
  sequence of runes. Integers are unbounded; where 64-bit limits decide something they are written out
  (`PatchParse.PatchInt`, `GrepMatch.SaturatingAdd`, `ConfirmationOwners.ConfirmationOwnerCapacity`).
* Code that updates variables, rows, queues, maps or files is a method or a class with those fields; the
  functions beside it say what it means. Long proofs are kept out of the methods: a state is described by a
  predicate on values, and lemmas say how each step moves it.
* What a component cannot control is a function parameter that may be anything: the regular expression, the
  clock and the random identifiers, what the environment does to files before each step, which operation
  fails, what the backup store commits, what a request does on the server and what its response says. A
  proof for all such functions is a proof for all runs. The calm case, where nothing interferes and nothing
  fails, is stated too, so that a protocol that always gives up does not meet its contract.
* A disk keeps a trace of everything that happens to its files, by the environment and by the program. The
  trace accounts for the files, and an event can only be recorded if it is true of them at that moment, so
  what a theorem says of a log it says of the files.
* The release writer keeps a history of its looks, checks and requests, so what must come before a request and
  after a lost response is a statement on that history.
* A content fingerprint is the content itself, so fingerprints do not collide.

## Findings

Some expected properties hold only under a condition. Each is stated with its exact condition and an input
that shows it fails.

* The banded distance is wrong exactly when the first text is not empty, the second is, and the first is no
  longer than the bound (`EditDistance.BoundedLevenshtein`; `EditDistance.EmptyBandIsReportedOver` is an
  input); the fuzzy search never asks for that case.
* A patch can be taken back exactly when no hunk's new start lies inside the new side of the hunk before it
  and the patched text still has a line. A deletion directly after another hunk breaks the first condition,
  deleting the only line the second (`PatchApply.TakingBackRestores`; inputs are
  `PatchApply.AdjacentDeletionIsNotReversible` and `PatchApply.LastLineIsNotRestored`).
* Parsing undoes printing exactly when no body line begins like a file header (`--- ` or `+++ `) and none
  ends in a carriage return (`PatchPrint.ParsingUndoesPrinting`; inputs are `PatchPrint.MisreadLineIsRefused`
  and `PatchPrint.CarriageReturnIsLost`).
* Following the next offsets of grep pages reaches every match exactly when the total is at most
  `(limit / pageSize) * pageSize` (`GrepPaging.AllShownExactly`; an input is
  `GrepPaging.LastPageCanBeOutOfReach`). A request of a smaller page size can still show the rest.

## Model

| member | source | states |
|---|---|---|
| `EditDistance.NoCheaperScript` | filetoolsserver/handler/edit_fuzzy.go:106-144 | no edit script that turns one text into the other is cheaper than the distance recurrence |
| `EditDistance.TurnsIsOutcome` | filetoolsserver/handler/edit_fuzzy.go:106-144 | an edit script turns a text into another exactly when carrying out its edits in order gives it |
| `EditDistance.CheapestScript` | filetoolsserver/handler/edit_fuzzy.go:106-144 | some edit script has exactly the price the recurrence gives, so the recurrence is the edit distance |
| `EditDistance.FirstColumn` | filetoolsserver/handler/edit_fuzzy.go:124-140 | column 1 of row i is at most i, which is why the row cutoff may leave column 0 out |
| `EditDistance.FirstRow` | filetoolsserver/handler/edit_fuzzy.go:111-119 | the initial row stands for row 0 of the full table under the bound |
| `EditDistance.FillRow` | filetoolsserver/handler/edit_fuzzy.go:121-137 | one banded row, overwritten in place, stands for the next row of the full table, and the row minimum says when no column from 1 on is within the bound |
| `EditDistance.RowOver` | filetoolsserver/handler/edit_fuzzy.go:129-140 | a row that is over the bound from column 1 on means the whole distance is over it, so the early return is right |
| `EditDistance.BoundedLevenshtein` | filetoolsserver/handler/edit_fuzzy.go:106-144 | the two-row banded result stands for the true distance (equal when within `maximum`, larger otherwise) exactly when the band is not empty; in the empty-band family it is `maximum + 1`; it visits at most `len(first) * (2*maximum+1)` cells |
| `EditDistance.EmptyBandIsReportedOver` | filetoolsserver/handler/edit_fuzzy.go:106-144 | the exception: from one character to none the distance is 1, and with a bound of 1 the result is 2 |
| `Normalization.NormalizedLine` | filetoolsserver/handler/edit_fuzzy.go:79-85 | a normalized line has the words of the line, in order, and nothing else but single spaces between them |
| `Normalization.TidyIsUnique` | filetoolsserver/handler/edit_fuzzy.go:79-85 | there is only one text with given words and single spaces between them |
| `Normalization.NormalizedAlike` | filetoolsserver/handler/edit_fuzzy.go:79-85 | texts of as many lines are normalized alike exactly when their lines have the same words |
| `FuzzyMatch.RoundedTestIsExact` | filetoolsserver/handler/edit_fuzzy.go:50-63 | `distance <= floor((1-t)*m)` is the same test as `score >= t` |
| `FuzzyMatch.ThresholdExcludesEmptyBand` | filetoolsserver/handler/edit_fuzzy.go:17-50 | with a threshold of at least one half the search never calls the distance on an empty band |
| `FuzzyMatch.ToleranceIsExact` | filetoolsserver/handler/edit_fuzzy.go:32-68 | for lengths up to 4096 the 1e-12 tolerance decides exactly like comparing the rational scores |
| `FuzzyMatch.Compare` | filetoolsserver/handler/edit_fuzzy.go:50-63 | comparing one window gives its score exactly when the score reaches the threshold, within the cells charged for it |
| `FuzzyMatch.Weigh` | filetoolsserver/handler/edit_fuzzy.go:64-68 | the running best, its score and the ambiguity flag describe the best of all windows seen so far |
| `FuzzyMatch.Select` | filetoolsserver/handler/edit_fuzzy.go:36-69 | the scan stops over budget exactly when the charges exceed 2,000,000, and otherwise ends with the best window of all and whether another one ties it |
| `FuzzyMatch.TryFuzzyMatch` | filetoolsserver/handler/edit_fuzzy.go:16-77 | a window is replaced exactly when one eligible window alone attains the highest score; every guard, the ambiguity and the budget have their own outcome; a window that differs from the old text in white space between words only is replaced if it is the only one and ambiguous otherwise, at every accepted threshold, unless a guard or the budget stops the search; at most 2,000,000 distance cells are visited on every input |
| `FuzzyMatch.ExactScoresFull` | filetoolsserver/handler/edit_fuzzy.go:38-63 | a window scores 1 exactly when it has the words of the old text line by line |
| `FuzzyMatch.RelativeIndentKept` | filetoolsserver/handler/edit_file.go:143-166 | an adjusted replacement line keeps its content and its distance from the indentation of the old line, measured from the new base, or stands at the margin |
| `FuzzyMatch.ReplacedLine` | filetoolsserver/handler/edit_fuzzy.go:87-98 | every replacement line stands where it should: the first at the indentation of the window unless it is empty, later ones at their distance from the old line, lines past the old ones as they are |
| `FuzzyMatch.OutsideWindowUnchanged` | filetoolsserver/handler/edit_fuzzy.go:87-104 | after a replacement the lines before and after the window are the ones that were there |
| `FuzzyMatch.SplitOfSpliced` | filetoolsserver/handler/edit_fuzzy.go:99-103 | splitting the spliced text gives back the spliced lines |
| `Text.JoinOfSplit` | filetoolsserver/handler/edit_patch.go:138-183 | joining the split of a text at newlines is the text |
| `Text.SplitOfJoin` | filetoolsserver/handler/edit_patch.go:138-183 | splitting joined lines is the lines |
| `PatchApply.WalkBody` | filetoolsserver/handler/edit_patch.go:161-179 | a body is accepted exactly where the source holds its old side, and then contributes its new side |
| `PatchApply.ApplyHunk` | filetoolsserver/handler/edit_patch.go:143-180 | one hunk is accepted exactly when ranges, place, new start and content all fit; the error is the first guard that fails; the gap before it is copied |
| `PatchApply.ApplyPatchHunks` | filetoolsserver/handler/edit_patch.go:137-184 | the applied text is the source with every old side replaced by its new side and all gaps copied; a refusal names the first hunk that does not fit and why |
| `PatchApply.HunkLandsWhereItSays` | filetoolsserver/handler/edit_patch.go:146-181 | in the patched text every hunk has its new side at its new start and the gap before it unchanged |
| `PatchApply.ReversedPrefix` | filetoolsserver/handler/edit_patch.go:142-181 | the reversed hunks fit what the hunks produced exactly when their starts stay ordered, and then produce the original prefix |
| `PatchApply.TakingBackRestores` | filetoolsserver/handler/edit_patch.go:137-184 | applying the reversed hunks to the patched text gives back the original exactly when no new start lies inside the hunk before it and some line is left |
| `PatchApply.GapsMakeReversible` | filetoolsserver/handler/edit_patch.go:150-152 | hunks with an unchanged line between them can be taken back |
| `PatchApply.LastLineIsNotRestored` | filetoolsserver/handler/edit_patch.go:138-183 | the exception: deleting the only line of a text and taking that back leaves an extra newline |
| `PatchApply.TakingBackIsRefused` | filetoolsserver/handler/edit_patch.go:146-160 | where a line is left, the reversed hunks are refused exactly when a new start lies inside the new side of the hunk before it |
| `PatchApply.AdjacentDeletionIsNotReversible` | filetoolsserver/handler/edit_patch.go:146-160 | the exception: a deletion right after another hunk is accepted, and its reverse is refused on the patched text |
| `PatchShift.ShiftedPatches` | filetoolsserver/handler/edit_patch.go:137-184 | hunks that patch a stretch of lines patch it, with moved line numbers, inside any larger text |
| `PatchShift.TailUntouched` | filetoolsserver/handler/edit_patch.go:142-182 | lines that no hunk reaches can be left off |
| `WindowDiff.ContextStart` | filetoolsserver/handler/edit_file.go:247-262 | the backward walk ends at a line start, as many lines back as asked for or at the beginning |
| `WindowDiff.ContextEnd` | filetoolsserver/handler/edit_file.go:264-277 | the forward walk takes in exactly the next lines, as many as asked for or all |
| `WindowDiff.ScanPrefix` | filetoolsserver/handler/edit_file.go:194-198 | the prefix scan finds the longest common prefix |
| `WindowDiff.ScanSuffix` | filetoolsserver/handler/edit_file.go:206-210 | the suffix scan finds the longest common suffix outside the common prefix |
| `WindowDiff.SnapSuffix` | filetoolsserver/handler/edit_file.go:211-222 | the suffix is moved to a line start of both texts, or left out, and stays common |
| `WindowDiff.WindowStart` | filetoolsserver/handler/edit_file.go:199-204 | the window starts at a line start with the context lines there are before the change |
| `WindowDiff.WindowEnds` | filetoolsserver/handler/edit_file.go:225-226 | both windows end the same distance from the common suffix, at a line end or at the end of the text |
| `WindowDiff.BoundedWindow` | filetoolsserver/handler/edit_file.go:189-238 | equal texts, or the window: whole lines around everything that differs, from three lines before the first difference to the rest of the last changed line and three more; it is too large exactly when its two sides exceed the limit together |
| `WindowDiff.WindowedHunksPatchTheFile` | filetoolsserver/handler/edit_file.go:189-239 | hunks confined to the complete lines of the window that take the old window to the new one take the whole original to the whole modified text once renumbered by the lines before the window |
| `PatchGrammar.Grammar.ParseBodyLoop` | filetoolsserver/handler/edit_patch.go:69-97 | the body loop collects the lines up to the next header or the end with their two counts, or reports the first malformed line |
| `PatchGrammar.Grammar.ParseHunkAt` | filetoolsserver/handler/edit_patch.go:55-104 | one hunk: header, body, declared counts against seen ones, and the hunk limit |
| `PatchGrammar.Grammar.ParseHunksLoop` | filetoolsserver/handler/edit_patch.go:49-105 | the hunk loop, with empty lines between hunks passed over |
| `PatchGrammar.Grammar.ParseOfAll` | filetoolsserver/handler/edit_patch.go:49-105 | assembled hunks are read back as they are, and refused exactly when a body line starts another file |
| `PatchGrammar.Grammar.ParsedHunksAreWellFormed` | filetoolsserver/handler/edit_patch.go:62-101 | every parsed hunk declares the counts its body has, and its lines are single lines |
| `PatchParse.ValueOfItoa` | filetoolsserver/handler/edit_patch.go:125-128 | printing a number and reading its digits is the number |
| `PatchParse.MatchPrintedHeader` | filetoolsserver/handler/edit_patch.go:13-67 | a printed hunk header is matched with its four numbers, a lone start meaning a count of one |
| `PatchParse.MatchHeaderMeans` | filetoolsserver/handler/edit_patch.go:13-67 | a line is a hunk header with its numbers exactly when it has the form of one |
| `PatchParse.AcceptedIsHeaded` | filetoolsserver/handler/edit_patch.go:31-47 | text that is too long, blank, or not headed by two file headers that both name the target is refused |
| `PatchParse.ParseUnifiedPatch` | filetoolsserver/handler/edit_patch.go:31-110 | the whole parse with its guards in order |
| `PatchParse.ParsedIsWellFormed` | filetoolsserver/handler/edit_patch.go:31-110 | what the parser accepts is a nonempty list of well-formed hunks |
| `PatchParse.RefusedPatches` | filetoolsserver/handler/edit_patch.go:31-47 | a patch is refused as empty exactly when it is blank, as too large exactly past the limit, and for its file header exactly when fewer than three lines are left or the first two lines are not the two file headers |
| `PatchPrint.ParsePrintedHunks` | filetoolsserver/handler/edit_patch.go:49-105 | printed hunks parse to themselves unless a body line starts another file |
| `PatchPrint.PrintedReadsBack` | filetoolsserver/handler/edit_patch.go:31-110 | a printed patch parses to its hunks with trailing carriage returns stripped, unless a body line starts another file |
| `PatchPrint.ParsingUndoesPrinting` | filetoolsserver/handler/edit_patch.go:31-110 | parsing undoes printing exactly when no body line starts another file and none ends in a carriage return |
| `PatchPrint.MisreadLineIsRefused` | filetoolsserver/handler/edit_patch.go:69-80 | the exception: deleting the line `-- x` prints as the start of another file and is refused |
| `PatchPrint.CarriageReturnIsLost` | filetoolsserver/handler/edit_patch.go:31-48 | the exception: a carriage return at the end of a line is lost |
| `DiffRenumber.ParseLineNumber` | filetoolsserver/handler/edit_file.go:341-352 | the digit loop reads the number and where it ends, and fails exactly where there is no digit |
| `DiffRenumber.AdjustHunkHeader` | filetoolsserver/handler/edit_file.go:313-339 | a header line is cut at its two numbers, which are moved; everything else is copied |
| `DiffRenumber.AdjustDiffOffsets` | filetoolsserver/handler/edit_file.go:279-311 | the loop over the text adjusts every header line and copies every other line and newline |
| `HeaderShift.AdjustedHeader` | filetoolsserver/handler/edit_file.go:313-339 | an adjusted header is matched as a header with both starts moved and the counts kept |
| `DiffShift.MovedHunks` | filetoolsserver/handler/edit_patch.go:49-105 | moving the numbers of every header line moves every parsed hunk and changes nothing else |
| `DiffShift.RenumberedLinesParse` | filetoolsserver/handler/edit_file.go:279-339 | renumbering the lines of a patch and parsing them is parsing them and moving the hunks |
| `RenumberText.LinesSeen` | filetoolsserver/handler/edit_patch.go:38 | the lines a parser sees of a text are its lines with carriage returns before newlines stripped |
| `RenumberText.AdjustThenStrip` | filetoolsserver/handler/edit_file.go:284-339 | adjusting a line and stripping its carriage return can be done in either order |
| `RenumberText.RenumberingCommutesWithParsing` | filetoolsserver/handler/edit_file.go:279-352 | the same for whole patch texts with any line endings: renumber then parse equals parse then shift |
| `RenumberText.RenumberedDiffPatchesTheFile` | filetoolsserver/handler/edit_file.go:228-239 | end to end: when the window's printed diff parses to hunks that take the old window to the new one, the renumbered text is a patch from the whole original to the whole modified text |
| `GrepMatch.GrepMatchesRetainedBytes` | filetoolsserver/handler/grep.go:493-507 | the retained bytes of a match list, up to the largest 64-bit number |
| `GrepMatch.Query.HitsAreAll` | filetoolsserver/handler/grep.go:602-630 | the hits are all matching lines |
| `GrepMatch.Query.HitsIncrease` | filetoolsserver/handler/grep.go:602-630 | in order and without repetition |
| `GrepMatch.Query.MatchStep` | filetoolsserver/handler/grep.go:585-592 | a match read one line further has that line as context exactly if it still lacked one |
| `GrepMatch.Query.AnswerStep` | filetoolsserver/handler/grep.go:579-630 | the answer for one more line is the old answer with that line as context where it is due, and a new match if there is room |
| `GrepMatch.Query.RecentStep` | filetoolsserver/handler/grep.go:632-642 | the buffer of earlier lines after one more line |
| `GrepMatch.Query.EarlyStop` | filetoolsserver/handler/grep.go:643-645 | once a further match was seen and none waits, no later line changes the answer |
| `GrepScan.CompactClosed` | filetoolsserver/handler/grep.go:579-600 | a match that is complete leaves the queue before every match that is kept, so the order of results is kept by compacting in place |
| `GrepScan.RequiredIsCost` | filetoolsserver/handler/grep.go:605-611 | the saturating sum admits a match exactly when its true cost fits the ledger |
| `GrepScan.Scanner.constructor` | filetoolsserver/handler/grep.go:540-558 | a new scan is the answer for no lines, with an empty ledger |
| `GrepScan.Scanner.Release` | filetoolsserver/handler/grep.go:559-564 | the clamp at zero never acts |
| `GrepScan.Scanner.FeedPending` | filetoolsserver/handler/grep.go:579-600 | every queued match gets the line, complete ones move to the results in order, and the ledger grows by one line cost for each; it fails exactly when that exceeds the budget |
| `GrepScan.Scanner.TakeMatch` | filetoolsserver/handler/grep.go:602-630 | a matching line becomes a match with its buffered context, or marks the result truncated when there is no room |
| `GrepScan.Scanner.Remember` | filetoolsserver/handler/grep.go:632-642 | the line enters the buffer and the oldest one leaves a full buffer, with both charged exactly |
| `GrepScan.Scanner.ProcessLine` | filetoolsserver/handler/grep.go:566-647 | after every line the state is the answer for the lines read and the ledger is its exact cost with the buffer; the budget error comes exactly when the line does not fit; the stop signal exactly when the answer is settled |
| `GrepFile.SegmentsOfLine` | filetoolsserver/handler/grep.go:658-669 | the segments of a physical line joined by carriage returns are the line, and hold none |
| `GrepFile.LogicalLinesOf` | filetoolsserver/handler/grep.go:640-669 | the logical lines are all of the physical ones in turn, each cut at its carriage returns and nowhere else |
| `GrepFile.ForEachCRSegment` | filetoolsserver/handler/grep.go:658-669 | the segments are processed in order up to the one that ends the reading |
| `GrepFile.WalkFromStart` | filetoolsserver/handler/grep.go:566-656 | reading the lines one by one exceeds the budget exactly when some line before the search is settled does not fit; otherwise it ends with all lines read or settled |
| `GrepFile.SearchSingleFile` | filetoolsserver/handler/grep.go:509-656 | the streaming search of a file is the declarative answer: the first matches in order, each with its previous and next lines, truncated exactly when another match exists, and costing at most the budget; it fails exactly when the budget does not suffice |
| `OrderedCommit.ProcessOrdered` | internal/concurrency/ordered.go:45-175 | whichever worker finishes next and whenever the context is cancelled, results are committed once each in input order up to the first refusal, everything dispatched is committed unless the callback refuses, items are only left out by a refusal or a cancellation, and an item is dispatched at most one pool width ahead of the commits |
| `OrderedCommit.OneWorkerIsNeverStale` | internal/concurrency/ordered.go:83-99 | with one worker an item is dispatched right after the commit before it |
| `GrepSearch.Search.MatchesAre` | filetoolsserver/handler/grep.go:590-636 | the matches of a file are one for every matching line in order, with its line and column, its text, and the lines before and after it as far as there are so many |
| `GrepSearch.Search.LimitTakesFirst` | filetoolsserver/handler/grep.go:386-398 | a worker's limit changes how many matches of a file are kept, not which come first |
| `GrepSearch.Search.CommitStep` | filetoolsserver/handler/grep.go:414-426 | taking what is left from a result made under any older limit is taking it from all matches of the file, and the truncation flag says whether the total exceeds the maximum |
| `GrepSearch.PoolSchedules` | internal/concurrency/ordered.go:117-170 | reads made between an item's dispatch and its commit are the beginning of a schedule of the search, also when the pool stopped early |
| `GrepSearch.WorkOn` | filetoolsserver/handler/grep.go:398 | one worker's result for a readable file: the first matches of the file up to its limit and whether there are more, or the budget error exactly when the budget does not suffice |
| `GrepSearch.SearchFiles` | filetoolsserver/handler/grep.go:362-435 | for every schedule of stale reads the result is the first matches of the concatenated files, truncated exactly when there are more, then with none remaining; it fails exactly at the first file whose search exceeds the budget its worker read; one worker keeps the total within the output budget |
| `GrepPaging.ScanningAhead` | filetoolsserver/handler/grep.go:127-145 | scanning one match past the page shows the same page and the same truncation as scanning everything |
| `GrepPaging.PageOf` | filetoolsserver/handler/grep.go:123-148 | an accepted request shows the page of the complete match list, or fails because some file does not fit its budget |
| `GrepPaging.HandleGrep` | filetoolsserver/handler/grep.go:68-149 | a request is refused for its offset or the limit, or answered with the page of the complete match list, whether and where it goes on, and whether the coverage was complete |
| `GrepPaging.FollowPages` | filetoolsserver/handler/grep.go:68-147 | asking for page after page at the offset of the reply before ends, under any schedules; the replies together are the matches from the first on with no gap and no repeat, to the last one, to where the limit refuses the next request, or to where a search fails |
| `GrepPaging.AllShownExactly` | filetoolsserver/handler/grep.go:68-147 | without a failed search, following the pages shows every match exactly when the whole pages under the limit hold them all |
| `GrepPaging.LastPageCanBeOutOfReach` | filetoolsserver/handler/grep.go:71-76 | the exception: with three matches, a limit of three and pages of two, no request of this page size shows the third match |
| `ConfirmationOwners.ValidConfirmationOwnerID` | filetoolsserver/handler/confirmation_owner_index.go:77-88 | an identifier is valid exactly when it has 64 lowercase hexadecimal characters |
| `ConfirmationOwners.ConfirmationOwnerCapacity` | filetoolsserver/handler/confirmation_owner_index.go:62-75 | the sum of the positive capacities, stopped at the largest integer |
| `ConfirmationOwners.OwnerIndex.Reserve` | filetoolsserver/handler/confirmation_owner_index.go:20-34 | each refusal has its exact condition; otherwise the identifier is added for its owner |
| `ConfirmationOwners.ResolvesToItsReservation` | filetoolsserver/handler/confirmation_owner_index.go:20-58 | over any requests, an identifier resolves to an owner exactly when that owner's reservation was accepted and the owner has not forgotten it since |
| `ConfirmationOwners.OwnerIndex.Forget` | filetoolsserver/handler/confirmation_owner_index.go:46-58 | an identifier is forgotten exactly by its own owner |
| `PreviewHistory.ReplaySound` | filetoolsserver/handler/edit_preview.go:93-121 | in every history the order lists the live identifiers, once each |
| `PreviewHistory.OrderIsInsertionOrder` | filetoolsserver/handler/edit_preview.go:119 | the order is the order of the puts |
| `PreviewHistory.Conservation` | filetoolsserver/handler/edit_preview.go:73-207 | for every identifier, puts are claims plus drops plus one if it is live |
| `PreviewHistory.ClaimReturnsWhatWasPut` | filetoolsserver/handler/edit_preview.go:125-153 | a claim returns exactly what was put, and nothing happened to it in between |
| `PreviewHistory.ClaimedOnce` | filetoolsserver/handler/edit_preview.go:125-153 | a second claim of an identifier needs another put |
| `PreviewStore.Store.constructor` | filetoolsserver/handler/edit_preview.go:61-71 | a new store is empty and agrees with the index |
| `PreviewStore.Store.Remove` | filetoolsserver/handler/edit_preview.go:190-207 | removal takes an entry out of the map, the list, the byte counter and the index; the counter is exact and its clamp never acts |
| `PreviewStore.Store.PurgeExpired` | filetoolsserver/handler/edit_preview.go:178-188 | one walk over the list removes exactly the previews whose time is over |
| `PreviewStore.Store.MakeRoom` | filetoolsserver/handler/edit_preview.go:95-101 | eviction removes the shortest sufficient run of the oldest previews and ends with room; the list never runs empty first |
| `PreviewStore.Store.NewID` | filetoolsserver/handler/edit_preview.go:164-176 | the first of the random identifiers that is not in use, or the error |
| `PreviewStore.Store.Put` | filetoolsserver/handler/byte_mutation_preview.go:83-132 | a preview is stored after expiry and the shortest oldest-first eviction, under the first free identifier, reserved before it is published; every refusal has its condition; the entry and byte limits hold afterwards and other kinds are untouched |
| `PreviewStore.Store.Claim` | filetoolsserver/handler/byte_mutation_preview.go:134-164 | a preview is handed out, once, exactly while it is live, its time is not over and its kind is the expected one; what is left are exactly the other previews whose time is not over; each refusal has its condition |
| `PreviewStore.Store.Discard` | filetoolsserver/handler/edit_preview.go:155-162 | a discarded preview is removed, an unknown one changes nothing |
| `PreviewStore.PutThenClaim` | filetoolsserver/handler/edit_preview.go:73-188 | a preview that was put can be claimed as it was at any moment before its time is over, and at none after it, unless its own claim or discard, an evicting put or an earlier expiry ended it |
| `PreviewRouting.RoutesFollowStores` | filetoolsserver/handler/confirm_verified_operation.go:53-82 | every kind a store reserves is routed back to that store, and no other name is routed |
| `PreviewRouting.Config.IndexBound` | filetoolsserver/handler/handler.go:351-359 | the index never holds more than the stores admit |
| `PreviewRouting.Config.StepsTheIndex` | filetoolsserver/handler/confirmation_owner_index.go:20-58 | in every interleaving the index moves as the index alone does: by the reservation or the withdrawal of the step, and by no other step |
| `PreviewRouting.Config.ClaimedKind` | filetoolsserver/handler/confirm_verified_operation.go:53-82 | a claim by a confirmation is of the kind it resolved |
| `PreviewRouting.Config.StepKeepsInv` | filetoolsserver/handler/confirmation_owner_index.go:20-58 | every step of every store keeps the agreement between stores and index |
| `PreviewRouting.Config.RunIsSafe` | filetoolsserver/handler/confirmation_owner_index.go:20-75 | for every interleaving: unlocked stores agree with the index, it stays within the capacities, its own limit never refuses a reservation, and claims are of the resolved kind |
| `PreviewRouting.HandlerIsWellFormed` | filetoolsserver/handler/handler.go:351-372 | the handler's seven stores and its index capacity are a configuration the runs are safe for |
| `SharedDisk.Disk.ReplaceFile` | internal/filesystem/mutation.go:386-500 | a file is written only while it really holds the expected content; its adjacent backup comes first and is rolled back when the write does not happen; an error can follow the write; without interference the files are exactly the old ones or the replaced ones |
| `SharedDisk.Disk.InstallNew` | internal/filesystem/mutation.go:461-478 | a file is written only where there really is none |
| `SharedDisk.Disk.Put` | internal/filesystem/mutation.go:461-480 | the compare-and-swap both rest on: the write records what the file held, which is what was expected |
| `SharedDisk.Disk.RollBack` | internal/filesystem/mutation.go:404-425 | a rollback puts back exactly what the adjacent backup had replaced |
| `SharedDisk.StepInEvents` | internal/filesystem/mutation.go:386-500 | every program step of a trace stands in the log, was true of the files at its moment, and has the effect it says |
| `EncodingApply.Paths.ValidateBatch` | filetoolsserver/handler/convert_encoding.go:36-65 | a batch is accepted exactly when all paths resolve, no two name the same file, and no adjacent backup is a target |
| `EncodingApply.BatchIsApart` | filetoolsserver/handler/convert_encoding.go:36-73 | targets of an accepted batch are different files and their backups are none of them |
| `EncodingApply.Revalidate` | filetoolsserver/handler/exact_byte_mutation.go:82-112 | revalidation succeeds only on seeing the approved content |
| `EncodingApply.CaptureRequired` | filetoolsserver/handler/exact_byte_mutation.go:147-172 | a required backup counts only with a committed manifest of the approved content, and its identifier is the one returned |
| `EncodingApply.ValidateCaptured` | filetoolsserver/handler/exact_byte_mutation.go:138-145 | a captured backup counts exactly when it has a valid identifier and the path, the operation and the content approved |
| `EncodingApply.CaptureRequiredBackups` | filetoolsserver/handler/exact_byte_mutation.go:174-226 | success means a durable backup of the approved content of every changed target, under the identifier at the target's position; identifiers are only returned of committed manifests |
| `EncodingApply.VerifyCaptures` | filetoolsserver/handler/exact_byte_mutation.go:206-225 | a batch is accepted exactly when every changed target has its matching manifest; each identifier stands at its target |
| `EncodingApply.ApplyOne` | filetoolsserver/handler/convert_encoding_preview_apply.go:313-354 | one target: the approved content seen, replaced, and the result seen; a failure leaves one of the listed remains |
| `EncodingApply.ApplyAll` | filetoolsserver/handler/convert_encoding_preview_apply.go:307-360 | targets are converted in order up to the first failure, with counters and flags to match; with nothing interfering all are converted |
| `EncodingApply.HandleConvertEncodingApply` | filetoolsserver/handler/convert_encoding_preview_apply.go:263-360 | for every interference: nothing is written before all results were checked and all required backups are durable under the reported identifiers, each write replaces approved content by its result, the applied marks and the committed count are the finished targets, the partial flag is right, and with nothing interfering everything is converted |
| `EncodingApply.EveryWriteIsApproved` | filetoolsserver/handler/convert_encoding_preview_apply.go:307-354 | every effect in the log belongs to a changed target and is over its approved content |
| `EncodingApply.ChangesAreApproved` | filetoolsserver/handler/convert_encoding_preview_apply.go:307-354 | whatever the environment does in between, each step of a run that changes any file changes one changed target from its approved content to its result, or its adjacent backup, and no other target |
| `EncodingApply.WrittenIsReported` | filetoolsserver/handler/convert_encoding_preview_apply.go:352-354 | the written targets are those marked applied and at most the one that failed |
| `EncodingApply.OthersUntouched` | filetoolsserver/handler/convert_encoding_preview_apply.go:329-333 | no write and no adjacent backup touches another requested target |
| `RestoreApply.Revalidate` | filetoolsserver/handler/backup_store_restore.go:290-323 | revalidation succeeds only on seeing what the preview showed, and when nothing interferes exactly then |
| `RestoreApply.Classify` | filetoolsserver/handler/backup_store_restore.go:367-400 | the state after a failure says what was last seen: the result, the approved content, nothing, or something else; with no interference and no failure from here on it is the state of the file as it is |
| `RestoreApply.Fail` | filetoolsserver/handler/backup_store_restore.go:325-345 | a failure report is truthful about the file, and with no interference and no failure from here on it describes the file as it is |
| `RestoreApply.CaptureSafety` | filetoolsserver/handler/backup_store_restore.go:177-201 | the safety backup counts only with a committed manifest of the approved content, and its identifier is the one returned |
| `RestoreApply.Prepare` | filetoolsserver/handler/backup_store_restore.go:158-219 | before a commit the approved content of an existing target is durable under the returned identifier, and the target was last seen as the preview showed it |
| `RestoreApply.Commit` | filetoolsserver/handler/backup_store_restore.go:241-244 | at most one write, of the staged data: over the approved content, or where there is no file; without interference the file is as it was or holds the data, whatever fails |
| `RestoreApply.HandleRestoreApply` | filetoolsserver/handler/backup_store_restore.go:128-266 | for every interference: at most one write, of the staged data, over approved content that is durably captured under the reported identifier or where there is no file; the report is truthful, and without later interference or failure exact, also when the commit wrote and then failed; with nothing interfering the file is restored |
| `RestoreApply.OverwrittenIsCaptured` | filetoolsserver/handler/backup_store_restore.go:174-244 | approved content is never lost: whatever the environment does, a step of a run that changes any file changes the target alone, while it holds exactly what the preview showed, and that content is in a durable backup by then |
| `RestoreApply.AbsentIsNeverReplaced` | filetoolsserver/handler/backup_store_restore.go:290-301 | a target that was absent at the preview is never replaced if it appears |
| `RestoreApply.WritesOnce` | filetoolsserver/handler/backup_store_restore.go:241-244 | a run changes the files at most once |
| `ReleaseAssets.TwentyTwoNames` | scripts/release-asset-contract.js:10-51 | every release has 22 different asset names |
| `ReleaseAssets.ValidTagMeans` | scripts/release-asset-contract.js:37-41 | a tag is valid exactly when it is v, three nonempty runs of digits joined by dots, and perhaps a hyphen with a suffix of letters, digits, dots and hyphens |
| `ReleaseAssets.ValidateStagedManifest` | scripts/release-asset-contract.js:53-85 | a manifest is accepted exactly when it is for this repository, commit and tag and stages every expected name once with a valid size and digest |
| `ReleaseAssets.CompleteHasAll` | scripts/release-asset-contract.js:510-528 | an inventory of exact files is complete exactly when it has every staged name |
| `ReleaseAssets.PartialIsStaged` | scripts/release-asset-contract.js:508-526 | an inventory is accepted exactly when every asset has the name, size and digest of a staged file, is uploaded under a valid id, and no name or id is listed twice |
| `ReleaseAssets.PlanDraftAssetResume` | scripts/release-asset-contract.js:497-536 | a plan exists exactly for a mutable draft of the tag that holds some of the staged files, digest by digest; it splits the 22 names into present and missing |
| `ReleaseAssets.VerifyReleaseAssetSetForState` | scripts/release-asset-contract.js:538-570 | a release is verified exactly in the expected state with all 22 staged files and nothing else |
| `ReleaseAssets.NothingMissingIsComplete` | scripts/release-asset-contract.js:497-570 | a plan with nothing missing and the full verification accept the same drafts |
| `ReleaseFinalizer.SelectedDraft` | scripts/release-finalizer-write.js:68-88 | only a mutable draft with the manifest's metadata and inventory is selected |
| `ReleaseFinalizer.UploadOneDraftAsset` | scripts/release-finalizer-write.js:143-204 | one missing name is sent at most once, only to a draft without it that holds exact files only, and right after two equal looks (release and authority) on either side of a check that the local file is the staged asset; success means the request was answered, the local file was checked again, the exact asset is in the inventory under the same authority, and one fewer is missing; a healthy service never halts it |
| `ReleaseFinalizer.DecreasingIsShort` | scripts/release-finalizer-write.js:312-325 | remaining counts that keep decreasing run out before the step limit, whatever the uploads report |
| `ReleaseFinalizer.UploadAllDraftAssets` | scripts/release-finalizer-write.js:309-327 | the upload loop ends complete or halted: neither progress check can fail |
| `ReleaseFinalizer.CreateDraftRelease` | scripts/release-finalizer-write.js:242-303 | a draft is created only when two looks found no release; success means an empty draft of the manifest that can be filled and a check of the authority after it was seen |
| `ReleaseFinalizer.PrepareDraftAssets` | scripts/release-finalizer-write.js:331-349 | a prepared draft is complete; nothing is sent before the local inventory was checked, and nothing after a request without a response |
| `ReleaseFinalizer.PublishCompleteDraft` | scripts/release-finalizer-write.js:357-416 | only a complete draft is published, seen equal twice between two checks of the policy, and success means the request was answered and the public release was verified with 22 assets |
| `ReleaseFinalizer.FinalizeCompleteRelease` | scripts/release-finalizer-write.js:423-467 | nothing is sent before a first check, nothing after a request without a response, and success means every request was answered, the approval was checked again before publication, and the public release was verified; a healthy service always gets there from no release or a partial draft |
| `ReleaseFinalizer.Invoke` | scripts/release-finalizer-write.js:143-467 | over any sequence of invocations with lost or false responses: no present name is uploaded, releases are created only when there is none, only complete drafts are published, at most the last thing ever sent left a file that is not staged, and faithful storage keeps the inventory an exact subset |
| `ReleaseFinalizer.RequestsAreJustified` | scripts/release-finalizer-write.js:143-416 | before every request of every run: two looks at nothing before a creation; two equal looks at a draft without the name around the check of the local file before an upload; two equal looks at a complete draft between two checks of the policy before publication |
| `ReleaseFinalizer.PublicIsComplete` | scripts/release-finalizer-write.js:373-375 | a public release has exactly the 22 staged files |
| `ReleaseFinalizer.PublicIsStaged` | scripts/release-finalizer-write.js:405-411 | every asset of a public release has the name, the size and the digest of a staged file |
| `ReleaseFinalizer.HealthyRun` | scripts/release-finalizer-write.js:423-467 | for every valid tag and commit there is a run in which nothing goes wrong, and it ends with a verified public release of 22 assets |

## Left out

- FuzzyMatch.TryFuzzyMatch: scores are exact reals, so floating-point rounding of scores and of the rounded-down distance is not modelled; NaN and infinite thresholds are not values of the model.
- PatchParse.ParseUnifiedPatch: whether a file header names the target is a parameter; a patch is blank if all its characters are ASCII white space.
- RenumberText.RenumberingCommutesWithParsing: is for line numbers that stay machine integers after the shift, and for a renumbered text within the size limit of the parser.
- WindowDiff.WindowedHunksPatchTheFile: the line-diff library is not modelled; it is assumed to give hunks that take the old window to the new one without using the empty piece after the window's last newline.
- GrepFile.SearchSingleFile: opening, decoding, the binary probe and the line-length limit are not modelled; a file is its physical lines.
- GrepSearch.SearchFiles: cancellation is not modelled, and which files are readable does not change while the search runs; the plan that chooses between one worker and many is a parameter, and its estimate is not claimed to bound the retained bytes.
- GrepPaging.HandleGrep: covers the output mode that lists matches; the counting modes and the cut to the matched text are left out.
- OrderedCommit.ProcessOrdered: does not model what a worker computes; a worker limit of zero stands for the number of processors and is taken as that number.
- PreviewStore.Store.Put: closing identity handles, cloning of payloads and a store without an index are not modelled; stores of a single kind are the case where the kind check cannot fail.
- PreviewStore.Store.Claim: takes the identifier form of the stores that accept hexadecimal digits of either case; the Markdown store calls an identifier with capital letters invalid where the others call it unavailable.
- PreviewRouting.Config.RunIsSafe: the filesystem-package and patch-package stores and the restore store are taken to follow the same steps as the others; the first is not part of this model beyond its two routing callbacks.
- EncodingApply.HandleConvertEncodingApply: file modes, times and identity handles are not modelled; a failed identity or resolution check is a step that fails. Adjacent backups of two targets may be the same file.
- RestoreApply.HandleRestoreApply: that the staged data is the backup's content is not part of the run; the read-only mode is only tracked as a flag of the report, and the limit on the size of the output is left out.
- SharedDisk.Disk.ReplaceFile: verifying the expected content and renaming over it is one step, and retries of a rename are not modelled.
- ReleaseFinalizer.UploadOneDraftAsset: an inspection returns the current state of the release; HTTP details, tokens, hosted-environment checks and the authority behind an inspection are reduced to checks that may fail and one value that may change.
- ReleaseFinalizer.CreateDraftRelease: the comparison of authorities around the creation, and looking the tag up a second way, are part of each inspection.
- ReleaseAssets.ValidateStagedManifest: JSON value checks (types, arrays, objects) are left out.
- Regular expressions, text encodings, Unicode, path security, hashing and file locks are libraries or other packages and stay opaque.
- The exact and whitespace-insensitive edit matching, hints for failed edits, summaries of grep counts, diagnostics budgets, MCP results, tool schemas, server wiring and release metadata tooling would add only easy members.
- Backup store, task and deferred-operation internals are other packages and are not modelled.
