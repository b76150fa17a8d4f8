/** The asset contract of a release, scripts/release-asset-contract.js: the 22 names, the staged manifest, the
    plan for resuming a partial draft, and the check of a complete one.
 */
module ReleaseAssets {
  import opened Basics
  import opened Wrappers

  const REPOSITORY := "zoster81/scripthold"
  const MAX_ASSET_BYTES := 2 * 1024 * 1024 * 1024
  const MAX_SAFE_INTEGER := 0x1F_FFFF_FFFF_FFFF

  const NORMAL_ASSETS := [
    "scripthold_darwin_amd64",
    "scripthold_darwin_amd64.tar.gz",
    "scripthold_darwin_arm64",
    "scripthold_darwin_arm64.tar.gz",
    "scripthold_linux_amd64",
    "scripthold_linux_amd64.tar.gz",
    "scripthold_linux_arm64",
    "scripthold_linux_arm64.tar.gz",
    "scripthold_windows_amd64.exe",
    "scripthold_windows_amd64.zip",
    "scripthold_windows_arm64.exe",
    "scripthold_windows_arm64.zip"
  ]

  const MCPB_ASSETS := [
    "scripthold_darwin_amd64.mcpb",
    "scripthold_darwin_arm64.mcpb",
    "scripthold_linux_amd64.mcpb",
    "scripthold_linux_arm64.mcpb",
    "scripthold_windows_amd64.mcpb",
    "scripthold_windows_arm64.mcpb"
  ]

  datatype Asset = Asset(name: string, size: int, sha256: string)

  datatype Manifest = Manifest(repository: string, tag: string, commit: string, assets: seq<Asset>)

  /** An asset as the remote inventory lists it. */
  datatype RemoteAsset = RemoteAsset(id: int, name: string, size: int, digest: string, state: string)

  datatype Release = Release(id: int, tag: string, draft: bool, immutable: bool)

  // ----- tags, digests, names

  predicate AllLowerHex(s: string, length: nat) {
    |s| == length && forall c | c in s :: IsLowerHex(c)
  }

  function Digits(s: string): (n: nat)
    ensures n <= |s|
  {
    if s == [] || !IsDigit(s[0]) then 0 else 1 + Digits(s[1..])
  }

  /** What follows a run of digits, or none if there is no digit. */
  function AfterNumber(s: string): Option<string> {
    if Digits(s) == 0 then None else Some(s[Digits(s)..])
  }

  predicate IsSuffixChar(c: char) {
    IsDigit(c) || 'A' <= c <= 'Z' || 'a' <= c <= 'z' || c == '.' || c == '-'
  }

  /** `v1.2.3`, with an optional suffix after a hyphen. */
  predicate ValidTag(tag: string) {
    && tag != [] && tag[0] == 'v'
    && match AfterNumber(tag[1..])
       case None => false
       case Some(a) => a != [] && a[0] == '.' && match AfterNumber(a[1..])
       case None => false
       case Some(b) => b != [] && b[0] == '.' && match AfterNumber(b[1..])
       case None => false
       case Some(rest) => rest == [] || (rest[0] == '-' && |rest| > 1 && forall c | c in rest[1..] :: IsSuffixChar(c))
  }

  ghost predicate IsNumber(s: string) {
    s != [] && forall k | 0 <= k < |s| :: '0' <= s[k] <= '9'
  }

  /** A hyphen and at least one letter, digit, dot or hyphen. */
  ghost predicate IsSuffix(s: string) {
    && |s| > 1 && s[0] == '-'
    && forall k | 1 <= k < |s| :: s[k] == '.' || s[k] == '-' || '0' <= s[k] <= '9' || 'a' <= s[k] <= 'z' || 'A' <= s[k] <= 'Z'
  }

  ghost predicate IsTag(tag: string, a: string, b: string, c: string, suffix: string) {
    && IsNumber(a) && IsNumber(b) && IsNumber(c) && (suffix == [] || IsSuffix(suffix))
    && tag == ['v'] + (a + (['.'] + (b + (['.'] + (c + suffix)))))
  }

  lemma {:induction false} DigitsMeans(s: string)
    ensures forall k | 0 <= k < Digits(s) :: '0' <= s[k] <= '9'
    ensures Digits(s) < |s| ==> !('0' <= s[Digits(s)] <= '9')
  {
    if s != [] && IsDigit(s[0]) {
      DigitsMeans(s[1..]);
    }
  }

  /** Reading a number and what follows it. */
  lemma AfterNumberMeans(s: string)
    ensures AfterNumber(s).Some? ==>
              var rest := AfterNumber(s).value;
              |rest| <= |s| && s == s[..|s| - |rest|] + rest && IsNumber(s[..|s| - |rest|])
  {
    DigitsMeans(s);
  }

  lemma AfterNumberOf(a: string, rest: string)
    requires IsNumber(a) && (rest == [] || !('0' <= rest[0] <= '9'))
    ensures AfterNumber(a + rest) == Some(rest)
  {
    DigitsOf(a, rest);
    hide Digits;
    assert (a + rest)[|a|..] == rest;
  }

  lemma {:induction false} DigitsOf(a: string, rest: string)
    requires (forall k | 0 <= k < |a| :: '0' <= a[k] <= '9') && (rest == [] || !('0' <= rest[0] <= '9'))
    ensures Digits(a + rest) == |a|
  {
    if a == [] {
      assert a + rest == rest;
    } else {
      DigitsOf(a[1..], rest);
      assert (a + rest)[1..] == a[1..] + rest && (a + rest)[0] == a[0];
    }
  }

  /** A tag is valid exactly when it is `v`, three numbers with dots between them, and perhaps a suffix. */
  lemma ValidTagMeans(tag: string)
    ensures ValidTag(tag) <==> exists a, b, c, suffix :: IsTag(tag, a, b, c, suffix)
  {
    if ValidTag(tag) {
      TagHasForm(tag);
    }
    if a, b, c, suffix :| IsTag(tag, a, b, c, suffix) {
      FormIsTag(tag, a, b, c, suffix);
    }
  }

  lemma FormIsTag(tag: string, a: string, b: string, c: string, suffix: string)
    requires IsTag(tag, a, b, c, suffix)
    ensures ValidTag(tag)
  {
    var third := c + suffix;
    var second := b + (['.'] + third);
    var first := a + (['.'] + second);
    assert tag[1..] == first && (['.'] + second)[1..] == second && (['.'] + third)[1..] == third;
    AfterNumberOf(a, ['.'] + second);
    AfterNumberOf(b, ['.'] + third);
    AfterNumberOf(c, suffix);
    hide AfterNumber;
    if suffix != [] {
      assert forall x | x in suffix[1..] :: IsSuffixChar(x);
    }
  }

  lemma TagHasForm(tag: string)
    requires ValidTag(tag)
    ensures exists a, b, c, suffix :: IsTag(tag, a, b, c, suffix)
  {
    var afterA := AfterNumber(tag[1..]).value;
    var afterB := AfterNumber(afterA[1..]).value;
    var suffix := AfterNumber(afterB[1..]).value;
    var a := NumberBefore(tag[1..], afterA);
    var b := NumberBefore(afterA[1..], afterB);
    var c := NumberBefore(afterB[1..], suffix);
    SuffixHasForm(suffix);
    hide AfterNumber, IsNumber, IsSuffix, IsSuffixChar;
    FirstAndRest(tag);
    FirstAndRest(afterA);
    FirstAndRest(afterB);
    assert IsTag(tag, a, b, c, suffix);
  }

  lemma NumberBefore(s: string, rest: string) returns (number: string)
    requires AfterNumber(s) == Some(rest)
    ensures s == number + rest && IsNumber(number)
  {
    AfterNumberMeans(s);
    number := s[..|s| - |rest|];
  }

  lemma FirstAndRest(s: string)
    requires s != []
    ensures s == [s[0]] + s[1..]
  {
  }

  lemma SuffixHasForm(s: string)
    requires s == [] || (s[0] == '-' && |s| > 1 && forall c | c in s[1..] :: IsSuffixChar(c))
    ensures s == [] || IsSuffix(s)
  {
    if s != [] {
      forall k | 1 <= k < |s| ensures IsSuffixChar(s[k]) {
        assert s[k] == s[1..][k - 1] && s[k] in s[1..];
      }
    }
  }

  /** Lowercase hexadecimal digits, so many of them. */
  lemma AllLowerHexMeans(s: string, length: nat)
    ensures AllLowerHex(s, length) <==> |s| == length && forall k | 0 <= k < |s| :: '0' <= s[k] <= '9' || 'a' <= s[k] <= 'f'
  {
    if forall k | 0 <= k < |s| :: '0' <= s[k] <= '9' || 'a' <= s[k] <= 'f' {
      assert forall c | c in s :: IsLowerHex(c);
    } else {
      var k :| 0 <= k < |s| && !('0' <= s[k] <= '9' || 'a' <= s[k] <= 'f');
      assert s[k] in s;
    }
  }

  function ExpectedNames(tag: string): seq<string> {
    NORMAL_ASSETS
    + ["checksums.txt", "scripthold-" + tag + "-provenance.sigstore.json", "scripthold-" + tag + "-provenance.intoto.jsonl"]
    + MCPB_ASSETS
    + ["mcpb-checksums.txt"]
  }

  // ----- the staged manifest

  ghost predicate ValidAsset(a: Asset) {
    0 < a.size <= MAX_ASSET_BYTES && AllLowerHex(a.sha256, 64)
  }

  /** One valid entry for every expected name. */
  ghost predicate Stages(assets: seq<Asset>, expected: set<string>) {
    |assets| == |expected| && StagesUpTo(assets, expected, |assets|)
  }

  /** The first `n` entries are valid, expected and different. */
  ghost predicate StagesUpTo(assets: seq<Asset>, expected: set<string>, n: nat)
    requires n <= |assets|
  {
    && (forall k | 0 <= k < n :: assets[k].name in expected && ValidAsset(assets[k]))
    && (forall i, j | 0 <= i < j < n :: assets[i].name != assets[j].name)
  }

  ghost predicate ValidManifest(m: Manifest) {
    && m.repository == REPOSITORY && AllLowerHex(m.commit, 40) && ValidTag(m.tag)
    && Stages(m.assets, Elements(ExpectedNames(m.tag)))
  }

  // ----- the 22 names are different

  /** The place of a name in the list, told from a few of its characters. */
  function Rank(name: string): int {
    if |name| == 13 then 12
    else if |name| == 18 then 21
    else if |name| < 22 then -1
    else
      var last := name[|name| - 1];
      if name[10] == '-' then if last == 'n' then 13 else 14
      else if name[11] == 'd' then PlatformRank(name[19], last, 0, 15)
      else if name[11] == 'l' then PlatformRank(name[18], last, 4, 17)
      else PlatformRank(name[20], last, 8, 19)
  }

  function PlatformRank(arch: char, last: char, binaries: int, bundles: int): int {
    (if arch == 'm' then 0 else if last == 'b' then 1 else 2)
    + if last == 'b' then bundles else if last in {'z', 'p'} then binaries + 1 else binaries
  }

  lemma NormalRank(k: nat)
    requires k < 12
    ensures Rank(NORMAL_ASSETS[k]) == k
  {
  }

  lemma BundleRank(k: nat)
    requires k < 6
    ensures Rank(MCPB_ASSETS[k]) == 15 + k
  {
  }

  lemma OtherRanks(tag: string)
    ensures Rank("checksums.txt") == 12 && Rank("mcpb-checksums.txt") == 21
    ensures Rank("scripthold-" + tag + "-provenance.sigstore.json") == 13
    ensures Rank("scripthold-" + tag + "-provenance.intoto.jsonl") == 14
  {
  }

  lemma RankIsPlace(tag: string, k: nat)
    requires k < |ExpectedNames(tag)|
    ensures Rank(ExpectedNames(tag)[k]) == k
  {
    OtherRanks(tag);
    if k < 12 {
      NormalRank(k);
    } else if 15 <= k < 21 {
      BundleRank(k - 15);
    }
    hide Rank;
  }

  /** Every release has 22 different asset names. */
  lemma TwentyTwoNames(tag: string)
    ensures |ExpectedNames(tag)| == 22 && |Elements(ExpectedNames(tag))| == 22
    ensures forall i, j | 0 <= i < j < 22 :: ExpectedNames(tag)[i] != ExpectedNames(tag)[j]
  {
    var names := ExpectedNames(tag);
    assert |names| == 22;
    hide ExpectedNames, Rank;
    forall i, j | 0 <= i < j < 22 ensures names[i] != names[j] {
      RankIsPlace(tag, i);
      RankIsPlace(tag, j);
    }
    DistinctSize(names);
  }

  // ----- validating the manifest

  /** The entries by name. */
  function Files(assets: seq<Asset>): (files: map<string, Asset>)
    ensures forall name | name in files :: exists k :: 0 <= k < |assets| && assets[k] == files[name] && assets[k].name == name
    ensures forall k | 0 <= k < |assets| :: assets[k].name in files
  {
    if assets == [] then map[] else Files(assets[..|assets| - 1])[assets[|assets| - 1].name := assets[|assets| - 1]]
  }

  lemma {:induction false} FilesAt(assets: seq<Asset>, k: nat)
    requires k < |assets| && forall i, j | 0 <= i < j < |assets| :: assets[i].name != assets[j].name
    ensures Files(assets)[assets[k].name] == assets[k]
  {
    if k < |assets| - 1 {
      FilesAt(assets[..|assets| - 1], k);
    }
  }

  /** The loop over the manifest's entries. */
  method ValidateAssets(assets: seq<Asset>, expected: set<string>) returns (files: Option<map<string, Asset>>)
    ensures files == if Stages(assets, expected) then Some(Files(assets)) else None
  {
    if |assets| != |expected| {
      return None;
    }
    var result: map<string, Asset> := map[];
    assert assets[..|assets|] == assets;
    hide StagesUpTo, Files, ValidAsset;
    NothingStaged(assets, expected);
    for n := 0 to |assets|
      invariant result == Files(assets[..n]) && StagesUpTo(assets, expected, n)
    {
      var asset := assets[n];
      StagesStep(assets, expected, n);
      FilesStep(assets, n);
      if asset.name !in expected || asset.name in result {
        return None;
      }
      AssetIsValid(asset);
      if asset.size <= 0 || asset.size > MAX_ASSET_BYTES || !AllLowerHex(asset.sha256, 64) {
        return None;
      }
      result := result[asset.name := asset];
    }
    return Some(result);
  }

  lemma AssetIsValid(a: Asset)
    ensures ValidAsset(a) <==> 0 < a.size <= 2147483648 && AllLowerHex(a.sha256, 64)
  {
  }

  lemma NothingStaged(assets: seq<Asset>, expected: set<string>)
    ensures StagesUpTo(assets, expected, 0) && Files(assets[..0]) == map[]
  {
  }

  /** One more entry, and what its failure says about all of them. */
  lemma StagesStep(assets: seq<Asset>, expected: set<string>, n: nat)
    requires n < |assets| && StagesUpTo(assets, expected, n)
    ensures StagesUpTo(assets, expected, n + 1)
        <==> assets[n].name in expected && assets[n].name !in Files(assets[..n]) && ValidAsset(assets[n])
    ensures StagesUpTo(assets, expected, |assets|) ==> StagesUpTo(assets, expected, n + 1)
  {
    hide ValidAsset, Files;
    NamesStaged(assets[..n], assets[n].name);
    if assets[n].name in Files(assets[..n]) {
      var k :| 0 <= k < |assets[..n]| && assets[..n][k].name == assets[n].name;
      assert assets[k].name == assets[n].name;
    } else {
      forall k | 0 <= k < n ensures assets[k].name != assets[n].name {
        assert assets[..n][k] == assets[k];
      }
    }
  }

  lemma NamesStaged(assets: seq<Asset>, name: string)
    ensures name in Files(assets) <==> exists k :: 0 <= k < |assets| && assets[k].name == name
  {
    if name in Files(assets) {
      var k :| 0 <= k < |assets| && assets[k] == Files(assets)[name] && assets[k].name == name;
    }
  }

  lemma FilesStep(assets: seq<Asset>, n: nat)
    requires n < |assets|
    ensures Files(assets[..n + 1]) == Files(assets[..n])[assets[n].name := assets[n]]
  {
    assert assets[..n + 1][..n] == assets[..n];
  }

  method ValidateStagedManifest(m: Manifest) returns (files: Option<map<string, Asset>>)
    ensures files == if ValidManifest(m) then Some(Files(m.assets)) else None
  {
    if m.repository != REPOSITORY || !AllLowerHex(m.commit, 40) || !ValidTag(m.tag) {
      return None;
    }
    var names := ExpectedNames(m.tag);
    files := ValidateAssets(m.assets, Elements(names));
  }

  // ----- remote inventories

  /** A remote asset that is, byte for byte, the staged one of its name. */
  ghost predicate Exact(files: map<string, Asset>, r: RemoteAsset) {
    && r.name in files && r.state == "uploaded" && 0 < r.id <= MAX_SAFE_INTEGER
    && r.size == files[r.name].size && r.digest == "sha256:" + files[r.name].sha256
  }

  /** Some of the staged files, each at most once. */
  ghost predicate Partial(files: map<string, Asset>, remote: seq<RemoteAsset>) {
    PartialUpTo(files, remote, |remote|)
  }

  ghost predicate PartialUpTo(files: map<string, Asset>, remote: seq<RemoteAsset>, n: nat)
    requires n <= |remote|
  {
    && (forall k | 0 <= k < n :: Exact(files, remote[k]))
    && (forall i, j | 0 <= i < j < n :: remote[i].name != remote[j].name && remote[i].id != remote[j].id)
  }

  /** All of the staged files, each once. */
  ghost predicate Complete(files: map<string, Asset>, remote: seq<RemoteAsset>) {
    Partial(files, remote) && |remote| == |files|
  }

  function RemoteNames(remote: seq<RemoteAsset>): set<string> {
    set k | 0 <= k < |remote| :: remote[k].name
  }

  lemma {:induction false} RemoteCount(files: map<string, Asset>, remote: seq<RemoteAsset>)
    requires Partial(files, remote)
    ensures |RemoteNames(remote)| == |remote| && RemoteNames(remote) <= files.Keys
  {
    if remote != [] {
      var init, last := remote[..|remote| - 1], remote[|remote| - 1];
      assert forall k | 0 <= k < |init| :: init[k] == remote[k];
      RemoteCount(files, init);
      assert RemoteNames(remote) == RemoteNames(init) + {last.name};
    } else {
      assert RemoteNames(remote) == {};
    }
  }

  /** A complete inventory has every staged name, and only a complete one does. */
  lemma CompleteHasAll(files: map<string, Asset>, remote: seq<RemoteAsset>)
    requires Partial(files, remote)
    ensures |remote| <= |files|
    ensures Complete(files, remote) <==> RemoteNames(remote) == files.Keys
  {
    RemoteCount(files, remote);
    SubsetSize(RemoteNames(remote), files.Keys);
  }

  lemma ExactMeans(files: map<string, Asset>, r: RemoteAsset)
    ensures Exact(files, r) <==>
              && r.name in files && 0 < r.id <= MAX_SAFE_INTEGER && r.state == "uploaded"
              && r.size == files[r.name].size && r.digest == "sha256:" + files[r.name].sha256
  {
  }

  /** A remote asset has the name, the size and the digest of a staged file. */
  ghost predicate IsStaged(assets: seq<Asset>, r: RemoteAsset) {
    exists a: Asset :: a in assets && IsCopyOf(a, r)
  }

  predicate IsCopyOf(a: Asset, r: RemoteAsset) {
    r.name == a.name && r.size == a.size && r.digest == "sha256:" + a.sha256 && r.state == "uploaded" && 0 < r.id <= MAX_SAFE_INTEGER
  }

  /** Every remote asset is a staged file, and no name and no id is listed twice. */
  ghost predicate StagedOnce(assets: seq<Asset>, remote: seq<RemoteAsset>) {
    && (forall k | 0 <= k < |remote| :: IsStaged(assets, remote[k]))
    && (forall i, j | 0 <= i < j < |remote| :: remote[i].name != remote[j].name && remote[i].id != remote[j].id)
  }

  /** What it is to be a copy of a staged file. */
  lemma StagedMeans(assets: seq<Asset>, r: RemoteAsset) returns (a: Asset)
    requires IsStaged(assets, r)
    ensures a in assets && r.name == a.name && r.size == a.size && r.digest == "sha256:" + a.sha256
    ensures r.state == "uploaded" && 0 < r.id <= MAX_SAFE_INTEGER
  {
    a :| a in assets && IsCopyOf(a, r);
  }

  lemma ExactIsStaged(m: Manifest, r: RemoteAsset)
    requires ValidManifest(m)
    ensures Exact(Files(m.assets), r) <==> IsStaged(m.assets, r)
  {
    var files := Files(m.assets);
    ExactMeans(files, r);
    hide Exact, Files, ExpectedNames, ValidAsset;
    if Exact(files, r) {
      var k :| 0 <= k < |m.assets| && m.assets[k] == files[r.name] && m.assets[k].name == r.name;
      assert IsCopyOf(m.assets[k], r);
    }
    if IsStaged(m.assets, r) {
      var a :| a in m.assets && IsCopyOf(a, r);
      var k :| 0 <= k < |m.assets| && m.assets[k] == a;
      FilesAt(m.assets, k);
    }
  }

  /** An inventory of exact files is one of copies of the staged files, each once. */
  lemma PartialIsStaged(m: Manifest, remote: seq<RemoteAsset>)
    requires ValidManifest(m)
    ensures Partial(Files(m.assets), remote) <==> StagedOnce(m.assets, remote)
  {
    hide ValidManifest, Exact, IsStaged, Files;
    forall k | 0 <= k < |remote| ensures Exact(Files(m.assets), remote[k]) <==> IsStaged(m.assets, remote[k]) {
      ExactIsStaged(m, remote[k]);
    }
  }

  // ----- planning and verifying

  function RemoteIds(remote: seq<RemoteAsset>): set<int> {
    set k | 0 <= k < |remote| :: remote[k].id
  }

  /** The listed ids by name. */
  function Ids(remote: seq<RemoteAsset>): (ids: map<string, int>)
    ensures ids.Keys == RemoteNames(remote)
  {
    if remote == [] then map[]
    else
      var init, last := remote[..|remote| - 1], remote[|remote| - 1];
      NamesOneMore(init, last);
      assert remote == init + [last];
      Ids(init)[last.name := last.id]
  }

  lemma NamesOneMore(remote: seq<RemoteAsset>, asset: RemoteAsset)
    ensures RemoteNames(remote + [asset]) == RemoteNames(remote) + {asset.name}
  {
    var more := remote + [asset];
    assert forall k | 0 <= k < |remote| :: more[k] == remote[k];
    assert more[|remote|] == asset;
  }

  /** One more listed asset, and what its failure says about all of them. */
  lemma PartialStep(files: map<string, Asset>, remote: seq<RemoteAsset>, n: nat)
    requires n < |remote| && PartialUpTo(files, remote, n)
    ensures PartialUpTo(files, remote, n + 1)
        <==> Exact(files, remote[n]) && remote[n].name !in RemoteNames(remote[..n]) && remote[n].id !in RemoteIds(remote[..n])
    ensures PartialUpTo(files, remote, |remote|) ==> PartialUpTo(files, remote, n + 1)
    ensures Ids(remote[..n + 1]) == Ids(remote[..n])[remote[n].name := remote[n].id]
    ensures RemoteIds(remote[..n + 1]) == RemoteIds(remote[..n]) + {remote[n].id}
  {
    hide Exact;
    assert remote[..n + 1][..n] == remote[..n];
    assert forall k | 0 <= k < n :: remote[..n][k] == remote[k] == remote[..n + 1][k];
    assert remote[..n + 1][n] == remote[n];
  }

  lemma NothingListed(files: map<string, Asset>, remote: seq<RemoteAsset>)
    ensures PartialUpTo(files, remote, 0) && Ids(remote[..0]) == map[] && RemoteIds(remote[..0]) == {}
  {
  }

  /** The loop over the remote inventory. */
  method CheckInventory(files: map<string, Asset>, remote: seq<RemoteAsset>) returns (ids: Option<map<string, int>>)
    ensures ids == if Partial(files, remote) then Some(Ids(remote)) else None
  {
    var byName: map<string, int>, seenIds: set<int> := map[], {};
    NothingListed(files, remote);
    assert remote[..|remote|] == remote;
    hide PartialUpTo, Ids, RemoteNames, RemoteIds, Exact;
    for n := 0 to |remote|
      invariant PartialUpTo(files, remote, n)
      invariant byName == Ids(remote[..n]) && seenIds == RemoteIds(remote[..n])
    {
      PartialStep(files, remote, n);
      ExactMeans(files, remote[n]);
      var asset := remote[n];
      if asset.name !in files || asset.name in byName {
        return None;
      }
      if asset.id <= 0 || asset.id > MAX_SAFE_INTEGER || asset.id in seenIds || asset.state != "uploaded" {
        return None;
      }
      var original := files[asset.name];
      if asset.size != original.size || asset.digest != "sha256:" + original.sha256 {
        return None;
      }
      byName, seenIds := byName[asset.name := asset.id], seenIds + {asset.id};
    }
    return Some(byName);
  }

  datatype Present = Present(name: string, id: int)

  datatype Plan = Plan(releaseId: int, tag: string, commit: string, present: seq<Present>, missing: seq<string>)

  function Listed(names: seq<string>, ids: map<string, int>): seq<Present> {
    if names == [] then []
    else
      var name := names[|names| - 1];
      Listed(names[..|names| - 1], ids) + if name in ids then [Present(name, ids[name])] else []
  }

  function Unlisted(names: seq<string>, have: set<string>): (missing: seq<string>)
    ensures forall n :: n in missing <==> n in names && n !in have
  {
    if names == [] then [] else Unlisted(names[..|names| - 1], have) + var n := names[|names| - 1]; if n in have then [] else [n]
  }

  lemma {:induction false} ListedCount(names: seq<string>, ids: map<string, int>)
    ensures |Listed(names, ids)| + |Unlisted(names, ids.Keys)| == |names|
  {
    if names != [] {
      ListedCount(names[..|names| - 1], ids);
    }
  }

  /** The loop over the expected names. */
  method SplitNames(names: seq<string>, ids: map<string, int>) returns (present: seq<Present>, missing: seq<string>)
    ensures present == Listed(names, ids) && missing == Unlisted(names, ids.Keys)
  {
    present, missing := [], [];
    assert names[..|names|] == names;
    for k := 0 to |names|
      invariant present == Listed(names[..k], ids) && missing == Unlisted(names[..k], ids.Keys)
    {
      assert names[..k + 1][..k] == names[..k];
      if names[k] in ids {
        present := present + [Present(names[k], ids[names[k]])];
      } else {
        missing := missing + [names[k]];
      }
    }
  }

  /** The release can be resumed as a draft of the manifest. */
  ghost predicate Resumable(m: Manifest, release: Release, remote: seq<RemoteAsset>) {
    && ValidManifest(m) && 0 < release.id <= MAX_SAFE_INTEGER && release.tag == m.tag
    && release.draft && !release.immutable && Partial(Files(m.assets), remote)
  }

  function PlanOf(m: Manifest, release: Release, remote: seq<RemoteAsset>): Plan {
    var names := ExpectedNames(m.tag);
    Plan(release.id, m.tag, m.commit, Listed(names, Ids(remote)), Unlisted(names, RemoteNames(remote)))
  }

  lemma ResumableMeans(m: Manifest, release: Release, remote: seq<RemoteAsset>)
    ensures Resumable(m, release, remote) <==>
              && ValidManifest(m) && 0 < release.id <= MAX_SAFE_INTEGER && release.tag == m.tag
              && release.draft && !release.immutable && StagedOnce(m.assets, remote)
  {
    hide ValidManifest, IsCopyOf, Partial, Files;
    if ValidManifest(m) {
      PartialIsStaged(m, remote);
    }
  }

  method PlanDraftAssetResume(m: Manifest, release: Release, remote: seq<RemoteAsset>) returns (plan: Option<Plan>)
    ensures plan == if Resumable(m, release, remote) then Some(PlanOf(m, release, remote)) else None
    ensures plan.Some? <==>
              && ValidManifest(m) && 0 < release.id <= MAX_SAFE_INTEGER && release.tag == m.tag
              && release.draft && !release.immutable && StagedOnce(m.assets, remote)
  {
    ResumableMeans(m, release, remote);
    hide StagedOnce, IsCopyOf;
    hide ValidManifest, Partial, Files, ExpectedNames, RemoteNames;
    var files := ValidateStagedManifest(m);
    if files.None? || !(0 < release.id <= MAX_SAFE_INTEGER) || release.tag != m.tag || !release.draft || release.immutable {
      return None;
    }
    NoMoreThanStaged(files.value, remote);
    if |remote| > |files.value| {
      return None;
    }
    var have := CheckInventory(files.value, remote);
    if have.None? {
      return None;
    }
    var present, missing := SplitNames(ExpectedNames(m.tag), have.value);
    return Some(Plan(release.id, m.tag, m.commit, present, missing));
  }

  lemma NoMoreThanStaged(files: map<string, Asset>, remote: seq<RemoteAsset>)
    ensures Partial(files, remote) ==> |remote| <= |files|
  {
    if Partial(files, remote) {
      CompleteHasAll(files, remote);
    }
  }

  /** The release is in the expected state and holds exactly the staged files. */
  ghost predicate Verified(m: Manifest, release: Release, remote: seq<RemoteAsset>, draft: bool, immutable: bool) {
    && ValidManifest(m) && 0 < release.id <= MAX_SAFE_INTEGER && release.tag == m.tag
    && release.draft == draft && release.immutable == immutable && Complete(Files(m.assets), remote)
  }

  lemma VerifiedMeans(m: Manifest, release: Release, remote: seq<RemoteAsset>, draft: bool, immutable: bool)
    ensures Verified(m, release, remote, draft, immutable) <==>
              && ValidManifest(m) && 0 < release.id <= MAX_SAFE_INTEGER && release.tag == m.tag
              && release.draft == draft && release.immutable == immutable && |remote| == 22 && StagedOnce(m.assets, remote)
  {
    hide ValidManifest, StagedOnce, Partial, Files;
    if ValidManifest(m) {
      PartialIsStaged(m, remote);
      TwentyTwoFiles(m);
    }
  }

  method VerifyReleaseAssetSetForState(m: Manifest, release: Release, remote: seq<RemoteAsset>, draft: bool,
                                       immutable: bool)
    returns (count: Option<nat>)
    ensures count == if Verified(m, release, remote, draft, immutable) then Some(22) else None
    ensures count.Some? <==>
              && ValidManifest(m) && 0 < release.id <= MAX_SAFE_INTEGER && release.tag == m.tag
              && release.draft == draft && release.immutable == immutable && |remote| == 22 && StagedOnce(m.assets, remote)
  {
    VerifiedMeans(m, release, remote, draft, immutable);
    hide StagedOnce;
    hide ValidManifest, Partial, Files, RemoteNames, Ids;
    var files := ValidateStagedManifest(m);
    if files.None? || !(0 < release.id <= MAX_SAFE_INTEGER) || release.tag != m.tag
       || release.draft != draft || release.immutable != immutable || |remote| != |files.value| {
      return None;
    }
    TwentyTwoFiles(m);
    var have := CheckInventory(files.value, remote);
    if have.None? {
      return None;
    }
    RemoteCount(files.value, remote);
    if |have.value| != |files.value| {
      return None;
    }
    return Some(|have.value|);
  }

  /** A valid manifest stages every expected name, and so 22 files. */
  lemma TwentyTwoFiles(m: Manifest)
    requires ValidManifest(m)
    ensures Files(m.assets).Keys == Elements(ExpectedNames(m.tag)) && |Files(m.assets)| == 22
  {
    TwentyTwoNames(m.tag);
    hide ExpectedNames, ValidAsset;
    var names := seq(|m.assets|, k requires 0 <= k < |m.assets| => m.assets[k].name);
    DistinctSize(names);
    assert Elements(names) <= Files(m.assets).Keys <= Elements(ExpectedNames(m.tag));
    SubsetSize(Elements(names), Files(m.assets).Keys);
    SubsetSize(Files(m.assets).Keys, Elements(ExpectedNames(m.tag)));
  }

  lemma UnlistedNothing(names: seq<string>, have: set<string>)
    ensures Unlisted(names, have) == [] <==> Elements(names) <= have
  {
    if Unlisted(names, have) == [] {
      forall n | n in Elements(names) ensures n in have {
        assert n !in Unlisted(names, have);
      }
    } else {
      assert Unlisted(names, have)[0] in Unlisted(names, have);
    }
  }

  /** The plan of a draft has nothing missing exactly when the draft is verified as complete. */
  lemma NothingMissingIsComplete(m: Manifest, release: Release, remote: seq<RemoteAsset>)
    requires Resumable(m, release, remote)
    ensures PlanOf(m, release, remote).missing == [] <==> Verified(m, release, remote, true, false)
    ensures |PlanOf(m, release, remote).present| + |PlanOf(m, release, remote).missing| == 22
  {
    hide ExpectedNames, Files, RemoteNames, ValidManifest, Partial, Listed, Unlisted, Elements, Ids;
    TwentyTwoNames(m.tag);
    TwentyTwoFiles(m);
    var names, have, files := ExpectedNames(m.tag), RemoteNames(remote), Files(m.assets);
    ListedCount(names, Ids(remote));
    CompleteHasAll(files, remote);
    RemoteCount(files, remote);
    UnlistedNothing(names, have);
  }
}
