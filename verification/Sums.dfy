/** `SHA256SUMS`: how the publisher writes it, how the tap bump reads it back, and how the artifacts of
    a build are proved against the hashes their producers wrote (scripts/release-github.py). */
module Sums {
  import opened Texts
  import opened Lines

  /** The asset `publish` computes itself. */
  const SUMS := "SHA256SUMS"

  const SIDECAR := ".sha256"

  /** Python's `str.isspace`, which `strip` and the `\S` of a regular expression use. */
  predicate IsSpace(c: char) {
    IsWhiteSpace(c) || '\U{1C}' <= c <= '\U{1F}'
  }

  predicate IsBlank(line: string) {
    forall c :: c in line ==> IsSpace(c)
  }

  predicate IsHexDigit(c: char) {
    '0' <= c <= '9' || 'a' <= c <= 'f'
  }

  /** `[0-9a-f]{64}` */
  predicate IsDigest(text: string) {
    |text| == 64 && forall c :: c in text ==> IsHexDigit(c)
  }

  /** A name one line of `SHA256SUMS` can carry. */
  predicate IsBareName(name: string) {
    name != "" && forall c :: c in name ==> c != ' ' && c != '/' && !IsLineBreak(c)
  }

  // ----- SHA256SUMS

  /** `<hash>  <name>` per line, in the order of `names`. */
  function SumsLines(names: seq<string>, digests: map<string, string>): string
    requires forall n :: n in names ==> n in digests
  {
    if names == [] then "" else digests[names[0]] + "  " + names[0] + "\n" + SumsLines(names[1..], digests)
  }

  /** `sums_text` */
  function SumsText(digests: map<string, string>): string {
    AscendingListsTheSet(digests.Keys);
    SumsLines(Ascending(digests.Keys), digests)
  }

  /** `^([0-9a-f]{64})  ([^ /]+)$` against one line: the hash and the name. */
  function ParseSumsLine(line: string): Option<(string, string)> {
    if |line| > 66 && IsDigest(line[..64]) && line[64..66] == "  "
       && (forall c :: c in line[66..] ==> c != ' ' && c != '/')
    then Some((line[..64], line[66..]))
    else None
  }

  /** The dictionary the lines leave behind, `None` when one of them is refused. */
  function ReadSumsLines(lines: seq<string>, digests: map<string, string>): Option<map<string, string>> {
    if lines == [] then Some(digests)
    else if IsBlank(lines[0]) then ReadSumsLines(lines[1..], digests)
    else
      match ParseSumsLine(lines[0])
      case None => None
      case Some((hash, name)) => ReadSumsLines(lines[1..], digests[name := hash])
  }

  /** What `parse_sums` accepts: the dictionary, or `None` when it dies. */
  function ReadSums(text: string): Option<map<string, string>> {
    var read := ReadSumsLines(SplitLines(text, Unicode), map[]);
    if read.Some? && read.value == map[] then None else read
  }

  /** `parse_sums` */
  method ParseSums(text: string) returns (digests: Option<map<string, string>>)
    ensures digests == ReadSums(text)
  {
    var lines := SplitLines(text, Unicode);
    var found: map<string, string> := map[];
    var i := 0;
    while i < |lines|
      invariant 0 <= i <= |lines|
      invariant ReadSumsLines(lines, map[]) == ReadSumsLines(lines[i..], found)
    {
      assert lines[i..][1..] == lines[i + 1..];
      if !IsBlank(lines[i]) {
        var parsed := ParseSumsLine(lines[i]);
        if parsed.None? {
          return None;
        }
        found := found[parsed.value.1 := parsed.value.0];
      }
      i := i + 1;
    }
    digests := if found == map[] then None else Some(found);
  }

  // ----- what is written is what is read

  function Restricted(digests: map<string, string>, names: seq<string>): map<string, string> {
    map n | n in names && n in digests :: digests[n]
  }

  ghost predicate AllBare(digests: map<string, string>) {
    forall n :: n in digests ==> IsBareName(n) && IsDigest(digests[n])
  }

  lemma WrittenLineIsRead(hash: string, name: string)
    requires IsDigest(hash) && IsBareName(name)
    ensures !IsBlank(hash + "  " + name)
    ensures ParseSumsLine(hash + "  " + name) == Some((hash, name))
    ensures forall c :: c in hash + "  " + name ==> !EndsLine(Unicode, c)
  {
    var line := hash + "  " + name;
    forall c | c in line ensures !EndsLine(Unicode, c) {
      assert c in hash || c in "  " || c in name;
    }
    assert line[..64] == hash && line[64..66] == "  " && line[66..] == name;
    assert line[0] in hash && !IsSpace(line[0]);
  }

  lemma {:induction false} WrittenLinesAreRead(names: seq<string>, digests: map<string, string>, before: map<string, string>)
    requires forall n :: n in names ==> n in digests && IsBareName(n) && IsDigest(digests[n])
    ensures var after := ReadSumsLines(SplitLines(SumsLines(names, digests), Unicode), before);
      after.Some? && after.value == before + Restricted(digests, names)
  {
    hide SplitLines, IsBlank, ParseSumsLine, IsBareName, IsDigest, EndsLine, Restricted;
    if names == [] {
      EmptyHasNoLines(Unicode);
      NothingRestricted(digests);
      assert before + map[] == before;
    } else {
      var name, hash := names[0], digests[names[0]];
      var line := hash + "  " + name;
      var rest := SumsLines(names[1..], digests);
      WrittenLineIsRead(hash, name);
      FirstLineIsCutOff(line, rest, Unicode);
      assert SumsLines(names, digests) == line + "\n" + rest;
      WrittenLinesAreRead(names[1..], digests, before[name := hash]);
      var lines := SplitLines(SumsLines(names, digests), Unicode);
      assert lines[0] == line && lines[1..] == SplitLines(rest, Unicode);
      FirstOfRestricted(digests, names, before);
    }
  }

  lemma NothingRestricted(digests: map<string, string>)
    ensures Restricted(digests, []) == map[]
  {
  }

  lemma FirstOfRestricted(digests: map<string, string>, names: seq<string>, before: map<string, string>)
    requires names != [] && names[0] in digests
    ensures before[names[0] := digests[names[0]]] + Restricted(digests, names[1..]) == before + Restricted(digests, names)
  {
  }

  lemma {:induction false} ReadNamesAreBare(lines: seq<string>, before: map<string, string>)
    requires AllBare(before)
    requires forall line, c :: line in lines && c in line ==> !IsLineBreak(c)
    ensures var after := ReadSumsLines(lines, before); after.Some? ==> AllBare(after.value)
  {
    if lines != [] {
      var line := lines[0];
      if IsBlank(line) {
        ReadNamesAreBare(lines[1..], before);
      } else {
        var parsed := ParseSumsLine(line);
        if parsed.Some? {
          forall c | c in parsed.value.1 ensures c in line {}
          ReadNamesAreBare(lines[1..], before[parsed.value.1 := parsed.value.0]);
        }
      }
    }
  }

  lemma ReadingYieldsBareNames(text: string)
    ensures ReadSums(text).Some? ==> AllBare(ReadSums(text).value) && ReadSums(text).value != map[]
  {
    LinesHoldNoBreak(text, Unicode);
    ReadNamesAreBare(SplitLines(text, Unicode), map[]);
  }

  /** `parse_sums(sums_text(d)) = d` exactly for the dictionaries a release can have: some entry, every
      value a digest, and every name one that fits on its line. */
  lemma SumsRoundTrip(digests: map<string, string>)
    ensures ReadSums(SumsText(digests)) == Some(digests) <==> digests != map[] && AllBare(digests)
  {
    hide AllBare, ReadSums, SumsText;
    if AllBare(digests) {
      BareSumsAreRead(digests);
    }
    ReadingYieldsBareNames(SumsText(digests));
  }

  lemma BareSumsAreRead(digests: map<string, string>)
    requires AllBare(digests)
    ensures ReadSums(SumsText(digests)) == if digests == map[] then None else Some(digests)
  {
    hide ReadSumsLines, SumsLines, SplitLines, StrictlyAscending, IsBareName, IsDigest, Restricted, Ascending;
    AscendingListsTheSet(digests.Keys);
    WrittenLinesAreRead(Ascending(digests.Keys), digests, map[]);
    RestrictedToAll(digests, Ascending(digests.Keys));
  }

  lemma RestrictedToAll(digests: map<string, string>, names: seq<string>)
    requires forall n :: n in digests ==> n in names
    ensures map[] + Restricted(digests, names) == digests
  {
  }

  // ----- the build's artifacts

  /** One file found under `--dist`, by its base name. */
  datatype File = File(name: string, content: Bytes)

  /** A payload asset `collect_dist` has proved against its producer's hash. */
  datatype LocalAsset = LocalAsset(name: string, data: Bytes, sha256: string)

  function ContentsNamed(dist: seq<File>, name: string): seq<Bytes> {
    if dist == [] then []
    else (if dist[0].name == name then [dist[0].content] else []) + ContentsNamed(dist[1..], name)
  }

  function Wanted(payload: seq<string>): set<string> {
    (set n | n in payload) + (set n | n in payload :: n + SIDECAR)
  }

  /** `^(pessimal-agent-|Pessimal-|SHA256SUMS)` */
  predicate IsAssetShaped(name: string) {
    StartsWith(name, "pessimal-agent-") || StartsWith(name, "Pessimal-") || StartsWith(name, SUMS)
  }

  function NonBlank(lines: seq<string>): seq<string> {
    if lines == [] then []
    else (if IsBlank(lines[0]) then [] else [lines[0]]) + NonBlank(lines[1..])
  }

  /** `read_producer_hash`: the one `<hash>  <name>` line a producer wrote beside `name`. */
  function ProducerHash(text: string, name: string): Option<string> {
    var lines := NonBlank(SplitLines(text, TextMode));
    if |lines| != 1 then None
    else
      var line := lines[0];
      if |line| > 66 && IsDigest(line[..64]) && line[64] == ' ' && (line[65] == ' ' || line[65] == '*')
         && (forall c :: c in line[66..] ==> !IsSpace(c)) && line[66..] == name
      then Some(line[..64])
      else None
  }

  predicate IsFoundOnce(dist: seq<File>, name: string) {
    |ContentsNamed(dist, name)| == 1 && |ContentsNamed(dist, name + SIDECAR)| == 1
  }

  /** One payload asset of the build, proved: one file, not empty, one sidecar, hashes equal. */
  ghost predicate IsProved(dist: seq<File>, sha: Bytes -> string, name: string) {
    var contents, sidecars := ContentsNamed(dist, name), ContentsNamed(dist, name + SIDECAR);
    IsFoundOnce(dist, name) && contents[0] != ""
    && ProducerHash(sidecars[0], name) == Some(sha(contents[0]))
  }

  /** The directory holds exactly the release: nothing missing, nothing twice, nothing else that looks
      like an asset, and every asset proved. */
  ghost predicate IsExactlyTheRelease(dist: seq<File>, sha: Bytes -> string, payload: seq<string>) {
    (forall f :: f in dist && f.name !in Wanted(payload) ==> !IsAssetShaped(f.name))
    && (forall n :: n in payload ==> IsProved(dist, sha, n))
  }

  function Collected(dist: seq<File>, sha: Bytes -> string, payload: seq<string>): seq<LocalAsset> {
    seq(|payload|, i requires 0 <= i < |payload| =>
      var contents := ContentsNamed(dist, payload[i]);
      var data := if contents == [] then "" else contents[0];
      LocalAsset(payload[i], data, sha(data)))
  }

  /** Each payload asset and its sidecar were found exactly once. */
  method FoundOnce(dist: seq<File>, payload: seq<string>) returns (ok: bool)
    ensures ok <==> forall n :: n in payload ==> IsFoundOnce(dist, n)
  {
    hide IsFoundOnce;
    var problems := 0;
    var i := 0;
    while i < |payload|
      invariant 0 <= i <= |payload| && problems >= 0
      invariant problems == 0 <==> forall k :: 0 <= k < i ==> IsFoundOnce(dist, payload[k])
    {
      if !IsFoundOnce(dist, payload[i]) {
        problems := problems + 1;
      }
      i := i + 1;
    }
    assert (forall k :: 0 <= k < i ==> IsFoundOnce(dist, payload[k]))
      == (forall n :: n in payload ==> IsFoundOnce(dist, n));
    ok := problems == 0;
  }

  /** Nothing shaped like an asset was found beyond the wanted names. */
  method FoundNothingElse(dist: seq<File>, payload: seq<string>) returns (ok: bool)
    ensures ok <==> forall f :: f in dist && f.name !in Wanted(payload) ==> !IsAssetShaped(f.name)
  {
    hide Wanted, IsAssetShaped;
    var problems := 0;
    var i := 0;
    while i < |dist|
      invariant 0 <= i <= |dist| && problems >= 0
      invariant problems == 0 <==>
        forall f :: f in dist[..i] && f.name !in Wanted(payload) ==> !IsAssetShaped(f.name)
    {
      assert dist[..i + 1] == dist[..i] + [dist[i]];
      if dist[i].name !in Wanted(payload) && IsAssetShaped(dist[i].name) {
        problems := problems + 1;
      }
      i := i + 1;
    }
    assert dist[..i] == dist;
    ok := problems == 0;
  }

  /** `collect_dist` */
  method CollectDist(dist: seq<File>, sha: Bytes -> string, payload: seq<string>)
    returns (assets: Option<seq<LocalAsset>>)
    ensures assets.Some? <==> IsExactlyTheRelease(dist, sha, payload)
    ensures assets.Some? ==> assets.value == Collected(dist, sha, payload)
  {
    hide ContentsNamed, Wanted, IsAssetShaped, ProducerHash;
    var nothingMissing := FoundOnce(dist, payload);
    var nothingElse := FoundNothingElse(dist, payload);
    if !nothingMissing || !nothingElse {
      return None;
    }
    var proved: seq<LocalAsset> := [];
    var i := 0;
    while i < |payload|
      invariant 0 <= i <= |payload|
      invariant proved == Collected(dist, sha, payload)[..i]
      invariant forall n :: n in payload[..i] ==> IsProved(dist, sha, n)
    {
      assert payload[i] in payload && payload[..i + 1] == payload[..i] + [payload[i]];
      var data := ContentsNamed(dist, payload[i])[0];
      if |data| == 0 {
        assert !IsProved(dist, sha, payload[i]);
        return None;
      }
      var producer := ProducerHash(ContentsNamed(dist, payload[i] + SIDECAR)[0], payload[i]);
      if producer.None? || sha(data) != producer.value {
        assert !IsProved(dist, sha, payload[i]);
        return None;
      }
      proved := proved + [LocalAsset(payload[i], data, producer.value)];
      i := i + 1;
    }
    assert payload[..i] == payload;
    assets := Some(proved);
  }

  lemma {:induction false} ContentsComeFromFiles(dist: seq<File>, name: string)
    ensures ContentsNamed(dist, name) != [] ==> exists f :: f in dist && f.name == name
  {
    if dist != [] {
      ContentsComeFromFiles(dist[1..], name);
      if dist[0].name != name && ContentsNamed(dist[1..], name) != [] {
        var f :| f in dist[1..] && f.name == name;
        assert f in dist;
      }
    }
  }

  /** Whatever `collect_dist` accepts can be written to `SHA256SUMS` and read back: a producer's line
      holds no white space in its name, and a file name holds no `/`. */
  lemma CollectedAssetsAreBare(dist: seq<File>, sha: Bytes -> string, payload: seq<string>, name: string)
    requires IsExactlyTheRelease(dist, sha, payload) && name in payload
    requires forall f :: f in dist ==> '/' !in f.name
    ensures IsBareName(name) && IsDigest(sha(ContentsNamed(dist, name)[0]))
  {
    assert IsProved(dist, sha, name);
    ContentsComeFromFiles(dist, name);
    var line := NonBlank(SplitLines(ContentsNamed(dist, name + SIDECAR)[0], TextMode))[0];
    forall c | c in name ensures c != ' ' && c != '/' && !IsLineBreak(c) {
      assert c in line[66..];
    }
  }
}
