/** What `SHA256SUMS`, a producer's `.sha256` and an exact directory look like, told by their text and their files
    rather than by the code that reads and writes them (scripts/release-github.py). */
module SumsFormat {
  import opened Texts
  import opened Lines
  import opened Sums

  // ----- SHA256SUMS

  /** A line is 64 digits, two spaces and a name without spaces and slashes. */
  lemma SumsLineIs(line: string, hash: string, name: string)
    ensures ParseSumsLine(line) == Some((hash, name)) <==>
      line == hash + "  " + name && IsDigest(hash) && name != "" && ' ' !in name && '/' !in name
  {
    hide IsDigest;
    if line == hash + "  " + name && |hash| == 64 {
      assert line[..64] == hash && line[64..66] == "  " && line[66..] == name;
    }
    if |line| > 66 {
      assert line == line[..64] + line[64..66] + line[66..];
    }
    DigestHas64(hash);
  }

  /** A digest is 64 of the sixteen digits, the letters small. */
  lemma DigestIs64Digits(text: string)
    ensures IsDigest(text) <==> |text| == 64 && forall c :: c in text ==> c in "0123456789abcdef"
  {
    forall c ensures IsHexDigit(c) <==> c in "0123456789abcdef" {
      HexDigitIsOneOf(c);
    }
  }

  lemma HexDigitIsOneOf(c: char)
    ensures IsHexDigit(c) <==> c in "0123456789abcdef"
  {
    var digits := "0123456789abcdef";
    if '0' <= c <= '9' {
      assert digits[c as int - '0' as int] == c;
    }
    if 'a' <= c <= 'f' {
      assert digits[10 + (c as int - 'a' as int)] == c;
    }
  }

  lemma DigestHas64(hash: string)
    ensures IsDigest(hash) ==> |hash| == 64
  {
  }

  function LinesFor(names: seq<string>, digests: map<string, string>): seq<string>
    requires forall n :: n in names ==> n in digests
  {
    seq(|names|, i requires 0 <= i < |names| => digests[names[i]] + "  " + names[i])
  }

  lemma {:induction false} SumsAreUnlines(names: seq<string>, digests: map<string, string>)
    requires forall n :: n in names ==> n in digests
    ensures SumsLines(names, digests) == Unlines(LinesFor(names, digests))
  {
    if names != [] {
      SumsAreUnlines(names[1..], digests);
      assert LinesFor(names, digests)[1..] == LinesFor(names[1..], digests);
    }
  }

  /** The names in strictly ascending order of their code points: each differs from the next first where it has the
      smaller one, or ends. */
  ghost predicate AreAscending(names: seq<string>) {
    forall i, j :: 0 <= i < j < |names| ==> IsBefore(names[i], names[j])
  }

  /** `sums_text` is one line for each entry, digest first, the names ascending. */
  lemma SumsTextIs(digests: map<string, string>) returns (names: seq<string>)
    ensures AreAscending(names) && (forall n :: n in names <==> n in digests)
    ensures SumsText(digests) == Unlines(LinesFor(names, digests))
  {
    hide SumsLines, Ascending, Unlines, IsBefore;
    names := Ascending(digests.Keys);
    AscendingListsTheSet(digests.Keys);
    SumsAreUnlines(names, digests);
    forall i, j | 0 <= i < j < |names| ensures IsBefore(names[i], names[j]) {
      LessIsBefore(names[i], names[j]);
    }
  }

  // ----- producers

  ghost predicate IsOnlyAmong(lines: seq<string>, line: string, k: int) {
    0 <= k < |lines| && lines[k] == line && !IsBlank(line) && forall j :: 0 <= j < |lines| && j != k ==> IsBlank(lines[j])
  }

  /** Only this line of the text has anything on it. */
  ghost predicate IsOnlyLine(text: string, line: string) {
    exists k :: IsOnlyAmong(SplitLines(text, TextMode), line, k)
  }

  lemma {:induction false} NothingIsNonBlank(lines: seq<string>)
    ensures NonBlank(lines) == [] <==> forall j :: 0 <= j < |lines| ==> IsBlank(lines[j])
  {
    hide IsBlank;
    if lines != [] {
      NothingIsNonBlank(lines[1..]);
      if NonBlank(lines) == [] {
        forall j | 0 <= j < |lines| ensures IsBlank(lines[j]) {
          assert j > 0 ==> lines[j] == lines[1..][j - 1];
        }
      }
    }
  }

  lemma {:induction false} OneIsNonBlank(lines: seq<string>, line: string)
    ensures NonBlank(lines) == [line] <==> exists k :: IsOnlyAmong(lines, line, k)
  {
    hide IsBlank;
    if lines != [] {
      var rest := lines[1..];
      OneIsNonBlank(rest, line);
      NothingIsNonBlank(rest);
      if NonBlank(lines) == [line] {
        if IsBlank(lines[0]) {
          var k :| IsOnlyAmong(rest, line, k);
          assert IsOnlyAmong(lines, line, k + 1);
        } else {
          assert NonBlank(rest) == ([lines[0]] + NonBlank(rest))[1..] == [];
          assert lines[0] == ([lines[0]] + NonBlank(rest))[0];
          assert IsOnlyAmong(lines, line, 0);
        }
      }
      if k :| IsOnlyAmong(lines, line, k) {
        if k > 0 {
          assert IsBlank(lines[0]) && IsOnlyAmong(rest, line, k - 1);
        } else {
          forall j | 0 <= j < |rest| ensures IsBlank(rest[j]) {
            assert rest[j] == lines[j + 1];
          }
        }
      }
    }
  }

  /** A producer's file gives a hash exactly when its only line that is not blank is the hash, a space, a space or an
      asterisk, and this very name. */
  lemma ProducersLineIs(text: string, name: string, hash: string)
    ensures ProducerHash(text, name) == Some(hash) <==>
      (IsOnlyLine(text, hash + "  " + name) || IsOnlyLine(text, hash + " *" + name))
      && IsDigest(hash) && name != "" && forall c :: c in name ==> !IsSpace(c)
  {
    hide IsDigest, IsBlank, IsSpace, NonBlank;
    var lines := SplitLines(text, TextMode);
    DigestHas64(hash);
    if ProducerHash(text, name) == Some(hash) {
      var line := NonBlank(lines)[0];
      OneIsNonBlank(lines, line);
      var k :| IsOnlyAmong(lines, line, k);
      assert line == line[..64] + [line[64], line[65]] + line[66..];
    }
    OnlyLineIsTaken(text, name, hash, "  ");
    OnlyLineIsTaken(text, name, hash, " *");
  }

  lemma OnlyLineIsTaken(text: string, name: string, hash: string, between: string)
    requires between == "  " || between == " *"
    ensures IsOnlyLine(text, hash + between + name) && IsDigest(hash) && name != "" && (forall c :: c in name ==> !IsSpace(c)) ==>
      ProducerHash(text, name) == Some(hash)
  {
    hide IsBlank, IsSpace, NonBlank;
    var lines, line := SplitLines(text, TextMode), hash + between + name;
    OneIsNonBlank(lines, line);
    if IsOnlyLine(text, line) && IsDigest(hash) && name != "" {
      assert line[..64] == hash && line[66..] == name && line[64] == between[0] && line[65] == between[1];
    }
  }

  lemma StartsInHex(hash: string, rest: string)
    requires IsDigest(hash)
    ensures !IsBlank(hash + rest)
  {
    var line := hash + rest;
    assert line[0] == hash[0] && line[0] in line && hash[0] in hash;
  }

  lemma HoldsNoEnd(text: string)
    requires forall c :: c in text ==> IsHexDigit(c) || !IsSpace(c) || c == ' '
    ensures forall c :: c in text ==> !EndsLine(TextMode, c)
  {
  }

  /** What `sha256sum` prints for a file is read as its hash. */
  lemma OwnLineIsRead(hash: string, name: string)
    requires IsDigest(hash) && name != "" && forall c :: c in name ==> !IsSpace(c)
    ensures ProducerHash(hash + "  " + name + "\n", name) == Some(hash)
  {
    hide SplitLines, ProducerHash, IsBlank, IsSpace, IsHexDigit, EndsLine;
    var line := hash + "  " + name;
    StartsInHex(hash, "  " + name);
    assert hash + ("  " + name) == line;
    HoldsNoEnd(line);
    FirstLineIsCutOff(line, "", TextMode);
    EmptyHasNoLines(TextMode);
    assert line + "\n" + "" == hash + "  " + name + "\n";
    assert [line] + [] == [line];
    assert IsOnlyAmong([line], line, 0);
    ProducersLineIs(hash + "  " + name + "\n", name, hash);
  }

  // ----- the directory

  /** The directory holds one file of this name, with this content. */
  ghost predicate StandsOnce(dist: seq<File>, name: string, content: Bytes) {
    exists i :: IsTheOnly(dist, name, content, i)
  }

  ghost predicate IsTheOnly(dist: seq<File>, name: string, content: Bytes, i: int) {
    0 <= i < |dist| && dist[i] == File(name, content) && forall j :: 0 <= j < |dist| && j != i ==> dist[j].name != name
  }

  ghost predicate NoneNamed(dist: seq<File>, name: string) {
    forall j :: 0 <= j < |dist| ==> dist[j].name != name
  }

  lemma {:induction false} NoneIsNamed(dist: seq<File>, name: string)
    ensures ContentsNamed(dist, name) == [] <==> NoneNamed(dist, name)
  {
    if dist != [] {
      NoneIsNamed(dist[1..], name);
      if ContentsNamed(dist, name) == [] {
        forall j | 0 <= j < |dist| ensures dist[j].name != name {
          assert j > 0 ==> dist[j] == dist[1..][j - 1];
        }
      }
    }
  }

  lemma FirstContent(dist: seq<File>, name: string, content: Bytes)
    requires dist != []
    ensures ContentsNamed(dist, name) == [content] <==>
      if dist[0].name == name then dist[0].content == content && ContentsNamed(dist[1..], name) == []
      else ContentsNamed(dist[1..], name) == [content]
  {
    var rest := ContentsNamed(dist[1..], name);
    if dist[0].name == name {
      assert ContentsNamed(dist, name) == [dist[0].content] + rest;
      assert ([dist[0].content] + rest)[1..] == rest;
    }
  }

  lemma FirstOrLater(dist: seq<File>, name: string, content: Bytes)
    requires dist != []
    ensures StandsOnce(dist, name, content) <==>
      if dist[0].name == name then dist[0].content == content && NoneNamed(dist[1..], name)
      else StandsOnce(dist[1..], name, content)
  {
    var rest := dist[1..];
    if dist[0].name == name {
      if dist[0].content == content && NoneNamed(rest, name) {
        assert IsTheOnly(dist, name, content, 0);
      }
      if i :| IsTheOnly(dist, name, content, i) {
        assert i == 0;
        assert forall j :: 0 <= j < |rest| ==> rest[j] == dist[j + 1];
      }
    } else {
      if i :| IsTheOnly(rest, name, content, i) {
        assert IsTheOnly(dist, name, content, i + 1);
      }
      if i :| IsTheOnly(dist, name, content, i) {
        assert IsTheOnly(rest, name, content, i - 1);
      }
    }
  }

  lemma {:induction false} ContentsAreTheFiles(dist: seq<File>, name: string, content: Bytes)
    ensures ContentsNamed(dist, name) == [content] <==> StandsOnce(dist, name, content)
  {
    if dist != [] {
      hide ContentsNamed, StandsOnce;
      FirstContent(dist, name, content);
      FirstOrLater(dist, name, content);
      NoneIsNamed(dist[1..], name);
      ContentsAreTheFiles(dist[1..], name, content);
    }
  }

  /** One file of the name that is not empty, one of the name with `.sha256`, and the hash in this one is the hash of
      that one. */
  ghost predicate IsBesideItsHash(dist: seq<File>, sha: Bytes -> string, name: string) {
    exists content, text ::
      StandsOnce(dist, name, content) && StandsOnce(dist, name + ".sha256", text) && content != ""
      && ProducerHash(text, name) == Some(sha(content))
  }

  /** A file that begins like an asset although the manifest does not name it. */
  ghost predicate IsStray(f: File, payload: seq<string>) {
    f.name !in payload && (forall p :: p in payload ==> f.name != p + ".sha256")
    && exists rest :: f.name == "pessimal-agent-" + rest || f.name == "Pessimal-" + rest || f.name == "SHA256SUMS" + rest
  }

  lemma ProvedIsBesideItsHash(dist: seq<File>, sha: Bytes -> string, name: string)
    ensures IsProved(dist, sha, name) <==> IsBesideItsHash(dist, sha, name)
  {
    hide ContentsNamed, ProducerHash, StandsOnce;
    var contents, texts := ContentsNamed(dist, name), ContentsNamed(dist, name + SIDECAR);
    if IsProved(dist, sha, name) {
      ContentsAreTheFiles(dist, name, contents[0]);
      ContentsAreTheFiles(dist, name + SIDECAR, texts[0]);
    }
    if IsBesideItsHash(dist, sha, name) {
      var content, text :|
        StandsOnce(dist, name, content) && StandsOnce(dist, name + ".sha256", text) && content != ""
        && ProducerHash(text, name) == Some(sha(content));
      ContentsAreTheFiles(dist, name, content);
      ContentsAreTheFiles(dist, name + SIDECAR, text);
    }
  }

  lemma BeginsWith(text: string, prefix: string)
    ensures StartsWith(text, prefix) <==> exists rest :: text == prefix + rest
  {
    if StartsWith(text, prefix) {
      assert text == prefix + text[|prefix|..];
    }
    if rest :| text == prefix + rest {
      assert text[..|prefix|] == prefix;
    }
  }

  lemma StrayIffUnwanted(f: File, payload: seq<string>)
    ensures IsStray(f, payload) <==> f.name !in Wanted(payload) && IsAssetShaped(f.name)
  {
    hide StartsWith;
    BeginsWith(f.name, "pessimal-agent-");
    BeginsWith(f.name, "Pessimal-");
    BeginsWith(f.name, "SHA256SUMS");
    assert f.name in Wanted(payload) <==> f.name in payload || exists p :: p in payload && f.name == p + ".sha256";
    if IsAssetShaped(f.name) {
      if StartsWith(f.name, "pessimal-agent-") {
        var rest :| f.name == "pessimal-agent-" + rest;
      } else if StartsWith(f.name, "Pessimal-") {
        var rest :| f.name == "Pessimal-" + rest;
      } else {
        var rest :| f.name == "SHA256SUMS" + rest;
      }
    }
  }

  /** What `collect_dist` accepts, file by file. */
  lemma ExactDirectoryIs(dist: seq<File>, sha: Bytes -> string, payload: seq<string>)
    ensures IsExactlyTheRelease(dist, sha, payload) <==>
      (forall n :: n in payload ==> IsBesideItsHash(dist, sha, n)) && forall f :: f in dist ==> !IsStray(f, payload)
  {
    hide IsProved, IsBesideItsHash, IsStray, IsAssetShaped, Wanted;
    forall n ensures IsProved(dist, sha, n) <==> IsBesideItsHash(dist, sha, n) {
      ProvedIsBesideItsHash(dist, sha, n);
    }
    forall f: File ensures IsStray(f, payload) <==> f.name !in Wanted(payload) && IsAssetShaped(f.name) {
      StrayIffUnwanted(f, payload);
    }
  }
}
