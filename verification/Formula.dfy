/** What a rendered tap file says: every placeholder of the template is replaced by its own value, and by
    nothing else (`render_formula` in scripts/release-github.py). */
module Formula {
  import opened Texts
  import opened Sums
  import opened ReleaseBuild
  import opened ReleaseProtocol

  // ----- templates

  /** A piece of a template: a placeholder or plain text, and the plain text up to the next piece. */
  datatype Part = Part(token: string, text: string)

  function Flat(parts: seq<Part>): string {
    if parts == [] then "" else parts[0].token + parts[0].text + Flat(parts[1..])
  }

  /** `@[A-Z0-9_]+@` */
  predicate IsSlot(token: string) {
    |token| >= 3 && token[0] == '@' && token[|token| - 1] == '@'
    && forall i :: 0 < i < |token| - 1 ==> IsPlaceholderChar(token[i])
  }

  /** From the `@` at `j` on, what could be the inside of a placeholder stops at `k`, and not at another `@`. */
  predicate StopsAt(text: string, j: nat, k: nat) {
    j < k < |text| && !IsPlaceholderChar(text[k]) && (text[k] == '@' ==> k == j + 1)
    && forall i :: j < i < k ==> IsPlaceholderChar(text[i])
  }

  /** No `@` of the text begins a placeholder, in it or in whatever follows it. */
  predicate IsHarmless(text: string) {
    forall j :: 0 <= j < |text| && text[j] == '@' ==> exists k :: 0 <= k < |text| && StopsAt(text, j, k)
  }

  /** Outside its placeholders the template is harmless, and what follows a placeholder does not look like the
      inside of one. */
  predicate IsPart(p: Part) {
    (IsSlot(p.token) || IsHarmless(p.token)) && IsHarmless(p.text) && (p.text != "" ==> !IsPlaceholderChar(p.text[0]))
  }

  predicate AreParts(parts: seq<Part>) {
    forall i :: 0 <= i < |parts| ==> IsPart(parts[i]) && (i < |parts| - 1 ==> parts[i].text != "")
  }

  // ----- one replacement

  lemma {:induction false} PlainIsKept(text: string, rest: string, key: string, value: string)
    requires IsHarmless(text) && IsSlot(key)
    ensures Replace(text + rest, key, value) == text + Replace(rest, key, value)
  {
    hide IsHarmless, StopsAt, IsSlot, StartsWith;
    SlotIsNotEmpty(key);
    if text == "" {
      assert text + rest == rest;
    } else {
      var all := text + rest;
      assert all[0] == text[0] && all[1..] == text[1..] + rest;
      HarmlessStart(text, rest, key);
      HarmlessTail(text);
      PlainIsKept(text[1..], rest, key, value);
      assert text == [text[0]] + text[1..];
    }
  }

  lemma DiffersAt(text: string, key: string, i: nat)
    requires i < |key| && (i < |text| ==> text[i] != key[i])
    ensures !StartsWith(text, key)
  {
    assert |key| <= |text| ==> text[..|key|][i] == text[i];
  }

  lemma HarmlessTail(text: string)
    requires IsHarmless(text) && text != ""
    ensures IsHarmless(text[1..])
  {
    var tail := text[1..];
    forall j | 0 <= j < |tail| && tail[j] == '@' ensures exists k :: 0 <= k < |tail| && StopsAt(tail, j, k) {
      assert text[j + 1] == '@';
      var k :| 0 <= k < |text| && StopsAt(text, j + 1, k);
      assert StopsAt(tail, j, k - 1);
    }
  }

  lemma HarmlessStart(text: string, rest: string, key: string)
    requires IsHarmless(text) && IsSlot(key) && text != ""
    ensures !StartsWith(text + rest, key)
  {
    if text[0] != '@' {
      DiffersAt(text + rest, key, 0);
    } else {
      var k :| 0 <= k < |text| && StopsAt(text, 0, k);
      if k < |key| {
        assert k < |key| - 1 ==> IsPlaceholderChar(key[k]);
        DiffersAt(text + rest, key, k);
      } else {
        assert IsPlaceholderChar(text[|key| - 1]);
        DiffersAt(text + rest, key, |key| - 1);
      }
    }
  }

  lemma PlainIsHarmless(text: string)
    requires '@' !in text
    ensures IsHarmless(text)
  {
  }

  lemma HarmlessInTwo(a: string, b: string)
    requires IsHarmless(a) && IsHarmless(b)
    ensures IsHarmless(a + b)
  {
    var all := a + b;
    forall j | 0 <= j < |all| && all[j] == '@' ensures exists k :: 0 <= k < |all| && StopsAt(all, j, k) {
      if j < |a| {
        var k :| 0 <= k < |a| && StopsAt(a, j, k);
        assert StopsAt(all, j, k);
      } else {
        var k :| 0 <= k < |b| && StopsAt(b, j - |a|, k);
        assert all[|a|..] == b;
        assert StopsAt(all, j, k + |a|);
      }
    }
  }

  /** No placeholder starts at the end of another one. */
  lemma NotAtTheEnd(text: string, key: string)
    requires IsSlot(key) && text != "" && (|text| > 1 ==> !IsPlaceholderChar(text[1]))
    ensures !StartsWith(text, key)
  {
    assert IsPlaceholderChar(key[1]);
    DiffersAt(text, key, 1);
  }

  lemma OtherSlotDoesNotStartSo(slot: string, rest: string, key: string)
    requires IsSlot(slot) && IsSlot(key) && slot != key
    ensures !StartsWith(slot + rest, key)
  {
    var m, k := |slot| - 1, |key| - 1;
    if k < m {
      assert IsPlaceholderChar(slot[k]);
      DiffersAt(slot + rest, key, k);
    } else if m < k {
      assert IsPlaceholderChar(key[m]);
      DiffersAt(slot + rest, key, m);
    } else {
      var i :| 0 <= i < |key| && slot[i] != key[i];
      DiffersAt(slot + rest, key, i);
    }
  }

  lemma OtherSlotIsKept(slot: string, text: string, rest: string, key: string, value: string)
    requires IsSlot(slot) && IsSlot(key) && slot != key && IsHarmless(text)
    requires if text == "" then rest == "" else !IsPlaceholderChar(text[0])
    ensures Replace(slot + text + rest, key, value) == slot + text + Replace(rest, key, value)
  {
    hide IsSlot, StartsWith, IsHarmless;
    var m := |slot| - 1;
    SlotShape(slot);
    SlotIsNotEmpty(key);
    var inside, end := slot[1..m], "@" + text + rest;
    var all := slot + text + rest;
    assert slot + (text + rest) == all;
    OtherSlotDoesNotStartSo(slot, text + rest, key);
    assert all[0] == '@' && all[1..] == inside + end;
    PlainIsHarmless(inside);
    PlainIsKept(inside, end, key, value);
    NotAtTheEnd(end, key);
    assert end[0] == '@' && end[1..] == text + rest;
    PlainIsKept(text, rest, key, value);
    assert slot == "@" + inside + "@";
    assert Replace(all, key, value) == "@" + (inside + ("@" + (text + Replace(rest, key, value))));
  }

  lemma SlotShape(slot: string)
    requires IsSlot(slot)
    ensures var m := |slot| - 1; m >= 2 && slot == "@" + slot[1..m] + "@" && '@' !in slot[1..m]
  {
    var inside := slot[1..|slot| - 1];
    forall i | 0 <= i < |inside| ensures inside[i] != '@' {
      assert IsPlaceholderChar(slot[i + 1]);
    }
  }

  lemma SlotIsReplaced(key: string, rest: string, value: string)
    requires IsSlot(key)
    ensures Replace(key + rest, key, value) == value + Replace(rest, key, value)
  {
    assert (key + rest)[..|key|] == key && (key + rest)[|key|..] == rest;
  }

  function Substituted(parts: seq<Part>, key: string, value: string): (r: seq<Part>)
    ensures |r| == |parts|
  {
    seq(|parts|, i requires 0 <= i < |parts| =>
      if parts[i].token == key then Part(value, parts[i].text) else parts[i])
  }

  lemma {:induction false} ReplaceSubstitutes(parts: seq<Part>, key: string, value: string)
    requires AreParts(parts) && IsSlot(key)
    ensures Replace(Flat(parts), key, value) == Flat(Substituted(parts, key, value))
  {
    hide IsSlot, Replace, IsHarmless;
    SlotIsNotEmpty(key);
    if parts == [] {
      NothingToReplaceIn(key, value);
    } else {
      var p, others := parts[0], parts[1..];
      assert AreParts(others);
      ReplaceSubstitutes(others, key, value);
      assert Substituted(parts, key, value)[1..] == Substituted(others, key, value);
      var rest := Flat(others);
      if p.token == key {
        assert p.token + p.text + rest == key + (p.text + rest);
        SlotIsReplaced(key, p.text + rest, value);
        PlainIsKept(p.text, rest, key, value);
      } else if IsSlot(p.token) {
        OtherSlotIsKept(p.token, p.text, rest, key, value);
      } else {
        PlainIsKept(p.token, p.text + rest, key, value);
        PlainIsKept(p.text, rest, key, value);
        assert p.token + p.text + rest == p.token + (p.text + rest);
      }
    }
  }

  lemma NothingToReplaceIn(key: string, value: string)
    requires key != ""
    ensures Replace("", key, value) == ""
  {
  }

  // ----- all replacements

  function Lookup(values: Values, key: string): Option<string> {
    if values == [] then None else if values[0].0 == key then Some(values[0].1) else Lookup(values[1..], key)
  }

  /** Every key is a placeholder, no key comes twice, and no value holds an `@`. */
  predicate AreValues(values: Values) {
    (forall i :: 0 <= i < |values| ==> IsSlot(values[i].0) && '@' !in values[i].1)
    && forall i, j :: 0 <= i < j < |values| ==> values[i].0 != values[j].0
  }

  function Filled(parts: seq<Part>, values: Values): (r: seq<Part>)
    ensures |r| == |parts|
  {
    seq(|parts|, i requires 0 <= i < |parts| =>
      var value := Lookup(values, parts[i].token);
      if value.Some? then Part(value.value, parts[i].text) else parts[i])
  }

  lemma {:induction false} FillFills(parts: seq<Part>, values: Values)
    requires AreParts(parts) && AreValues(values)
    ensures Fill(Flat(parts), values) == Flat(Filled(parts, values)) && AreParts(Filled(parts, values))
    decreases |values|
  {
    hide IsSlot, Replace, Flat, IsPlaceholderChar, IsHarmless;
    if values == [] {
      assert Filled(parts, values) == parts;
    } else {
      var key, value := values[0].0, values[0].1;
      SlotIsNotEmpty(key);
      ReplaceSubstitutes(parts, key, value);
      var next := Substituted(parts, key, value);
      PlainIsHarmless(value);
      assert AreParts(next);
      assert AreValues(values[1..]);
      FillFills(next, values[1..]);
      forall i | 0 <= i < |parts| ensures Filled(next, values[1..])[i] == Filled(parts, values)[i] {
        if parts[i].token == key {
          NoValueForPlain(values[1..], value);
        }
      }
      assert Filled(next, values[1..]) == Filled(parts, values);
    }
  }

  lemma SlotIsNotEmpty(key: string)
    requires IsSlot(key)
    ensures key != "" && '@' in key
  {
    assert key[0] == '@';
  }

  lemma {:induction false} NoValueForPlain(values: Values, text: string)
    requires AreValues(values) && '@' !in text
    ensures Lookup(values, text) == None
  {
    hide IsSlot;
    if values != [] {
      SlotIsNotEmpty(values[0].0);
      assert AreValues(values[1..]);
      NoValueForPlain(values[1..], text);
    }
  }

  // ----- what is left over

  lemma {:induction false} HarmlessPartsAreHarmless(parts: seq<Part>)
    requires forall i :: 0 <= i < |parts| ==> IsHarmless(parts[i].token) && IsHarmless(parts[i].text)
    ensures IsHarmless(Flat(parts))
  {
    hide IsHarmless;
    if parts == [] {
      PlainIsHarmless("");
    } else {
      HarmlessPartsAreHarmless(parts[1..]);
      HarmlessInTwo(parts[0].token, parts[0].text);
      HarmlessInTwo(parts[0].token + parts[0].text, Flat(parts[1..]));
    }
  }

  lemma {:induction false} SlotIsAPlaceholder(parts: seq<Part>, i: nat)
    requires i < |parts| && IsSlot(parts[i].token)
    ensures HasPlaceholder(Flat(parts))
  {
    hide IsSlot, HasPlaceholder, IsPlaceholderChar;
    var rest := Flat(parts[1..]);
    if i == 0 {
      StartIsAPlaceholder("", parts[0].token, parts[0].text + rest);
      assert "" + parts[0].token + (parts[0].text + rest) == Flat(parts);
    } else {
      SlotIsAPlaceholder(parts[1..], i - 1);
      PlaceholderStays(parts[0].token + parts[0].text, rest);
    }
  }

  lemma StartIsAPlaceholder(before: string, slot: string, after: string)
    requires IsSlot(slot)
    ensures HasPlaceholder(before + slot + after)
  {
    var text, n := before + slot + after, |before|;
    forall k | n < k < n + |slot| - 1 ensures IsPlaceholderChar(text[k]) {
      assert text[k] == slot[k - n];
    }
    assert text[n] == slot[0] && text[n + |slot| - 1] == slot[|slot| - 1];
  }

  lemma PlaceholderStays(before: string, text: string)
    requires HasPlaceholder(text)
    ensures HasPlaceholder(before + text)
  {
    var i, j :| 0 <= i < j < |text| && i + 1 < j && text[i] == '@' && text[j] == '@'
      && forall k :: i < k < j ==> IsPlaceholderChar(text[k]);
    var all, n := before + text, |before|;
    forall k | n + i < k < n + j ensures IsPlaceholderChar(all[k]) {
      assert all[k] == text[k - n];
    }
    assert all[n + i] == '@' && all[n + j] == '@';
  }

  /** A template fills to plain text exactly when every placeholder in it has a value. */
  lemma LeftoverIff(parts: seq<Part>, values: Values)
    requires AreParts(parts) && AreValues(values)
    ensures HasPlaceholder(Flat(Filled(parts, values)))
      <==> exists i :: 0 <= i < |parts| && IsSlot(parts[i].token) && Lookup(values, parts[i].token) == None
  {
    hide IsSlot, HasPlaceholder, Flat, AreValues, IsHarmless;
    var done := Filled(parts, values);
    if i :| 0 <= i < |parts| && IsSlot(parts[i].token) && Lookup(values, parts[i].token) == None {
      assert done[i] == parts[i];
      SlotIsAPlaceholder(done, i);
    } else {
      forall i | 0 <= i < |done| ensures IsHarmless(done[i].token) && IsHarmless(done[i].text) {
        LookupIsPlain(values, parts[i].token);
        if Lookup(values, parts[i].token).Some? {
          PlainIsHarmless(done[i].token);
        }
      }
      HarmlessPartsAreHarmless(done);
      HarmlessHasNoPlaceholder(Flat(done));
    }
  }

  lemma HarmlessHasNoPlaceholder(text: string)
    requires IsHarmless(text)
    ensures !HasPlaceholder(text)
  {
    forall i, j | 0 <= i < j < |text| && i + 1 < j && text[i] == '@' && text[j] == '@'
      ensures exists k :: i < k < j && !IsPlaceholderChar(text[k])
    {
      var k :| 0 <= k < |text| && StopsAt(text, i, k);
      assert k < j;
    }
  }

  lemma {:induction false} LookupIsPlain(values: Values, key: string)
    requires AreValues(values)
    ensures Lookup(values, key).Some? ==> '@' !in Lookup(values, key).value
  {
    hide IsSlot;
    if values != [] && values[0].0 != key {
      assert AreValues(values[1..]);
      LookupIsPlain(values[1..], key);
    }
  }

  // ----- the values of a release

  const AGENT := "pessimal-agent-"
  const SUFFIX := ".tar.gz"

  function AgentAsset(version: string, triple: string): string {
    AGENT + version + "-" + triple + SUFFIX
  }

  function AgentSlot(triple: string): string {
    "@SHA256_" + PlaceholderPart(triple) + "@"
  }

  predicate IsTriple(triple: string) {
    forall i :: 0 <= i < |triple| ==> 'a' <= triple[i] <= 'z' || '0' <= triple[i] <= '9' || triple[i] in "_-"
  }

  /** The agents of a manifest are those of these targets, whose placeholders differ from each other and from
      the app's. */
  predicate IsManifestOf(manifest: Manifest, version: string, triples: seq<string>) {
    |manifest.agents| == |triples|
    && (forall i :: 0 <= i < |triples| ==> IsTriple(triples[i]) && AgentSlot(triples[i]) != APP_SLOT)
    && (forall i :: 0 <= i < |triples| ==> manifest.agents[i] == AgentAsset(version, triples[i]))
    && forall i, j :: 0 <= i < j < |triples| ==> AgentSlot(triples[i]) != AgentSlot(triples[j])
  }

  const APP_SLOT := "@SHA256_MACOS_APP@"

  /** What a placeholder stands for. */
  function ValueOf(slot: string, tag: string, manifest: Manifest, triples: seq<string>, digests: map<string, string>): Option<string>
    requires tag != ""
  {
    if slot == "@VERSION@" then Some(tag[1..])
    else if slot == "@TAG@" then Some(tag)
    else if slot == "@REPO@" then Some(REPO)
    else if slot == APP_SLOT then DigestOf(digests, manifest.app)
    else AgentValue(slot, tag[1..], triples, digests)
  }

  function DigestOf(digests: map<string, string>, name: string): Option<string> {
    if name in digests then Some(digests[name]) else None
  }

  /** The digest of the agent whose placeholder this is. */
  function AgentValue(slot: string, version: string, triples: seq<string>, digests: map<string, string>): Option<string> {
    if triples == [] then None
    else if AgentSlot(triples[0]) == slot then DigestOf(digests, AgentAsset(version, triples[0]))
    else AgentValue(slot, version, triples[1..], digests)
  }

  lemma {:induction false} SetAdds(values: Values, key: string, value: string)
    requires AreValues(values) && IsSlot(key) && '@' !in value
    ensures AreValues(Set(values, key, value))
    ensures forall k :: Lookup(Set(values, key, value), k) == if k == key then Some(value) else Lookup(values, k)
    ensures forall i :: 0 <= i < |Set(values, key, value)| ==>
      Set(values, key, value)[i].0 == key || exists j :: 0 <= j < |values| && values[j].0 == Set(values, key, value)[i].0
  {
    hide IsSlot;
    if values != [] && values[0].0 != key {
      assert AreValues(values[1..]);
      SetAdds(values[1..], key, value);
      var more := Set(values[1..], key, value);
      var all := [values[0]] + more;
      assert all[1..] == more;
      forall i, j | 0 <= i < j < |all| ensures all[i].0 != all[j].0 {
        if i == 0 && more[j - 1].0 != key {
          var m :| 0 <= m < |values[1..]| && values[1..][m].0 == more[j - 1].0;
          assert values[m + 1].0 == more[j - 1].0;
        }
      }
      forall i | 0 <= i < |all| ensures all[i].0 == key || exists j :: 0 <= j < |values| && values[j].0 == all[i].0 {
        if i == 0 {
          assert values[0].0 == all[0].0;
        } else if more[i - 1].0 != key {
          var m :| 0 <= m < |values[1..]| && values[1..][m].0 == more[i - 1].0;
          assert values[m + 1].0 == all[i].0;
        }
      }
    } else if values != [] {
      assert ([(key, value)] + values[1..])[1..] == values[1..];
    }
  }

  lemma AgentSlotIsASlot(triple: string)
    requires IsTriple(triple)
    ensures IsSlot(AgentSlot(triple))
  {
    var slot, part := AgentSlot(triple), PlaceholderPart(triple);
    forall i | 0 < i < |slot| - 1 ensures IsPlaceholderChar(slot[i]) {
      if i < 8 {
        assert slot[i] == "@SHA256_"[i];
      } else {
        assert slot[i] == part[i - 8];
        assert 'a' <= triple[i - 8] <= 'z' || '0' <= triple[i - 8] <= '9' || triple[i - 8] in "_-";
      }
    }
  }

  lemma DigestIsPlain(digest: string)
    requires IsDigest(digest)
    ensures '@' !in digest
  {
  }

  lemma TripleIsCutOut(version: string, triple: string)
    ensures var name, prefix := AgentAsset(version, triple), AGENT + version + "-";
      StartsWith(name, prefix) && EndsWith(name, SUFFIX) && |prefix| + |SUFFIX| <= |name|
      && name[|prefix|..|name| - |SUFFIX|] == triple
  {
    var name, prefix := AgentAsset(version, triple), AGENT + version + "-";
    assert name == prefix + triple + SUFFIX;
    assert name[..|prefix|] == prefix && name[|name| - |SUFFIX|..] == SUFFIX;
  }

  /** Each target's placeholder is given the digest of that target's own asset. */
  lemma {:induction false} AgentsGetTheirDigests(triples: seq<string>, version: string, digests: map<string, string>, values: Values)
    requires AreValues(values) && AllBare(digests)
    requires forall i :: 0 <= i < |triples| ==> IsTriple(triples[i]) && AgentAsset(version, triples[i]) in digests
    requires forall i, j :: 0 <= i < j < |triples| ==> AgentSlot(triples[i]) != AgentSlot(triples[j])
    ensures var r := AgentValues(seq(|triples|, i requires 0 <= i < |triples| => AgentAsset(version, triples[i])), version, digests, values);
      r.Some? && AreValues(r.value)
      && forall k :: Lookup(r.value, k) ==
           if AgentValue(k, version, triples, digests).Some? then AgentValue(k, version, triples, digests) else Lookup(values, k)
    decreases |triples|
  {
    hide IsSlot, AgentSlot, AgentAsset, IsDigest, IsTriple, StartsWith, EndsWith;
    var names := seq(|triples|, i requires 0 <= i < |triples| => AgentAsset(version, triples[i]));
    if triples != [] {
      var triple, rest := triples[0], triples[1..];
      var name := names[0];
      assert names[1..] == seq(|rest|, i requires 0 <= i < |rest| => AgentAsset(version, rest[i]));
      TripleIsCutOut(version, triple);
      AgentSlotIsASlot(triple);
      DigestIsPlain(digests[name]);
      SetAdds(values, AgentSlot(triple), digests[name]);
      var next := Set(values, AgentSlot(triple), digests[name]);
      AgentsGetTheirDigests(rest, version, digests, next);
      NoOtherHasTheSlot(triples, version, digests);
      assert AgentSlot(triple) == "@SHA256_" + PlaceholderPart(triple) + "@" by { SlotOf(triple); }
    }
  }

  lemma SlotOf(triple: string)
    ensures AgentSlot(triple) == "@SHA256_" + PlaceholderPart(triple) + "@"
  {
  }

  lemma NoOtherHasTheSlot(triples: seq<string>, version: string, digests: map<string, string>)
    requires triples != []
    requires forall i, j :: 0 <= i < j < |triples| ==> AgentSlot(triples[i]) != AgentSlot(triples[j])
    ensures AgentValue(AgentSlot(triples[0]), version, triples[1..], digests) == None
  {
    hide AgentSlot, AgentAsset;
    forall i | 0 <= i < |triples[1..]| ensures AgentSlot(triples[1..][i]) != AgentSlot(triples[0]) {}
    NoneHasTheSlot(triples[1..], AgentSlot(triples[0]), version, digests);
  }

  lemma {:induction false} NoneHasTheSlot(triples: seq<string>, slot: string, version: string, digests: map<string, string>)
    requires forall i :: 0 <= i < |triples| ==> AgentSlot(triples[i]) != slot
    ensures AgentValue(slot, version, triples, digests) == None
  {
    hide AgentSlot, AgentAsset;
    if triples != [] {
      NoneHasTheSlot(triples[1..], slot, version, digests);
    }
  }

  lemma FixedSlots()
    ensures IsSlot("@VERSION@") && IsSlot("@TAG@") && IsSlot("@REPO@") && IsSlot(APP_SLOT)
    ensures "@VERSION@" != "@TAG@" && "@VERSION@" != "@REPO@" && "@TAG@" != "@REPO@"
    ensures '@' !in REPO
  {
    assert "@TAG@"[1] != "@REPO@"[1];
  }

  lemma FirstValues(tag: string)
    requires tag != "" && '@' !in tag
    ensures var values := [("@VERSION@", tag[1..]), ("@TAG@", tag), ("@REPO@", REPO)];
      AreValues(values)
      && forall k :: Lookup(values, k) ==
           if k == "@VERSION@" then Some(tag[1..]) else if k == "@TAG@" then Some(tag)
           else if k == "@REPO@" then Some(REPO) else None
  {
    hide IsSlot;
    FixedSlots();
    var values: Values := [("@VERSION@", tag[1..]), ("@TAG@", tag), ("@REPO@", REPO)];
    var two, one := values[1..], values[2..];
    assert two == [("@TAG@", tag), ("@REPO@", REPO)] && two[1..] == one == [("@REPO@", REPO)] && one[1..] == [];
    forall k ensures Lookup(values, k) ==
      if k == "@VERSION@" then Some(tag[1..]) else if k == "@TAG@" then Some(tag)
      else if k == "@REPO@" then Some(REPO) else None
    {
      assert Lookup(one, k) == if k == "@REPO@" then Some(REPO) else None;
      assert Lookup(two, k) == if k == "@TAG@" then Some(tag) else Lookup(one, k);
    }
  }

  /** No target's placeholder is one of the three fixed ones. */
  lemma {:induction false} FixedSlotsAreNoAgents(triples: seq<string>, version: string, digests: map<string, string>, slot: string)
    requires slot in ["@VERSION@", "@TAG@", "@REPO@"]
    ensures AgentValue(slot, version, triples, digests) == None
  {
    hide AgentAsset;
    forall i | 0 <= i < |triples| ensures AgentSlot(triples[i]) != slot {
      assert AgentSlot(triples[i])[1] == 'S' && slot[1] != 'S';
    }
    NoneHasTheSlot(triples, slot, version, digests);
  }

  /** The filled-in template, by what each placeholder stands for. */
  function FilledIn(parts: seq<Part>, tag: string, manifest: Manifest, triples: seq<string>, digests: map<string, string>): (r: seq<Part>)
    requires tag != ""
    ensures |r| == |parts|
  {
    seq(|parts|, i requires 0 <= i < |parts| =>
      var value := ValueOf(parts[i].token, tag, manifest, triples, digests);
      if value.Some? then Part(value.value, parts[i].text) else parts[i])
  }

  ghost predicate AllKnown(parts: seq<Part>, tag: string, manifest: Manifest, triples: seq<string>, digests: map<string, string>)
    requires tag != ""
  {
    forall i :: 0 <= i < |parts| && IsSlot(parts[i].token) ==>
      ValueOf(parts[i].token, tag, manifest, triples, digests).Some?
  }

  function Checked(text: string): Option<string> {
    if HasPlaceholder(text) then None else Some(text)
  }

  lemma FixedSlotsAreApart(triples: seq<string>, version: string, digests: map<string, string>)
    requires forall i :: 0 <= i < |triples| ==> AgentSlot(triples[i]) != APP_SLOT
    ensures AgentValue("@VERSION@", version, triples, digests) == None
    ensures AgentValue("@TAG@", version, triples, digests) == None
    ensures AgentValue("@REPO@", version, triples, digests) == None
    ensures AgentValue(APP_SLOT, version, triples, digests) == None
  {
    hide AgentSlot, AgentAsset, AgentValue;
    FixedSlotsAreNoAgents(triples, version, digests, "@VERSION@");
    FixedSlotsAreNoAgents(triples, version, digests, "@TAG@");
    FixedSlotsAreNoAgents(triples, version, digests, "@REPO@");
    NoneHasTheSlot(triples, APP_SLOT, version, digests);
  }

  /** The values `render_formula` collects are what the placeholders stand for. */
  lemma CollectedValues(tag: string, manifest: Manifest, triples: seq<string>, digests: map<string, string>) returns (values: Values)
    requires tag != "" && '@' !in tag && AllBare(digests) && IsManifestOf(manifest, tag[1..], triples)
    requires AllListed(manifest.agents, digests)
    ensures AreValues(values)
    ensures forall k :: Lookup(values, k) == ValueOf(k, tag, manifest, triples, digests)
    ensures forall template ::
      RenderFormula(template, tag, manifest, digests) == Checked(Fill(template, values))
  {
    hide IsSlot, AgentSlot, AgentAsset, IsDigest, IsTriple, HasPlaceholder, Fill, AgentValue, Lookup, Set, AreValues;
    var version := tag[1..];
    var first := [("@VERSION@", version), ("@TAG@", tag), ("@REPO@", REPO)];
    FirstValues(tag);
    FixedSlots();
    forall i | 0 <= i < |triples| ensures AgentAsset(version, triples[i]) in digests {
      assert manifest.agents[i] in manifest.agents;
    }
    AgentsGetTheirDigests(triples, version, digests, first);
    assert manifest.agents == seq(|triples|, i requires 0 <= i < |triples| => AgentAsset(version, triples[i]));
    FixedSlotsAreApart(triples, version, digests);
    var agents := AgentValues(manifest.agents, version, digests, first).value;
    values := agents;
    if manifest.app in digests {
      DigestIsPlain(digests[manifest.app]);
      SetAdds(agents, APP_SLOT, digests[manifest.app]);
      values := Set(agents, APP_SLOT, digests[manifest.app]);
    }
    AppSlotIsNotFixed();
  }

  lemma AppSlotIsNotFixed()
    ensures APP_SLOT != "@VERSION@" && APP_SLOT != "@TAG@" && APP_SLOT != "@REPO@"
  {
    assert APP_SLOT[1] == 'S';
  }

  predicate AllListed(agents: seq<string>, digests: map<string, string>) {
    forall name :: name in agents ==> name in digests
  }

  /** An agent without a line in `SHA256SUMS`, or one no target can be told from, makes rendering refuse,
      whatever the template. */
  lemma {:induction false} UnlistedAgentIsRefused(agents: seq<string>, version: string, digests: map<string, string>, values: Values,
                                                  name: string)
    requires name in agents
    requires name !in digests || !StartsWith(name, AGENT + version + "-") || !EndsWith(name, SUFFIX)
    ensures AgentValues(agents, version, digests, values) == None
  {
    hide StartsWith, EndsWith, Set;
    var first, prefix := agents[0], AGENT + version + "-";
    if first != name && StartsWith(first, prefix) && EndsWith(first, SUFFIX) && first in digests {
      var triple := if |prefix| + |SUFFIX| <= |first| then first[|prefix|..|first| - |SUFFIX|] else "";
      UnlistedAgentIsRefused(agents[1..], version, digests,
                             Set(values, "@SHA256_" + PlaceholderPart(triple) + "@", digests[first]), name);
    }
  }

  /** What the tap is given: the template with each placeholder replaced by what it stands for -- the digest of
      the very asset it names -- and nothing at all when one stands for nothing or an agent has no digest. */
  lemma FormulaSaysWhatItNames(parts: seq<Part>, tag: string, manifest: Manifest, triples: seq<string>, digests: map<string, string>)
    requires AreParts(parts) && tag != "" && '@' !in tag && AllBare(digests)
    requires IsManifestOf(manifest, tag[1..], triples)
    ensures RenderFormula(Flat(parts), tag, manifest, digests) ==
      if AllListed(manifest.agents, digests) && AllKnown(parts, tag, manifest, triples, digests) then Some(Flat(FilledIn(parts, tag, manifest, triples, digests)))
      else None
  {
    hide RenderFormula, Fill, Flat, HasPlaceholder, IsManifestOf, ValueOf, IsSlot, AreParts, AllBare;
    if AllListed(manifest.agents, digests) {
      var values := CollectedValues(tag, manifest, triples, digests);
      FillFills(parts, values);
      LeftoverIff(parts, values);
      assert Filled(parts, values) == FilledIn(parts, tag, manifest, triples, digests);
    } else {
      var name :| name in manifest.agents && name !in digests;
      UnlistedIsNotRendered(Flat(parts), tag, manifest, digests, name);
    }
  }

  lemma UnlistedIsNotRendered(template: string, tag: string, manifest: Manifest, digests: map<string, string>, name: string)
    requires tag != "" && name in manifest.agents && name !in digests
    ensures RenderFormula(template, tag, manifest, digests) == None
  {
    hide AgentValues, Fill, HasPlaceholder;
    UnlistedAgentIsRefused(manifest.agents, tag[1..], digests, [("@VERSION@", tag[1..]), ("@TAG@", tag), ("@REPO@", REPO)], name);
  }

  /** A target's placeholder stands for the digest of that target's asset. */
  lemma {:induction false} AgentSlotNamesItsAsset(triples: seq<string>, version: string, digests: map<string, string>, i: nat)
    requires i < |triples|
    requires forall k, j :: 0 <= k < j < |triples| ==> AgentSlot(triples[k]) != AgentSlot(triples[j])
    ensures AgentValue(AgentSlot(triples[i]), version, triples, digests) == DigestOf(digests, AgentAsset(version, triples[i]))
  {
    hide AgentSlot, AgentAsset;
    if i > 0 {
      AgentSlotNamesItsAsset(triples[1..], version, digests, i - 1);
    }
  }
}
