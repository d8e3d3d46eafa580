/** Whole documents of the TOML subset: tables, keys defined once, and that reading a written document
    gives back its tables (sections Keys and Table of the TOML v1.0.0 specification). */
module TomlDocument {
  import opened Texts
  import opened Lines
  import opened Toml
  import opened TomlLines

  type Table = map<string, Value>

  /** The tables by their path; the root table is at the empty path. */
  type Document = map<seq<string>, Table>

  // ----- reading

  /** What has been read, and the table that keys now go to. */
  datatype State = State(doc: Document, current: seq<string>)

  const START := State(map[[] := map[]], [])

  /** A table is defined once, a key is defined once, and a key is not also a table. */
  function Apply(st: State, item: Item): Option<State> {
    match item
    case Nothing => Some(st)
    case Header(path) =>
      if path == [] || path in st.doc || IsKey(st.doc, path) then None
      else Some(State(st.doc[path := map[]], path))
    case Entry(key, value) =>
      if st.current !in st.doc || key in st.doc[st.current] || st.current + [key] in st.doc then None
      else Some(st.(doc := st.doc[st.current := st.doc[st.current][key := value]]))
  }

  predicate IsKey(doc: Document, path: seq<string>)
    requires path != []
  {
    path[..|path| - 1] in doc && path[|path| - 1] in doc[path[..|path| - 1]]
  }

  function ReadLines(lines: seq<string>, st: State): Option<State> {
    if lines == [] then Some(st)
    else
      match ReadLine(lines[0])
      case None => None
      case Some(item) =>
        match Apply(st, item)
        case None => None
        case Some(next) => ReadLines(lines[1..], next)
  }

  function ReadDocument(text: string): Option<Document> {
    match ReadLines(SplitLines(text, Feed), START)
    case None => None
    case Some(st) => Some(st.doc)
  }

  // ----- written documents

  /** One key with the comments above it. */
  datatype Setting = Setting(notes: seq<string>, key: string, value: Value)

  /** One table, written after an empty line. */
  datatype Block = Block(path: seq<string>, settings: seq<Setting>)

  function OneSettingLines(s: Setting): seq<string> {
    s.notes + [EntryText(s.key, s.value)]
  }

  function SettingLines(settings: seq<Setting>): seq<string> {
    if settings == [] then [] else OneSettingLines(settings[0]) + SettingLines(settings[1..])
  }

  function BlockLines(blocks: seq<Block>): seq<string> {
    if blocks == [] then []
    else ["", HeaderText(blocks[0].path)] + SettingLines(blocks[0].settings) + BlockLines(blocks[1..])
  }

  /** A comment line. */
  predicate IsNote(line: string) {
    line != "" && line[0] == '#' && '\n' !in line
  }

  predicate AreNotes(lines: seq<string>) {
    forall line :: line in lines ==> IsNote(line)
  }

  predicate HaveNotes(settings: seq<Setting>) {
    forall s :: s in settings ==> AreNotes(s.notes)
  }

  predicate AreBare(path: seq<string>) {
    forall part :: part in path ==> IsBare(part)
  }

  function TableOf(settings: seq<Setting>): Table {
    if settings == [] then map[]
    else TableOf(settings[..|settings| - 1])[settings[|settings| - 1].key := settings[|settings| - 1].value]
  }

  predicate KeysDiffer(settings: seq<Setting>) {
    forall i, j :: 0 <= i < j < |settings| ==> settings[i].key != settings[j].key
  }

  predicate IsProper(b: Block) {
    b.path != [] && (forall part :: part in b.path ==> IsBare(part)) && KeysDiffer(b.settings)
    && forall s :: s in b.settings ==> AreNotes(s.notes) && IsWritable(s.value)
  }

  /** The block's table is new, and neither it nor one of its keys clashes with what is there. */
  predicate Fits(doc: Document, b: Block) {
    IsProper(b) && b.path !in doc && !IsKey(doc, b.path) && forall s :: s in b.settings ==> b.path + [s.key] !in doc
  }

  predicate FitAll(doc: Document, blocks: seq<Block>)
    decreases |blocks|
  {
    blocks == []
    || (Fits(doc, blocks[0]) && FitAll(doc[blocks[0].path := TableOf(blocks[0].settings)], blocks[1..]))
  }

  function AddAll(doc: Document, blocks: seq<Block>): Document
    decreases |blocks|
  {
    if blocks == [] then doc else AddAll(doc[blocks[0].path := TableOf(blocks[0].settings)], blocks[1..])
  }

  // ----- line by line

  lemma {:induction false} ReadInTwo(a: seq<string>, b: seq<string>, st: State)
    ensures ReadLines(a + b, st) == match ReadLines(a, st) case None => None case Some(next) => ReadLines(b, next)
  {
    hide ReadLine, Apply;
    if a == [] {
      assert a + b == b;
    } else {
      assert (a + b)[1..] == a[1..] + b;
      var item := ReadLine(a[0]);
      if item.Some? && Apply(st, item.value).Some? {
        ReadInTwo(a[1..], b, Apply(st, item.value).value);
      }
    }
  }

  lemma NoteSaysNothing(line: string)
    requires IsNote(line) || line == ""
    ensures ReadLine(line) == Some(Nothing)
  {
  }

  lemma {:induction false} NotesSayNothing(notes: seq<string>, st: State)
    requires AreNotes(notes)
    ensures ReadLines(notes, st) == Some(st)
  {
    hide ReadLine, IsNote;
    if notes != [] {
      NoteSaysNothing(notes[0]);
      NotesSayNothing(notes[1..], st);
    }
  }

  lemma OneLine(line: string, st: State)
    ensures ReadLines([line], st) == match ReadLine(line) case None => None case Some(item) => Apply(st, item)
  {
    hide ReadLine, Apply;
    assert [line][1..] == [];
  }

  lemma {:induction false} SettingsInTwo(a: seq<Setting>, b: seq<Setting>)
    ensures SettingLines(a + b) == SettingLines(a) + SettingLines(b)
  {
    hide OneSettingLines;
    if a == [] {
      assert a + b == b;
    } else {
      SettingsInTwo(a[1..], b);
      assert (a + b)[0] == a[0] && (a + b)[1..] == a[1..] + b;
    }
  }

  lemma {:induction false} TableHoldsKeys(settings: seq<Setting>)
    ensures forall k :: k in TableOf(settings) <==> exists s :: s in settings && s.key == k
  {
    if settings != [] {
      var most, last := settings[..|settings| - 1], settings[|settings| - 1];
      TableHoldsKeys(most);
      assert settings == most + [last];
      forall k ensures k in TableOf(settings) <==> exists s :: s in settings && s.key == k {
        if s :| s in most && s.key == k {
          assert s in settings;
        }
      }
    }
  }

  /** Every key of a block lands in that block's own table. */
  lemma {:induction false} SettingsAreRead(settings: seq<Setting>, doc: Document, path: seq<string>)
    requires KeysDiffer(settings) && forall s :: s in settings ==> AreNotes(s.notes) && IsWritable(s.value)
    requires path in doc && doc[path] == map[] && forall s :: s in settings ==> path + [s.key] !in doc
    ensures ReadLines(SettingLines(settings), State(doc, path))
      == Some(State(doc[path := TableOf(settings)], path))
  {
    hide ReadLine, EntryText, AreNotes, IsWritable;
    if settings == [] {
      assert doc[path := map[]] == doc;
    } else {
      var most, last := settings[..|settings| - 1], settings[|settings| - 1];
      assert settings == most + [last];
      SettingsAreRead(most, doc, path);
      SettingsInTwo(most, [last]);
      var line := EntryText(last.key, last.value);
      assert SettingLines([last]) == last.notes + [line] by {
        assert [last][1..] == [];
        assert last.notes + [line] + [] == last.notes + [line];
      }
      var st := State(doc[path := TableOf(most)], path);
      ReadInTwo(SettingLines(most), SettingLines([last]), State(doc, path));
      ReadInTwo(last.notes, [line], st);
      NotesSayNothing(last.notes, st);
      OneLine(line, st);
      EntryIsReadBack(last.key, last.value);
      LastKeyIsNew(settings);
      NoKeyIsTheTable(path, last.key);
      assert doc[path := TableOf(most)][path := TableOf(settings)] == doc[path := TableOf(settings)];
    }
  }

  lemma LastKeyIsNew(settings: seq<Setting>)
    requires settings != [] && KeysDiffer(settings)
    ensures settings[|settings| - 1].key !in TableOf(settings[..|settings| - 1])
  {
    var most := settings[..|settings| - 1];
    TableHoldsKeys(most);
    forall s | s in most ensures s.key != settings[|settings| - 1].key {
      var k :| 0 <= k < |most| && most[k] == s;
      assert settings[k] == s;
    }
  }

  lemma NoKeyIsTheTable(path: seq<string>, key: string)
    ensures path + [key] != path
  {
    assert |path + [key]| == |path| + 1;
  }

  lemma {:induction false} BlocksAreRead(blocks: seq<Block>, st: State)
    requires FitAll(st.doc, blocks)
    ensures ReadLines(BlockLines(blocks), st).Some?
    ensures ReadLines(BlockLines(blocks), st).value.doc == AddAll(st.doc, blocks)
    decreases |blocks|
  {
    hide ReadLine, HeaderText, SettingLines, TableOf, IsKey, KeysDiffer, AreNotes, IsWritable;
    if blocks != [] {
      var b := blocks[0];
      var header := HeaderText(b.path);
      var begun := State(st.doc[b.path := map[]], b.path);
      var closed := State(st.doc[b.path := TableOf(b.settings)], b.path);
      assert begun.doc[b.path := TableOf(b.settings)] == closed.doc;
      NoteSaysNothing("");
      HeaderIsReadBack(b.path);
      assert ["", header] == [""] + [header];
      ReadInTwo([""], [header], st);
      OneLine("", st);
      OneLine(header, st);
      forall s | s in b.settings ensures b.path + [s.key] !in begun.doc {
        NoKeyIsTheTable(b.path, s.key);
      }
      SettingsAreRead(b.settings, begun.doc, b.path);
      ReadInTwo(["", header], SettingLines(b.settings), st);
      ReadInTwo(["", header] + SettingLines(b.settings), BlockLines(blocks[1..]), st);
      BlocksAreRead(blocks[1..], closed);
    }
  }

  lemma {:induction false} BadLineSpoilsAll(lines: seq<string>, st: State, bad: string)
    requires bad in lines && ReadLine(bad) == None
    ensures ReadLines(lines, st) == None
  {
    hide ReadLine, Apply;
    if lines[0] != bad {
      var item := ReadLine(lines[0]);
      if item.Some? && Apply(st, item.value).Some? {
        BadLineSpoilsAll(lines[1..], Apply(st, item.value).value, bad);
      }
    }
  }

  // ----- no line holds a line feed

  lemma {:induction false} EscapedHoldsNoFeed(value: string)
    ensures '\n' !in EscapedAll(value)
  {
    if value != "" {
      EscapedHoldsNoFeed(value[1..]);
      CharHoldsNoFeed(value[0]);
    }
  }

  lemma CharHoldsNoFeed(c: char)
    ensures '\n' !in Escaped(c)
  {
    if IsControl(c) && c != '\n' && c != '\r' && c != '\t' {
      var n := c as nat;
      assert n < 0xA0;
    }
  }

  lemma {:induction false} QuotedHoldsNoFeed(items: seq<string>)
    ensures '\n' !in QuotedAll(items)
  {
    if items != [] {
      EscapedHoldsNoFeed(items[0]);
      if |items| > 1 {
        QuotedHoldsNoFeed(items[1..]);
      }
    }
  }

  lemma EntryHoldsNoFeed(key: string, value: Value)
    ensures '\n' !in EntryText(key, value)
  {
    hide Decimal, EscapedAll;
    assert '\n' !in KeyText(key) by {
      EscapedHoldsNoFeed(key);
      if IsBare(key) {
        BareHoldsOnlyBareChars(key, '\n');
      }
    }
    match value
    case Str(text) => EscapedHoldsNoFeed(text);
    case Int(n) =>
      DecimalReadsBack(n);
      forall i | 0 <= i < |Decimal(n)| ensures Decimal(n)[i] != '\n' {
        assert IsDigit(Decimal(n)[i]);
      }
    case Bool(b) =>
    case List(items) => QuotedHoldsNoFeed(items);
  }

  lemma {:induction false} HeaderHoldsNoFeed(path: seq<string>)
    requires AreBare(path)
    ensures '\n' !in JoinWithDots(path)
  {
    if path != [] {
      BareHoldsOnlyBareChars(path[0], '\n');
      if |path| > 1 {
        HeaderHoldsNoFeed(path[1..]);
      }
    }
  }

  predicate HoldsNoFeed(lines: seq<string>) {
    forall line :: line in lines ==> '\n' !in line
  }

  lemma {:induction false} SettingsHoldNoFeed(settings: seq<Setting>)
    requires HaveNotes(settings)
    ensures HoldsNoFeed(SettingLines(settings))
  {
    hide EntryText;
    if settings != [] {
      EntryHoldsNoFeed(settings[0].key, settings[0].value);
      SettingsHoldNoFeed(settings[1..]);
    }
  }

  /** Every path is of bare keys and every note is a comment. */
  predicate IsPlain(b: Block) {
    AreBare(b.path) && HaveNotes(b.settings)
  }

  predicate ArePlain(blocks: seq<Block>) {
    forall b :: b in blocks ==> IsPlain(b)
  }

  lemma {:induction false} BlocksHoldNoFeed(blocks: seq<Block>)
    requires ArePlain(blocks)
    ensures HoldsNoFeed(BlockLines(blocks))
  {
    hide AreBare, HaveNotes, SettingLines;
    if blocks != [] {
      assert IsPlain(blocks[0]) && ArePlain(blocks[1..]);
      HeaderHoldsNoFeed(blocks[0].path);
      assert '\n' !in HeaderText(blocks[0].path);
      SettingsHoldNoFeed(blocks[0].settings);
      BlocksHoldNoFeed(blocks[1..]);
    }
  }

  // ----- the whole document

  /** The text of a document: its opening comments, then its tables. */
  function DocumentText(opening: seq<string>, blocks: seq<Block>): string {
    Unlines(opening + BlockLines(blocks))
  }

  /** Reading a written document gives back every table with exactly its keys. */
  lemma DocumentIsReadBack(opening: seq<string>, blocks: seq<Block>)
    requires AreNotes(opening) && FitAll(START.doc, blocks)
    requires ArePlain(blocks)
    ensures ReadDocument(DocumentText(opening, blocks)) == Some(AddAll(START.doc, blocks))
  {
    hide ReadLine, BlockLines, FitAll, AddAll, ArePlain, SplitLines;
    var lines := opening + BlockLines(blocks);
    BlocksHoldNoFeed(blocks);
    WrittenLinesAreCut(lines, Feed);
    ReadInTwo(opening, BlockLines(blocks), START);
    NotesSayNothing(opening, START);
    BlocksAreRead(blocks, START);
  }

  lemma {:induction false} SettingLineIsThere(settings: seq<Setting>, s: Setting)
    requires s in settings
    ensures EntryText(s.key, s.value) in SettingLines(settings)
  {
    hide EntryText;
    if settings[0] != s {
      SettingLineIsThere(settings[1..], s);
    }
  }

  lemma {:induction false} BlockLineIsThere(blocks: seq<Block>, b: Block, line: string)
    requires b in blocks && line in SettingLines(b.settings)
    ensures line in BlockLines(blocks)
  {
    hide SettingLines;
    if blocks[0] != b {
      BlockLineIsThere(blocks[1..], b, line);
    }
  }

  /** A document with an integer TOML cannot hold is refused as a whole. */
  lemma UnwritableIsRefused(opening: seq<string>, blocks: seq<Block>, b: Block, s: Setting)
    requires AreNotes(opening) && b in blocks && s in b.settings && !IsWritable(s.value)
    requires ArePlain(blocks)
    ensures ReadDocument(DocumentText(opening, blocks)) == None
  {
    hide ReadLine, BlockLines, ArePlain, SplitLines, IsWritable;
    var lines := opening + BlockLines(blocks);
    BlocksHoldNoFeed(blocks);
    WrittenLinesAreCut(lines, Feed);
    SettingLineIsThere(b.settings, s);
    BlockLineIsThere(blocks, b, EntryText(s.key, s.value));
    EntryIsReadBack(s.key, s.value);
    BadLineSpoilsAll(lines, START, EntryText(s.key, s.value));
  }
}
