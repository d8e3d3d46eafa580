/** The writer of the config file: `render_toml` and its three table renderers push onto one string
    (agents/common/pessimal_agent_core/src/onboarding.rs). */
module ConfigWriter {
  import opened Texts
  import opened Lines
  import opened Toml
  import opened TomlLines
  import opened TomlDocument
  import opened AgentConfig
  import opened ConfigText

  /** The string being written. */
  class TextBuffer {
    var text: string

    constructor ()
      ensures text == ""
    {
      text := "";
    }

    method Push(more: string)
      modifies this
      ensures text == old(text) + more
    {
      text := text + more;
    }
  }

  /** The strings of an array, quoted and joined. */
  method TomlStrings(items: seq<string>) returns (out: string)
    ensures out == QuotedAll(items)
  {
    hide QuotedAll, Quoted;
    out := "";
    NoStrings();
    assert items[..0] == [];
    var i := 0;
    while i < |items|
      invariant 0 <= i <= |items|
      invariant out == QuotedAll(items[..i])
    {
      var one := TomlString(items[i]);
      OneMoreString(items[..i], items[i]);
      assert items[..i + 1] == items[..i] + [items[i]];
      out := if i == 0 then one else out + ", " + one;
      i := i + 1;
    }
    assert items[..i] == items;
  }

  lemma NoStrings()
    ensures QuotedAll([]) == ""
  {
  }

  lemma {:induction false} OneMoreString(items: seq<string>, last: string)
    ensures QuotedAll(items + [last])
         == if items == [] then Quoted(last) else QuotedAll(items) + ", " + Quoted(last)
  {
    hide Quoted;
    if items != [] {
      assert (items + [last])[1..] == items[1..] + [last];
      OneMoreString(items[1..], last);
    }
  }

  method WriteValue(out: TextBuffer, value: Value)
    modifies out
    ensures out.text == old(out.text) + ValueText(value)
  {
    hide Quoted, QuotedAll, Decimal;
    match value
    case Str(text) =>
      var quoted := TomlString(text);
      out.Push(quoted);
    case Int(n) => out.Push(Decimal(n));
    case Bool(b) => out.Push(if b then "true" else "false");
    case List(items) =>
      out.Push("[");
      var quoted := TomlStrings(items);
      out.Push(quoted);
      out.Push("]");
      assert ValueText(value) == "[" + quoted + "]";
  }

  lemma OneMoreSetting(before: seq<Setting>, s: Setting)
    ensures Unlines(SettingLines(before + [s]))
         == Unlines(SettingLines(before)) + Unlines(s.notes) + EntryText(s.key, s.value) + "\n"
  {
    hide EntryText, Unlines;
    SettingsInTwo(before, [s]);
    assert SettingLines([s]) == OneSettingLines(s) by {
      assert [s][1..] == [];
      assert OneSettingLines(s) + [] == OneSettingLines(s);
    }
    UnlinesConcatenates(SettingLines(before), OneSettingLines(s));
    UnlinesConcatenates(s.notes, [EntryText(s.key, s.value)]);
    OneUnline(EntryText(s.key, s.value));
  }

  lemma OneUnline(line: string)
    ensures Unlines([line]) == line + "\n"
  {
    assert [line][1..] == [];
  }

  /** Writes a key under its comments, after the keys already written. */
  method WriteSetting(out: TextBuffer, s: Setting, ghost start: string, ghost before: seq<Setting>)
    returns (ghost after: seq<Setting>)
    requires out.text == start + Unlines(SettingLines(before))
    modifies out
    ensures after == before + [s] && out.text == start + Unlines(SettingLines(after))
  {
    after := before + [s];
    hide SettingLines, KeyText, ValueText;
    var i := 0;
    while i < |s.notes|
      invariant 0 <= i <= |s.notes|
      invariant out.text == start + Unlines(SettingLines(before)) + Unlines(s.notes[..i])
    {
      assert s.notes[..i + 1] == s.notes[..i] + [s.notes[i]];
      UnlinesConcatenates(s.notes[..i], [s.notes[i]]);
      OneUnline(s.notes[i]);
      out.Push(s.notes[i] + "\n");
      i := i + 1;
    }
    assert s.notes[..i] == s.notes;
    out.Push(KeyText(s.key) + " = ");
    WriteValue(out, s.value);
    out.Push("\n");
    OneMoreSetting(before, s);
  }

  method WriteOptional(out: TextBuffer, notes: Notes, key: string, value: Option<string>, ghost start: string,
                       ghost before: seq<Setting>)
    returns (ghost after: seq<Setting>)
    requires out.text == start + Unlines(SettingLines(before))
    modifies out
    ensures after == before + PutOptional(notes, key, value) && out.text == start + Unlines(SettingLines(after))
  {
    hide SettingLines, Unlines;
    after := before;
    if value.Some? {
      after := WriteSetting(out, Put(notes, key, Str(value.value)), start, before);
    }
  }

  /** A table of names, or nothing for an empty one. */
  method WriteMap(out: TextBuffer, path: seq<string>, m: map<string, string>)
    modifies out
    ensures out.text == old(out.text) + Unlines(BlockLines(MapBlock(path, m)))
  {
    hide SettingLines, HeaderText, BlockLines, Unlines, MapSettings, StrictlyAscending;
    if m == map[] {
      NothingWritten();
      return;
    }
    AscendingListsTheSet(m.Keys);
    var names := Ascending(m.Keys);
    out.Push("\n" + HeaderText(path) + "\n");
    ghost var start, done := out.text, MapSettings([], m);
    NothingWritten();
    NoNames(m);
    assert names[..0] == [];
    var i := 0;
    while i < |names|
      invariant 0 <= i <= |names|
      invariant done == MapSettings(names[..i], m)
      invariant out.text == start + Unlines(SettingLines(done))
    {
      OneMoreName(names, m, i);
      done := WriteSetting(out, Setting([], names[i], Str(m[names[i]])), start, done);
      i := i + 1;
    }
    assert names[..i] == names;
    OneBlock(Block(path, done));
  }

  lemma NoNames(m: map<string, string>)
    ensures MapSettings([], m) == []
  {
  }

  lemma OneMoreName(names: seq<string>, m: map<string, string>, i: nat)
    requires i < |names| && forall n :: n in names ==> n in m
    ensures MapSettings(names[..i + 1], m) == MapSettings(names[..i], m) + [Setting([], names[i], Str(m[names[i]]))]
  {
  }

  lemma NothingWritten()
    ensures Unlines(SettingLines([])) == "" && Unlines(BlockLines([])) == ""
  {
  }

  lemma OneBlock(b: Block)
    ensures Unlines(BlockLines([b])) == "\n" + HeaderText(b.path) + "\n" + Unlines(SettingLines(b.settings))
  {
    hide HeaderText, SettingLines;
    var header := HeaderText(b.path);
    var lines := ["", header] + SettingLines(b.settings);
    assert BlockLines([b]) == lines + [] == lines;
    assert lines[1..] == [header] + SettingLines(b.settings);
    assert lines[1..][1..] == SettingLines(b.settings);
  }

  lemma BlockByBlock(a: seq<Block>, b: seq<Block>)
    ensures BlockLines(a + b) == BlockLines(a) + BlockLines(b)
  {
    hide HeaderText, SettingLines;
    if a == [] {
      assert a + b == b;
    } else {
      assert (a + b)[1..] == a[1..] + b;
      BlockByBlock(a[1..], b);
      BlocksRegroup(["", HeaderText(a[0].path)] + SettingLines(a[0].settings), BlockLines(a[1..]), BlockLines(b));
    }
  }

  lemma BlocksRegroup(a: seq<string>, b: seq<string>, c: seq<string>)
    ensures a + (b + c) == (a + b) + c
  {
  }

  lemma TextInTwo(a: seq<Block>, b: seq<Block>)
    ensures Unlines(BlockLines(a + b)) == Unlines(BlockLines(a)) + Unlines(BlockLines(b))
  {
    hide BlockLines, Unlines;
    BlockByBlock(a, b);
    UnlinesConcatenates(BlockLines(a), BlockLines(b));
  }

  lemma TableAndMap(b: Block, others: seq<Block>)
    ensures Unlines(BlockLines([b] + others))
      == "\n" + HeaderText(b.path) + "\n" + Unlines(SettingLines(b.settings)) + Unlines(BlockLines(others))
  {
    hide BlockLines, Unlines, HeaderText, SettingLines;
    OneBlock(b);
    TextInTwo([b], others);
  }

  method WriteRequired(out: TextBuffer, e: ExportConfig, notes: Notes, ghost start: string)
    returns (ghost done: seq<Setting>)
    requires out.text == start
    modifies out
    ensures done == RequiredSettings(e, notes) && out.text == start + Unlines(SettingLines(done))
  {
    hide SettingLines, Unlines, Put, WireName, ProtocolName;
    done := [];
    NothingWritten();
    done := WriteSetting(out, Put(notes, "preset", Str(WireName(e.preset))), start, done);
    done := WriteSetting(out, Put(notes, "endpoint", Str(e.endpoint)), start, done);
    done := WriteSetting(out, Put(notes, "protocol", Str(ProtocolName(e.protocol))), start, done);
    done := WriteSetting(out, Put(notes, "interval_seconds", Int(e.intervalSeconds)), start, done);
    done := WriteSetting(out, Put(notes, "timeout_seconds", Int(e.timeoutSeconds)), start, done);
    assert done == RequiredSettings(e, notes);
  }

  /** `[export]`, after the empty line that ends the file's opening. */
  method RenderExport(out: TextBuffer, e: ExportConfig, notes: Notes, ghost opening: string)
    requires out.text == opening + "\n"
    modifies out
    ensures out.text == opening + Unlines(BlockLines(ExportBlocks(e, notes)))
  {
    hide SettingLines, MapBlock, BlockLines, Unlines, Put, PutOptional, WireName, ProtocolName, HeaderText,
         RequiredSettings;
    out.Push("[export]\n");
    ghost var start, done := out.text, [];
    NothingWritten();
    done := WriteRequired(out, e, notes, start);
    done := WriteOptional(out, notes, "api_key", e.apiKey, start, done);
    done := WriteOptional(out, notes, "dataset", e.dataset, start, done);
    assert done == ExportSettings(e, notes);
    WriteMap(out, EXPORT_HEADERS, e.headers);
    TableAndMap(Block(EXPORT, done), MapBlock(EXPORT_HEADERS, e.headers));
    HeadersText();
  }

  lemma HeadersText()
    ensures HeaderText(EXPORT) == "[export]" && HeaderText(RESOURCE) == "[resource]" && HeaderText(COLLECTION) == "[collection]"
  {
  }

  /** `[resource]` */
  method RenderResource(out: TextBuffer, r: ResourceConfig, notes: Notes)
    modifies out
    ensures out.text == old(out.text) + Unlines(BlockLines(ResourceBlocks(r, notes)))
  {
    hide SettingLines, MapBlock, BlockLines, Unlines, Put, PutOptional;
    out.Push("\n[resource]\n");
    ghost var start, done := out.text, [];
    NothingWritten();
    done := WriteSetting(out, Put(notes, "service_name", Str(r.serviceName)), start, done);
    done := WriteSetting(out, Put(notes, "environment", Str(r.environment)), start, done);
    done := WriteOptional(out, notes, "host_name", r.hostName, start, done);
    assert done == ResourceSettings(r, notes);
    WriteMap(out, RESOURCE_ATTRIBUTES, r.attributes);
    TableAndMap(Block(RESOURCE, done), MapBlock(RESOURCE_ATTRIBUTES, r.attributes));
    HeadersText();
  }

  /** `[collection]` */
  method RenderCollection(out: TextBuffer, c: CollectionConfig, notes: Notes)
    modifies out
    ensures out.text == old(out.text) + Unlines(BlockLines([Block(COLLECTION, CollectionSettings(c, notes))]))
  {
    hide SettingLines, BlockLines, Unlines, Put;
    out.Push("\n[collection]\n");
    ghost var start, done := out.text, [];
    NothingWritten();
    done := WriteSetting(out, Put(notes, "filesystems", List(c.filesystems)), start, done);
    done := WriteSetting(out, Put(notes, "per_interface_network", Bool(c.perInterfaceNetwork)), start, done);
    done := WriteSetting(out, Put(notes, "temperatures", Bool(c.temperatures)), start, done);
    done := WriteSetting(out, Put(notes, "temperature_sensors", List(c.temperatureSensors)), start, done);
    assert done == CollectionSettings(c, notes);
    OneBlock(Block(COLLECTION, done));
    HeadersText();
  }

  /** `render_toml`: what is pushed piece by piece is the config file as a whole. */
  method RenderToml(c: Config, notes: Notes) returns (text: string)
    ensures text == ConfigFile(c, notes)
  {
    hide BlockLines, Unlines, ExportBlocks, ResourceBlocks, CollectionSettings, NotesOf;
    var out := new TextBuffer();
    out.Push(Unlines(NotesOf(notes, "")));
    out.Push("\n");
    RenderExport(out, c.export_, notes, Unlines(NotesOf(notes, "")));
    RenderResource(out, c.resource, notes);
    RenderCollection(out, c.collection, notes);
    text := out.text;
    TextInTwo(ExportBlocks(c.export_, notes), ResourceBlocks(c.resource, notes));
    TextInTwo(ExportBlocks(c.export_, notes) + ResourceBlocks(c.resource, notes),
              [Block(COLLECTION, CollectionSettings(c.collection, notes))]);
    UnlinesConcatenates(NotesOf(notes, ""), BlockLines(ConfigBlocks(c, notes)));
  }
}
