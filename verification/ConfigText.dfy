/** The config file `init` writes, and that reading it gives back the config
    (agents/common/pessimal_agent_core/src/onboarding.rs, `render_toml`). */
module ConfigText {
  import opened Texts
  import opened Lines
  import opened Toml
  import opened TomlLines
  import opened TomlDocument
  import opened AgentConfig

  // ----- what is written

  /** The comment lines above each key, and those that open the file under the empty name. They are
      fixed texts in the source; nothing here depends on which. */
  type Notes = map<string, seq<string>>

  function NotesOf(notes: Notes, key: string): seq<string> {
    if key in notes then notes[key] else []
  }

  ghost predicate AreComments(notes: Notes) {
    forall k :: k in notes ==> AreNotes(notes[k])
  }

  function Put(notes: Notes, key: string, value: Value): Setting {
    Setting(NotesOf(notes, key), key, value)
  }

  function PutOptional(notes: Notes, key: string, value: Option<string>): seq<Setting> {
    if value.Some? then [Put(notes, key, Str(value.value))] else []
  }

  function RequiredSettings(e: ExportConfig, notes: Notes): seq<Setting> {
    [Put(notes, "preset", Str(WireName(e.preset))),
     Put(notes, "endpoint", Str(e.endpoint)),
     Put(notes, "protocol", Str(ProtocolName(e.protocol))),
     Put(notes, "interval_seconds", Int(e.intervalSeconds)),
     Put(notes, "timeout_seconds", Int(e.timeoutSeconds))]
  }

  function ExportSettings(e: ExportConfig, notes: Notes): seq<Setting> {
    RequiredSettings(e, notes) + PutOptional(notes, "api_key", e.apiKey) + PutOptional(notes, "dataset", e.dataset)
  }

  function ResourceSettings(r: ResourceConfig, notes: Notes): seq<Setting> {
    [Put(notes, "service_name", Str(r.serviceName)), Put(notes, "environment", Str(r.environment))]
    + PutOptional(notes, "host_name", r.hostName)
  }

  function CollectionSettings(c: CollectionConfig, notes: Notes): seq<Setting> {
    [Put(notes, "filesystems", List(c.filesystems)),
     Put(notes, "per_interface_network", Bool(c.perInterfaceNetwork)),
     Put(notes, "temperatures", Bool(c.temperatures)),
     Put(notes, "temperature_sensors", List(c.temperatureSensors))]
  }

  /** A map's entries in the order of `names`. */
  function MapSettings(names: seq<string>, m: map<string, string>): seq<Setting>
    requires forall n :: n in names ==> n in m
  {
    seq(|names|, i requires 0 <= i < |names| => Setting([], names[i], Str(m[names[i]])))
  }

  function SortedSettings(m: map<string, string>): seq<Setting> {
    AscendingListsTheSet(m.Keys);
    MapSettings(Ascending(m.Keys), m)
  }

  function MapBlock(path: seq<string>, m: map<string, string>): seq<Block> {
    if m == map[] then [] else [Block(path, SortedSettings(m))]
  }

  function ExportBlocks(e: ExportConfig, notes: Notes): seq<Block> {
    [Block(EXPORT, ExportSettings(e, notes))] + MapBlock(EXPORT_HEADERS, e.headers)
  }

  function ResourceBlocks(r: ResourceConfig, notes: Notes): seq<Block> {
    [Block(RESOURCE, ResourceSettings(r, notes))] + MapBlock(RESOURCE_ATTRIBUTES, r.attributes)
  }

  function ConfigBlocks(c: Config, notes: Notes): seq<Block> {
    ExportBlocks(c.export_, notes) + ResourceBlocks(c.resource, notes)
    + [Block(COLLECTION, CollectionSettings(c.collection, notes))]
  }

  /** The whole file. */
  function ConfigFile(c: Config, notes: Notes): string {
    DocumentText(NotesOf(notes, ""), ConfigBlocks(c, notes))
  }

  // ----- the table each block becomes

  lemma AppendDiffers(settings: seq<Setting>, s: Setting)
    requires KeysDiffer(settings) && forall t :: t in settings ==> t.key != s.key
    ensures KeysDiffer(settings + [s])
    ensures TableOf(settings + [s]) == TableOf(settings)[s.key := s.value]
  {
    var all := settings + [s];
    forall i, j | 0 <= i < j < |all| ensures all[i].key != all[j].key {
      assert i < |settings| ==> settings[i] in settings;
    }
    assert all[..|all| - 1] == settings;
  }

  lemma OneSetting(s: Setting)
    ensures KeysDiffer([s]) && TableOf([s]) == map[s.key := s.value]
  {
    assert [s][..0] == [];
  }

  lemma ExportNamesDiffer()
    ensures "endpoint" != "protocol" && "api_key" != "dataset"
  {
    assert "endpoint"[0] != "protocol"[0] && "api_key"[0] != "dataset"[0];
  }

  lemma FiveSettings(a: Setting, b: Setting, c: Setting, d: Setting, e: Setting)
    requires a.key == "preset" && b.key == "endpoint" && c.key == "protocol" && d.key == "interval_seconds"
      && e.key == "timeout_seconds"
    ensures KeysDiffer([a, b, c, d, e])
    ensures TableOf([a, b, c, d, e]) == map["preset" := a.value, "endpoint" := b.value, "protocol" := c.value,
                                            "interval_seconds" := d.value, "timeout_seconds" := e.value]
  {
    hide TableOf, KeysDiffer;
    ExportNamesDiffer();
    OneSetting(a);
    AppendDiffers([a], b);
    assert [a] + [b] == [a, b];
    AppendDiffers([a, b], c);
    assert [a, b] + [c] == [a, b, c];
    AppendDiffers([a, b, c], d);
    assert [a, b, c] + [d] == [a, b, c, d];
    AppendDiffers([a, b, c, d], e);
    assert [a, b, c, d] + [e] == [a, b, c, d, e];
  }

  function WithOptional(t: Table, key: string, value: Option<string>): Table {
    if value.Some? then t[key := Str(value.value)] else t
  }

  lemma OptionalSetting(settings: seq<Setting>, notes: Notes, key: string, value: Option<string>)
    requires KeysDiffer(settings) && forall t :: t in settings ==> t.key != key
    ensures var all := settings + PutOptional(notes, key, value);
      KeysDiffer(all) && TableOf(all) == WithOptional(TableOf(settings), key, value)
  {
    hide TableOf, KeysDiffer, NotesOf;
    if value.Some? {
      AppendDiffers(settings, Put(notes, key, Str(value.value)));
    } else {
      assert settings + [] == settings;
    }
  }

  function ExportTable(e: ExportConfig): Table {
    var t := map["preset" := Str(WireName(e.preset)), "endpoint" := Str(e.endpoint),
                 "protocol" := Str(ProtocolName(e.protocol)), "interval_seconds" := Int(e.intervalSeconds),
                 "timeout_seconds" := Int(e.timeoutSeconds)];
    WithOptional(WithOptional(t, "api_key", e.apiKey), "dataset", e.dataset)
  }

  lemma ExportSettingsAreATable(e: ExportConfig, notes: Notes)
    ensures KeysDiffer(ExportSettings(e, notes)) && TableOf(ExportSettings(e, notes)) == ExportTable(e)
  {
    hide TableOf, KeysDiffer, NotesOf, WireName, ProtocolName, WithOptional;
    ExportNamesDiffer();
    var a, b := Put(notes, "preset", Str(WireName(e.preset))), Put(notes, "endpoint", Str(e.endpoint));
    var c, d := Put(notes, "protocol", Str(ProtocolName(e.protocol))), Put(notes, "interval_seconds", Int(e.intervalSeconds));
    var f := Put(notes, "timeout_seconds", Int(e.timeoutSeconds));
    FiveSettings(a, b, c, d, f);
    OptionalSetting([a, b, c, d, f], notes, "api_key", e.apiKey);
    var six := [a, b, c, d, f] + PutOptional(notes, "api_key", e.apiKey);
    OptionalSetting(six, notes, "dataset", e.dataset);
  }

  lemma ExportIsDecoded(e: ExportConfig, headers: Table)
    requires Strings(headers) == Some(e.headers)
    ensures DecodeExport(ExportTable(e), headers) == Some(e)
  {
    hide WireName, ProtocolName, ParsePreset, ParseProtocol, Strings;
    ExportNamesDiffer();
    NamesReadBack(e.preset, e.protocol);
  }

  function ResourceTable(r: ResourceConfig): Table {
    WithOptional(map["service_name" := Str(r.serviceName), "environment" := Str(r.environment)], "host_name", r.hostName)
  }

  lemma ResourceSettingsAreATable(r: ResourceConfig, notes: Notes)
    ensures KeysDiffer(ResourceSettings(r, notes)) && TableOf(ResourceSettings(r, notes)) == ResourceTable(r)
  {
    hide TableOf, KeysDiffer, NotesOf, WithOptional;
    var a, b := Put(notes, "service_name", Str(r.serviceName)), Put(notes, "environment", Str(r.environment));
    OneSetting(a);
    AppendDiffers([a], b);
    assert [a] + [b] == [a, b];
    OptionalSetting([a, b], notes, "host_name", r.hostName);
  }

  lemma ResourceIsDecoded(r: ResourceConfig, attributes: Table)
    requires Strings(attributes) == Some(r.attributes)
    ensures DecodeResource(ResourceTable(r), attributes) == Some(r)
  {
    hide Strings;
  }

  function CollectionTable(c: CollectionConfig): Table {
    map["filesystems" := List(c.filesystems), "per_interface_network" := Bool(c.perInterfaceNetwork),
        "temperatures" := Bool(c.temperatures), "temperature_sensors" := List(c.temperatureSensors)]
  }

  lemma CollectionSettingsAreATable(c: CollectionConfig, notes: Notes)
    ensures KeysDiffer(CollectionSettings(c, notes)) && TableOf(CollectionSettings(c, notes)) == CollectionTable(c)
  {
    hide TableOf, KeysDiffer, NotesOf;
    var f, p := Put(notes, "filesystems", List(c.filesystems)), Put(notes, "per_interface_network", Bool(c.perInterfaceNetwork));
    var t, s := Put(notes, "temperatures", Bool(c.temperatures)), Put(notes, "temperature_sensors", List(c.temperatureSensors));
    OneSetting(f);
    AppendDiffers([f], p);
    assert [f] + [p] == [f, p];
    AppendDiffers([f, p], t);
    assert [f, p] + [t] == [f, p, t];
    AppendDiffers([f, p, t], s);
    assert [f, p, t] + [s] == [f, p, t, s];
  }

  lemma CollectionIsDecoded(c: CollectionConfig)
    ensures DecodeCollection(CollectionTable(c)) == Some(c)
  {
  }

  function MapTable(m: map<string, string>): Table {
    map n | n in m :: Str(m[n])
  }

  lemma {:induction false} MapSettingsAreATable(names: seq<string>, m: map<string, string>)
    requires forall n :: n in names ==> n in m
    ensures TableOf(MapSettings(names, m)) == map n | n in names :: Str(m[n])
  {
    if names != [] {
      var most, last := names[..|names| - 1], names[|names| - 1];
      MapSettingsAreATable(most, m);
      var settings := MapSettings(names, m);
      assert settings[..|settings| - 1] == MapSettings(most, m);
      assert names == most + [last];
    }
  }

  lemma SortedSettingsAreATable(m: map<string, string>)
    ensures KeysDiffer(SortedSettings(m)) && TableOf(SortedSettings(m)) == MapTable(m)
    ensures forall s :: s in SortedSettings(m) ==> s.notes == [] && s.value.Str?
  {
    hide TableOf;
    AscendingListsTheSet(m.Keys);
    AscendingIsDistinct(m.Keys);
    MapSettingsAreATable(Ascending(m.Keys), m);
  }

  lemma MapIsDecoded(m: map<string, string>)
    ensures Strings(MapTable(m)) == Some(m)
  {
    assert (map k | k in MapTable(m) :: MapTable(m)[k].text) == m;
  }

  // ----- the tables fit together

  lemma {:induction false} FitAllInTwo(doc: Document, a: seq<Block>, b: seq<Block>)
    ensures FitAll(doc, a + b) <==> FitAll(doc, a) && FitAll(AddAll(doc, a), b)
    ensures AddAll(doc, a + b) == AddAll(AddAll(doc, a), b)
    decreases |a|
  {
    hide Fits, TableOf;
    if a == [] {
      assert a + b == b;
    } else {
      assert (a + b)[1..] == a[1..] + b;
      FitAllInTwo(doc[a[0].path := TableOf(a[0].settings)], a[1..], b);
    }
  }

  lemma OneFits(doc: Document, b: Block)
    requires Fits(doc, b)
    ensures FitAll(doc, [b]) && AddAll(doc, [b]) == doc[b.path := TableOf(b.settings)]
  {
    hide Fits, TableOf;
    assert [b][1..] == [];
  }

  predicate AreSound(settings: seq<Setting>) {
    KeysDiffer(settings) && forall s :: s in settings ==> AreNotes(s.notes) && IsWritable(s.value)
  }

  /** A table of a name no other table begins with. */
  lemma TableFits(doc: Document, name: string, settings: seq<Setting>)
    requires IsBare(name) && AreSound(settings) && [] in doc && doc[[]] == map[]
    requires forall p :: p in doc && p != [] ==> p[0] != name
    ensures Fits(doc, Block([name], settings))
  {
    hide IsBare, KeysDiffer, AreNotes, IsWritable;
    var path := [name];
    assert path[0] == name && path[..0] == [];
    forall s | s in settings ensures path + [s.key] !in doc {
      assert (path + [s.key])[0] == name;
    }
  }

  /** A table inside another, whose name is not one of the other's keys. */
  lemma SubtableFits(doc: Document, name: string, sub: string, settings: seq<Setting>)
    requires IsBare(name) && IsBare(sub) && AreSound(settings)
    requires [name] in doc && sub !in doc[[name]]
    requires forall p :: p in doc && |p| > 1 ==> p[0] != name
    ensures Fits(doc, Block([name, sub], settings))
  {
    hide IsBare, KeysDiffer, AreNotes, IsWritable;
    var path := [name, sub];
    assert path[0] == name && path[..1] == [name];
    forall s | s in settings ensures path + [s.key] !in doc {
      assert (path + [s.key])[0] == name;
    }
  }

  lemma LettersAreBare(name: string)
    requires name in ["export", "headers", "resource", "attributes", "collection"]
    ensures IsBare(name)
  {
  }

  lemma TopNamesDiffer()
    ensures "export" != "resource" && "export" != "collection" && "resource" != "collection"
  {
  }

  ghost predicate BeginsWithOneOf(doc: Document, names: set<string>) {
    [] in doc && doc[[]] == map[] && forall p :: p in doc && p != [] ==> p[0] in names
  }

  function WithMap(doc: Document, path: seq<string>, m: map<string, string>): Document {
    if m == map[] then doc else doc[path := MapTable(m)]
  }

  lemma MapBlockFits(doc: Document, name: string, sub: string, m: map<string, string>)
    requires IsBare(name) && IsBare(sub) && [name] in doc && sub !in doc[[name]]
    requires forall p :: p in doc && |p| > 1 ==> p[0] != name
    ensures FitAll(doc, MapBlock([name, sub], m)) && AddAll(doc, MapBlock([name, sub], m)) == WithMap(doc, [name, sub], m)
  {
    hide IsBare, TableOf, Fits, SortedSettings, MapTable;
    if m != map[] {
      SortedSettingsAreATable(m);
      SubtableFits(doc, name, sub, SortedSettings(m));
      OneFits(doc, Block([name, sub], SortedSettings(m)));
    }
  }

  function ExportDocument(doc: Document, e: ExportConfig): Document {
    WithMap(doc[EXPORT := ExportTable(e)], EXPORT_HEADERS, e.headers)
  }

  lemma NotesOfAreNotes(notes: Notes, key: string)
    requires AreComments(notes)
    ensures AreNotes(NotesOf(notes, key))
  {
    hide IsNote;
  }

  lemma ExportIsSound(e: ExportConfig, notes: Notes)
    requires AreComments(notes) && e.intervalSeconds <= I64_MAX && e.timeoutSeconds <= I64_MAX
    ensures AreSound(ExportSettings(e, notes))
  {
    hide KeysDiffer, NotesOf, AreNotes, WireName, ProtocolName, AreComments;
    ExportSettingsAreATable(e, notes);
    forall s | s in ExportSettings(e, notes) ensures AreNotes(s.notes) && IsWritable(s.value) {
      assert s.notes == NotesOf(notes, s.key);
      NotesOfAreNotes(notes, s.key);
    }
  }

  lemma ExportBlocksFit(doc: Document, e: ExportConfig, notes: Notes)
    requires AreComments(notes) && e.intervalSeconds <= I64_MAX && e.timeoutSeconds <= I64_MAX
    requires BeginsWithOneOf(doc, {})
    ensures FitAll(doc, ExportBlocks(e, notes)) && AddAll(doc, ExportBlocks(e, notes)) == ExportDocument(doc, e)
    ensures BeginsWithOneOf(ExportDocument(doc, e), {"export"})
  {
    hide AreComments, ExportSettings, AreSound, Fits, TableOf, FitAll, AddAll, MapBlock, ExportTable, MapTable, IsBare;
    LettersAreBare("export");
    LettersAreBare("headers");
    var b := Block(EXPORT, ExportSettings(e, notes));
    ExportIsSound(e, notes);
    ExportSettingsAreATable(e, notes);
    TableFits(doc, "export", b.settings);
    OneFits(doc, b);
    var next := doc[EXPORT := ExportTable(e)];
    assert EXPORT[0] == "export";
    HeadersIsNoKey(e);
    MapBlockFits(next, "export", "headers", e.headers);
    FitAllInTwo(doc, [b], MapBlock(EXPORT_HEADERS, e.headers));
  }

  lemma HeadersIsNoKey(e: ExportConfig)
    ensures "headers" !in ExportTable(e)
  {
    hide WireName, ProtocolName;
    assert "headers"[0] != "api_key"[0] && "headers"[0] != "dataset"[0];
  }

  function ResourceDocument(doc: Document, r: ResourceConfig): Document {
    WithMap(doc[RESOURCE := ResourceTable(r)], RESOURCE_ATTRIBUTES, r.attributes)
  }

  lemma ResourceIsSound(r: ResourceConfig, notes: Notes)
    requires AreComments(notes)
    ensures AreSound(ResourceSettings(r, notes))
  {
    hide KeysDiffer, NotesOf, AreNotes, AreComments;
    ResourceSettingsAreATable(r, notes);
    forall s | s in ResourceSettings(r, notes) ensures AreNotes(s.notes) && IsWritable(s.value) {
      assert s.notes == NotesOf(notes, s.key);
      NotesOfAreNotes(notes, s.key);
    }
  }

  lemma AttributesIsNoKey(r: ResourceConfig)
    ensures "attributes" !in ResourceTable(r)
  {
  }

  lemma ResourceBlocksFit(doc: Document, r: ResourceConfig, notes: Notes)
    requires AreComments(notes) && BeginsWithOneOf(doc, {"export"})
    ensures FitAll(doc, ResourceBlocks(r, notes)) && AddAll(doc, ResourceBlocks(r, notes)) == ResourceDocument(doc, r)
    ensures BeginsWithOneOf(ResourceDocument(doc, r), {"export", "resource"})
  {
    hide AreComments, ResourceSettings, AreSound, Fits, TableOf, FitAll, AddAll, MapBlock, ResourceTable, MapTable, IsBare;
    LettersAreBare("resource");
    LettersAreBare("attributes");
    TopNamesDiffer();
    var b := Block(RESOURCE, ResourceSettings(r, notes));
    ResourceIsSound(r, notes);
    ResourceSettingsAreATable(r, notes);
    TableFits(doc, "resource", b.settings);
    OneFits(doc, b);
    var next := doc[RESOURCE := ResourceTable(r)];
    assert RESOURCE[0] == "resource";
    AttributesIsNoKey(r);
    MapBlockFits(next, "resource", "attributes", r.attributes);
    FitAllInTwo(doc, [b], MapBlock(RESOURCE_ATTRIBUTES, r.attributes));
  }

  lemma CollectionIsSound(c: CollectionConfig, notes: Notes)
    requires AreComments(notes)
    ensures AreSound(CollectionSettings(c, notes))
  {
    hide KeysDiffer, NotesOf, AreNotes, AreComments;
    CollectionSettingsAreATable(c, notes);
    forall s | s in CollectionSettings(c, notes) ensures AreNotes(s.notes) && IsWritable(s.value) {
      assert s.notes == NotesOf(notes, s.key);
      NotesOfAreNotes(notes, s.key);
    }
  }

  /** The tables of a written config. */
  function ConfigDocument(c: Config): Document {
    ResourceDocument(ExportDocument(START.doc, c.export_), c.resource)[COLLECTION := CollectionTable(c.collection)]
  }

  predicate FitsTomlIntegers(c: Config) {
    c.export_.intervalSeconds <= I64_MAX && c.export_.timeoutSeconds <= I64_MAX
  }

  lemma ConfigBlocksFit(c: Config, notes: Notes)
    requires AreComments(notes) && FitsTomlIntegers(c)
    ensures FitAll(START.doc, ConfigBlocks(c, notes)) && AddAll(START.doc, ConfigBlocks(c, notes)) == ConfigDocument(c)
  {
    hide AreComments, ExportBlocks, ResourceBlocks, CollectionSettings, AreSound, Fits, TableOf, FitAll, AddAll,
         ExportDocument, ResourceDocument, CollectionTable, IsBare;
    var first := ExportDocument(START.doc, c.export_);
    var second := ResourceDocument(first, c.resource);
    ExportBlocksFit(START.doc, c.export_, notes);
    ResourceBlocksFit(first, c.resource, notes);
    LettersAreBare("collection");
    TopNamesDiffer();
    CollectionIsSound(c.collection, notes);
    CollectionSettingsAreATable(c.collection, notes);
    var b := Block(COLLECTION, CollectionSettings(c.collection, notes));
    TableFits(second, "collection", b.settings);
    OneFits(second, b);
    var front := ExportBlocks(c.export_, notes) + ResourceBlocks(c.resource, notes);
    FitAllInTwo(START.doc, ExportBlocks(c.export_, notes), ResourceBlocks(c.resource, notes));
    FitAllInTwo(START.doc, front, [b]);
  }

  // ----- and are decoded

  lemma PathsDiffer()
    ensures EXPORT != RESOURCE && EXPORT != COLLECTION && RESOURCE != COLLECTION && EXPORT_HEADERS != RESOURCE_ATTRIBUTES
  {
    TopNamesDiffer();
    assert EXPORT[0] != RESOURCE[0] && EXPORT[0] != COLLECTION[0] && RESOURCE[0] != COLLECTION[0];
    assert EXPORT_HEADERS[0] != RESOURCE_ATTRIBUTES[0];
  }

  lemma ExportTablesAreThere(c: Config)
    ensures var doc := ConfigDocument(c);
      EXPORT in doc && doc[EXPORT] == ExportTable(c.export_) && TableAt(doc, EXPORT_HEADERS) == MapTable(c.export_.headers)
  {
    hide ExportTable, ResourceTable, CollectionTable, MapTable;
    PathsDiffer();
    EmptyMapTable(c.export_.headers);
  }

  lemma OtherTablesAreThere(c: Config)
    ensures var doc := ConfigDocument(c);
      TableAt(doc, RESOURCE) == ResourceTable(c.resource)
      && TableAt(doc, RESOURCE_ATTRIBUTES) == MapTable(c.resource.attributes)
      && COLLECTION in doc && doc[COLLECTION] == CollectionTable(c.collection) && TableAt(doc, []) == map[]
  {
    hide ExportTable, ResourceTable, CollectionTable, MapTable;
    PathsDiffer();
    EmptyMapTable(c.resource.attributes);
  }

  lemma NoOtherTableIsThere(c: Config)
    ensures ConfigDocument(c).Keys <= {[], EXPORT, EXPORT_HEADERS, RESOURCE, RESOURCE_ATTRIBUTES, COLLECTION}
  {
    hide ExportTable, ResourceTable, CollectionTable, MapTable;
  }

  lemma ConfigDocumentIsDecoded(c: Config)
    ensures Decode(ConfigDocument(c)) == Some(c)
  {
    hide DecodeExport, DecodeResource, DecodeCollection, ExportTable, ResourceTable, CollectionTable, MapTable,
         ConfigDocument, TableAt;
    NoOtherTableIsThere(c);
    ExportTablesAreThere(c);
    OtherTablesAreThere(c);
    MapIsDecoded(c.export_.headers);
    MapIsDecoded(c.resource.attributes);
    ExportIsDecoded(c.export_, MapTable(c.export_.headers));
    ResourceIsDecoded(c.resource, MapTable(c.resource.attributes));
    CollectionIsDecoded(c.collection);
  }

  lemma EmptyMapTable(m: map<string, string>)
    ensures m == map[] ==> MapTable(m) == map[]
  {
  }

  // ----- the whole file

  lemma TopPathsAreBare()
    ensures AreBare(EXPORT) && AreBare(EXPORT_HEADERS) && AreBare(RESOURCE) && AreBare(RESOURCE_ATTRIBUTES)
    ensures AreBare(COLLECTION)
  {
    hide IsBare;
    LettersAreBare("export");
    LettersAreBare("headers");
    LettersAreBare("resource");
    LettersAreBare("attributes");
    LettersAreBare("collection");
  }

  lemma SettingsArePlain(settings: seq<Setting>, notes: Notes)
    requires AreComments(notes)
    requires forall s :: s in settings ==> s.notes == NotesOf(notes, s.key)
    ensures HaveNotes(settings)
  {
    hide AreComments, NotesOf, AreNotes;
    forall s | s in settings ensures AreNotes(s.notes) {
      NotesOfAreNotes(notes, s.key);
    }
  }

  lemma ExportIsPlain(e: ExportConfig, notes: Notes)
    requires AreComments(notes)
    ensures HaveNotes(ExportSettings(e, notes))
  {
    hide AreComments, NotesOf, WireName, ProtocolName, HaveNotes;
    SettingsArePlain(ExportSettings(e, notes), notes);
  }

  lemma ResourceIsPlain(r: ResourceConfig, notes: Notes)
    requires AreComments(notes)
    ensures HaveNotes(ResourceSettings(r, notes))
  {
    hide AreComments, NotesOf, HaveNotes;
    SettingsArePlain(ResourceSettings(r, notes), notes);
  }

  lemma CollectionIsPlain(c: CollectionConfig, notes: Notes)
    requires AreComments(notes)
    ensures HaveNotes(CollectionSettings(c, notes))
  {
    hide AreComments, NotesOf, HaveNotes;
    SettingsArePlain(CollectionSettings(c, notes), notes);
  }

  lemma MapBlockIsPlain(path: seq<string>, m: map<string, string>)
    requires AreBare(path)
    ensures ArePlain(MapBlock(path, m))
  {
    hide SortedSettings, AreBare;
    SortedSettingsAreATable(m);
  }

  lemma BlocksArePlain(c: Config, notes: Notes)
    requires AreComments(notes)
    ensures ArePlain(ConfigBlocks(c, notes))
  {
    hide AreComments, ExportSettings, ResourceSettings, CollectionSettings, AreBare, HaveNotes, MapBlock;
    TopPathsAreBare();
    ExportIsPlain(c.export_, notes);
    ResourceIsPlain(c.resource, notes);
    CollectionIsPlain(c.collection, notes);
    MapBlockIsPlain(EXPORT_HEADERS, c.export_.headers);
    MapBlockIsPlain(RESOURCE_ATTRIBUTES, c.resource.attributes);
  }

  /** What reading a written config file yields, for every config there is: the config itself, exactly
      when it is valid and its two integers fit TOML's; otherwise an error, and the validator's own when
      the integers fit. */
  lemma ConfigFileReadsBack(c: Config, notes: Notes)
    requires AreComments(notes)
    ensures FromToml(ConfigFile(c, notes)) ==
      if !FitsTomlIntegers(c) then Err(Malformed)
      else if Validate(c).Some? then Err(Validate(c).value)
      else Ok(c)
  {
    hide Validate, Decode, ReadDocument, DocumentText, FitAll, AddAll, ConfigBlocks, ConfigDocument, AreComments, ArePlain;
    var blocks := ConfigBlocks(c, notes);
    BlocksArePlain(c, notes);
    NotesOfAreNotes(notes, "");
    if FitsTomlIntegers(c) {
      ConfigBlocksFit(c, notes);
      DocumentIsReadBack(NotesOf(notes, ""), blocks);
      ConfigDocumentIsDecoded(c);
    } else {
      UnwritableSetting(c, notes);
    }
  }

  lemma UnwritableSetting(c: Config, notes: Notes)
    requires AreComments(notes) && !FitsTomlIntegers(c)
    ensures ReadDocument(ConfigFile(c, notes)) == None
  {
    hide ReadDocument, DocumentText, AreComments, ArePlain, NotesOf;
    BlocksArePlain(c, notes);
    NotesOfAreNotes(notes, "");
    var blocks := ConfigBlocks(c, notes);
    var b := blocks[0];
    var i := if c.export_.intervalSeconds > I64_MAX then 3 else 4;
    var s := b.settings[i];
    assert b in blocks && s in b.settings && !IsWritable(s.value);
    UnwritableIsRefused(NotesOf(notes, ""), blocks, b, s);
  }
}
