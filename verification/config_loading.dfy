/** When a configuration can be loaded, and what becomes of its sections. */
module ConfigLoading {
  import opened Outcomes
  import opened DictMerge
  import opened Config
  import opened ConfigLaws

  // ---------------------------------------------------------------- one file

  /** What YAML gives for a missing value, `false`, an empty text or list, zero, and an empty dictionary. */
  predicate Nothing(t: Tree) {
    t == Leaf(Null) || t == Leaf(Bool(false)) || t == Node(map[]) || (t.Leaf? && t.value.Atom? && t.value.empty)
  }

  lemma TruthyIs(t: Tree)
    ensures Truthy(t) <==> !Nothing(t)
  {
  }

  /** A section that can be used is a dictionary or nothing. */
  predicate Usable(section: Tree) {
    section.Node? || Nothing(section)
  }

  function Section(file: File, key: string): Tree
    requires file.data.Node?
  {
    Entry(file.data.entries, key)
  }

  /** Every server is a dictionary. */
  predicate ServersUsable(file: File)
    requires file.data.Node?
  {
    var servers := Section(file, "servers");
    Usable(servers) && (servers.Node? ==> forall name :: name in servers.entries ==> servers.entries[name].Node?)
  }

  /** A file in the current style that can be read: a dictionary whose defaults and servers sections can be used. */
  predicate Readable(file: File) {
    file.data.Node? && Usable(Section(file, "defaults")) && ServersUsable(file)
  }

  /** A file in the old style that can be read: it has `values`, and as soon as it has servers the globals of earlier
      files have `values`, too. */
  predicate OldReadable(file: File, globals: seq<Entries>)
    requires !CurrentStyle(file)
  {
    && Entry(DefaultsOf(file), "values").Node?
    && ServersUsable(file)
    && (!Nothing(Section(file, "servers")) ==> forall i :: 0 <= i < |globals| ==> Entry(globals[i], "values").Node?)
  }

  predicate FileReadable(file: File, globals: seq<Entries>) {
    if CurrentStyle(file) then Readable(file) else OldReadable(file, globals)
  }

  /** The defaults that a file leaves to later ones. */
  function Offered(file: File): Entries {
    if CurrentStyle(file) then DefaultsOf(file)
    else if Entry(DefaultsOf(file), "values").Node? then
      DefaultsOf(file)["values"].entries["__global__" := DefaultsOf(file)["global"]]
    else map[]
  }

  /** Enough of a file can be read to get to the check of its eBPF section. */
  predicate Completes(file: File, globals: seq<Entries>) {
    && file.data.Node?
    && var servers := Section(file, "servers");
       if CurrentStyle(file) then
         !Nothing(servers) ==>
           && servers.Node? && Usable(Section(file, "defaults"))
           && (globals != [] || DefaultsOf(file) != map[] ==> ServersUsable(file))
       else
         && Entry(DefaultsOf(file), "values").Node?
         && (!Nothing(servers) ==>
               && servers.Node? && (forall i :: 0 <= i < |globals| ==> Entry(globals[i], "values").Node?)
               && (globals != [] || Entry(DefaultsOf(file), "values") != Node(map[]) ==> ServersUsable(file)))
  }

  lemma {:induction false} ValuesIff(globals: seq<Entries>)
    ensures ValuesOf(globals).Ok? <==> forall i :: 0 <= i < |globals| ==> Entry(globals[i], "values").Node?
    ensures !ValuesOf(globals).Broken?
    ensures ValuesOf(globals).Ok? ==>
      |ValuesOf(globals).value| == |globals| &&
      forall i :: 0 <= i < |globals| ==>
        "values" in globals[i] && globals[i]["values"] == Node(ValuesOf(globals).value[i])
  {
    if globals != [] {
      ValuesIff(globals[1..]);
      assert forall i :: 0 < i < |globals| ==> globals[i] == globals[1..][i - 1];
    }
  }

  lemma CompleteAllIff(servers: Entries, layers: seq<Entries>)
    ensures CompleteAll(servers, layers).Ok? <==>
      layers == [] || forall name :: name in servers ==> servers[name].Node?
    ensures !CompleteAll(servers, layers).Broken?
    ensures CompleteAll(servers, layers).Ok? ==> CompleteAll(servers, layers).value.Keys == servers.Keys
    ensures CompleteAll(servers, layers).Ok? ==>
      forall name :: name in servers ==> (CompleteAll(servers, layers).value[name].Node? <==> servers[name].Node?)
  {
    hide ApplyAll;
  }

  /** The configuration that is made of a file has the same sections, and in `servers` the same names. */
  predicate Keeps(config: Entries, file: File)
    requires file.data.Node?
  {
    && config.Keys == file.data.entries.Keys - {"defaults"}
    && (forall key :: key in config && key != "servers" ==> config[key] == file.data.entries[key])
    && var servers := Section(file, "servers");
       if servers.Node? then
         && Entry(config, "servers").Node? && Entry(config, "servers").entries.Keys == servers.entries.Keys
         && forall name :: name in servers.entries ==>
              (Entry(config, "servers").entries[name].Node? <==> servers.entries[name].Node?)
       else Entry(config, "servers") == servers
  }

  lemma KeepsAll(file: File)
    requires file.data.Node?
    ensures Keeps(file.data.entries - {"defaults"}, file)
  {
  }

  lemma KeepsCompleted(file: File, done: Entries)
    requires file.data.Node? && Section(file, "servers").Node? && Section(file, "servers").entries != map[]
    requires done.Keys == Section(file, "servers").entries.Keys
    requires forall name :: name in done ==> (done[name].Node? <==> Section(file, "servers").entries[name].Node?)
    ensures Keeps((file.data.entries - {"defaults"})["servers" := Node(done)], file)
  {
  }

  /** What _get_config makes of a file. */
  predicate Gets(r: Outcome<(Entries, Tree)>, file: File, globals: seq<Entries>) {
    && (r.Ok? <==> Completes(file, globals)) && !r.Broken?
    && (r.Ok? ==>
          && Keeps(r.value.0, file)
          && (r.value.1.Node? <==> !CurrentStyle(file) || Usable(Section(file, "defaults")))
          && (r.value.1.Node? ==> r.value.1.entries == Offered(file)))
  }

  lemma CurrentGets(file: File, globals: seq<Entries>)
    requires file.data.Node? && CurrentStyle(file)
    ensures Gets(GetConfig(file.data, globals), file, globals)
  {
    var servers, defaults := Section(file, "servers"), Section(file, "defaults");
    var config := file.data.entries - {"defaults"};
    assert Entry(config, "servers") == servers;
    TruthyIs(servers);
    TruthyIs(defaults);
    KeepsAll(file);
    if servers.Node? && servers.entries != map[] {
      var layers := if Truthy(defaults) && defaults.Node? then globals + [defaults.entries] else globals;
      CompleteAllIff(servers.entries, layers);
      if CompleteAll(servers.entries, layers).Ok? {
        KeepsCompleted(file, CompleteAll(servers.entries, layers).value);
      }
    }
    hide CompleteAll, Keeps, Truthy;
  }

  lemma OldGets(file: File, globals: seq<Entries>)
    requires file.data.Node? && !CurrentStyle(file)
    ensures Gets(GetConfig(file.data, globals), file, globals)
  {
    var servers, values := Section(file, "servers"), Entry(DefaultsOf(file), "values");
    var config := file.data.entries - {"defaults"};
    assert Entry(config, "servers") == servers;
    TruthyIs(servers);
    TruthyIs(values);
    KeepsAll(file);
    ValuesIff(globals);
    if servers.Node? && servers.entries != map[] && ValuesOf(globals).Ok? {
      var before := ValuesOf(globals).value;
      var layers := if Truthy(values) && values.Node? then before + [values.entries] else before;
      CompleteAllIff(servers.entries, layers);
      if CompleteAll(servers.entries, layers).Ok? {
        KeepsCompleted(file, CompleteAll(servers.entries, layers).value);
      }
    }
    hide CompleteAll, Keeps, Truthy, ValuesOf;
  }

  lemma GetIff(file: File, globals: seq<Entries>)
    ensures file.data.Node? ==> Gets(GetConfig(file.data, globals), file, globals)
    ensures file.data.Leaf? ==> GetConfig(file.data, globals).Crash? && !Completes(file, globals)
  {
    if file.data.Node? {
      if CurrentStyle(file) {
        CurrentGets(file, globals);
      } else {
        OldGets(file, globals);
      }
    }
    hide Gets;
  }

  lemma MetaIff(config: Entries, file: File)
    requires file.data.Node? && Keeps(config, file)
    ensures WithMeta(config, file).Ok? <==> ServersUsable(file)
    ensures !WithMeta(config, file).Broken?
    ensures WithMeta(config, file).Ok? ==>
      var marked := WithMeta(config, file).value;
      marked.Keys == config.Keys && forall key :: key in config && key != "servers" ==> marked[key] == config[key]
  {
    TruthyIs(Entry(config, "servers"));
    hide Meta;
  }

  lemma ReadableIff(file: File, globals: seq<Entries>)
    ensures FileReadable(file, globals) <==>
      Completes(file, globals) && ServersUsable(file) && (CurrentStyle(file) ==> Usable(Section(file, "defaults")))
  {
  }

  /** The globals that a file adds. */
  function Adds(file: File): seq<Entries> {
    var offered := Offered(file);
    if Nothing(Entry(offered, "__global__")) then [] else [offered - {"__global__"}]
  }

  /** The configuration of a file that has anything but defaults. */
  predicate Added(configs: seq<Entries>, configs': seq<Entries>, file: File)
    requires file.data.Node?
  {
    if file.data.entries.Keys <= {"defaults"} then configs' == configs
    else
      && |configs'| == |configs| + 1 && configs'[..|configs|] == configs
      && var config := configs'[|configs|];
         && config.Keys == file.data.entries.Keys - {"defaults"}
         && forall key :: key in config && key != "servers" ==> config[key] == file.data.entries[key]
  }

  lemma OnlyDefaults(config: Entries, file: File)
    requires file.data.Node? && Keeps(config, file)
    ensures config == map[] <==> file.data.entries.Keys <= {"defaults"}
    ensures config == map[] ==> ServersUsable(file)
  {
    if config == map[] {
      forall key | key in file.data.entries ensures key == "defaults" {
        assert key != "defaults" ==> key in config;
      }
    }
  }

  /** One round of load_configs. */
  lemma FileStep(s: Loading, file: File)
    ensures LoadFile(s, file).Ok? <==> FileReadable(file, s.globals) && !(HasEbpf(file) && s.ebpfConfigured)
    ensures LoadFile(s, file).Broken? <==> Completes(file, s.globals) && HasEbpf(file) && s.ebpfConfigured
    ensures LoadFile(s, file).Ok? ==>
      var s' := LoadFile(s, file).value;
      && s'.globals == s.globals + Adds(file) && (s'.ebpfConfigured <==> s.ebpfConfigured || HasEbpf(file))
      && Added(s.configs, s'.configs, file)
  {
    GetIff(file, s.globals);
    ReadableIff(file, s.globals);
    if GetConfig(file.data, s.globals).Ok? {
      var (config, defaults) := GetConfig(file.data, s.globals).value;
      MetaIff(config, file);
      TruthyIs(Entry(Offered(file), "__global__"));
      assert "ebpf" in config <==> HasEbpf(file);
      OnlyDefaults(config, file);
    }
    hide GetConfig, WithMeta, Completes, FileReadable, Offered, ServersUsable, Nothing, Truthy;
  }

  // ---------------------------------------------------------------- all files

  /** The globals that files leave to later ones, oldest first. */
  function AllGlobals(files: seq<File>): seq<Entries> {
    if files == [] then [] else AllGlobals(files[..|files| - 1]) + Adds(files[|files| - 1])
  }

  predicate AllReadable(files: seq<File>) {
    files != [] ==>
      AllReadable(files[..|files| - 1]) && FileReadable(files[|files| - 1], AllGlobals(files[..|files| - 1]))
  }

  /** The last file is the second with an eBPF section, and so much of it and all files before can be read. */
  predicate SecondEbpf(files: seq<File>) {
    files != [] &&
    var before, file := files[..|files| - 1], files[|files| - 1];
    AllReadable(before) && EbpfCount(before) == 1 && HasEbpf(file) && Completes(file, AllGlobals(before))
  }

  /** Files can be loaded exactly when every one of them can be read, with the globals of the files before it, and at
      most one has an eBPF section; ConfigurationError comes exactly from a second one. */
  lemma {:induction false} LoadsIff(files: seq<File>)
    ensures Load(files).Ok? <==> AllReadable(files) && EbpfCount(files) <= 1
    ensures Load(files).Broken? <==> exists i :: 0 < i <= |files| && SecondEbpf(files[..i])
    ensures LoadFiles(files).Ok? <==> Load(files).Ok?
    ensures LoadFiles(files).Broken? <==> Load(files).Broken?
    ensures LoadFiles(files).Ok? ==> LoadFiles(files).value.globals == AllGlobals(files)
    ensures LoadFiles(files).Ok? ==> (LoadFiles(files).value.ebpfConfigured <==> EbpfCount(files) == 1)
  {
    if files != [] {
      var n := |files| - 1;
      var before, file := files[..n], files[n];
      LoadsIff(before);
      hide LoadFile, Whole, FileReadable, Completes, HasEbpf, Adds, SecondEbpf;
      forall i | 0 < i <= n ensures files[..i] == before[..i] {
      }
      assert files[..n + 1] == files;
      if LoadFiles(before).Ok? {
        FileStep(LoadFiles(before).value, file);
      }
    }
  }

  lemma {:induction false} AllReadableIff(files: seq<File>)
    requires forall file :: file in files ==> CurrentStyle(file)
    ensures AllReadable(files) <==> forall file :: file in files ==> Readable(file)
    decreases |files|
  {
    if files != [] {
      var before, file := files[..|files| - 1], files[|files| - 1];
      assert files == before + [file];
      hide CurrentStyle, Readable, OldReadable;
      AllReadableIff(before);
    }
  }

  /** For files in the current style: they can be loaded exactly when every file is a dictionary whose defaults are a
      dictionary or nothing and whose servers are dictionaries, and at most one has an eBPF section. */
  lemma CurrentLoadsIff(files: seq<File>)
    requires forall file :: file in files ==> CurrentStyle(file)
    ensures Load(files).Ok? <==> (forall file :: file in files ==> Readable(file)) && EbpfCount(files) <= 1
  {
    hide *;
    LoadsIff(files);
    AllReadableIff(files);
  }

  /** A file that says `__global__: true` makes its defaults global, without that entry; one that says `false`, or
      nothing, does not. */
  lemma GlobalIfTrue(file: File)
    requires CurrentStyle(file)
    ensures Entry(DefaultsOf(file), "__global__") == Leaf(Bool(true)) ==>
      Adds(file) == [DefaultsOf(file) - {"__global__"}]
    ensures Entry(DefaultsOf(file), "__global__") == Leaf(Bool(false)) || "__global__" !in DefaultsOf(file) ==>
      Adds(file) == []
  {
  }

  // ---------------------------------------------------------------- files in the old style

  /** Servers of a file in the old style are given the `values` of the globals, oldest first, and then its own. */
  lemma OldFileConfig(file: File, globals: seq<Entries>, name: string) returns (layers: seq<Entries>)
    requires !CurrentStyle(file) && GetConfig(file.data, globals).Ok?
    ensures !Nothing(Section(file, "servers")) ==>
      && |layers| == |globals| + 1
      && (forall i :: 0 <= i < |globals| ==> "values" in globals[i] && globals[i]["values"] == Node(layers[i]))
      && Entry(DefaultsOf(file), "values") == Node(layers[|globals|])
    ensures ServerIn(GetConfig(file.data, globals).value.0, name) ==
      match ServerOf(file, name) case None => None case Some(server) => Some(ApplyAll(server, layers))
  {
    var servers, values := Section(file, "servers"), Entry(DefaultsOf(file), "values");
    assert Entry(file.data.entries - {"defaults"}, "servers") == servers;
    TruthyIs(servers);
    TruthyIs(values);
    ValuesIff(globals);
    layers := [];
    if servers.Node? && servers.entries != map[] {
      layers := ValuesOf(globals).value + [values.entries];
      CompletedServer(servers.entries, ValuesOf(globals).value, values.entries, name);
    }
    hide CompleteAll, Truthy, ValuesOf, ApplyAll;
  }

  // ---------------------------------------------------------------- other sections

  /** The section of that name: of all files that have it, merged, the later over the earlier. */
  function Sections(files: seq<File>, key: string): Option<Tree> {
    if files == [] then None else
    var earlier, data := Sections(files[..|files| - 1], key), files[|files| - 1].data;
    if data.Node? && key in data.entries then
      Some(if earlier.Some? then Merge(earlier.value, data.entries[key]) else data.entries[key])
    else earlier
  }

  function At(whole: Entries, key: string): Option<Tree> {
    if key in whole then Some(whole[key]) else None
  }

  lemma WholeStep(configs: seq<Entries>, config: Entries, key: string)
    ensures At(Whole(configs + [config]), key) ==
      match At(Whole(configs), key)
      case Some(earlier) => Some(if key in config then Merge(earlier, config[key]) else earlier)
      case None => At(config, key)
  {
    assert (configs + [config])[..|configs|] == configs;
    MergeIsNode(Whole(configs), config);
    MergeAt(Node(Whole(configs)), Node(config), key);
    hide Merge, Whole;
  }

  lemma SectionStep(configs: seq<Entries>, configs': seq<Entries>, file: File, key: string)
    requires file.data.Node? && Added(configs, configs', file) && key != "servers" && key != "defaults"
    ensures At(Whole(configs'), key) ==
      match At(Whole(configs), key)
      case Some(earlier) =>
        Some(if key in file.data.entries then Merge(earlier, file.data.entries[key]) else earlier)
      case None => At(file.data.entries, key)
  {
    hide Whole, Merge;
    if |configs'| > |configs| {
      assert configs' == configs + [configs'[|configs|]];
      WholeStep(configs, configs'[|configs|], key);
    }
  }

  lemma NoDefaultsStep(configs: seq<Entries>, configs': seq<Entries>, file: File)
    requires file.data.Node? && Added(configs, configs', file) && At(Whole(configs), "defaults") == None
    ensures At(Whole(configs'), "defaults") == None
  {
    hide Whole, Merge;
    if |configs'| > |configs| {
      assert configs' == configs + [configs'[|configs|]];
      WholeStep(configs, configs'[|configs|], "defaults");
    }
  }

  /** Every section but `servers`, such as `ebpf`, is in the loaded configuration what the files say; `defaults` is not
      in it. */
  lemma {:induction false} SectionKept(files: seq<File>, key: string)
    requires LoadFiles(files).Ok? && key != "servers"
    ensures Load(files).Ok?
    ensures At(Load(files).value, key) == if key == "defaults" then None else Sections(files, key)
  {
    if files == [] {
      assert Whole([]) == map[];
    } else {
      var before, file := files[..|files| - 1], files[|files| - 1];
      var s, s' := LoadFiles(before).value, LoadFiles(files).value;
      FileStep(s, file);
      ReadableIff(file, s.globals);
      hide LoadFile, Merge, FileReadable, HasEbpf, Adds, Whole, ServersUsable, Added;
      SectionKept(before, key);
      if key == "defaults" {
        NoDefaultsStep(s.configs, s'.configs, file);
      } else {
        SectionStep(s.configs, s'.configs, file, key);
      }
    }
  }
}
