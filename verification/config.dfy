/** Layered configuration: default settings, global and local, and the fold over all files. */
module Config {
  import opened Outcomes
  import opened DictMerge

  type Entries = map<string, Tree>

  /** A dictionary that is updated in place. */
  class Dict {
    var entries: Entries

    constructor (entries: Entries)
      ensures this.entries == entries
    {
      this.entries := entries;
    }
  }

  function Apply(defaults: Entries, target: Entries): Entries {
    MergeIsNode(defaults, target);
    Merge(Node(defaults), Node(target)).entries
  }

  lemma MergeIsNode(defaults: Entries, target: Entries)
    ensures Merge(Node(defaults), Node(target)).Node?
    ensures Merge(Node(defaults), Node(target)).entries.Keys == defaults.Keys + target.Keys
  {
  }

  /** Defaults that are applied one after another: what is there already always wins. */
  function ApplyAll(target: Entries, layers: seq<Entries>): Entries {
    if layers == [] then target else Apply(layers[|layers| - 1], ApplyAll(target, layers[..|layers| - 1]))
  }

  /** `_apply_defaults` */
  method ApplyDefaults(target: Dict, defaults: Entries)
    modifies target
    ensures target.entries == Apply(defaults, old(target.entries))
  {
    var merged := Apply(defaults, target.entries);
    MergeIsNode(defaults, target.entries);
    hide Merge;
    assert target.entries + merged == merged;
    target.entries := target.entries + merged;
  }

  // ---------------------------------------------------------------- applying the layers again

  lemma {:induction false} LayersCovered(target: Entries, layers: seq<Entries>, i: nat)
    requires i < |layers|
    ensures Covers(Node(ApplyAll(target, layers)), Node(layers[i]))
  {
    var n := |layers| - 1;
    var before := ApplyAll(target, layers[..n]);
    hide Merge, Covers;
    MergeIsNode(layers[n], before);
    if i == n {
      MergeCovers(Node(layers[n]), Node(before));
    } else {
      LayersCovered(target, layers[..n], i);
      StaysCovered(Node(layers[n]), Node(before), Node(layers[i]));
    }
  }

  lemma {:induction false} CoveredStays(target: Entries, layers: seq<Entries>)
    requires forall i :: 0 <= i < |layers| ==> Covers(Node(target), Node(layers[i]))
    ensures ApplyAll(target, layers) == target
  {
    hide Merge, Covers;
    if layers != [] {
      CoveredStays(target, layers[..|layers| - 1]);
      NothingToAdd(Node(layers[|layers| - 1]), Node(target));
    }
  }

  /** A server that has been given the layers is not changed by giving them again. */
  lemma TwiceIsOnce(target: Entries, layers: seq<Entries>)
    ensures ApplyAll(ApplyAll(target, layers), layers) == ApplyAll(target, layers)
  {
    forall i | 0 <= i < |layers| ensures Covers(Node(ApplyAll(target, layers)), Node(layers[i])) {
      LayersCovered(target, layers, i);
    }
    CoveredStays(ApplyAll(target, layers), layers);
  }

  /** The loop over the servers of `_get_config`: every server is given the globals, oldest first, and then the
      defaults of its own file; this also holds when a YAML alias makes two servers the same object. */
  method CompleteServers(servers: map<string, Dict>, globals: seq<Entries>, local: Entries)
    modifies servers.Values
    ensures forall name :: name in servers ==>
      servers[name].entries == ApplyAll(old(servers[name].entries), globals + [local])
  {
    hide *;
    var layers := globals + [local];
    var rest := servers.Keys;
    while rest != {}
      invariant rest <= servers.Keys
      invariant forall name :: name in servers.Keys - rest ==>
        servers[name].entries == ApplyAll(old(servers[name].entries), layers)
      invariant forall name :: name in servers ==>
        servers[name].entries == old(servers[name].entries)
        || servers[name].entries == ApplyAll(old(servers[name].entries), layers)
    {
      var name :| name in rest;
      Complete(servers[name], globals, local);
      TwiceIsOnce(old(servers[name].entries), layers);
      rest := rest - {name};
    }
  }

  /** One round of that loop. */
  method Complete(server: Dict, globals: seq<Entries>, local: Entries)
    modifies server
    ensures server.entries == ApplyAll(old(server.entries), globals + [local])
  {
    hide Apply;
    for i := 0 to |globals|
      invariant server.entries == ApplyAll(old(server.entries), globals[..i])
    {
      assert globals[..i + 1][..i] == globals[..i];
      ApplyDefaults(server, globals[i]);
    }
    assert globals[..|globals|] == globals && (globals + [local])[..|globals|] == globals;
    if local != map[] {
      ApplyDefaults(server, local);
    } else {
      NoDefaults(server.entries);
    }
  }

  lemma NoDefaults(target: Entries)
    ensures Apply(map[], target) == target
  {
    NothingToAdd(Node(map[]), Node(target));
  }

  // ---------------------------------------------------------------- one file

  function Truthy(t: Tree): bool {
    match t
    case Leaf(Null) => false
    case Leaf(Bool(value)) => value
    case Leaf(Atom(_, empty)) => !empty
    case Node(entries) => entries != map[]
  }

  /** `d.get(key)` */
  function Entry(d: Entries, key: string): Tree {
    if key in d then d[key] else Leaf(Null)
  }

  /** Every server must be a dictionary as soon as there is something to apply. */
  function CompleteAll(servers: Entries, layers: seq<Entries>): Outcome<Entries> {
    if layers == [] then Ok(servers)
    else if name :| name in servers && servers[name].Leaf? then Crash
    else Ok(map name | name in servers :: Node(ApplyAll(servers[name].entries, layers)))
  }

  /** The `values` of every layer of an old-style configuration. */
  function ValuesOf(layers: seq<Entries>): Outcome<seq<Entries>> {
    if layers == [] then Ok([])
    else if !Entry(layers[0], "values").Node? then Crash
    else match ValuesOf(layers[1..]) case Ok(more) => Ok([layers[0]["values"].entries] + more) case _ => Crash
  }

  /** `_get_old_config` and what `_get_config` makes of its result: the globals are looked up under `values`. */
  function GetOldConfig(config: Entries, defaults: Entries, globals: seq<Entries>): Outcome<(Entries, Tree)>
    requires "global" in defaults
  {
    var servers := Entry(config, "servers");
    var values := Entry(defaults, "values");
    var completed: Outcome<Entries> :=
      if !Truthy(servers) then Ok(config)
      else if servers.Leaf? || (Truthy(values) && values.Leaf?) then Crash
      else
        match ValuesOf(globals)
        case Ok(layers) =>
          (match CompleteAll(servers.entries, if Truthy(values) then layers + [values.entries] else layers)
           case Ok(done) => Ok(config["servers" := Node(done)])
           case _ => Crash)
        case _ => Crash;
    if !completed.Ok? || values.Leaf? then Crash
    else Ok((completed.value, Node(values.entries["__global__" := defaults["global"]])))
  }

  /** `_get_config`: the configuration without its defaults, and the defaults. */
  function GetConfig(data: Tree, globals: seq<Entries>): Outcome<(Entries, Tree)> {
    if data.Leaf? then Crash else
    var defaults := Entry(data.entries, "defaults");
    var config := data.entries - {"defaults"};
    if defaults.Node? && "global" in defaults.entries then GetOldConfig(config, defaults.entries, globals) else
    var local := if Truthy(defaults) then defaults else Node(map[]);
    var servers := Entry(config, "servers");
    if !Truthy(servers) then Ok((config, local))
    else if servers.Leaf? || local.Leaf? then Crash
    else
      match CompleteAll(servers.entries, if Truthy(local) then globals + [local.entries] else globals)
      case Ok(done) => Ok((config["servers" := Node(done)], local))
      case _ => Crash
  }

  // ---------------------------------------------------------------- all files

  datatype File = File(path: Scalar, directory: Scalar, data: Tree)

  /** The accumulators of load_configs. */
  datatype Loading = Loading(configs: seq<Entries>, globals: seq<Entries>, ebpfConfigured: bool)

  function Meta(file: File): Tree {
    Node(map["CONFPATH" := Leaf(file.path), "CONFDIR" := Leaf(file.directory)])
  }

  /** `server['meta'] = meta` for every server. */
  function WithMeta(config: Entries, file: File): Outcome<Entries> {
    var servers := Entry(config, "servers");
    if !Truthy(servers) then Ok(config)
    else if servers.Leaf? then Crash
    else if name :| name in servers.entries && servers.entries[name].Leaf? then Crash
    else
      var marked := map name | name in servers.entries :: Node(servers.entries[name].entries["meta" := Meta(file)]);
      Ok(config["servers" := Node(marked)])
  }

  /** One round of load_configs; `Broken` is its ConfigurationError. */
  function LoadFile(s: Loading, file: File): Outcome<Loading> {
    match GetConfig(file.data, s.globals)
    case Ok((config, defaults)) =>
      if "ebpf" in config && s.ebpfConfigured then Broken
      else if defaults.Leaf? then Crash
      else
        var isGlobal := Truthy(Entry(defaults.entries, "__global__"));
        var s' := Loading(
          s.configs,
          if isGlobal then s.globals + [defaults.entries - {"__global__"}] else s.globals,
          s.ebpfConfigured || "ebpf" in config);
        if config == map[] then Ok(s')
        else (match WithMeta(config, file) case Ok(config') => Ok(s'.(configs := s.configs + [config']))
          case _ => Crash)
    case _ => Crash
  }

  function LoadFiles(files: seq<File>): Outcome<Loading> {
    if files == [] then Ok(Loading([], [], false)) else
    match LoadFiles(files[..|files| - 1])
    case Ok(s) => LoadFile(s, files[|files| - 1])
    case e => e
  }

  /** The configurations merged into one, the later over the earlier. */
  function Whole(configs: seq<Entries>): Entries {
    if configs == [] then map[] else Apply(Whole(configs[..|configs| - 1]), configs[|configs| - 1])
  }

  function Load(files: seq<File>): Outcome<Entries> {
    match LoadFiles(files) case Ok(s) => Ok(Whole(s.configs)) case Broken => Broken case Crash => Crash
  }

  lemma {:induction false} FailureStays(files: seq<File>, i: nat)
    requires i <= |files| && !LoadFiles(files[..i]).Ok?
    ensures LoadFiles(files) == LoadFiles(files[..i])
  {
    if i < |files| {
      assert files[..|files| - 1][..i] == files[..i];
      FailureStays(files[..|files| - 1], i);
    } else {
      assert files[..i] == files;
    }
  }

  /** load_configs */
  method LoadConfigs(files: seq<File>) returns (r: Outcome<Entries>)
    ensures r == Load(files)
  {
    hide LoadFile, Apply;
    var s := Loading([], [], false);
    for i := 0 to |files|
      invariant LoadFiles(files[..i]) == Ok(s)
    {
      assert files[..i + 1][..i] == files[..i];
      var next := LoadFile(s, files[i]);
      if !next.Ok? {
        FailureStays(files, i + 1);
        return if next.Broken? then Broken else Crash;
      }
      s := next.value;
    }
    assert files[..|files|] == files;
    var whole: Entries := map[];
    for i := 0 to |s.configs|
      invariant whole == Whole(s.configs[..i])
    {
      assert s.configs[..i + 1][..i] == s.configs[..i];
      whole := Apply(whole, s.configs[i]);
    }
    assert s.configs[..|s.configs|] == s.configs;
    return Ok(whole);
  }
}
