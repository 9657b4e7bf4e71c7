/** Where every setting of a server comes from. */
module ConfigLaws {
  import opened Outcomes
  import opened DictMerge
  import opened Config

  // ---------------------------------------------------------------- one server

  predicate CompatibleEntries(a: Entries, b: Entries) {
    Compatible(Node(a), Node(b))
  }

  /** The first of the dictionaries that has a leaf at the path. */
  function FirstLeaf(sources: seq<Entries>, path: seq<string>): Option<Scalar> {
    if sources == [] then None else
    var before := FirstLeaf(sources[..|sources| - 1], path);
    if before.Some? then before else LeafAt(Node(sources[|sources| - 1]), path)
  }

  /** The first dictionary with a leaf decides, whatever the later ones say: a global over the defaults of the
      file. */
  lemma {:induction false} FirstLeafIs(sources: seq<Entries>, path: seq<string>, i: nat)
    requires i < |sources| && LeafAt(Node(sources[i]), path).Some?
    requires forall j :: 0 <= j < i ==> LeafAt(Node(sources[j]), path) == None
    ensures FirstLeaf(sources, path) == LeafAt(Node(sources[i]), path)
  {
    var n := |sources| - 1;
    if i < n {
      FirstLeafIs(sources[..n], path, i);
    } else {
      NoLeaf(sources[..n], path);
    }
  }

  lemma {:induction false} NoLeaf(sources: seq<Entries>, path: seq<string>)
    requires forall j :: 0 <= j < |sources| ==> LeafAt(Node(sources[j]), path) == None
    ensures FirstLeaf(sources, path) == None
  {
    if sources != [] {
      NoLeaf(sources[..|sources| - 1], path);
    }
  }

  predicate PairwiseCompatible(sources: seq<Entries>) {
    forall i, j :: 0 <= i < |sources| && 0 <= j < |sources| ==> CompatibleEntries(sources[i], sources[j])
  }

  predicate CompatibleWithEach(x: Entries, sources: seq<Entries>) {
    forall i :: 0 <= i < |sources| ==> CompatibleEntries(x, sources[i])
  }

  lemma {:induction false} CompatibleWithAll(x: Entries, target: Entries, layers: seq<Entries>)
    requires CompatibleEntries(x, target) && CompatibleWithEach(x, layers)
    ensures CompatibleEntries(x, ApplyAll(target, layers))
  {
    if layers != [] {
      var n := |layers| - 1;
      CompatibleWithAll(x, target, layers[..n]);
      MergeIsNode(layers[n], ApplyAll(target, layers[..n]));
      hide Merge, Compatible;
      CompatibleWithMerge(Node(x), Node(layers[n]), Node(ApplyAll(target, layers[..n])));
    }
  }

  /** For compatible trees every leaf of a completed server comes from the first that defines it: the server
      itself, the earliest global, the later globals, and last the defaults of its own file. */
  lemma {:induction false} FirstDefinitionWins(target: Entries, layers: seq<Entries>, path: seq<string>)
    requires PairwiseCompatible([target] + layers)
    ensures LeafAt(Node(ApplyAll(target, layers)), path) == FirstLeaf([target] + layers, path)
  {
    var all := [target] + layers;
    if layers == [] {
      assert all[..0] == [];
    } else {
      var n := |layers| - 1;
      assert all[..n + 1] == [target] + layers[..n];
      assert forall i :: 0 <= i < n ==> layers[i] == all[i + 1];
      assert all[0] == target && all[n + 1] == layers[n];
      hide Merge, Compatible, LeafAt;
      FirstDefinitionWins(target, layers[..n], path);
      CompatibleWithAll(layers[n], target, layers[..n]);
      MergeIsNode(layers[n], ApplyAll(target, layers[..n]));
      LeafOfCompatible(Node(layers[n]), Node(ApplyAll(target, layers[..n])), path);
    }
  }

  // ---------------------------------------------------------------- what the files say

  predicate CurrentStyle(file: File) {
    file.data.Node? && Entry(file.data.entries, "defaults").Node? ==>
      "global" !in Entry(file.data.entries, "defaults").entries
  }

  /** The defaults section of a file. */
  function DefaultsOf(file: File): Entries {
    if file.data.Node? && Entry(file.data.entries, "defaults").Node? then Entry(file.data.entries, "defaults").entries
      else map[]
  }

  /** The defaults that files declare global, oldest first. */
  function GlobalsOf(files: seq<File>): seq<Entries> {
    if files == [] then [] else
    var own := DefaultsOf(files[|files| - 1]);
    GlobalsOf(files[..|files| - 1]) + if Truthy(Entry(own, "__global__")) then [own - {"__global__"}] else []
  }

  /** The server of that name in a configuration. */
  function ServerIn(config: Entries, name: string): Option<Entries> {
    var servers := Entry(config, "servers");
    if servers.Node? && name in servers.entries && servers.entries[name].Node? then
      Some(servers.entries[name].entries) else None
  }

  function ServerOf(file: File, name: string): Option<Entries> {
    if file.data.Node? then ServerIn(file.data.entries, name) else None
  }

  /** A `servers` section without a value takes the place of everything before it. */
  predicate Erases(config: Entries) {
    "servers" in config && config["servers"].Leaf?
  }

  /** The server of a file, and what is applied to it. */
  function Layered(before: seq<File>, file: File, server: Entries): seq<Entries> {
    [server] + (GlobalsOf(before) + [DefaultsOf(file)])
  }

  predicate ErasesServers(file: File) {
    file.data.Node? && Erases(file.data.entries)
  }

  /** The setting of a server at a path: the latest file that has one for it after the last file with an empty
      `servers` section, and in that file the server itself, the globals of strictly earlier files, and the
      defaults of the file. */
  function Setting(files: seq<File>, name: string, path: seq<string>): Option<Scalar> {
    if files == [] then None else
    var before, file := files[..|files| - 1], files[|files| - 1];
    if ErasesServers(file) then None else
    var own := match ServerOf(file, name)
      case Some(server) => FirstLeaf(Layered(before, file, server), path)
      case None => None;
    if own.Some? then own else Setting(before, name, path)
  }

  /** Everything that settings of the server can come from: nothing of files that do not have it, or that come
      before an empty section, except globals that are applied to it. */
  function Sources(files: seq<File>, name: string): seq<Entries> {
    if files == [] || ErasesServers(files[|files| - 1]) then [] else
    var before, file := files[..|files| - 1], files[|files| - 1];
    Sources(before, name) + match ServerOf(file, name) case Some(server) => Layered(before, file, server)
      case None => []
  }

  // ---------------------------------------------------------------- one file

  lemma NoLocal(target: Entries, globals: seq<Entries>)
    ensures ApplyAll(target, globals + [map[]]) == ApplyAll(target, globals)
  {
    assert (globals + [map[]])[..|globals|] == globals;
    NoDefaults(ApplyAll(target, globals));
  }

  lemma CompletedServer(servers: Entries, globals: seq<Entries>, local: Entries, name: string)
    ensures
      var r := CompleteAll(servers, if local != map[] then globals + [local] else globals);
      r.Ok? && name in servers && servers[name].Node? ==>
        name in r.value && r.value[name] == Node(ApplyAll(servers[name].entries, globals + [local]))
    ensures
      var r := CompleteAll(servers, if local != map[] then globals + [local] else globals);
      r.Ok? ==> r.value.Keys == servers.Keys
    ensures
      var r := CompleteAll(servers, if local != map[] then globals + [local] else globals);
      r.Ok? && name in servers && servers[name].Leaf? ==> r.value[name].Leaf?
  {
    hide Apply;
    if name in servers && servers[name].Node? {
      NoLocal(servers[name].entries, globals);
    }
  }

  /** The configuration of one file and its defaults. */
  lemma FileConfig(file: File, globals: seq<Entries>, name: string)
    requires CurrentStyle(file) && GetConfig(file.data, globals).Ok? && GetConfig(file.data, globals).value.1.Node?
    ensures
      var (config, defaults) := GetConfig(file.data, globals).value;
      && file.data.Node? && defaults.entries == DefaultsOf(file)
      && ("servers" in config <==> "servers" in file.data.entries)
      && (Erases(config) <==> Erases(file.data.entries))
      && ServerIn(config, name) ==
           match ServerOf(file, name)
           case None => None
           case Some(server) => Some(ApplyAll(server, globals + [DefaultsOf(file)]))
  {
    hide ApplyAll, CompleteAll;
    var servers := Entry(file.data.entries - {"defaults"}, "servers");
    if servers.Node? {
      CompletedServer(servers.entries, globals, DefaultsOf(file), name);
    }
  }

  lemma MetaAdded(config: Entries, file: File, name: string)
    requires WithMeta(config, file).Ok?
    ensures
      var c := WithMeta(config, file).value;
      && ("servers" in c <==> "servers" in config)
      && (Erases(c) <==> Erases(config))
      && (Entry(c, "servers").Node? && name in Entry(c, "servers").entries ==> ServerIn(c, name).Some?)
      && ServerIn(c, name) ==
           match ServerIn(config, name) case None => None case Some(server) => Some(server["meta" := Meta(file)])
  {
  }

  /** What loading a file adds: its servers, completed, and perhaps a global. */
  lemma FileAdds(s: Loading, file: File, name: string)
    requires CurrentStyle(file) && LoadFile(s, file).Ok?
    ensures
      var s' := LoadFile(s, file).value;
      var own := DefaultsOf(file);
      && file.data.Node?
      && s'.globals == s.globals + (if Truthy(Entry(own, "__global__")) then [own - {"__global__"}] else [])
      && if |s'.configs| == |s.configs| then s'.configs == s.configs && "servers" !in file.data.entries
         else
           && |s'.configs| == |s.configs| + 1 && s'.configs[..|s.configs|] == s.configs
           && var c := s'.configs[|s.configs|];
              && ("servers" in c <==> "servers" in file.data.entries)
              && (Erases(c) <==> Erases(file.data.entries))
              && (Entry(c, "servers").Node? && name in Entry(c, "servers").entries ==> ServerIn(c, name).Some?)
              && ServerIn(c, name) ==
                   match ServerOf(file, name)
                   case None => None
                   case Some(server) => Some(ApplyAll(server, s.globals + [own])["meta" := Meta(file)])
  {
    var (config, defaults) := GetConfig(file.data, s.globals).value;
    FileConfig(file, s.globals, name);
    if config != map[] {
      MetaAdded(config, file, name);
    }
    hide ApplyAll, GetConfig, WithMeta, ServerIn, ServerOf, DefaultsOf, Erases, Meta, CurrentStyle, Entry;
    hide Truthy;
  }

  // ---------------------------------------------------------------- all files

  /** Merging one more configuration. */
  lemma MergedServer(whole: Entries, c: Entries, name: string)
    requires Entry(c, "servers").Node? && name in Entry(c, "servers").entries ==> ServerIn(c, name).Some?
    ensures ServerIn(Apply(whole, c), name) ==
      if "servers" !in c then ServerIn(whole, name)
      else if Erases(c) then None
      else match ServerIn(c, name)
        case None => ServerIn(whole, name)
        case Some(server) =>
          match ServerIn(whole, name) case None => Some(server) case Some(earlier) => Some(Apply(earlier, server))
  {
    MergeIsNode(whole, c);
    MergeAt(Node(whole), Node(c), "servers");
    if "servers" in c && "servers" in whole && c["servers"].Node? && whole["servers"].Node? {
      MergeAt(whole["servers"], c["servers"], name);
    }
    hide Merge;
  }

  function WithoutMeta(server: Entries): Entries {
    server - {"meta"}
  }

  lemma ApplyWithoutMeta(a: Entries, b: Entries)
    ensures WithoutMeta(Apply(a, b)) == Apply(WithoutMeta(a), WithoutMeta(b))
  {
    var l, r := WithoutMeta(Apply(a, b)), Apply(WithoutMeta(a), WithoutMeta(b));
    MergeIsNode(a, b);
    MergeIsNode(WithoutMeta(a), WithoutMeta(b));
    forall k | k in l ensures l[k] == r[k] {
      MergeAt(Node(a), Node(b), k);
      MergeAt(Node(WithoutMeta(a)), Node(WithoutMeta(b)), k);
    }
    hide Merge;
  }

  predicate IsSetting(path: seq<string>) {
    path != [] && path[0] != "meta"
  }

  lemma LeafWithoutMeta(server: Entries, path: seq<string>)
    requires IsSetting(path)
    ensures LeafAt(Node(WithoutMeta(server)), path) == LeafAt(Node(server), path)
  {
  }

  /** Leaving a key out of either keeps two dictionaries compatible. */
  lemma Without(a: Entries, b: Entries, key: string)
    requires CompatibleEntries(a, b)
    ensures CompatibleEntries(a - {key}, b) && CompatibleEntries(a, b - {key}) &&
      CompatibleEntries(a - {key}, b - {key})
  {
  }

  /** The sources of the files before, and what the last file adds to them. */
  lemma SourcesParts(files: seq<File>, name: string)
    requires files != [] && !ErasesServers(files[|files| - 1])
    ensures
      var before, file := files[..|files| - 1], files[|files| - 1];
      Sources(files, name) == Sources(before, name) +
        if ServerOf(file, name).Some? then Layered(before, file, ServerOf(file, name).value) else []
  {
    hide Layered, ServerOf, ErasesServers;
  }

  /** What the last file adds is compatible with whatever all sources are. */
  lemma FileCompatible(x: Entries, files: seq<File>, name: string)
    requires files != [] && !ErasesServers(files[|files| - 1]) && CompatibleWithEach(x, Sources(files, name))
    ensures
      var before, file := files[..|files| - 1], files[|files| - 1];
      && CompatibleWithEach(x, Sources(before, name))
      && (ServerOf(file, name).Some? ==>
            && CompatibleEntries(x, ServerOf(file, name).value)
            && CompatibleWithEach(x, GlobalsOf(before) + [DefaultsOf(file)]))
  {
    var before, file := files[..|files| - 1], files[|files| - 1];
    SourcesParts(files, name);
    hide *;
    if ServerOf(file, name).Some? {
      var layered := Layered(before, file, ServerOf(file, name).value);
      CompatibleWithParts(x, Sources(before, name), layered);
      CompatibleWithLayers(x, before, file, ServerOf(file, name).value);
    } else {
      CompatibleWithParts(x, Sources(before, name), []);
    }
  }

  lemma CompatibleWithParts(x: Entries, first: seq<Entries>, second: seq<Entries>)
    requires CompatibleWithEach(x, first + second)
    ensures CompatibleWithEach(x, first) && CompatibleWithEach(x, second)
  {
    hide CompatibleEntries;
    assert forall i :: 0 <= i < |first| ==> (first + second)[i] == first[i];
    assert forall i :: 0 <= i < |second| ==> (first + second)[|first| + i] == second[i];
  }

  lemma CompatibleWithLayers(x: Entries, before: seq<File>, file: File, server: Entries)
    requires CompatibleWithEach(x, Layered(before, file, server))
    ensures CompatibleEntries(x, server) && CompatibleWithEach(x, GlobalsOf(before) + [DefaultsOf(file)])
  {
    assert [server][0] == server;
    hide CompatibleEntries, DefaultsOf, GlobalsOf;
    CompatibleWithParts(x, [server], GlobalsOf(before) + [DefaultsOf(file)]);
  }

  lemma {:induction false} AccumulatedCompatible(x: Entries, files: seq<File>, name: string)
    requires LoadFiles(files).Ok? && (forall file :: file in files ==> CurrentStyle(file))
    requires CompatibleWithEach(x, Sources(files, name))
    ensures
      var found := ServerIn(Whole(LoadFiles(files).value.configs), name);
      found.Some? ==> CompatibleEntries(WithoutMeta(x), WithoutMeta(found.value))
  {
    if files == [] {
      NoServer(name);
    } else {
      var before, file := files[..|files| - 1], files[|files| - 1];
      assert file in files && forall f :: f in before ==> f in files;
      LoadedBefore(files, name);
      if ErasesServers(file) {
        return;
      }
      hide *;
      FileCompatible(x, files, name);
      AccumulatedCompatible(x, before, name);
      var s := LoadFiles(before).value;
      if ServerOf(file, name).Some? {
        var server := ServerOf(file, name).value;
        var completed := ApplyAll(server, GlobalsOf(before) + [DefaultsOf(file)]);
        CompatibleWithAll(x, server, GlobalsOf(before) + [DefaultsOf(file)]);
        StripBoth(x, completed);
        if ServerIn(Whole(s.configs), name).Some? {
          var earlier := ServerIn(Whole(s.configs), name).value;
          ApplyWithoutMeta(earlier, completed["meta" := Meta(file)]);
          SameWithoutMeta(completed, Meta(file));
          ApplyCompatible(WithoutMeta(x), WithoutMeta(earlier), WithoutMeta(completed));
        } else {
          SameWithoutMeta(completed, Meta(file));
        }
      }
    }
  }

  lemma NoServer(name: string)
    ensures ServerIn(Whole([]), name) == None
  {
  }

  lemma SameWithoutMeta(server: Entries, meta: Tree)
    ensures WithoutMeta(server["meta" := meta]) == WithoutMeta(server)
  {
  }

  lemma StripBoth(x: Entries, y: Entries)
    requires CompatibleEntries(x, y)
    ensures CompatibleEntries(WithoutMeta(x), WithoutMeta(y))
  {
    Without(x, y, "meta");
  }

  lemma ApplyCompatible(x: Entries, base: Entries, over: Entries)
    requires CompatibleEntries(x, base) && CompatibleEntries(x, over)
    ensures CompatibleEntries(x, Apply(base, over))
  {
    CompatibleWithMerge(Node(x), Node(base), Node(over));
    MergeIsNode(base, over);
    hide Merge, Compatible;
  }

  lemma {:induction false} GlobalsLoaded(files: seq<File>)
    requires LoadFiles(files).Ok? && (forall file :: file in files ==> CurrentStyle(file))
    ensures LoadFiles(files).value.globals == GlobalsOf(files)
  {
    if files != [] {
      var before, file := files[..|files| - 1], files[|files| - 1];
      assert file in files && forall f :: f in before ==> f in files;
      assert LoadFiles(before).Ok?;
      hide LoadFile, CurrentStyle, DefaultsOf, Truthy, Entry;
      GlobalsLoaded(before);
      FileAdds(LoadFiles(before).value, file, "");
    }
  }

  /** From the files before to all files. */
  lemma LoadedBefore(files: seq<File>, name: string)
    requires files != [] && LoadFiles(files).Ok? && (forall file :: file in files ==> CurrentStyle(file))
    ensures
      var before, file := files[..|files| - 1], files[|files| - 1];
      && LoadFiles(before).Ok? && file.data.Node?
      && var earlier := ServerIn(Whole(LoadFiles(before).value.configs), name);
         ServerIn(Whole(LoadFiles(files).value.configs), name) ==
           if Erases(file.data.entries) then None
           else match ServerOf(file, name)
             case None => earlier
             case Some(server) =>
               var completed := ApplyAll(server, GlobalsOf(before) + [DefaultsOf(file)])["meta" := Meta(file)];
               match earlier case None => Some(completed) case Some(w) => Some(Apply(w, completed))
  {
    var before, file := files[..|files| - 1], files[|files| - 1];
    assert file in files && forall f :: f in before ==> f in files;
    var s := LoadFiles(before).value;
    FileAdds(s, file, name);
    GlobalsLoaded(before);
    var s' := LoadFiles(files).value;
    assert ServerIn(Whole(s'.configs), name) ==
      if |s'.configs| == |s.configs| then ServerIn(Whole(s.configs), name)
      else ServerIn(Apply(Whole(s.configs), s'.configs[|s.configs|]), name);
    NoSection(file, name);
    if |s'.configs| > |s.configs| {
      MergedServer(Whole(s.configs), s'.configs[|s.configs|], name);
    }
    hide *;
  }

  lemma NoSection(file: File, name: string)
    ensures ServerOf(file, name).Some? ==> file.data.Node? && !ErasesServers(file)
    ensures file.data.Node? && "servers" !in file.data.entries ==>
      ServerOf(file, name) == None && !Erases(file.data.entries)
    ensures file.data.Node? && Erases(file.data.entries) ==> ServerOf(file, name) == None
  {
  }

  lemma CompatibleAlike(x: Entries, y: Entries)
    requires CompatibleEntries(x, y)
    ensures CompatibleEntries(y, x)
  {
    CompatibleIsSymmetric(Node(x), Node(y));
  }

  lemma LastSources(files: seq<File>, name: string)
    requires files != [] && !ErasesServers(files[|files| - 1]) && PairwiseCompatible(Sources(files, name))
    ensures PairwiseCompatible(Sources(files[..|files| - 1], name))
    ensures ServerOf(files[|files| - 1], name).Some? ==>
      PairwiseCompatible(Layered(files[..|files| - 1], files[|files| - 1], ServerOf(files[|files| - 1], name).value))
  {
    var before, file := files[..|files| - 1], files[|files| - 1];
    SourcesParts(files, name);
    hide *;
    if ServerOf(file, name).Some? {
      PairwiseParts(Sources(before, name), Layered(before, file, ServerOf(file, name).value));
    } else {
      PairwiseParts(Sources(before, name), []);
    }
  }

  lemma PairwiseParts(first: seq<Entries>, second: seq<Entries>)
    requires PairwiseCompatible(first + second)
    ensures PairwiseCompatible(first) && PairwiseCompatible(second)
  {
    hide CompatibleEntries;
    assert forall i :: 0 <= i < |first| ==> (first + second)[i] == first[i];
    assert forall i :: 0 <= i < |second| ==> (first + second)[|first| + i] == second[i];
  }

  function Found(server: Option<Entries>, path: seq<string>): Option<Scalar> {
    match server case Some(entries) => LeafAt(Node(entries), path) case None => None
  }

  /** Merging a completed server over the one of earlier files, when the two are compatible. */
  lemma LaterServerWins(earlier: Entries, completed: Entries, meta: Tree, path: seq<string>)
    requires CompatibleEntries(WithoutMeta(earlier), WithoutMeta(completed)) && IsSetting(path)
    ensures LeafAt(Node(completed["meta" := meta]), path) == LeafAt(Node(completed), path)
    ensures LeafAt(Node(Apply(earlier, completed["meta" := meta])), path) ==
      if LeafAt(Node(completed), path).Some? then LeafAt(Node(completed), path) else LeafAt(Node(earlier), path)
  {
    var over := completed["meta" := meta];
    LeafOfCompatible(Node(WithoutMeta(earlier)), Node(WithoutMeta(completed)), path);
    MergeIsNode(WithoutMeta(earlier), WithoutMeta(completed));
    hide Merge, Compatible, LeafAt, WithoutMeta, IsSetting;
    ApplyWithoutMeta(earlier, over);
    SameWithoutMeta(completed, meta);
    LeafWithoutMeta(Apply(earlier, over), path);
    LeafWithoutMeta(earlier, path);
    LeafWithoutMeta(completed, path);
    LeafWithoutMeta(over, path);
  }

  lemma {:induction false} ServerSettings(files: seq<File>, name: string, path: seq<string>)
    requires LoadFiles(files).Ok? && (forall file :: file in files ==> CurrentStyle(file))
    requires PairwiseCompatible(Sources(files, name)) && IsSetting(path)
    ensures Found(ServerIn(Whole(LoadFiles(files).value.configs), name), path) == Setting(files, name, path)
  {
    if files == [] {
      NoServer(name);
    } else {
      var before, file := files[..|files| - 1], files[|files| - 1];
      assert file in files && forall f :: f in before ==> f in files;
      hide LoadFiles, CurrentStyle, Sources, PairwiseCompatible, Whole, ServerIn, ServerOf, Apply, ApplyAll, LeafAt,
        IsSetting,
           DefaultsOf, GlobalsOf, FirstLeaf, Erases, CompatibleEntries, WithoutMeta, Meta;
      LoadedBefore(files, name);
      if ErasesServers(file) {
        return;
      }
      LastSources(files, name);
      ServerSettings(before, name, path);
      if ServerOf(file, name).Some? {
        var server := ServerOf(file, name).value;
        var layers := GlobalsOf(before) + [DefaultsOf(file)];
        FirstDefinitionWins(server, layers, path);
        CompletedOver(files, name, server, path);
      }
    }
  }

  /** The step of ServerSettings for a file that has the server. */
  lemma CompletedOver(files: seq<File>, name: string, server: Entries, path: seq<string>)
    requires files != [] && LoadFiles(files).Ok? && (forall file :: file in files ==> CurrentStyle(file))
    requires PairwiseCompatible(Sources(files, name)) && IsSetting(path)
    requires ServerOf(files[|files| - 1], name) == Some(server) && LoadFiles(files[..|files| - 1]).Ok?
    ensures
      var before, file := files[..|files| - 1], files[|files| - 1];
      var completed := ApplyAll(server, GlobalsOf(before) + [DefaultsOf(file)]);
      var earlier := ServerIn(Whole(LoadFiles(before).value.configs), name);
      && LeafAt(Node(completed["meta" := Meta(file)]), path) == LeafAt(Node(completed), path)
      && (earlier.Some? ==>
            LeafAt(Node(Apply(earlier.value, completed["meta" := Meta(file)])), path) ==
              if LeafAt(Node(completed), path).Some? then LeafAt(Node(completed), path)
                else LeafAt(Node(earlier.value), path))
  {
    var before, file := files[..|files| - 1], files[|files| - 1];
    assert forall f :: f in before ==> f in files;
    hide *;
    var completed := ApplyAll(server, GlobalsOf(before) + [DefaultsOf(file)]);
    var earlier := ServerIn(Whole(LoadFiles(before).value.configs), name);
    LeafWithoutMeta(completed, path);
    LeafWithoutMeta(completed["meta" := Meta(file)], path);
    SameWithoutMeta(completed, Meta(file));
    if earlier.Some? {
      CompletedCompatible(files, name, server);
      LaterServerWins(earlier.value, completed, Meta(file), path);
    }
  }

  /** A completed server is compatible with what earlier files have made of it. */
  lemma CompletedCompatible(files: seq<File>, name: string, server: Entries)
    requires files != [] && (forall file :: file in files ==> CurrentStyle(file))
    requires PairwiseCompatible(Sources(files, name))
    requires ServerOf(files[|files| - 1], name) == Some(server) && LoadFiles(files[..|files| - 1]).Ok?
    requires ServerIn(Whole(LoadFiles(files[..|files| - 1]).value.configs), name).Some?
    ensures
      var before, file := files[..|files| - 1], files[|files| - 1];
      CompatibleEntries(
        WithoutMeta(ServerIn(Whole(LoadFiles(before).value.configs), name).value),
        WithoutMeta(ApplyAll(server, GlobalsOf(before) + [DefaultsOf(file)])))
  {
    var before, file := files[..|files| - 1], files[|files| - 1];
    assert forall f :: f in before ==> f in files;
    NoSection(file, name);
    var layers := GlobalsOf(before) + [DefaultsOf(file)];
    var completed := ApplyAll(server, layers);
    hide ApplyAll, Sources, DefaultsOf, GlobalsOf, CompatibleEntries, LoadFiles, Whole, CurrentStyle;
    var sources := Sources(before, name);
    forall i | 0 <= i < |sources| ensures CompatibleEntries(completed, sources[i]) {
      SourceOfBefore(files, name, i);
      FileCompatible(sources[i], files, name);
      CompatibleWithAll(sources[i], server, layers);
      CompatibleAlike(sources[i], completed);
    }
    AccumulatedCompatible(completed, before, name);
    CompatibleAlike(WithoutMeta(completed), WithoutMeta(ServerIn(Whole(LoadFiles(before).value.configs), name).value));
  }

  lemma SourceOfBefore(files: seq<File>, name: string, i: nat)
    requires files != [] && !ErasesServers(files[|files| - 1]) && PairwiseCompatible(Sources(files, name))
    requires i < |Sources(files[..|files| - 1], name)|
    ensures CompatibleWithEach(Sources(files[..|files| - 1], name)[i], Sources(files, name))
  {
    SourcesParts(files, name);
    hide CompatibleEntries, Sources, ServerOf, ErasesServers;
    assert Sources(files, name)[i] == Sources(files[..|files| - 1], name)[i];
  }

  /** Where every setting comes from: when the files can be loaded and what they say about the server is
      compatible, the loaded configuration has at `servers`, the server's name and the path exactly the setting
      that the files determine. */
  lemma WhereSettingsComeFrom(files: seq<File>, name: string, path: seq<string>)
    requires Load(files).Ok? && (forall file :: file in files ==> CurrentStyle(file))
    requires PairwiseCompatible(Sources(files, name)) && IsSetting(path)
    ensures LeafAt(Node(Load(files).value), ["servers", name] + path) == Setting(files, name, path)
  {
    var whole := Load(files).value;
    assert LoadFiles(files).Ok? && whole == Whole(LoadFiles(files).value.configs) && path != [];
    PathToServer(whole, name, path);
    hide *;
    ServerSettings(files, name, path);
  }

  lemma StepInto(d: Entries, key: string, path: seq<string>)
    requires path != [] && path[0] == key
    ensures LeafAt(Node(d), path) == if key in d then LeafAt(d[key], path[1..]) else None
  {
  }

  lemma PathToServer(whole: Entries, name: string, path: seq<string>)
    requires path != []
    ensures LeafAt(Node(whole), ["servers", name] + path) == Found(ServerIn(whole, name), path)
  {
    var full := ["servers", name] + path;
    var rest := full[1..];
    assert rest[0] == name && rest[1..] == path;
    assert full[0] == "servers";
    StepInto(whole, "servers", full);
    if "servers" in whole && whole["servers"].Node? {
      StepInto(whole["servers"].entries, name, rest);
      if name in whole["servers"].entries && whole["servers"].entries[name].Leaf? {
        assert LeafAt(whole["servers"].entries[name], path) == None;
      }
    }
  }

  // ---------------------------------------------------------------- meta and eBPF

  /** The latest file that has the server, after the last file with an empty `servers` section. */
  function LastFileWith(files: seq<File>, name: string): Option<File> {
    if files == [] then None else
    var file := files[|files| - 1];
    if ErasesServers(file) then None
    else if ServerOf(file, name).Some? then Some(file)
    else LastFileWith(files[..|files| - 1], name)
  }

  lemma MetaReplaced(earlier: Entries, completed: Entries, before: File, file: File)
    requires "meta" in earlier && earlier["meta"] == Meta(before)
    ensures "meta" in Apply(earlier, completed["meta" := Meta(file)])
    ensures Apply(earlier, completed["meta" := Meta(file)])["meta"] == Meta(file)
  {
    MergeIsNode(earlier, completed["meta" := Meta(file)]);
    MergeAt(Node(earlier), Node(completed["meta" := Meta(file)]), "meta");
    assert Covers(Meta(file), Meta(before));
    NothingToAdd(Meta(before), Meta(file));
    hide Merge;
  }

  lemma MetaIs(file: File)
    ensures Meta(file) == Node(map["CONFPATH" := Leaf(file.path), "CONFDIR" := Leaf(file.directory)])
  {
  }

  /** A server is loaded iff some file has it that no empty section follows, and its meta names the latest such
      file. */
  lemma {:induction false} MetaNamesLastFile(files: seq<File>, name: string)
    requires LoadFiles(files).Ok? && (forall file :: file in files ==> CurrentStyle(file))
    ensures
      var server := ServerIn(Whole(LoadFiles(files).value.configs), name);
      match LastFileWith(files, name)
      case None => server == None
      case Some(file) =>
        && server.Some? && "meta" in server.value
        && server.value["meta"] == Node(map["CONFPATH" := Leaf(file.path), "CONFDIR" := Leaf(file.directory)])
  {
    if LastFileWith(files, name).Some? {
      MetaIs(LastFileWith(files, name).value);
    }
    if files == [] {
      NoServer(name);
    } else {
      var before, file := files[..|files| - 1], files[|files| - 1];
      assert file in files && forall f :: f in before ==> f in files;
      hide LoadFiles, CurrentStyle, Whole, ServerIn, ServerOf, Apply, ApplyAll, DefaultsOf, GlobalsOf, Erases, Meta;
      LoadedBefore(files, name);
      MetaNamesLastFile(before, name);
      var earlier := ServerIn(Whole(LoadFiles(before).value.configs), name);
      if LastFileWith(before, name).Some? {
        MetaIs(LastFileWith(before, name).value);
      }
      if ServerOf(file, name).Some? && earlier.Some? {
        var completed := ApplyAll(ServerOf(file, name).value, GlobalsOf(before) + [DefaultsOf(file)]);
        MetaReplaced(earlier.value, completed, LastFileWith(before, name).value, file);
      }
    }
  }

  predicate HasEbpf(file: File) {
    file.data.Node? && "ebpf" in file.data.entries
  }

  function EbpfCount(files: seq<File>): nat {
    if files == [] then 0 else EbpfCount(files[..|files| - 1]) + if HasEbpf(files[|files| - 1]) then 1 else 0
  }

  lemma ConfigKeepsEbpf(file: File, globals: seq<Entries>)
    requires GetConfig(file.data, globals).Ok?
    ensures "ebpf" in GetConfig(file.data, globals).value.0 <==> HasEbpf(file)
  {
    hide CompleteAll, ValuesOf;
  }

  /** At most one file may configure eBPF, and ConfigurationError means that two did. */
  lemma {:induction false} EbpfOnce(files: seq<File>)
    ensures LoadFiles(files).Ok? ==>
      EbpfCount(files) <= 1 && LoadFiles(files).value.ebpfConfigured == (EbpfCount(files) == 1)
    ensures LoadFiles(files).Broken? ==> EbpfCount(files) >= 2
  {
    if files != [] {
      var before, file := files[..|files| - 1], files[|files| - 1];
      EbpfOnce(before);
      if LoadFiles(before).Ok? {
        var s := LoadFiles(before).value;
        if GetConfig(file.data, s.globals).Ok? {
          ConfigKeepsEbpf(file, s.globals);
        }
      }
      hide GetConfig, WithMeta, HasEbpf, Truthy, Entry;
    }
  }
}
