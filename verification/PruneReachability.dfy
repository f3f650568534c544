/** What pruning keeps, against reachability in the graph of references (cli/fossilize_prune.cpp). */
module PruneReachability {
  import opened Wrappers
  import opened Prune

  datatype Node =
    | PipelineNode(index: nat)
    | LayoutNode(hash: Hash)
    | SetLayoutNode(hash: Hash)
    | SamplerNode(hash: Hash)
    | ModuleNode(hash: Hash)
    | RenderPassNode(hash: Hash)

  datatype Graph = Graph(sets: Infos<SetLayout>, layouts: Infos<PipelineLayout>, roots: Retained)

  /** One object's create info names another. */
  ghost predicate Refers(g: Graph, a: Node, b: Node) {
    match a
    case PipelineNode(i) =>
      i < |g.roots| && (match g.roots[i].1
        case Compute(layout, module_) => b == LayoutNode(layout) || b == ModuleNode(module_)
        case Graphics(layout, renderPass, modules) =>
          b == LayoutNode(layout) || b == RenderPassNode(renderPass) || (b.ModuleNode? && b.hash in modules))
    case LayoutNode(h) =>
      b.SetLayoutNode? && h in g.layouts && g.layouts[h].Some? && b.hash in g.layouts[h].value.setLayouts
    case SetLayoutNode(h) =>
      && b.SamplerNode? && b.hash != 0 && h in g.sets && g.sets[h].Some?
      && HasSampler(g.sets[h].value.bindings, b.hash)
    case _ => false
  }

  ghost predicate HasSampler(bindings: seq<Binding>, sampler: Hash) {
    exists b :: b in bindings && b.immutableSamplers.Some? && sampler in b.immutableSamplers.value
  }

  ghost predicate Path(g: Graph, path: seq<Node>) {
    && |path| > 0 && path[0].PipelineNode? && path[0].index < |g.roots|
    && forall i :: 0 < i < |path| ==> Refers(g, path[i - 1], path[i])
  }

  ghost predicate Reachable(g: Graph, n: Node) {
    exists path :: Path(g, path) && path[|path| - 1] == n
  }

  lemma ReachableStep(g: Graph, n: Node)
    ensures Reachable(g, n)
       <==> (n.PipelineNode? && n.index < |g.roots|) || exists m :: Reachable(g, m) && Refers(g, m, n)
  {
    if Reachable(g, n) {
      var path :| Path(g, path) && path[|path| - 1] == n;
      if |path| > 1 {
        var front := path[..|path| - 1];
        assert Path(g, front) && front[|front| - 1] == path[|path| - 2];
        assert Refers(g, path[|path| - 2], path[|path| - 1]);
      }
    }
    if n.PipelineNode? && n.index < |g.roots| {
      assert Path(g, [n]) && [n][|[n]| - 1] == n;
    }
    if m :| Reachable(g, m) && Refers(g, m, n) {
      var path :| Path(g, path) && path[|path| - 1] == m;
      assert Path(g, path + [n]) && (path + [n])[|path|] == n;
    }
  }

  /** What the marks of retained pipelines contain. */
  lemma {:induction false} MarksContain(r: Retained)
    ensures forall h :: h in Marks(r).layouts <==> exists i :: 0 <= i < |r| && r[i].1.layout == h
    ensures forall h :: h in Marks(r).modules <==> exists i :: 0 <= i < |r| && h in ModulesOf(r[i].1)
    ensures forall h :: h in Marks(r).renderPasses
                   <==> exists i :: 0 <= i < |r| && r[i].1.Graphics? && r[i].1.renderPass == h
    ensures forall h :: h in Marks(r).graphics <==> exists i :: 0 <= i < |r| && r[i].1.Graphics? && r[i].0 == h
    ensures forall h :: h in Marks(r).compute <==> exists i :: 0 <= i < |r| && r[i].1.Compute? && r[i].0 == h
  {
    if r != [] {
      var front := r[..|r| - 1];
      MarksContain(front);
      assert forall i :: 0 <= i < |front| ==> front[i] == r[i];
      assert forall i :: 0 <= i < |r| ==> i == |front| || r[i] == front[i];
    }
  }

  /** The marks a replayer holds. */
  ghost predicate Marked(r: Replayer, n: Node)
    reads r
  {
    match n
    case PipelineNode(i) => i < |r.Kept|
    case LayoutNode(h) => h in r.accessedPipelineLayouts
    case SetLayoutNode(h) => h in r.accessedDescriptorSets
    case SamplerNode(h) => h in r.accessedSamplers
    case ModuleNode(h) => h in r.accessedShaderModules
    case RenderPassNode(h) => h in r.accessedRenderPasses
  }

  function Rank(n: Node): nat {
    match n
    case PipelineNode(_) => 0
    case SetLayoutNode(_) => 2
    case SamplerNode(_) => 3
    case _ => 1
  }

  ghost function GraphOf(r: Replayer): Graph
    reads r
  {
    Graph(r.descriptorSets, r.pipelineLayouts, r.Kept)
  }

  /** A node is marked if it is a retained pipeline, or something marked names it, and not otherwise. */
  lemma MarkedStep(r: Replayer, n: Node)
    requires r.Valid()
    ensures Marked(r, n)
       <==> (n.PipelineNode? && n.index < |r.Kept|) || exists m :: Marked(r, m) && Refers(GraphOf(r), m, n)
  {
    if Marked(r, n) && !n.PipelineNode? {
      var m := MarkedHasCause(r, n);
    }
    forall m | Marked(r, m) && Refers(GraphOf(r), m, n)
      ensures Marked(r, n)
    {
      NamedIsMarked(r, m, n);
    }
  }

  lemma NamedIsMarked(r: Replayer, m: Node, n: Node)
    requires r.Valid() && Marked(r, m) && Refers(GraphOf(r), m, n)
    ensures Marked(r, n)
  {
    MarksContain(r.Kept);
    match n {
      case SetLayoutNode(h) =>
        InSetLayoutsOf(r.accessedPipelineLayouts, r.pipelineLayouts, h);
        InSetLayoutsIn(InfoOf(r.pipelineLayouts, m.hash), h);
      case SamplerNode(h) =>
        InSamplersOf(r.accessedDescriptorSets, r.descriptorSets, h);
        InSamplersIn(InfoOf(r.descriptorSets, m.hash), h);
      case _ =>
    }
  }

  lemma MarkedHasCause(r: Replayer, n: Node) returns (m: Node)
    requires r.Valid() && Marked(r, n) && !n.PipelineNode?
    ensures Marked(r, m) && Refers(GraphOf(r), m, n)
  {
    MarksContain(r.Kept);
    match n {
      case LayoutNode(h) =>
        var i: nat :| i < |r.Kept| && r.Kept[i].1.layout == h;
        m := PipelineNode(i);
      case ModuleNode(h) =>
        var i: nat :| i < |r.Kept| && h in ModulesOf(r.Kept[i].1);
        m := PipelineNode(i);
      case RenderPassNode(h) =>
        var i: nat :| i < |r.Kept| && r.Kept[i].1.Graphics? && r.Kept[i].1.renderPass == h;
        m := PipelineNode(i);
      case SetLayoutNode(h) =>
        InSetLayoutsOf(r.accessedPipelineLayouts, r.pipelineLayouts, h);
        var l :| l in r.accessedPipelineLayouts && h in SetLayoutsIn(InfoOf(r.pipelineLayouts, l));
        InSetLayoutsIn(InfoOf(r.pipelineLayouts, l), h);
        m := LayoutNode(l);
      case SamplerNode(h) =>
        InSamplersOf(r.accessedDescriptorSets, r.descriptorSets, h);
        var s :| s in r.accessedDescriptorSets && h in SamplersIn(InfoOf(r.descriptorSets, s));
        InSamplersIn(InfoOf(r.descriptorSets, s), h);
        m := SetLayoutNode(s);
    }
  }

  /** Exactly what can be reached from the retained pipelines is marked. */
  lemma {:induction false} MarkedIsReachable(r: Replayer, n: Node)
    requires r.Valid()
    ensures Marked(r, n) <==> Reachable(GraphOf(r), n)
    decreases Rank(n)
  {
    MarkedStep(r, n);
    ReachableStep(GraphOf(r), n);
    forall m | Refers(GraphOf(r), m, n)
      ensures Marked(r, m) <==> Reachable(GraphOf(r), m)
    {
      MarkedIsReachable(r, m);
    }
  }

  /** The pipelines that are marked are the retained ones. */
  lemma RetainedAreMarked(r: Replayer, h: Hash)
    requires r.Valid()
    ensures h in r.accessedGraphicsPipelines <==> exists i :: 0 <= i < |r.Kept| && r.Kept[i].1.Graphics? && r.Kept[i].0 == h
    ensures h in r.accessedComputePipelines <==> exists i :: 0 <= i < |r.Kept| && r.Kept[i].1.Compute? && r.Kept[i].0 == h
  {
    MarksContain(r.Kept);
  }

  lemma {:induction false} EveryOnePasses(c: Config, r: Retained)
    requires AllPass(c, r)
    ensures forall i :: 0 <= i < |r| ==> ModulesPass(c, r[i].1)
  {
    if r != [] {
      EveryOnePasses(c, r[..|r| - 1]);
    }
  }

  /** No module that is banned is marked. */
  lemma NoBannedModule(r: Replayer)
    requires r.Valid()
    ensures r.accessedShaderModules !! r.config.bannedModules
  {
    MarksContain(r.Kept);
    EveryOnePasses(r.config, r.Kept);
  }

  datatype Callback = Callback(hash: Hash, info: Pipeline, application: Option<Hash>)

  /** The pipelines that are retained, in order. */
  function RetainedOf(c: Config, links: set<(Tag, Hash)>, calls: seq<Callback>): Retained {
    if calls == [] then []
    else RetainedOf(c, links, calls[..|calls| - 1]) + RetainedIf(c, links, calls[|calls| - 1])
  }

  function RetainedIf(c: Config, links: set<(Tag, Hash)>, call: Callback): Retained {
    var tag := if call.info.Compute? then ComputePipeline else GraphicsPipeline;
    if Retains(c, call.hash, call.info, call.application, (tag, call.hash) in links)
    then [(call.hash, call.info)] else []
  }

  ghost function LinksOf(c: Config, links: seq<(Hash, Hash, Tag, Hash)>): set<(Tag, Hash)> {
    if links == [] then {}
    else
      var (linkHash, appHash, tag, hash) := links[|links| - 1];
      LinksOf(c, links[..|links| - 1]) + Linked(c, linkHash, appHash, tag, hash)
  }

  function Loaded<T>(infos: seq<(Hash, T)>): Infos<T> {
    if infos == [] then map[] else Loaded(infos[..|infos| - 1])[infos[|infos| - 1].0 := Some(infos[|infos| - 1].1)]
  }

  /** A pipeline is linked exactly if links count, an application is chosen, and one of its links names the
      pipeline. */
  lemma {:induction false} InLinks(c: Config, links: seq<(Hash, Hash, Tag, Hash)>, tag: Tag, hash: Hash)
    requires tag != ApplicationBlobLink
    ensures (tag, hash) in LinksOf(c, links) <==>
      && !c.skipApplicationInfoLinks && c.filterApplication.Some?
      && exists i :: 0 <= i < |links| && links[i].1 == c.filterApplication.value && links[i].2 == tag && links[i].3 == hash
  {
    if links != [] {
      InLinks(c, links[..|links| - 1], tag, hash);
    }
  }

  /** A pipeline is retained exactly if one of its callbacks passes the selection. */
  lemma {:induction false} InRetained(c: Config, links: set<(Tag, Hash)>, calls: seq<Callback>, hash: Hash, p: Pipeline)
    ensures (hash, p) in RetainedOf(c, links, calls) <==>
      exists i :: 0 <= i < |calls| && calls[i].hash == hash && calls[i].info == p
        && Retains(c, hash, p, calls[i].application, (if p.Compute? then ComputePipeline else GraphicsPipeline, hash) in links)
  {
    if calls != [] {
      InRetained(c, links, calls[..|calls| - 1], hash, p);
    }
  }

  /** The create info loaded last for a hash is the one that counts. */
  lemma {:induction false} LoadedLast<T>(infos: seq<(Hash, T)>, i: nat)
    requires i < |infos| && forall j :: i < j < |infos| ==> infos[j].0 != infos[i].0
    ensures InfoOf(Loaded(infos), infos[i].0) == Some(infos[i].1)
  {
    if i < |infos| - 1 {
      LoadedLast(infos[..|infos| - 1], i);
    }
  }

  /** Playback in its order: links, set layouts, pipeline layouts, and then the pipelines. */
  method Playback(c: Config, links: seq<(Hash, Hash, Tag, Hash)>, sets: seq<(Hash, SetLayout)>,
                  layouts: seq<(Hash, PipelineLayout)>, calls: seq<Callback>)
    returns (r: Replayer)
    ensures r.Valid() && r.config == c && fresh(r)
    ensures r.filteredBlobHashes == LinksOf(c, links) && r.Kept == RetainedOf(c, LinksOf(c, links), calls)
    ensures SameInfos(r.descriptorSets, Loaded(sets)) && SameInfos(r.pipelineLayouts, Loaded(layouts))
  {
    r := new Replayer(c);
    LoadLinks(r, links);
    LoadSets(r, sets);
    LoadLayouts(r, layouts);
    for i := 0 to |calls|
      invariant r.Valid() && r.filteredBlobHashes == LinksOf(c, links)
      invariant r.Kept == RetainedOf(c, LinksOf(c, links), calls[..i])
      invariant SameInfos(r.descriptorSets, Loaded(sets)) && SameInfos(r.pipelineLayouts, Loaded(layouts))
    {
      assert calls[..i + 1][..i] == calls[..i];
      Play(r, calls[i]);
    }
    assert calls[..|calls|] == calls;
  }

  method LoadLinks(r: Replayer, links: seq<(Hash, Hash, Tag, Hash)>)
    requires r.Valid()
    modifies r`filteredBlobHashes
    ensures r.Valid() && r.filteredBlobHashes == old(r.filteredBlobHashes) + LinksOf(r.config, links)
  {
    for i := 0 to |links|
      invariant r.Valid() && r.filteredBlobHashes == old(r.filteredBlobHashes) + LinksOf(r.config, links[..i])
    {
      assert links[..i + 1][..i] == links[..i];
      r.NotifyApplicationInfoLink(links[i].0, links[i].1, links[i].2, links[i].3);
    }
    assert links[..|links|] == links;
  }

  method LoadSets(r: Replayer, sets: seq<(Hash, SetLayout)>)
    requires r.Valid() && r.accessedDescriptorSets == {} && r.descriptorSets == map[]
    modifies r`descriptorSets
    ensures r.Valid() && r.descriptorSets == Loaded(sets)
  {
    for i := 0 to |sets|
      invariant r.Valid() && r.descriptorSets == Loaded(sets[..i])
    {
      assert sets[..i + 1][..i] == sets[..i];
      r.EnqueueCreateDescriptorSetLayout(sets[i].0, sets[i].1);
    }
    assert sets[..|sets|] == sets;
  }

  method LoadLayouts(r: Replayer, layouts: seq<(Hash, PipelineLayout)>)
    requires r.Valid() && r.accessedPipelineLayouts == {} && r.pipelineLayouts == map[]
    modifies r`pipelineLayouts
    ensures r.Valid() && r.pipelineLayouts == Loaded(layouts)
  {
    for i := 0 to |layouts|
      invariant r.Valid() && r.pipelineLayouts == Loaded(layouts[..i])
    {
      assert layouts[..i + 1][..i] == layouts[..i];
      r.EnqueueCreatePipelineLayout(layouts[i].0, layouts[i].1);
    }
    assert layouts[..|layouts|] == layouts;
  }

  method Play(r: Replayer, call: Callback)
    requires r.Valid()
    modifies r
    ensures r.Valid() && r.filteredBlobHashes == old(r.filteredBlobHashes)
    ensures r.Kept == old(r.Kept) + RetainedIf(r.config, r.filteredBlobHashes, call)
    ensures SameInfos(r.descriptorSets, old(r.descriptorSets))
    ensures SameInfos(r.pipelineLayouts, old(r.pipelineLayouts))
  {
    r.StartBlob();
    if call.application.Some? {
      r.SetCurrentApplicationInfo(call.application.value);
    }
    if call.info.Compute? {
      r.EnqueueCreateComputePipeline(call.hash, call.info);
    } else {
      r.EnqueueCreateGraphicsPipeline(call.hash, call.info);
    }
  }
}
