/** The replayer of cli/fossilize_prune.cpp, which finds what the retained pipelines refer to. */
module Prune {
  import opened Wrappers

  type Hash = nat

  /** One entry per descriptor of the binding, if it has immutable samplers at all; 0 is the null handle. */
  datatype Binding = Binding(immutableSamplers: Option<seq<Hash>>)
  datatype SetLayout = SetLayout(bindings: seq<Binding>)
  datatype PipelineLayout = PipelineLayout(setLayouts: seq<Hash>)
  datatype Pipeline =
    | Compute(layout: Hash, module_: Hash)
    | Graphics(layout: Hash, renderPass: Hash, modules: seq<Hash>)

  /** A table of create infos; looking up a hash that is missing leaves a null entry. */
  type Infos<T> = map<Hash, Option<T>>

  function LookedUp<T>(infos: Infos<T>, hash: Hash): Infos<T> {
    if hash in infos then infos else infos[hash := None]
  }

  ghost function SamplersIn(info: Option<SetLayout>): set<Hash> {
    if info.None? then {}
    else
      set b, i | 0 <= b < |info.value.bindings| && info.value.bindings[b].immutableSamplers.Some?
        && 0 <= i < |info.value.bindings[b].immutableSamplers.value|
        && info.value.bindings[b].immutableSamplers.value[i] != 0
      :: info.value.bindings[b].immutableSamplers.value[i]
  }

  ghost function SetLayoutsIn(info: Option<PipelineLayout>): set<Hash> {
    if info.None? then {} else set i | 0 <= i < |info.value.setLayouts| :: info.value.setLayouts[i]
  }

  /** The sets of names are those in the create infos, whatever their place; the null handle is no name. */
  lemma InSamplersIn(info: Option<SetLayout>, x: Hash)
    ensures x in SamplersIn(info) <==> x != 0 && info.Some? && exists b ::
      b in info.value.bindings && b.immutableSamplers.Some? && x in b.immutableSamplers.value
  {
    if info.Some? {
      var bindings := info.value.bindings;
      if b :| b in bindings && b.immutableSamplers.Some? && x in b.immutableSamplers.value && x != 0 {
        var i :| 0 <= i < |bindings| && bindings[i] == b;
        var j :| 0 <= j < |b.immutableSamplers.value| && b.immutableSamplers.value[j] == x;
        assert bindings[i].immutableSamplers.value[j] == x;
      }
    }
  }

  lemma InSetLayoutsIn(info: Option<PipelineLayout>, x: Hash)
    ensures x in SetLayoutsIn(info) <==> info.Some? && x in info.value.setLayouts
  {
  }

  ghost function InfoOf<T>(infos: Infos<T>, hash: Hash): Option<T> {
    if hash in infos then infos[hash] else None
  }

  ghost function SamplersOf(sets: set<Hash>, infos: Infos<SetLayout>): set<Hash>
    decreases |sets|
  {
    if sets == {} then {} else var s :| s in sets; SamplersIn(InfoOf(infos, s)) + SamplersOf(sets - {s}, infos)
  }

  ghost function SetLayoutsOf(layouts: set<Hash>, infos: Infos<PipelineLayout>): set<Hash>
    decreases |layouts|
  {
    if layouts == {} then {}
    else var l :| l in layouts; SetLayoutsIn(InfoOf(infos, l)) + SetLayoutsOf(layouts - {l}, infos)
  }

  lemma {:induction false} InSamplersOf(sets: set<Hash>, infos: Infos<SetLayout>, x: Hash)
    ensures x in SamplersOf(sets, infos) <==> exists s :: s in sets && x in SamplersIn(InfoOf(infos, s))
    decreases |sets|
  {
    if sets != {} {
      var s :| s in sets && SamplersOf(sets, infos) == SamplersIn(InfoOf(infos, s)) + SamplersOf(sets - {s}, infos);
      InSamplersOf(sets - {s}, infos, x);
    }
  }

  lemma {:induction false} InSetLayoutsOf(layouts: set<Hash>, infos: Infos<PipelineLayout>, x: Hash)
    ensures x in SetLayoutsOf(layouts, infos) <==> exists l :: l in layouts && x in SetLayoutsIn(InfoOf(infos, l))
    decreases |layouts|
  {
    if layouts != {} {
      var l :| l in layouts && SetLayoutsOf(layouts, infos)
                            == SetLayoutsIn(InfoOf(infos, l)) + SetLayoutsOf(layouts - {l}, infos);
      InSetLayoutsOf(layouts - {l}, infos, x);
    }
  }

  ghost predicate SameInfos<T>(a: Infos<T>, b: Infos<T>) {
    forall h :: InfoOf(a, h) == InfoOf(b, h)
  }

  lemma SamplersOfOneMore(sets: set<Hash>, hash: Hash, infos: Infos<SetLayout>, infos': Infos<SetLayout>)
    requires SameInfos(infos', infos)
    ensures SamplersOf(sets + {hash}, infos') == SamplersOf(sets, infos) + SamplersIn(InfoOf(infos, hash))
  {
    forall x
      ensures x in SamplersOf(sets + {hash}, infos')
         <==> x in SamplersOf(sets, infos) || x in SamplersIn(InfoOf(infos, hash))
    {
      InSamplersOf(sets + {hash}, infos', x);
      InSamplersOf(sets, infos, x);
    }
  }

  lemma SetLayoutsOfOneMore(layouts: set<Hash>, hash: Hash, infos: Infos<PipelineLayout>, infos': Infos<PipelineLayout>)
    requires SameInfos(infos', infos)
    ensures SetLayoutsOf(layouts + {hash}, infos') == SetLayoutsOf(layouts, infos) + SetLayoutsIn(InfoOf(infos, hash))
  {
    forall x
      ensures x in SetLayoutsOf(layouts + {hash}, infos')
         <==> x in SetLayoutsOf(layouts, infos) || x in SetLayoutsIn(InfoOf(infos, hash))
    {
      InSetLayoutsOf(layouts + {hash}, infos', x);
      InSetLayoutsOf(layouts, infos, x);
    }
  }

  datatype Tag = GraphicsPipeline | ComputePipeline | ApplicationBlobLink | OtherTag(id: nat)

  /** What the command line selects and bans. */
  datatype Config = Config(
    filterGraphics: set<Hash>, filterCompute: set<Hash>, filterModules: set<Hash>,
    bannedGraphics: set<Hash>, bannedCompute: set<Hash>, bannedModules: set<Hash>,
    filterApplication: Option<Hash>, skipApplicationInfoLinks: bool)

  function ModulesOf(p: Pipeline): seq<Hash> {
    match p
    case Compute(_, m) => [m]
    case Graphics(_, _, modules) => modules
  }

  /** Whether the hash filters and the application filter let a pipeline through. */
  predicate Selected(c: Config, hash: Hash, p: Pipeline, application: Option<Hash>, linked: bool) {
    && hash !in (if p.Compute? then c.bannedCompute else c.bannedGraphics)
    && (c.filterCompute + c.filterGraphics != {} ==> hash in if p.Compute? then c.filterCompute else c.filterGraphics)
    && (c.filterApplication.Some? ==> linked || application == c.filterApplication)
  }

  /** No module is banned, and one is of those asked for, if any are. */
  predicate ModulesPass(c: Config, p: Pipeline) {
    && (forall m :: m in ModulesOf(p) ==> m !in c.bannedModules)
    && exists m :: m in ModulesOf(p) && (c.filterModules == {} || m in c.filterModules)
  }

  predicate Retains(c: Config, hash: Hash, p: Pipeline, application: Option<Hash>, linked: bool) {
    Selected(c, hash, p, application, linked) && ModulesPass(c, p)
  }

  /** A pipeline is retained exactly if it is not banned, it is asked for by hash if any pipeline is, none of
      its modules is banned and one is asked for if any module is, and it belongs to the chosen application or
      is linked to it, if one is chosen. */
  lemma RetainsExactly(c: Config, hash: Hash, p: Pipeline, application: Option<Hash>, linked: bool)
    ensures Retains(c, hash, p, application, linked) <==>
      && (match p
          case Compute(_, m) =>
            && hash !in c.bannedCompute && m !in c.bannedModules && (c.filterModules == {} || m in c.filterModules)
            && (hash in c.filterCompute || (c.filterCompute == {} && c.filterGraphics == {}))
          case Graphics(_, _, modules) =>
            && hash !in c.bannedGraphics && (hash in c.filterGraphics || (c.filterCompute == {} && c.filterGraphics == {}))
            && (forall m :: m in modules ==> m !in c.bannedModules)
            && exists m :: m in modules && (c.filterModules == {} || m in c.filterModules))
      && (c.filterApplication.None? || linked || application == c.filterApplication)
  {
    if p.Compute? {
      var m := p.module_;
      assert forall x :: x in ModulesOf(p) <==> x == m;
      assert ModulesPass(c, p) <==> m !in c.bannedModules && (c.filterModules == {} || m in c.filterModules);
    } else {
      assert ModulesOf(p) == p.modules;
    }
  }

  type Retained = seq<(Hash, Pipeline)>

  /** What retained pipelines refer to themselves. */
  datatype Marked = Marked(
    layouts: set<Hash>, modules: set<Hash>, renderPasses: set<Hash>, graphics: set<Hash>, compute: set<Hash>)

  function StagesOf(p: Pipeline): set<Hash> {
    set m | m in ModulesOf(p)
  }

  function Marking(m: Marked, hash: Hash, p: Pipeline): Marked {
    match p
    case Compute(layout, _) =>
      Marked(m.layouts + {layout}, m.modules + StagesOf(p), m.renderPasses, m.graphics, m.compute + {hash})
    case Graphics(layout, renderPass, _) =>
      Marked(m.layouts + {layout}, m.modules + StagesOf(p), m.renderPasses + {renderPass}, m.graphics + {hash},
             m.compute)
  }

  function Marks(r: Retained): Marked {
    if r == [] then Marked({}, {}, {}, {}, {})
    else var (hash, p) := r[|r| - 1]; Marking(Marks(r[..|r| - 1]), hash, p)
  }

  ghost predicate AllPass(c: Config, r: Retained) {
    r != [] ==> AllPass(c, r[..|r| - 1]) && ModulesPass(c, r[|r| - 1].1)
  }

  lemma OneMoreRetained(c: Config, r: Retained, hash: Hash, p: Pipeline)
    ensures Marks(r + [(hash, p)]) == Marking(Marks(r), hash, p)
    ensures AllPass(c, r) && ModulesPass(c, p) ==> AllPass(c, r + [(hash, p)])
  {
    assert (r + [(hash, p)])[..|r|] == r;
  }

  class Replayer {
    const config: Config
    var accessedSamplers: set<Hash>
    var accessedDescriptorSets: set<Hash>
    var accessedPipelineLayouts: set<Hash>
    var accessedShaderModules: set<Hash>
    var accessedRenderPasses: set<Hash>
    var accessedGraphicsPipelines: set<Hash>
    var accessedComputePipelines: set<Hash>
    var descriptorSets: Infos<SetLayout>
    var pipelineLayouts: Infos<PipelineLayout>
    var filteredBlobHashes: set<(Tag, Hash)>
    var blobBelongsToApplicationInfo: bool
    ghost var Kept: Retained               // the retained pipelines, in the order of the callbacks
    ghost var Application: Option<Hash>    // the application of the blob being parsed, if it has named one

    /** What the retained pipelines name themselves, with the given layouts, is marked. */
    ghost predicate AccountedBut(layouts: set<Hash>)
      reads this`accessedShaderModules, this`accessedRenderPasses
      reads this`accessedGraphicsPipelines, this`accessedComputePipelines, this`Kept
    {
      && AllPass(config, Kept)
      && Marks(Kept) == Marked(layouts, accessedShaderModules, accessedRenderPasses,
                               accessedGraphicsPipelines, accessedComputePipelines)
    }

    ghost predicate Accounted()
      reads this`accessedPipelineLayouts, this`accessedShaderModules, this`accessedRenderPasses
      reads this`accessedGraphicsPipelines, this`accessedComputePipelines, this`Kept
    {
      AccountedBut(accessedPipelineLayouts)
    }

    ghost predicate Valid()
      reads this
    {
      && Closed() && Accounted()
      && (blobBelongsToApplicationInfo
          <==> Application.Some? && (config.filterApplication.Some? ==> Application == config.filterApplication))
    }

    constructor (c: Config)
      ensures Valid() && config == c && Kept == [] && Application == None
      ensures descriptorSets == map[] && pipelineLayouts == map[] && filteredBlobHashes == {}
    {
      config := c;
      accessedSamplers, accessedDescriptorSets, accessedPipelineLayouts := {}, {}, {};
      accessedShaderModules, accessedRenderPasses := {}, {};
      accessedGraphicsPipelines, accessedComputePipelines := {}, {};
      descriptorSets, pipelineLayouts, filteredBlobHashes := map[], map[], {};
      blobBelongsToApplicationInfo := false;
      Kept, Application := [], None;
    }

    /** What parsing a blob starts with. */
    method StartBlob()
      requires Valid()
      modifies this`blobBelongsToApplicationInfo, this`Application
      ensures Valid() && Application == None
    {
      blobBelongsToApplicationInfo, Application := false, None;
    }

    method SetCurrentApplicationInfo(hash: Hash)
      requires Valid()
      modifies this`blobBelongsToApplicationInfo, this`Application
      ensures Valid() && Application == Some(hash)
    {
      blobBelongsToApplicationInfo := config.filterApplication.None? || hash == config.filterApplication.value;
      Application := Some(hash);
    }

    /** A link names a blob of an application; the links kept are those of the chosen application,
        or all if none is chosen. */
    method NotifyApplicationInfoLink(linkHash: Hash, appHash: Hash, tag: Tag, hash: Hash)
      requires Valid()
      modifies this`filteredBlobHashes
      ensures Valid()
      ensures filteredBlobHashes == old(filteredBlobHashes) + Linked(config, linkHash, appHash, tag, hash)
    {
      if config.skipApplicationInfoLinks {
        return;
      }
      if config.filterApplication.Some? && appHash == config.filterApplication.value {
        filteredBlobHashes := filteredBlobHashes + {(tag, hash)};
        filteredBlobHashes := filteredBlobHashes + {(ApplicationBlobLink, linkHash)};
      } else if config.filterApplication.None? {
        filteredBlobHashes := filteredBlobHashes + {(ApplicationBlobLink, linkHash)};
      }
    }

    method FilterObject(tag: Tag, hash: Hash) returns (keep: bool)
      requires tag.GraphicsPipeline? || tag.ComputePipeline?
      ensures Valid() ==> forall p: Pipeline :: p.Compute? == tag.ComputePipeline? ==>
        keep == Selected(config, hash, p, Application, (tag, hash) in filteredBlobHashes)
    {
      var hashFiltering := !(config.filterCompute == {} && config.filterGraphics == {});
      if tag.ComputePipeline? {
        if hash in config.bannedCompute {
          return false;
        }
        if hashFiltering && hash !in config.filterCompute {
          return false;
        }
      } else {
        if hash in config.bannedGraphics {
          return false;
        }
        if hashFiltering && hash !in config.filterGraphics {
          return false;
        }
      }
      keep := blobBelongsToApplicationInfo || config.filterApplication.None? || (tag, hash) in filteredBlobHashes;
    }

    predicate FilterShaderModule(hash: Hash) {
      if hash in config.bannedModules then false
      else if config.filterModules == {} then true
      else hash in config.filterModules
    }

    /** Marks what a compute pipeline names besides its layout. */
    method MarkCompute(hash: Hash, info: Pipeline, ghost layouts: set<Hash>)
      requires info.Compute? && ModulesPass(config, info) && AccountedBut(layouts)
      requires accessedPipelineLayouts == layouts + {info.layout}
      modifies this`accessedShaderModules, this`accessedComputePipelines, this`Kept
      ensures Accounted() && Kept == old(Kept) + [(hash, info)]
    {
      assert ModulesOf(info)[0] == info.module_ && StagesOf(info) == {info.module_};
      OneMoreRetained(config, Kept, hash, info);
      accessedShaderModules := accessedShaderModules + {info.module_};
      accessedComputePipelines := accessedComputePipelines + {hash};
      Kept := Kept + [(hash, info)];
    }

    method EnqueueCreateComputePipeline(hash: Hash, info: Pipeline)
      requires Valid() && info.Compute?
      modifies this`accessedSamplers, this`accessedDescriptorSets, this`descriptorSets
      modifies this`accessedPipelineLayouts, this`pipelineLayouts
      modifies this`accessedShaderModules, this`accessedComputePipelines, this`Kept
      ensures Valid()
      ensures Kept == if Retains(config, hash, info, Application, (ComputePipeline, hash) in filteredBlobHashes)
                      then old(Kept) + [(hash, info)] else old(Kept)
      ensures SameInfos(descriptorSets, old(descriptorSets)) && SameInfos(pipelineLayouts, old(pipelineLayouts))
    {
      var keep := FilterObject(ComputePipeline, hash);
      if keep {
        assert ModulesOf(info)[0] == info.module_;
        if FilterShaderModule(info.module_) {
          assert info.module_ in ModulesOf(info);
          KeepCompute(hash, info);
        }
      }
    }

    method KeepCompute(hash: Hash, info: Pipeline)
      requires Valid() && info.Compute? && ModulesPass(config, info)
      modifies this`accessedSamplers, this`accessedDescriptorSets, this`descriptorSets
      modifies this`accessedPipelineLayouts, this`pipelineLayouts
      modifies this`accessedShaderModules, this`accessedComputePipelines, this`Kept
      ensures Valid() && Kept == old(Kept) + [(hash, info)]
      ensures SameInfos(descriptorSets, old(descriptorSets)) && SameInfos(pipelineLayouts, old(pipelineLayouts))
    {
      ghost var layouts := accessedPipelineLayouts;
      AccessPipelineLayout(info.layout);
      MarkCompute(hash, info, layouts);
    }

    method AllowGraphics(info: Pipeline) returns (allow: bool)
      requires info.Graphics?
      ensures allow == ModulesPass(config, info)
    {
      allow := false;
      var stages := info.modules;
      for i := 0 to |stages|
        invariant !allow && forall k :: 0 <= k < i ==> !FilterShaderModule(stages[k])
      {
        if FilterShaderModule(stages[i]) {
          allow := true;
          break;
        }
      }
      ghost var found := allow;
      assert found ==> exists m :: m in stages && FilterShaderModule(m);
      for i := 0 to |stages|
        invariant allow == found && forall k :: 0 <= k < i ==> stages[k] !in config.bannedModules
      {
        if stages[i] in config.bannedModules {
          allow := false;
          break;
        }
      }
    }

    method MarkGraphics(hash: Hash, info: Pipeline, ghost layouts: set<Hash>)
      requires info.Graphics? && ModulesPass(config, info) && AccountedBut(layouts)
      requires accessedPipelineLayouts == layouts + {info.layout}
      modifies this`accessedShaderModules, this`accessedRenderPasses, this`accessedGraphicsPipelines, this`Kept
      ensures Accounted() && Kept == old(Kept) + [(hash, info)]
    {
      OneMoreRetained(config, Kept, hash, info);
      accessedRenderPasses := accessedRenderPasses + {info.renderPass};
      AccessModules(info.modules);
      accessedGraphicsPipelines := accessedGraphicsPipelines + {hash};
      Kept := Kept + [(hash, info)];
    }

    method AccessModules(modules: seq<Hash>)
      modifies this`accessedShaderModules
      ensures accessedShaderModules == old(accessedShaderModules) + set m | m in modules
    {
      for stage := 0 to |modules|
        invariant accessedShaderModules == old(accessedShaderModules) + set m | m in modules[..stage]
      {
        accessedShaderModules := accessedShaderModules + {modules[stage]};
      }
      assert modules[..|modules|] == modules;
    }

    method EnqueueCreateGraphicsPipeline(hash: Hash, info: Pipeline)
      requires Valid() && info.Graphics?
      modifies this`accessedSamplers, this`accessedDescriptorSets, this`descriptorSets
      modifies this`accessedPipelineLayouts, this`pipelineLayouts
      modifies this`accessedShaderModules, this`accessedRenderPasses, this`accessedGraphicsPipelines, this`Kept
      ensures Valid()
      ensures Kept == if Retains(config, hash, info, Application, (GraphicsPipeline, hash) in filteredBlobHashes)
                      then old(Kept) + [(hash, info)] else old(Kept)
      ensures SameInfos(descriptorSets, old(descriptorSets)) && SameInfos(pipelineLayouts, old(pipelineLayouts))
    {
      var keep := FilterObject(GraphicsPipeline, hash);
      if keep {
        var allow := AllowGraphics(info);
        if allow {
          KeepGraphics(hash, info);
        }
      }
    }

    method KeepGraphics(hash: Hash, info: Pipeline)
      requires Valid() && info.Graphics? && ModulesPass(config, info)
      modifies this`accessedSamplers, this`accessedDescriptorSets, this`descriptorSets
      modifies this`accessedPipelineLayouts, this`pipelineLayouts
      modifies this`accessedShaderModules, this`accessedRenderPasses, this`accessedGraphicsPipelines, this`Kept
      ensures Valid() && Kept == old(Kept) + [(hash, info)]
      ensures SameInfos(descriptorSets, old(descriptorSets)) && SameInfos(pipelineLayouts, old(pipelineLayouts))
    {
      ghost var layouts := accessedPipelineLayouts;
      AccessPipelineLayout(info.layout);
      MarkGraphics(hash, info, layouts);
    }

    /** Loading a set layout that was missing so far keeps the marks complete exactly if nothing
        that was marked needs it, or its samplers are marked already. */
    method EnqueueCreateDescriptorSetLayout(hash: Hash, info: SetLayout)
      requires Valid()
      modifies this`descriptorSets
      ensures descriptorSets == old(descriptorSets)[hash := Some(info)]
      ensures hash !in accessedDescriptorSets ==> Valid()
      ensures InfoOf(old(descriptorSets), hash) == None ==>
        (Valid() <==> hash !in accessedDescriptorSets || SamplersIn(Some(info)) <= accessedSamplers)
    {
      ghost var infos := descriptorSets;
      descriptorSets := descriptorSets[hash := Some(info)];
      SamplersOfLoaded(accessedDescriptorSets, hash, info, infos);
    }

    method EnqueueCreatePipelineLayout(hash: Hash, info: PipelineLayout)
      requires Valid()
      modifies this`pipelineLayouts
      ensures pipelineLayouts == old(pipelineLayouts)[hash := Some(info)]
      ensures hash !in accessedPipelineLayouts ==> Valid()
      ensures InfoOf(old(pipelineLayouts), hash) == None ==>
        (Valid() <==> hash !in accessedPipelineLayouts || SetLayoutsIn(Some(info)) <= accessedDescriptorSets)
    {
      ghost var infos := pipelineLayouts;
      pipelineLayouts := pipelineLayouts[hash := Some(info)];
      SetLayoutsOfLoaded(accessedPipelineLayouts, hash, info, infos);
    }

    ghost predicate SamplersClosed()
      reads this`accessedSamplers, this`accessedDescriptorSets, this`descriptorSets
    {
      accessedSamplers == SamplersOf(accessedDescriptorSets, descriptorSets)
    }

    ghost predicate Closed()
      reads this`accessedSamplers, this`accessedDescriptorSets, this`descriptorSets
      reads this`accessedPipelineLayouts, this`pipelineLayouts
    {
      SamplersClosed() && accessedDescriptorSets == SetLayoutsOf(accessedPipelineLayouts, pipelineLayouts)
    }

    method AccessSamplers(samplers: seq<Hash>)
      modifies this`accessedSamplers
      ensures accessedSamplers == old(accessedSamplers) + set k | 0 <= k < |samplers| && samplers[k] != 0 :: samplers[k]
    {
      for i := 0 to |samplers|
        invariant accessedSamplers == old(accessedSamplers) + set k | 0 <= k < i && samplers[k] != 0 :: samplers[k]
      {
        if samplers[i] != 0 {
          accessedSamplers := accessedSamplers + {samplers[i]};
        }
      }
    }

    method AccessBindings(info: SetLayout)
      modifies this`accessedSamplers
      ensures accessedSamplers == old(accessedSamplers) + SamplersIn(Some(info))
    {
      var bindings := info.bindings;
      for binding := 0 to |bindings|
        invariant accessedSamplers == old(accessedSamplers) + SamplersIn(Some(SetLayout(bindings[..binding])))
      {
        var bind := bindings[binding];
        SamplersInOneMore(bindings, binding);
        if bind.immutableSamplers.Some? {
          AccessSamplers(bind.immutableSamplers.value);
        }
      }
      assert bindings[..|bindings|] == bindings;
    }

    /** Marks a set layout and its immutable samplers, unless it was marked before. */
    method AccessDescriptorSet(hash: Hash)
      requires SamplersClosed()
      modifies this`accessedSamplers, this`accessedDescriptorSets, this`descriptorSets
      ensures SamplersClosed() && accessedDescriptorSets == old(accessedDescriptorSets) + {hash}
      ensures SameInfos(descriptorSets, old(descriptorSets))
    {
      ghost var infos, sets := descriptorSets, accessedDescriptorSets;
      if hash in accessedDescriptorSets {
        assert accessedDescriptorSets == sets + {hash};
        return;
      }
      accessedDescriptorSets := accessedDescriptorSets + {hash};
      descriptorSets := LookedUp(descriptorSets, hash);
      SamplersOfOneMore(sets, hash, infos, descriptorSets);
      var createInfo := descriptorSets[hash];
      if createInfo.Some? {
        AccessBindings(createInfo.value);
      }
    }

    method AccessPipelineLayout(hash: Hash)
      requires Closed()
      modifies this`accessedSamplers, this`accessedDescriptorSets, this`descriptorSets
      modifies this`accessedPipelineLayouts, this`pipelineLayouts
      ensures Closed() && accessedPipelineLayouts == old(accessedPipelineLayouts) + {hash}
      ensures SameInfos(descriptorSets, old(descriptorSets)) && SameInfos(pipelineLayouts, old(pipelineLayouts))
    {
      ghost var infos, layouts := pipelineLayouts, accessedPipelineLayouts;
      if hash in accessedPipelineLayouts {
        assert accessedPipelineLayouts == layouts + {hash};
        return;
      }
      accessedPipelineLayouts := accessedPipelineLayouts + {hash};
      pipelineLayouts := LookedUp(pipelineLayouts, hash);
      SetLayoutsOfOneMore(layouts, hash, infos, pipelineLayouts);
      var createInfo := pipelineLayouts[hash];
      if createInfo.Some? {
        AccessSetLayouts(createInfo.value.setLayouts);
      }
    }

    method AccessSetLayouts(setLayouts: seq<Hash>)
      requires SamplersClosed()
      modifies this`accessedSamplers, this`accessedDescriptorSets, this`descriptorSets
      ensures SamplersClosed() && SameInfos(descriptorSets, old(descriptorSets))
      ensures accessedDescriptorSets
           == old(accessedDescriptorSets) + SetLayoutsIn(Some(PipelineLayout(setLayouts)))
    {
      for layout := 0 to |setLayouts|
        invariant SamplersClosed() && SameInfos(descriptorSets, old(descriptorSets))
        invariant accessedDescriptorSets == old(accessedDescriptorSets) + set k | 0 <= k < layout :: setLayouts[k]
      {
        AccessDescriptorSet(setLayouts[layout]);
      }
    }
  }

  ghost function Linked(c: Config, linkHash: Hash, appHash: Hash, tag: Tag, hash: Hash): set<(Tag, Hash)> {
    if c.skipApplicationInfoLinks then {}
    else if c.filterApplication == None then {(ApplicationBlobLink, linkHash)}
    else if c.filterApplication == Some(appHash) then {(tag, hash), (ApplicationBlobLink, linkHash)}
    else {}
  }

  lemma SamplersOfLoaded(sets: set<Hash>, hash: Hash, info: SetLayout, infos: Infos<SetLayout>)
    ensures InfoOf(infos, hash) == None ==>
      SamplersOf(sets, infos[hash := Some(info)])
        == SamplersOf(sets, infos) + if hash in sets then SamplersIn(Some(info)) else {}
    ensures hash !in sets ==> SamplersOf(sets, infos[hash := Some(info)]) == SamplersOf(sets, infos)
  {
    var infos' := infos[hash := Some(info)];
    forall x
      ensures hash !in sets ==> (x in SamplersOf(sets, infos') <==> x in SamplersOf(sets, infos))
      ensures InfoOf(infos, hash) == None ==> (x in SamplersOf(sets, infos')
         <==> x in SamplersOf(sets, infos) || (hash in sets && x in SamplersIn(Some(info))))
    {
      InSamplersOf(sets, infos', x);
      InSamplersOf(sets, infos, x);
      assert forall h :: InfoOf(infos', h) == if h == hash then Some(info) else InfoOf(infos, h);
    }
  }

  lemma SetLayoutsOfLoaded(layouts: set<Hash>, hash: Hash, info: PipelineLayout, infos: Infos<PipelineLayout>)
    ensures InfoOf(infos, hash) == None ==>
      SetLayoutsOf(layouts, infos[hash := Some(info)])
        == SetLayoutsOf(layouts, infos) + if hash in layouts then SetLayoutsIn(Some(info)) else {}
    ensures hash !in layouts ==> SetLayoutsOf(layouts, infos[hash := Some(info)]) == SetLayoutsOf(layouts, infos)
  {
    var infos' := infos[hash := Some(info)];
    forall x
      ensures hash !in layouts ==> (x in SetLayoutsOf(layouts, infos') <==> x in SetLayoutsOf(layouts, infos))
      ensures InfoOf(infos, hash) == None ==> (x in SetLayoutsOf(layouts, infos')
         <==> x in SetLayoutsOf(layouts, infos) || (hash in layouts && x in SetLayoutsIn(Some(info))))
    {
      InSetLayoutsOf(layouts, infos', x);
      InSetLayoutsOf(layouts, infos, x);
      assert forall h :: InfoOf(infos', h) == if h == hash then Some(info) else InfoOf(infos, h);
    }
  }

  lemma SamplersInOneMore(bindings: seq<Binding>, n: nat)
    requires n < |bindings|
    ensures var now := SamplersIn(Some(SetLayout(bindings[..n + 1])));
      var bind, before := bindings[n].immutableSamplers, SamplersIn(Some(SetLayout(bindings[..n])));
      if bind.None? then now == before
      else now == before + set k | 0 <= k < |bind.value| && bind.value[k] != 0 :: bind.value[k]
  {
    var before, after := bindings[..n], bindings[..n + 1];
    assert after[..n] == before && after[n] == bindings[n];
    assert forall b :: 0 <= b < n ==> after[b] == before[b];
    forall x | x in SamplersIn(Some(SetLayout(after)))
      ensures x in SamplersIn(Some(SetLayout(before)))
        || (bindings[n].immutableSamplers.Some? && x in bindings[n].immutableSamplers.value && x != 0)
    {
      var b, i :| 0 <= b < |after| && after[b].immutableSamplers.Some?
        && 0 <= i < |after[b].immutableSamplers.value| && after[b].immutableSamplers.value[i] != 0
        && x == after[b].immutableSamplers.value[i];
      assert b < n ==> before[b].immutableSamplers.value[i] == x;
    }
  }
}
