/** Whole recordings: every stored create info refers only to hashes that are stored (fossilize.cpp). */
module RecorderIntegrity {
  import opened Wrappers
  import opened Recorder

  type Ref = (Kind, nat)

  ghost predicate SamplerOf(bindings: seq<Binding>, takesSamplers: bool, x: nat) {
    exists b :: b in bindings && b.takesSamplers == takesSamplers && b.immutableSamplers.Some?
      && x in b.immutableSamplers.value
  }

  /** What a create info names; 0 is no base. */
  ghost predicate Refers(info: Info, r: Ref) {
    match info
    case SetLayoutInfo(_, bindings) =>
      r.0 == Sampler && (SamplerOf(bindings, true, r.1) || SamplerOf(bindings, false, r.1))
    case PipelineLayoutInfo(_, setLayouts) => r.0 == SetLayout && r.1 in setLayouts
    case GraphicsInfo(_, renderPass, layout, base, modules) =>
      || r == (RenderPass, renderPass) || r == (PipelineLayout, layout)
      || (base != 0 && r == (GraphicsPipeline, base)) || (r.0 == ShaderModule && r.1 in modules)
    case ComputeInfo(_, module_, layout, base) =>
      r == (ShaderModule, module_) || r == (PipelineLayout, layout) || (base != 0 && r == (ComputePipeline, base))
    case _ => false
  }

  /** Immutable samplers of a binding that takes none: they are stored as the handles they are. */
  ghost predicate Raw(info: Info, x: nat) {
    info.SetLayoutInfo? && SamplerOf(info.bindings, false, x)
  }

  lemma {:induction false} FoundAll(t: Handles, kind: Kind, handles: seq<nat>)
    ensures FindAll(t, kind, handles).Some? <==> forall h :: h in handles ==> (kind, h) in t
    ensures FindAll(t, kind, handles).Some? ==>
      forall x :: x in FindAll(t, kind, handles).value <==> exists h :: h in handles && t[(kind, h)] == x
  {
    if handles != [] {
      var front, last := handles[..|handles| - 1], handles[|handles| - 1];
      FoundAll(t, kind, front);
      assert handles == front + [last];
    }
  }

  lemma {:induction false} FoundBindings(t: Handles, bindings: seq<Binding>)
    ensures FindBindings(t, bindings).Some? <==> forall x: nat :: SamplerOf(bindings, true, x) ==> (Sampler, x) in t
    ensures FindBindings(t, bindings).Some? ==>
      && (forall x: nat :: SamplerOf(FindBindings(t, bindings).value, false, x) <==> SamplerOf(bindings, false, x))
      && forall x: nat :: SamplerOf(FindBindings(t, bindings).value, true, x) ==>
           exists h :: (Sampler, h) in t && t[(Sampler, h)] == x
  {
    if bindings != [] {
      var front, last := bindings[..|bindings| - 1], bindings[|bindings| - 1];
      FoundBindings(t, front);
      assert bindings == front + [last];
      SamplersOfMore(front, last);
      if last.immutableSamplers.Some? {
        FoundAll(t, Sampler, last.immutableSamplers.value);
      }
      if FindBindings(t, front).Some? && FindBinding(t, last).Some? {
        SamplersOfMore(FindBindings(t, front).value, FindBinding(t, last).value);
      }
    }
  }

  lemma SamplersOfMore(front: seq<Binding>, last: Binding)
    ensures forall takes, x: nat ::
      SamplerOf(front + [last], takes, x) <==> SamplerOf(front, takes, x) || SamplerOf([last], takes, x)
    ensures forall takes, x: nat :: SamplerOf([last], takes, x) <==>
      last.takesSamplers == takes && last.immutableSamplers.Some? && x in last.immutableSamplers.value
  {
  }

  /** The handles an item depends on. */
  ghost predicate Depends(info: Info, r: Ref) {
    Refers(info, r) && (info.SetLayoutInfo? ==> SamplerOf(info.bindings, true, r.1))
  }

  /** An item is remapped exactly if everything it depends on was recorded. */
  lemma RemappedExactly(t: Handles, info: Info)
    ensures Remapped(t, info).Some? <==> forall r :: Depends(info, r) ==> r in t
  {
    match info {
      case SetLayoutInfo(_, bindings) =>
        FoundBindings(t, bindings);
        assert forall x: nat :: Depends(info, (Sampler, x)) <==> SamplerOf(bindings, true, x);
      case PipelineLayoutInfo(_, setLayouts) =>
        FoundAll(t, SetLayout, setLayouts);
        assert forall x: nat :: Depends(info, (SetLayout, x)) <==> x in setLayouts;
      case GraphicsInfo(_, renderPass, layout, base, modules) =>
        FoundAll(t, ShaderModule, modules);
        assert Depends(info, (RenderPass, renderPass)) && Depends(info, (PipelineLayout, layout));
        assert base != 0 ==> Depends(info, (GraphicsPipeline, base));
        assert forall x :: x in modules ==> Depends(info, (ShaderModule, x));
      case ComputeInfo(_, module_, layout, base) =>
        assert Depends(info, (ShaderModule, module_)) && Depends(info, (PipelineLayout, layout));
        assert base != 0 ==> Depends(info, (ComputePipeline, base));
      case _ =>
    }
  }

  /** An item is taken exactly if a hash is known for it, everything it depends on was recorded, and a
      create info with references could be copied.  The hash passed by the caller goes first. */
  lemma TakenExactly(e: Environment, t: Handles, item: WorkItem)
    ensures Taken(e, t, item).Some? <==>
      && (item.customHash != 0 || e.computeHash(t, item.info).Some?)
      && (forall r :: Depends(item.info, r) ==> r in t)
      && (item.info.SamplerInfo? || item.info.ShaderModuleInfo? || item.info.RenderPassInfo? || e.copies(item.info))
    ensures Taken(e, t, item).Some? ==>
      && Taken(e, t, item).value.0 == (if item.customHash != 0 then item.customHash else e.computeHash(t, item.info).value)
      && InPlace(t, item.info, Taken(e, t, item).value.1)
  {
    RemappedExactly(t, item.info);
    RemappedInPlace(t, item.info);
  }

  ghost predicate IsOfKind(info: Info, kind: Kind) {
    match kind
    case Sampler => info.SamplerInfo?
    case SetLayout => info.SetLayoutInfo?
    case PipelineLayout => info.PipelineLayoutInfo?
    case ShaderModule => info.ShaderModuleInfo?
    case RenderPass => info.RenderPassInfo?
    case GraphicsPipeline => info.GraphicsInfo?
    case ComputePipeline => info.ComputeInfo?
  }

  /** A taken item makes its handle known under its hash, and stores its info under that hash exactly if
      the database is written, does not have it yet and keeps it.  Nothing else changes; an item that is not
      taken changes nothing. */
  lemma NextExactly(e: Environment, s: Store, item: WorkItem, kind: Kind)
    requires IsOfKind(item.info, kind)
    ensures Taken(e, s.handles, item).None? ==> Next(e, s, item) == s
    ensures Taken(e, s.handles, item).Some? ==>
      var (hash, info), s' := Taken(e, s.handles, item).value, Next(e, s, item);
      && s'.handles == s.handles[(kind, item.handle) := hash]
      && (e.writes && (kind, hash) !in s.database && e.keeps((kind, hash)) ==> s'.database == s.database[(kind, hash) := info])
      && (!e.writes || (kind, hash) in s.database || !e.keeps((kind, hash)) ==> s'.database == s.database)
  {
  }

  /** Items are recorded one after the other, in the order of the queue. */
  lemma {:induction false} RunInOrder(e: Environment, s: Store, items: seq<WorkItem>, item: WorkItem)
    ensures Run(e, s, items + [item]) == Next(e, Run(e, s, items), item)
    decreases |items|
  {
    if items == [] {
      assert [] + [item] == [item] && [item][1..] == [];
    } else {
      assert (items + [item])[1..] == items[1..] + [item];
      RunInOrder(e, Next(e, s, items[0]), items[1..], item);
    }
  }

  /** What a remapped info names is the hash of a recorded handle, or a raw handle. */
  lemma RemappedRefers(t: Handles, info: Info, r: Ref)
    requires Remapped(t, info).Some? && Refers(Remapped(t, info).value, r)
    ensures (r.0 == Sampler && Raw(info, r.1)) || exists h :: (r.0, h) in t && t[(r.0, h)] == r.1
  {
    match info {
      case SetLayoutInfo(_, bindings) => FoundBindings(t, bindings);
      case PipelineLayoutInfo(_, setLayouts) => FoundAll(t, SetLayout, setLayouts);
      case GraphicsInfo(_, renderPass, layout, base, modules) =>
        FoundAll(t, ShaderModule, modules);
        assert t[(RenderPass, renderPass)] == t[(RenderPass, renderPass)];
      case _ =>
    }
  }

  lemma RawStays(t: Handles, info: Info, x: nat)
    requires Remapped(t, info).Some? && Raw(info, x)
    ensures Refers(Remapped(t, info).value, (Sampler, x))
  {
    FoundBindings(t, info.bindings);
  }

  /** Everything a stored info names is stored. */
  ghost predicate Closed(db: Database) {
    forall key, r :: key in db && Refers(db[key], r) ==> r in db
  }

  /** The hash of every recorded handle is stored. */
  ghost predicate Known(t: Handles, db: Database) {
    forall kh :: kh in t ==> (kh.0, t[kh]) in db
  }

  ghost predicate Integral(s: Store) {
    Closed(s.database) && Known(s.handles, s.database)
  }

  /** Entries are written and kept. */
  ghost predicate Recording(e: Environment) {
    e.writes && forall key :: e.keeps(key)
  }

  ghost predicate Stores(e: Environment, s: Store, item: WorkItem) {
    && Taken(e, s.handles, item).Some?
    && (KindOf(item.info), Taken(e, s.handles, item).value.0) !in s.database
  }

  /** A taken item leaves nothing dangling: its hash is stored already, or it is written, kept, and
      names no raw handle, unless that happens to be the hash of a stored sampler. */
  ghost predicate LeavesNothingDangling(e: Environment, s: Store, item: WorkItem) {
    Stores(e, s, item) ==>
      && e.writes && e.keeps((KindOf(item.info), Taken(e, s.handles, item).value.0))
      && forall x: nat :: Raw(item.info, x) ==> (Sampler, x) in s.database
  }

  /** For any database: recording an item keeps integrity if and only if it leaves nothing dangling. */
  lemma StepExactly(e: Environment, s: Store, item: WorkItem)
    requires Integral(s)
    ensures Integral(Next(e, s, item)) <==> LeavesNothingDangling(e, s, item)
  {
    var s' := Next(e, s, item);
    if Stores(e, s, item) {
      var (hash, info) := Taken(e, s.handles, item).value;
      var key := (KindOf(item.info), hash);
      if e.writes && e.keeps(key) {
        StoredStep(s, s', item, key, info);
      } else {
        assert s'.handles[(key.0, item.handle)] == hash && key !in s'.database;
        assert (key.0, item.handle) in s'.handles;
      }
    }
  }

  /** The same for an item that is stored. */
  lemma StoredStep(s: Store, s': Store, item: WorkItem, key: Ref, info: Info)
    requires Integral(s) && Remapped(s.handles, item.info) == Some(info) && key.0 == KindOf(item.info)
    requires key !in s.database && s'.database == s.database[key := info]
    requires s'.handles == s.handles[(key.0, item.handle) := key.1]
    ensures Integral(s') <==> forall x: nat :: Raw(item.info, x) ==> (Sampler, x) in s.database
  {
    forall x: nat | Raw(item.info, x)
      ensures Closed(s'.database) ==> (Sampler, x) in s.database
    {
      RawStays(s.handles, item.info, x);
      assert s'.database[key] == info;
      if Closed(s'.database) {
        assert (Sampler, x) in s'.database && (Sampler, x).0 != key.0;
      }
    }
    if forall x: nat :: Raw(item.info, x) ==> (Sampler, x) in s.database {
      forall r | Refers(info, r)
        ensures r in s'.database
      {
        RemappedRefers(s.handles, item.info, r);
      }
    }
  }

  /** Whatever is recorded in whatever order: if only bindings that take samplers have immutable ones,
      the database stays closed and knows every handle. */
  lemma {:induction false} RecordingKeepsIntegrity(e: Environment, s: Store, items: seq<WorkItem>)
    requires Recording(e) && Integral(s)
    requires forall item, x: nat :: item in items ==> !Raw(item.info, x)
    ensures Integral(Run(e, s, items))
    decreases |items|
  {
    if items != [] {
      StepExactly(e, s, items[0]);
      assert items[0] in items;
      RecordingKeepsIntegrity(e, Next(e, s, items[0]), items[1..]);
    }
  }

  /** An item whose dependencies were not all recorded leaves no trace. */
  lemma UnknownIsDropped(e: Environment, s: Store, item: WorkItem, r: Ref)
    requires Depends(item.info, r) && r !in s.handles
    ensures Next(e, s, item) == s
  {
    RemappedExactly(s.handles, item.info);
  }

  /** Nothing that is stored is ever overwritten or lost. */
  lemma {:induction false} StoredStays(e: Environment, s: Store, items: seq<WorkItem>, key: Ref)
    requires key in s.database
    ensures key in Run(e, s, items).database && Run(e, s, items).database[key] == s.database[key]
    decreases |items|
  {
    if items != [] {
      StoredStays(e, Next(e, s, items[0]), items[1..], key);
    }
  }

  /** A write the database did not keep leaves what comes after it dangling: the handle is known by
      a hash that is not stored. */
  lemma LostWriteDangles(e: Environment, sampler: WorkItem, layout: WorkItem)
    requires e.writes && e.keeps((SetLayout, 8)) && !e.keeps((Sampler, 7)) && e.copies(layout.info)
    requires sampler == WorkItem(1, 7, SamplerInfo(0))
    requires layout == WorkItem(2, 8, SetLayoutInfo(0, [Binding(true, Some([1]))]))
    ensures !Closed(Run(e, Store(map[], map[]), [sampler, layout]).database)
  {
    var s1 := Next(e, Store(map[], map[]), sampler);
    assert s1 == Store(map[(Sampler, 1) := 7], map[]);
    assert [sampler, layout][1..] == [layout] && [layout][1..] == [];
    var s2 := Next(e, s1, layout);
    var b := Binding(true, Some([1]));
    assert [b][..0] == [] && [1][..0] == [];
    FoundAll(s1.handles, Sampler, [1]);
    assert FindAll(s1.handles, Sampler, []) == Some([]) && FindAll(s1.handles, Sampler, [1]) == Some([] + [7]);
    var b' := Binding(true, Some([7]));
    assert [] + [7] == [7] && [] + [b'] == [b'] && FindBinding(s1.handles, b) == Some(b');
    assert FindBindings(s1.handles, []) == Some([]) && FindBindings(s1.handles, [b]) == Some([] + [b']);
    var info := SetLayoutInfo(0, [Binding(true, Some([7]))]);
    assert Remapped(s1.handles, layout.info) == Some(info);
    assert s2.database[(SetLayout, 8)] == info;
    assert SamplerOf(info.bindings, true, 7);
    assert Refers(info, (Sampler, 7)) && (Sampler, 7) !in s2.database;
    assert Run(e, s2, []) == s2 && Run(e, s1, [layout]) == s2;
  }

  /** A layout whose binding takes no samplers but names one stores the handle, and it dangles. */
  lemma RawHandleDangles(e: Environment, layout: WorkItem)
    requires Recording(e) && e.copies(layout.info)
    requires layout == WorkItem(2, 8, SetLayoutInfo(0, [Binding(false, Some([1]))]))
    ensures !Integral(Next(e, Store(map[], map[]), layout))
  {
    var s := Store(map[], map[]);
    var b := Binding(false, Some([1]));
    assert [b][..0] == [] && [] + [b] == [b];
    assert FindBindings(s.handles, []) == Some([]) && FindBindings(s.handles, [b]) == Some([] + [b]);
    assert SamplerOf([b], false, 1) && Raw(layout.info, 1);
    StepExactly(e, s, layout);
  }
}
