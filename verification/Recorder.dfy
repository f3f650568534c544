/** The recording loop of fossilize.cpp: what it writes refers only to what it has written. */
module Recorder {
  import opened Wrappers

  datatype Kind =
    Sampler | SetLayout | PipelineLayout | ShaderModule | RenderPass | GraphicsPipeline | ComputePipeline

  /** A binding of a set layout; only some descriptor types take samplers. */
  datatype Binding = Binding(takesSamplers: bool, immutableSamplers: Option<seq<nat>>)

  /** What a create info refers to: by handle when it is recorded, by hash once it is remapped.
      The other fields play no part and are summed up in a content number. */
  datatype Info =
    | SamplerInfo(content: nat)
    | ShaderModuleInfo(content: nat)
    | RenderPassInfo(content: nat)
    | SetLayoutInfo(content: nat, bindings: seq<Binding>)
    | PipelineLayoutInfo(content: nat, setLayouts: seq<nat>)
    | GraphicsInfo(content: nat, renderPass: nat, layout: nat, base: nat, modules: seq<nat>)
    | ComputeInfo(content: nat, module_: nat, layout: nat, base: nat)

  function KindOf(info: Info): Kind {
    match info
    case SamplerInfo(_) => Sampler
    case ShaderModuleInfo(_) => ShaderModule
    case RenderPassInfo(_) => RenderPass
    case SetLayoutInfo(_, _) => SetLayout
    case PipelineLayoutInfo(_, _) => PipelineLayout
    case GraphicsInfo(_, _, _, _, _) => GraphicsPipeline
    case ComputeInfo(_, _, _, _) => ComputePipeline
  }

  /** The hash of every handle that was recorded, and the create info of every hash that was stored. */
  type Handles = map<(Kind, nat), nat>
  type Database = map<(Kind, nat), Info>

  function Find(t: Handles, kind: Kind, handle: nat): Option<nat> {
    if (kind, handle) in t then Some(t[(kind, handle)]) else None
  }

  function FindAll(t: Handles, kind: Kind, handles: seq<nat>): (r: Option<seq<nat>>)
    ensures r.Some? ==> |r.value| == |handles|
  {
    if handles == [] then Some([])
    else
      var front, last := FindAll(t, kind, handles[..|handles| - 1]), Find(t, kind, handles[|handles| - 1]);
      if front.None? || last.None? then None else Some(front.value + [last.value])
  }

  function FindBindings(t: Handles, bindings: seq<Binding>): (r: Option<seq<Binding>>)
    ensures r.Some? ==> |r.value| == |bindings|
  {
    if bindings == [] then Some([])
    else
      var front, last := FindBindings(t, bindings[..|bindings| - 1]), FindBinding(t, bindings[|bindings| - 1]);
      if front.None? || last.None? then None else Some(front.value + [last.value])
  }

  function FindBinding(t: Handles, b: Binding): Option<Binding> {
    if !b.takesSamplers || b.immutableSamplers.None? then Some(b)
    else
      var hashes := FindAll(t, Sampler, b.immutableSamplers.value);
      if hashes.None? then None else Some(Binding(true, hashes))
  }

  function FindBase(t: Handles, kind: Kind, base: nat): Option<nat> {
    if base == 0 then Some(0) else Find(t, kind, base)
  }

  /** A create info with hashes in place of handles, if all of them are known. */
  function Remapped(t: Handles, info: Info): Option<Info> {
    match info
    case SetLayoutInfo(content, bindings) =>
      var bs := FindBindings(t, bindings);
      if bs.None? then None else Some(SetLayoutInfo(content, bs.value))
    case PipelineLayoutInfo(content, setLayouts) =>
      var ls := FindAll(t, SetLayout, setLayouts);
      if ls.None? then None else Some(PipelineLayoutInfo(content, ls.value))
    case GraphicsInfo(content, renderPass, layout, base, modules) =>
      var r, l, b := Find(t, RenderPass, renderPass), Find(t, PipelineLayout, layout), FindBase(t, GraphicsPipeline, base);
      var ms := FindAll(t, ShaderModule, modules);
      if r.None? || l.None? || b.None? || ms.None? then None
      else Some(GraphicsInfo(content, r.value, l.value, b.value, ms.value))
    case ComputeInfo(content, module_, layout, base) =>
      var m, l, b := Find(t, ShaderModule, module_), Find(t, PipelineLayout, layout), FindBase(t, ComputePipeline, base);
      if m.None? || l.None? || b.None? then None else Some(ComputeInfo(content, m.value, l.value, b.value))
    case _ => Some(info)
  }

  /** An object that was created; the caller may have hashed it already. */
  datatype WorkItem = WorkItem(handle: nat, customHash: nat, info: Info)

  /** What is outside the loop: the hash functions, what can be copied, and what the database keeps. */
  datatype Environment = Environment(
    writes: bool, computeHash: (Handles, Info) -> Option<nat>, copies: Info -> bool, keeps: ((Kind, nat)) -> bool)

  function HashOf(e: Environment, t: Handles, item: WorkItem): Option<nat> {
    if item.customHash != 0 then Some(item.customHash) else e.computeHash(t, item.info)
  }

  /** Infos without references are serialised where they are. */
  predicate NeedsCopy(info: Info) {
    info.SetLayoutInfo? || info.PipelineLayoutInfo? || info.GraphicsInfo? || info.ComputeInfo?
  }

  /** The hash and remapped info of an item that is taken, or nothing if it is dropped. */
  function Taken(e: Environment, t: Handles, item: WorkItem): Option<(nat, Info)> {
    var hash, info := HashOf(e, t, item), Remapped(t, item.info);
    if hash.None? || info.None? || (NeedsCopy(item.info) && !e.copies(item.info)) then None
    else Some((hash.value, info.value))
  }

  datatype Store = Store(handles: Handles, database: Database)

  function Next(e: Environment, s: Store, item: WorkItem): Store {
    var taken := Taken(e, s.handles, item);
    if taken.None? then s
    else
      var (hash, info) := taken.value;
      var key := (KindOf(item.info), hash);
      Store(s.handles[(KindOf(item.info), item.handle) := hash],
            if e.writes && key !in s.database && e.keeps(key) then s.database[key := info] else s.database)
  }

  class StateRecorder {
    const environment: Environment
    var handles: Handles
    var database: Database

    constructor (environment: Environment, database: Database)
      ensures handles == map[] && this.database == database && this.environment == environment
    {
      this.environment, this.handles, this.database := environment, map[], database;
    }

    /** Place by place the hash of the handle, if every handle is known. */
    method RemapHandles(kind: Kind, from: seq<nat>) returns (to: Option<seq<nat>>)
      ensures to == FindAll(handles, kind, from)
      ensures to.Some? <==> forall i :: 0 <= i < |from| ==> (kind, from[i]) in handles
      ensures to.Some? ==> |to.value| == |from| && forall i :: 0 <= i < |from| ==> to.value[i] == handles[(kind, from[i])]
    {
      FoundEach(handles, kind, from);
      var hashes := [];
      for i := 0 to |from|
        invariant FindAll(handles, kind, from[..i]) == Some(hashes)
      {
        assert from[..i + 1][..i] == from[..i];
        if (kind, from[i]) !in handles {
          NoneStays(handles, kind, from, i + 1);
          return None;
        }
        hashes := hashes + [handles[(kind, from[i])]];
      }
      assert from[..|from|] == from;
      to := Some(hashes);
    }

    /** Place by place the binding with the hashes of its samplers, if it takes any and has them. */
    method RemapBindings(bindings: seq<Binding>) returns (to: Option<seq<Binding>>)
      ensures to == FindBindings(handles, bindings)
      ensures to.Some? <==> forall i :: 0 <= i < |bindings| ==> SamplersKnown(handles, bindings[i])
      ensures to.Some? ==>
        |to.value| == |bindings| && forall i :: 0 <= i < |bindings| ==> IsRemapped(handles, bindings[i], to.value[i])
    {
      BindingsFoundEach(handles, bindings);
      var remapped := [];
      for i := 0 to |bindings|
        invariant FindBindings(handles, bindings[..i]) == Some(remapped)
      {
        assert bindings[..i + 1][..i] == bindings[..i];
        var b := bindings[i];
        if b.immutableSamplers.Some? && b.takesSamplers {
          var hashes := RemapHandles(Sampler, b.immutableSamplers.value);
          if hashes.None? {
            NoBindingStays(handles, bindings, i + 1);
            return None;
          }
          b := Binding(true, hashes);
        }
        remapped := remapped + [b];
      }
      assert bindings[..|bindings|] == bindings;
      to := Some(remapped);
    }

    /** The same kind of create info and the same content, with the hash of every handle in the field and at
        the place of the handle. */
    method RemapInfo(info: Info) returns (to: Option<Info>)
      ensures to == Remapped(handles, info)
      ensures to.Some? ==> InPlace(handles, info, to.value)
    {
      RemappedInPlace(handles, info);
      to := None;
      match info {
        case SetLayoutInfo(content, bindings) =>
          var bs := RemapBindings(bindings);
          if bs.Some? {
            to := Some(SetLayoutInfo(content, bs.value));
          }
        case PipelineLayoutInfo(content, setLayouts) =>
          var ls := RemapHandles(SetLayout, setLayouts);
          if ls.Some? {
            to := Some(PipelineLayoutInfo(content, ls.value));
          }
        case GraphicsInfo(content, renderPass, layout, base, modules) =>
          var r, l := Find(handles, RenderPass, renderPass), Find(handles, PipelineLayout, layout);
          if r.Some? && l.Some? {
            var b := FindBase(handles, GraphicsPipeline, base);
            var ms := RemapHandles(ShaderModule, modules);
            if b.Some? && ms.Some? {
              to := Some(GraphicsInfo(content, r.value, l.value, b.value, ms.value));
            }
          }
        case ComputeInfo(content, module_, layout, base) =>
          var m, b, l := Find(handles, ShaderModule, module_), FindBase(handles, ComputePipeline, base),
                         Find(handles, PipelineLayout, layout);
          if m.Some? && b.Some? && l.Some? {
            to := Some(ComputeInfo(content, m.value, l.value, b.value));
          }
        case _ => to := Some(info);
      }
    }

    method RecordItem(item: WorkItem)
      modifies this
      ensures Store(handles, database) == Next(environment, Store(old(handles), old(database)), item)
    {
      var hash := HashOf(environment, handles, item);
      if hash.None? {
        return;
      }
      if NeedsCopy(item.info) && !environment.copies(item.info) {
        return;
      }
      var info := RemapInfo(item.info);
      if info.None? {
        return;
      }
      handles := handles[(KindOf(item.info), item.handle) := hash.value];
      if environment.writes {
        var key := (KindOf(item.info), hash.value);
        if key !in database && environment.keeps(key) {
          database := database[key := info.value];
        }
      }
    }

    /** Takes work off the queue until there is none, or a null item asks to stop. */
    method RecordTask(queue: seq<Option<WorkItem>>)
      modifies this
      ensures Store(handles, database)
           == Run(environment, Store(old(handles), old(database)), UntilNull(queue))
    {
      var i := 0;
      while i < |queue| && queue[i].Some?
        invariant i <= |queue|
        invariant Run(environment, Store(handles, database), UntilNull(queue[i..]))
               == Run(environment, Store(old(handles), old(database)), UntilNull(queue))
      {
        assert queue[i..][1..] == queue[i + 1..];
        assert UntilNull(queue[i..])[1..] == UntilNull(queue[i + 1..]);
        RecordItem(queue[i].value);
        i := i + 1;
      }
    }
  }

  /** The items in front of the first null item. */
  function UntilNull(queue: seq<Option<WorkItem>>): (items: seq<WorkItem>)
    ensures |items| <= |queue| && forall i :: 0 <= i < |items| ==> queue[i] == Some(items[i])
    ensures |items| < |queue| ==> queue[|items|].None?
  {
    if queue == [] || queue[0].None? then [] else [queue[0].value] + UntilNull(queue[1..])
  }

  function Run(e: Environment, s: Store, items: seq<WorkItem>): Store
    decreases |items|
  {
    if items == [] then s else Run(e, Next(e, s, items[0]), items[1..])
  }

  lemma {:induction false} FoundEach(t: Handles, kind: Kind, handles: seq<nat>)
    ensures FindAll(t, kind, handles).Some? <==> forall i :: 0 <= i < |handles| ==> (kind, handles[i]) in t
    ensures FindAll(t, kind, handles).Some? ==>
      forall i :: 0 <= i < |handles| ==> FindAll(t, kind, handles).value[i] == t[(kind, handles[i])]
  {
    if handles != [] {
      FoundEach(t, kind, handles[..|handles| - 1]);
    }
  }

  predicate SamplersKnown(t: Handles, b: Binding) {
    b.takesSamplers && b.immutableSamplers.Some? ==>
      forall i :: 0 <= i < |b.immutableSamplers.value| ==> (Sampler, b.immutableSamplers.value[i]) in t
  }

  /** A binding that takes samplers has their hashes in the places of their handles; any other one is as
      it was. */
  predicate IsRemapped(t: Handles, b: Binding, r: Binding) {
    && r.takesSamplers == b.takesSamplers && (r.immutableSamplers.Some? <==> b.immutableSamplers.Some?)
    && (!b.takesSamplers ==> r == b)
    && (b.takesSamplers && b.immutableSamplers.Some? ==>
          AllInPlace(t, Sampler, b.immutableSamplers.value, r.immutableSamplers.value))
  }

  predicate AllInPlace(t: Handles, kind: Kind, handles: seq<nat>, hashes: seq<nat>) {
    |hashes| == |handles| && forall i :: 0 <= i < |handles| ==> HashIs(t, kind, handles[i], hashes[i])
  }

  predicate HashIs(t: Handles, kind: Kind, handle: nat, hash: nat) {
    (kind, handle) in t && t[(kind, handle)] == hash
  }

  /** What remapping does to a create info; handle 0 is no base and stays. */
  predicate InPlace(t: Handles, info: Info, r: Info) {
    match info
    case SetLayoutInfo(content, bindings) =>
      && r.SetLayoutInfo? && r.content == content && |r.bindings| == |bindings|
      && forall i :: 0 <= i < |bindings| ==> IsRemapped(t, bindings[i], r.bindings[i])
    case PipelineLayoutInfo(content, setLayouts) =>
      r.PipelineLayoutInfo? && r.content == content && AllInPlace(t, SetLayout, setLayouts, r.setLayouts)
    case GraphicsInfo(content, renderPass, layout, base, modules) =>
      && r.GraphicsInfo? && r.content == content
      && HashIs(t, RenderPass, renderPass, r.renderPass) && HashIs(t, PipelineLayout, layout, r.layout)
      && (if base == 0 then r.base == 0 else HashIs(t, GraphicsPipeline, base, r.base))
      && AllInPlace(t, ShaderModule, modules, r.modules)
    case ComputeInfo(content, module_, layout, base) =>
      && r.ComputeInfo? && r.content == content
      && HashIs(t, ShaderModule, module_, r.module_) && HashIs(t, PipelineLayout, layout, r.layout)
      && (if base == 0 then r.base == 0 else HashIs(t, ComputePipeline, base, r.base))
    case _ => r == info
  }

  lemma BindingFound(t: Handles, b: Binding)
    ensures FindBinding(t, b).Some? <==> SamplersKnown(t, b)
    ensures FindBinding(t, b).Some? ==> IsRemapped(t, b, FindBinding(t, b).value)
  {
    if b.takesSamplers && b.immutableSamplers.Some? {
      FoundEach(t, Sampler, b.immutableSamplers.value);
    }
  }

  lemma {:induction false} BindingsFoundEach(t: Handles, bindings: seq<Binding>)
    ensures FindBindings(t, bindings).Some? <==> forall i :: 0 <= i < |bindings| ==> SamplersKnown(t, bindings[i])
    ensures FindBindings(t, bindings).Some? ==>
      forall i :: 0 <= i < |bindings| ==> IsRemapped(t, bindings[i], FindBindings(t, bindings).value[i])
  {
    if bindings != [] {
      BindingsFoundEach(t, bindings[..|bindings| - 1]);
      BindingFound(t, bindings[|bindings| - 1]);
    }
  }

  /** Every hash of a remapped create info is where its handle was. */
  lemma RemappedInPlace(t: Handles, info: Info)
    ensures Remapped(t, info).Some? ==> InPlace(t, info, Remapped(t, info).value)
  {
    match info {
      case SetLayoutInfo(_, bindings) => BindingsFoundEach(t, bindings);
      case PipelineLayoutInfo(_, setLayouts) => FoundEach(t, SetLayout, setLayouts);
      case GraphicsInfo(_, _, _, _, modules) => FoundEach(t, ShaderModule, modules);
      case _ =>
    }
  }

  lemma {:induction false} NoneStays(t: Handles, kind: Kind, handles: seq<nat>, i: nat)
    requires i <= |handles| && FindAll(t, kind, handles[..i]).None?
    ensures FindAll(t, kind, handles).None?
    decreases |handles|
  {
    if i < |handles| {
      assert handles[..|handles| - 1][..i] == handles[..i];
      NoneStays(t, kind, handles[..|handles| - 1], i);
    } else {
      assert handles[..i] == handles;
    }
  }

  lemma {:induction false} NoBindingStays(t: Handles, bindings: seq<Binding>, i: nat)
    requires i <= |bindings| && FindBindings(t, bindings[..i]).None?
    ensures FindBindings(t, bindings).None?
    decreases |bindings|
  {
    if i < |bindings| {
      assert bindings[..|bindings| - 1][..i] == bindings[..i];
      NoBindingStays(t, bindings[..|bindings| - 1], i);
    } else {
      assert bindings[..i] == bindings;
    }
  }
}
