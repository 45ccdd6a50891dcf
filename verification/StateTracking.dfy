/**
 Resource state tracking: a compressed state per texture, a state per buffer, and the barriers emitted on the
 way. The reference is a plain assignment of a state to every subresource, driven by the barriers alone.
 */
module StateTracking {
  import Arithmetic
  import Sequences

  datatype ResourceState =
    | Undefined | General | VertexBuffer | IndexBuffer | ConstantBuffer | StreamOutput | ShaderResource
    | UnorderedAccess | RenderTarget | DepthRead | DepthWrite | Present | IndirectArgument | CopySource
    | CopyDestination | ResolveSource | ResolveDestination | AccelerationStructureRead
    | AccelerationStructureWrite | AccelerationStructureBuildInput | MicromapBuildInput | MicromapRead | MicromapWrite

  /** A buffer, by identity, with the parts of its descriptor that tracking reads. */
  datatype Buffer = Buffer(id: nat, deviceLocal: bool, defaultState: ResourceState)

  /** A texture, by identity, with the parts of its descriptor that tracking reads. */
  datatype TextureDesc = TextureDesc(id: nat, deviceLocal: bool, defaultState: ResourceState, mipCount: nat,
                                     layerCount: nat)

  /** Texture descriptors have at least one mip and one layer, counted in 32 bits. */
  type Texture = t: TextureDesc | 1 <= t.mipCount <= 0xFFFF_FFFF && 1 <= t.layerCount <= 0xFFFF_FFFF
    witness TextureDesc(0, true, General, 1, 1)

  datatype SubresourceRange = SubresourceRange(layer: nat, layerCount: nat, mip: nat, mipCount: nat)

  const ENTIRE_TEXTURE := SubresourceRange(0, 0xFFFF_FFFF, 0, 0xFFFF_FFFF)

  datatype TextureState = TextureState(state: ResourceState, subresourceStates: seq<ResourceState>)

  datatype BufferBarrier = BufferBarrier(buffer: Buffer, before: ResourceState, after: ResourceState)

  datatype TextureBarrier = TextureBarrier(texture: Texture, entireTexture: bool, mip: nat, layer: nat,
                                           before: ResourceState, after: ResourceState)

  // ---------- Subresource ranges (rhi-shared.cpp) ----------

  function Resolve(t: Texture, range: SubresourceRange): (r: SubresourceRange)
    ensures r.layer < t.layerCount && r.mip < t.mipCount
    ensures r.layer + r.layerCount <= t.layerCount && r.mip + r.mipCount <= t.mipCount
  {
    var layer := Arithmetic.Min(range.layer, t.layerCount - 1);
    var mip := Arithmetic.Min(range.mip, t.mipCount - 1);
    SubresourceRange(layer, Arithmetic.Min(range.layerCount, t.layerCount - layer),
                     mip, Arithmetic.Min(range.mipCount, t.mipCount - mip))
  }

  predicate IsEntireTexture(t: Texture, range: SubresourceRange) {
    !(range.layer > 0 || range.layerCount < t.layerCount) && !(range.mip > 0 || range.mipCount < t.mipCount)
  }

  predicate InTexture(t: Texture, layer: nat, mip: nat) {
    layer < t.layerCount && mip < t.mipCount
  }

  /** The subresources a caller names with a resolved range. */
  predicate Requested(range: SubresourceRange, layer: nat, mip: nat) {
    range.layer <= layer < range.layer + range.layerCount && range.mip <= mip < range.mip + range.mipCount
  }

  /** The subresources setTextureState visits: it runs to the last layer whatever the range's layer count. */
  predicate Visited(t: Texture, range: SubresourceRange, layer: nat, mip: nat) {
    range.layer <= layer < t.layerCount && range.mip <= mip < range.mip + range.mipCount
  }

  /** The two agree exactly when the range reaches the texture's last layer or has no mips. */
  lemma VisitedIsRequested(t: Texture, range: SubresourceRange)
    ensures var r := Resolve(t, range);
            (forall layer: nat, mip: nat :: Visited(t, r, layer, mip) <==> Requested(r, layer, mip))
            <==> (r.layer + r.layerCount == t.layerCount || r.mipCount == 0)
  {
    var r := Resolve(t, range);
    if r.layer + r.layerCount != t.layerCount && r.mipCount != 0 {
      assert Visited(t, r, t.layerCount - 1, r.mip) && !Requested(r, t.layerCount - 1, r.mip);
    }
  }

  /** A range that starts in the texture is cut at its borders; one inside the texture stays as it is. */
  lemma ResolvedRange(t: Texture, range: SubresourceRange)
    requires range.layer < t.layerCount && range.mip < t.mipCount
    ensures forall l: nat, m: nat ::
      Requested(Resolve(t, range), l, m) <==> InTexture(t, l, m) && Requested(range, l, m)
    ensures range.layer + range.layerCount <= t.layerCount && range.mip + range.mipCount <= t.mipCount ==>
      Resolve(t, range) == range
  {
  }

  /** A range that starts behind the last layer or mip starts at the last one. */
  lemma ResolvedBeyond(t: Texture, range: SubresourceRange)
    ensures range.layer >= t.layerCount ==> Resolve(t, range) == Resolve(t, range.(layer := t.layerCount - 1))
    ensures range.mip >= t.mipCount ==> Resolve(t, range) == Resolve(t, range.(mip := t.mipCount - 1))
  {
  }

  /**
   The subresources that setTextureState sets, in terms of the caller's range: from its first layer, or the last one of
   the texture, up to the last one, and the mips of the range, which start at the last one of the texture if they are
   behind.
   */
  predicate SetBy(t: Texture, range: SubresourceRange, layer: nat, mip: nat) {
    && InTexture(t, layer, mip)
    && (range.layer <= layer || layer == t.layerCount - 1)
    && if range.mip < t.mipCount then range.mip <= mip < range.mip + range.mipCount
       else mip == t.mipCount - 1 && range.mipCount > 0
  }

  /** The range names every subresource. */
  predicate NamesAll(t: Texture, range: SubresourceRange) {
    && (range.layer == 0 || t.layerCount == 1) && range.layerCount >= t.layerCount
    && (range.mip == 0 || t.mipCount == 1) && range.mipCount >= t.mipCount
  }

  lemma SetByResolved(t: Texture, range: SubresourceRange, layer: nat, mip: nat)
    requires InTexture(t, layer, mip)
    ensures SetBy(t, range, layer, mip) <==> Visited(t, Resolve(t, range), layer, mip)
    ensures SetBy(t, Resolve(t, range), layer, mip) <==> SetBy(t, range, layer, mip)
  {
  }

  /** What is called the entire texture is all of it. */
  lemma EntireIsAll(t: Texture, range: SubresourceRange)
    ensures IsEntireTexture(t, Resolve(t, range)) <==> NamesAll(t, range)
    ensures NamesAll(t, range)
       <==> forall l: nat, m: nat :: InTexture(t, l, m) ==> Requested(Resolve(t, range), l, m)
  {
    var r := Resolve(t, range);
    if forall l: nat, m: nat :: InTexture(t, l, m) ==> Requested(r, l, m) {
      assert InTexture(t, 0, 0) && Requested(r, 0, 0);
      assert InTexture(t, t.layerCount - 1, t.mipCount - 1) && Requested(r, t.layerCount - 1, t.mipCount - 1);
    }
  }

  /** A range of one layer of a two-layer texture already shows the difference. */
  lemma LayerCountIgnored()
    ensures var t: Texture := TextureDesc(0, true, General, 1, 2);
            var r := Resolve(t, SubresourceRange(0, 1, 0, 1));
            Visited(t, r, 1, 0) && !Requested(r, 1, 0)
  {
  }

  // ---------- Replaying barriers ----------

  predicate Covers(b: TextureBarrier, t: Texture, layer: nat, mip: nat) {
    b.texture == t && (b.entireTexture || (b.layer == layer && b.mip == mip))
  }

  /** The state of one subresource after the barriers, starting from the texture's default state. */
  function Replay(log: seq<TextureBarrier>, t: Texture, layer: nat, mip: nat): ResourceState {
    if log == [] then t.defaultState
    else if Covers(log[|log| - 1], t, layer, mip) then log[|log| - 1].after
    else Replay(log[..|log| - 1], t, layer, mip)
  }

  function ReplayBuffer(log: seq<BufferBarrier>, b: Buffer): ResourceState {
    if log == [] then b.defaultState
    else if log[|log| - 1].buffer == b then log[|log| - 1].after
    else ReplayBuffer(log[..|log| - 1], b)
  }

  /** The barrier states the true state of everything it covers, and is not redundant. */
  ghost predicate HonestAfter(log: seq<TextureBarrier>, b: TextureBarrier) {
    && (forall layer: nat, mip: nat :: InTexture(b.texture, layer, mip) && Covers(b, b.texture, layer, mip) ==>
          b.before == Replay(log, b.texture, layer, mip))
    && (b.before == b.after ==> b.after == UnorderedAccess)
    && (!b.entireTexture ==> InTexture(b.texture, b.layer, b.mip))
  }

  ghost predicate Honest(log: seq<TextureBarrier>) {
    forall k :: 0 <= k < |log| ==> HonestAfter(log[..k], log[k])
  }

  ghost predicate HonestBuffers(log: seq<BufferBarrier>) {
    forall k :: 0 <= k < |log| ==>
      && log[k].before == ReplayBuffer(log[..k], log[k].buffer)
      && (log[k].before == log[k].after ==> log[k].after == UnorderedAccess)
  }

  lemma HonestSnoc(log: seq<TextureBarrier>, b: TextureBarrier)
    requires Honest(log) && HonestAfter(log, b)
    ensures Honest(log + [b])
  {
    forall k | 0 <= k < |log + [b]| ensures HonestAfter((log + [b])[..k], (log + [b])[k]) {
      assert (log + [b])[..k] == log[..k];
      assert k == |log| ==> log[..k] == log;
    }
  }

  lemma ReplaySnoc(log: seq<TextureBarrier>, b: TextureBarrier, t: Texture, layer: nat, mip: nat)
    ensures Replay(log + [b], t, layer, mip)
         == if Covers(b, t, layer, mip) then b.after else Replay(log, t, layer, mip)
  {
    assert (log + [b])[..|log|] == log;
  }

  // ---------- Subresource indices ----------

  function Index(t: Texture, layer: nat, mip: nat): nat {
    layer * t.mipCount + mip
  }

  function SubresourceCount(t: Texture): nat {
    t.mipCount * t.layerCount
  }

  lemma IndexInBounds(t: Texture, layer: nat, mip: nat)
    requires InTexture(t, layer, mip)
    ensures Index(t, layer, mip) < SubresourceCount(t)
  {
    Arithmetic.MulMono(t.mipCount, layer + 1, t.layerCount);
  }

  lemma IndexInjective(t: Texture, layer: nat, mip: nat, layer': nat, mip': nat)
    requires InTexture(t, layer, mip) && InTexture(t, layer', mip') && Index(t, layer, mip) == Index(t, layer', mip')
    ensures layer == layer' && mip == mip'
  {
    assert (layer + 1) * t.mipCount == layer * t.mipCount + t.mipCount;
    assert (layer' + 1) * t.mipCount == layer' * t.mipCount + t.mipCount;
    if layer < layer' {
      Arithmetic.MulMono(t.mipCount, layer + 1, layer');
    } else if layer' < layer {
      Arithmetic.MulMono(t.mipCount, layer' + 1, layer);
    }
  }

  /** Every index belongs to a subresource. */
  lemma IndexOnto(t: Texture, i: nat) returns (layer: nat, mip: nat)
    requires i < SubresourceCount(t)
    ensures InTexture(t, layer, mip) && Index(t, layer, mip) == i
  {
    layer, mip := i / t.mipCount, i % t.mipCount;
    assert i == t.mipCount * layer + mip;
    if layer >= t.layerCount {
      Arithmetic.MulMono(t.mipCount, t.layerCount, layer);
    }
  }

  // ---------- The compressed texture state ----------

  /** The state of one subresource according to the compressed state. */
  function StateIn(ts: TextureState, t: Texture, layer: nat, mip: nat): ResourceState
    requires InTexture(t, layer, mip)
    requires ts.subresourceStates == [] || |ts.subresourceStates| == SubresourceCount(t)
  {
    IndexInBounds(t, layer, mip);
    if ts.subresourceStates == [] then ts.state else ts.subresourceStates[Index(t, layer, mip)]
  }

  predicate AllEqual(states: seq<ResourceState>) {
    forall i :: 0 <= i < |states| ==> states[i] == states[0]
  }

  /** One state if all subresources agree, a full vector with differing entries otherwise. */
  predicate Canonical(ts: TextureState, t: Texture) {
    ts.subresourceStates != [] ==>
      && |ts.subresourceStates| == SubresourceCount(t)
      && !AllEqual(ts.subresourceStates)
      && ts.state == Undefined
  }

  /** The compressed form is unique: equal subresource states have equal representations. */
  lemma CanonicalUnique(a: TextureState, b: TextureState, t: Texture)
    requires Canonical(a, t) && Canonical(b, t)
    requires forall layer: nat, mip: nat :: InTexture(t, layer, mip) ==>
      StateIn(a, t, layer, mip) == StateIn(b, t, layer, mip)
    ensures a == b
  {
    if a.subresourceStates == [] && b.subresourceStates == [] {
      assert InTexture(t, 0, 0);
      assert StateIn(a, t, 0, 0) == StateIn(b, t, 0, 0);
    } else if a.subresourceStates != [] && b.subresourceStates != [] {
      forall i | 0 <= i < SubresourceCount(t) ensures a.subresourceStates[i] == b.subresourceStates[i] {
        var layer, mip := IndexOnto(t, i);
        assert StateIn(a, t, layer, mip) == StateIn(b, t, layer, mip);
      }
    } else if a.subresourceStates == [] {
      SameEverywhere(b, a.state, t);
    } else {
      SameEverywhere(a, b.state, t);
    }
  }

  lemma SameEverywhere(ts: TextureState, s: ResourceState, t: Texture)
    requires Canonical(ts, t)
    requires forall layer: nat, mip: nat :: InTexture(t, layer, mip) ==> StateIn(ts, t, layer, mip) == s
    ensures ts == TextureState(s, [])
  {
    forall i | 0 <= i < |ts.subresourceStates| ensures ts.subresourceStates[i] == s {
      var layer, mip := IndexOnto(t, i);
      assert StateIn(ts, t, layer, mip) == s;
    }
    assert InTexture(t, 0, 0);
    assert StateIn(ts, t, 0, 0) == s;
  }

  /** How many barriers cover a subresource. */
  function CountCovers(log: seq<TextureBarrier>, t: Texture, layer: nat, mip: nat): nat {
    if log == [] then 0
    else CountCovers(log[..|log| - 1], t, layer, mip) + if Covers(log[|log| - 1], t, layer, mip) then 1 else 0
  }

  lemma CountSnoc(log: seq<TextureBarrier>, b: TextureBarrier, t: Texture, layer: nat, mip: nat)
    ensures CountCovers(log + [b], t, layer, mip)
         == CountCovers(log, t, layer, mip) + if Covers(b, t, layer, mip) then 1 else 0
  {
    assert (log + [b])[..|log|] == log;
  }

  predicate Sized(ts: TextureState, t: Texture) {
    ts.subresourceStates == [] || |ts.subresourceStates| == SubresourceCount(t)
  }

  /** A transition needs a barrier if the state changes, and always for unordered access. */
  predicate NeedsBarrier(before: ResourceState, after: ResourceState) {
    after != before || after == UnorderedAccess
  }

  type TextureStates = map<Texture, TextureState>

  predicate AllSized(states: TextureStates) {
    forall t :: t in states ==> Sized(states[t], t)
  }

  /** The tracked state of a subresource; an untracked texture is in its default state. */
  function StateOf(states: TextureStates, t: Texture, layer: nat, mip: nat): ResourceState
    requires AllSized(states) && InTexture(t, layer, mip)
  {
    if t in states then StateIn(states[t], t, layer, mip) else t.defaultState
  }

  function BufferStateOf(states: map<Buffer, ResourceState>, b: Buffer): ResourceState {
    if b in states then states[b] else b.defaultState
  }

  // ---------- The barriers of one call ----------

  /** The barrier that takes one subresource to a state, if it needs one. */
  function PartBarrier(states: TextureStates, t: Texture, layer: nat, mip: nat,
                       state: ResourceState): seq<TextureBarrier>
    requires AllSized(states) && InTexture(t, layer, mip)
  {
    var before := StateOf(states, t, layer, mip);
    if NeedsBarrier(before, state) then [TextureBarrier(t, false, mip, layer, before, state)] else []
  }

  /** The barriers for the first mips of a layer, in order. */
  function LayerBarriers(states: TextureStates, t: Texture, range: SubresourceRange, layer: nat, mip: nat,
                         state: ResourceState): seq<TextureBarrier>
    requires AllSized(states) && layer < t.layerCount && mip <= t.mipCount
  {
    if mip == 0 then []
    else
      LayerBarriers(states, t, range, layer, mip - 1, state)
      + if SetBy(t, range, layer, mip - 1) then PartBarrier(states, t, layer, mip - 1, state) else []
  }

  /** The barriers for the first layers, layer by layer. */
  function RangeBarriers(states: TextureStates, t: Texture, range: SubresourceRange, layer: nat,
                         state: ResourceState): seq<TextureBarrier>
    requires AllSized(states) && layer <= t.layerCount
  {
    if layer == 0 then []
    else
      RangeBarriers(states, t, range, layer - 1, state) + LayerBarriers(states, t, range, layer - 1, t.mipCount, state)
  }

  /** One state stands for all subresources. */
  predicate Whole(states: TextureStates, t: Texture) {
    t in states ==> states[t].subresourceStates == []
  }

  /** All barriers of one call: one for a whole texture that is named as a whole, one by one otherwise. */
  function BarriersOf(states: TextureStates, t: Texture, range: SubresourceRange,
                      state: ResourceState): seq<TextureBarrier>
    requires AllSized(states)
  {
    if NamesAll(t, range) && Whole(states, t) then
      var before := StateOf(states, t, 0, 0);
      if NeedsBarrier(before, state) then [TextureBarrier(t, true, 0, 0, before, state)] else []
    else RangeBarriers(states, t, range, t.layerCount, state)
  }

  /** The barrier that takes a buffer to its default state: none if it is there. */
  function BufferDefault(states: map<Buffer, ResourceState>, b: Buffer): seq<BufferBarrier> {
    var before := BufferStateOf(states, b);
    if before != b.defaultState then [BufferBarrier(b, before, b.defaultState)] else []
  }

  function BufferDefaults(states: map<Buffer, ResourceState>, buffers: seq<Buffer>): seq<BufferBarrier> {
    if buffers == [] then []
    else BufferDefaults(states, buffers[..|buffers| - 1]) + BufferDefault(states, buffers[|buffers| - 1])
  }

  /** The barriers that take a texture to its default state: none if it is there as a whole. */
  function TextureDefault(states: TextureStates, t: Texture): seq<TextureBarrier>
    requires AllSized(states)
  {
    if t in states && states[t] != TextureState(t.defaultState, [])
    then BarriersOf(states, t, ENTIRE_TEXTURE, t.defaultState) else []
  }

  function TextureDefaults(states: TextureStates, textures: seq<Texture>): seq<TextureBarrier>
    requires AllSized(states)
  {
    if textures == [] then []
    else TextureDefaults(states, textures[..|textures| - 1]) + TextureDefault(states, textures[|textures| - 1])
  }

  lemma NoDefaults(states: TextureStates, none: seq<Texture>)
    requires AllSized(states) && none == []
    ensures TextureDefaults(states, none) == []
  {
  }

  lemma DefaultsSnoc(states: TextureStates, textures: seq<Texture>, i: nat)
    requires AllSized(states) && i < |textures|
    ensures TextureDefaults(states, textures[..i + 1])
         == TextureDefaults(states, textures[..i]) + TextureDefault(states, textures[i])
  {
    assert textures[..i + 1][..i] == textures[..i];
  }

  /** The barriers of one texture depend on its own entry only. */
  lemma SameEntry(a: TextureStates, b: TextureStates, t: Texture)
    requires AllSized(a) && AllSized(b) && t in a && t in b && a[t] == b[t]
    ensures TextureDefault(a, t) == TextureDefault(b, t)
  {
    hide RangeBarriers, NamesAll, Sized;
    assert Sized(a[t], t) && InTexture(t, 0, 0);
    SameStates(a, b, t, ENTIRE_TEXTURE, t.layerCount, t.defaultState);
  }

  lemma RangeSnoc(states: TextureStates, t: Texture, range: SubresourceRange, layer: nat, state: ResourceState)
    requires AllSized(states) && layer < t.layerCount
    ensures RangeBarriers(states, t, range, layer + 1, state)
         == RangeBarriers(states, t, range, layer, state) + LayerBarriers(states, t, range, layer, t.mipCount, state)
  {
  }

  lemma LayerSnoc(states: TextureStates, t: Texture, range: SubresourceRange, layer: nat, mip: nat,
                  state: ResourceState)
    requires AllSized(states) && InTexture(t, layer, mip)
    ensures LayerBarriers(states, t, range, layer, mip + 1, state)
         == LayerBarriers(states, t, range, layer, mip, state)
            + if SetBy(t, range, layer, mip) then PartBarrier(states, t, layer, mip, state) else []
  {
  }

  /** For a range that starts in the texture, the mips that are set in one of its layers. */
  lemma SetByRange(t: Texture, range: SubresourceRange, layer: nat)
    requires range.layer <= layer < t.layerCount && range.mip < t.mipCount && range.mip + range.mipCount <= t.mipCount
    ensures forall m: nat :: SetBy(t, range, layer, m) <==> range.mip <= m < range.mip + range.mipCount
  {
  }

  lemma {:induction false} LayerBefore(states: TextureStates, t: Texture, range: SubresourceRange, layer: nat, mip: nat,
                                       state: ResourceState)
    requires AllSized(states) && layer < t.layerCount && mip <= t.mipCount
    requires forall m: nat :: m < mip ==> !SetBy(t, range, layer, m)
    ensures LayerBarriers(states, t, range, layer, mip, state) == []
    decreases mip
  {
    if mip > 0 {
      LayerBefore(states, t, range, layer, mip - 1, state);
    }
  }

  lemma {:induction false} LayerBehind(states: TextureStates, t: Texture, range: SubresourceRange, layer: nat, mip: nat,
                                       end: nat, state: ResourceState)
    requires AllSized(states) && layer < t.layerCount && mip <= end <= t.mipCount
    requires forall m: nat :: mip <= m < end ==> !SetBy(t, range, layer, m)
    ensures LayerBarriers(states, t, range, layer, end, state) == LayerBarriers(states, t, range, layer, mip, state)
    decreases end
  {
    if mip < end {
      LayerBehind(states, t, range, layer, mip, end - 1, state);
    }
  }

  lemma {:induction false} RangeBefore(states: TextureStates, t: Texture, range: SubresourceRange, layer: nat,
                                       state: ResourceState)
    requires AllSized(states) && layer <= t.layerCount
    requires forall l: nat, m: nat :: l < layer ==> !SetBy(t, range, l, m)
    ensures RangeBarriers(states, t, range, layer, state) == []
    decreases layer
  {
    if layer > 0 {
      RangeBefore(states, t, range, layer - 1, state);
      LayerBefore(states, t, range, layer - 1, t.mipCount, state);
    }
  }

  /** Ranges that set the same subresources give the same barriers. */
  lemma {:induction false} SameLayer(states: TextureStates, t: Texture, a: SubresourceRange, b: SubresourceRange,
                                     layer: nat, mip: nat, state: ResourceState)
    requires AllSized(states) && layer < t.layerCount && mip <= t.mipCount
    requires forall l: nat, m: nat :: SetBy(t, a, l, m) <==> SetBy(t, b, l, m)
    ensures LayerBarriers(states, t, a, layer, mip, state) == LayerBarriers(states, t, b, layer, mip, state)
    decreases mip
  {
    hide SetBy;
    if mip > 0 {
      SameLayer(states, t, a, b, layer, mip - 1, state);
    }
  }

  lemma {:induction false} SameBarriers(states: TextureStates, t: Texture, a: SubresourceRange, b: SubresourceRange,
                                        layer: nat, state: ResourceState)
    requires AllSized(states) && layer <= t.layerCount
    requires forall l: nat, m: nat :: SetBy(t, a, l, m) <==> SetBy(t, b, l, m)
    ensures RangeBarriers(states, t, a, layer, state) == RangeBarriers(states, t, b, layer, state)
    decreases layer
  {
    hide SetBy;
    if layer > 0 {
      SameBarriers(states, t, a, b, layer - 1, state);
      SameLayer(states, t, a, b, layer - 1, t.mipCount, state);
    }
  }

  /** Tables that agree on a texture's subresources give the same barriers for it. */
  lemma {:induction false} SameStatesLayer(a: TextureStates, b: TextureStates, t: Texture, range: SubresourceRange,
                                           layer: nat, mip: nat, state: ResourceState)
    requires AllSized(a) && AllSized(b) && layer < t.layerCount && mip <= t.mipCount
    requires forall l: nat, m: nat :: InTexture(t, l, m) ==> StateOf(a, t, l, m) == StateOf(b, t, l, m)
    ensures LayerBarriers(a, t, range, layer, mip, state) == LayerBarriers(b, t, range, layer, mip, state)
    decreases mip
  {
    hide SetBy, StateOf, AllSized;
    if mip > 0 {
      SameStatesLayer(a, b, t, range, layer, mip - 1, state);
    }
  }

  lemma {:induction false} SameStates(a: TextureStates, b: TextureStates, t: Texture, range: SubresourceRange,
                                      layer: nat, state: ResourceState)
    requires AllSized(a) && AllSized(b) && layer <= t.layerCount
    requires forall l: nat, m: nat :: InTexture(t, l, m) ==> StateOf(a, t, l, m) == StateOf(b, t, l, m)
    ensures RangeBarriers(a, t, range, layer, state) == RangeBarriers(b, t, range, layer, state)
    decreases layer
  {
    hide SetBy, StateOf, AllSized;
    if layer > 0 {
      SameStates(a, b, t, range, layer - 1, state);
      SameStatesLayer(a, b, t, range, layer - 1, t.mipCount, state);
    }
  }

  /** The barriers emitted so far replay to exactly the tracked states, and each told the truth. */
  ghost predicate TexturesReplay(states: TextureStates, log: seq<TextureBarrier>) {
    && AllSized(states) && Honest(log)
    && (forall t: Texture, layer: nat, mip: nat :: InTexture(t, layer, mip) ==>
          Replay(log, t, layer, mip) == StateOf(states, t, layer, mip))
  }

  ghost predicate BuffersReplay(states: map<Buffer, ResourceState>, log: seq<BufferBarrier>) {
    HonestBuffers(log) && forall b :: ReplayBuffer(log, b) == BufferStateOf(states, b)
  }

  lemma BufferSnoc(log: seq<BufferBarrier>, b: BufferBarrier)
    requires HonestBuffers(log) && b.before == ReplayBuffer(log, b.buffer)
    requires b.before == b.after ==> b.after == UnorderedAccess
    ensures HonestBuffers(log + [b])
    ensures forall c :: ReplayBuffer(log + [b], c) == if c == b.buffer then b.after else ReplayBuffer(log, c)
  {
    assert (log + [b])[..|log|] == log;
    forall k | 0 <= k < |log + [b]| ensures (log + [b])[..k] == log[..k] {
    }
    assert log[..|log|] == log;
  }

  /** One buffer transition on the tracked states and on the log. */
  lemma BuffersStep(states: map<Buffer, ResourceState>, log: seq<BufferBarrier>, buffer: Buffer, state: ResourceState)
    requires BuffersReplay(states, log)
    ensures var before := BufferStateOf(states, buffer);
            BuffersReplay(states[buffer := state],
                          if NeedsBarrier(before, state) then log + [BufferBarrier(buffer, before, state)] else log)
    ensures buffer in states && states[buffer] == state ==> states[buffer := state] == states
  {
    var before := BufferStateOf(states, buffer);
    if NeedsBarrier(before, state) {
      BufferSnoc(log, BufferBarrier(buffer, before, state));
    }
  }

  lemma Overwrite<K, V>(m: map<K, V>, k: K, v: V, w: V)
    ensures m[k := v][k := w] == m[k := w]
  {
  }

  lemma Rewrite<K, V>(m: map<K, V>, k: K)
    requires k in m
    ensures m[k := m[k]] == m
  {
  }

  lemma SuffixSnoc<T>(s: seq<T>, log: seq<T>, x: T)
    requires IsSuffix(s, log)
    ensures IsSuffix(s + [x], log + [x])
  {
  }

  lemma DistinctAt<T>(s: seq<T>, i: nat)
    requires Sequences.NoDuplicates(s) && i < |s|
    ensures s[i] in s && forall j :: i < j < |s| ==> s[j] != s[i]
  {
  }

  ghost predicate IsSuffix<T>(s: seq<T>, log: seq<T>) {
    |s| <= |log| && s == log[|log| - |s|..]
  }

  predicate AllCanonical(states: TextureStates) {
    forall t :: t in states ==> Canonical(states[t], t)
  }

  /** Upload and readback resources are never tracked. */
  predicate OnlyDeviceLocal(buffers: map<Buffer, ResourceState>, textures: TextureStates) {
    (forall b :: b in buffers ==> b.deviceLocal) && (forall t :: t in textures ==> t.deviceLocal)
  }

  lemma StillDeviceLocal(buffers: map<Buffer, ResourceState>, textures: TextureStates, b: Buffer, state: ResourceState)
    requires OnlyDeviceLocal(buffers, textures) && b.deviceLocal
    ensures OnlyDeviceLocal(buffers[b := state], textures)
  {
  }

  class Tracker {
    var bufferStates: map<Buffer, ResourceState>
    var textureStates: TextureStates
    var bufferBarriers: seq<BufferBarrier>
    var textureBarriers: seq<TextureBarrier>
    /** Every barrier since the last clear, including those already handed over by clearBarriers. */
    ghost var bufferLog: seq<BufferBarrier>
    ghost var textureLog: seq<TextureBarrier>

    ghost predicate Valid()
      reads this
    {
      && TexturesReplay(textureStates, textureLog) && BuffersReplay(bufferStates, bufferLog)
      && IsSuffix(bufferBarriers, bufferLog) && IsSuffix(textureBarriers, textureLog)
      && AllCanonical(textureStates) && OnlyDeviceLocal(bufferStates, textureStates)
    }

    constructor ()
      ensures Valid() && textureStates == map[] && bufferStates == map[]
      ensures bufferLog == [] && textureLog == []
    {
      bufferStates, textureStates := map[], map[];
      bufferBarriers, textureBarriers := [], [];
      bufferLog, textureLog := [], [];
    }

    /** The state of a device-local buffer becomes the requested one; a barrier is emitted only if one is needed. */
    method SetBufferState(buffer: Buffer, state: ResourceState)
      requires Valid()
      modifies this
      ensures Valid() && textureStates == old(textureStates) && textureBarriers == old(textureBarriers)
      ensures textureLog == old(textureLog)
      ensures !buffer.deviceLocal ==> unchanged(this)
      ensures buffer.deviceLocal ==> bufferStates == old(bufferStates)[buffer := state]
      ensures buffer.deviceLocal ==>
        bufferBarriers == if NeedsBarrier(BufferStateOf(old(bufferStates), buffer), state)
                          then old(bufferBarriers)
                               + [BufferBarrier(buffer, BufferStateOf(old(bufferStates), buffer), state)]
                          else old(bufferBarriers)
    {
      hide TexturesReplay, AllCanonical, BuffersReplay, IsSuffix, BufferStateOf, OnlyDeviceLocal, ReplayBuffer,
           HonestBuffers;
      if !buffer.deviceLocal {
        return;
      }
      var before := GetBufferState(buffer);
      if state != before || state == UnorderedAccess {
        var b := BufferBarrier(buffer, before, state);
        BuffersStep(bufferStates, bufferLog, buffer, state);
        StillDeviceLocal(bufferStates, textureStates, buffer, state);
        SuffixSnoc(bufferBarriers, bufferLog, b);
        Overwrite(old(bufferStates), buffer, before, state);
        bufferBarriers := bufferBarriers + [b];
        bufferLog := bufferLog + [b];
        bufferStates := bufferStates[buffer := state];
      }
    }

    /** getBufferState: an untracked buffer starts out in its default state. */
    method GetBufferState(buffer: Buffer) returns (state: ResourceState)
      requires Valid() && buffer.deviceLocal
      modifies this`bufferStates
      ensures Valid() && state == BufferStateOf(old(bufferStates), buffer) == BufferStateOf(bufferStates, buffer)
      ensures bufferStates == old(bufferStates)[buffer := state]
    {
      hide TexturesReplay, AllCanonical, IsSuffix, OnlyDeviceLocal, ReplayBuffer, HonestBuffers;
      if buffer !in bufferStates {
        StillDeviceLocal(bufferStates, textureStates, buffer, buffer.defaultState);
        bufferStates := bufferStates[buffer := buffer.defaultState];
      } else {
        Rewrite(bufferStates, buffer);
      }
      state := bufferStates[buffer];
    }

    /** Emits one texture barrier and records it in the full log. */
    method Emit(b: TextureBarrier)
      requires IsSuffix(textureBarriers, textureLog) && Honest(textureLog) && HonestAfter(textureLog, b)
      modifies this`textureBarriers, this`textureLog
      ensures IsSuffix(textureBarriers, textureLog) && Honest(textureLog)
      ensures textureBarriers == old(textureBarriers) + [b] && textureLog == old(textureLog) + [b]
      ensures forall t: Texture, layer: nat, mip: nat :: InTexture(t, layer, mip) ==>
        && Replay(textureLog, t, layer, mip)
           == (if Covers(b, t, layer, mip) then b.after else old(Replay(textureLog, t, layer, mip)))
        && CountCovers(textureLog, t, layer, mip)
           == old(CountCovers(textureLog, t, layer, mip)) + if Covers(b, t, layer, mip) then 1 else 0
    {
      hide Replay, CountCovers, Honest, HonestAfter, IsSuffix, Covers;
      HonestSnoc(textureLog, b);
      SuffixSnoc(textureBarriers, textureLog, b);
      forall t: Texture, layer: nat, mip: nat | InTexture(t, layer, mip)
        ensures Replay(textureLog + [b], t, layer, mip)
             == if Covers(b, t, layer, mip) then b.after else Replay(textureLog, t, layer, mip)
        ensures CountCovers(textureLog + [b], t, layer, mip)
             == CountCovers(textureLog, t, layer, mip) + if Covers(b, t, layer, mip) then 1 else 0
      {
        ReplaySnoc(textureLog, b, t, layer, mip);
        CountSnoc(textureLog, b, t, layer, mip);
      }
      textureBarriers := textureBarriers + [b];
      textureLog := textureLog + [b];
    }

    /** One turn of the inner loop: bring one subresource of an expanded texture to a state. */
    method TransitionSubresource(texture: Texture, layer: nat, mip: nat, state: ResourceState)
      requires TexturesReplay(textureStates, textureLog) && AllSized(textureStates)
      requires IsSuffix(textureBarriers, textureLog)
      requires texture in textureStates && textureStates[texture].subresourceStates != []
      requires InTexture(texture, layer, mip)
      modifies this`textureStates, this`textureBarriers, this`textureLog
      ensures TexturesReplay(textureStates, textureLog) && AllSized(textureStates)
      ensures IsSuffix(textureBarriers, textureLog)
      ensures Expanded(texture) && textureStates[texture].state == old(textureStates)[texture].state
      ensures OthersKept(old(textureStates), textureStates, texture)
      ensures textureBarriers == old(textureBarriers) + PartBarrier(old(textureStates), texture, layer, mip, state)
      ensures forall l: nat, m: nat :: InTexture(texture, l, m) ==>
                After(old(textureStates), old(textureLog), textureStates, textureLog, texture, l, m,
                      l == layer && m == mip, state)
    {
      hide TexturesReplay, StateOf, Replay, CountCovers, HonestAfter, Honest, AllSized, IsSuffix, After, OthersKept,
           Index;
      EntryState(textureStates, textureLog, texture, layer, mip);
      var index := Index(texture, layer, mip);
      var ts := textureStates[texture];
      var before := ts.subresourceStates[index];
      ghost var states0, log0 := textureStates, textureLog;
      if state != before || state == UnorderedAccess {
        var b := TextureBarrier(texture, false, mip, layer, before, state);
        BarrierTellsTruth(textureStates, textureLog, b);
        Emit(b);
        textureStates := textureStates[texture := ts.(subresourceStates := ts.subresourceStates[index := state])];
        SubresourceSet(states0, textureStates, texture, layer, mip, state);
        StepReplays(states0, log0, textureStates, textureLog, b);
        AfterStep(states0, log0, textureStates, textureLog, texture, layer, mip, state);
      } else {
        AfterNothing(states0, log0, texture, layer, mip, state);
      }
    }

    /**
     setTextureState: every visited subresource gets the state, with exactly one barrier where one is needed;
     every other subresource of every texture is left alone.
     */
    method SetTextureState(texture: Texture, range: SubresourceRange, state: ResourceState)
      requires Valid()
      modifies this
      ensures Valid() && AllSized(textureStates)
      ensures bufferStates == old(bufferStates) && bufferBarriers == old(bufferBarriers)
      ensures bufferLog == old(bufferLog)
      ensures !texture.deviceLocal ==> unchanged(this)
      ensures texture.deviceLocal ==> OthersKept(old(textureStates), textureStates, texture)
      ensures texture.deviceLocal ==> forall l: nat, m: nat :: InTexture(texture, l, m) ==>
        After(old(textureStates), old(textureLog), textureStates, textureLog, texture, l, m,
              SetBy(texture, range, l, m), state)
      ensures texture.deviceLocal ==>
        AllSized(old(textureStates))
        && textureBarriers == old(textureBarriers) + BarriersOf(old(textureStates), texture, range, state)
    {
      hide TexturesReplay, BuffersReplay, StateOf, CountCovers, IsSuffix, AllCanonical, Resolve, Canonical, After,
           OthersKept, AllSized, Visited, SetBy, BarriersOf, NamesAll;
      TrackedSizes();
      if !texture.deviceLocal {
        return;
      }
      var resolved := Resolve(texture, range);
      TrackTexture(texture);
      ghost var tracked, log := textureStates, textureLog;
      EntireIsAll(texture, range);
      if IsEntireTexture(texture, resolved) && textureStates[texture].subresourceStates == [] {
        TransitionEntire(texture, state);
        AllVisited(tracked, log, textureStates, textureLog, texture, resolved, state);
      } else {
        TransitionParts(texture, resolved, state);
      }
      TrackedFirst(old(textureStates), tracked, log, textureStates, textureLog, texture, range, state);
      TrackedBarriers(old(textureStates), tracked, texture, range, state);
    }

    lemma TrackedSizes()
      requires Valid()
      ensures AllSized(textureStates)
    {
    }

    lemma TrackedForm(texture: Texture)
      requires Valid() && texture in textureStates
      ensures AllSized(textureStates) && Honest(textureLog) && Canonical(textureStates[texture], texture)
    {
      hide IsSuffix, BuffersReplay, OnlyDeviceLocal;
    }

    /** The branch that works on subresources: expand, transition, fold. */
    method TransitionParts(texture: Texture, range: SubresourceRange, state: ResourceState)
      requires Valid() && texture in textureStates
      requires range.layer < texture.layerCount && range.mip < texture.mipCount
      requires range.mip + range.mipCount <= texture.mipCount
      modifies this`textureStates, this`textureBarriers, this`textureLog
      ensures Valid() && AllSized(textureStates) && OthersKept(old(textureStates), textureStates, texture)
      ensures AllSized(old(textureStates))
      ensures textureBarriers
           == old(textureBarriers) + RangeBarriers(old(textureStates), texture, range, texture.layerCount, state)
      ensures forall l: nat, m: nat :: InTexture(texture, l, m) ==>
                After(old(textureStates), old(textureLog), textureStates, textureLog, texture, l, m,
                      Visited(texture, range, l, m), state)
    {
      hide TexturesReplay, BuffersReplay, StateOf, CountCovers, IsSuffix, Visited, Canonical, AllCanonical, AllSized,
           Sized, RangeBarriers;
      TrackedForm(texture);
      Expand(texture);
      SameStates(old(textureStates), textureStates, texture, range, texture.layerCount, state);
      TransitionRange(texture, range, state);
      Compress(texture);
      KeptCanonical(old(textureStates), textureStates, texture);
    }

    /** Brings an unexpanded texture to a state as a whole. */
    method TransitionEntire(texture: Texture, state: ResourceState)
      requires Valid() && texture in textureStates && textureStates[texture].subresourceStates == []
      modifies this`textureStates, this`textureBarriers, this`textureLog
      ensures Valid() && AllSized(textureStates) && OthersKept(old(textureStates), textureStates, texture)
      ensures textureBarriers == old(textureBarriers)
           + if NeedsBarrier(old(textureStates)[texture].state, state)
             then [TextureBarrier(texture, true, 0, 0, old(textureStates)[texture].state, state)] else []
      ensures forall l: nat, m: nat :: InTexture(texture, l, m) ==>
                After(old(textureStates), old(textureLog), textureStates, textureLog, texture, l, m, true, state)
    {
      hide TexturesReplay, BuffersReplay, AllCanonical, Canonical, StateOf, Replay, CountCovers, HonestAfter, Honest,
           AllSized, After;
      var before := textureStates[texture].state;
      ghost var states0, log0 := textureStates, textureLog;
      TrackedForm(texture);
      if state != before || state == UnorderedAccess {
        var b := TextureBarrier(texture, true, 0, 0, before, state);
        EntireTruth(textureStates, textureLog, b);
        Emit(b);
        textureStates := textureStates[texture := TextureState(state, [])];
        EntireSet(states0, textureStates, texture, state);
        StepReplays(states0, log0, textureStates, textureLog, b);
        KeptCanonical(states0, textureStates, texture);
        EntireStep(states0, log0, textureStates, textureLog, texture, state);
      } else {
        EntireKept(states0, log0, texture, state);
      }
    }

    /** The nested loops over layers and mips. */
    method TransitionRange(texture: Texture, range: SubresourceRange, state: ResourceState)
      requires TexturesReplay(textureStates, textureLog) && IsSuffix(textureBarriers, textureLog) && Expanded(texture)
      requires range.layer < texture.layerCount && range.mip < texture.mipCount
      requires range.mip + range.mipCount <= texture.mipCount
      modifies this`textureStates, this`textureBarriers, this`textureLog
      ensures TexturesReplay(textureStates, textureLog) && AllSized(textureStates)
      ensures IsSuffix(textureBarriers, textureLog) && Expanded(texture)
      ensures textureStates[texture].state == old(textureStates)[texture].state
      ensures OthersKept(old(textureStates), textureStates, texture)
      ensures AllSized(old(textureStates))
      ensures textureBarriers
           == old(textureBarriers) + RangeBarriers(old(textureStates), texture, range, texture.layerCount, state)
      ensures forall l: nat, m: nat :: InTexture(texture, l, m) ==>
                After(old(textureStates), old(textureLog), textureStates, textureLog, texture, l, m,
                      Visited(texture, range, l, m), state)
    {
      assert AllSized(textureStates);
      hide TexturesReplay, StateOf, CountCovers, IsSuffix, AllSized, Sized, Progress, After, Visited, OthersKept,
           LayerBarriers, RangeBarriers;
      ghost var states0, log0 := textureStates, textureLog;
      ProgressStart(states0, log0, texture, range, state);
      RangeBefore(states0, texture, range, range.layer, state);
      for layer := range.layer to texture.layerCount
        invariant TexturesReplay(textureStates, textureLog) && AllSized(textureStates) && Expanded(texture)
        invariant IsSuffix(textureBarriers, textureLog)
        invariant textureBarriers == old(textureBarriers) + RangeBarriers(states0, texture, range, layer, state)
        invariant textureStates[texture].state == states0[texture].state
        invariant Progress(states0, log0, textureStates, textureLog, texture, range, layer, range.mip, state)
      {
        RangeSnoc(states0, texture, range, layer, state);
        TransitionLayer(texture, range, layer, state, states0, log0);
      }
      ProgressDone(states0, log0, textureStates, textureLog, texture, range, state);
    }

    /** The inner loop over the mips of one layer. */
    method TransitionLayer(texture: Texture, range: SubresourceRange, layer: nat, state: ResourceState,
                           ghost states0: TextureStates, ghost log0: seq<TextureBarrier>)
      requires TexturesReplay(textureStates, textureLog) && IsSuffix(textureBarriers, textureLog) && Expanded(texture)
      requires range.layer <= layer < texture.layerCount && range.mip < texture.mipCount
      requires range.mip + range.mipCount <= texture.mipCount
      requires AllSized(states0) && AllSized(textureStates)
      requires Progress(states0, log0, textureStates, textureLog, texture, range, layer, range.mip, state)
      modifies this`textureStates, this`textureBarriers, this`textureLog
      ensures TexturesReplay(textureStates, textureLog) && AllSized(textureStates) && Expanded(texture)
      ensures IsSuffix(textureBarriers, textureLog)
      ensures textureBarriers
           == old(textureBarriers) + LayerBarriers(states0, texture, range, layer, texture.mipCount, state)
      ensures textureStates[texture].state == old(textureStates)[texture].state
      ensures Progress(states0, log0, textureStates, textureLog, texture, range, layer + 1, range.mip, state)
    {
      hide TexturesReplay, StateOf, CountCovers, IsSuffix, AllSized, Sized, Progress, After, OthersKept,
           PartBarrier, LayerBarriers, SetBy;
      SetByRange(texture, range, layer);
      LayerBefore(states0, texture, range, layer, range.mip, state);
      for mip := range.mip to range.mip + range.mipCount
        invariant TexturesReplay(textureStates, textureLog) && AllSized(textureStates) && Expanded(texture)
        invariant IsSuffix(textureBarriers, textureLog)
        invariant textureBarriers == old(textureBarriers) + LayerBarriers(states0, texture, range, layer, mip, state)
        invariant textureStates[texture].state == old(textureStates)[texture].state
        invariant Progress(states0, log0, textureStates, textureLog, texture, range, layer, mip, state)
      {
        ghost var states1, log1 := textureStates, textureLog;
        LayerSnoc(states0, texture, range, layer, mip, state);
        PartAhead(states0, log0, states1, log1, texture, range, layer, mip, state);
        TransitionSubresource(texture, layer, mip, state);
        ProgressStep(states0, log0, states1, log1, textureStates, textureLog, texture, range, layer, mip, state);
      }
      ProgressRow(states0, log0, textureStates, textureLog, texture, range, layer, state);
      LayerBehind(states0, texture, range, layer, range.mip + range.mipCount, texture.mipCount, state);
    }

    /** Folds the vector back into one state if all its entries agree. */
    method Compress(texture: Texture)
      requires TexturesReplay(textureStates, textureLog) && Expanded(texture)
      requires textureStates[texture].state == Undefined
      modifies this`textureStates
      ensures TexturesReplay(textureStates, textureLog) && AllSized(textureStates)
      ensures OthersKept(old(textureStates), textureStates, texture)
      ensures Canonical(textureStates[texture], texture)
      ensures forall t: Texture, l: nat, m: nat :: InTexture(t, l, m) ==>
                StateOf(textureStates, t, l, m) == StateOf(old(textureStates), t, l, m)
    {
      var states := textureStates[texture].subresourceStates;
      var commonState := states[0];
      var allEqual := true;
      for i := 0 to |states|
        invariant allEqual && forall j :: 0 <= j < i ==> states[j] == commonState
      {
        if states[i] != commonState {
          allEqual := false;
          break;
        }
      }
      if allEqual {
        textureStates := textureStates[texture := TextureState(commonState, [])];
        FoldEntry(old(textureStates), textureStates, texture, commonState);
      }
    }

    ghost predicate BufferAtDefault(b: Buffer)
      reads this
    {
      b in bufferStates && bufferStates[b] == b.defaultState
    }

    ghost predicate TextureAtDefault(t: Texture)
      reads this
    {
      t in textureStates && textureStates[t] == TextureState(t.defaultState, [])
    }

    ghost predicate AllAtDefault()
      reads this
    {
      && (forall b :: b in bufferStates ==> BufferAtDefault(b))
      && (forall t :: t in textureStates ==> TextureAtDefault(t))
    }

    /** Descriptors are fixed up when a texture is created, so that no default state is Undefined. */
    ghost predicate DefaultsFixedUp()
      reads this
    {
      forall t :: t in textureStates ==> t.defaultState != Undefined
    }

    /**
     requireDefaultStates, with the tables in any order: every tracked resource is back in its default state, and
     if all were there already nothing happens, so that a second call emits no barrier.
     */
    method RequireDefaultStates(buffers: seq<Buffer>, textures: seq<Texture>)
      requires Valid() && DefaultsFixedUp()
      requires forall b :: b in buffers <==> b in bufferStates
      requires forall t :: t in textures <==> t in textureStates
      requires Sequences.NoDuplicates(buffers)
      requires Sequences.NoDuplicates(textures)
      modifies this
      ensures Valid() && AllAtDefault()
      ensures bufferBarriers == old(bufferBarriers) + BufferDefaults(old(bufferStates), buffers)
      ensures AllSized(old(textureStates))
              && textureBarriers == old(textureBarriers) + TextureDefaults(old(textureStates), textures)
      ensures bufferStates.Keys == old(bufferStates).Keys && textureStates.Keys == old(textureStates).Keys
      ensures old(AllAtDefault()) ==> unchanged(this)
    {
      DefaultBuffers(buffers);
      DefaultTextures(textures);
    }

    method DefaultBuffers(buffers: seq<Buffer>)
      requires Valid() && (forall b :: b in buffers <==> b in bufferStates) && Sequences.NoDuplicates(buffers)
      modifies this
      ensures Valid() && textureStates == old(textureStates) && textureBarriers == old(textureBarriers)
      ensures bufferStates.Keys == old(bufferStates).Keys && forall b :: b in bufferStates ==> BufferAtDefault(b)
      ensures bufferBarriers == old(bufferBarriers) + BufferDefaults(old(bufferStates), buffers)
      ensures old(AllAtDefault()) ==> unchanged(this)
    {
      hide Sequences.NoDuplicates, TexturesReplay, BuffersReplay, AllCanonical, IsSuffix, OnlyDeviceLocal;
      for i := 0 to |buffers|
        invariant Valid() && textureStates == old(textureStates) && textureBarriers == old(textureBarriers)
        invariant forall b :: b in bufferStates <==> b in old(bufferStates)
        invariant forall j :: 0 <= j < i ==> BufferAtDefault(buffers[j])
        invariant old(AllAtDefault()) ==> unchanged(this)
        invariant bufferBarriers == old(bufferBarriers) + BufferDefaults(old(bufferStates), buffers[..i])
        invariant forall j :: i <= j < |buffers| ==>
                    BufferStateOf(bufferStates, buffers[j]) == BufferStateOf(old(bufferStates), buffers[j])
      {
        assert buffers[..i + 1][..i] == buffers[..i];
        DistinctAt(buffers, i);
        DefaultBuffer(buffers[i]);
      }
      assert buffers[..|buffers|] == buffers;
    }

    method DefaultBuffer(buffer: Buffer)
      requires Valid() && buffer in bufferStates
      modifies this
      ensures Valid() && textureStates == old(textureStates) && textureBarriers == old(textureBarriers)
      ensures bufferStates == old(bufferStates)[buffer := buffer.defaultState]
      ensures old(BufferAtDefault(buffer)) ==> unchanged(this)
      ensures bufferBarriers == old(bufferBarriers) + BufferDefault(old(bufferStates), buffer)
    {
      DeviceLocalBuffer(buffer);
      hide TexturesReplay, BuffersReplay, AllCanonical, IsSuffix, OnlyDeviceLocal;
      if bufferStates[buffer] != buffer.defaultState {
        SetBufferState(buffer, buffer.defaultState);
      } else {
        Rewrite(bufferStates, buffer);
      }
    }

    lemma DeviceLocalBuffer(b: Buffer)
      requires Valid() && b in bufferStates
      ensures b.deviceLocal
    {
    }

    lemma DeviceLocalTexture(t: Texture)
      requires Valid() && t in textureStates
      ensures t.deviceLocal
    {
    }

    method DefaultTextures(textures: seq<Texture>)
      requires Valid() && DefaultsFixedUp() && forall t :: t in textures <==> t in textureStates
      requires Sequences.NoDuplicates(textures)
      modifies this
      ensures AllSized(old(textureStates))
              && textureBarriers == old(textureBarriers) + TextureDefaults(old(textureStates), textures)
      ensures Valid() && bufferStates == old(bufferStates) && bufferBarriers == old(bufferBarriers)
      ensures bufferLog == old(bufferLog)
      ensures textureStates.Keys == old(textureStates).Keys && forall t :: t in textureStates ==> TextureAtDefault(t)
      ensures old(AllAtDefault()) ==> unchanged(this)
    {
      hide TexturesReplay, BuffersReplay, AllCanonical, IsSuffix, OnlyDeviceLocal, TextureDefault, AllSized,
           Sequences.NoDuplicates, TextureDefaults;
      TrackedSizes();
      NoDefaults(textureStates, textures[..0]);
      assert forall j :: 0 <= j < |textures| ==> textures[j] in textures;
      for i := 0 to |textures|
        invariant Valid() && bufferStates == old(bufferStates) && bufferBarriers == old(bufferBarriers)
        invariant bufferLog == old(bufferLog)
        invariant forall t :: t in textureStates <==> t in old(textureStates)
        invariant forall j :: 0 <= j < i ==> TextureAtDefault(textures[j])
        invariant old(AllAtDefault()) ==> unchanged(this)
        invariant textureBarriers == old(textureBarriers) + TextureDefaults(old(textureStates), textures[..i])
        invariant forall j :: i <= j < |textures| ==> textureStates[textures[j]] == old(textureStates)[textures[j]]
      {
        DefaultsSnoc(old(textureStates), textures, i);
        TrackedSizes();
        SameEntry(old(textureStates), textureStates, textures[i]);
        DistinctAt(textures, i);
        DefaultTexture(textures[i]);
      }
      assert textures[..|textures|] == textures;
    }

    method DefaultTexture(texture: Texture)
      requires Valid() && texture in textureStates && texture.defaultState != Undefined
      modifies this
      ensures Valid() && bufferStates == old(bufferStates) && bufferBarriers == old(bufferBarriers)
      ensures bufferLog == old(bufferLog)
      ensures OthersKept(old(textureStates), textureStates, texture) && TextureAtDefault(texture)
      ensures old(TextureAtDefault(texture)) ==> unchanged(this)
      ensures AllSized(old(textureStates))
              && textureBarriers == old(textureBarriers) + TextureDefault(old(textureStates), texture)
    {
      DeviceLocalTexture(texture);
      assert Canonical(textureStates[texture], texture);
      if textureStates[texture].state != texture.defaultState {
        SetTextureState(texture, ENTIRE_TEXTURE, texture.defaultState);
        BackToDefault(old(textureStates), old(textureLog), textureStates, textureLog, texture);
      }
    }

    /** clearBarriers hands the barriers over; the full log and the states stay. */
    method ClearBarriers()
      requires Valid()
      modifies this`bufferBarriers, this`textureBarriers
      ensures Valid() && bufferBarriers == [] && textureBarriers == []
    {
      bufferBarriers, textureBarriers := [], [];
    }

    /** clear forgets everything, so every resource is in its default state again. */
    method Clear()
      modifies this
      ensures Valid() && bufferStates == map[] && textureStates == map[]
      ensures bufferBarriers == [] && textureBarriers == []
    {
      bufferStates, textureStates := map[], map[];
      bufferBarriers, textureBarriers := [], [];
      bufferLog, textureLog := [], [];
    }

    /** Makes sure a texture has an entry, which says its default state until it is changed. */
    method TrackTexture(texture: Texture)
      requires TexturesReplay(textureStates, textureLog) && AllCanonical(textureStates)
      modifies this`textureStates
      ensures TexturesReplay(textureStates, textureLog) && AllCanonical(textureStates) && AllSized(textureStates)
      ensures texture in textureStates && OthersKept(old(textureStates), textureStates, texture)
      ensures texture in old(textureStates) ==> textureStates == old(textureStates)
      ensures texture !in old(textureStates) ==> textureStates[texture] == TextureState(texture.defaultState, [])
      ensures forall t: Texture, l: nat, m: nat :: InTexture(t, l, m) ==>
                StateOf(textureStates, t, l, m) == StateOf(old(textureStates), t, l, m)
    {
      if texture !in textureStates {
        textureStates := textureStates[texture := TextureState(texture.defaultState, [])];
        NewEntry(old(textureStates), textureStates, texture);
      }
    }

    /** Spreads a single texture state over a full vector. */
    method Expand(texture: Texture)
      requires TexturesReplay(textureStates, textureLog) && texture in textureStates
      requires Canonical(textureStates[texture], texture)
      modifies this`textureStates
      ensures TexturesReplay(textureStates, textureLog) && AllSized(textureStates) && Expanded(texture)
      ensures textureStates[texture].state == Undefined && OthersKept(old(textureStates), textureStates, texture)
      ensures forall t: Texture, l: nat, m: nat :: InTexture(t, l, m) ==>
                StateOf(textureStates, t, l, m) == StateOf(old(textureStates), t, l, m)
    {
      if textureStates[texture].subresourceStates == [] {
        var state := textureStates[texture].state;
        Arithmetic.MulMono(texture.mipCount, 1, texture.layerCount);
        textureStates := textureStates[texture := TextureState(Undefined, seq(SubresourceCount(texture), _ => state))];
        SpreadEntry(old(textureStates), textureStates, texture, state);
      }
    }

    ghost predicate Expanded(t: Texture)
      reads this
    {
      t in textureStates && textureStates[t].subresourceStates != [] && Sized(textureStates[t], t)
    }
  }

  /** Only the entry of one texture differs. */
  predicate OthersKept(before: TextureStates, after: TextureStates, t: Texture) {
    && after.Keys == before.Keys + {t}
    && forall u :: u in before && u != t ==> after[u] == before[u]
  }

  /** What happened to one subresource: set to the state with one barrier if needed, or left alone. */
  ghost predicate After(states: TextureStates, log: seq<TextureBarrier>, states': TextureStates,
                        log': seq<TextureBarrier>, t: Texture, layer: nat, mip: nat, set_: bool, state: ResourceState)
    requires AllSized(states) && AllSized(states') && InTexture(t, layer, mip)
  {
    && StateOf(states', t, layer, mip) == (if set_ then state else StateOf(states, t, layer, mip))
    && CountCovers(log', t, layer, mip) == CountCovers(log, t, layer, mip)
         + if set_ && NeedsBarrier(StateOf(states, t, layer, mip), state) then 1 else 0
  }

  lemma BarrierTellsTruth(states: TextureStates, log: seq<TextureBarrier>, b: TextureBarrier)
    requires TexturesReplay(states, log) && !b.entireTexture && InTexture(b.texture, b.layer, b.mip)
    requires b.before == StateOf(states, b.texture, b.layer, b.mip) && NeedsBarrier(b.before, b.after)
    ensures HonestAfter(log, b)
  {
  }

  lemma EntireTruth(states: TextureStates, log: seq<TextureBarrier>, b: TextureBarrier)
    requires TexturesReplay(states, log) && b.entireTexture && b.texture in states
    requires states[b.texture] == TextureState(b.before, []) && NeedsBarrier(b.before, b.after)
    ensures HonestAfter(log, b)
  {
  }

  /** The entry of an expanded texture's vector at a subresource's index is the state of the subresource. */
  lemma EntryState(states: TextureStates, log: seq<TextureBarrier>, t: Texture, layer: nat, mip: nat)
    requires TexturesReplay(states, log) && t in states && states[t].subresourceStates != [] && InTexture(t, layer, mip)
    ensures AllSized(states) && Honest(log)
    ensures Index(t, layer, mip) < |states[t].subresourceStates| == SubresourceCount(t)
    ensures states[t].subresourceStates[Index(t, layer, mip)] == StateOf(states, t, layer, mip)
  {
    IndexInBounds(t, layer, mip);
  }

  lemma EntireStep(states: TextureStates, log: seq<TextureBarrier>, states': TextureStates, log': seq<TextureBarrier>,
                   t: Texture, state: ResourceState)
    requires AllSized(states) && AllSized(states') && t in states && states[t].subresourceStates == []
    requires NeedsBarrier(states[t].state, state)
    requires forall l: nat, m: nat :: InTexture(t, l, m) ==>
      && StateOf(states', t, l, m) == state
      && CountCovers(log', t, l, m) == CountCovers(log, t, l, m) + 1
    ensures forall l: nat, m: nat :: InTexture(t, l, m) ==> After(states, log, states', log', t, l, m, true, state)
  {
    hide CountCovers, AllSized;
  }

  lemma EntireKept(states: TextureStates, log: seq<TextureBarrier>, t: Texture, state: ResourceState)
    requires AllSized(states) && t in states && states[t] == TextureState(state, []) && state != UnorderedAccess
    ensures forall l: nat, m: nat :: InTexture(t, l, m) ==> After(states, log, states, log, t, l, m, true, state)
  {
    hide CountCovers, AllSized;
  }

  lemma EntireSet(states: TextureStates, states': TextureStates, t: Texture, state: ResourceState)
    requires AllSized(states) && t in states && states[t].subresourceStates == []
    requires states' == states[t := TextureState(state, [])]
    ensures AllSized(states') && OthersKept(states, states', t) && Canonical(states'[t], t)
    ensures forall u: Texture, l: nat, m: nat :: InTexture(u, l, m) ==>
              StateOf(states', u, l, m) == if u == t then state else StateOf(states, u, l, m)
  {
  }

  /** Overwriting one vector entry changes exactly one subresource. */
  lemma SubresourceSet(states: TextureStates, states': TextureStates, t: Texture, layer: nat, mip: nat,
                       state: ResourceState)
    requires AllSized(states) && t in states && states[t].subresourceStates != [] && InTexture(t, layer, mip)
    requires Index(t, layer, mip) < SubresourceCount(t)
    requires states' == states[t := states[t].(subresourceStates :=
                                                 states[t].subresourceStates[Index(t, layer, mip) := state])]
    ensures AllSized(states') && OthersKept(states, states', t)
    ensures forall u: Texture, l: nat, m: nat :: InTexture(u, l, m) ==>
              StateOf(states', u, l, m) == if u == t && l == layer && m == mip then state else StateOf(states, u, l, m)
  {
    forall u: Texture, l: nat, m: nat | InTexture(u, l, m)
      ensures StateOf(states', u, l, m) == if u == t && l == layer && m == mip then state else StateOf(states, u, l, m)
    {
      IndexInBounds(u, l, m);
      if u == t && Index(t, l, m) == Index(t, layer, mip) {
        IndexInjective(t, l, m, layer, mip);
      }
    }
  }

  /** A barrier and the matching change of the tracked state keep log and state in step. */
  lemma StepReplays(states: TextureStates, log: seq<TextureBarrier>, states': TextureStates,
                    log': seq<TextureBarrier>, b: TextureBarrier)
    requires TexturesReplay(states, log) && AllSized(states') && Honest(log')
    requires forall u: Texture, l: nat, m: nat :: InTexture(u, l, m) ==>
               && Replay(log', u, l, m) == (if Covers(b, u, l, m) then b.after else Replay(log, u, l, m))
               && StateOf(states', u, l, m) == (if Covers(b, u, l, m) then b.after else StateOf(states, u, l, m))
    ensures TexturesReplay(states', log')
  {
  }

  /** A subresource that needs a barrier is set with exactly one. */
  lemma AfterStep(states: TextureStates, log: seq<TextureBarrier>, states': TextureStates, log': seq<TextureBarrier>,
                  t: Texture, layer: nat, mip: nat, state: ResourceState)
    requires AllSized(states) && AllSized(states') && InTexture(t, layer, mip)
    requires NeedsBarrier(StateOf(states, t, layer, mip), state)
    requires forall l: nat, m: nat :: InTexture(t, l, m) ==>
      StateOf(states', t, l, m) == if l == layer && m == mip then state else StateOf(states, t, l, m)
    requires forall l: nat, m: nat :: InTexture(t, l, m) ==>
      CountCovers(log', t, l, m) == CountCovers(log, t, l, m) + if l == layer && m == mip then 1 else 0
    ensures forall l: nat, m: nat :: InTexture(t, l, m) ==>
      After(states, log, states', log', t, l, m, l == layer && m == mip, state)
  {
    hide StateOf, CountCovers, AllSized;
  }

  /** A subresource that needs no barrier is in the state already. */
  lemma AfterNothing(states: TextureStates, log: seq<TextureBarrier>, t: Texture, layer: nat, mip: nat,
                     state: ResourceState)
    requires AllSized(states) && InTexture(t, layer, mip) && t in states
    requires !NeedsBarrier(StateOf(states, t, layer, mip), state)
    ensures OthersKept(states, states, t)
    ensures forall l: nat, m: nat :: InTexture(t, l, m) ==>
      After(states, log, states, log, t, l, m, l == layer && m == mip, state)
  {
    hide StateOf, CountCovers, AllSized;
  }

  lemma KeptCanonical(states: TextureStates, states': TextureStates, t: Texture)
    requires AllCanonical(states) && t in states && OthersKept(states, states', t) && Canonical(states'[t], t)
    ensures AllCanonical(states')
  {
    forall u | u in states' ensures Canonical(states'[u], u) {
      assert u != t ==> u in states;
    }
  }

  lemma NewEntry(states: TextureStates, states': TextureStates, t: Texture)
    requires AllSized(states) && t !in states && states' == states[t := TextureState(t.defaultState, [])]
    ensures AllSized(states') && OthersKept(states, states', t)
    ensures forall u: Texture, l: nat, m: nat :: InTexture(u, l, m) ==>
              StateOf(states', u, l, m) == StateOf(states, u, l, m)
  {
  }

  lemma SpreadEntry(states: TextureStates, states': TextureStates, t: Texture, state: ResourceState)
    requires AllSized(states) && t in states && states[t] == TextureState(state, [])
    requires states' == states[t := TextureState(Undefined, seq(SubresourceCount(t), _ => state))]
    ensures AllSized(states') && OthersKept(states, states', t)
    ensures forall u: Texture, l: nat, m: nat :: InTexture(u, l, m) ==>
              StateOf(states', u, l, m) == StateOf(states, u, l, m)
  {
    forall u: Texture, l: nat, m: nat | InTexture(u, l, m)
      ensures StateOf(states', u, l, m) == StateOf(states, u, l, m)
    {
      IndexInBounds(u, l, m);
    }
  }

  lemma FoldEntry(states: TextureStates, states': TextureStates, t: Texture, state: ResourceState)
    requires AllSized(states) && t in states && states[t].subresourceStates != []
    requires forall i :: 0 <= i < |states[t].subresourceStates| ==> states[t].subresourceStates[i] == state
    requires states' == states[t := TextureState(state, [])]
    ensures AllSized(states') && OthersKept(states, states', t)
    ensures forall u: Texture, l: nat, m: nat :: InTexture(u, l, m) ==>
              StateOf(states', u, l, m) == StateOf(states, u, l, m)
  {
    forall u: Texture, l: nat, m: nat | InTexture(u, l, m)
      ensures StateOf(states', u, l, m) == StateOf(states, u, l, m)
    {
      IndexInBounds(u, l, m);
      if u in states && u != t {
        assert states'[u] == states[u];
      }
    }
  }

  lemma AllVisited(states: TextureStates, log: seq<TextureBarrier>, states': TextureStates,
                   log': seq<TextureBarrier>, t: Texture, range: SubresourceRange, state: ResourceState)
    requires AllSized(states) && AllSized(states') && IsEntireTexture(t, range)
    requires forall l: nat, m: nat :: InTexture(t, l, m) ==> After(states, log, states', log', t, l, m, true, state)
    ensures forall l: nat, m: nat :: InTexture(t, l, m) ==>
              After(states, log, states', log', t, l, m, Visited(t, range, l, m), state)
  {
  }

  /** Entering a texture into the table first makes no difference. */
  lemma TrackedFirst(states: TextureStates, tracked: TextureStates, log: seq<TextureBarrier>, states': TextureStates,
                     log': seq<TextureBarrier>, t: Texture, range: SubresourceRange, state: ResourceState)
    requires AllSized(states) && AllSized(tracked) && AllSized(states')
    requires OthersKept(states, tracked, t) && OthersKept(tracked, states', t)
    requires forall l: nat, m: nat :: InTexture(t, l, m) ==> StateOf(tracked, t, l, m) == StateOf(states, t, l, m)
    requires forall l: nat, m: nat :: InTexture(t, l, m) ==>
               After(tracked, log, states', log', t, l, m, Visited(t, Resolve(t, range), l, m), state)
    ensures OthersKept(states, states', t)
    ensures forall l: nat, m: nat :: InTexture(t, l, m) ==>
              After(states, log, states', log', t, l, m, SetBy(t, range, l, m), state)
  {
    hide StateOf, CountCovers, AllSized, SetBy, Visited, Resolve;
    forall l: nat, m: nat | InTexture(t, l, m)
      ensures After(states, log, states', log', t, l, m, SetBy(t, range, l, m), state)
    {
      SetByResolved(t, range, l, m);
    }
  }

  /** The barriers in terms of the table before the texture was entered and of the caller's range. */
  lemma TrackedBarriers(states: TextureStates, tracked: TextureStates, t: Texture, range: SubresourceRange,
                        state: ResourceState)
    requires AllSized(states) && AllSized(tracked) && t in tracked && (t in states ==> tracked == states)
    requires t !in states ==> tracked[t].subresourceStates == []
    requires forall l: nat, m: nat :: InTexture(t, l, m) ==> StateOf(tracked, t, l, m) == StateOf(states, t, l, m)
    ensures BarriersOf(states, t, range, state)
         == if IsEntireTexture(t, Resolve(t, range)) && tracked[t].subresourceStates == [] then
              (if NeedsBarrier(tracked[t].state, state)
               then [TextureBarrier(t, true, 0, 0, tracked[t].state, state)] else [])
            else RangeBarriers(tracked, t, Resolve(t, range), t.layerCount, state)
  {
    hide RangeBarriers, Resolve, SetBy, NamesAll, IsEntireTexture;
    EntireIsAll(t, range);
    assert InTexture(t, 0, 0);
    SameStates(states, tracked, t, range, t.layerCount, state);
    forall l: nat, m: nat ensures SetBy(t, Resolve(t, range), l, m) <==> SetBy(t, range, l, m) {
      OutsideNotSet(t, range, l, m);
      OutsideNotSet(t, Resolve(t, range), l, m);
      if InTexture(t, l, m) {
        SetByResolved(t, range, l, m);
      }
    }
    SameBarriers(tracked, t, Resolve(t, range), range, t.layerCount, state);
  }

  lemma OutsideNotSet(t: Texture, range: SubresourceRange, l: nat, m: nat)
    ensures SetBy(t, range, l, m) ==> InTexture(t, l, m)
  {
  }

  lemma BackToDefault(states: TextureStates, log: seq<TextureBarrier>, states': TextureStates,
                      log': seq<TextureBarrier>, t: Texture)
    requires AllSized(states) && AllSized(states') && t in states' && Canonical(states'[t], t)
    requires forall l: nat, m: nat :: InTexture(t, l, m) ==>
               After(states, log, states', log', t, l, m, SetBy(t, ENTIRE_TEXTURE, l, m), t.defaultState)
    ensures states'[t] == TextureState(t.defaultState, [])
  {
    forall l: nat, m: nat | InTexture(t, l, m) ensures StateIn(states'[t], t, l, m) == t.defaultState {
      assert After(states, log, states', log', t, l, m, SetBy(t, ENTIRE_TEXTURE, l, m), t.defaultState);
    }
    SameEverywhere(states'[t], t.defaultState, t);
  }

  // ---------- Progress of the nested loops ----------

  predicate Before(l: nat, m: nat, layer: nat, mip: nat) {
    l < layer || (l == layer && m < mip)
  }

  /** The visited subresources before (layer, mip) have been transitioned, nothing else has changed. */
  ghost predicate Progress(states0: TextureStates, log0: seq<TextureBarrier>, states: TextureStates,
                           log: seq<TextureBarrier>, t: Texture, range: SubresourceRange, layer: nat, mip: nat,
                           state: ResourceState)
    requires AllSized(states0) && AllSized(states)
  {
    && OthersKept(states0, states, t)
    && forall l: nat, m: nat :: InTexture(t, l, m) ==>
         After(states0, log0, states, log, t, l, m, Visited(t, range, l, m) && Before(l, m, layer, mip), state)
  }

  lemma ProgressStart(states: TextureStates, log: seq<TextureBarrier>, t: Texture, range: SubresourceRange,
                      state: ResourceState)
    requires AllSized(states) && t in states
    ensures Progress(states, log, states, log, t, range, range.layer, range.mip, state)
  {
  }

  lemma ProgressStep(states0: TextureStates, log0: seq<TextureBarrier>, states1: TextureStates,
                     log1: seq<TextureBarrier>, states2: TextureStates, log2: seq<TextureBarrier>, t: Texture,
                     range: SubresourceRange, layer: nat, mip: nat, state: ResourceState)
    requires AllSized(states0) && AllSized(states1) && AllSized(states2) && t in states1
    requires Progress(states0, log0, states1, log1, t, range, layer, mip, state)
    requires Visited(t, range, layer, mip) && OthersKept(states1, states2, t)
    requires forall l: nat, m: nat :: InTexture(t, l, m) ==>
               After(states1, log1, states2, log2, t, l, m, l == layer && m == mip, state)
    ensures Progress(states0, log0, states2, log2, t, range, layer, mip + 1, state)
  {
    hide StateOf, CountCovers, AllSized, After;
    forall l: nat, m: nat | InTexture(t, l, m)
      ensures After(states0, log0, states2, log2, t, l, m,
                    Visited(t, range, l, m) && Before(l, m, layer, mip + 1), state)
    {
      var earlier, now := Visited(t, range, l, m) && Before(l, m, layer, mip), l == layer && m == mip;
      AfterBoth(states0, log0, states1, log1, states2, log2, t, l, m, earlier, now, state);
      assert (Visited(t, range, l, m) && Before(l, m, layer, mip + 1)) == (earlier || now);
    }
  }

  /** What the loops have not reached is as it was, and so is its barrier. */
  lemma PartAhead(states0: TextureStates, log0: seq<TextureBarrier>, states: TextureStates, log: seq<TextureBarrier>,
                  t: Texture, range: SubresourceRange, layer: nat, mip: nat, state: ResourceState)
    requires AllSized(states0) && AllSized(states) && InTexture(t, layer, mip)
    requires Progress(states0, log0, states, log, t, range, layer, mip, state)
    ensures PartBarrier(states, t, layer, mip, state) == PartBarrier(states0, t, layer, mip, state)
  {
    hide StateOf, CountCovers, AllSized;
    assert After(states0, log0, states, log, t, layer, mip,
                 Visited(t, range, layer, mip) && Before(layer, mip, layer, mip), state);
  }

  /** What two steps do to a subresource that at most one of them sets. */
  lemma AfterBoth(states0: TextureStates, log0: seq<TextureBarrier>, states1: TextureStates, log1: seq<TextureBarrier>,
                  states2: TextureStates, log2: seq<TextureBarrier>, t: Texture, l: nat, m: nat, first: bool,
                  second: bool, state: ResourceState)
    requires AllSized(states0) && AllSized(states1) && AllSized(states2) && InTexture(t, l, m) && !(first && second)
    requires After(states0, log0, states1, log1, t, l, m, first, state)
    requires After(states1, log1, states2, log2, t, l, m, second, state)
    ensures After(states0, log0, states2, log2, t, l, m, first || second, state)
  {
    hide StateOf, CountCovers, AllSized;
  }

  lemma ProgressRow(states0: TextureStates, log0: seq<TextureBarrier>, states: TextureStates,
                    log: seq<TextureBarrier>, t: Texture, range: SubresourceRange, layer: nat, state: ResourceState)
    requires AllSized(states0) && AllSized(states)
    requires Progress(states0, log0, states, log, t, range, layer, range.mip + range.mipCount, state)
    ensures Progress(states0, log0, states, log, t, range, layer + 1, range.mip, state)
  {
    hide StateOf, CountCovers, AllSized;
    forall l: nat, m: nat | InTexture(t, l, m)
      ensures After(states0, log0, states, log, t, l, m,
                    Visited(t, range, l, m) && Before(l, m, layer + 1, range.mip), state)
    {
      assert After(states0, log0, states, log, t, l, m,
                   Visited(t, range, l, m) && Before(l, m, layer, range.mip + range.mipCount), state);
    }
  }

  lemma ProgressDone(states0: TextureStates, log0: seq<TextureBarrier>, states: TextureStates,
                     log: seq<TextureBarrier>, t: Texture, range: SubresourceRange, state: ResourceState)
    requires AllSized(states0) && AllSized(states)
    requires Progress(states0, log0, states, log, t, range, t.layerCount, range.mip, state)
    ensures OthersKept(states0, states, t)
    ensures forall l: nat, m: nat :: InTexture(t, l, m) ==>
              After(states0, log0, states, log, t, l, m, Visited(t, range, l, m), state)
  {
    hide StateOf, CountCovers, AllSized;
    forall l: nat, m: nat | InTexture(t, l, m)
      ensures After(states0, log0, states, log, t, l, m, Visited(t, range, l, m), state)
    {
      assert After(states0, log0, states, log, t, l, m,
                   Visited(t, range, l, m) && Before(l, m, t.layerCount, range.mip), state);
    }
  }
}
