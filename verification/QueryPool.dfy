/** Query slots packed into 64 bits, marks over ranges of slots, and the coalescing of recorded query writes. */
module QueryPool {
  import Arithmetic
  import opened Wrappers

  datatype State = Reset | Pending | Resolved

  datatype Slot = Slot(state: State, id: nat)

  // ---------- One slot in 64 bits ----------

  const ID_LIMIT: nat := 0x4000_0000_0000_0000

  function StateCode(state: State): nat {
    match state
    case Reset => 0
    case Pending => 1
    case Resolved => 2
  }

  /** set: the state above the low 62 bits of the submission ID. */
  function Pack(state: State, id: nat): (packed: nat)
    ensures packed < 4 * ID_LIMIT
  {
    StateCode(state) * ID_LIMIT + id % ID_LIMIT
  }

  /** getState and getSubmissionID. */
  function Unpack(packed: nat): Slot {
    var code := packed / ID_LIMIT;
    Slot(if code == 0 then Reset else if code == 1 then Pending else Resolved, packed % ID_LIMIT)
  }

  /** A slot comes back as it was set, exactly if its ID fits 62 bits. */
  lemma PackBack(state: State, id: nat)
    ensures Unpack(Pack(state, id)) == Slot(state, id % ID_LIMIT)
    ensures Unpack(Pack(state, id)) == Slot(state, id) <==> id < 0x4000_0000_0000_0000
  {
  }

  // ---------- Marks as functions of the slots ----------

  /** isValidQueryRange for a pool of n slots. */
  predicate ValidRange(n: nat, index: nat, count: nat): (r: bool)
    ensures r <==> index + count <= n
  {
    if count == 0 then index <= n else index < n && count <= n - index
  }

  predicate Covers(index: nat, count: nat, i: nat) {
    index <= i < index + count
  }

  datatype Mark = ResetMark(index: nat, count: nat)
                | SubmitMark(index: nat, count: nat, id: nat)
                | CompleteMark(index: nat, count: nat, id: nat)

  function MarkSlot(slot: Slot, m: Mark): Slot {
    match m
    case ResetMark(_, _) => Slot(Reset, 0)
    case SubmitMark(_, _, id) => Slot(Pending, id)
    case CompleteMark(_, _, id) => if slot.state == Pending && slot.id <= id then Slot(Resolved, slot.id) else slot
  }

  /** A mark affects the slots of its range; an invalid range affects none. */
  function Apply(slots: seq<Slot>, m: Mark): (r: seq<Slot>)
    ensures |r| == |slots|
    ensures forall i :: 0 <= i < |slots| ==> r[i] == if Touches(|slots|, m, i) then MarkSlot(slots[i], m) else slots[i]
  {
    ApplyUpTo(slots, m, |slots|)
  }

  function ApplyUpTo(slots: seq<Slot>, m: Mark, n: nat): (r: seq<Slot>)
    requires n <= |slots|
    ensures |r| == |slots|
    ensures forall i :: 0 <= i < |slots| ==>
      r[i] == if i < n && Touches(|slots|, m, i) then MarkSlot(slots[i], m) else slots[i]
  {
    if n == 0 then slots
    else
      var r := ApplyUpTo(slots, m, n - 1);
      if Touches(|slots|, m, n - 1) then r[n - 1 := MarkSlot(slots[n - 1], m)] else r
  }

  predicate Touches(n: nat, m: Mark, i: nat) {
    ValidRange(n, m.index, m.count) && Covers(m.index, m.count, i)
  }

  function Run(slots: seq<Slot>, marks: seq<Mark>): (r: seq<Slot>)
    ensures |r| == |slots|
  {
    if marks == [] then slots else Apply(Run(slots, marks[..|marks| - 1]), marks[|marks| - 1])
  }

  // ---------- The history of one slot ----------

  /** The mark that last set the slot anew, by reset or submission; the number of marks if there is none. */
  function LastSet(n: nat, marks: seq<Mark>, i: nat): (j: nat)
    ensures j <= |marks|
    ensures j < |marks| ==> Touches(n, marks[j], i) && !marks[j].CompleteMark?
  {
    if marks == [] then 0
    else
      var k := |marks| - 1;
      if Touches(n, marks[k], i) && !marks[k].CompleteMark? then k
      else
        var j := LastSet(n, marks[..k], i);
        if j < k then j else |marks|
  }

  /** Some completion of the slot from mark j on reaches the ID. */
  predicate CompletedSince(n: nat, marks: seq<Mark>, i: nat, j: nat, id: nat) {
    exists k :: j <= k < |marks| && marks[k].CompleteMark? && Touches(n, marks[k], i) && id <= marks[k].id
  }

  /** What the history of marks says about a slot that started out reset. */
  function SlotByHistory(n: nat, marks: seq<Mark>, i: nat): Slot {
    var j := LastSet(n, marks, i);
    if j == |marks| || marks[j].ResetMark? then Slot(Reset, 0)
    else if CompletedSince(n, marks, i, j, marks[j].id) then Slot(Resolved, marks[j].id)
    else Slot(Pending, marks[j].id)
  }

  function AllReset(n: nat): (slots: seq<Slot>)
    ensures |slots| == n && forall i :: 0 <= i < n ==> slots[i] == Slot(Reset, 0)
  {
    if n == 0 then [] else AllReset(n - 1) + [Slot(Reset, 0)]
  }

  /**
   After any run of marks a slot is pending since its latest submission until a completion reaches that submission's
   ID, and reset if it was reset since.
   */
  lemma {:induction false} RunIsHistory(n: nat, marks: seq<Mark>, i: nat)
    requires i < n
    ensures Run(AllReset(n), marks)[i] == SlotByHistory(n, marks, i)
  {
    if marks != [] {
      var k := |marks| - 1;
      var init := marks[..k];
      RunIsHistory(n, init, i);
      var j, j' := LastSet(n, init, i), LastSet(n, marks, i);
      if j' < k && j < k && marks[j].SubmitMark? {
        HistoryMore(n, marks, i, j, marks[j].id);
      } else if j' == k {
        assert !CompletedSince(n, marks, i, k, if marks[k].ResetMark? then 0 else marks[k].id);
      }
    }
  }

  /** Whether a completion has reached the ID is known before the last mark or told by it. */
  lemma HistoryMore(n: nat, marks: seq<Mark>, i: nat, j: nat, id: nat)
    requires j < |marks| - 1
    ensures var k := |marks| - 1;
      CompletedSince(n, marks, i, j, id)
      <==> (CompletedSince(n, marks[..k], i, j, id)
           || (marks[k].CompleteMark? && Touches(n, marks[k], i) && id <= marks[k].id))
  {
    var k := |marks| - 1;
    if CompletedSince(n, marks[..k], i, j, id) {
      var l :| j <= l < k && marks[..k][l].CompleteMark? && Touches(n, marks[..k][l], i) && id <= marks[..k][l].id;
      assert marks[l] == marks[..k][l];
    }
    if CompletedSince(n, marks, i, j, id) {
      var l :| j <= l < |marks| && marks[l].CompleteMark? && Touches(n, marks[l], i) && id <= marks[l].id;
      assert l < k ==> marks[..k][l] == marks[l];
    }
  }

  // ---------- A range as a whole ----------

  /** The largest ID in a range. */
  function MaxId(slots: seq<Slot>): (m: nat)
    ensures forall i :: 0 <= i < |slots| ==> slots[i].id <= m
    ensures slots != [] ==> exists i :: 0 <= i < |slots| && slots[i].id == m
  {
    if slots == [] then 0
    else
      var rest := MaxId(slots[..|slots| - 1]);
      assert slots == slots[..|slots| - 1] + [slots[|slots| - 1]];
      if |slots| == 1 || slots[|slots| - 1].id > rest then slots[|slots| - 1].id else rest
  }

  /**
   What a range says: reset if any slot is, else pending if any is, else resolved, with the latest ID unless reset.
   */
  function RangeInfo(slots: seq<Slot>, index: nat, count: nat): Slot {
    if !ValidRange(|slots|, index, count) then Slot(Reset, 0)
    else if count == 0 then Slot(Resolved, 0)
    else
      var range := slots[index..index + count];
      if exists i :: 0 <= i < count && range[i].state == Reset then Slot(Reset, 0)
      else Slot(if exists i :: 0 <= i < count && range[i].state == Pending then Pending else Resolved, MaxId(range))
  }

  /** Completing a range up to the ID it reports resolves it, unless part of it is reset. */
  lemma CompletingResolves(slots: seq<Slot>, index: nat, count: nat)
    requires RangeInfo(slots, index, count).state != Reset
    ensures var info := RangeInfo(slots, index, count);
      RangeInfo(Apply(slots, CompleteMark(index, count, info.id)), index, count) == Slot(Resolved, info.id)
  {
    hide MaxId, Apply;
    var info := RangeInfo(slots, index, count);
    var after := Apply(slots, CompleteMark(index, count, info.id));
    if count > 0 {
      var range, range' := slots[index..index + count], after[index..index + count];
      forall i | 0 <= i < count ensures range'[i] == Slot(Resolved, range[i].id) {
        assert range[i] == slots[index + i] && range'[i] == after[index + i];
        assert Touches(|slots|, CompleteMark(index, count, info.id), index + i);
        assert range[i].state != Reset;
      }
      SameMaxId(range, range');
    }
  }

  lemma SameMaxId(a: seq<Slot>, b: seq<Slot>)
    requires |a| == |b| && forall i :: 0 <= i < |a| ==> a[i].id == b[i].id
    ensures MaxId(a) == MaxId(b)
  {
    if a != [] {
      var i :| 0 <= i < |a| && a[i].id == MaxId(a);
      var j :| 0 <= j < |b| && b[j].id == MaxId(b);
      assert b[i].id <= MaxId(b) && a[j].id <= MaxId(a);
    }
  }

  // ---------- The pool ----------

  datatype Result = Ok | InvalidArg

  class Pool {
    const count: nat
    const packed: array<nat>

    ghost predicate Valid()
      reads this, packed
    {
      packed.Length == count && forall i :: 0 <= i < count ==> packed[i] < 4 * ID_LIMIT
    }

    ghost function Slots(): (slots: seq<Slot>)
      reads this, packed
      ensures |slots| == packed.Length
    {
      seq(packed.Length, i requires 0 <= i < packed.Length reads packed => Unpack(packed[i]))
    }

    constructor (count: nat)
      ensures Valid() && this.count == count && fresh(packed) && Slots() == AllReset(count)
    {
      this.count := count;
      packed := new nat[count](_ => 0);
    }

    predicate IsValidQueryRange(index: nat, n: nat)
      ensures IsValidQueryRange(index, n) == ValidRange(count, index, n)
    {
      if n == 0 then index <= count else index < count && n <= count - index
    }

    method ResetRange(index: nat, n: nat) returns (result: Result)
      requires Valid()
      modifies packed
      ensures Valid() && result == if ValidRange(count, index, n) then Ok else InvalidArg
      ensures Slots() == Apply(old(Slots()), ResetMark(index, n))
    {
      if !IsValidQueryRange(index, n) {
        return InvalidArg;
      }
      for i := 0 to n
        invariant Valid()
        invariant forall k :: 0 <= k < count ==>
          packed[k] == if Covers(index, i, k) then Pack(Reset, 0) else old(packed[k])
      {
        packed[index + i] := Pack(Reset, 0);
      }
      return Ok;
    }

    method MarkQueryRangeSubmitted(index: nat, n: nat, id: nat)
      requires Valid() && id < ID_LIMIT
      modifies packed
      ensures Valid() && Slots() == Apply(old(Slots()), SubmitMark(index, n, id))
    {
      if !IsValidQueryRange(index, n) {
        return;
      }
      for i := 0 to n
        invariant Valid()
        invariant forall k :: 0 <= k < count ==>
          packed[k] == if Covers(index, i, k) then Pack(Pending, id) else old(packed[k])
      {
        packed[index + i] := Pack(Pending, id);
      }
      PackBack(Pending, id);
    }

    method MarkQueryRangeResolved(index: nat, n: nat, completedId: nat)
      requires Valid()
      modifies packed
      ensures Valid() && Slots() == Apply(old(Slots()), CompleteMark(index, n, completedId))
    {
      if !IsValidQueryRange(index, n) {
        return;
      }
      ghost var m := CompleteMark(index, n, completedId);
      for i := 0 to n
        invariant Valid()
        invariant forall k :: 0 <= k < count ==>
          Unpack(packed[k]) == if Covers(index, i, k) then MarkSlot(Unpack(old(packed[k])), m)
                               else Unpack(old(packed[k]))
        invariant forall k :: 0 <= k < count && !Covers(index, i, k) ==> packed[k] == old(packed[k])
      {
        var slot := Unpack(packed[index + i]);
        if slot.state == Pending && slot.id <= completedId {
          PackBack(Resolved, slot.id);
          packed[index + i] := Pack(Resolved, slot.id);
        }
      }
    }

    method GetQueryRangeInfo(index: nat, n: nat) returns (info: Slot)
      requires Valid()
      ensures info == RangeInfo(Slots(), index, n)
    {
      hide Pack, Unpack, MaxId;
      if !IsValidQueryRange(index, n) {
        return Slot(Reset, 0);
      }
      if n == 0 {
        return Slot(Resolved, 0);
      }
      ghost var range := Slots()[index..index + n];
      info := Slot(Reset, 0);
      for i := 0 to n
        invariant forall k :: 0 <= k < i ==> range[k].state != Reset && range[k].id <= info.id
        invariant info.id == 0 || exists k :: 0 <= k < i && range[k].id == info.id
        invariant info.state == if exists k :: 0 <= k < i && range[k].state == Pending then Pending else Reset
      {
        var slot := Unpack(packed[index + i]);
        assert range[i] == slot;
        if slot.state == Reset {
          return Slot(Reset, 0);
        }
        if slot.state == Pending {
          info := info.(state := Pending);
        }
        info := info.(id := Arithmetic.Max(info.id, slot.id));
      }
      if info.state != Pending {
        info := info.(state := Resolved);
      }
    }
  }

  // ---------- Coalescing of recorded writes ----------

  const WORD_LIMIT: nat := 0x1_0000_0000

  /** The source's indices and counts have 32 bits. */
  type Word = n: nat | n < WORD_LIMIT

  /** Addition in 32 bits. */
  function AddWords(a: Word, b: Word): Word {
    (a + b) % WORD_LIMIT
  }

  /** A recorded range of one pool. */
  datatype Write = Write(pool: nat, index: Word, count: Word)

  /** Submitting one recorded range, over the slots of all pools. */
  function SubmitWrite(pools: seq<seq<Slot>>, w: Write, id: nat): (r: seq<seq<Slot>>)
    ensures |r| == |pools| && forall p :: 0 <= p < |pools| ==> |r[p]| == |pools[p]|
  {
    if w.pool < |pools| then pools[w.pool := Apply(pools[w.pool], SubmitMark(w.index, w.count, id))] else pools
  }

  function SubmitWrites(pools: seq<seq<Slot>>, writes: seq<Write>, id: nat): (r: seq<seq<Slot>>)
    ensures |r| == |pools| && forall p :: 0 <= p < |pools| ==> |r[p]| == |pools[p]|
  {
    if writes == [] then pools
    else SubmitWrite(SubmitWrites(pools, writes[..|writes| - 1], id), writes[|writes| - 1], id)
  }

  predicate InRange(pools: seq<seq<Slot>>, w: Write) {
    w.pool < |pools| && w.count > 0 && w.index + w.count <= |pools[w.pool]| < WORD_LIMIT
  }

  /**
   Submitting two adjacent ranges as one is submitting each, for all slots, exactly if both lie in the pool or none of
   the two and the merged one does. All sums but those compared with n are in 32 bits.
   */
  lemma MergeExact(n: Word, index: Word, a: Word, b: Word, id: nat)
    requires a > 0 && b > 0
    ensures (forall slots: seq<Slot> :: |slots| == n ==> SameMerged(slots, index, a, b, id))
       <==> Mergeable(n, index, a, b)
  {
    hide Apply;
    if Mergeable(n, index, a, b) {
      forall slots: seq<Slot> | |slots| == n ensures SameMerged(slots, index, a, b, id) {
        MergedInRange(slots, index, a, b, id);
      }
    } else {
      NotMergeable(n, index, a, b, id);
    }
  }

  /** The whole lies in the pool, or it sticks out, and so do both parts as far as they cover a slot. */
  predicate Mergeable(n: Word, index: Word, a: Word, b: Word) {
    var second, whole := AddWords(index, a), AddWords(a, b);
    index + a + b <= n || (index + a > n && second + b > n && (whole == 0 || index + whole > n))
  }

  predicate SameMerged(slots: seq<Slot>, index: Word, a: Word, b: Word, id: nat) {
    Apply(slots, SubmitMark(index, AddWords(a, b), id))
    == Apply(Apply(slots, SubmitMark(index, a, id)), SubmitMark(AddWords(index, a), b, id))
  }

  lemma NotMergeable(n: Word, index: Word, a: Word, b: Word, id: nat)
    requires a > 0 && b > 0 && !Mergeable(n, index, a, b)
    ensures |AllReset(n)| == n && !SameMerged(AllReset(n), index, a, b, id)
  {
    hide Apply;
    var slots, second, whole := AllReset(n), AddWords(index, a), AddWords(a, b);
    var merged, first := Apply(slots, SubmitMark(index, whole, id)), Apply(slots, SubmitMark(index, a, id));
    var both := Apply(first, SubmitMark(second, b, id));
    if index + a <= n {
      // The merged range is dropped or, its count having wrapped, shorter than the first one.
      var last := index + a - 1;
      assert both[last] == first[last] == Slot(Pending, id) && merged[last] == Slot(Reset, 0);
    } else if second + b <= n {
      // The second range starts, its index having wrapped, before the merged one.
      assert both[second] == Slot(Pending, id) && merged[second] == Slot(Reset, 0);
    } else {
      assert merged[index] == Slot(Pending, id) && both[index] == first[index] == Slot(Reset, 0);
    }
  }

  /** A first range outside a pool of four slots: merged with the one at slot 0, it takes that one with it. */
  lemma WrapLosesWrite(id: nat)
    ensures var outside, inside := Write(0, 0xFFFF_FFFF, 1), Write(0, 0, 4);
      && Coalesced([outside], inside) == [Write(0, 0xFFFF_FFFF, 5)]
      && SubmitWrites([AllReset(4)], Coalesced([outside], inside), id)[0][0] == Slot(Reset, 0)
      && SubmitWrites([AllReset(4)], [outside, inside], id)[0][0] == Slot(Pending, id)
  {
    var outside, inside, merged := Write(0, 0xFFFF_FFFF, 1), Write(0, 0, 4), Write(0, 0xFFFF_FFFF, 5);
    SubmitSnoc([AllReset(4)], [], merged, id);
    SubmitSnoc([AllReset(4)], [], outside, id);
    SubmitSnoc([AllReset(4)], [outside], inside, id);
    assert [] + [merged] == [merged] && [] + [outside] == [outside] && [outside] + [inside] == [outside, inside];
  }

  /** Two ranges outside the pool, whose merged count wraps to one: together they mark a slot that neither marks. */
  lemma WrapAddsWrite(id: nat)
    ensures var wide, outside := Write(0, 0, 0xFFFF_FFFF), Write(0, 0xFFFF_FFFF, 2);
      && Coalesced([wide], outside) == [Write(0, 0, 1)]
      && SubmitWrites([AllReset(4)], Coalesced([wide], outside), id)[0][0] == Slot(Pending, id)
      && SubmitWrites([AllReset(4)], [wide, outside], id)[0][0] == Slot(Reset, 0)
  {
    var wide, outside, merged := Write(0, 0, 0xFFFF_FFFF), Write(0, 0xFFFF_FFFF, 2), Write(0, 0, 1);
    SubmitSnoc([AllReset(4)], [], merged, id);
    SubmitSnoc([AllReset(4)], [], wide, id);
    SubmitSnoc([AllReset(4)], [wide], outside, id);
    assert [] + [merged] == [merged] && [] + [wide] == [wide] && [wide] + [outside] == [wide, outside];
  }

  lemma MergedInRange(slots: seq<Slot>, index: Word, a: Word, b: Word, id: nat)
    requires a > 0 && b > 0 && |slots| < WORD_LIMIT && Mergeable(|slots|, index, a, b)
    ensures SameMerged(slots, index, a, b, id)
  {
    hide Apply;
    var n, second, whole := |slots|, AddWords(index, a), AddWords(a, b);
    var merged, first := Apply(slots, SubmitMark(index, whole, id)), Apply(slots, SubmitMark(index, a, id));
    var both := Apply(first, SubmitMark(second, b, id));
    forall i | 0 <= i < n ensures merged[i] == both[i] {
      if index + a + b <= n {
        assert Touches(n, SubmitMark(index, whole, id), i)
          <==> Touches(n, SubmitMark(index, a, id), i) || Touches(n, SubmitMark(second, b, id), i);
      }
    }
  }

  /** What two recorded writes do to the pools, they do as one coalesced write. */
  lemma MergedWrites(pools: seq<seq<Slot>>, w: Write, count: Word, id: nat)
    requires InRange(pools, w) && count > 0 && w.index + w.count + count <= |pools[w.pool]|
    ensures SubmitWrite(pools, w.(count := AddWords(w.count, count)), id)
         == SubmitWrite(SubmitWrite(pools, w, id), Write(w.pool, AddWords(w.index, w.count), count), id)
  {
    MergedInRange(pools[w.pool], w.index, w.count, count, id);
  }

  /** The second range starts where the first one ends, in 32 bits. */
  predicate Adjoins(a: Write, b: Write) {
    a.pool == b.pool && AddWords(a.index, a.count) == b.index
  }

  /** The range extended by the count of the other. */
  function Widened(a: Write, b: Write): Write {
    a.(count := AddWords(a.count, b.count))
  }

  function Coalesced(writes: seq<Write>, w: Write): seq<Write> {
    if writes != [] && Adjoins(writes[|writes| - 1], w)
    then writes[..|writes| - 1] + [Widened(writes[|writes| - 1], w)]
    else writes + [w]
  }

  class CommandList {
    var queryWrites: seq<Write>
    /** Every write as it was recorded. */
    ghost var recorded: seq<Write>

    /** What is coalesced is what was recorded, for pools that hold every recorded range. */
    ghost predicate Valid()
      reads this
    {
      && (forall i :: 0 < i < |queryWrites| ==> !Adjoins(queryWrites[i - 1], queryWrites[i]))
      && SameEffect(queryWrites, recorded)
    }

    constructor ()
      ensures Valid() && queryWrites == [] && recorded == []
    {
      queryWrites, recorded := [], [];
    }

    /** trackQueryWrite: a range right behind the last one of the same pool extends it. */
    method TrackQueryWrite(queryPool: Option<nat>, index: Word, count: Word)
      requires Valid()
      modifies this
      ensures Valid()
      ensures recorded == if queryPool.None? || count == 0 then old(recorded)
                          else old(recorded) + [Write(queryPool.value, index, count)]
      ensures queryWrites == if queryPool.None? || count == 0 then old(queryWrites)
                             else Coalesced(old(queryWrites), Write(queryPool.value, index, count))
    {
      if queryPool.None? || count == 0 {
        return;
      }
      ghost var w := Write(queryPool.value, index, count);
      if queryWrites != [] {
        var n := |queryWrites| - 1;
        var last := queryWrites[n];
        if last.pool == queryPool.value && AddWords(last.index, last.count) == index {
          Extended(queryWrites, recorded, w);
          queryWrites := queryWrites[n := last.(count := AddWords(last.count, count))];
          recorded := recorded + [w];
          return;
        }
      }
      Appended(queryWrites, recorded, w);
      queryWrites := queryWrites + [Write(queryPool.value, index, count)];
      recorded := recorded + [w];
    }
  }

  predicate AllInRange(pools: seq<seq<Slot>>, writes: seq<Write>) {
    forall i :: 0 <= i < |writes| ==> InRange(pools, writes[i])
  }

  ghost predicate SameEffect(a: seq<Write>, b: seq<Write>) {
    && (forall pools: seq<seq<Slot>> :: AllInRange(pools, b) ==> AllInRange(pools, a))
    && (forall pools: seq<seq<Slot>>, id: nat :: AllInRange(pools, b) ==>
          SubmitWrites(pools, a, id) == SubmitWrites(pools, b, id))
  }

  lemma AllInRangeSnoc(pools: seq<seq<Slot>>, writes: seq<Write>, w: Write)
    ensures AllInRange(pools, writes + [w]) <==> AllInRange(pools, writes) && InRange(pools, w)
  {
    var more := writes + [w];
    if AllInRange(pools, more) {
      assert InRange(pools, more[|writes|]);
      forall i | 0 <= i < |writes| ensures InRange(pools, writes[i]) {
        assert InRange(pools, more[i]);
      }
    }
  }

  lemma SubmitSnoc(pools: seq<seq<Slot>>, writes: seq<Write>, w: Write, id: nat)
    ensures SubmitWrites(pools, writes + [w], id) == SubmitWrite(SubmitWrites(pools, writes, id), w, id)
  {
    assert (writes + [w])[..|writes|] == writes;
  }

  lemma Appended(writes: seq<Write>, recorded: seq<Write>, w: Write)
    requires SameEffect(writes, recorded)
    ensures SameEffect(writes + [w], recorded + [w])
  {
    forall pools: seq<seq<Slot>> | AllInRange(pools, recorded + [w]) ensures AllInRange(pools, writes + [w]) {
      AllInRangeSnoc(pools, recorded, w);
      AllInRangeSnoc(pools, writes, w);
    }
    forall pools: seq<seq<Slot>>, id: nat | AllInRange(pools, recorded + [w])
      ensures SubmitWrites(pools, writes + [w], id) == SubmitWrites(pools, recorded + [w], id)
    {
      AllInRangeSnoc(pools, recorded, w);
      AllInRangeSnoc(pools, writes, w);
      SubmitSnoc(pools, recorded, w, id);
      SubmitSnoc(pools, writes, w, id);
    }
  }

  lemma Extended(writes: seq<Write>, recorded: seq<Write>, w: Write)
    requires SameEffect(writes, recorded) && writes != [] && Adjoins(writes[|writes| - 1], w)
    ensures SameEffect(writes[|writes| - 1 := Widened(writes[|writes| - 1], w)], recorded + [w])
  {
    hide SubmitWrites, SubmitWrite, AllInRange;
    var init, last := writes[..|writes| - 1], writes[|writes| - 1];
    var wide := Widened(last, w);
    assert writes == init + [last] && writes[|writes| - 1 := wide] == init + [wide];
    forall pools: seq<seq<Slot>> | AllInRange(pools, recorded + [w]) ensures AllInRange(pools, init + [wide]) {
      AllInRangeSnoc(pools, recorded, w);
      AllInRangeSnoc(pools, init, last);
      AllInRangeSnoc(pools, init, wide);
    }
    forall pools: seq<seq<Slot>>, id: nat | AllInRange(pools, recorded + [w])
      ensures SubmitWrites(pools, init + [wide], id) == SubmitWrites(pools, recorded + [w], id)
    {
      AllInRangeSnoc(pools, recorded, w);
      AllInRangeSnoc(pools, init, last);
      SubmitSnoc(pools, recorded, w, id);
      WideWrite(pools, init, last, w, id);
    }
  }

  /** The last write and one right behind it have the effect of the wide one. */
  lemma WideWrite(pools: seq<seq<Slot>>, init: seq<Write>, last: Write, w: Write, id: nat)
    requires InRange(pools, last) && InRange(pools, w) && Adjoins(last, w)
    ensures SubmitWrites(pools, init + [Widened(last, w)], id)
         == SubmitWrite(SubmitWrites(pools, init + [last], id), w, id)
  {
    hide SubmitWrites, SubmitWrite;
    SubmitSnoc(pools, init, last, id);
    SubmitSnoc(pools, init, Widened(last, w), id);
    MergedWrites(SubmitWrites(pools, init, id), last, w.count, id);
  }
}
