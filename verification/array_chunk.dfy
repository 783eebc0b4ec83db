/** `ArrayChunk<C, N>`: `N` unsigned chunks of width `C::BITS` side by side,
    indexed by `u16`. Index `i` lives in slot `i / C::BITS` at position
    `i % C::BITS`; the chunk's own width is `C::BITS * N`. */
module ArrayChunks {
  import opened Wrappers
  import opened Ordered
  import opened Addressing
  import U = UnsignedChunks

  /** The array of slots; `width` is `C::BITS`, the width of every slot. */
  datatype ArrayChunk = ArrayChunk(width: nat, slots: seq<U.Word>)

  /** A well-formed array: every slot has the width of `C`, and the
      compile-time assertion of `span` holds (`BITS - 1 <= u16::MAX`). */
  predicate Valid(a: ArrayChunk) {
    && U.ValidWidth(a.width)
    && (forall k :: 0 <= k < |a.slots| ==> |a.slots[k]| == a.width)
    && a.width * |a.slots| <= 0x1_0000
  }

  /** Two arrays of the same type `ArrayChunk<C, N>`. */
  predicate SameShape(a: ArrayChunk, b: ArrayChunk) {
    Valid(a) && Valid(b) && a.width == b.width && |a.slots| == |b.slots|
  }

  /** `IndexChunk::BITS`: `C::BITS * N`. */
  function Bits(a: ArrayChunk): nat {
    a.width * |a.slots|
  }

  /** The contents of each slot. */
  function Parts(a: ArrayChunk): (p: seq<set<nat>>)
    requires Valid(a)
    ensures |p| == |a.slots| && PartsIn(p, a.width)
    ensures forall k :: 0 <= k < |p| ==> p[k] == U.Bits(a.slots[k])
  {
    seq(|a.slots|, k requires 0 <= k < |a.slots| => U.Bits(a.slots[k]))
  }

  /** The indexes the array holds. */
  function Abs(a: ArrayChunk): set<nat>
    requires Valid(a)
  {
    Compose(Parts(a), a.width)
  }

  /** Membership, in two levels: the slot of `i` exists and holds its position. */
  lemma InAbs(a: ArrayChunk, i: nat)
    requires Valid(a)
    ensures i in Abs(a) <==> Outer(a.width, i) < |a.slots| && Inner(a.width, i) in U.Bits(a.slots[Outer(a.width, i)])
  {
    InCompose(Parts(a), a.width, i);
  }

  /** Every index held lies below `BITS`. */
  lemma AbsBelowBits(a: ArrayChunk, i: nat)
    requires Valid(a) && i in Abs(a)
    ensures i < Bits(a)
  {
    InAbs(a, i);
    OuterAtLeast(a.width, i, |a.slots|);
  }

  // ---------------------------------------------------------------------
  //  Two-level addressing (IndexViewChunked).
  // ---------------------------------------------------------------------

  /** `fuse`: `outer * C::BITS + inner`. */
  function Fuse(a: ArrayChunk, outer: nat, inner: nat): nat {
    Addressing.Fuse(a.width, outer, inner)
  }

  /** `split`: `(index / C::BITS, index % C::BITS)`. */
  function Split(a: ArrayChunk, index: nat): (nat, nat)
    requires a.width > 0
  {
    (Outer(a.width, index), Inner(a.width, index))
  }

  /** SplitFuse: `split` and `fuse` are inverse of one another, for any
      index and for any position within a slot. */
  lemma SplitFuseInverse(a: ArrayChunk, index: nat, outer: nat, inner: nat)
    requires Valid(a) && inner < a.width
    ensures Fuse(a, Split(a, index).0, Split(a, index).1) == index
    ensures Split(a, index).1 < a.width
    ensures Split(a, Fuse(a, outer, inner)) == (outer, inner)
  {
    FuseSplit(a.width, index);
    SplitFuse(a.width, outer, inner);
  }

  /** `get_chunk`: a copy of the slot, if it exists. TwoLevels: position `n`
      of the returned slot is held exactly when `fuse(index, n)` is. */
  function GetChunk(a: ArrayChunk, index: nat): (r: Option<U.Word>)
    requires Valid(a)
    ensures r.Some? <==> index < |a.slots|
    ensures r.Some? ==> |r.value| == a.width
    ensures r.Some? ==> forall n :: 0 <= n < a.width ==> (n in U.Bits(r.value) <==> Fuse(a, index, n) in Abs(a))
  {
    if index < |a.slots| then
      assert forall n :: 0 <= n < a.width ==> (n in U.Bits(a.slots[index]) <==> Fuse(a, index, n) in Abs(a)) by {
        forall n | 0 <= n < a.width {
          FuseInCompose(Parts(a), a.width, index, n);
        }
      }
      Some(a.slots[index])
    else None
  }

  /** `set_chunk`: replaces slot `index` (which must exist: the source
      panics otherwise). Exactly the indexes of that slot change. */
  function SetChunk(a: ArrayChunk, index: nat, chunk: U.Word): (r: ArrayChunk)
    requires Valid(a) && index < |a.slots| && |chunk| == a.width
    ensures Valid(r) && r.width == a.width && |r.slots| == |a.slots|
    ensures forall i: nat :: i in Abs(r) <==>
      if Outer(a.width, i) == index then Inner(a.width, i) in U.Bits(chunk) else i in Abs(a)
  {
    var r := ArrayChunk(a.width, a.slots[index := chunk]);
    assert Parts(r) == Parts(a)[index := U.Bits(chunk)];
    forall i: nat ensures i in Abs(r) <==>
      if Outer(a.width, i) == index then Inner(a.width, i) in U.Bits(chunk) else i in Abs(a)
    {
      ComposeUpdate(Parts(a), a.width, index, U.Bits(chunk), i);
    }
    r
  }

  // ---------------------------------------------------------------------
  //  IndexCollection, IndexView and IndexStore.
  // ---------------------------------------------------------------------

  /** `new`: every slot is 0. */
  function New(width: nat, n: nat): (r: ArrayChunk)
    requires U.ValidWidth(width) && width * n <= 0x1_0000
    ensures Valid(r) && r.width == width && |r.slots| == n && Abs(r) == {}
  {
    var r := ArrayChunk(width, seq(n, _ => U.Zero(width)));
    ComposeEmpty(Parts(r), width);
    r
  }

  /** `span`: `[0, BITS - 1]`, or the empty `[0, 0)` when `BITS` is 0. It
      covers exactly the indexes the array can hold. */
  function Span(a: ArrayChunk): (r: (Bound, Bound))
    requires Valid(a)
    ensures forall i: nat :: Within(r, i) <==> i < Bits(a)
  {
    var upper := if Bits(a) == 0 then Excluded(0) else Included(Bits(a) - 1);
    (Included(0), upper)
  }

  /** `is_empty`: every slot is empty. */
  function IsEmpty(a: ArrayChunk): (r: bool)
    requires Valid(a)
    ensures r <==> Abs(a) == {}
  {
    ComposeEmpty(Parts(a), a.width);
    forall k :: 0 <= k < |a.slots| ==> U.IsEmpty(a.slots[k])
  }

  /** The total of the slot lengths. */
  function SumLen(slots: seq<U.Word>): nat {
    if slots == [] then 0 else SumLen(slots[..|slots| - 1]) + U.Len(slots[|slots| - 1])
  }

  lemma {:induction false} SumLenIsSumCard(a: ArrayChunk, k: nat)
    requires Valid(a) && k <= |a.slots|
    ensures SumLen(a.slots[..k]) == SumCard(Parts(a)[..k])
  {
    if k > 0 {
      SumLenIsSumCard(a, k - 1);
      assert a.slots[..k][..k - 1] == a.slots[..k - 1];
      assert Parts(a)[..k][..k - 1] == Parts(a)[..k - 1];
    }
  }

  /** `len`: the sum of the slot lengths, which is the number of indexes held. */
  function Len(a: ArrayChunk): (r: nat)
    requires Valid(a)
    ensures r == |Abs(a)|
  {
    SumLenIsSumCard(a, |a.slots|);
    assert a.slots[..|a.slots|] == a.slots;
    assert Parts(a)[..|a.slots|] == Parts(a);
    ComposeCard(Parts(a), a.width);
    SumLen(a.slots)
  }

  /** `contains`: the slot of `index` exists and holds its position. */
  function Contains(a: ArrayChunk, index: nat): (r: bool)
    requires Valid(a)
    ensures r <==> index in Abs(a)
  {
    var (outer, inner) := Split(a, index);
    FuseSplit(a.width, index);
    InAbs(a, index);
    outer < |a.slots| && U.Contains(a.slots[outer], inner)
  }

  /** `clear`: clears every slot. */
  function Clear(a: ArrayChunk): (r: ArrayChunk)
    requires Valid(a)
    ensures SameShape(a, r) && Abs(r) == {}
  {
    var r := ArrayChunk(a.width, seq(|a.slots|, k requires 0 <= k < |a.slots| => U.Clear(a.slots[k])));
    ComposeEmpty(Parts(r), a.width);
    r
  }

  /** Replacing the slot of `index` by one that differs from it at most at
      the position of `index` changes the array at most at `index`. */
  lemma SetSlotAbs(a: ArrayChunk, index: nat, slot: U.Word)
    requires Valid(a) && Outer(a.width, index) < |a.slots| && |slot| == a.width
    requires U.Bits(slot) - {Inner(a.width, index)} == U.Bits(a.slots[Outer(a.width, index)]) - {Inner(a.width, index)}
    ensures var r := SetChunk(a, Outer(a.width, index), slot);
      && (Inner(a.width, index) in U.Bits(slot) ==> Abs(r) == Abs(a) + {index})
      && (Inner(a.width, index) !in U.Bits(slot) ==> Abs(r) == Abs(a) - {index})
  {
    var o, n := Outer(a.width, index), Inner(a.width, index);
    var r := SetChunk(a, o, slot);
    FuseSplit(a.width, index);
    forall i: nat | i != index ensures i in Abs(r) <==> i in Abs(a) {
      InAbs(a, i);
      FuseSplit(a.width, i);
      if Outer(a.width, i) == o {
        var m := Inner(a.width, i);
        assert m != n;
        assert m in U.Bits(slot) <==> m in U.Bits(slot) - {n};
        assert m in U.Bits(a.slots[o]) <==> m in U.Bits(a.slots[o]) - {n};
      }
    }
    assert index in Abs(r) <==> n in U.Bits(slot);
  }

  /** Inserting into the slot of an index within the slots adds exactly
      that index, and reports whether it was absent. */
  lemma InsertSlot(a: ArrayChunk, index: nat)
    requires Valid(a) && Outer(a.width, index) < |a.slots|
    ensures Inner(a.width, index) < |a.slots[Outer(a.width, index)]|
    ensures var ins := U.Insert(a.slots[Outer(a.width, index)], Inner(a.width, index));
      var r := SetChunk(a, Outer(a.width, index), ins.0);
      && SameShape(a, r) && Abs(r) == Abs(a) + {index}
      && (ins.1 <==> index !in Abs(a))
  {
    FuseSplit(a.width, index);
    InAbs(a, index);
    var ins := U.Insert(a.slots[Outer(a.width, index)], Inner(a.width, index));
    SetSlotAbs(a, index, ins.0);
  }

  /** Removing from the slot of an index within the slots removes exactly
      that index, and reports whether it was held. */
  lemma RemoveSlot(a: ArrayChunk, index: nat)
    requires Valid(a) && Outer(a.width, index) < |a.slots|
    ensures var rem := U.Remove(a.slots[Outer(a.width, index)], Inner(a.width, index));
      var r := SetChunk(a, Outer(a.width, index), rem.0);
      && SameShape(a, r) && Abs(r) == Abs(a) - {index}
      && (rem.1 <==> index in Abs(a))
  {
    FuseSplit(a.width, index);
    InAbs(a, index);
    var rem := U.Remove(a.slots[Outer(a.width, index)], Inner(a.width, index));
    SetSlotAbs(a, index, rem.0);
  }

  /** `insert`: an index past the last slot is not inserted (`Ok(false)`);
      otherwise the slot inserts the position. Either way the result reports
      whether the index is newly held. */
  function Insert(a: ArrayChunk, index: nat): (r: (ArrayChunk, bool))
    requires Valid(a)
    ensures SameShape(a, r.0)
    ensures Abs(r.0) == if index < Bits(a) then Abs(a) + {index} else Abs(a)
    ensures r.1 <==> index < Bits(a) && index !in Abs(a)
  {
    var (outer, inner) := Split(a, index);
    OuterAtLeast(a.width, index, |a.slots|);
    if outer >= |a.slots| then
      InAbs(a, index);
      (a, false)
    else
      InsertSlot(a, index);
      var (slot, inserted) := U.Insert(a.slots[outer], inner);
      (SetChunk(a, outer, slot), inserted)
  }

  /** `remove`: an index past the last slot is not held; otherwise the slot
      removes the position. The result reports whether the index was held. */
  function Remove(a: ArrayChunk, index: nat): (r: (ArrayChunk, bool))
    requires Valid(a)
    ensures SameShape(a, r.0)
    ensures Abs(r.0) == Abs(a) - {index}
    ensures r.1 <==> index in Abs(a)
  {
    var (outer, inner) := Split(a, index);
    if outer >= |a.slots| then
      InAbs(a, index);
      (a, false)
    else
      RemoveSlot(a, index);
      var (slot, removed) := U.Remove(a.slots[outer], inner);
      (SetChunk(a, outer, slot), removed)
  }

  // ---------------------------------------------------------------------
  //  Bitwise operators, slot by slot (`map`, `map_with`, `apply`).
  // ---------------------------------------------------------------------

  function BitAnd(a: ArrayChunk, b: ArrayChunk): (r: ArrayChunk)
    requires SameShape(a, b)
    ensures SameShape(a, r) && Abs(r) == Abs(a) * Abs(b)
  {
    var r := ArrayChunk(a.width, seq(|a.slots|, k requires 0 <= k < |a.slots| => U.And(a.slots[k], b.slots[k])));
    forall i: nat ensures i in Abs(r) <==> i in Abs(a) && i in Abs(b) {
      InAbs(a, i); InAbs(b, i); InAbs(r, i);
    }
    r
  }

  function BitOr(a: ArrayChunk, b: ArrayChunk): (r: ArrayChunk)
    requires SameShape(a, b)
    ensures SameShape(a, r) && Abs(r) == Abs(a) + Abs(b)
  {
    var r := ArrayChunk(a.width, seq(|a.slots|, k requires 0 <= k < |a.slots| => U.Or(a.slots[k], b.slots[k])));
    forall i: nat ensures i in Abs(r) <==> i in Abs(a) || i in Abs(b) {
      InAbs(a, i); InAbs(b, i); InAbs(r, i);
    }
    r
  }

  function BitXor(a: ArrayChunk, b: ArrayChunk): (r: ArrayChunk)
    requires SameShape(a, b)
    ensures SameShape(a, r) && Abs(r) == (Abs(a) - Abs(b)) + (Abs(b) - Abs(a))
  {
    var r := ArrayChunk(a.width, seq(|a.slots|, k requires 0 <= k < |a.slots| => U.Xor(a.slots[k], b.slots[k])));
    forall i: nat ensures i in Abs(r) <==> (i in Abs(a)) != (i in Abs(b)) {
      InAbs(a, i); InAbs(b, i); InAbs(r, i);
    }
    r
  }

  /** `sub`: `this & !other`, slot by slot. */
  function Sub(a: ArrayChunk, b: ArrayChunk): (r: ArrayChunk)
    requires SameShape(a, b)
    ensures SameShape(a, r) && Abs(r) == Abs(a) - Abs(b)
  {
    var r := ArrayChunk(a.width, seq(|a.slots|, k requires 0 <= k < |a.slots| => U.Sub(a.slots[k], b.slots[k])));
    forall i: nat ensures i in Abs(r) <==> i in Abs(a) && i !in Abs(b) {
      InAbs(a, i); InAbs(b, i); InAbs(r, i);
    }
    r
  }

  lemma NotAbs(a: ArrayChunk, r: ArrayChunk)
    requires Valid(a) && r.width == a.width && |r.slots| == |a.slots|
    requires forall k :: 0 <= k < |a.slots| ==> r.slots[k] == U.Not(a.slots[k])
    ensures Valid(r) && Abs(r) == Range(Bits(a)) - Abs(a)
  {
    assert Valid(r) by {
      forall k | 0 <= k < |r.slots| ensures |r.slots[k]| == r.width {
        assert r.slots[k] == U.Not(a.slots[k]);
      }
    }
    var p, q := Parts(a), Parts(r);
    forall k | 0 <= k < |p| ensures q[k] == Range(a.width) - p[k] {
      assert r.slots[k] == U.Not(a.slots[k]);
    }
    ComposeComplement(p, q, a.width);
  }

  /** `not`: every slot negated; the complement within `[0, BITS)`. */
  function Not(a: ArrayChunk): (r: ArrayChunk)
    requires Valid(a)
    ensures SameShape(a, r) && Abs(r) == Range(Bits(a)) - Abs(a)
  {
    var r := ArrayChunk(a.width, seq(|a.slots|, k requires 0 <= k < |a.slots| => U.Not(a.slots[k])));
    NotAbs(a, r);
    r
  }

  // ---------------------------------------------------------------------
  //  IndexForward and IndexBackward: slot scans.
  // ---------------------------------------------------------------------

  /** The `find_map` over slots `k ..`: the first index of the first slot
      from `k` on that holds any. */
  function FirstFrom(a: ArrayChunk, k: nat): (r: Option<nat>)
    requires Valid(a) && k <= |a.slots|
    ensures r == Ordered.First(AtLeast(Abs(a), ChunkStart(a.width, k)))
    decreases |a.slots| - k
  {
    if k == |a.slots| then
      AtLeastEnd(Parts(a), a.width, k);
      None
    else
      FirstFromChunk(Parts(a), a.width, k);
      match U.First(a.slots[k])
      case Some(n) => Some(Fuse(a, k, n))
      case None => FirstFrom(a, k + 1)
  }

  /** The reversed `find_map` over slots `.. k`: the last index of the last
      slot before `k` that holds any. */
  function LastBefore(a: ArrayChunk, k: nat): (r: Option<nat>)
    requires Valid(a) && k <= |a.slots|
    ensures r == Ordered.Last(Below(Abs(a), ChunkStart(a.width, k)))
  {
    if k == 0 then
      BelowStart(Parts(a), a.width);
      None
    else
      LastBelowChunk(Parts(a), a.width, k);
      match U.Last(a.slots[k - 1])
      case Some(n) => Some(Fuse(a, k - 1, n))
      case None => LastBefore(a, k - 1)
  }

  /** `first`. */
  function First(a: ArrayChunk): (r: Option<nat>)
    requires Valid(a)
    ensures r == Ordered.First(Abs(a))
  {
    assert AtLeast(Abs(a), ChunkStart(a.width, 0)) == Abs(a);
    FirstFrom(a, 0)
  }

  /** `next_after`: the next position in the slot of `current`, if that slot
      exists and has one; otherwise the scan from the following slot. */
  function NextAfter(a: ArrayChunk, current: nat): (r: Option<nat>)
    requires Valid(a)
    ensures r == Ordered.NextAfter(Abs(a), current)
  {
    var (outer, inner) := Split(a, current);
    FuseSplit(a.width, current);
    NextAfterSplit(Parts(a), a.width, current);
    var here := if outer < |a.slots| then U.NextAfter(a.slots[outer], inner) else None;
    if here.Some? then Some(Fuse(a, outer, here.value))
    else if outer + 1 <= |a.slots| then FirstFrom(a, outer + 1)
    else
      AtLeastEnd(Parts(a), a.width, outer + 1);
      None
  }

  /** `last`. */
  function Last(a: ArrayChunk): (r: Option<nat>)
    requires Valid(a)
    ensures r == Ordered.Last(Abs(a))
  {
    BelowEnd(Parts(a), a.width);
    LastBefore(a, |a.slots|)
  }

  /** `next_before`: the previous position in the slot of `current`, if that
      slot exists and has one; otherwise the reversed scan of the slots below
      `min(outer, N)`. */
  function NextBefore(a: ArrayChunk, current: nat): (r: Option<nat>)
    requires Valid(a)
    ensures r == Ordered.NextBefore(Abs(a), current)
  {
    var (outer, inner) := Split(a, current);
    FuseSplit(a.width, current);
    NextBeforeSplit(Parts(a), a.width, current);
    var here := if outer < |a.slots| then U.NextBefore(a.slots[outer], inner) else None;
    if here.Some? then Some(Fuse(a, outer, here.value))
    else
      var limit := if outer < |a.slots| then outer else |a.slots|;
      LastBefore(a, limit)
  }

  // ---------------------------------------------------------------------
  //  IndexForwardChunked and IndexBackwardChunked: the slot indexes.
  // ---------------------------------------------------------------------

  /** `first_chunk`: slot 0, if any. */
  function FirstChunk(a: ArrayChunk): (r: Option<nat>)
    ensures r == Ordered.First(Range(|a.slots|))
  {
    if |a.slots| > 0 then
      FirstIs(Range(|a.slots|), 0);
      Some(0)
    else None
  }

  /** `next_chunk_after`: the following slot, if any. */
  function NextChunkAfter(a: ArrayChunk, current: nat): (r: Option<nat>)
    ensures r == Ordered.NextAfter(Range(|a.slots|), current)
  {
    if current + 1 < |a.slots| then
      FirstIs(Above(Range(|a.slots|), current), current + 1);
      Some(current + 1)
    else
      assert Above(Range(|a.slots|), current) == {};
      None
  }

  /** `last_chunk`: slot `N - 1`, if any. */
  function LastChunk(a: ArrayChunk): (r: Option<nat>)
    ensures r == Ordered.Last(Range(|a.slots|))
  {
    if |a.slots| > 0 then
      LastIs(Range(|a.slots|), |a.slots| - 1);
      Some(|a.slots| - 1)
    else None
  }

  /** `next_chunk_before`: `current - 1`, if `current > 0`. Within the slots
      (the only chunk indexes a traversal produces) it is the previous slot. */
  function NextChunkBefore(a: ArrayChunk, current: nat): (r: Option<nat>)
    ensures current <= |a.slots| ==> r == Ordered.NextBefore(Range(|a.slots|), current)
    ensures r.Some? ==> r.value < current
  {
    if current > 0 then
      assert current <= |a.slots| ==> Ordered.Last(Below(Range(|a.slots|), current)) == Some(current - 1) by {
        if current <= |a.slots| {
          LastIs(Below(Range(|a.slots|), current), current - 1);
        }
      }
      Some(current - 1)
    else
      None
  }
}
