/** `DynamicChunkStore<C>`: a growable boxed slice of chunks plus a cached
    count of the indexes held, indexed by `u64`. Index `i` lives in chunk
    `i / C::BITS` at position `i % C::BITS`. The chunk type `C` is modelled as
    an `ArrayChunk` of `slots` unsigned chunks of width `width`, so
    `C::BITS == width * slots`. A chunk type made of a single word is
    abstracted by `slots == 1`: the library's own `UnsignedChunk`, indexed
    by `u8`, cannot serve as `C` itself, which must be indexed by `u16`. */
module DynamicStores {
  import opened Wrappers
  import opened Ordered
  import opened Addressing
  import A = ArrayChunks
  import U = UnsignedChunks

  /** `count` caches the number of indexes held; `chunks` is the boxed slice. */
  datatype DynamicStore = DynamicStore(width: nat, slots: nat, count: nat, chunks: seq<A.ArrayChunk>)

  /** `usize::MAX` on a 64-bit target. */
  const UsizeMax: nat := 0xFFFF_FFFF_FFFF_FFFF

  /** A chunk type `C`: an `ArrayChunk<UnsignedChunk<_>, slots>` of
      non-zero width, whose positions fit in `u16` (the compile-time
      assertion of `split`). */
  predicate ValidShape(width: nat, slots: nat) {
    U.ValidWidth(width) && 0 < width * slots <= 0x1_0000
  }

  /** A chunk of the store's type `C`. */
  predicate Fits(s: DynamicStore, c: A.ArrayChunk) {
    A.Valid(c) && c.width == s.width && |c.slots| == s.slots
  }

  /** Every chunk has the type `C`. */
  predicate Shaped(s: DynamicStore) {
    ValidShape(s.width, s.slots) && forall k :: 0 <= k < |s.chunks| ==> Fits(s, s.chunks[k])
  }

  /** `C::BITS`, the width of every chunk. */
  function Bits(s: DynamicStore): nat {
    s.width * s.slots
  }

  /** The number of indexes the allocated chunks can hold. */
  function Capacity(s: DynamicStore): nat {
    ChunkStart(Bits(s), |s.chunks|)
  }

  /** A chunk as read by the plain traversal (`negated == false`) or by the
      `_not` traversal (`negated == true`). The chunk-level `first_not`,
      `next_after_not`, `last_not` and `next_before_not` of `C` are not part
      of this model; they are taken to be `first`, `next_after`, `last` and
      `next_before` of the negated chunk `!c`, which is what their contract
      asks of them. */
  function View(c: A.ArrayChunk, negated: bool): (r: A.ArrayChunk)
    requires A.Valid(c)
    ensures A.SameShape(c, r)
    ensures A.Abs(r) == if negated then Range(A.Bits(c)) - A.Abs(c) else A.Abs(c)
  {
    if negated then A.Not(c) else c
  }

  /** The contents of each chunk, as seen through `View`. */
  function Parts(s: DynamicStore, negated: bool): (p: seq<set<nat>>)
    requires Shaped(s)
    ensures |p| == |s.chunks| && PartsIn(p, Bits(s))
    ensures forall k :: 0 <= k < |p| ==> p[k] == A.Abs(View(s.chunks[k], negated))
  {
    var p := seq(|s.chunks|, k requires 0 <= k < |s.chunks| => A.Abs(View(s.chunks[k], negated)));
    assert PartsIn(p, Bits(s)) by {
      forall k, x | 0 <= k < |p| && x in p[k] ensures x < Bits(s) {
        A.AbsBelowBits(View(s.chunks[k], negated), x);
      }
    }
    p
  }

  /** The indexes the chunks hold, or, negated, the indexes of the allocated
      chunks they do not hold. */
  function Held(s: DynamicStore, negated: bool): set<nat>
    requires Shaped(s)
  {
    Compose(Parts(s, negated), Bits(s))
  }

  /** The indexes the store holds. */
  function Abs(s: DynamicStore): set<nat>
    requires Shaped(s)
  {
    Held(s, false)
  }

  /** A well-formed store: its cached count is the number of indexes held. */
  predicate Valid(s: DynamicStore) {
    Shaped(s) && s.count == |Abs(s)|
  }

  /** Membership, in two levels. */
  lemma InAbs(s: DynamicStore, i: nat)
    requires Shaped(s)
    ensures i in Abs(s) <==>
      Outer(Bits(s), i) < |s.chunks| && Inner(Bits(s), i) in A.Abs(s.chunks[Outer(Bits(s), i)])
  {
    InCompose(Parts(s, false), Bits(s), i);
  }

  /** The negated view holds the complement of the store within the
      allocated chunks. */
  lemma HeldNegated(s: DynamicStore)
    requires Shaped(s)
    ensures Held(s, true) == Range(Capacity(s)) - Abs(s)
  {
    ComposeComplement(Parts(s, false), Parts(s, true), Bits(s));
  }

  /** Replacing chunk `o` changes exactly the indexes of that chunk, and the
      number held by the difference of the two chunk sizes. */
  lemma ReplaceChunk(s: DynamicStore, o: nat, c: A.ArrayChunk, count: nat)
    requires Shaped(s) && o < |s.chunks| && Fits(s, c)
    ensures var r := DynamicStore(s.width, s.slots, count, s.chunks[o := c]);
      && Shaped(r)
      && (forall i: nat :: i in Abs(r) <==>
            if Outer(Bits(s), i) == o then Inner(Bits(s), i) in A.Abs(c) else i in Abs(s))
      && |Abs(r)| + |A.Abs(s.chunks[o])| == |Abs(s)| + |A.Abs(c)|
      && |A.Abs(s.chunks[o])| <= |Abs(s)|
  {
    var r := DynamicStore(s.width, s.slots, count, s.chunks[o := c]);
    var p := Parts(s, false);
    assert Parts(r, false) == p[o := A.Abs(c)];
    forall i: nat ensures i in Abs(r) <==>
      if Outer(Bits(s), i) == o then Inner(Bits(s), i) in A.Abs(c) else i in Abs(s)
    {
      ComposeUpdate(p, Bits(s), o, A.Abs(c), i);
    }
    ComposeCard(p, Bits(s));
    ComposeCard(p[o := A.Abs(c)], Bits(s));
    SumCardUpdate(p, o, A.Abs(c));
  }

  /** A chunk holds no more positions than the store holds indexes. */
  lemma ChunkWithin(s: DynamicStore, o: nat)
    requires Shaped(s) && o < |s.chunks|
    ensures |A.Abs(s.chunks[o])| <= |Abs(s)|
  {
    var p := Parts(s, false);
    assert p[o] == A.Abs(s.chunks[o]);
    ComposeCard(p, Bits(s));
    SumCardUpdate(p, o, p[o]);
  }

  /** Replacing the chunk of `index` by one that differs from it at most at
      the position of `index` changes the store at most at `index`, and its
      size by at most one. */
  lemma ReplacePosition(s: DynamicStore, index: nat, c: A.ArrayChunk, count: nat)
    requires Shaped(s) && Outer(Bits(s), index) < |s.chunks| && Fits(s, c)
    requires A.Abs(c) - {Inner(Bits(s), index)} == A.Abs(s.chunks[Outer(Bits(s), index)]) - {Inner(Bits(s), index)}
    ensures var r := DynamicStore(s.width, s.slots, count, s.chunks[Outer(Bits(s), index) := c]);
      && Shaped(r)
      && (Inner(Bits(s), index) in A.Abs(c) ==> Abs(r) == Abs(s) + {index})
      && (Inner(Bits(s), index) !in A.Abs(c) ==> Abs(r) == Abs(s) - {index})
  {
    var o, n := Outer(Bits(s), index), Inner(Bits(s), index);
    var r := DynamicStore(s.width, s.slots, count, s.chunks[o := c]);
    ReplaceChunk(s, o, c, count);
    FuseSplit(Bits(s), index);
    forall i: nat | i != index ensures i in Abs(r) <==> i in Abs(s) {
      InAbs(s, i);
      FuseSplit(Bits(s), i);
      if Outer(Bits(s), i) == o {
        var m := Inner(Bits(s), i);
        assert m != n;
        assert m in A.Abs(c) <==> m in A.Abs(c) - {n};
        assert m in A.Abs(s.chunks[o]) <==> m in A.Abs(s.chunks[o]) - {n};
      }
    }
    assert index in Abs(r) <==> n in A.Abs(c);
  }

  // ---------------------------------------------------------------------
  //  Two-level addressing (IndexViewChunked).
  // ---------------------------------------------------------------------

  /** `fuse`: `outer * C::BITS + inner`, in `u64`. */
  function Fuse(s: DynamicStore, outer: nat, inner: nat): nat {
    Addressing.Fuse(Bits(s), outer, inner)
  }

  /** `split`: `(index / C::BITS, index % C::BITS)`. */
  function Split(s: DynamicStore, index: nat): (nat, nat)
    requires Bits(s) > 0
  {
    (Outer(Bits(s), index), Inner(Bits(s), index))
  }

  /** SplitFuse: `split` and `fuse` are inverse of one another, for any
      index and for any position within a chunk. */
  lemma SplitFuseInverse(s: DynamicStore, index: nat, outer: nat, inner: nat)
    requires Shaped(s) && inner < Bits(s)
    ensures Fuse(s, Split(s, index).0, Split(s, index).1) == index
    ensures Split(s, index).1 < Bits(s)
    ensures Split(s, Fuse(s, outer, inner)) == (outer, inner)
  {
    FuseSplit(Bits(s), index);
    SplitFuse(Bits(s), outer, inner);
  }

  /** `get_chunk`: a copy of the chunk, if it is allocated. TwoLevels:
      position `n` of the returned chunk is held exactly when `fuse(index, n)` is. */
  function GetChunk(s: DynamicStore, index: nat): (r: Option<A.ArrayChunk>)
    requires Shaped(s)
    ensures r.Some? <==> index < |s.chunks|
    ensures r.Some? ==> Fits(s, r.value)
    ensures r.Some? ==> forall n :: 0 <= n < Bits(s) ==> (n in A.Abs(r.value) <==> Fuse(s, index, n) in Abs(s))
  {
    if index < |s.chunks| then
      assert forall n :: 0 <= n < Bits(s) ==> (n in A.Abs(s.chunks[index]) <==> Fuse(s, index, n) in Abs(s)) by {
        forall n | 0 <= n < Bits(s) {
          FuseInCompose(Parts(s, false), Bits(s), index, n);
        }
      }
      Some(s.chunks[index])
    else None
  }

  // ---------------------------------------------------------------------
  //  Memory: `reserve` and `grow`.
  // ---------------------------------------------------------------------

  /** `reserve`: the slice becomes a `Vec`, reserves room for `additional`
      more chunks, and is filled with default (empty) chunks up to its
      capacity. The allocator may hand out more than asked for; that excess
      is the parameter `slack`. The indexes held do not change. */
  function Reserve(s: DynamicStore, additional: nat, slack: nat): (r: DynamicStore)
    requires Shaped(s)
    ensures Shaped(r) && r.width == s.width && r.slots == s.slots && r.count == s.count
    ensures |r.chunks| == |s.chunks| + additional + slack
    ensures r.chunks[..|s.chunks|] == s.chunks
    ensures Abs(r) == Abs(s)
    ensures Valid(s) ==> Valid(r)
  {
    var spare := seq(additional + slack, _ => A.New(s.width, s.slots));
    var r := s.(chunks := s.chunks + spare);
    var extra := seq(|spare|, k requires 0 <= k < |spare| => A.Abs(spare[k]));
    assert Parts(r, false) == Parts(s, false) + extra;
    ComposeExtend(Parts(s, false), extra, Bits(s));
    r
  }

  /** `grow`: at least doubles the number of chunks, and reaches `minimal`,
      which must exceed the current number (a debug assertion). */
  function Grow(s: DynamicStore, minimal: nat, slack: nat): (r: DynamicStore)
    requires Valid(s) && minimal > |s.chunks|
    ensures Valid(r) && r.width == s.width && r.slots == s.slots
    ensures |r.chunks| >= minimal && |r.chunks| >= 2 * |s.chunks|
    ensures r.chunks[..|s.chunks|] == s.chunks
    ensures Abs(r) == Abs(s)
  {
    var target := if 2 * |s.chunks| >= minimal then 2 * |s.chunks| else minimal;
    Reserve(s, target - |s.chunks|, slack)
  }

  // ---------------------------------------------------------------------
  //  IndexCollection, IndexView, IndexViewNot and IndexStore.
  // ---------------------------------------------------------------------

  /** `new`: no chunk at all. */
  function New(width: nat, slots: nat): (r: DynamicStore)
    requires ValidShape(width, slots)
    ensures Valid(r) && r.width == width && r.slots == slots
    ensures Abs(r) == {} && |r.chunks| == 0
  {
    var r := DynamicStore(width, slots, 0, []);
    ComposeEmpty(Parts(r, false), Bits(r));
    r
  }

  /** `span`: `[0, ∞)`; every index can be inserted. */
  function Span(): (r: (Bound, Bound))
    ensures forall i: nat :: Within(r, i)
  {
    (Included(0), Unbounded)
  }

  /** `with_span`: an empty store with the chunks of every index up to the
      range's upper bound already allocated; an unbounded or empty range
      allocates nothing. */
  function WithSpan(width: nat, slots: nat, range: (Bound, Bound), slack: nat): (r: DynamicStore)
    requires ValidShape(width, slots)
    ensures Valid(r) && r.width == width && r.slots == slots && Abs(r) == {}
    ensures range.1.Unbounded? || range.1 == Excluded(0) ==> |r.chunks| == 0
    ensures forall i: nat :: !range.1.Unbounded? && Within((Included(0), range.1), i) ==>
      Outer(width * slots, i) < |r.chunks|
  {
    var s := New(width, slots);
    var b := width * slots;
    match range.1
    case Included(n) =>
      var r := Reserve(s, Outer(b, n) + 1, slack);
      assert forall i: nat :: i <= n ==> Outer(b, i) < |r.chunks| by {
        forall i: nat | i <= n { OuterMono(b, i, n); }
      }
      r
    case Excluded(n) =>
      if n == 0 then s
      else
        var r := Reserve(s, Outer(b, n - 1) + 1, slack);
        assert forall i: nat :: i < n ==> Outer(b, i) < |r.chunks| by {
          forall i: nat | i < n { OuterMono(b, i, n - 1); }
        }
        r
    case Unbounded => s
  }

  /** `is_empty`: the cached count is 0. */
  function IsEmpty(s: DynamicStore): (r: bool)
    requires Valid(s)
    ensures r <==> Abs(s) == {}
  {
    s.count == 0
  }

  /** `len`: the cached count. */
  function Len(s: DynamicStore): (r: nat)
    requires Valid(s)
    ensures r == |Abs(s)|
  {
    s.count
  }

  /** `len_not`: `usize::MAX - count`, the number of indexes not held when
      the universe is taken to have `usize::MAX` indexes. */
  function LenNot(s: DynamicStore): (r: nat)
    requires Valid(s) && s.count <= UsizeMax
    ensures r + |Abs(s)| == UsizeMax
  {
    UsizeMax - s.count
  }

  /** `contains`: the chunk of `index` is allocated and holds its position. */
  function Contains(s: DynamicStore, index: nat): (r: bool)
    requires Shaped(s)
    ensures r <==> index in Abs(s)
  {
    var (outer, inner) := Split(s, index);
    FuseSplit(Bits(s), index);
    InAbs(s, index);
    outer < |s.chunks| && A.Contains(s.chunks[outer], inner)
  }

  /** `clear`: nothing to do when the count is 0; otherwise resets the count
      and clears every chunk, keeping them allocated. */
  function Clear(s: DynamicStore): (r: DynamicStore)
    requires Valid(s)
    ensures Valid(r) && r.width == s.width && r.slots == s.slots
    ensures |r.chunks| == |s.chunks| && Abs(r) == {}
    ensures s.count == 0 ==> r == s
  {
    if s.count == 0 then s
    else
      var r := s.(count := 0, chunks := seq(|s.chunks|, k requires 0 <= k < |s.chunks| => A.Clear(s.chunks[k])));
      ComposeEmpty(Parts(r, false), Bits(r));
      r
  }

  /** The part of `insert` after the growth: the chunk of `index` is
      allocated; it inserts the position and the count goes up when the
      index is newly held. */
  function InsertAllocated(s: DynamicStore, index: nat): (r: (DynamicStore, bool))
    requires Valid(s) && Outer(Bits(s), index) < |s.chunks|
    ensures Valid(r.0) && r.0.width == s.width && r.0.slots == s.slots && |r.0.chunks| == |s.chunks|
    ensures Abs(r.0) == Abs(s) + {index}
    ensures r.1 <==> index !in Abs(s)
  {
    var (outer, inner) := Split(s, index);
    ChunkOf(s, index);
    var (c, inserted) := A.Insert(s.chunks[outer], inner);
    var count := if inserted then s.count + 1 else s.count;
    ReplacePosition(s, index, c, count);
    CardToggle(Abs(s), index);
    (DynamicStore(s.width, s.slots, count, s.chunks[outer := c]), inserted)
  }

  /** The position of an index within its allocated chunk, and whether
      the chunk holds it. */
  lemma ChunkOf(s: DynamicStore, index: nat)
    requires Shaped(s) && Outer(Bits(s), index) < |s.chunks|
    ensures Inner(Bits(s), index) < A.Bits(s.chunks[Outer(Bits(s), index)])
    ensures Inner(Bits(s), index) in A.Abs(s.chunks[Outer(Bits(s), index)]) <==> index in Abs(s)
  {
    FuseSplit(Bits(s), index);
    InAbs(s, index);
  }

  /** `insert`: grows the slice when the chunk of `index` is not allocated,
      then inserts the position into its chunk. Insertion never fails. */
  function Insert(s: DynamicStore, index: nat, slack: nat): (r: (DynamicStore, bool))
    requires Valid(s)
    ensures Valid(r.0) && r.0.width == s.width && r.0.slots == s.slots
    ensures Abs(r.0) == Abs(s) + {index}
    ensures r.1 <==> index !in Abs(s)
    ensures |r.0.chunks| >= |s.chunks| && Outer(Bits(s), index) < |r.0.chunks|
  {
    var outer := Split(s, index).0;
    var g := if outer >= |s.chunks| then Grow(s, outer + 1, slack) else s;
    InsertAllocated(g, index)
  }

  /** `remove`: an index whose chunk is not allocated is not held;
      otherwise the chunk removes the position and the count drops when it
      was held. */
  function Remove(s: DynamicStore, index: nat): (r: (DynamicStore, bool))
    requires Valid(s)
    ensures Valid(r.0) && r.0.width == s.width && r.0.slots == s.slots && |r.0.chunks| == |s.chunks|
    ensures Abs(r.0) == Abs(s) - {index}
    ensures r.1 <==> index in Abs(s)
  {
    var (outer, inner) := Split(s, index);
    if outer >= |s.chunks| then
      InAbs(s, index);
      (s, false)
    else
      ChunkOf(s, index);
      var (c, removed) := A.Remove(s.chunks[outer], inner);
      var count := if removed then s.count - 1 else s.count;
      ReplacePosition(s, index, c, count);
      CardToggle(Abs(s), index);
      (DynamicStore(s.width, s.slots, count, s.chunks[outer := c]), removed)
  }

  /** `set_chunk`: grows the slice when chunk `index` is not allocated, then
      replaces it, adjusting the count by the two chunk lengths. Exactly the
      indexes of that chunk change, and the count stays exact. */
  function SetChunk(s: DynamicStore, index: nat, chunk: A.ArrayChunk, slack: nat): (r: DynamicStore)
    requires Valid(s) && Fits(s, chunk)
    ensures Valid(r) && r.width == s.width && r.slots == s.slots && index < |r.chunks|
    ensures forall i: nat :: i in Abs(r) <==>
      if Outer(Bits(s), i) == index then Inner(Bits(s), i) in A.Abs(chunk) else i in Abs(s)
  {
    var g := if index >= |s.chunks| then Grow(s, index + 1, slack) else s;
    var before := A.Len(g.chunks[index]);
    var after := A.Len(chunk);
    ChunkWithin(g, index);
    ReplaceChunk(g, index, chunk, g.count - before + after);
    DynamicStore(g.width, g.slots, g.count - before + after, g.chunks[index := chunk])
  }

  // ---------------------------------------------------------------------
  //  IndexForward, IndexBackward and their `_not` variants: chunk scans.
  // ---------------------------------------------------------------------

  /** One step of the forward chunk scan, in the store's terms: chunk `k`,
      read as `c`, of the chunks `p` of width `b` gives the first index
      from its start when it has a position, and otherwise the scan goes
      on from chunk `k + 1`. */
  lemma ScanForward(p: seq<set<nat>>, b: nat, k: nat, c: A.ArrayChunk)
    requires b > 0 && PartsIn(p, b) && k < |p| && A.Valid(c) && p[k] == A.Abs(c)
    ensures var f := A.First(c);
      && (f.Some? ==> Ordered.First(AtLeast(Compose(p, b), ChunkStart(b, k))) == Some(Addressing.Fuse(b, k, f.value)))
      && (f.None? ==> Ordered.First(AtLeast(Compose(p, b), ChunkStart(b, k))) == Ordered.First(AtLeast(Compose(p, b), ChunkStart(b, k + 1))))
  {
    FirstFromChunk(p, b, k);
  }

  /** One step of the backward chunk scan: chunk `j`, read as `c`, gives
      the last index below its end when it has a position, and otherwise
      the scan goes on below its start. */
  lemma ScanBackward(p: seq<set<nat>>, b: nat, j: nat, c: A.ArrayChunk)
    requires b > 0 && PartsIn(p, b) && j < |p| && A.Valid(c) && p[j] == A.Abs(c)
    ensures var l := A.Last(c);
      && (l.Some? ==> Ordered.Last(Below(Compose(p, b), ChunkStart(b, j + 1))) == Some(Addressing.Fuse(b, j, l.value)))
      && (l.None? ==> Ordered.Last(Below(Compose(p, b), ChunkStart(b, j + 1))) == Ordered.Last(Below(Compose(p, b), ChunkStart(b, j))))
  {
    LastBelowChunk(p, b, j + 1);
  }

  /** The `find_map` over chunks `k ..`: the first position of the first
      chunk from `k` on that has one, fused with the chunk's index. */
  function FirstFrom(s: DynamicStore, k: nat, negated: bool): (r: Option<nat>)
    requires Shaped(s) && k <= |s.chunks|
    ensures r == Ordered.First(AtLeast(Held(s, negated), ChunkStart(Bits(s), k)))
    decreases |s.chunks| - k
  {
    if k == |s.chunks| then
      AtLeastEnd(Parts(s, negated), Bits(s), k);
      None
    else
      ScanForward(Parts(s, negated), Bits(s), k, View(s.chunks[k], negated));
      match A.First(View(s.chunks[k], negated))
      case Some(n) => Some(Fuse(s, k, n))
      case None => FirstFrom(s, k + 1, negated)
  }

  /** The reversed `find_map` over chunks `.. k`. */
  function LastBefore(s: DynamicStore, k: nat, negated: bool): (r: Option<nat>)
    requires Shaped(s) && k <= |s.chunks|
    ensures r == Ordered.Last(Below(Held(s, negated), ChunkStart(Bits(s), k)))
  {
    if k == 0 then
      BelowStart(Parts(s, negated), Bits(s));
      None
    else
      var j := k - 1;
      ScanBackward(Parts(s, negated), Bits(s), j, View(s.chunks[j], negated));
      match A.Last(View(s.chunks[j], negated))
      case Some(n) => Some(Fuse(s, j, n))
      case None => LastBefore(s, j, negated)
  }

  /** The body shared by `next_after` and `next_after_not`: the next position
      in the chunk of `current`, if that chunk is allocated and has one;
      otherwise the scan from the following chunk. */
  function NextAfterIn(s: DynamicStore, current: nat, negated: bool): (r: Option<nat>)
    requires Shaped(s)
    ensures r == Ordered.NextAfter(Held(s, negated), current)
  {
    var (outer, inner) := Split(s, current);
    FuseSplit(Bits(s), current);
    NextAfterSplit(Parts(s, negated), Bits(s), current);
    var here := if outer < |s.chunks| then A.NextAfter(View(s.chunks[outer], negated), inner) else None;
    if here.Some? then Some(Fuse(s, outer, here.value))
    else if outer + 1 <= |s.chunks| then FirstFrom(s, outer + 1, negated)
    else
      AtLeastEnd(Parts(s, negated), Bits(s), outer + 1);
      None
  }

  /** The body shared by `next_before` and `next_before_not`: the previous
      position in the chunk of `current`, if that chunk is allocated and has
      one; otherwise the reversed scan of the chunks below
      `min(outer, chunks.len())`. */
  function NextBeforeIn(s: DynamicStore, current: nat, negated: bool): (r: Option<nat>)
    requires Shaped(s)
    ensures r == Ordered.NextBefore(Held(s, negated), current)
  {
    var (outer, inner) := Split(s, current);
    FuseSplit(Bits(s), current);
    NextBeforeSplit(Parts(s, negated), Bits(s), current);
    var here := if outer < |s.chunks| then A.NextBefore(View(s.chunks[outer], negated), inner) else None;
    if here.Some? then Some(Fuse(s, outer, here.value))
    else
      var limit := if outer < |s.chunks| then outer else |s.chunks|;
      LastBefore(s, limit, negated)
  }

  /** `first`. */
  function First(s: DynamicStore): (r: Option<nat>)
    requires Shaped(s)
    ensures r == Ordered.First(Abs(s))
  {
    assert AtLeast(Abs(s), ChunkStart(Bits(s), 0)) == Abs(s);
    FirstFrom(s, 0, false)
  }

  /** `next_after`. */
  function NextAfter(s: DynamicStore, current: nat): (r: Option<nat>)
    requires Shaped(s)
    ensures r == Ordered.NextAfter(Abs(s), current)
  {
    NextAfterIn(s, current, false)
  }

  /** `last`. */
  function Last(s: DynamicStore): (r: Option<nat>)
    requires Shaped(s)
    ensures r == Ordered.Last(Abs(s))
  {
    BelowEnd(Parts(s, false), Bits(s));
    LastBefore(s, |s.chunks|, false)
  }

  /** `next_before`. */
  function NextBefore(s: DynamicStore, current: nat): (r: Option<nat>)
    requires Shaped(s)
    ensures r == Ordered.NextBefore(Abs(s), current)
  {
    NextBeforeIn(s, current, false)
  }

  /** `first_not`: the first index of an allocated chunk that is not held. */
  function FirstNot(s: DynamicStore): (r: Option<nat>)
    requires Shaped(s)
    ensures r == Ordered.First(Range(Capacity(s)) - Abs(s))
  {
    HeldNegated(s);
    assert AtLeast(Held(s, true), ChunkStart(Bits(s), 0)) == Held(s, true);
    FirstFrom(s, 0, true)
  }

  /** `next_after_not`: the next index of an allocated chunk that is not held. */
  function NextAfterNot(s: DynamicStore, current: nat): (r: Option<nat>)
    requires Shaped(s)
    ensures r == Ordered.NextAfter(Range(Capacity(s)) - Abs(s), current)
  {
    HeldNegated(s);
    NextAfterIn(s, current, true)
  }

  /** `last_not`: the last index of an allocated chunk that is not held. */
  function LastNot(s: DynamicStore): (r: Option<nat>)
    requires Shaped(s)
    ensures r == Ordered.Last(Range(Capacity(s)) - Abs(s))
  {
    HeldNegated(s);
    BelowEnd(Parts(s, true), Bits(s));
    LastBefore(s, |s.chunks|, true)
  }

  /** `next_before_not`: the previous index that is not held. */
  function NextBeforeNot(s: DynamicStore, current: nat): (r: Option<nat>)
    requires Shaped(s)
    ensures r == Ordered.NextBefore(Range(Capacity(s)) - Abs(s), current)
  {
    HeldNegated(s);
    NextBeforeIn(s, current, true)
  }

  // ---------------------------------------------------------------------
  //  IndexForwardChunked and IndexBackwardChunked (and their `_not`
  //  variants, which delegate to these): the allocated chunk indexes.
  // ---------------------------------------------------------------------

  /** `first_chunk`: chunk 0, if any is allocated. */
  function FirstChunk(s: DynamicStore): (r: Option<nat>)
    ensures r == Ordered.First(Range(|s.chunks|))
  {
    if |s.chunks| > 0 then
      FirstIs(Range(|s.chunks|), 0);
      Some(0)
    else None
  }

  /** `next_chunk_after`: the following chunk, if allocated. */
  function NextChunkAfter(s: DynamicStore, current: nat): (r: Option<nat>)
    ensures r == Ordered.NextAfter(Range(|s.chunks|), current)
  {
    if current + 1 < |s.chunks| then
      FirstIs(Above(Range(|s.chunks|), current), current + 1);
      Some(current + 1)
    else
      assert Above(Range(|s.chunks|), current) == {};
      None
  }

  /** `last_chunk`: `chunks.len() - 1`, if that does not underflow. */
  function LastChunk(s: DynamicStore): (r: Option<nat>)
    ensures r == Ordered.Last(Range(|s.chunks|))
  {
    if |s.chunks| > 0 then
      LastIs(Range(|s.chunks|), |s.chunks| - 1);
      Some(|s.chunks| - 1)
    else None
  }

  /** `next_chunk_before`: `current - 1`, if that does not underflow. Within
      the allocated chunks it is the previous chunk. */
  function NextChunkBefore(s: DynamicStore, current: nat): (r: Option<nat>)
    ensures current <= |s.chunks| ==> r == Ordered.NextBefore(Range(|s.chunks|), current)
    ensures r.Some? ==> r.value < current
  {
    if current > 0 then
      assert current <= |s.chunks| ==> Ordered.Last(Below(Range(|s.chunks|), current)) == Some(current - 1) by {
        if current <= |s.chunks| {
          LastIs(Below(Range(|s.chunks|), current), current - 1);
        }
      }
      Some(current - 1)
    else
      None
  }
}
