/** Two-level addressing, shared by `ArrayChunk` and `DynamicChunkStore`
    (the `IndexViewChunked` `split`/`fuse` pair): an index `i` lives in chunk
    `i / b` at position `i % b`, where `b` is the chunk width `C::BITS`. A
    sequence of chunks whose contents are `parts` therefore holds the set
    `Compose(parts, b)`, and the chunk-by-chunk scans of `first`,
    `next_after`, `last` and `next_before` find the same indexes as the
    ordered traversal of that set. */
module Addressing {
  import opened Wrappers
  import opened Ordered

  /** `fuse(outer, inner) = outer * b + inner`. */
  function Fuse(b: nat, outer: nat, inner: nat): nat {
    outer * b + inner
  }

  /** The first index of chunk `k`, `fuse(k, 0)`. */
  function ChunkStart(b: nat, k: nat): nat {
    k * b
  }

  /** The chunk of `i`: the first half of `split(i)`. */
  function Outer(b: nat, i: nat): nat
    requires b > 0
  {
    i / b
  }

  /** The position of `i` in its chunk: the second half of `split(i)`. */
  function Inner(b: nat, i: nat): nat
    requires b > 0
  {
    i % b
  }

  /** SplitFuse, one way: fusing the halves of `split(i)` gives back `i`,
      and the position always lies within the chunk. */
  lemma FuseSplit(b: nat, i: nat)
    requires b > 0
    ensures Fuse(b, Outer(b, i), Inner(b, i)) == i
    ensures Inner(b, i) < b
  {
  }

  /** SplitFuse, the other way: splitting `fuse(outer, inner)` gives back
      both halves, provided the position lies within the chunk. */
  lemma SplitFuse(b: nat, outer: nat, inner: nat)
    requires inner < b
    ensures Outer(b, Fuse(b, outer, inner)) == outer
    ensures Inner(b, Fuse(b, outer, inner)) == inner
  {
    var i := Fuse(b, outer, inner);
    var q, r := i / b, i % b;
    assert q * b + r == outer * b + inner;
    if q > outer {
      MulAtLeast(q - outer, b);
    } else if q < outer {
      MulAtLeast(outer - q, b);
    }
  }

  lemma MulAtLeast(k: int, b: nat)
    requires k >= 1
    ensures k * b >= b
  {
  }

  /** An index is at or above the start of chunk `k` exactly when its chunk
      is `k` or later. */
  lemma OuterAtLeast(b: nat, i: nat, k: nat)
    requires b > 0
    ensures i >= ChunkStart(b, k) <==> Outer(b, i) >= k
  {
    var q := i / b;
    assert i == q * b + i % b;
    if q >= k {
      MulMono(k, q, b);
    } else {
      MulMono(q + 1, k, b);
      assert (q + 1) * b == q * b + b;
    }
  }

  lemma MulMono(x: nat, y: nat, b: nat)
    requires x <= y
    ensures x * b <= y * b
  {
  }

  /** Indexes from distinct chunks compare like their chunks. */
  lemma FuseOrder(b: nat, o1: nat, n1: nat, o2: nat, n2: nat)
    requires n1 < b && n2 < b
    ensures o1 < o2 ==> Fuse(b, o1, n1) < Fuse(b, o2, n2)
    ensures o1 == o2 ==> (Fuse(b, o1, n1) < Fuse(b, o2, n2) <==> n1 < n2)
  {
    if o1 < o2 {
      MulMono(o1 + 1, o2, b);
      assert (o1 + 1) * b == o1 * b + b;
    }
  }

  /** `split` is monotone in its first half: a larger index never lives in
      an earlier chunk. */
  lemma OuterMono(b: nat, i: nat, j: nat)
    requires b > 0 && i <= j
    ensures Outer(b, i) <= Outer(b, j)
  {
    OuterAtLeast(b, i, Outer(b, i));
    OuterAtLeast(b, j, Outer(b, i));
  }

  /** Every chunk content lies within the chunk's span `0 .. b-1`. */
  predicate PartsIn(parts: seq<set<nat>>, b: nat) {
    forall k :: 0 <= k < |parts| ==> forall x :: x in parts[k] ==> x < b
  }

  /** Whether the chunk of `i` exists and holds its position. */
  predicate Holds(parts: seq<set<nat>>, b: nat, i: nat)
    requires b > 0
  {
    Outer(b, i) < |parts| && Inner(b, i) in parts[Outer(b, i)]
  }

  /** The indexes held by a sequence of chunks of width `b` holding `parts`. */
  function Compose(parts: seq<set<nat>>, b: nat): set<nat>
    requires b > 0
  {
    set i: nat | i < ChunkStart(b, |parts|) && Holds(parts, b, i)
  }

  /** TwoLevels: `i` is held exactly when its chunk exists and holds its
      position. */
  lemma InCompose(parts: seq<set<nat>>, b: nat, i: nat)
    requires b > 0
    ensures i in Compose(parts, b) <==> Holds(parts, b, i)
  {
    OuterAtLeast(b, i, |parts|);
  }

  /** TwoLevels, seen from `fuse`: position `n` of chunk `o` is held exactly
      when chunk `o` holds `n`. */
  lemma FuseInCompose(parts: seq<set<nat>>, b: nat, o: nat, n: nat)
    requires n < b && o < |parts|
    ensures Fuse(b, o, n) in Compose(parts, b) <==> n in parts[o]
  {
    SplitFuse(b, o, n);
    InCompose(parts, b, Fuse(b, o, n));
  }

  /** The chunks past the last one hold nothing. */
  lemma AtLeastEnd(parts: seq<set<nat>>, b: nat, k: nat)
    requires b > 0 && k >= |parts|
    ensures AtLeast(Compose(parts, b), ChunkStart(b, k)) == {}
  {
    forall i | i in AtLeast(Compose(parts, b), ChunkStart(b, k)) ensures false {
      InCompose(parts, b, i);
      OuterAtLeast(b, i, k);
    }
  }

  /** Nothing lies below chunk 0. */
  lemma BelowStart(parts: seq<set<nat>>, b: nat)
    requires b > 0
    ensures Below(Compose(parts, b), 0) == {}
  {
  }

  /** Every index held lies below the end of the last chunk. */
  lemma BelowEnd(parts: seq<set<nat>>, b: nat)
    requires b > 0
    ensures Below(Compose(parts, b), ChunkStart(b, |parts|)) == Compose(parts, b)
  {
  }

  /** One step of the forward chunk scan: from the start of chunk `k`, the
      first index held is the first of chunk `k` when it holds any, and
      otherwise the first from the start of chunk `k + 1`. */
  lemma {:induction false} FirstFromChunk(parts: seq<set<nat>>, b: nat, k: nat)
    requires b > 0 && PartsIn(parts, b) && k < |parts|
    ensures parts[k] == {} ==>
      First(AtLeast(Compose(parts, b), ChunkStart(b, k))) == First(AtLeast(Compose(parts, b), ChunkStart(b, k + 1)))
    ensures parts[k] != {} ==>
      First(AtLeast(Compose(parts, b), ChunkStart(b, k))) == Some(Fuse(b, k, Min(parts[k])))
  {
    var C := Compose(parts, b);
    if parts[k] == {} {
      forall i | i in AtLeast(C, ChunkStart(b, k)) ensures i in AtLeast(C, ChunkStart(b, k + 1)) {
        InCompose(parts, b, i);
        OuterAtLeast(b, i, k);
        OuterAtLeast(b, i, k + 1);
      }
      forall i | i in AtLeast(C, ChunkStart(b, k + 1)) ensures i in AtLeast(C, ChunkStart(b, k)) {
        OuterAtLeast(b, i, k);
        OuterAtLeast(b, i, k + 1);
      }
      assert AtLeast(C, ChunkStart(b, k)) == AtLeast(C, ChunkStart(b, k + 1));
    } else {
      var m := Min(parts[k]);
      var v := Fuse(b, k, m);
      FuseInCompose(parts, b, k, m);
      SplitFuse(b, k, m);
      OuterAtLeast(b, v, k);
      forall i | i in AtLeast(C, ChunkStart(b, k)) ensures v <= i {
        InCompose(parts, b, i);
        OuterAtLeast(b, i, k);
        FuseSplit(b, i);
        FuseOrder(b, k, m, Outer(b, i), Inner(b, i));
      }
      FirstIs(AtLeast(C, ChunkStart(b, k)), v);
    }
  }

  /** One step of the backward chunk scan: below the end of chunk `k - 1`,
      the last index held is the last of chunk `k - 1` when it holds any, and
      otherwise the last below the start of chunk `k - 1`. */
  lemma {:induction false} LastBelowChunk(parts: seq<set<nat>>, b: nat, k: nat)
    requires b > 0 && PartsIn(parts, b) && 0 < k <= |parts|
    ensures parts[k - 1] == {} ==>
      Last(Below(Compose(parts, b), ChunkStart(b, k))) == Last(Below(Compose(parts, b), ChunkStart(b, k - 1)))
    ensures parts[k - 1] != {} ==>
      Last(Below(Compose(parts, b), ChunkStart(b, k))) == Some(Fuse(b, k - 1, Max(parts[k - 1])))
  {
    var C := Compose(parts, b);
    if parts[k - 1] == {} {
      forall i | i in Below(C, ChunkStart(b, k)) ensures i in Below(C, ChunkStart(b, k - 1)) {
        InCompose(parts, b, i);
        OuterAtLeast(b, i, k);
        OuterAtLeast(b, i, k - 1);
      }
      forall i | i in Below(C, ChunkStart(b, k - 1)) ensures i in Below(C, ChunkStart(b, k)) {
        OuterAtLeast(b, i, k);
        OuterAtLeast(b, i, k - 1);
      }
      assert Below(C, ChunkStart(b, k)) == Below(C, ChunkStart(b, k - 1));
    } else {
      var m := Max(parts[k - 1]);
      var v := Fuse(b, k - 1, m);
      FuseInCompose(parts, b, k - 1, m);
      SplitFuse(b, k - 1, m);
      OuterAtLeast(b, v, k);
      forall i | i in Below(C, ChunkStart(b, k)) ensures i <= v {
        InCompose(parts, b, i);
        OuterAtLeast(b, i, k);
        FuseSplit(b, i);
        FuseOrder(b, Outer(b, i), Inner(b, i), k - 1, m);
      }
      LastIs(Below(C, ChunkStart(b, k)), v);
    }
  }

  /** `next_after` in two levels: the next position in the chunk of
      `current`, when that chunk exists and has one, and otherwise the first
      index from the start of the following chunk. */
  lemma {:induction false} NextAfterSplit(parts: seq<set<nat>>, b: nat, current: nat)
    requires b > 0 && PartsIn(parts, b)
    ensures
      var o, n := Outer(b, current), Inner(b, current);
      NextAfter(Compose(parts, b), current) ==
        if o < |parts| && NextAfter(parts[o], n).Some? then Some(Fuse(b, o, NextAfter(parts[o], n).value))
        else First(AtLeast(Compose(parts, b), ChunkStart(b, o + 1)))
  {
    var C := Compose(parts, b);
    var o, n := Outer(b, current), Inner(b, current);
    FuseSplit(b, current);
    if o < |parts| && NextAfter(parts[o], n).Some? {
      var m := NextAfter(parts[o], n).value;
      var v := Fuse(b, o, m);
      FuseInCompose(parts, b, o, m);
      FuseOrder(b, o, n, o, m);
      forall i | i in Above(C, current) ensures v <= i {
        InCompose(parts, b, i);
        FuseSplit(b, i);
        FuseOrder(b, o, n, Outer(b, i), Inner(b, i));
        FuseOrder(b, o, m, Outer(b, i), Inner(b, i));
        FuseOrder(b, Outer(b, i), Inner(b, i), o, n);
        if Outer(b, i) == o {
          assert Inner(b, i) in Above(parts[o], n);
        }
      }
      FirstIs(Above(C, current), v);
    } else {
      if o < |parts| {
        forall x | x in parts[o] ensures x <= n {
          assert x !in Above(parts[o], n);
        }
      }
      forall i | i in Above(C, current) ensures i in AtLeast(C, ChunkStart(b, o + 1)) {
        InCompose(parts, b, i);
        FuseSplit(b, i);
        OuterAtLeast(b, i, o + 1);
        FuseOrder(b, Outer(b, i), Inner(b, i), o, n);
      }
      forall i | i in AtLeast(C, ChunkStart(b, o + 1)) ensures i in Above(C, current) {
        OuterAtLeast(b, i, o + 1);
        FuseSplit(b, i);
        FuseOrder(b, o, n, Outer(b, i), Inner(b, i));
      }
      assert Above(C, current) == AtLeast(C, ChunkStart(b, o + 1));
    }
  }

  /** `next_before` in two levels: the previous position in the chunk of
      `current`, when that chunk exists and has one, and otherwise the last
      index below the start of chunk `min(outer, number of chunks)`. */
  lemma {:induction false} NextBeforeSplit(parts: seq<set<nat>>, b: nat, current: nat)
    requires b > 0 && PartsIn(parts, b)
    ensures
      var o, n := Outer(b, current), Inner(b, current);
      var limit := if o < |parts| then o else |parts|;
      NextBefore(Compose(parts, b), current) ==
        if o < |parts| && NextBefore(parts[o], n).Some? then Some(Fuse(b, o, NextBefore(parts[o], n).value))
        else Last(Below(Compose(parts, b), ChunkStart(b, limit)))
  {
    var C := Compose(parts, b);
    var o, n := Outer(b, current), Inner(b, current);
    var limit := if o < |parts| then o else |parts|;
    FuseSplit(b, current);
    if o < |parts| && NextBefore(parts[o], n).Some? {
      var m := NextBefore(parts[o], n).value;
      var v := Fuse(b, o, m);
      FuseInCompose(parts, b, o, m);
      FuseOrder(b, o, m, o, n);
      forall i | i in Below(C, current) ensures i <= v {
        InCompose(parts, b, i);
        FuseSplit(b, i);
        FuseOrder(b, Outer(b, i), Inner(b, i), o, n);
        FuseOrder(b, Outer(b, i), Inner(b, i), o, m);
        FuseOrder(b, o, n, Outer(b, i), Inner(b, i));
        if Outer(b, i) == o {
          assert Inner(b, i) in Below(parts[o], n);
        }
      }
      LastIs(Below(C, current), v);
    } else {
      if o < |parts| {
        forall x | x in parts[o] ensures x >= n {
          assert x !in Below(parts[o], n);
        }
      }
      forall i | i in Below(C, current) ensures i in Below(C, ChunkStart(b, limit)) {
        InCompose(parts, b, i);
        FuseSplit(b, i);
        OuterAtLeast(b, i, limit);
        FuseOrder(b, o, n, Outer(b, i), Inner(b, i));
      }
      forall i | i in Below(C, ChunkStart(b, limit)) ensures i in Below(C, current) {
        OuterAtLeast(b, i, limit);
        FuseSplit(b, i);
        FuseOrder(b, Outer(b, i), Inner(b, i), o, n);
      }
      assert Below(C, current) == Below(C, ChunkStart(b, limit));
    }
  }

  /** The total of the chunk sizes. */
  function SumCard(parts: seq<set<nat>>): nat {
    if parts == [] then 0 else SumCard(parts[..|parts| - 1]) + |parts[|parts| - 1]|
  }

  /** The positions of one chunk, placed at chunk `o`. */
  function Placed(p: set<nat>, b: nat, o: nat): set<nat> {
    set x | x in p :: Fuse(b, o, x)
  }

  /** Placing a chunk's positions is injective, so it keeps their number. */
  lemma {:induction false} PlacedCard(p: set<nat>, b: nat, o: nat)
    requires forall x :: x in p ==> x < b
    ensures |Placed(p, b, o)| == |p|
    decreases |p|
  {
    if p != {} {
      var x :| x in p;
      var q := p - {x};
      PlacedCard(q, b, o);
      assert Placed(p, b, o) == Placed(q, b, o) + {Fuse(b, o, x)};
      if Fuse(b, o, x) in Placed(q, b, o) {
        var y :| y in q && Fuse(b, o, y) == Fuse(b, o, x);
        SplitFuse(b, o, x);
        SplitFuse(b, o, y);
      }
    }
  }

  /** The indexes held by a sequence of chunks split into those of all the
      chunks but the last, and those of the last one. */
  lemma ComposeSnoc(parts: seq<set<nat>>, b: nat)
    requires b > 0 && PartsIn(parts, b) && parts != []
    ensures
      var m := |parts| - 1;
      Compose(parts, b) == Compose(parts[..m], b) + Placed(parts[m], b, m)
      && Compose(parts[..m], b) !! Placed(parts[m], b, m)
  {
    var m := |parts| - 1;
    var C, P, L := Compose(parts, b), Compose(parts[..m], b), Placed(parts[m], b, m);
    forall i | i in C ensures i in P + L {
      InCompose(parts, b, i);
      InCompose(parts[..m], b, i);
      FuseSplit(b, i);
      if Outer(b, i) == m {
        assert i == Fuse(b, m, Inner(b, i));
      }
    }
    forall i | i in P + L ensures i in C {
      if i in P {
        InCompose(parts[..m], b, i);
        InCompose(parts, b, i);
      } else {
        var x :| x in parts[m] && i == Fuse(b, m, x);
        FuseInCompose(parts, b, m, x);
      }
    }
    forall i | i in P && i in L ensures false {
      InCompose(parts[..m], b, i);
      var x :| x in parts[m] && i == Fuse(b, m, x);
      SplitFuse(b, m, x);
    }
  }

  /** The number of indexes held is the total of the chunk sizes. */
  lemma {:induction false} ComposeCard(parts: seq<set<nat>>, b: nat)
    requires b > 0 && PartsIn(parts, b)
    ensures |Compose(parts, b)| == SumCard(parts)
  {
    if parts == [] {
      assert Compose(parts, b) == {};
    } else {
      var m := |parts| - 1;
      ComposeSnoc(parts, b);
      ComposeCard(parts[..m], b);
      PlacedCard(parts[m], b, m);
    }
  }

  /** Replacing the content of one chunk changes the total by the
      difference of the two sizes; in particular no chunk outweighs the total. */
  lemma {:induction false} SumCardUpdate(parts: seq<set<nat>>, o: nat, p: set<nat>)
    requires o < |parts|
    ensures SumCard(parts[o := p]) + |parts[o]| == SumCard(parts) + |p|
    ensures |parts[o]| <= SumCard(parts)
  {
    var m := |parts| - 1;
    if o == m {
      assert parts[o := p][..m] == parts[..m];
    } else {
      assert parts[o := p][..m] == parts[..m][o := p];
      SumCardUpdate(parts[..m], o, p);
    }
  }

  /** Chunks appended empty add no index. */
  lemma ComposeExtend(parts: seq<set<nat>>, extra: seq<set<nat>>, b: nat)
    requires b > 0
    requires forall k :: 0 <= k < |extra| ==> extra[k] == {}
    ensures Compose(parts + extra, b) == Compose(parts, b)
  {
    forall i: nat ensures i in Compose(parts + extra, b) <==> i in Compose(parts, b) {
      InCompose(parts + extra, b, i);
      InCompose(parts, b, i);
      if |parts| <= Outer(b, i) < |parts| + |extra| {
        assert (parts + extra)[Outer(b, i)] == extra[Outer(b, i) - |parts|];
      }
    }
  }

  /** The chunks hold nothing exactly when each chunk holds nothing. */
  lemma ComposeEmpty(parts: seq<set<nat>>, b: nat)
    requires b > 0 && PartsIn(parts, b)
    ensures Compose(parts, b) == {} <==> forall k :: 0 <= k < |parts| ==> parts[k] == {}
  {
    if Compose(parts, b) == {} {
      forall k, x | 0 <= k < |parts| && x in parts[k] ensures false {
        FuseInCompose(parts, b, k, x);
      }
    } else {
      var i :| i in Compose(parts, b);
      InCompose(parts, b, i);
    }
  }

  /** Replacing the content of chunk `o` replaces exactly the indexes of
      that chunk, and leaves the others alone. */
  lemma ComposeUpdate(parts: seq<set<nat>>, b: nat, o: nat, p: set<nat>, i: nat)
    requires b > 0 && o < |parts|
    ensures i in Compose(parts[o := p], b) <==>
      if Outer(b, i) == o then Inner(b, i) in p else i in Compose(parts, b)
  {
    InCompose(parts, b, i);
    InCompose(parts[o := p], b, i);
  }

  /** Chunks whose contents are the complements of `parts` within their span
      hold the complement of `Compose(parts, b)` below the end of the last chunk. */
  lemma ComposeComplement(parts: seq<set<nat>>, comp: seq<set<nat>>, b: nat)
    requires b > 0 && |comp| == |parts|
    requires forall k :: 0 <= k < |parts| ==> comp[k] == Range(b) - parts[k]
    ensures Compose(comp, b) == Range(ChunkStart(b, |parts|)) - Compose(parts, b)
  {
    forall i: nat ensures i in Compose(comp, b) <==> i in Range(ChunkStart(b, |parts|)) - Compose(parts, b) {
      InCompose(parts, b, i);
      InCompose(comp, b, i);
      OuterAtLeast(b, i, |parts|);
      FuseSplit(b, i);
    }
  }
}
