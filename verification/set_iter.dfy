/** The iterators over the indexes of a set: `Iter` (and the owning
    `IntoIter`, whose code is the same) walk forward from `first` with
    `next_after`; `IterRev` (and `IntoIterRev`) walk backward from `last`
    with `next_before`; `Drain` walks forward and clears the store when it
    is dropped. Each keeps a cursor `next` and the number `yielded` of
    indexes already produced, from which `len` is computed.

    The store is modelled by the set `S` of its indexes; its `next_after`,
    `next_before`, `nth_after` and `nth_before` are those of `Ordered` and
    `Index`, which every store of the library was shown to refine. */
module SetIters {
  import opened Wrappers
  import opened Ordered
  import opened Cursors
  import Index
  import DS = DynamicStores

  datatype Iter = Iter(next: Option<nat>, yielded: nat)

  /** What a forward iterator still yields. */
  function Remaining(S: set<nat>, it: Iter): seq<nat> {
    Ascending(Rest(S, it.next))
  }

  /** A forward iterator in a reachable state: its cursor is an index of
      the store, and what it still yields is the ascending enumeration of
      the store past the `yielded` indexes already produced. */
  predicate Inv(S: set<nat>, it: Iter) {
    OnSet(S, it.next) && it.yielded <= |S| && Remaining(S, it) == Ascending(S)[it.yielded..]
  }

  /** `iter`: the cursor at `first`, nothing yielded; the iterator yields the
      whole store in increasing order. */
  function New(S: set<nat>): (it: Iter)
    ensures Inv(S, it) && it.yielded == 0
    ensures Remaining(S, it) == Ascending(S)
  {
    RestFirst(S);
    Iter(First(S), 0)
  }

  /** `next`: yields the head of what remains and keeps the iterator in a
      reachable state; an exhausted iterator stays exhausted (it is fused). */
  function Next(S: set<nat>, it: Iter): (r: (Iter, Option<nat>))
    requires Inv(S, it)
    ensures Inv(S, r.0)
    ensures r.1 == Head(Remaining(S, it))
    ensures Remaining(S, r.0) == Drop(Remaining(S, it), 1)
    ensures r.0.yielded == if r.1.Some? then it.yielded + 1 else it.yielded
  {
    match it.next
    case None => (it, None)
    case Some(x) =>
      RestStep(S, x);
      (Iter(NextAfter(S, x), it.yielded + 1), Some(x))
  }

  /** `len` (and `count`): the store's `len` minus what was yielded, which
      in a reachable state is exactly the number of indexes still to come. */
  function Len(S: set<nat>, it: Iter): (r: nat)
    requires Inv(S, it)
    ensures r == |Remaining(S, it)|
  {
    |S| - it.yielded
  }

  /** The indexes of `S` from one of them on: that index and those above. */
  lemma AtLeastSize(S: set<nat>, index: nat)
    requires index in S
    ensures AtLeast(S, index) == Above(S, index) + {index}
    ensures |AtLeast(S, index)| == |Above(S, index)| + 1
  {
    assert index !in Above(S, index);
  }

  /** The mirror of `AtLeastSize`. */
  lemma AtMostSize(S: set<nat>, index: nat)
    requires index in S
    ensures AtMost(S, index) == Below(S, index) + {index}
    ensures |AtMost(S, index)| == |Below(S, index)| + 1
  {
    assert index !in Below(S, index);
  }

  /** The indexes of `S` from position `m + 1` on, counted from `index`,
      are the indexes from the `m`-th one above `index` on. */
  lemma SkipSuffix(S: set<nat>, index: nat, m: nat)
    requires index in S && m < |Above(S, index)|
    ensures |AtLeast(S, index)| == |Above(S, index)| + 1
    ensures var e := Ascending(Above(S, index))[m];
      && e in S && index < e
      && Ascending(AtLeast(S, e)) == Ascending(AtLeast(S, index))[m + 1..]
  {
    var T := Above(S, index);
    RestStep(S, index);
    assert Rest(S, NextAfter(S, index)) == T;
    assert Ascending(AtLeast(S, index)) == [index] + Ascending(T);
    AscendingSuffix(T, m);
    var e := Ascending(T)[m];
    assert AtLeast(S, e) == AtLeast(T, e);
    assert ([index] + Ascending(T))[m + 1..] == Ascending(T)[m..];
  }

  /** The mirror of `SkipSuffix`, below `index`. */
  lemma SkipBackSuffix(S: set<nat>, index: nat, m: nat)
    requires index in S && m < |Below(S, index)|
    ensures |AtMost(S, index)| == |Below(S, index)| + 1
    ensures var e := Descending(Below(S, index))[m];
      && e in S && e < index
      && Descending(AtMost(S, e)) == Descending(AtMost(S, index))[m + 1..]
  {
    var T := Below(S, index);
    RestBackStep(S, index);
    assert RestBack(S, NextBefore(S, index)) == T;
    assert Descending(AtMost(S, index)) == [index] + Descending(T);
    DescendingSuffix(T, m);
    var e := Descending(T)[m];
    assert AtMost(S, e) == AtMost(T, e);
    assert ([index] + Descending(T))[m + 1..] == Descending(T)[m..];
  }

  /** The skip `nth` performs from a cursor on `index`: `nth_after(n - 1,
      index)` reaches position `n` of what remains, or fails with a
      remainder `k` when only `n + 1 - k <= n` indexes remain. */
  lemma SkipTo(S: set<nat>, it: Iter, n: nat)
    requires Inv(S, it) && it.next.Some? && n >= 1
    ensures var nth := Index.NthAfterSpec(S, n - 1, it.next.value);
      && (nth.Reached? ==>
            n < |Remaining(S, it)| && Inv(S, Iter(Some(nth.index), it.yielded + n)) &&
            Remaining(S, Iter(Some(nth.index), it.yielded + n)) == Remaining(S, it)[n..])
      && (nth.Remainder? ==> 1 <= nth.left <= n && |Remaining(S, it)| == n + 1 - nth.left)
  {
    var index := it.next.value;
    AtLeastSize(S, index);
    if n - 1 < |Above(S, index)| {
      SkipReached(S, it, n);
    }
  }

  /** The successful case of `SkipTo`: the `n - 1`-th index above the
      cursor is position `n` of what remains. */
  lemma SkipReached(S: set<nat>, it: Iter, n: nat)
    requires Inv(S, it) && it.next.Some? && 1 <= n && n - 1 < |Above(S, it.next.value)|
    ensures var e := Ascending(Above(S, it.next.value))[n - 1];
      && n < |Remaining(S, it)| && Inv(S, Iter(Some(e), it.yielded + n))
      && Remaining(S, Iter(Some(e), it.yielded + n)) == Remaining(S, it)[n..]
  {
    var index, y, xs := it.next.value, it.yielded, Ascending(S);
    SkipSuffix(S, index, n - 1);
    var e := Ascending(Above(S, index))[n - 1];
    assert Remaining(S, it) == xs[y..];
    assert Remaining(S, Iter(Some(e), y + n)) == xs[y..][n..];
    assert xs[y..][n..] == xs[y + n..];
  }

  /** `nth` with the count kept exact: it yields position `n` of what
      remains and leaves the iterator past it, that is, it behaves as
      `n + 1` calls to `next`. On success it adds `n` to `yielded` before
      the final `next`; on failure it adds every index that remained. */
  function Nth(S: set<nat>, it: Iter, n: nat): (r: (Iter, Option<nat>))
    requires Inv(S, it)
    ensures Inv(S, r.0)
    ensures r.1 == Head(Drop(Remaining(S, it), n))
    ensures Remaining(S, r.0) == Drop(Remaining(S, it), n + 1)
  {
    if n == 0 then Next(S, it)
    else
      match it.next
      case None => (it, None)
      case Some(index) =>
        SkipTo(S, it, n);
        match Index.NthAfterSpec(S, n - 1, index)
        case Reached(e) => Next(S, Iter(Some(e), it.yielded + n))
        case Remainder(k) => (Iter(None, it.yielded + n + 1 - k), None)
  }

  /** Two reachable iterators with the same indexes to come are the same
      iterator. */
  lemma SameRemainingSameIter(S: set<nat>, a: Iter, b: Iter)
    requires Inv(S, a) && Inv(S, b) && Remaining(S, a) == Remaining(S, b)
    ensures a == b
  {
    assert |Remaining(S, a)| == |S| - a.yielded && |Remaining(S, b)| == |S| - b.yielded;
    if a.next.Some? {
      RestStep(S, a.next.value);
      assert b.next.Some? by {
        assert a.next.value in Rest(S, a.next);
        assert Remaining(S, b) != [];
      }
      RestStep(S, b.next.value);
      assert Remaining(S, a)[0] == a.next.value && Remaining(S, b)[0] == b.next.value;
    }
  }

  /** `nth(0)` is `next`, and `nth(n + 1)` is `next` followed by `nth(n)`. */
  lemma NthIsRepeatedNext(S: set<nat>, it: Iter, n: nat)
    requires Inv(S, it)
    ensures Nth(S, it, 0) == Next(S, it)
    ensures Nth(S, it, n + 1) == Nth(S, Next(S, it).0, n)
  {
    var a := Nth(S, it, n + 1);
    var b := Nth(S, Next(S, it).0, n);
    SameRemainingSameIter(S, a.0, b.0);
  }

  /** The outcome of `nth` as written: the iterator it leaves, or the
      subtraction `n - remainder` underflowing. */
  datatype NthOutcome = Stepped(it: Iter, item: Option<nat>) | Underflow

  /** `nth` as written: on success `yielded` grows by `n - 1` and then by 1
      in `next`, although `n + 1` indexes were consumed; on failure with
      remainder `k` it grows by `n - 1 - k`, which underflows when the cursor
      was on the last index. The item and the cursor are right; only the
      count, and so `len`, is wrong. */
  function NthAsWritten(S: set<nat>, it: Iter, n: nat): (r: NthOutcome)
    requires Inv(S, it)
    ensures r.Underflow? <==> n >= 1 && |Remaining(S, it)| == 1
    ensures r.Stepped? ==> r.item == Head(Drop(Remaining(S, it), n))
    ensures r.Stepped? ==> Remaining(S, r.it) == Drop(Remaining(S, it), n + 1)
    ensures r.Stepped? && 1 <= n < |Remaining(S, it)| ==> r.it.yielded + |Remaining(S, r.it)| + 1 == |S|
    ensures r.Stepped? && 2 <= |Remaining(S, it)| <= n ==> r.it.yielded + 2 == |S|
  {
    if n == 0 then
      var step := Next(S, it);
      Stepped(step.0, step.1)
    else
      match it.next
      case None => Stepped(it, None)
      case Some(index) =>
        SkipTo(S, it, n);
        match Index.NthAfterSpec(S, n - 1, index)
        case Reached(e) =>
          var step := Next(S, Iter(Some(e), it.yielded + n));
          Stepped(step.0.(yielded := it.yielded + (n - 1) + 1), step.1)
        case Remainder(k) =>
          if n - 1 < k then Underflow else Stepped(Iter(None, it.yielded + (n - 1) - k), None)
  }

  /** On the store `{0, 1}`, `iter().nth(1)` yields 1 and exhausts the
      iterator, yet `len` then reports 1 instead of 0. */
  lemma NthAsWrittenMiscounts()
    ensures var S := {0, 1};
      var r := NthAsWritten(S, New(S), 1);
      && r.Stepped? && r.item == Some(1) && Remaining(S, r.it) == []
      && |S| - r.it.yielded == 1 && !Inv(S, r.it)
  {
    var S: set<nat> := {0, 1};
    assert Min(S) == 0;
    assert S - {0} == {1};
    assert Min({1}) == 1;
    assert {1} - {1} == {};
    assert Ascending(S) == [0, 1];
  }

  /** On the store `{0}`, `iter().nth(1)` computes `0 - 1`. */
  lemma NthAsWrittenUnderflows()
    ensures NthAsWritten({0}, New({0}), 1).Underflow?
  {
    assert |Ascending({0})| == 1;
  }

  // ---------------------------------------------------------------------
  //  IterRev (and IntoIterRev): the mirror walk.
  // ---------------------------------------------------------------------

  /** What a backward iterator still yields. */
  function RemainingRev(S: set<nat>, it: Iter): seq<nat> {
    Descending(RestBack(S, it.next))
  }

  predicate InvRev(S: set<nat>, it: Iter) {
    OnSet(S, it.next) && it.yielded <= |S| && RemainingRev(S, it) == Descending(S)[it.yielded..]
  }

  /** `iter_rev`: the cursor at `last`; the iterator yields the whole store
      in decreasing order. */
  function NewRev(S: set<nat>): (it: Iter)
    ensures InvRev(S, it) && it.yielded == 0
    ensures RemainingRev(S, it) == Descending(S)
  {
    RestBackLast(S);
    Iter(Last(S), 0)
  }

  /** `next` of `IterRev`, moving with `next_before`. */
  function NextRev(S: set<nat>, it: Iter): (r: (Iter, Option<nat>))
    requires InvRev(S, it)
    ensures InvRev(S, r.0)
    ensures r.1 == Head(RemainingRev(S, it))
    ensures RemainingRev(S, r.0) == Drop(RemainingRev(S, it), 1)
    ensures r.0.yielded == if r.1.Some? then it.yielded + 1 else it.yielded
  {
    match it.next
    case None => (it, None)
    case Some(x) =>
      RestBackStep(S, x);
      (Iter(NextBefore(S, x), it.yielded + 1), Some(x))
  }

  /** `len` of `IterRev`. */
  function LenRev(S: set<nat>, it: Iter): (r: nat)
    requires InvRev(S, it)
    ensures r == |RemainingRev(S, it)|
  {
    |S| - it.yielded
  }

  /** The mirror of `SkipTo` over `nth_before`. */
  lemma SkipBackTo(S: set<nat>, it: Iter, n: nat)
    requires InvRev(S, it) && it.next.Some? && n >= 1
    ensures var nth := Index.NthBeforeSpec(S, n - 1, it.next.value);
      && (nth.Reached? ==>
            n < |RemainingRev(S, it)| && InvRev(S, Iter(Some(nth.index), it.yielded + n)) &&
            RemainingRev(S, Iter(Some(nth.index), it.yielded + n)) == RemainingRev(S, it)[n..])
      && (nth.Remainder? ==> 1 <= nth.left <= n && |RemainingRev(S, it)| == n + 1 - nth.left)
  {
    var index := it.next.value;
    AtMostSize(S, index);
    if n - 1 < |Below(S, index)| {
      SkipBackReached(S, it, n);
    }
  }

  /** The successful case of `SkipBackTo`. */
  lemma SkipBackReached(S: set<nat>, it: Iter, n: nat)
    requires InvRev(S, it) && it.next.Some? && 1 <= n && n - 1 < |Below(S, it.next.value)|
    ensures var e := Descending(Below(S, it.next.value))[n - 1];
      && n < |RemainingRev(S, it)| && InvRev(S, Iter(Some(e), it.yielded + n))
      && RemainingRev(S, Iter(Some(e), it.yielded + n)) == RemainingRev(S, it)[n..]
  {
    var index, y, xs := it.next.value, it.yielded, Descending(S);
    SkipBackSuffix(S, index, n - 1);
    var e := Descending(Below(S, index))[n - 1];
    assert RemainingRev(S, it) == xs[y..];
    assert RemainingRev(S, Iter(Some(e), y + n)) == xs[y..][n..];
    assert xs[y..][n..] == xs[y + n..];
  }

  /** `nth` of `IterRev` with the count kept exact; it behaves as `n + 1`
      calls to `next`. */
  function NthRev(S: set<nat>, it: Iter, n: nat): (r: (Iter, Option<nat>))
    requires InvRev(S, it)
    ensures InvRev(S, r.0)
    ensures r.1 == Head(Drop(RemainingRev(S, it), n))
    ensures RemainingRev(S, r.0) == Drop(RemainingRev(S, it), n + 1)
  {
    if n == 0 then NextRev(S, it)
    else
      match it.next
      case None => (it, None)
      case Some(index) =>
        SkipBackTo(S, it, n);
        match Index.NthBeforeSpec(S, n - 1, index)
        case Reached(e) => NextRev(S, Iter(Some(e), it.yielded + n))
        case Remainder(k) => (Iter(None, it.yielded + n + 1 - k), None)
  }

  /** `nth` of `IterRev` as written, with the same accounting as
      `NthAsWritten`: on success `yielded` grows by `n - 1` and then by 1 in
      `next_back`'s step, on failure by `n - 1 - k`, which underflows when the
      cursor was on the last index still to come. */
  function NthRevAsWritten(S: set<nat>, it: Iter, n: nat): (r: NthOutcome)
    requires InvRev(S, it)
    ensures r.Underflow? <==> n >= 1 && |RemainingRev(S, it)| == 1
    ensures r.Stepped? ==> r.item == Head(Drop(RemainingRev(S, it), n))
    ensures r.Stepped? ==> RemainingRev(S, r.it) == Drop(RemainingRev(S, it), n + 1)
    ensures r.Stepped? && 1 <= n < |RemainingRev(S, it)| ==> r.it.yielded + |RemainingRev(S, r.it)| + 1 == |S|
    ensures r.Stepped? && 2 <= |RemainingRev(S, it)| <= n ==> r.it.yielded + 2 == |S|
  {
    if n == 0 then
      var step := NextRev(S, it);
      Stepped(step.0, step.1)
    else
      match it.next
      case None => Stepped(it, None)
      case Some(index) =>
        SkipBackTo(S, it, n);
        match Index.NthBeforeSpec(S, n - 1, index)
        case Reached(e) =>
          var step := NextRev(S, Iter(Some(e), it.yielded + n));
          Stepped(step.0.(yielded := it.yielded + (n - 1) + 1), step.1)
        case Remainder(k) =>
          if n - 1 < k then Underflow else Stepped(Iter(None, it.yielded + (n - 1) - k), None)
  }

  /** On the store `{0, 1}`, `iter_rev().nth(1)` yields 0 and exhausts the
      iterator, yet `len` then reports 1 instead of 0. */
  lemma NthRevAsWrittenMiscounts()
    ensures var S := {0, 1};
      var r := NthRevAsWritten(S, NewRev(S), 1);
      && r.Stepped? && r.item == Some(0) && RemainingRev(S, r.it) == []
      && |S| - r.it.yielded == 1 && !InvRev(S, r.it)
  {
    var S: set<nat> := {0, 1};
    assert Max(S) == 1;
    assert S - {1} == {0};
    assert Max({0}) == 0;
    assert {0} - {0} == {};
    assert Descending(S) == [1, 0];
  }

  /** On the store `{0}`, `iter_rev().nth(1)` computes `0 - 1`. */
  lemma NthRevAsWrittenUnderflows()
    ensures NthRevAsWritten({0}, NewRev({0}), 1).Underflow?
  {
    assert |Descending({0})| == 1;
  }

  /** Walking a whole store backward yields the exact reverse of walking it
      forward. */
  lemma RevIsReverse(S: set<nat>)
    ensures RemainingRev(S, NewRev(S)) == Reverse(Remaining(S, New(S)))
  {
    DescendingIsReverse(S);
  }

  // ---------------------------------------------------------------------
  //  Drain.
  // ---------------------------------------------------------------------

  /** `k` calls to `next` on a fresh forward iterator over `S`: they yield
      the first `k` indexes in increasing order, or all of them. */
  method TakeNext(S: set<nat>, k: nat) returns (taken: seq<nat>)
    ensures taken == Ascending(S)[..if k <= |S| then k else |S|]
  {
    var it := New(S);
    taken := [];
    var i := 0;
    while i < k
      invariant i <= k
      invariant Inv(S, it) && it.yielded == if i <= |S| then i else |S|
      invariant taken == Ascending(S)[..it.yielded]
    {
      var step := Next(S, it);
      if step.1.Some? {
        PrefixStep(Ascending(S), it.yielded, step.1.value);
        taken := taken + [step.1.value];
      } else {
        PrefixEnd(Ascending(S), it.yielded);
      }
      it := step.0;
      i := i + 1;
    }
  }

  /** `drain` on a dynamic store, `k` calls to `next` on it, then dropping
      it: the calls yield the first `k` indexes in increasing order (or all
      of them), and the drop runs the store's `clear`, which leaves it empty
      with its chunks kept, whatever was consumed. */
  method DrainPrefix(s: DS.DynamicStore, k: nat) returns (taken: seq<nat>, after: DS.DynamicStore)
    requires DS.Valid(s)
    ensures taken == Ascending(DS.Abs(s))[..if k <= |DS.Abs(s)| then k else |DS.Abs(s)|]
    ensures DS.Valid(after) && DS.Abs(after) == {} && |after.chunks| == |s.chunks|
  {
    taken := TakeNext(DS.Abs(s), k);
    after := DS.Clear(s);
  }
}
