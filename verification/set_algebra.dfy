/** The lazy set-algebra iterators of `IndexSet`: `Difference`,
    `Intersection`, `SymmetricDifference` and `Union`. They walk the left
    store (then, for the last two, the right one) with `next_after`,
    probing the other store with `contains` and skipping what does not
    belong to the result.

    Each iterator is described by the sequence it still yields; `next`
    yields its head and leaves its tail. The stores are modelled by their
    sets of indexes, and the walk is in increasing order. */
module SetAlgebra {
  import opened Wrappers
  import opened Ordered
  import opened Cursors
  import Index
  import SetExtract

  /** "Not contained in `R`", the filter of `Difference`. */
  function NotIn(R: set<nat>): nat -> bool {
    x => x !in R
  }

  /** "Contained in `R`", the filter of `Intersection`. */
  function In(R: set<nat>): nat -> bool {
    x => x in R
  }

  /** The indexes of `S` a filter selects. */
  function Kept(S: set<nat>, p: nat -> bool): set<nat> {
    SetExtract.Matched(S, p)
  }

  lemma KeptNotIn(L: set<nat>, R: set<nat>)
    ensures Kept(L, NotIn(R)) == L - R
  {
  }

  lemma KeptIn(L: set<nat>, R: set<nat>)
    ensures Kept(L, In(R)) == L * R
  {
  }

  /** The loop shared by the `next` of the filtering iterators: skip the
      indexes the filter rejects, then yield the first it selects and move
      past it. It yields the first selected index from the cursor on, and
      what remains selected afterwards is what came after it. */
  function Scan(S: set<nat>, p: nat -> bool, c: Option<nat>): (r: (Option<nat>, Option<nat>))
    requires OnSet(S, c)
    ensures OnSet(S, r.0)
    ensures r.1 == Head(Ascending(Kept(Rest(S, c), p)))
    ensures Ascending(Kept(Rest(S, r.0), p)) == Drop(Ascending(Kept(Rest(S, c), p)), 1)
    ensures r.1.None? ==> r.0.None?
    decreases |Rest(S, c)|
  {
    match c
    case None => (None, None)
    case Some(index) =>
      RestStep(S, index);
      SetExtract.MatchedStep(S, p, index);
      if !p(index) then Scan(S, p, NextAfter(S, index))
      else (NextAfter(S, index), Some(index))
  }

  /** The head and tail of a concatenation whose first part may be empty. */
  lemma HeadDropConcat(a: seq<nat>, b: seq<nat>)
    ensures a == [] ==> Head(a + b) == Head(b) && Drop(a + b, 1) == Drop(b, 1)
    ensures a != [] ==> Head(a + b) == Head(a) && Drop(a + b, 1) == Drop(a, 1) + b
  {
    if a == [] {
      assert a + b == b;
    } else {
      assert (a + b)[1..] == a[1..] + b;
    }
  }

  /** The elements of a concatenation. */
  lemma ElemsConcat(a: seq<nat>, b: seq<nat>)
    ensures Elems(a + b) == Elems(a) + Elems(b)
  {
    forall x | x in Elems(a) + Elems(b) ensures x in Elems(a + b) {
      if x in Elems(a) {
        var i :| 0 <= i < |a| && a[i] == x;
        assert (a + b)[i] == x;
      } else {
        var i :| 0 <= i < |b| && b[i] == x;
        assert (a + b)[|a| + i] == x;
      }
    }
  }

  /** Two duplicate-free sequences with no common element concatenate into
      a duplicate-free sequence. */
  lemma NoDuplicateConcat(a: seq<nat>, b: seq<nat>)
    requires Index.NoDuplicate(a) && Index.NoDuplicate(b) && Elems(a) * Elems(b) == {}
    ensures Index.NoDuplicate(a + b)
  {
    var xs := a + b;
    forall i, j | 0 <= i < j < |xs| ensures xs[i] != xs[j] {
      if j < |a| {
        assert xs[i] == a[i] && xs[j] == a[j];
      } else if i >= |a| {
        assert xs[i] == b[i - |a|] && xs[j] == b[j - |a|];
      } else {
        assert xs[i] == a[i] && xs[j] == b[j - |a|];
        assert a[i] in Elems(a) && b[j - |a|] in Elems(b);
        assert a[i] !in Elems(a) * Elems(b);
      }
    }
  }

  /** An increasing sequence holds no duplicate. */
  lemma IncreasingNoDuplicate(xs: seq<nat>)
    requires Increasing(xs)
    ensures Index.NoDuplicate(xs)
  {
  }

  /** Two disjoint sets enumerated one after the other: every index of
      either, each exactly once. */
  lemma ConcatDisjoint(A: set<nat>, B: set<nat>)
    requires A * B == {}
    ensures Elems(Ascending(A) + Ascending(B)) == A + B
    ensures Index.NoDuplicate(Ascending(A) + Ascending(B))
  {
    AscendingSorted(A);
    AscendingSorted(B);
    IncreasingNoDuplicate(Ascending(A));
    IncreasingNoDuplicate(Ascending(B));
    ElemsConcat(Ascending(A), Ascending(B));
    NoDuplicateConcat(Ascending(A), Ascending(B));
  }

  // ---------------------------------------------------------------------
  //  Difference and Intersection: one cursor on the left store.
  // ---------------------------------------------------------------------

  datatype Filter = Filter(next: Option<nat>)

  /** What a `Difference` still yields. */
  function DifferenceRemaining(L: set<nat>, R: set<nat>, d: Filter): seq<nat> {
    Ascending(Kept(Rest(L, d.next), NotIn(R)))
  }

  /** `difference`: the cursor at `first` of the left store; the iterator
      yields the indexes of `L` not in `R`, in increasing order. */
  function Difference(L: set<nat>, R: set<nat>): (d: Filter)
    ensures OnSet(L, d.next) && DifferenceRemaining(L, R, d) == Ascending(L - R)
  {
    RestFirst(L);
    KeptNotIn(L, R);
    Filter(First(L))
  }

  /** `Difference::next`: skips the left indexes the right store contains. */
  function DifferenceNext(L: set<nat>, R: set<nat>, d: Filter): (r: (Filter, Option<nat>))
    requires OnSet(L, d.next)
    ensures OnSet(L, r.0.next)
    ensures r.1 == Head(DifferenceRemaining(L, R, d))
    ensures DifferenceRemaining(L, R, r.0) == Drop(DifferenceRemaining(L, R, d), 1)
  {
    var s := Scan(L, NotIn(R), d.next);
    (Filter(s.0), s.1)
  }

  /** What an `Intersection` still yields. */
  function IntersectionRemaining(L: set<nat>, R: set<nat>, d: Filter): seq<nat> {
    Ascending(Kept(Rest(L, d.next), In(R)))
  }

  /** `intersection`: the indexes of `L` also in `R`, in increasing order. */
  function Intersection(L: set<nat>, R: set<nat>): (d: Filter)
    ensures OnSet(L, d.next) && IntersectionRemaining(L, R, d) == Ascending(L * R)
  {
    RestFirst(L);
    KeptIn(L, R);
    Filter(First(L))
  }

  /** `Intersection::next`: skips the left indexes the right store lacks. */
  function IntersectionNext(L: set<nat>, R: set<nat>, d: Filter): (r: (Filter, Option<nat>))
    requires OnSet(L, d.next)
    ensures OnSet(L, r.0.next)
    ensures r.1 == Head(IntersectionRemaining(L, R, d))
    ensures IntersectionRemaining(L, R, r.0) == Drop(IntersectionRemaining(L, R, d), 1)
  {
    var s := Scan(L, In(R), d.next);
    (Filter(s.0), s.1)
  }

  // ---------------------------------------------------------------------
  //  SymmetricDifference and Union: a cursor on each store.
  // ---------------------------------------------------------------------

  datatype Pair = Pair(nextLeft: Option<nat>, nextRight: Option<nat>)

  predicate PairOn(L: set<nat>, R: set<nat>, q: Pair) {
    OnSet(L, q.nextLeft) && OnSet(R, q.nextRight)
  }

  /** Both cursors at `first` of their store. */
  function Start(L: set<nat>, R: set<nat>): (q: Pair)
    ensures PairOn(L, R, q) && Rest(L, q.nextLeft) == L && Rest(R, q.nextRight) == R
  {
    RestFirst(L);
    RestFirst(R);
    Pair(First(L), First(R))
  }

  /** What a `SymmetricDifference` still yields: the left indexes not on
      the right, then the right indexes not on the left. */
  function SymmetricDifferenceRemaining(L: set<nat>, R: set<nat>, q: Pair): seq<nat> {
    Ascending(Kept(Rest(L, q.nextLeft), NotIn(R))) + Ascending(Kept(Rest(R, q.nextRight), NotIn(L)))
  }

  /** `symmetric_difference`: every index in exactly one of the stores,
      each once. */
  function SymmetricDifference(L: set<nat>, R: set<nat>): (q: Pair)
    ensures PairOn(L, R, q)
    ensures SymmetricDifferenceRemaining(L, R, q) == Ascending(L - R) + Ascending(R - L)
    ensures Elems(SymmetricDifferenceRemaining(L, R, q)) == (L - R) + (R - L)
    ensures Index.NoDuplicate(SymmetricDifferenceRemaining(L, R, q))
  {
    KeptNotIn(L, R);
    KeptNotIn(R, L);
    ConcatDisjoint(L - R, R - L);
    Start(L, R)
  }

  /** `SymmetricDifference::next`: the left scan until it is exhausted,
      then the right scan. */
  function SymmetricDifferenceNext(L: set<nat>, R: set<nat>, q: Pair): (r: (Pair, Option<nat>))
    requires PairOn(L, R, q)
    ensures PairOn(L, R, r.0)
    ensures r.1 == Head(SymmetricDifferenceRemaining(L, R, q))
    ensures SymmetricDifferenceRemaining(L, R, r.0) == Drop(SymmetricDifferenceRemaining(L, R, q), 1)
  {
    HeadDropConcat(Ascending(Kept(Rest(L, q.nextLeft), NotIn(R))), Ascending(Kept(Rest(R, q.nextRight), NotIn(L))));
    var left := Scan(L, NotIn(R), q.nextLeft);
    if left.1.Some? then
      (Pair(left.0, q.nextRight), left.1)
    else
      var right := Scan(R, NotIn(L), q.nextRight);
      (Pair(left.0, right.0), right.1)
  }

  /** What a `Union` still yields: the left indexes, then the right
      indexes not on the left. */
  function UnionRemaining(L: set<nat>, R: set<nat>, q: Pair): seq<nat> {
    Ascending(Rest(L, q.nextLeft)) + Ascending(Kept(Rest(R, q.nextRight), NotIn(L)))
  }

  /** `union`: every index of either store, each once. */
  function Union(L: set<nat>, R: set<nat>): (q: Pair)
    ensures PairOn(L, R, q)
    ensures UnionRemaining(L, R, q) == Ascending(L) + Ascending(R - L)
    ensures Elems(UnionRemaining(L, R, q)) == L + R
    ensures Index.NoDuplicate(UnionRemaining(L, R, q))
  {
    KeptNotIn(R, L);
    ConcatDisjoint(L, R - L);
    Start(L, R)
  }

  /** `Union::next`: every left index, then the right scan skipping the
      indexes the left store contains. */
  function UnionNext(L: set<nat>, R: set<nat>, q: Pair): (r: (Pair, Option<nat>))
    requires PairOn(L, R, q)
    ensures PairOn(L, R, r.0)
    ensures r.1 == Head(UnionRemaining(L, R, q))
    ensures UnionRemaining(L, R, r.0) == Drop(UnionRemaining(L, R, q), 1)
  {
    HeadDropConcat(Ascending(Rest(L, q.nextLeft)), Ascending(Kept(Rest(R, q.nextRight), NotIn(L))));
    match q.nextLeft
    case Some(a) =>
      RestStep(L, a);
      (Pair(NextAfter(L, a), q.nextRight), Some(a))
    case None =>
      var right := Scan(R, NotIn(L), q.nextRight);
      (Pair(None, right.0), right.1)
  }
}
