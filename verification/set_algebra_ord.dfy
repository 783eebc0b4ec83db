/** The set-algebra iterators of `IndexOrdSet` that take advantage of both
    stores being ordered: `SymmetricDifferenceOrd`, `IntersectionOrd` and
    `UnionOrd`. Each keeps a cursor on either store and merges the two
    walks, so that every index is yielded in increasing order without
    probing the other store (except `IntersectionOrd`, which leaps over
    whole runs of one store and then probes a single index).

    The state of a merge is described by the set of indexes it still
    yields, computed from what each cursor still has to visit; `next`
    yields the least of them and removes it. */
module SetAlgebraOrd {
  import opened Wrappers
  import opened Ordered
  import opened Cursors
  import opened SetAlgebra

  /** What the left cursor still has to visit. */
  function RL(L: set<nat>, q: Pair): set<nat> {
    Rest(L, q.nextLeft)
  }

  /** What the right cursor still has to visit. */
  function RR(R: set<nat>, q: Pair): set<nat> {
    Rest(R, q.nextRight)
  }

  /** Yielding the least index `y` of a pending set `P` and leaving
      `P - {y}`: the head of its enumeration, and its tail. */
  lemma Yield(P: set<nat>, P': set<nat>, y: nat)
    requires y in P && (forall x :: x in P ==> y <= x) && P' == P - {y}
    ensures Head(Ascending(P)) == Some(y) && Ascending(P') == Drop(Ascending(P), 1)
  {
    AscendingTake(P, y);
  }

  /** Nothing pending: nothing yielded and nothing left. */
  lemma YieldNothing(P: set<nat>)
    requires P == {}
    ensures Head(Ascending(P)) == None && Ascending(P) == Drop(Ascending(P), 1)
  {
  }

  /** The least element of `A`, below every element of `B`, is the least
      element of their union, and removing it from `A` removes it from the
      union. */
  lemma LeastOfUnion(A: set<nat>, B: set<nat>, a: nat)
    requires a in A && (forall x :: x in A ==> a <= x) && (forall x :: x in B ==> a < x)
    ensures a in A + B && (forall x :: x in A + B ==> a <= x)
    ensures (A - {a}) + B == (A + B) - {a}
  {
  }

  /** The mirror of `LeastOfUnion`, the least element being in `B`. */
  lemma LeastOfUnionRight(A: set<nat>, B: set<nat>, b: nat)
    requires b in B && (forall x :: x in B ==> b <= x) && (forall x :: x in A ==> b < x)
    ensures b in A + B && (forall x :: x in A + B ==> b <= x)
    ensures A + (B - {b}) == (A + B) - {b}
  {
  }

  // ---------------------------------------------------------------------
  //  UnionOrd.
  // ---------------------------------------------------------------------

  /** What a `UnionOrd` still yields: whatever either cursor has to visit. */
  function UnionPending(L: set<nat>, R: set<nat>, q: Pair): set<nat> {
    RL(L, q) + RR(R, q)
  }

  /** `union` on ordered sets: both cursors at `first`; the merge yields the
      ascending enumeration of the union. */
  function UnionOrd(L: set<nat>, R: set<nat>): (q: Pair)
    ensures PairOn(L, R, q)
    ensures Ascending(UnionPending(L, R, q)) == Ascending(L + R)
  {
    Start(L, R)
  }

  /** Taking the left cursor `a` of a union when the right cursor is
      exhausted or past it: `a` is the least pending index, and moving the
      left cursor on leaves exactly the others. */
  lemma UnionTakeLeft(L: set<nat>, R: set<nat>, q: Pair, a: nat)
    requires PairOn(L, R, q) && q.nextLeft == Some(a)
    requires q.nextRight.Some? ==> a < q.nextRight.value
    ensures var q' := Pair(NextAfter(L, a), q.nextRight);
      && PairOn(L, R, q')
      && Head(Ascending(UnionPending(L, R, q))) == Some(a)
      && Ascending(UnionPending(L, R, q')) == Drop(Ascending(UnionPending(L, R, q)), 1)
  {
    var q' := Pair(NextAfter(L, a), q.nextRight);
    RestStep(L, a);
    RestLeast(L, a);
    var A, B := RL(L, q), RR(R, q);
    assert RL(L, q') == A - {a};
    assert RR(R, q') == B;
    if q.nextRight.Some? {
      RestLeast(R, q.nextRight.value);
    }
    assert forall x :: x in B ==> a < x;
    LeastOfUnion(A, B, a);
    Yield(A + B, (A - {a}) + B, a);
  }

  /** The mirror of `UnionTakeLeft`. */
  lemma UnionTakeRight(L: set<nat>, R: set<nat>, q: Pair, b: nat)
    requires PairOn(L, R, q) && q.nextRight == Some(b)
    requires q.nextLeft.Some? ==> b < q.nextLeft.value
    ensures var q' := Pair(q.nextLeft, NextAfter(R, b));
      && PairOn(L, R, q')
      && Head(Ascending(UnionPending(L, R, q))) == Some(b)
      && Ascending(UnionPending(L, R, q')) == Drop(Ascending(UnionPending(L, R, q)), 1)
  {
    var q' := Pair(q.nextLeft, NextAfter(R, b));
    RestStep(R, b);
    RestLeast(R, b);
    var A, B := RL(L, q), RR(R, q);
    assert RL(L, q') == A;
    assert RR(R, q') == B - {b};
    if q.nextLeft.Some? {
      RestLeast(L, q.nextLeft.value);
    }
    assert forall x :: x in A ==> b < x;
    LeastOfUnionRight(A, B, b);
    Yield(A + B, A + (B - {b}), b);
  }

  /** Both cursors of a union on the same index: it is yielded once and
      both cursors move on. */
  lemma UnionTakeBoth(L: set<nat>, R: set<nat>, q: Pair, a: nat)
    requires PairOn(L, R, q) && q.nextLeft == Some(a) && q.nextRight == Some(a)
    ensures var q' := Pair(NextAfter(L, a), NextAfter(R, a));
      && PairOn(L, R, q')
      && Head(Ascending(UnionPending(L, R, q))) == Some(a)
      && Ascending(UnionPending(L, R, q')) == Drop(Ascending(UnionPending(L, R, q)), 1)
  {
    var q' := Pair(NextAfter(L, a), NextAfter(R, a));
    RestStep(L, a);
    RestStep(R, a);
    RestLeast(L, a);
    RestLeast(R, a);
    Yield(UnionPending(L, R, q), UnionPending(L, R, q'), a);
  }

  /** `UnionOrd::next`: takes the lesser cursor, or both when they meet. */
  function UnionOrdNext(L: set<nat>, R: set<nat>, q: Pair): (r: (Pair, Option<nat>))
    requires PairOn(L, R, q)
    ensures PairOn(L, R, r.0)
    ensures r.1 == Head(Ascending(UnionPending(L, R, q)))
    ensures Ascending(UnionPending(L, R, r.0)) == Drop(Ascending(UnionPending(L, R, q)), 1)
  {
    match (q.nextLeft, q.nextRight)
    case (None, None) =>
      YieldNothing(UnionPending(L, R, q));
      (q, None)
    case (Some(a), None) =>
      UnionTakeLeft(L, R, q, a);
      (Pair(NextAfter(L, a), None), Some(a))
    case (None, Some(b)) =>
      UnionTakeRight(L, R, q, b);
      (Pair(None, NextAfter(R, b)), Some(b))
    case (Some(a), Some(b)) =>
      if a == b then
        UnionTakeBoth(L, R, q, a);
        (Pair(NextAfter(L, a), NextAfter(R, b)), Some(a))
      else if a < b then
        UnionTakeLeft(L, R, q, a);
        (Pair(NextAfter(L, a), q.nextRight), Some(a))
      else
        UnionTakeRight(L, R, q, b);
        (Pair(q.nextLeft, NextAfter(R, b)), Some(b))
  }

  // ---------------------------------------------------------------------
  //  SymmetricDifferenceOrd.
  // ---------------------------------------------------------------------

  /** What a `SymmetricDifferenceOrd` still yields: what exactly one of the
      cursors has to visit. */
  function SymmetricDifferencePending(L: set<nat>, R: set<nat>, q: Pair): set<nat> {
    Sym(RL(L, q), RR(R, q))
  }

  /** `symmetric_difference` on ordered sets: the merge yields the ascending
      enumeration of the indexes in exactly one of the sets. */
  function SymmetricDifferenceOrd(L: set<nat>, R: set<nat>): (q: Pair)
    ensures PairOn(L, R, q)
    ensures Ascending(SymmetricDifferencePending(L, R, q)) == Ascending((L - R) + (R - L))
  {
    Start(L, R)
  }

  /** The indexes in exactly one of `A` and `B`. */
  function Sym(A: set<nat>, B: set<nat>): set<nat> {
    (A - B) + (B - A)
  }

  /** The least element of `A`, below every element of `B`, is the least
      element in exactly one of them, and removing it from `A` removes it
      from there. */
  lemma LeastOfSym(A: set<nat>, B: set<nat>, a: nat)
    requires a in A && (forall x :: x in A ==> a <= x) && (forall x :: x in B ==> a < x)
    ensures a in Sym(A, B) && (forall x :: x in Sym(A, B) ==> a <= x)
    ensures Sym(A - {a}, B) == Sym(A, B) - {a}
  {
  }

  /** The mirror of `LeastOfSym`, the least element being in `B`. */
  lemma LeastOfSymRight(A: set<nat>, B: set<nat>, b: nat)
    requires b in B && (forall x :: x in B ==> b <= x) && (forall x :: x in A ==> b < x)
    ensures b in Sym(A, B) && (forall x :: x in Sym(A, B) ==> b <= x)
    ensures Sym(A, B - {b}) == Sym(A, B) - {b}
  {
  }

  /** An element of both `A` and `B` is in neither difference: removing it
      from both changes nothing, and leaves fewer elements to visit. */
  lemma SharedOfSym(A: set<nat>, B: set<nat>, a: nat)
    requires a in A && a in B
    ensures Sym(A - {a}, B - {a}) == Sym(A, B)
    ensures |A - {a}| + |B - {a}| < |A| + |B|
  {
  }

  /** Taking the left cursor `a` when the right cursor is exhausted or past
      it: `a` is the least pending index, and moving the left cursor on
      leaves exactly the others. */
  lemma SymmetricDifferenceTakeLeft(L: set<nat>, R: set<nat>, q: Pair, a: nat)
    requires PairOn(L, R, q) && q.nextLeft == Some(a)
    requires q.nextRight.Some? ==> a < q.nextRight.value
    ensures var q' := Pair(NextAfter(L, a), q.nextRight);
      && PairOn(L, R, q')
      && Head(Ascending(SymmetricDifferencePending(L, R, q))) == Some(a)
      && Ascending(SymmetricDifferencePending(L, R, q')) == Drop(Ascending(SymmetricDifferencePending(L, R, q)), 1)
  {
    var q' := Pair(NextAfter(L, a), q.nextRight);
    RestStep(L, a);
    RestLeast(L, a);
    var A, B := RL(L, q), RR(R, q);
    assert RL(L, q') == A - {a};
    assert RR(R, q') == B;
    if q.nextRight.Some? {
      RestLeast(R, q.nextRight.value);
    }
    assert forall x :: x in B ==> a < x;
    LeastOfSym(A, B, a);
    Yield(Sym(A, B), Sym(A - {a}, B), a);
  }

  /** The mirror of `SymmetricDifferenceTakeLeft`. */
  lemma SymmetricDifferenceTakeRight(L: set<nat>, R: set<nat>, q: Pair, b: nat)
    requires PairOn(L, R, q) && q.nextRight == Some(b)
    requires q.nextLeft.Some? ==> b < q.nextLeft.value
    ensures var q' := Pair(q.nextLeft, NextAfter(R, b));
      && PairOn(L, R, q')
      && Head(Ascending(SymmetricDifferencePending(L, R, q))) == Some(b)
      && Ascending(SymmetricDifferencePending(L, R, q')) == Drop(Ascending(SymmetricDifferencePending(L, R, q)), 1)
  {
    var q' := Pair(q.nextLeft, NextAfter(R, b));
    RestStep(R, b);
    RestLeast(R, b);
    var A, B := RL(L, q), RR(R, q);
    assert RL(L, q') == A;
    assert RR(R, q') == B - {b};
    if q.nextLeft.Some? {
      RestLeast(L, q.nextLeft.value);
    }
    assert forall x :: x in A ==> b < x;
    LeastOfSymRight(A, B, b);
    Yield(Sym(A, B), Sym(A, B - {b}), b);
  }

  /** Both cursors on the same index: moving both past it leaves the
      pending indexes unchanged and the cursors with less to visit. */
  lemma SymmetricDifferenceSkip(L: set<nat>, R: set<nat>, q: Pair, a: nat)
    requires PairOn(L, R, q) && q.nextLeft == Some(a) && q.nextRight == Some(a)
    ensures var q' := Pair(NextAfter(L, a), NextAfter(R, a));
      && PairOn(L, R, q')
      && SymmetricDifferencePending(L, R, q') == SymmetricDifferencePending(L, R, q)
      && |RL(L, q')| + |RR(R, q')| < |RL(L, q)| + |RR(R, q)|
  {
    var q' := Pair(NextAfter(L, a), NextAfter(R, a));
    RestStep(L, a);
    RestStep(R, a);
    var A, B := RL(L, q), RR(R, q);
    assert RL(L, q') == A - {a};
    assert RR(R, q') == B - {a};
    RestLeast(L, a);
    RestLeast(R, a);
    SharedOfSym(A, B, a);
  }

  /** `SymmetricDifferenceOrd::next`: takes the lesser cursor; when both
      meet, moves both past the shared index and carries on. */
  function SymmetricDifferenceOrdNext(L: set<nat>, R: set<nat>, q: Pair): (r: (Pair, Option<nat>))
    requires PairOn(L, R, q)
    ensures PairOn(L, R, r.0)
    ensures r.1 == Head(Ascending(SymmetricDifferencePending(L, R, q)))
    ensures Ascending(SymmetricDifferencePending(L, R, r.0)) == Drop(Ascending(SymmetricDifferencePending(L, R, q)), 1)
    decreases |RL(L, q)| + |RR(R, q)|
  {
    match (q.nextLeft, q.nextRight)
    case (None, None) =>
      YieldNothing(SymmetricDifferencePending(L, R, q));
      (q, None)
    case (Some(a), None) =>
      SymmetricDifferenceTakeLeft(L, R, q, a);
      (Pair(NextAfter(L, a), None), Some(a))
    case (None, Some(b)) =>
      SymmetricDifferenceTakeRight(L, R, q, b);
      (Pair(None, NextAfter(R, b)), Some(b))
    case (Some(a), Some(b)) =>
      if a == b then
        SymmetricDifferenceSkip(L, R, q, a);
        SymmetricDifferenceOrdNext(L, R, Pair(NextAfter(L, a), NextAfter(R, b)))
      else if a < b then
        SymmetricDifferenceTakeLeft(L, R, q, a);
        (Pair(NextAfter(L, a), q.nextRight), Some(a))
      else
        SymmetricDifferenceTakeRight(L, R, q, b);
        (Pair(q.nextLeft, NextAfter(R, b)), Some(b))
  }

  // ---------------------------------------------------------------------
  //  IntersectionOrd.
  // ---------------------------------------------------------------------

  /** What an `IntersectionOrd` still yields: what both cursors have to
      visit. */
  function IntersectionPending(L: set<nat>, R: set<nat>, q: Pair): set<nat> {
    RL(L, q) * RR(R, q)
  }

  /** `intersection` on ordered sets: the merge yields the ascending
      enumeration of the indexes in both sets. */
  function IntersectionOrd(L: set<nat>, R: set<nat>): (q: Pair)
    ensures PairOn(L, R, q)
    ensures Ascending(IntersectionPending(L, R, q)) == Ascending(L * R)
  {
    Start(L, R)
  }

  /** A leap past `b`, the least element of `B`: `A'` keeps the elements of
      `A` above `b`. The common elements lose `b` and nothing else, `b` is
      common exactly when `A` holds it, and fewer elements are left. */
  lemma LeapOfMeet(A: set<nat>, B: set<nat>, A': set<nat>, b: nat)
    requires b in B && (forall x :: x in B ==> b <= x)
    requires A' <= A && (forall x :: x in A' ==> b < x) && (forall x :: x in A && b < x ==> x in A')
    ensures A' * (B - {b}) == (A * B) - {b}
    ensures b in A * B <==> b in A
    ensures forall x :: x in A * B ==> b <= x
    ensures |A'| + |B - {b}| < |A| + |B|
  {
    SubsetCard(A', A);
  }

  /** The mirror of `LeapOfMeet`, the leap being past the least element of
      `A`. */
  lemma LeapOfMeetRight(A: set<nat>, B: set<nat>, B': set<nat>, a: nat)
    requires a in A && (forall x :: x in A ==> a <= x)
    requires B' <= B && (forall x :: x in B' ==> a < x) && (forall x :: x in B && a < x ==> x in B')
    ensures (A - {a}) * B' == (A * B) - {a}
    ensures a in A * B <==> a in B
    ensures forall x :: x in A * B ==> a <= x
    ensures |A - {a}| + |B'| < |A| + |B|
  {
    SubsetCard(B', B);
  }

  /** A subset is no larger. */
  lemma SubsetCard(X: set<nat>, Y: set<nat>)
    requires X <= Y
    ensures |X| <= |Y|
  {
    assert Y == X + (Y - X);
  }

  /** The leap of `IntersectionOrd::next` when the left cursor `a` lags
      behind the right one `b`: both cursors move past `b`. The left
      indexes in `[a, b)` are not in the right store, so only `b` can be
      lost, and it is pending exactly when the left store holds it. */
  lemma LeapLeft(L: set<nat>, R: set<nat>, q: Pair, a: nat, b: nat)
    requires PairOn(L, R, q) && q.nextLeft == Some(a) && q.nextRight == Some(b) && a < b
    ensures var q' := Pair(NextAfter(L, b), NextAfter(R, b));
      && PairOn(L, R, q')
      && IntersectionPending(L, R, q') == IntersectionPending(L, R, q) - {b}
      && (b in IntersectionPending(L, R, q) <==> b in L)
      && (forall x :: x in IntersectionPending(L, R, q) ==> b <= x)
      && |RL(L, q')| + |RR(R, q')| < |RL(L, q)| + |RR(R, q)|
  {
    var q' := Pair(NextAfter(L, b), NextAfter(R, b));
    RestStep(R, b);
    RestLeast(R, b);
    Advance(L, b);
    var A, B, A' := RL(L, q), RR(R, q), RL(L, q');
    assert RR(R, q') == B - {b};
    assert A' == AtLeast(L, b + 1);
    assert A == AtLeast(L, a);
    assert b in A <==> b in L;
    LeapOfMeet(A, B, A', b);
  }

  /** The mirror leap, when the right cursor `b` lags behind the left one `a`. */
  lemma LeapRight(L: set<nat>, R: set<nat>, q: Pair, a: nat, b: nat)
    requires PairOn(L, R, q) && q.nextLeft == Some(a) && q.nextRight == Some(b) && b < a
    ensures var q' := Pair(NextAfter(L, a), NextAfter(R, a));
      && PairOn(L, R, q')
      && IntersectionPending(L, R, q') == IntersectionPending(L, R, q) - {a}
      && (a in IntersectionPending(L, R, q) <==> a in R)
      && (forall x :: x in IntersectionPending(L, R, q) ==> a <= x)
      && |RL(L, q')| + |RR(R, q')| < |RL(L, q)| + |RR(R, q)|
  {
    var q' := Pair(NextAfter(L, a), NextAfter(R, a));
    RestStep(L, a);
    RestLeast(L, a);
    Advance(R, a);
    var A, B, B' := RL(L, q), RR(R, q), RR(R, q');
    assert RL(L, q') == A - {a};
    assert B' == AtLeast(R, a + 1);
    assert B == AtLeast(R, b);
    assert a in B <==> a in R;
    LeapOfMeetRight(A, B, B', a);
  }

  /** Both cursors of an intersection on the same index: it is the least
      pending index, and moving both on leaves exactly the others. */
  lemma IntersectionTakeBoth(L: set<nat>, R: set<nat>, q: Pair, a: nat)
    requires PairOn(L, R, q) && q.nextLeft == Some(a) && q.nextRight == Some(a)
    ensures var q' := Pair(NextAfter(L, a), NextAfter(R, a));
      && PairOn(L, R, q')
      && Head(Ascending(IntersectionPending(L, R, q))) == Some(a)
      && Ascending(IntersectionPending(L, R, q')) == Drop(Ascending(IntersectionPending(L, R, q)), 1)
  {
    var q' := Pair(NextAfter(L, a), NextAfter(R, a));
    RestStep(L, a);
    RestStep(R, a);
    RestLeast(L, a);
    RestLeast(R, a);
    var A, B := RL(L, q), RR(R, q);
    assert RL(L, q') == A - {a};
    assert RR(R, q') == B - {a};
    assert (A - {a}) * (B - {a}) == (A * B) - {a};
    Yield(A * B, (A - {a}) * (B - {a}), a);
  }

  /** `IntersectionOrd::next`. Each cursor is taken out before it is
      looked at, so an exhausted right cursor leaves the left one
      exhausted too. When the cursors meet, the shared index is yielded;
      otherwise both leap past the greater one, which is yielded if the
      lagging store holds it, and the loop carries on if not. */
  function IntersectionOrdNext(L: set<nat>, R: set<nat>, q: Pair): (r: (Pair, Option<nat>))
    requires PairOn(L, R, q)
    ensures PairOn(L, R, r.0)
    ensures r.1 == Head(Ascending(IntersectionPending(L, R, q)))
    ensures Ascending(IntersectionPending(L, R, r.0)) == Drop(Ascending(IntersectionPending(L, R, q)), 1)
    decreases |RL(L, q)| + |RR(R, q)|
  {
    match (q.nextLeft, q.nextRight)
    case (None, _) =>
      YieldNothing(IntersectionPending(L, R, q));
      (q, None)
    case (Some(a), None) =>
      YieldNothing(IntersectionPending(L, R, q));
      (Pair(None, None), None)
    case (Some(a), Some(b)) =>
      if a == b then
        IntersectionTakeBoth(L, R, q, a);
        (Pair(NextAfter(L, a), NextAfter(R, b)), Some(a))
      else if a < b then
        LeapLeft(L, R, q, a, b);
        var q' := Pair(NextAfter(L, b), NextAfter(R, b));
        if b in L then
          Yield(IntersectionPending(L, R, q), IntersectionPending(L, R, q'), b);
          (q', Some(b))
        else
          assert IntersectionPending(L, R, q') == IntersectionPending(L, R, q);
          IntersectionOrdNext(L, R, q')
      else
        LeapRight(L, R, q, a, b);
        var q' := Pair(NextAfter(L, a), NextAfter(R, a));
        if a in R then
          Yield(IntersectionPending(L, R, q), IntersectionPending(L, R, q'), a);
          (q', Some(a))
        else
          assert IntersectionPending(L, R, q') == IntersectionPending(L, R, q);
          IntersectionOrdNext(L, R, q')
  }

  // ---------------------------------------------------------------------
  //  Draining the merges.
  // ---------------------------------------------------------------------

  /** Drains a `UnionOrd`: the indexes of both sets, ascending. */
  method CollectUnionOrd(L: set<nat>, R: set<nat>) returns (out: seq<nat>)
    ensures out == Ascending(L + R)
  {
    var q := UnionOrd(L, R);
    out := [];
    while true
      invariant PairOn(L, R, q)
      invariant out + Ascending(UnionPending(L, R, q)) == Ascending(L + R)
      decreases |Ascending(UnionPending(L, R, q))|
    {
      var step := UnionOrdNext(L, R, q);
      if step.1.None? {
        return;
      }
      DrainStep(out, Ascending(UnionPending(L, R, q)), step.1.value);
      out := out + [step.1.value];
      q := step.0;
    }
  }

  /** Drains an `IntersectionOrd`: the indexes common to both sets,
      ascending. */
  method CollectIntersectionOrd(L: set<nat>, R: set<nat>) returns (out: seq<nat>)
    ensures out == Ascending(L * R)
  {
    var q := IntersectionOrd(L, R);
    out := [];
    while true
      invariant PairOn(L, R, q)
      invariant out + Ascending(IntersectionPending(L, R, q)) == Ascending(L * R)
      decreases |Ascending(IntersectionPending(L, R, q))|
    {
      var step := IntersectionOrdNext(L, R, q);
      if step.1.None? {
        return;
      }
      DrainStep(out, Ascending(IntersectionPending(L, R, q)), step.1.value);
      out := out + [step.1.value];
      q := step.0;
    }
  }
}
