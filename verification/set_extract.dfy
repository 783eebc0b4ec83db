/** `retain` and `extract_if`: the two operations that walk a store while
    removing from it. Both move on with `next_after` of the index just
    visited, which may have been removed; `next_after` is total in its
    argument, and what lies above that index is untouched, so the walk
    continues as over the original store `S0`.

    The predicate is a pure function `p`; a predicate with side effects is
    not modelled. */
module SetExtract {
  import opened Wrappers
  import opened Ordered
  import opened Cursors

  /** The indexes of `S` the predicate selects. */
  function Matched(S: set<nat>, p: nat -> bool): set<nat> {
    set x | x in S && p(x)
  }

  /** The indexes of `S` the predicate rejects. */
  function Unmatched(S: set<nat>, p: nat -> bool): set<nat> {
    set x | x in S && !p(x)
  }

  /** The indexes of `S0` a cursor has already moved past. */
  function Passed(S0: set<nat>, c: Option<nat>): set<nat> {
    S0 - Rest(S0, c)
  }

  /** The store part way through the walk: of the indexes passed, only
      those the predicate rejects are left; the rest is untouched. */
  function Walked(S0: set<nat>, p: nat -> bool, c: Option<nat>): set<nat> {
    set x | x in S0 && (x in Rest(S0, c) || !p(x))
  }

  /** At the start nothing is passed. */
  lemma WalkedFirst(S0: set<nat>, p: nat -> bool)
    ensures OnSet(S0, First(S0)) && Walked(S0, p, First(S0)) == S0
    ensures Rest(S0, First(S0)) == S0 && Passed(S0, First(S0)) == {}
  {
    RestFirst(S0);
  }

  /** At the end every passed index the predicate selects is gone. */
  lemma WalkedEnd(S0: set<nat>, p: nat -> bool)
    ensures Walked(S0, p, None) == Unmatched(S0, p)
  {
  }

  /** Behind a cursor on `index` lies what is below `index`. */
  lemma PassedBelow(S0: set<nat>, index: nat)
    ensures Passed(S0, Some(index)) == Below(S0, index)
  {
  }

  /** The store and `S0` agree above the index being visited, whether or
      not that index is then removed. */
  lemma WalkedAbove(S0: set<nat>, p: nat -> bool, index: nat)
    ensures var store := Walked(S0, p, Some(index));
      && Above(store, index) == Above(S0, index)
      && Above(store - {index}, index) == Above(S0, index)
  {
  }

  /** Once the cursor moves past `index`, `index` joins what is passed. */
  lemma PassedStep(S0: set<nat>, index: nat)
    requires index in S0
    ensures OnSet(S0, NextAfter(S0, index))
    ensures Passed(S0, NextAfter(S0, index)) == Below(S0, index) + {index}
  {
    RestStep(S0, index);
    var c := NextAfter(S0, index);
    forall x | x in S0 ensures x in Rest(S0, c) <==> x > index {
    }
  }

  /** Once the cursor moves past `index`, the store of the walk lost
      `index` exactly when the predicate selects it. */
  lemma WalkedStep(S0: set<nat>, p: nat -> bool, index: nat)
    requires index in S0
    ensures var c := NextAfter(S0, index);
      Walked(S0, p, c) == if p(index) then Walked(S0, p, Some(index)) - {index} else Walked(S0, p, Some(index))
  {
    RestStep(S0, index);
    var R, R' := Rest(S0, Some(index)), Rest(S0, NextAfter(S0, index));
    assert index in R && R' == R - {index};
    WalkedMinus(S0, p, R, index);
  }

  /** The walked store, with the part still to visit given as a set `R`. */
  lemma WalkedMinus(S0: set<nat>, p: nat -> bool, R: set<nat>, index: nat)
    requires index in R
    ensures var before := set x | x in S0 && (x in R || !p(x));
      var after := set x | x in S0 && (x in R - {index} || !p(x));
      after == if p(index) then before - {index} else before
  {
  }

  /** Adding an index to a set of passed indexes adds one to its size, and
      one to the size of the part the predicate rejects or selects. */
  lemma CountStep(P: set<nat>, p: nat -> bool, index: nat)
    requires index !in P
    ensures |P + {index}| == |P| + 1
    ensures |Unmatched(P + {index}, p)| == |Unmatched(P, p)| + (if p(index) then 0 else 1)
    ensures |Matched(P + {index}, p)| == |Matched(P, p)| + (if p(index) then 1 else 0)
  {
    if p(index) {
      assert Unmatched(P + {index}, p) == Unmatched(P, p);
      assert Matched(P + {index}, p) == Matched(P, p) + {index};
    } else {
      assert Unmatched(P + {index}, p) == Unmatched(P, p) + {index};
      assert Matched(P + {index}, p) == Matched(P, p);
    }
  }

  /** Once the cursor moves past `index`, one more index is passed, and
      one more rejected one when the predicate rejects `index`. */
  lemma PassedCount(S0: set<nat>, p: nat -> bool, index: nat)
    requires index in S0
    ensures var c := NextAfter(S0, index);
      && |Passed(S0, c)| == |Passed(S0, Some(index))| + 1
      && |Unmatched(Passed(S0, c), p)| == |Unmatched(Passed(S0, Some(index)), p)| + (if p(index) then 0 else 1)
      && |Matched(Passed(S0, c), p)| == |Matched(Passed(S0, Some(index)), p)| + (if p(index) then 1 else 0)
  {
    PassedStep(S0, index);
    PassedBelow(S0, index);
    var P := Passed(S0, Some(index));
    assert Passed(S0, NextAfter(S0, index)) == P + {index};
    CountStep(P, p, index);
  }

  /** The step of the walk from `index`: whether or not `index` is then
      removed, `next_after(index)` on the store is `next_after(index)` on
      `S0`, and the walk moves on with `index` passed. */
  lemma WalkStep(S0: set<nat>, p: nat -> bool, index: nat)
    requires index in S0
    ensures var store := Walked(S0, p, Some(index));
      && NextAfter(store, index) == NextAfter(S0, index)
      && NextAfter(store - {index}, index) == NextAfter(S0, index)
    ensures var c := NextAfter(S0, index);
      && OnSet(S0, c)
      && index in Rest(S0, Some(index)) && Rest(S0, c) == Rest(S0, Some(index)) - {index}
      && Walked(S0, p, c) == (if p(index) then Walked(S0, p, Some(index)) - {index} else Walked(S0, p, Some(index)))
      && |Passed(S0, c)| == |Passed(S0, Some(index))| + 1
      && |Unmatched(Passed(S0, c), p)| == |Unmatched(Passed(S0, Some(index)), p)| + (if p(index) then 0 else 1)
      && |Matched(Passed(S0, c), p)| == |Matched(Passed(S0, Some(index)), p)| + (if p(index) then 1 else 0)
  {
    WalkedAbove(S0, p, index);
    RestStep(S0, index);
    WalkedStep(S0, p, index);
    PassedCount(S0, p, index);
  }

  // ---------------------------------------------------------------------
  //  retain.
  // ---------------------------------------------------------------------

  /** `retain`: walks the store from `first`, removing every index the
      predicate rejects; afterwards the store holds exactly the indexes
      the predicate accepts. */
  method Retain(S0: set<nat>, p: nat -> bool) returns (S: set<nat>)
    ensures S == Matched(S0, p)
  {
    var rejects := (x: nat) => !p(x);
    S := S0;
    var cursor := First(S);
    WalkedFirst(S0, rejects);
    while cursor.Some?
      invariant OnSet(S0, cursor)
      invariant S == Walked(S0, rejects, cursor)
      decreases |Rest(S0, cursor)|
    {
      var index := cursor.value;
      WalkStep(S0, rejects, index);
      if !p(index) {
        S := S - {index};
      }
      cursor := NextAfter(S, index);
    }
    assert S == Unmatched(S0, rejects);
  }

  // ---------------------------------------------------------------------
  //  extract_if.
  // ---------------------------------------------------------------------

  /** The extracting iterator: the store it borrows, its cursor, and the
      count `passed` that `size_hint` uses. */
  datatype ExtractIf = ExtractIf(store: set<nat>, next: Option<nat>, passed: nat)

  /** What the iterator still yields: the selected indexes from the cursor
      on, in increasing order. */
  function Remaining(S0: set<nat>, p: nat -> bool, e: ExtractIf): seq<nat> {
    Ascending(Matched(Rest(S0, e.next), p))
  }

  /** A reachable state, with `passed` counting the indexes skipped, that
      is the ones left in the store behind the cursor. */
  predicate Inv(S0: set<nat>, p: nat -> bool, e: ExtractIf) {
    OnSet(S0, e.next) && e.store == Walked(S0, p, e.next)
    && e.passed == |Unmatched(Passed(S0, e.next), p)|
  }

  /** `extract_if`: the cursor at `first`, nothing passed. */
  function New(S0: set<nat>, p: nat -> bool): (e: ExtractIf)
    ensures Inv(S0, p, e) && InvAsWritten(S0, p, e)
    ensures e.store == S0 && Remaining(S0, p, e) == Ascending(Matched(S0, p))
  {
    WalkedFirst(S0, p);
    ExtractIf(S0, First(S0), 0)
  }

  /** The selected indexes from `index` on: `index` itself when selected,
      then those past it. */
  lemma MatchedStep(S0: set<nat>, p: nat -> bool, index: nat)
    requires index in S0
    ensures var here := Matched(Rest(S0, Some(index)), p);
      var after := Matched(Rest(S0, NextAfter(S0, index)), p);
      && (p(index) ==> Ascending(here) == [index] + Ascending(after))
      && (!p(index) ==> here == after)
  {
    RestStep(S0, index);
    var here := Matched(Rest(S0, Some(index)), p);
    var after := Matched(Rest(S0, NextAfter(S0, index)), p);
    if p(index) {
      assert here - {index} == after;
      assert index in here;
      assert Min(here) == index;
    } else {
      assert here == after;
    }
  }

  /** `next`, with `passed` counting only skipped indexes: it skips the
      indexes the predicate rejects, then removes and yields the first one
      it accepts. It yields the head of what remains, and the store loses
      exactly that index. */
  function Next(S0: set<nat>, p: nat -> bool, e: ExtractIf): (r: (ExtractIf, Option<nat>))
    requires Inv(S0, p, e)
    ensures Inv(S0, p, r.0)
    ensures r.1 == Head(Remaining(S0, p, e))
    ensures Remaining(S0, p, r.0) == Drop(Remaining(S0, p, e), 1)
    ensures r.0.store == if r.1.Some? then e.store - {r.1.value} else e.store
    ensures r.1.None? ==> r.0.next.None?
    decreases |Rest(S0, e.next)|
  {
    match e.next
    case None => (e, None)
    case Some(index) =>
      WalkStep(S0, p, index);
      MatchedStep(S0, p, index);
      if !p(index) then
        Next(S0, p, ExtractIf(e.store, NextAfter(e.store, index), e.passed + 1))
      else
        var store := e.store - {index};
        (ExtractIf(store, NextAfter(store, index), e.passed), Some(index))
  }

  /** `size_hint` with `passed` counting only skipped indexes: the upper
      bound is the number of indexes from the cursor on, which bounds what
      the iterator still yields. */
  function SizeHint(S0: set<nat>, p: nat -> bool, e: ExtractIf): (r: (nat, Option<nat>))
    requires Inv(S0, p, e)
    ensures r.1 == Some(|Rest(S0, e.next)|)
    ensures |Remaining(S0, p, e)| <= r.1.value
  {
    StoreSize(S0, p, e.next);
    var R := Rest(S0, e.next);
    assert R == Matched(R, p) + Unmatched(R, p) && Matched(R, p) * Unmatched(R, p) == {};
    (0, Some(|e.store| - e.passed))
  }

  /** The store part way through the walk holds the rejected indexes
      passed and every index from the cursor on; the passed indexes split
      into rejected and selected ones. */
  lemma StoreSize(S0: set<nat>, p: nat -> bool, c: Option<nat>)
    ensures |Walked(S0, p, c)| == |Unmatched(Passed(S0, c), p)| + |Rest(S0, c)|
    ensures |Passed(S0, c)| == |Unmatched(Passed(S0, c), p)| + |Matched(Passed(S0, c), p)|
  {
    var P := Passed(S0, c);
    assert Walked(S0, p, c) == Unmatched(P, p) + Rest(S0, c);
    assert Unmatched(P, p) * Rest(S0, c) == {};
    assert Unmatched(P, p) * Matched(P, p) == {};
    assert P == Unmatched(P, p) + Matched(P, p);
  }

  /** Running the iterator to the end yields every selected index in
      increasing order and leaves the store with exactly the others. */
  method ExtractAll(S0: set<nat>, p: nat -> bool) returns (out: seq<nat>, S: set<nat>)
    ensures out == Ascending(Matched(S0, p))
    ensures S == Unmatched(S0, p)
  {
    var e := New(S0, p);
    out := [];
    while true
      invariant Inv(S0, p, e)
      invariant out + Remaining(S0, p, e) == Ascending(Matched(S0, p))
      decreases |Remaining(S0, p, e)|
    {
      var step := Next(S0, p, e);
      if step.1.None? {
        e := step.0;
        break;
      }
      DrainStep(out, Remaining(S0, p, e), step.1.value);
      out := out + [step.1.value];
      e := step.0;
    }
    S := e.store;
    WalkedEnd(S0, p);
  }

  /** A reachable state of the iterator as written, whose `passed` counts
      every index the cursor moved past, extracted ones included. */
  predicate InvAsWritten(S0: set<nat>, p: nat -> bool, e: ExtractIf) {
    OnSet(S0, e.next) && e.store == Walked(S0, p, e.next)
    && e.passed == |Passed(S0, e.next)|
  }

  /** `next` as written: the same walk, but `passed` also grows when an
      index is extracted. */
  function NextAsWritten(S0: set<nat>, p: nat -> bool, e: ExtractIf): (r: (ExtractIf, Option<nat>))
    requires InvAsWritten(S0, p, e)
    ensures InvAsWritten(S0, p, r.0)
    ensures r.1 == Head(Remaining(S0, p, e))
    ensures Remaining(S0, p, r.0) == Drop(Remaining(S0, p, e), 1)
    decreases |Rest(S0, e.next)|
  {
    match e.next
    case None => (e, None)
    case Some(index) =>
      WalkStep(S0, p, index);
      MatchedStep(S0, p, index);
      if !p(index) then
        NextAsWritten(S0, p, ExtractIf(e.store, NextAfter(e.store, index), e.passed + 1))
      else
        var store := e.store - {index};
        (ExtractIf(store, NextAfter(store, index), e.passed + 1), Some(index))
  }

  /** `size_hint` as written: `store.len() - passed`, or an underflow. An
      extracted index has left the store and is also counted in `passed`,
      so the bound falls short by the number of indexes extracted. */
  function SizeHintAsWritten(S0: set<nat>, p: nat -> bool, e: ExtractIf): (r: Option<(nat, Option<nat>)>)
    requires InvAsWritten(S0, p, e)
    ensures r.Some? ==> r.value.1.Some? && r.value.1.value + |Matched(Passed(S0, e.next), p)| == |Rest(S0, e.next)|
    ensures r.None? <==> |Rest(S0, e.next)| < |Matched(Passed(S0, e.next), p)|
  {
    StoreSize(S0, p, e.next);
    if e.passed <= |e.store| then Some((0, Some(|e.store| - e.passed))) else None
  }

  /** The predicate that selects every index. */
  predicate SelectAll(x: nat) {
    true
  }

  /** The first `next` as written on `{0, 1}`: 0 is extracted and
      counted as passed. */
  lemma FirstNextAsWritten()
    ensures var S0: set<nat> := {0, 1};
      && InvAsWritten(S0, SelectAll, ExtractIf({1}, Some(1), 1))
      && NextAsWritten(S0, SelectAll, New(S0, SelectAll)).0 == ExtractIf({1}, Some(1), 1)
  {
    var S0: set<nat> := {0, 1};
    FirstIs(S0, 0);
    assert New(S0, SelectAll) == ExtractIf(S0, Some(0), 0);
    assert Above(S0 - {0}, 0) == {1};
    FirstIs({1}, 1);
  }

  /** The second `next` as written on `{0, 1}`: 1 is extracted too, and
      `passed` reaches 2 with the store empty. */
  lemma SecondNextAsWritten()
    ensures var S0: set<nat> := {0, 1};
      NextAsWritten(S0, SelectAll, ExtractIf({1}, Some(1), 1)).0 == ExtractIf({}, None, 2)
  {
    assert Above({1} - {1}, 1) == {};
  }

  /** On `{0, 1}` with a predicate accepting everything, after the first
      `next` the bound says no more index will come, yet 1 still will; after
      the second, `store.len() - passed` underflows. */
  lemma SizeHintAsWrittenCounterexample()
    ensures var S0: set<nat> := {0, 1};
      var once := NextAsWritten(S0, SelectAll, New(S0, SelectAll)).0;
      && SizeHintAsWritten(S0, SelectAll, once) == Some((0, Some(0)))
      && Remaining(S0, SelectAll, once) == [1]
      && SizeHintAsWritten(S0, SelectAll, NextAsWritten(S0, SelectAll, once).0).None?
  {
    var S0: set<nat> := {0, 1};
    FirstNextAsWritten();
    SecondNextAsWritten();
    assert Matched(Rest(S0, Some(1)), SelectAll) == {1};
    assert Ascending({1}) == [1] by {
      assert Min({1}) == 1;
      assert {1} - {1} == {};
    }
  }
}
