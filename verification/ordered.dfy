/** The abstraction every store of the library refines: a finite set of
    indexes, with `NextAfter(S, c) = min { y in S | y > c }` and its mirror
    `NextBefore`, and the ascending/descending enumerations that a forward or
    backward traversal of an ordered vault must produce. */
module Ordered {
  import opened Wrappers

  /** The indexes of `S` strictly above `c`. */
  function Above(S: set<nat>, c: nat): set<nat> {
    set x | x in S && x > c
  }

  /** The indexes of `S` strictly below `c`. */
  function Below(S: set<nat>, c: nat): set<nat> {
    set x | x in S && x < c
  }

  /** The indexes of `S` at or above `lo`. */
  function AtLeast(S: set<nat>, lo: nat): set<nat> {
    set x | x in S && x >= lo
  }

  /** Every non-empty finite set of naturals has a least element. */
  lemma {:induction false} MinOf(S: set<nat>) returns (m: nat)
    requires S != {}
    ensures m in S && forall x :: x in S ==> m <= x
    decreases |S|
  {
    var y :| y in S;
    var R := S - {y};
    if R == {} {
      m := y;
      forall x | x in S ensures x == y {
        assert x !in R;
      }
    } else {
      var r := MinOf(R);
      m := if y < r then y else r;
      forall x | x in S ensures m <= x {
        if x != y { assert x in R; }
      }
    }
  }

  /** Every non-empty finite set of naturals has a greatest element. */
  lemma {:induction false} MaxOf(S: set<nat>) returns (m: nat)
    requires S != {}
    ensures m in S && forall x :: x in S ==> x <= m
    decreases |S|
  {
    var y :| y in S;
    var R := S - {y};
    if R == {} {
      m := y;
      forall x | x in S ensures x == y {
        assert x !in R;
      }
    } else {
      var r := MaxOf(R);
      m := if y > r then y else r;
      forall x | x in S ensures x <= m {
        if x != y { assert x in R; }
      }
    }
  }

  /** The indexes `0 .. n-1`. */
  function Range(n: nat): (s: set<nat>)
    ensures forall k: nat :: k in s <==> k < n
    ensures |s| == n
  {
    if n == 0 then {} else Range(n - 1) + {n - 1}
  }

  lemma MinExists(S: set<nat>)
    requires S != {}
    ensures exists m :: m in S && forall x :: x in S ==> m <= x
  {
    var m := MinOf(S);
  }

  lemma MaxExists(S: set<nat>)
    requires S != {}
    ensures exists m :: m in S && forall x :: x in S ==> x <= m
  {
    var m := MaxOf(S);
  }

  /** The least element of a non-empty set. */
  function Min(S: set<nat>): (m: nat)
    requires S != {}
    ensures m in S && forall x :: x in S ==> m <= x
  {
    MinExists(S);
    var m :| m in S && forall x :: x in S ==> m <= x; m
  }

  /** The greatest element of a non-empty set. */
  function Max(S: set<nat>): (m: nat)
    requires S != {}
    ensures m in S && forall x :: x in S ==> x <= m
  {
    MaxExists(S);
    var m :| m in S && forall x :: x in S ==> x <= m; m
  }

  /** What `first` of an ordered vault holding `S` must return. */
  function First(S: set<nat>): Option<nat> {
    if S == {} then None else Some(Min(S))
  }

  /** What `last` of an ordered vault holding `S` must return. */
  function Last(S: set<nat>): Option<nat> {
    if S == {} then None else Some(Max(S))
  }

  /** What `next_after(c)` must return; total in `c`, whether or not `c` is in `S`. */
  function NextAfter(S: set<nat>, c: nat): Option<nat> {
    First(Above(S, c))
  }

  /** What `next_before(c)` must return; total in `c`. */
  function NextBefore(S: set<nat>, c: nat): Option<nat> {
    Last(Below(S, c))
  }

  /** Adding or removing one element changes the size by one exactly when
      it changes the set. */
  lemma CardToggle(S: set<nat>, x: nat)
    ensures x in S ==> |S + {x}| == |S| && |S - {x}| == |S| - 1
    ensures x !in S ==> |S + {x}| == |S| + 1 && |S - {x}| == |S|
  {
    if x in S {
      assert S + {x} == S;
    } else {
      assert S - {x} == S;
    }
  }

  /** `v` is the first element of `S` when it belongs to `S` and bounds it below. */
  lemma FirstIs(S: set<nat>, v: nat)
    requires v in S && forall x :: x in S ==> v <= x
    ensures First(S) == Some(v)
  {
  }

  /** `v` is the last element of `S` when it belongs to `S` and bounds it above. */
  lemma LastIs(S: set<nat>, v: nat)
    requires v in S && forall x :: x in S ==> x <= v
    ensures Last(S) == Some(v)
  {
  }

  function Elems(xs: seq<nat>): set<nat> {
    set x | x in xs
  }

  predicate Increasing(xs: seq<nat>) {
    forall i, j :: 0 <= i < j < |xs| ==> xs[i] < xs[j]
  }

  predicate Decreasing(xs: seq<nat>) {
    forall i, j :: 0 <= i < j < |xs| ==> xs[i] > xs[j]
  }

  function Reverse(xs: seq<nat>): (r: seq<nat>)
    ensures |r| == |xs|
    ensures forall i :: 0 <= i < |xs| ==> r[i] == xs[|xs| - 1 - i]
  {
    if xs == [] then [] else Reverse(xs[1..]) + [xs[0]]
  }

  /** Prepending the removed element `m` to an enumeration of `S - {m}`
      enumerates `S`, and `m` sits below (resp. above) every later element
      when it is the minimum (resp. maximum). */
  lemma ConsElems(m: nat, rest: seq<nat>, S: set<nat>)
    requires m in S && Elems(rest) == S - {m}
    ensures Elems([m] + rest) == S
    ensures (forall x :: x in S ==> m <= x) && Increasing(rest) ==> Increasing([m] + rest)
    ensures (forall x :: x in S ==> x <= m) && Decreasing(rest) ==> Decreasing([m] + rest)
    ensures |S - {m}| == |S| - 1
  {
    ConsSet(m, rest, S);
    if (forall x :: x in S ==> m <= x) && Increasing(rest) {
      ConsIncreasing(m, rest, S);
    }
    if (forall x :: x in S ==> x <= m) && Decreasing(rest) {
      ConsDecreasing(m, rest, S);
    }
  }

  lemma ConsSet(m: nat, rest: seq<nat>, S: set<nat>)
    requires m in S && Elems(rest) == S - {m}
    ensures Elems([m] + rest) == S
  {
    assert forall j :: 0 <= j < |rest| ==> rest[j] in Elems(rest);
    var xs := [m] + rest;
    forall x | x in S ensures x in Elems(xs) {
      if x != m {
        assert x in Elems(rest);
        var j :| 0 <= j < |rest| && rest[j] == x;
        assert xs[j + 1] == x;
      } else {
        assert xs[0] == x;
      }
    }
  }

  lemma ConsIncreasing(m: nat, rest: seq<nat>, S: set<nat>)
    requires Elems(rest) == S - {m} && (forall x :: x in S ==> m <= x) && Increasing(rest)
    ensures Increasing([m] + rest)
  {
    var xs := [m] + rest;
    forall i, j | 0 <= i < j < |xs| ensures xs[i] < xs[j] {
      assert xs[j] == rest[j - 1] && rest[j - 1] in Elems(rest);
      if i > 0 {
        assert xs[i] == rest[i - 1];
      }
    }
  }

  lemma ConsDecreasing(m: nat, rest: seq<nat>, S: set<nat>)
    requires Elems(rest) == S - {m} && (forall x :: x in S ==> x <= m) && Decreasing(rest)
    ensures Decreasing([m] + rest)
  {
    var xs := [m] + rest;
    forall i, j | 0 <= i < j < |xs| ensures xs[i] > xs[j] {
      assert xs[j] == rest[j - 1] && rest[j - 1] in Elems(rest);
      if i > 0 {
        assert xs[i] == rest[i - 1];
      }
    }
  }

  /** The elements of `S` in strictly increasing order: the minimum, then
      the rest. Its ordering and contents are `AscendingSorted`. */
  function Ascending(S: set<nat>): (xs: seq<nat>)
    ensures |xs| == |S|
    decreases |S|
  {
    if S == {} then []
    else
      var m := Min(S);
      [m] + Ascending(S - {m})
  }

  /** The elements of `S` in strictly decreasing order: the maximum, then
      the rest. Its ordering and contents are `DescendingSorted`. */
  function Descending(S: set<nat>): (xs: seq<nat>)
    ensures |xs| == |S|
    decreases |S|
  {
    if S == {} then []
    else
      var m := Max(S);
      [m] + Descending(S - {m})
  }

  /** `Ascending(S)` enumerates exactly `S`, in strictly increasing order. */
  lemma {:induction false} AscendingSorted(S: set<nat>)
    ensures Increasing(Ascending(S)) && Elems(Ascending(S)) == S
    decreases |S|
  {
    if S != {} {
      var m := Min(S);
      AscendingSorted(S - {m});
      ConsElems(m, Ascending(S - {m}), S);
    }
  }

  /** `Descending(S)` enumerates exactly `S`, in strictly decreasing order. */
  lemma {:induction false} DescendingSorted(S: set<nat>)
    ensures Decreasing(Descending(S)) && Elems(Descending(S)) == S
    decreases |S|
  {
    if S != {} {
      var m := Max(S);
      DescendingSorted(S - {m});
      ConsElems(m, Descending(S - {m}), S);
    }
  }

  /** A sequence is empty exactly when it has no element. */
  lemma ElemsEmpty(xs: seq<nat>)
    ensures xs == [] <==> Elems(xs) == {}
  {
    if xs != [] {
      assert xs[0] in Elems(xs);
    }
  }

  /** Two strictly increasing sequences with the same elements are equal:
      an ordered enumeration is unique. */
  lemma {:induction false} IncreasingUnique(xs: seq<nat>, ys: seq<nat>)
    requires Increasing(xs) && Increasing(ys) && Elems(xs) == Elems(ys)
    ensures xs == ys
    decreases |xs|
  {
    ElemsEmpty(xs);
    ElemsEmpty(ys);
    if xs != [] {
      assert xs[0] in Elems(ys);
      assert ys != [];
      assert ys[0] in Elems(xs);
      var i :| 0 <= i < |ys| && ys[i] == xs[0];
      var j :| 0 <= j < |xs| && xs[j] == ys[0];
      assert xs[0] <= xs[j];
      assert ys[0] <= ys[i];
      assert xs[0] == ys[0];
      assert Elems(xs[1..]) == Elems(ys[1..]) by {
        forall x | x in Elems(xs[1..]) ensures x in Elems(ys[1..]) {
          var k :| 1 <= k < |xs| && xs[k] == x;
          assert x in Elems(ys);
          var l :| 0 <= l < |ys| && ys[l] == x;
          assert l != 0;
        }
        forall x | x in Elems(ys[1..]) ensures x in Elems(xs[1..]) {
          var k :| 1 <= k < |ys| && ys[k] == x;
          assert x in Elems(xs);
          var l :| 0 <= l < |xs| && xs[l] == x;
          assert l != 0;
        }
      }
      IncreasingUnique(xs[1..], ys[1..]);
      assert xs == [xs[0]] + xs[1..];
      assert ys == [ys[0]] + ys[1..];
    }
  }

  /** Any strictly increasing enumeration of `S` is `Ascending(S)`. */
  lemma AscendingUnique(xs: seq<nat>, S: set<nat>)
    requires Increasing(xs) && Elems(xs) == S
    ensures xs == Ascending(S)
  {
    AscendingSorted(S);
    IncreasingUnique(xs, Ascending(S));
  }

  /** The decreasing enumeration is the exact reverse of the increasing one. */
  lemma DescendingIsReverse(S: set<nat>)
    ensures Descending(S) == Reverse(Ascending(S))
  {
    var d := Descending(S);
    DescendingSorted(S);
    var r := Reverse(d);
    ReverseElems(d);
    AscendingUnique(r, S);
    ReverseReverse(d);
  }

  /** Reversing keeps the elements and turns a decreasing sequence into an
      increasing one. */
  lemma ReverseElems(d: seq<nat>)
    ensures Elems(Reverse(d)) == Elems(d)
    ensures Decreasing(d) ==> Increasing(Reverse(d))
  {
    var r := Reverse(d);
    forall x | x in Elems(r) ensures x in Elems(d) {
      var i :| 0 <= i < |r| && r[i] == x;
      assert d[|d| - 1 - i] == x;
    }
    forall x | x in Elems(d) ensures x in Elems(r) {
      var i :| 0 <= i < |d| && d[i] == x;
      assert r[|d| - 1 - i] == x;
    }
  }

  lemma ReverseReverse(xs: seq<nat>)
    ensures Reverse(Reverse(xs)) == xs
  {
    assert forall i :: 0 <= i < |xs| ==> Reverse(Reverse(xs))[i] == xs[i];
  }

  /** After `NextAfter(S, c) = y`, the elements above `c` are `y` and the
      elements above `y`; so the measure of a forward traversal drops. */
  lemma AboveStep(S: set<nat>, c: nat, y: nat)
    requires NextAfter(S, c) == Some(y)
    ensures y in S && y > c
    ensures Above(S, c) == Above(S, y) + {y} && y !in Above(S, y)
    ensures |Above(S, y)| < |Above(S, c)|
  {
    assert Above(S, c) == Above(S, y) + {y};
  }

  /** The mirror of `AboveStep` for a backward traversal. */
  lemma BelowStep(S: set<nat>, c: nat, y: nat)
    requires NextBefore(S, c) == Some(y)
    ensures y in S && y < c
    ensures Below(S, c) == Below(S, y) + {y} && y !in Below(S, y)
    ensures |Below(S, y)| < |Below(S, c)|
  {
    assert Below(S, c) == Below(S, y) + {y};
  }

  /** The step a forward traversal takes: after `NextAfter(S, c) = y`, what
      remains above `c` is `y` followed by what remains above `y`. */
  lemma AscendingAbove(S: set<nat>, c: nat, y: nat)
    requires NextAfter(S, c) == Some(y)
    ensures Ascending(Above(S, c)) == [y] + Ascending(Above(S, y))
  {
    AboveStep(S, c, y);
    assert Above(S, c) - {y} == Above(S, y);
  }

  /** The mirror step of a backward traversal. */
  lemma DescendingBelow(S: set<nat>, c: nat, y: nat)
    requires NextBefore(S, c) == Some(y)
    ensures Descending(Below(S, c)) == [y] + Descending(Below(S, y))
  {
    BelowStep(S, c, y);
    assert Below(S, c) - {y} == Below(S, y);
  }

  lemma AboveMin(S: set<nat>)
    requires S != {}
    ensures S - {Min(S)} == Above(S, Min(S))
  {
  }

  lemma BelowMax(S: set<nat>)
    requires S != {}
    ensures S - {Max(S)} == Below(S, Max(S))
  {
  }

  /** The sequence a forward traversal yields when started at cursor `cur`:
      the cursor itself, then `next_after` repeatedly until `None`. */
  function WalkFrom(S: set<nat>, cur: Option<nat>): seq<nat>
    decreases if cur.Some? then |Above(S, cur.value)| + 1 else 0
  {
    match cur
    case None => []
    case Some(x) =>
      var nx := NextAfter(S, x);
      if nx.Some? then
        AboveStep(S, x, nx.value);
        [x] + WalkFrom(S, nx)
      else [x]
  }

  /** The sequence a backward traversal yields when started at cursor `cur`. */
  function WalkBack(S: set<nat>, cur: Option<nat>): seq<nat>
    decreases if cur.Some? then |Below(S, cur.value)| + 1 else 0
  {
    match cur
    case None => []
    case Some(x) =>
      var nx := NextBefore(S, x);
      if nx.Some? then
        BelowStep(S, x, nx.value);
        [x] + WalkBack(S, nx)
      else [x]
  }

  /** A forward walk from any cursor `x` yields `x` and then, in increasing
      order, exactly the elements of `S` above `x`. */
  lemma {:induction false} WalkFromAscending(S: set<nat>, x: nat)
    ensures WalkFrom(S, Some(x)) == [x] + Ascending(Above(S, x))
    decreases |Above(S, x)|
  {
    var nx := NextAfter(S, x);
    if nx.Some? {
      var y := nx.value;
      AboveStep(S, x, y);
      WalkFromAscending(S, y);
      AscendingAbove(S, x, y);
    }
  }

  /** A backward walk from any cursor `x` yields `x` and then, in decreasing
      order, exactly the elements of `S` below `x`. */
  lemma {:induction false} WalkBackDescending(S: set<nat>, x: nat)
    ensures WalkBack(S, Some(x)) == [x] + Descending(Below(S, x))
    decreases |Below(S, x)|
  {
    var nx := NextBefore(S, x);
    if nx.Some? {
      var y := nx.value;
      BelowStep(S, x, y);
      WalkBackDescending(S, y);
      DescendingBelow(S, x, y);
    }
  }

  /** The remaining walk from a cursor that is `None` or an element of `S`. */
  lemma WalkFromCursor(S: set<nat>, cur: Option<nat>)
    ensures cur.None? ==> WalkFrom(S, cur) == []
    ensures cur.Some? ==> WalkFrom(S, cur) == [cur.value] + Ascending(Above(S, cur.value))
  {
    if cur.Some? {
      WalkFromAscending(S, cur.value);
    }
  }

  /** Starting at `First(S)`, the forward walk enumerates `S` in increasing order. */
  lemma WalkFromFirst(S: set<nat>)
    ensures WalkFrom(S, First(S)) == Ascending(S)
  {
    if S != {} {
      var m := Min(S);
      WalkFromAscending(S, m);
      AboveMin(S);
    }
  }

  /** Starting at `Last(S)`, the backward walk enumerates `S` in decreasing order. */
  lemma WalkBackFromLast(S: set<nat>)
    ensures WalkBack(S, Last(S)) == Descending(S)
  {
    if S != {} {
      var m := Max(S);
      WalkBackDescending(S, m);
      BelowMax(S);
    }
  }
}
