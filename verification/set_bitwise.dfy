/** The in-place bitwise operators of `IndexSet` and `IndexOrdSet`:
    `bitand_assign` (through `retain`), `bitor_assign` and `sub_assign`
    (walking the other set and inserting or removing each of its indexes),
    and the ordered `bitxor_assign`, which merges the two walks and toggles
    every index of the other set in a single pass.

    Each store is modelled by its set of indexes; insertion never fails, as
    the operators demand of the store they modify. */
module SetBitwise {
  import opened Wrappers
  import opened Ordered
  import opened Cursors
  import SetExtract
  import SetAlgebraOrd

  /** The indexes of `O` a forward cursor has already visited. */
  function Visited(O: set<nat>, c: Option<nat>): set<nat> {
    O - Rest(O, c)
  }

  /** Visiting the index a cursor stands on adds it to the visited ones. */
  lemma Visit(O: set<nat>, b: nat)
    requires b in O
    ensures OnSet(O, NextAfter(O, b))
    ensures b !in Visited(O, Some(b))
    ensures Visited(O, NextAfter(O, b)) == Visited(O, Some(b)) + {b}
    ensures |Rest(O, NextAfter(O, b))| < |Rest(O, Some(b))|
  {
    RestStep(O, b);
    RestLeast(O, b);
  }

  /** A cursor that visited nothing, and one that visited everything. */
  lemma VisitedEnds(O: set<nat>)
    ensures Visited(O, First(O)) == {} && Visited(O, None) == O
  {
    RestFirst(O);
  }

  /** One step of `bitor_assign`: inserting the index the cursor stands on
      and moving past it keeps the set equal to `S0` plus what was visited. */
  lemma OrStep(S0: set<nat>, O: set<nat>, S: set<nat>, b: nat)
    requires b in O && S == S0 + Visited(O, Some(b))
    ensures OnSet(O, NextAfter(O, b))
    ensures S + {b} == S0 + Visited(O, NextAfter(O, b))
    ensures |Rest(O, NextAfter(O, b))| < |Rest(O, Some(b))|
  {
    Visit(O, b);
  }

  /** One step of `sub_assign`: removing the index the cursor stands on
      and moving past it keeps the set equal to `S0` less what was visited. */
  lemma SubStep(S0: set<nat>, O: set<nat>, S: set<nat>, b: nat)
    requires b in O && S == S0 - Visited(O, Some(b))
    ensures OnSet(O, NextAfter(O, b))
    ensures S - {b} == S0 - Visited(O, NextAfter(O, b))
    ensures |Rest(O, NextAfter(O, b))| < |Rest(O, Some(b))|
  {
    Visit(O, b);
  }

  /** `bitand_assign`: `retain` with the other set's `contains`; what is
      left is the intersection. */
  method BitAndAssign(S0: set<nat>, O: set<nat>) returns (S: set<nat>)
    ensures S == S0 * O
  {
    S := SetExtract.Retain(S0, x => x in O);
  }

  /** `bitor_assign`: inserts every index of the other set, in order; what
      is left is the union. */
  method BitOrAssign(S0: set<nat>, O: set<nat>) returns (S: set<nat>)
    ensures S == S0 + O
  {
    S := S0;
    var c := First(O);
    VisitedEnds(O);
    while c.Some?
      invariant OnSet(O, c)
      invariant S == S0 + Visited(O, c)
      decreases |Rest(O, c)|
    {
      var index := c.value;
      OrStep(S0, O, S, index);
      S := S + {index};
      c := NextAfter(O, index);
    }
  }

  /** `sub_assign`: removes every index of the other set, in order; what is
      left is the difference. */
  method SubAssign(S0: set<nat>, O: set<nat>) returns (S: set<nat>)
    ensures S == S0 - O
  {
    S := S0;
    var c := First(O);
    VisitedEnds(O);
    while c.Some?
      invariant OnSet(O, c)
      invariant S == S0 - Visited(O, c)
      decreases |Rest(O, c)|
    {
      var index := c.value;
      SubStep(S0, O, S, index);
      S := S - {index};
      c := NextAfter(O, index);
    }
  }

  /** Toggling an index not yet toggled: it leaves the set when it was in
      `S0`, and joins it otherwise. */
  lemma Toggle(S0: set<nat>, V: set<nat>, b: nat)
    requires b !in V
    ensures b in SetAlgebraOrd.Sym(S0, V) <==> b in S0
    ensures b in S0 ==> SetAlgebraOrd.Sym(S0, V + {b}) == SetAlgebraOrd.Sym(S0, V) - {b}
    ensures b !in S0 ==> SetAlgebraOrd.Sym(S0, V + {b}) == SetAlgebraOrd.Sym(S0, V) + {b}
  {
  }

  /** A cursor on `a`, moved past it after `a` has left the set, has less
      to visit and only indexes above `a`. */
  lemma RemoveAndAdvance(S: set<nat>, a: nat)
    requires a in S
    ensures OnSet(S - {a}, NextAfter(S - {a}, a))
    ensures Rest(S - {a}, NextAfter(S - {a}, a)) == Rest(S, Some(a)) - {a}
    ensures forall x :: x in Rest(S - {a}, NextAfter(S - {a}, a)) ==> a < x
  {
    Advance(S - {a}, a);
  }

  /** Every index of `S` at or past the other cursor `no` is at or past the
      set's own cursor `ns`: no index of the set lies between the two. */
  predicate NoneBetween(S: set<nat>, ns: Option<nat>, no: Option<nat>) {
    forall x :: x in S && no.Some? && no.value <= x ==> ns.Some? && ns.value <= x
  }

  /** The state of `bitxor_assign`: both cursors on their set, the set
      toggled at every index of the other set visited so far, and nothing
      of the set between the cursors. */
  predicate XorInv(S0: set<nat>, O: set<nat>, S: set<nat>, ns: Option<nat>, no: Option<nat>) {
    && OnSet(S, ns) && OnSet(O, no)
    && S == SetAlgebraOrd.Sym(S0, Visited(O, no))
    && NoneBetween(S, ns, no)
  }

  /** What the two cursors of `bitxor_assign` still have to visit. */
  function XorLeft(S: set<nat>, ns: Option<nat>, O: set<nat>, no: Option<nat>): nat {
    |Rest(S, ns)| + |Rest(O, no)|
  }

  /** Both cursors on the same index `a`: it is in the set, so it is
      removed, and both cursors move past it. */
  lemma XorMeet(S0: set<nat>, O: set<nat>, S: set<nat>, a: nat)
    requires XorInv(S0, O, S, Some(a), Some(a))
    ensures var S' := S - {a};
      && XorInv(S0, O, S', NextAfter(S', a), NextAfter(O, a))
      && XorLeft(S', NextAfter(S', a), O, NextAfter(O, a)) < XorLeft(S, Some(a), O, Some(a))
  {
    var S' := S - {a};
    var ns', no' := NextAfter(S', a), NextAfter(O, a);
    Visit(O, a);
    Toggle(S0, Visited(O, Some(a)), a);
    RemoveAndAdvance(S, a);
    Advance(O, a);
    Advance(S', a);
    assert S' == SetAlgebraOrd.Sym(S0, Visited(O, no'));
    forall x | x in S' && no'.Some? && no'.value <= x
      ensures ns'.Some? && ns'.value <= x
    {
      assert x in Rest(S', ns');
    }
  }

  /** The set's cursor `a` behind the other one `b`: it moves on. */
  lemma XorBehind(S0: set<nat>, O: set<nat>, S: set<nat>, a: nat, b: nat)
    requires XorInv(S0, O, S, Some(a), Some(b)) && a < b
    ensures && XorInv(S0, O, S, NextAfter(S, a), Some(b))
            && XorLeft(S, NextAfter(S, a), O, Some(b)) < XorLeft(S, Some(a), O, Some(b))
  {
    var ns' := NextAfter(S, a);
    RestStep(S, a);
    Advance(S, a);
    forall x | x in S && b <= x
      ensures ns'.Some? && ns'.value <= x
    {
      assert x in Rest(S, ns');
    }
  }

  /** The other cursor `b` behind the set's one `a`: `b` is not in the set,
      so it is inserted, and the other cursor moves past it. */
  lemma XorAhead(S0: set<nat>, O: set<nat>, S: set<nat>, a: nat, b: nat)
    requires XorInv(S0, O, S, Some(a), Some(b)) && b < a
    ensures var S' := S + {b};
      && XorInv(S0, O, S', Some(a), NextAfter(O, b))
      && XorLeft(S', Some(a), O, NextAfter(O, b)) < XorLeft(S, Some(a), O, Some(b))
  {
    Visit(O, b);
    Toggle(S0, Visited(O, Some(b)), b);
    Advance(O, b);
    assert AtLeast(S + {b}, a) == AtLeast(S, a);
  }

  /** The set's cursor exhausted: the other cursor `b` is past every index
      of the set, so it is inserted, and the other cursor moves on. */
  lemma XorTail(S0: set<nat>, O: set<nat>, S: set<nat>, b: nat)
    requires XorInv(S0, O, S, None, Some(b))
    ensures var S' := S + {b};
      && XorInv(S0, O, S', None, NextAfter(O, b))
      && |Rest(O, NextAfter(O, b))| < |Rest(O, Some(b))|
  {
    Visit(O, b);
    Toggle(S0, Visited(O, Some(b)), b);
    Advance(O, b);
  }

  /** `bitxor_assign` on ordered sets. Both sets are walked together: an
      index in both is removed, an index of the other set alone is
      inserted, and once the set's cursor is exhausted every remaining
      index of the other set is inserted. What is left is the symmetric
      difference. */
  method BitXorAssign(S0: set<nat>, O: set<nat>) returns (S: set<nat>)
    ensures S == (S0 - O) + (O - S0)
  {
    S := S0;
    var ns := First(S);
    var no := First(O);
    RestFirst(S);
    VisitedEnds(O);
    while no.Some?
      invariant XorInv(S0, O, S, ns, no)
      decreases XorLeft(S, ns, O, no)
    {
      var that := no.value;
      if ns.None? {
        while no.Some?
          invariant XorInv(S0, O, S, None, no)
          decreases |Rest(O, no)|
        {
          var next := no.value;
          XorTail(S0, O, S, next);
          S := S + {next};
          no := NextAfter(O, next);
        }
        break;
      }
      var here := ns.value;
      if here == that {
        XorMeet(S0, O, S, here);
        S := S - {here};
        ns := NextAfter(S, here);
        no := NextAfter(O, that);
      } else if here < that {
        XorBehind(S0, O, S, here, that);
        ns := NextAfter(S, here);
      } else {
        XorAhead(S0, O, S, here, that);
        S := S + {that};
        no := NextAfter(O, that);
      }
    }
    VisitedEnds(O);
  }
}
