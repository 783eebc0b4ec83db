/** The operations of the set that do not build an iterator of their own:
    the inclusion tests, which walk `iter()` with `Iterator::all`; the entry
    API, whose entries borrow the store; and `extend`. The entry API and
    `extend` are modelled over the dynamic chunk store, whose insertion
    never fails. */
module SetOps {
  import opened Wrappers
  import opened Ordered
  import opened Cursors
  import DS = DynamicStores

  // ---------------------------------------------------------------------
  //  Inclusion.
  // ---------------------------------------------------------------------

  /** `self.iter().all(p)`: walks the set in increasing order and stops at
      the first index failing `p`. */
  method All(L: set<nat>, p: nat -> bool) returns (r: bool)
    ensures r <==> forall x :: x in L ==> p(x)
  {
    var c := First(L);
    RestFirst(L);
    while c.Some?
      invariant OnSet(L, c)
      invariant forall x :: x in L && x !in Rest(L, c) ==> p(x)
      decreases |Rest(L, c)|
    {
      var x := c.value;
      if !p(x) {
        return false;
      }
      RestStep(L, x);
      c := NextAfter(L, x);
    }
    return true;
  }

  /** `is_disjoint`: no index of `self` is contained in `other`. */
  method IsDisjoint(L: set<nat>, R: set<nat>) returns (r: bool)
    ensures r <==> L * R == {}
  {
    r := All(L, x => x !in R);
    if !r {
      var x :| x in L && x in R;
      assert x in L * R;
    }
  }

  /** `is_subset`: every index of `self` is contained in `other`. */
  method IsSubset(L: set<nat>, R: set<nat>) returns (r: bool)
    ensures r <==> L <= R
  {
    r := All(L, x => x in R);
  }

  /** `is_superset`: `other.is_subset(self)`. */
  method IsSuperset(L: set<nat>, R: set<nat>) returns (r: bool)
    ensures r <==> R <= L
  {
    r := IsSubset(R, L);
  }

  // ---------------------------------------------------------------------
  //  Entry API.
  // ---------------------------------------------------------------------

  /** An entry: the index and the store it borrows mutably. */
  datatype Entry =
    | Occupied(index: nat, store: DS.DynamicStore)
    | Vacant(index: nat, store: DS.DynamicStore)

  /** An entry as `entry` hands it out: occupied exactly when the borrowed
      store holds the index. The borrow keeps this true while it lives. */
  predicate Consistent(e: Entry) {
    DS.Valid(e.store) && (e.Occupied? <==> e.index in DS.Abs(e.store))
  }

  /** `entry`: occupied when the set contains the index, vacant otherwise;
      the store is left as it is. */
  function EntryOf(s: DS.DynamicStore, index: nat): (e: Entry)
    requires DS.Valid(s)
    ensures Consistent(e) && e.index == index && e.store == s
  {
    if DS.Contains(s, index) then Occupied(index, s) else Vacant(index, s)
  }

  /** `Entry::insert`: an occupied entry is returned as it is; a vacant one
      inserts its index, which the store reports as new (the debug
      assertion holds), and becomes occupied. */
  function Insert(e: Entry, slack: nat): (o: Entry)
    requires Consistent(e)
    ensures o.Occupied? && Consistent(o) && o.index == e.index
    ensures DS.Abs(o.store) == DS.Abs(e.store) + {e.index}
    ensures e.Occupied? ==> o == e
  {
    match e
    case Occupied(_, _) => e
    case Vacant(index, store) =>
      var inserted := DS.Insert(store, index, slack);
      assert inserted.1;
      Occupied(index, inserted.0)
  }

  /** `Entry::or_insert`: makes sure the index is in the set, touching the
      store only when the entry is vacant. */
  function OrInsert(e: Entry, slack: nat): (s: DS.DynamicStore)
    requires Consistent(e)
    ensures DS.Valid(s) && DS.Abs(s) == DS.Abs(e.store) + {e.index}
    ensures e.Occupied? ==> s == e.store
  {
    match e
    case Occupied(_, store) => store
    case Vacant(_, _) => VacantInsert(e, slack)
  }

  /** `VacantEntry::insert`: inserts the index, which the store reports as
      new. */
  function VacantInsert(e: Entry, slack: nat): (s: DS.DynamicStore)
    requires Consistent(e) && e.Vacant?
    ensures DS.Valid(s) && DS.Abs(s) == DS.Abs(e.store) + {e.index}
    ensures e.index !in DS.Abs(e.store)
  {
    var inserted := DS.Insert(e.store, e.index, slack);
    assert inserted.1;
    inserted.0
  }

  /** `OccupiedEntry::remove`: removes the index, which the store reports
      as present (the debug assertion holds), and returns it. */
  function OccupiedRemove(e: Entry): (r: (DS.DynamicStore, nat))
    requires Consistent(e) && e.Occupied?
    ensures DS.Valid(r.0) && DS.Abs(r.0) == DS.Abs(e.store) - {e.index}
    ensures r.1 == e.index && e.index in DS.Abs(e.store)
  {
    var removed := DS.Remove(e.store, e.index);
    assert removed.1;
    (removed.0, e.index)
  }

  /** Inserting through a vacant entry and removing through the occupied
      entry it turns into gives back the indexes the set held. */
  lemma InsertThenRemove(s: DS.DynamicStore, index: nat, slack: nat)
    requires DS.Valid(s) && index !in DS.Abs(s)
    ensures DS.Abs(OccupiedRemove(Insert(EntryOf(s, index), slack)).0) == DS.Abs(s)
  {
  }

  /** Removing through an occupied entry and inserting through the vacant
      entry the index then has gives back the indexes the set held. */
  lemma RemoveThenInsert(s: DS.DynamicStore, index: nat, slack: nat)
    requires DS.Valid(s) && index in DS.Abs(s)
    ensures var removed := OccupiedRemove(EntryOf(s, index)).0;
      && EntryOf(removed, index).Vacant?
      && DS.Abs(VacantInsert(EntryOf(removed, index), slack)) == DS.Abs(s)
  {
  }

  /** `entry(i).or_insert()` is idempotent: the second call finds the entry
      occupied and leaves the store exactly as the first left it. */
  lemma OrInsertIdempotent(s: DS.DynamicStore, index: nat, slack: nat)
    requires DS.Valid(s)
    ensures var once := OrInsert(EntryOf(s, index), slack);
      && EntryOf(once, index).Occupied?
      && OrInsert(EntryOf(once, index), slack) == once
  {
  }

  // ---------------------------------------------------------------------
  //  Extend.
  // ---------------------------------------------------------------------

  /** `extend`: inserts every index of the iterator, in order. */
  method Extend(s: DS.DynamicStore, xs: seq<nat>, slack: nat) returns (r: DS.DynamicStore)
    requires DS.Valid(s)
    ensures DS.Valid(r) && r.width == s.width && r.slots == s.slots
    ensures DS.Abs(r) == DS.Abs(s) + Elems(xs)
  {
    r := s;
    for i := 0 to |xs|
      invariant DS.Valid(r) && r.width == s.width && r.slots == s.slots
      invariant DS.Abs(r) == DS.Abs(s) + Elems(xs[..i])
    {
      ElemsPrefix(xs, i);
      r := DS.Insert(r, xs[i], slack).0;
    }
    assert xs[..|xs|] == xs;
  }

  /** The elements of a longer prefix: one more index. */
  lemma ElemsPrefix(xs: seq<nat>, i: nat)
    requires i < |xs|
    ensures Elems(xs[..i + 1]) == Elems(xs[..i]) + {xs[i]}
  {
    assert xs[..i + 1] == xs[..i] + [xs[i]];
  }
}
