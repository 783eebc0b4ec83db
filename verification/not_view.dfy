/** `NotView<S>`: the adapter that negates a view, answering every query
    of the index traits with the `_not` counterpart of the underlying view.
    Within the modelled core, `DynamicChunkStore` is the view that
    implements the `_not` traits, so the adapter is modelled over it. */
module NotViews {
  import opened Wrappers
  import opened Ordered
  import opened Addressing
  import Index
  import A = ArrayChunks
  import DS = DynamicStores

  datatype NotView = NotView(view: DS.DynamicStore)

  /** A well-formed adapter: the store is well formed and its count is a `usize`. */
  predicate Valid(v: NotView) {
    DS.Valid(v.view) && v.view.count <= DS.UsizeMax
  }

  /** The indexes the negated traversal yields: those of the allocated
      chunks that the store does not hold. */
  function Yielded(v: NotView): set<nat>
    requires Valid(v)
  {
    Range(DS.Capacity(v.view)) - DS.Abs(v.view)
  }

  // ---------------------------------------------------------------------
  //  IndexView.
  // ---------------------------------------------------------------------

  /** `len`: `len_not` of the store. */
  function Len(v: NotView): (r: nat)
    requires Valid(v)
    ensures r + |DS.Abs(v.view)| == DS.UsizeMax
  {
    DS.LenNot(v.view)
  }

  /** `contains`: the negation of the store's `contains`; every index the
      store does not hold, allocated or not. */
  function Contains(v: NotView, index: nat): (r: bool)
    requires Valid(v)
    ensures r <==> index !in DS.Abs(v.view)
  {
    !DS.Contains(v.view, index)
  }

  /** `is_empty` as written: the negation of the store's `is_empty`. It
      reports the view empty exactly when the store holds something. */
  function IsEmptyAsWritten(v: NotView): (r: bool)
    requires Valid(v)
    ensures r <==> DS.Abs(v.view) != {}
  {
    !DS.IsEmpty(v.view)
  }

  /** Whenever the store holds some but not all of its `usize::MAX`
      indexes, `is_empty` as written says "empty" of a view that contains
      indexes and whose `len` is not 0. */
  lemma IsEmptyAsWrittenDisagrees(v: NotView, held: nat)
    requires Valid(v) && held in DS.Abs(v.view) && v.view.count < DS.UsizeMax
    ensures IsEmptyAsWritten(v) && Len(v) > 0 && !IsEmpty(v)
    ensures exists i: nat :: Contains(v, i)
  {
    var free := Fresh(DS.Abs(v.view));
    assert Contains(v, free);
  }

  /** An index the finite set does not hold. */
  function Fresh(S: set<nat>): (r: nat)
    ensures r !in S
  {
    if S == {} then 0 else
      MaxExists(S);
      Max(S) + 1
  }

  /** The store of width 8 holding only index 0. */
  function HoldingZero(): (s: DS.DynamicStore)
    ensures DS.Valid(s) && DS.Abs(s) == {0} && s.count == 1
  {
    DS.Insert(DS.New(8, 1), 0, 0).0
  }

  /** The concrete case: negating a store that holds only 0, `is_empty` as
      written says "empty", while the view contains 1 and has a non-zero `len`. */
  lemma IsEmptyAsWrittenCounterexample()
    ensures var v := NotView(HoldingZero());
      Valid(v) && IsEmptyAsWritten(v) && Contains(v, 1) && Len(v) > 0
  {
  }

  /** `is_empty` as the `IndexView` contract means it: the view has no
      index, that is `len_not` is 0, which for the store means it holds all
      `usize::MAX` indexes. */
  function IsEmpty(v: NotView): (r: bool)
    requires Valid(v)
    ensures r <==> Len(v) == 0
    ensures r <==> |DS.Abs(v.view)| == DS.UsizeMax
  {
    DS.LenNot(v.view) == 0
  }

  // ---------------------------------------------------------------------
  //  IndexForward and IndexBackward: the `_not` traversals of the store.
  // ---------------------------------------------------------------------

  /** `first`: `first_not` of the store. */
  function First(v: NotView): (r: Option<nat>)
    requires Valid(v)
    ensures r == Ordered.First(Yielded(v))
  {
    DS.FirstNot(v.view)
  }

  /** `next_after`: `next_after_not` of the store. */
  function NextAfter(v: NotView, current: nat): (r: Option<nat>)
    requires Valid(v)
    ensures r == Ordered.NextAfter(Yielded(v), current)
  {
    DS.NextAfterNot(v.view, current)
  }

  /** `last`: `last_not` of the store. */
  function Last(v: NotView): (r: Option<nat>)
    requires Valid(v)
    ensures r == Ordered.Last(Yielded(v))
  {
    DS.LastNot(v.view)
  }

  /** `next_before`: `next_before_not` of the store. */
  function NextBefore(v: NotView, current: nat): (r: Option<nat>)
    requires Valid(v)
    ensures r == Ordered.NextBefore(Yielded(v), current)
  {
    DS.NextBeforeNot(v.view, current)
  }

  /** `nth_after`: the default `nth_after_not`, the loop of the default
      `nth_after` over `next_after_not`. */
  method NthAfter(v: NotView, n: nat, current: nat) returns (r: Nth)
    requires Valid(v)
    ensures r == Index.NthAfterSpec(Yielded(v), n, current)
    ensures r.Reached? ==> Contains(v, r.index) && r.index > current
  {
    r := Index.NthAfter(Yielded(v), n, current);
  }

  /** `nth_before`: the default `nth_before_not`. */
  method NthBefore(v: NotView, n: nat, current: nat) returns (r: Nth)
    requires Valid(v)
    ensures r == Index.NthBeforeSpec(Yielded(v), n, current)
    ensures r.Reached? ==> Contains(v, r.index) && r.index < current
  {
    r := Index.NthBefore(Yielded(v), n, current);
  }

  /** The negated traversals meet the ordering contracts: the forward one is
      duplicate-free and strictly increasing, the backward one is its exact
      reverse, and (NoPhantom) every index they yield is contained. */
  lemma TraversalContracts(v: NotView)
    requires Valid(v)
    ensures Index.NoDuplicate(Index.Forward(Yielded(v))) && Increasing(Index.Forward(Yielded(v)))
    ensures Index.Backward(Yielded(v)) == Reverse(Index.Forward(Yielded(v)))
    ensures forall k :: 0 <= k < |Index.Forward(Yielded(v))| ==> Contains(v, Index.Forward(Yielded(v))[k])
  {
    Index.TraversalContracts(Yielded(v));
  }

  /** NoTheft, as written, fails: the view contains every index past the
      allocated chunks, but the negated traversal never reaches them. The
      new (empty) store has no chunk, so its negation contains 0 while
      `first` finds nothing. */
  lemma NoTheftCounterexample()
    ensures var v := NotView(DS.New(8, 1));
      Valid(v) && Contains(v, 0) && First(v) == None
  {
    var v := NotView(DS.New(8, 1));
    assert Yielded(v) == {};
  }

  /** `contains` bounded to the allocated chunks, the indexes the negated
      traversal and `get_chunk` can see. */
  function ContainsWithin(v: NotView, index: nat): (r: bool)
    requires Valid(v)
    ensures r <==> index in Yielded(v)
  {
    index < DS.Capacity(v.view) && !DS.Contains(v.view, index)
  }

  /** With `contains` bounded to the allocated chunks, NoTheft holds: the
      forward traversal yields exactly the indexes contained. */
  lemma NoTheftWithin(v: NotView)
    requires Valid(v)
    ensures forall i: nat :: ContainsWithin(v, i) ==> i in Index.Forward(Yielded(v))
    ensures forall k :: 0 <= k < |Index.Forward(Yielded(v))| ==> ContainsWithin(v, Index.Forward(Yielded(v))[k])
  {
    Index.TraversalContracts(Yielded(v));
  }

  // ---------------------------------------------------------------------
  //  IndexViewChunked.
  // ---------------------------------------------------------------------

  /** `get_chunk`: the store's chunk, negated. TwoLevels: position `n` of
      the returned chunk is held exactly when the view contains
      `fuse(index, n)`. */
  function GetChunk(v: NotView, index: nat): (r: Option<A.ArrayChunk>)
    requires Valid(v)
    ensures r.Some? <==> index < |v.view.chunks|
    ensures r.Some? ==> DS.Fits(v.view, r.value)
    ensures r.Some? ==> forall n :: 0 <= n < DS.Bits(v.view) ==>
      (n in A.Abs(r.value) <==> Contains(v, DS.Fuse(v.view, index, n)))
  {
    match DS.GetChunk(v.view, index)
    case Some(c) => Some(A.Not(c))
    case None => None
  }
}
