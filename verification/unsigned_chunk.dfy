/** `UnsignedChunk<I>`: a set of indexes `0 .. W-1` held in the bits of one
    unsigned integer of width `W` (8, 16, 32, 64 or 128). The integer is
    modelled as its sequence of `W` bits, bit `k` being `w[k]`, and every
    operation the source performs with shifts and masks is written with the
    corresponding bitwise operation on that sequence. */
module UnsignedChunks {
  import opened Wrappers
  import opened Ordered

  /** The bits of the unsigned integer, least significant first. */
  type Word = seq<bool>

  /** The widths `BITS` of `u8`, `u16`, `u32`, `u64`/`usize` and `u128`. */
  predicate ValidWidth(width: nat) {
    width == 8 || width == 16 || width == 32 || width == 64 || width == 128
  }

  /** The indexes a word holds: the positions of its set bits. */
  function Bits(w: Word): set<nat> {
    set k | 0 <= k < |w| && w[k]
  }

  // ---------------------------------------------------------------------
  //  Integer operations, bit by bit.
  // ---------------------------------------------------------------------

  /** The integer 0 of the given width. */
  function Zero(width: nat): (w: Word)
    ensures |w| == width && Bits(w) == {}
  {
    seq(width, _ => false)
  }

  /** `1 << k`; the shift overflows (and panics) when `k >= width`. */
  function SingleBit(width: nat, k: nat): (w: Word)
    requires k < width
    ensures |w| == width && Bits(w) == {k}
  {
    seq(width, j => j == k)
  }

  /** `(1 << k) - 1`: the bits strictly below `k`. */
  function LowMask(width: nat, k: nat): (w: Word)
    requires k < width
    ensures |w| == width && Bits(w) == Range(k)
  {
    seq(width, j => j < k)
  }

  function And(a: Word, b: Word): (w: Word)
    requires |a| == |b|
    ensures |w| == |a| && Bits(w) == Bits(a) * Bits(b)
  {
    seq(|a|, j requires 0 <= j < |a| => a[j] && b[j])
  }

  function Or(a: Word, b: Word): (w: Word)
    requires |a| == |b|
    ensures |w| == |a| && Bits(w) == Bits(a) + Bits(b)
  {
    seq(|a|, j requires 0 <= j < |a| => a[j] || b[j])
  }

  function Xor(a: Word, b: Word): (w: Word)
    requires |a| == |b|
    ensures |w| == |a| && Bits(w) == (Bits(a) - Bits(b)) + (Bits(b) - Bits(a))
  {
    seq(|a|, j requires 0 <= j < |a| => a[j] != b[j])
  }

  function Not(a: Word): (w: Word)
    ensures |w| == |a| && Bits(w) == Range(|a|) - Bits(a)
  {
    seq(|a|, j requires 0 <= j < |a| => !a[j])
  }

  /** `a & !b`, the chunk difference (unsigned.rs `Sub`). */
  function Sub(a: Word, b: Word): (w: Word)
    requires |a| == |b|
    ensures |w| == |a| && Bits(w) == Bits(a) - Bits(b)
  {
    And(a, Not(b))
  }

  /** `trailing_zeros`: the number of clear bits below the lowest set bit,
      or the width when no bit is set. */
  function TrailingZeros(w: Word): (tz: nat)
    ensures tz <= |w|
    ensures forall j :: 0 <= j < tz ==> !w[j]
    ensures tz < |w| ==> w[tz]
  {
    if w == [] || w[0] then 0 else 1 + TrailingZeros(w[1..])
  }

  /** `leading_zeros`: the number of clear bits above the highest set bit,
      or the width when no bit is set. */
  function LeadingZeros(w: Word): (lz: nat)
    ensures lz <= |w|
    ensures forall j :: |w| - lz <= j < |w| ==> !w[j]
    ensures lz < |w| ==> w[|w| - 1 - lz]
  {
    if w == [] || w[|w| - 1] then 0 else 1 + LeadingZeros(w[..|w| - 1])
  }

  /** `count_ones`. */
  function CountOnes(w: Word): nat {
    if w == [] then 0 else (if w[|w| - 1] then 1 else 0) + CountOnes(w[..|w| - 1])
  }

  /** The population count is the number of indexes held. */
  lemma {:induction false} CountOnesIsCardinality(w: Word)
    ensures CountOnes(w) == |Bits(w)|
  {
    if w != [] {
      var p := w[..|w| - 1];
      CountOnesIsCardinality(p);
      if w[|w| - 1] {
        assert Bits(w) == Bits(p) + {|w| - 1};
      } else {
        assert Bits(w) == Bits(p);
      }
    }
  }

  // ---------------------------------------------------------------------
  //  IndexView, IndexCollection and IndexStore.
  // ---------------------------------------------------------------------

  /** A word is the integer 0 exactly when it holds no index. */
  lemma ZeroIffEmpty(w: Word)
    ensures w == Zero(|w|) <==> Bits(w) == {}
  {
    if Bits(w) == {} {
      forall j | 0 <= j < |w| ensures w[j] == Zero(|w|)[j] {
        assert j !in Bits(w);
      }
    }
  }

  /** `is_empty`: the integer is 0. */
  function IsEmpty(w: Word): (r: bool)
    ensures r <==> Bits(w) == {}
  {
    ZeroIffEmpty(w);
    w == Zero(|w|)
  }

  /** `len`: the population count, which is the number of indexes held. */
  function Len(w: Word): (r: nat)
    ensures r == |Bits(w)|
  {
    CountOnesIsCardinality(w);
    CountOnes(w)
  }

  /** The bit `1 << index` of a word is set exactly when it holds `index`. */
  lemma MaskedBit(w: Word, index: nat)
    requires index < |w|
    ensures !IsEmpty(And(w, SingleBit(|w|, index))) <==> index in Bits(w)
  {
    var masked := And(w, SingleBit(|w|, index));
    if index in Bits(w) {
      assert index in Bits(masked);
    }
  }

  /** `contains`: tests the bit `1 << index`; the shift overflows (and
      panics) for an index outside the span. */
  function Contains(w: Word, index: nat): (r: bool)
    requires index < |w|
    ensures r <==> index in Bits(w)
  {
    MaskedBit(w, index);
    !IsEmpty(And(w, SingleBit(|w|, index)))
  }

  /** `clear`: sets the integer to 0, keeping its width. */
  function Clear(w: Word): (r: Word)
    ensures |r| == |w| && Bits(r) == {}
  {
    Zero(|w|)
  }

  /** `insert`: sets the bit and reports whether it was clear. An index
      outside the span breaks the debug assertion (and the shift). */
  function Insert(w: Word, index: nat): (r: (Word, bool))
    requires index < |w|
    ensures |r.0| == |w|
    ensures Bits(r.0) == Bits(w) + {index}
    ensures r.1 <==> index !in Bits(w)
  {
    MaskedBit(w, index);
    var existed := !IsEmpty(And(w, SingleBit(|w|, index)));
    (Or(w, SingleBit(|w|, index)), !existed)
  }

  /** `remove`: an index outside the span is reported absent and leaves the
      word alone; otherwise clears the bit and reports whether it was set. */
  function Remove(w: Word, index: nat): (r: (Word, bool))
    ensures |r.0| == |w|
    ensures Bits(r.0) == Bits(w) - {index}
    ensures r.1 <==> index in Bits(w)
  {
    if index >= |w| then (w, false)
    else
      MaskedBit(w, index);
      var existed := !IsEmpty(And(w, SingleBit(|w|, index)));
      (And(w, Not(SingleBit(|w|, index))), existed)
  }

  // ---------------------------------------------------------------------
  //  IndexForward and IndexBackward.
  // ---------------------------------------------------------------------

  /** `first`: the trailing zero count, when below the width. */
  function First(w: Word): (r: Option<nat>)
    ensures r == Ordered.First(Bits(w))
  {
    var zeros := TrailingZeros(w);
    if zeros < |w| then
      FirstIs(Bits(w), zeros);
      Some(zeros)
    else
      None
  }

  /** `next_after`: `None` at the last position of the span, otherwise the
      first index of the word masked to the bits above `index`. */
  function NextAfter(w: Word, index: nat): (r: Option<nat>)
    requires index < |w|
    ensures r == Ordered.NextAfter(Bits(w), index)
  {
    var next := index + 1;
    if next == |w| then
      assert Above(Bits(w), index) == {};
      None
    else
      var masked := And(w, Not(LowMask(|w|, next)));
      assert Bits(masked) == Above(Bits(w), index);
      First(masked)
  }

  /** `last`: `BITS - (leading_zeros + 1)`, when that does not underflow. */
  function Last(w: Word): (r: Option<nat>)
    ensures r == Ordered.Last(Bits(w))
  {
    var zeros := LeadingZeros(w);
    if |w| >= zeros + 1 then
      LastIs(Bits(w), |w| - (zeros + 1));
      Some(|w| - (zeros + 1))
    else
      None
  }

  /** `next_before`: the last index of the word masked to the bits below `index`. */
  function NextBefore(w: Word, index: nat): (r: Option<nat>)
    requires index < |w|
    ensures r == Ordered.NextBefore(Bits(w), index)
  {
    var masked := And(w, LowMask(|w|, index));
    assert Bits(masked) == Below(Bits(w), index);
    Last(masked)
  }
}
