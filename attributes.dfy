/**
 * Attribute codes and the `AttributeSet` request mask of km003c-lib.
 *
 * `Attribute` is a `u16` enumeration with a catch-all variant, so its
 * conversions to and from `u16` are the identity; the model uses the
 * `u16` value itself. The mask operations are the bitwise ones of BitOps.
 */
module Attributes {
  import opened Bytes
  import opened BitOps

  const NoAttribute: u16 := 0
  const Adc: u16 := 0x1
  const AdcQueue: u16 := 0x2
  const AdcQueue10k: u16 := 0x4
  const Settings: u16 := 0x8
  const PdPacket: u16 := 0x10
  const PdStatus: u16 := 0x20
  const QcPacket: u16 := 0x40
  const Unknown512: u16 := 512
  const Unknown1609: u16 := 1609
  const Unknown11046: u16 := 11046
  const Unknown26817: u16 := 26817

  datatype AttributeSet = AttributeSet(mask: u16)

  lemma U16Width()
    ensures Pow2(16) == 0x1_0000
  {
    assert Pow2(4) == 16;
    assert Pow2(8) == 256;
    assert Pow2(12) == 4096;
  }

  /** `1u16 << k`, the attribute of the single bit k. */
  function BitValue(k: nat): (v: u16)
    requires k < 16
    ensures v == Pow2(k)
  {
    Pow2Increasing(k, 16);
    U16Width();
    Pow2(k)
  }

  /** `contains`: `mask & a != 0`. */
  predicate Contains(s: AttributeSet, a: u16)
  {
    And(s.mask, a) != 0
  }

  function Raw(s: AttributeSet): u16 { s.mask }

  function FromRaw(mask: u16): AttributeSet { AttributeSet(mask) }

  function Single(a: u16): AttributeSet { AttributeSet(a) }

  function Empty(): (s: AttributeSet)
    ensures forall a: u16 :: !Contains(s, a)
  {
    AttributeSet(0)
  }

  predicate IsEmpty(s: AttributeSet)
  {
    s.mask == 0
  }

  /** `with`: `mask | a`; bit k is set afterwards iff it was set before or is set in a. */
  function With(s: AttributeSet, a: u16): (r: AttributeSet)
    ensures forall k :: Bit(r.mask, k) == (Bit(s.mask, k) || Bit(a, k))
  {
    AllOrBits(s.mask, a);
    U16Width();
    OrBelow(s.mask, a, 16);
    AttributeSet(Or(s.mask, a))
  }

  /** `without`: `mask & !a`; bit k is set afterwards iff it was set before and is clear in a. */
  function Without(s: AttributeSet, a: u16): (r: AttributeSet)
    ensures forall k :: Bit(r.mask, k) == (Bit(s.mask, k) && !Bit(a, k))
  {
    ClearBits(s.mask, a);
    AndBelow(s.mask, Not(a, 16));
    AttributeSet(And(s.mask, Not(a, 16)))
  }

  lemma ClearBits(m: u16, a: u16)
    ensures forall k :: Bit(And(m, Not(a, 16)), k) == (Bit(m, k) && !Bit(a, k))
  {
    U16Width();
    forall k ensures Bit(And(m, Not(a, 16)), k) == (Bit(m, k) && !Bit(a, k)) {
      AndBit(m, Not(a, 16), k);
      NotBit(a, 16, k);
      if k >= 16 { NoBitAbove(m, 16, k); }
    }
  }

  /** `from_attributes`: a left fold of `|` over the attributes, starting from 0. */
  function FromAttributes(attrs: seq<u16>): (s: AttributeSet)
    ensures forall k :: Bit(s.mask, k) <==> exists i :: 0 <= i < |attrs| && Bit(attrs[i], k)
  {
    if |attrs| == 0 then
      AllZeroBits();
      Empty()
    else
      var init := FromAttributes(attrs[..|attrs| - 1]);
      var r := With(init, attrs[|attrs| - 1]);
      assert forall i :: 0 <= i < |attrs| - 1 ==> attrs[..|attrs| - 1][i] == attrs[i];
      r
  }

  lemma AllZeroBits()
    ensures forall k :: !Bit(0, k)
  {
    forall k ensures !Bit(0, k) { ZeroHasNoBits(k); }
  }

  predicate ContainsAny(s: AttributeSet, attrs: seq<u16>)
  {
    exists i :: 0 <= i < |attrs| && Contains(s, attrs[i])
  }

  predicate ContainsAll(s: AttributeSet, attrs: seq<u16>)
  {
    forall i :: 0 <= i < |attrs| ==> Contains(s, attrs[i])
  }

  /** The one-bit attributes of the mask at bit positions `bit..16`, ascending. */
  function BitsFrom(s: AttributeSet, bit: nat): seq<u16>
    requires bit <= 16
    decreases 16 - bit
  {
    if bit == 16 then []
    else if Bit(s.mask, bit) then [BitValue(bit)] + BitsFrom(s, bit + 1)
    else BitsFrom(s, bit + 1)
  }

  /** `iter`: the single-bit attributes of the set, from bit 0 to bit 15. */
  function Iter(s: AttributeSet): seq<u16>
  {
    BitsFrom(s, 0)
  }

  /** Number of set bits of the mask at positions `bit..16`. */
  function CountOnesFrom(s: AttributeSet, bit: nat): nat
    requires bit <= 16
    decreases 16 - bit
  {
    if bit == 16 then 0
    else (if Bit(s.mask, bit) then 1 else 0) + CountOnesFrom(s, bit + 1)
  }

  /** `len`: `count_ones` of the mask. */
  function Len(s: AttributeSet): nat
  {
    CountOnesFrom(s, 0)
  }

  lemma {:induction false} BitsFromSpec(s: AttributeSet, bit: nat)
    requires bit <= 16
    ensures forall x | x in BitsFrom(s, bit) :: exists j | bit <= j < 16 :: x == BitValue(j) && Bit(s.mask, j)
    ensures forall j | bit <= j < 16 :: Bit(s.mask, j) ==> BitValue(j) in BitsFrom(s, bit)
    ensures forall x | x in BitsFrom(s, bit) :: bit < 16 && Pow2(bit) <= x
    ensures forall i, j | 0 <= i < j < |BitsFrom(s, bit)| :: BitsFrom(s, bit)[i] < BitsFrom(s, bit)[j]
    ensures |BitsFrom(s, bit)| == CountOnesFrom(s, bit)
    ensures (forall j | bit <= j < 16 :: !Bit(s.mask, j)) ==> BitsFrom(s, bit) == []
    decreases 16 - bit
  {
    if bit < 16 {
      BitsFromSpec(s, bit + 1);
      var rest := BitsFrom(s, bit + 1);
      forall x | x in rest ensures Pow2(bit) < x {
        var j :| bit + 1 <= j < 16 && x == BitValue(j) && Bit(s.mask, j);
        Pow2Increasing(bit, j);
      }
      if Bit(s.mask, bit) {
        var r := BitsFrom(s, bit);
        assert forall j | 0 < j < |r| :: r[j] == rest[j - 1] && rest[j - 1] in rest;
      }
    }
  }

  /** Distinct bit positions give distinct attributes. */
  lemma BitValueInjective(j: nat, k: nat)
    requires j < 16 && k < 16 && BitValue(j) == BitValue(k)
    ensures j == k
  {
    if j < k { Pow2Increasing(j, k); }
    if k < j { Pow2Increasing(k, j); }
  }

  /**
   * `iter` yields, in strictly ascending order, exactly the one-bit values
   * `1 << k` whose bit k is set in the mask; each is contained in the set,
   * and there are `len` of them.
   */
  lemma IterSpec(s: AttributeSet)
    ensures forall k | 0 <= k < 16 :: BitValue(k) in Iter(s) <==> Bit(s.mask, k)
    ensures forall x | x in Iter(s) :: Contains(s, x)
    ensures forall i, j | 0 <= i < j < |Iter(s)| :: Iter(s)[i] < Iter(s)[j]
    ensures Len(s) == |Iter(s)|
  {
    BitsFromSpec(s, 0);
    forall k | 0 <= k < 16 && BitValue(k) in Iter(s) ensures Bit(s.mask, k) {
      var j :| 0 <= j < 16 && BitValue(k) == BitValue(j) && Bit(s.mask, j);
      BitValueInjective(j, k);
    }
    forall x | x in Iter(s) ensures Contains(s, x) {
      var j :| 0 <= j < 16 && x == BitValue(j) && Bit(s.mask, j);
      Pow2Bit(j, j);
      AndNonZero(s.mask, x);
    }
  }

  /** `is_empty` holds exactly when `iter` yields nothing, i.e. when `len` is 0. */
  lemma EmptyIffNoBits(s: AttributeSet)
    ensures IsEmpty(s) <==> Iter(s) == []
    ensures IsEmpty(s) <==> Len(s) == 0
  {
    IterSpec(s);
    BitsFromSpec(s, 0);
    if s.mask == 0 {
      AllZeroBits();
    } else {
      U16Width();
      var k := SomeBit(s.mask, 16);
      assert BitValue(k) in Iter(s);
    }
  }

  /** After `with(a)`, b is contained iff it was before or it shares a bit with a. */
  lemma ContainsWith(s: AttributeSet, a: u16, b: u16)
    ensures Contains(With(s, a), b) <==> Contains(s, b) || And(a, b) != 0
  {
    var r := With(s, a);
    AndNonZero(r.mask, b);
    AndNonZero(s.mask, b);
    AndNonZero(a, b);
    if SharesBit(r.mask, b) {
      var k :| Bit(r.mask, k) && Bit(b, k);
      assert Bit(s.mask, k) || Bit(a, k);
    }
  }

  /** After `without(a)`, a non-zero a is no longer contained, and attributes disjoint from a are unaffected. */
  lemma ContainsWithout(s: AttributeSet, a: u16, b: u16)
    ensures !Contains(Without(s, a), a)
    ensures And(a, b) == 0 ==> (Contains(Without(s, a), b) <==> Contains(s, b))
  {
    var r := Without(s, a);
    AndNonZero(r.mask, a);
    AndNonZero(r.mask, b);
    AndNonZero(s.mask, b);
    AndNonZero(a, b);
    if And(a, b) == 0 && SharesBit(s.mask, b) {
      var k :| Bit(s.mask, k) && Bit(b, k);
      assert Bit(r.mask, k);
    }
  }

  /** A set built from attributes contains b iff some attribute shares a bit with b; in particular it contains every non-zero attribute it was built from. */
  lemma FromAttributesContains(attrs: seq<u16>, b: u16)
    ensures Contains(FromAttributes(attrs), b) <==> exists i :: 0 <= i < |attrs| && And(attrs[i], b) != 0
    ensures b in attrs && b != 0 ==> ContainsAll(FromAttributes(attrs), [b])
  {
    var s := FromAttributes(attrs);
    AndNonZero(s.mask, b);
    if Contains(s, b) {
      var k :| Bit(s.mask, k) && Bit(b, k);
      var i :| 0 <= i < |attrs| && Bit(attrs[i], k);
      AndNonZero(attrs[i], b);
    }
    if exists i :: 0 <= i < |attrs| && And(attrs[i], b) != 0 {
      var i :| 0 <= i < |attrs| && And(attrs[i], b) != 0;
      AndNonZero(attrs[i], b);
      var k :| Bit(attrs[i], k) && Bit(b, k);
      assert Bit(s.mask, k);
    }
    if b in attrs && b != 0 {
      var i :| 0 <= i < |attrs| && attrs[i] == b;
      U16Width();
      var k := SomeBit(b, 16);
      AndNonZero(b, b);
    }
  }

  /** The request mask 0x11 holds Adc and PdPacket and nothing else. */
  lemma AdcAndPdPacketMask()
    ensures Contains(FromRaw(0x11), Adc) && Contains(FromRaw(0x11), PdPacket)
    ensures !Contains(FromRaw(0x11), AdcQueue)
    ensures Iter(FromRaw(0x11)) == [Adc, PdPacket] && Len(FromRaw(0x11)) == 2
  {
    var s := FromRaw(0x11);
    RequestMaskBits();
    RequestMaskIter(s);
    IterSpec(s);
    AndNonZero(0x11, 2);
  }

  /** The bits of the request mask 0x11, one by one. */
  lemma RequestMaskBits()
    ensures Bit(0x11, 0) && !Bit(0x11, 1) && !Bit(0x11, 2) && !Bit(0x11, 3) && Bit(0x11, 4)
    ensures forall k | 5 <= k < 16 :: !Bit(0x11, k)
  {
    forall k | 5 <= k < 16 ensures !Bit(0x11, k) {
      NoBitAbove(0x11, 5, k);
    }
  }

  /** Walking the bits of 0x11 meets bit 0 and bit 4 only. */
  lemma RequestMaskIter(s: AttributeSet)
    requires s.mask == 0x11
    requires Bit(0x11, 0) && !Bit(0x11, 1) && !Bit(0x11, 2) && !Bit(0x11, 3) && Bit(0x11, 4)
    requires forall k | 5 <= k < 16 :: !Bit(0x11, k)
    ensures Iter(s) == [BitValue(0), BitValue(4)]
  {
    BitsFromSpec(s, 5);
  }
}
