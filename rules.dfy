/** Rule bitsets and birth/survive rules of the cytogon engine
    (cytogon/src/lib.rs).  A `RuleBitset2` wraps a `u16` and a `RuleBitset3`
    a `u32`; bit `n` says whether the rule applies to a cell with `n` live
    neighbours.  Constructors that `assert!` return an `Outcome`. */
module CytogonRules {
  import opened Words
  import opened Lattice

  type Word16 = w: seq<bool> | |w| == 16 witness Zeros(16)
  type Word32 = w: seq<bool> | |w| == 32 witness Zeros(32)

  /** `0xFE00`: `from_bits` of the 2D bitset rejects any bit of this mask. */
  const Top2: Word16 := Span(16, 9, 16)
  /** `0xF800_0000`: `from_bits` of the 3D bitset rejects any bit of this mask. */
  const Top3: Word32 := Span(32, 27, 32)

  /** The masks have the values the source writes. */
  lemma TopMaskValues()
    ensures ToNat(Top2) == 0xFE00 && ToNat(Top3) == 0xF800_0000
  {
    SpanValue(16, 9, 16);
    SpanValue(32, 27, 32);
    Pow2Table();
  }

  // ---------------------------------------------------------------- 2D

  /** The rule bitset of a 2D automaton: neighbour counts 0 to 8 on the low
      9 bits of a `u16`; the top 7 bits are meant to stay zero. */
  datatype RuleBitset2 = RuleBitset2(bits: Word16)
  {
    /** Bit `n` of the representation, `bits & 1 << n != 0`. */
    predicate Has(n: nat)
      requires n < 16
    {
      bits[n]
    }

    /** The representation `from_bits` accepts: `bits & 0xFE00 == 0`. */
    predicate Valid()
    {
      IsZero(And(bits, Top2))
    }

    /** `to_array`: bit `n` read with the mask `1 << n`, for `n` in 0..9. */
    function ToArray(): (a: seq<bool>)
      ensures a == bits[..9]
    {
      BitTests(bits);
      seq(9, n requires 0 <= n < 9 => !IsZero(And(bits, Bit(16, n))))
    }

    /** `or_with` and the `|` operator: bitwise OR of the representations. */
    function OrWith(other: RuleBitset2): (r: RuleBitset2)
      ensures forall n :: 0 <= n < 16 ==> (r.Has(n) <==> Has(n) || other.Has(n))
      ensures Valid() && other.Valid() ==> r.Valid()
    {
      OrMasked(bits, other.bits, Top2);
      RuleBitset2(Or(bits, other.bits))
    }
  }

  /** The mask test of `from_bits` says that no count above 8 is set. */
  lemma ValidMeaning2(r: RuleBitset2)
    ensures r.Valid() <==> forall n :: 9 <= n < 16 ==> !r.bits[n]
  {
    if forall n :: 9 <= n < 16 ==> !r.bits[n] {
      forall i | 0 <= i < 16
        ensures !And(r.bits, Top2)[i]
      {
        if i >= 9 {
          assert !r.bits[i];
        }
      }
    } else {
      var n :| 9 <= n < 16 && r.bits[n];
      assert And(r.bits, Top2)[n];
    }
  }

  /** `from_bits`: panics when a bit of `0xFE00` is set. */
  function FromBits2(bits: Word16): (r: Outcome<RuleBitset2>)
    ensures r.Ok? <==> forall n :: 9 <= n < 16 ==> !bits[n]
    ensures r.Ok? ==> r.value.bits == bits && r.value.Valid()
  {
    ValidMeaning2(RuleBitset2(bits));
    if IsZero(And(bits, Top2)) then Ok(RuleBitset2(bits)) else Panic
  }

  /** `From<u16>`: no check at all. */
  function FromU16(value: Word16): RuleBitset2
  {
    RuleBitset2(value)
  }

  /** A bitset passes `from_bits` exactly when its value is below `2^9`:
      the top bits of `to_bits` are zero. */
  lemma {:induction false} ValidValue2(r: RuleBitset2)
    ensures r.Valid() <==> ToNat(r.bits) < 0x200
  {
    ValidMeaning2(r);
    if r.Valid() {
      ValueBelow(r.bits, 9);
      Pow2Table();
    } else {
      var n :| 9 <= n < 16 && r.bits[n];
      ValueAbove(r.bits, n);
      PowMono(9, n);
      Pow2Table();
    }
  }

  /** The test `rulebitset2_frombits_invalid`: `from_bits(0xFFFF)` panics,
      while `From<u16>` takes the same value unchecked. */
  lemma FromBitsInvalid2(w: Word16)
    requires ToNat(w) == 0xFFFF
    ensures FromBits2(w).Panic?
    ensures FromU16(w).bits == w && !FromU16(w).Valid()
  {
    ValidValue2(RuleBitset2(w));
  }

  /** `From<Range<u8>>`: asserts `end <= 8`, then sets the bits `start..end`. */
  method FromRange2(start: U8, end: U8) returns (r: Outcome<RuleBitset2>)
    ensures r.Panic? <==> end > 8
    ensures r.Ok? ==> r.value.bits == Span(16, start, end)
    ensures r.Ok? ==> r.value.Valid()
  {
    if end > 8 {
      return Panic;
    }
    var bits := SetRange(16, start, end);
    r := Ok(RuleBitset2(bits));
    ValidMeaning2(r.value);
  }

  /** `From<RangeInclusive<u8>>`: asserts `end <= 8`, then sets the bits
      `start..=end`. */
  method FromRangeInclusive2(start: U8, end: U8) returns (r: Outcome<RuleBitset2>)
    ensures r.Panic? <==> end > 8
    ensures r.Ok? ==> r.value.bits == Span(16, start, end + 1)
    ensures r.Ok? ==> r.value.Valid()
  {
    if end > 8 {
      return Panic;
    }
    var bits := SetRange(16, start, end + 1);
    r := Ok(RuleBitset2(bits));
    ValidMeaning2(r.value);
  }

  /** `From<[bool; 9]>`: the fold puts element `n` on bit `n`. */
  method FromArray2(value: seq<bool>) returns (r: RuleBitset2)
    requires |value| == 9
    ensures r.bits == Pad(value, 16)
    ensures r.ToArray() == value && r.Valid()
  {
    var bits := FoldBits(16, value);
    r := RuleBitset2(bits);
    ValidMeaning2(r);
  }

  /** `From<&[bool]>`: asserts that the slice holds at most 9 values; the
      counts it does not cover read as clear. */
  method FromSlice2(value: seq<bool>) returns (r: Outcome<RuleBitset2>)
    ensures r.Panic? <==> |value| > 9
    ensures r.Ok? ==> r.value.bits == Pad(value, 16)
    ensures r.Ok? ==> r.value.ToArray() == Pad(value, 9) && r.value.Valid()
  {
    if |value| > 9 {
      return Panic;
    }
    var bits := FoldBits(16, value);
    r := Ok(RuleBitset2(bits));
    ValidMeaning2(r.value);
    assert bits[..9] == Pad(value, 9);
  }

  /** `From(r.to_array()) == r`, the round trip of the `rulebitset2` test,
      holds exactly for the bitsets whose top 7 bits are clear. */
  lemma ArrayRoundTrip2(r: RuleBitset2)
    ensures RuleBitset2(Pad(r.ToArray(), 16)) == r <==> r.Valid()
  {
    ValidMeaning2(r);
    ValidMeaning2(RuleBitset2(Pad(r.ToArray(), 16)));
    if r.Valid() {
      forall i | 0 <= i < 16
        ensures Pad(r.ToArray(), 16)[i] == r.bits[i]
      {
        if i >= 9 {
          assert !r.bits[i];
        }
      }
      assert Pad(r.ToArray(), 16) == r.bits;
    }
  }

  /** The `rulebitset2` test, its `From<u16>` part: the literal `0x1F0`
      gives the bitset `from_bits` accepts, counts 4 to 8. */
  method RuleBitset2Literal() returns (r0: RuleBitset2)
    ensures ToNat(r0.bits) == 0x01F0 && FromBits2(r0.bits) == Ok(r0)
    ensures r0.ToArray() == Span(9, 4, 9)
  {
    r0 := FromU16(Span(16, 4, 9));
    assert ToNat(r0.bits) == 0x01F0 by {
      SpanValue(16, 4, 9);
      Pow2Table();
    }
    assert r0.ToArray() == Span(9, 4, 9);
  }

  /** The `rulebitset2` test, its range part: `1..4`, `2..=7` and their
      union agree with `from_bits` on the literals the test expects. */
  method RuleBitset2Ranges() returns (r1: RuleBitset2, r2: RuleBitset2, r12: RuleBitset2)
    ensures ToNat(r1.bits) == 0xE && FromBits2(r1.bits) == Ok(r1)
    ensures ToNat(r2.bits) == 0xFC && FromBits2(r2.bits) == Ok(r2)
    ensures ToNat(r12.bits) == 0xFE && FromBits2(r12.bits) == Ok(r12)
  {
    var o1 := FromRange2(1, 4);
    r1 := o1.value;
    assert ToNat(r1.bits) == 0xE by {
      SpanValue(16, 1, 4);
      Pow2Table();
    }
    var o2 := FromRangeInclusive2(2, 7);
    r2 := o2.value;
    assert ToNat(r2.bits) == 0xFC by {
      SpanValue(16, 2, 8);
      Pow2Table();
    }
    r12 := r1.OrWith(r2);
    assert ToNat(r12.bits) == 0xFE by {
      assert r12.bits == Span(16, 1, 8);
      SpanValue(16, 1, 8);
      Pow2Table();
    }
  }

  /** A 2D rule: the birth bitset applies to dead cells, the survive bitset to
      live ones (`Rule2::new` is the constructor). */
  datatype Rule2 = Rule2(birth: RuleBitset2, survive: RuleBitset2)

  /** `Rule2::SMOOTH`, S4-8/B5-8. */
  const Smooth2: Rule2 := Rule2(RuleBitset2(Span(16, 5, 9)), RuleBitset2(Span(16, 4, 9)))

  /** The preset is `from_bits(0x1E0)` for birth and `from_bits(0x1F0)` for
      survival: born at 5 to 8 neighbours, surviving at 4 to 8. */
  lemma Smooth2Bits()
    ensures ToNat(Smooth2.birth.bits) == 0x1E0 && ToNat(Smooth2.survive.bits) == 0x1F0
  {
    assert ToNat(Smooth2.birth.bits) == 0x1E0 by {
      SpanValue(16, 5, 9);
      Pow2Table();
    }
    assert ToNat(Smooth2.survive.bits) == 0x1F0 by {
      SpanValue(16, 4, 9);
      Pow2Table();
    }
  }

  /** Both halves of the preset pass `from_bits`; birth is at 5 to 8
      neighbours and survival at 4 to 8. */
  lemma Smooth2Counts()
    ensures FromBits2(Smooth2.birth.bits) == Ok(Smooth2.birth)
    ensures FromBits2(Smooth2.survive.bits) == Ok(Smooth2.survive)
    ensures forall n :: 0 <= n < 16 ==> (Smooth2.birth.Has(n) <==> 5 <= n <= 8)
    ensures forall n :: 0 <= n < 16 ==> (Smooth2.survive.Has(n) <==> 4 <= n <= 8)
  {
  }

  /** The `rule2_smooth` test: the preset is the rule built from the ranges
      `5..=8` and `4..=8`. */
  method Smooth2FromRanges() returns (rule: Rule2)
    ensures rule == Smooth2
  {
    var birth := FromRangeInclusive2(5, 8);
    var survive := FromRangeInclusive2(4, 8);
    rule := Rule2(birth.value, survive.value);
  }

  // ---------------------------------------------------------------- 3D

  /** The rule bitset of a 3D automaton: neighbour counts 0 to 26 on the low
      27 bits of a `u32`; the top 5 bits are meant to stay zero. */
  datatype RuleBitset3 = RuleBitset3(bits: Word32)
  {
    /** Bit `n` of the representation, `bits & 1 << n != 0`. */
    predicate Has(n: nat)
      requires n < 32
    {
      bits[n]
    }

    /** The representation `from_bits` accepts: `bits & 0xF800_0000 == 0`. */
    predicate Valid()
    {
      IsZero(And(bits, Top3))
    }

    /** `to_array`: bit `n` read with the mask `1 << n`, for `n` in 0..27. */
    function ToArray(): (a: seq<bool>)
      ensures a == bits[..27]
    {
      BitTests(bits);
      seq(27, n requires 0 <= n < 27 => !IsZero(And(bits, Bit(32, n))))
    }

    /** `or_with` and the `|` operator: bitwise OR of the representations. */
    function OrWith(other: RuleBitset3): (r: RuleBitset3)
      ensures forall n :: 0 <= n < 32 ==> (r.Has(n) <==> Has(n) || other.Has(n))
      ensures Valid() && other.Valid() ==> r.Valid()
    {
      OrMasked(bits, other.bits, Top3);
      RuleBitset3(Or(bits, other.bits))
    }
  }

  /** The mask test of `from_bits` says that no count above 26 is set. */
  lemma ValidMeaning3(r: RuleBitset3)
    ensures r.Valid() <==> forall n :: 27 <= n < 32 ==> !r.bits[n]
  {
    if forall n :: 27 <= n < 32 ==> !r.bits[n] {
      forall i | 0 <= i < 32
        ensures !And(r.bits, Top3)[i]
      {
        if i >= 27 {
          assert !r.bits[i];
        }
      }
    } else {
      var n :| 27 <= n < 32 && r.bits[n];
      assert And(r.bits, Top3)[n];
    }
  }

  /** `from_bits`: panics when a bit of `0xF800_0000` is set. */
  function FromBits3(bits: Word32): (r: Outcome<RuleBitset3>)
    ensures r.Ok? <==> forall n :: 27 <= n < 32 ==> !bits[n]
    ensures r.Ok? ==> r.value.bits == bits && r.value.Valid()
  {
    ValidMeaning3(RuleBitset3(bits));
    if IsZero(And(bits, Top3)) then Ok(RuleBitset3(bits)) else Panic
  }

  /** `From<u32>`: no check at all. */
  function FromU32(value: Word32): RuleBitset3
  {
    RuleBitset3(value)
  }

  /** A bitset passes `from_bits` exactly when its value is below `2^27`:
      the top bits of `to_bits` are zero. */
  lemma {:induction false} ValidValue3(r: RuleBitset3)
    ensures r.Valid() <==> ToNat(r.bits) < 0x800_0000
  {
    ValidMeaning3(r);
    if r.Valid() {
      ValueBelow(r.bits, 27);
      Pow2Table();
    } else {
      var n :| 27 <= n < 32 && r.bits[n];
      ValueAbove(r.bits, n);
      PowMono(27, n);
      Pow2Table();
    }
  }

  /** The test `rulebitset3_frombits_invalid`: `from_bits(0xFFFF_FFFF)` panics,
      while `From<u32>` takes the same value unchecked. */
  lemma FromBitsInvalid3(w: Word32)
    requires ToNat(w) == 0xFFFF_FFFF
    ensures FromBits3(w).Panic?
    ensures FromU32(w).bits == w && !FromU32(w).Valid()
  {
    ValidValue3(RuleBitset3(w));
  }

  /** `From<Range<u8>>`: asserts `end <= 27`, then sets the bits `start..end`. */
  method FromRange3(start: U8, end: U8) returns (r: Outcome<RuleBitset3>)
    ensures r.Panic? <==> end > 27
    ensures r.Ok? ==> r.value.bits == Span(32, start, end)
    ensures r.Ok? ==> r.value.Valid()
  {
    if end > 27 {
      return Panic;
    }
    var bits := SetRange(32, start, end);
    r := Ok(RuleBitset3(bits));
    ValidMeaning3(r.value);
  }

  /** `From<RangeInclusive<u8>>` as written: asserts `end <= 27`, then sets the
      bits `start..=end`.  With `end == 27` it sets bit 27, one of the bits
      `from_bits` forbids. */
  method FromRangeInclusive3(start: U8, end: U8) returns (r: Outcome<RuleBitset3>)
    ensures r.Panic? <==> end > 27
    ensures r.Ok? ==> r.value.bits == Span(32, start, end + 1)
  {
    if end > 27 {
      return Panic;
    }
    var bits := SetRange(32, start, end + 1);
    r := Ok(RuleBitset3(bits));
  }

  /** The range `0..=27` passes the assert of `From<RangeInclusive<u8>>` but
      yields a bitset that `from_bits` would reject. */
  method InclusiveRangeReachesBit27() returns (r: Outcome<RuleBitset3>)
    ensures r.Ok? && r.value.Has(27) && !r.value.Valid()
    ensures FromBits3(r.value.bits).Panic?
  {
    r := FromRangeInclusive3(0, 27);
    ValidMeaning3(r.value);
  }

  /** `From<RangeInclusive<u8>>` with the bound every other constructor keeps,
      `end <= 26`: the result always has its top 5 bits clear. */
  method FromRangeInclusive3Checked(start: U8, end: U8) returns (r: Outcome<RuleBitset3>)
    ensures r.Panic? <==> end > 26
    ensures r.Ok? ==> r.value.bits == Span(32, start, end + 1)
    ensures r.Ok? ==> r.value.Valid()
  {
    if end > 26 {
      return Panic;
    }
    var bits := SetRange(32, start, end + 1);
    r := Ok(RuleBitset3(bits));
    ValidMeaning3(r.value);
  }

  /** `From<[bool; 27]>`: the fold puts element `n` on bit `n`. */
  method FromArray3(value: seq<bool>) returns (r: RuleBitset3)
    requires |value| == 27
    ensures r.bits == Pad(value, 32)
    ensures r.ToArray() == value && r.Valid()
  {
    var bits := FoldBits(32, value);
    r := RuleBitset3(bits);
    ValidMeaning3(r);
  }

  /** `From<&[bool]>`: asserts that the slice holds at most 27 values; the
      counts it does not cover read as clear. */
  method FromSlice3(value: seq<bool>) returns (r: Outcome<RuleBitset3>)
    ensures r.Panic? <==> |value| > 27
    ensures r.Ok? ==> r.value.bits == Pad(value, 32)
    ensures r.Ok? ==> r.value.ToArray() == Pad(value, 27) && r.value.Valid()
  {
    if |value| > 27 {
      return Panic;
    }
    var bits := FoldBits(32, value);
    r := Ok(RuleBitset3(bits));
    ValidMeaning3(r.value);
    assert bits[..27] == Pad(value, 27);
  }

  /** `From(r.to_array()) == r`, the round trip of the `rulebitset3` test,
      holds exactly for the bitsets whose top 5 bits are clear. */
  lemma ArrayRoundTrip3(r: RuleBitset3)
    ensures RuleBitset3(Pad(r.ToArray(), 32)) == r <==> r.Valid()
  {
    ValidMeaning3(r);
    ValidMeaning3(RuleBitset3(Pad(r.ToArray(), 32)));
    if r.Valid() {
      forall i | 0 <= i < 32
        ensures Pad(r.ToArray(), 32)[i] == r.bits[i]
      {
        if i >= 27 {
          assert !r.bits[i];
        }
      }
      assert Pad(r.ToArray(), 32) == r.bits;
    }
  }

  /** The `rulebitset3` test, its `From<u32>` part: the literal `0xFF00`
      gives the bitset `from_bits` accepts, counts 8 to 15. */
  method RuleBitset3Literal() returns (r0: RuleBitset3)
    ensures ToNat(r0.bits) == 0xFF00 && FromBits3(r0.bits) == Ok(r0)
  {
    r0 := FromU32(Span(32, 8, 16));
    assert ToNat(r0.bits) == 0xFF00 by {
      SpanValue(32, 8, 16);
      Pow2Table();
    }
  }

  /** The `rulebitset3` test, its range part: `3..7`, `23..=26` and their
      union agree with `from_bits` on the literals the test expects. */
  method RuleBitset3Ranges() returns (r1: RuleBitset3, r2: RuleBitset3, r12: RuleBitset3)
    ensures ToNat(r1.bits) == 0x78 && FromBits3(r1.bits) == Ok(r1)
    ensures ToNat(r2.bits) == 0x780_0000 && FromBits3(r2.bits) == Ok(r2)
    ensures ToNat(r12.bits) == 0x780_0078 && FromBits3(r12.bits) == Ok(r12)
  {
    var o1 := FromRange3(3, 7);
    r1 := o1.value;
    assert ToNat(r1.bits) == 0x78 by {
      SpanValue(32, 3, 7);
      Pow2Table();
    }
    var o2 := FromRangeInclusive3(23, 26);
    r2 := o2.value;
    assert ToNat(r2.bits) == 0x780_0000 by {
      SpanValue(32, 23, 27);
      Pow2Table();
    }
    r12 := r1.OrWith(r2);
    assert ToNat(r12.bits) == 0x780_0078 by {
      DisjointOrValue(r1.bits, r2.bits);
    }
  }

  /** A 3D rule: the birth bitset applies to dead cells, the survive bitset to
      live ones (`Rule3::new` is the constructor). */
  datatype Rule3 = Rule3(birth: RuleBitset3, survive: RuleBitset3)

  /** `Rule3::SMOOTH`, S13-26/B13-14,17-19. */
  const Smooth3: Rule3 := Rule3(RuleBitset3(Or(Span(32, 13, 15), Span(32, 17, 20))), RuleBitset3(Span(32, 13, 27)))

  /** The preset is `from_bits(0xE_6000)` for birth and `from_bits(0x7FF_E000)`
      for survival: born at 13, 14, 17, 18 or 19 neighbours, surviving at 13
      to 26. */
  lemma Smooth3Bits()
    ensures ToNat(Smooth3.birth.bits) == 0xE_6000 && ToNat(Smooth3.survive.bits) == 0x7FF_E000
  {
    assert ToNat(Smooth3.birth.bits) == 0xE_6000 by {
      DisjointOrValue(Span(32, 13, 15), Span(32, 17, 20));
      assert ToNat(Span(32, 13, 15)) == 0x6000 by {
        SpanValue(32, 13, 15);
        Pow2Table();
      }
      assert ToNat(Span(32, 17, 20)) == 0xE_0000 by {
        SpanValue(32, 17, 20);
        Pow2Table();
      }
    }
    assert ToNat(Smooth3.survive.bits) == 0x7FF_E000 by {
      SpanValue(32, 13, 27);
      Pow2Table();
    }
  }

  /** Both halves of the preset pass `from_bits`; birth is at 13, 14, 17, 18
      or 19 neighbours and survival at 13 to 26. */
  lemma Smooth3Counts()
    ensures FromBits3(Smooth3.birth.bits) == Ok(Smooth3.birth)
    ensures FromBits3(Smooth3.survive.bits) == Ok(Smooth3.survive)
    ensures forall n :: 0 <= n < 32 ==> (Smooth3.birth.Has(n) <==> 13 <= n <= 14 || 17 <= n <= 19)
    ensures forall n :: 0 <= n < 32 ==> (Smooth3.survive.Has(n) <==> 13 <= n <= 26)
  {
  }

  /** The `rule3_smooth` test: the preset is `(13..=14) | (17..=19)` for birth
      and `13..=26` for survival. */
  method Smooth3FromRanges() returns (rule: Rule3)
    ensures rule == Smooth3
  {
    var b1 := FromRangeInclusive3(13, 14);
    var b2 := FromRangeInclusive3(17, 19);
    var survive := FromRangeInclusive3(13, 26);
    rule := Rule3(b1.value.OrWith(b2.value), survive.value);

  }
}
