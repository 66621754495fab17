/** Machine words as sequences of bits.

    A `u16`, `u32` or `u64` of the engine is modelled as the sequence of its
    bits, least significant first: bit `n` of the word is element `n`.  The
    bitwise operators become index-wise operations on those sequences, and a
    mask such as `0xFE00` becomes the span of its set bits, whose value
    `ToNat` reads back. */
module Words {

  /** An unsigned 8-bit integer, the type of the range bounds. */
  type U8 = x: int | 0 <= x < 256

  /** The word `0` of the given width. */
  function Zeros(width: nat): (w: seq<bool>)
    ensures |w| == width
    ensures forall i :: 0 <= i < width ==> !w[i]
  {
    seq(width, _ => false)
  }

  /** The word `1 << n`. */
  function Bit(width: nat, n: nat): (w: seq<bool>)
    requires n < width
    ensures |w| == width
    ensures forall i :: 0 <= i < width ==> (w[i] <==> i == n)
  {
    seq(width, i => i == n)
  }

  /** Bitwise OR of two words of the same width. */
  function Or(a: seq<bool>, b: seq<bool>): (w: seq<bool>)
    requires |a| == |b|
    ensures |w| == |a|
    ensures forall i {:trigger w[i]} :: 0 <= i < |a| ==> (w[i] <==> a[i] || b[i])
  {
    seq(|a|, i requires 0 <= i < |a| => a[i] || b[i])
  }

  /** Bitwise AND of two words of the same width. */
  function And(a: seq<bool>, b: seq<bool>): (w: seq<bool>)
    requires |a| == |b|
    ensures |w| == |a|
    ensures forall i {:trigger w[i]} :: 0 <= i < |a| ==> (w[i] <==> a[i] && b[i])
  {
    seq(|a|, i requires 0 <= i < |a| => a[i] && b[i])
  }

  /** Bitwise NOT. */
  function Not(a: seq<bool>): (w: seq<bool>)
    ensures |w| == |a|
    ensures forall i {:trigger w[i]} :: 0 <= i < |a| ==> (w[i] <==> !a[i])
  {
    seq(|a|, i requires 0 <= i < |a| => !a[i])
  }

  /** The test `w & 1 << n != 0` reads bit `n`. */
  lemma BitTests(w: seq<bool>)
    ensures forall n :: 0 <= n < |w| ==> (!IsZero(And(w, Bit(|w|, n))) <==> w[n])
  {
    forall n | 0 <= n < |w|
      ensures !IsZero(And(w, Bit(|w|, n))) <==> w[n]
    {
      if w[n] {
        assert And(w, Bit(|w|, n))[n];
      }
    }
  }

  /** Two words with no bit in a mask `m` have an OR with no bit in `m`. */
  lemma OrMasked(a: seq<bool>, b: seq<bool>, m: seq<bool>)
    requires |a| == |b| == |m|
    ensures IsZero(And(a, m)) && IsZero(And(b, m)) ==> IsZero(And(Or(a, b), m))
  {
    if IsZero(And(a, m)) && IsZero(And(b, m)) {
      forall i | 0 <= i < |a|
        ensures !And(Or(a, b), m)[i]
      {
        assert !And(a, m)[i] && !And(b, m)[i];
      }
    }
  }

  /** A `u64`. */
  type Word64 = w: seq<bool> | |w| == 64 witness Zeros(64)

  /** The word `w << n`: bit `i` is bit `i - n` of `w`, clear below `n`. */
  function Shl(w: seq<bool>, n: nat): (r: seq<bool>)
    ensures |r| == |w|
    ensures forall i {:trigger r[i]} :: 0 <= i < |w| ==> (r[i] <==> n <= i && w[i - n])
  {
    seq(|w|, i requires 0 <= i < |w| => n <= i && w[i - n])
  }

  /** The word `w >> n`: bit `i` is bit `i + n` of `w`, clear from `|w| - n` on. */
  function Shr(w: seq<bool>, n: nat): (r: seq<bool>)
    ensures |r| == |w|
    ensures forall i {:trigger r[i]} :: 0 <= i < |w| ==> (r[i] <==> i + n < |w| && w[i + n])
  {
    seq(|w|, i requires 0 <= i < |w| => i + n < |w| && w[i + n])
  }

  /** Bit `n` of a buffer of `u64` words, word `n / 64`, bit `n % 64`; clear
      past the end of the buffer. */
  function Packed(data: seq<Word64>, n: nat): bool
  {
    n / 64 < |data| && data[n / 64][n % 64]
  }

  /** Setting bit `t` of a buffer changes that bit alone. */
  lemma PackedSet(data: seq<Word64>, t: nat, v: bool, n: nat)
    requires t / 64 < |data|
    ensures Packed(data[t / 64 := data[t / 64][t % 64 := v]], n) == if n == t then v else Packed(data, n)
  {
    if n != t {
      assert n == 64 * (n / 64) + n % 64 && t == 64 * (t / 64) + t % 64;
    }
  }

  /** The test `w == 0`. */
  predicate IsZero(w: seq<bool>)
  {
    forall i :: 0 <= i < |w| ==> !w[i]
  }

  /** The value of a word, the unsigned integer it stands for. */
  function ToNat(w: seq<bool>): nat
  {
    if w == [] then 0 else (if w[0] then 1 else 0) + 2 * ToNat(w[1..])
  }

  function Pow2(n: nat): (p: nat)
    ensures p >= 1
  {
    if n == 0 then 1 else 2 * Pow2(n - 1)
  }

  lemma {:induction false} PowMono(a: nat, b: nat)
    requires a <= b
    ensures Pow2(a) <= Pow2(b)
  {
    if a < b {
      PowMono(a, b - 1);
    }
  }

  /** The powers of two up to `2^32`, to read the literals of the source. */
  lemma Pow2Table()
    ensures Pow2(0) == 0x1 && Pow2(1) == 0x2 && Pow2(2) == 0x4 && Pow2(3) == 0x8
         && Pow2(4) == 0x10 && Pow2(5) == 0x20 && Pow2(6) == 0x40 && Pow2(7) == 0x80
         && Pow2(8) == 0x100 && Pow2(9) == 0x200 && Pow2(10) == 0x400 && Pow2(11) == 0x800
         && Pow2(12) == 0x1000 && Pow2(13) == 0x2000 && Pow2(14) == 0x4000 && Pow2(15) == 0x8000
         && Pow2(16) == 0x10000 && Pow2(17) == 0x20000 && Pow2(18) == 0x40000 && Pow2(19) == 0x80000
         && Pow2(20) == 0x100000 && Pow2(21) == 0x200000 && Pow2(22) == 0x400000 && Pow2(23) == 0x800000
         && Pow2(24) == 0x1000000 && Pow2(25) == 0x2000000 && Pow2(26) == 0x4000000 && Pow2(27) == 0x8000000
         && Pow2(28) == 0x10000000 && Pow2(29) == 0x20000000 && Pow2(30) == 0x40000000 && Pow2(31) == 0x80000000
         && Pow2(32) == 0x100000000
  {
    assert Pow2(1) == 0x2;
    assert Pow2(2) == 0x4;
    assert Pow2(3) == 0x8;
    assert Pow2(4) == 0x10;
    assert Pow2(5) == 0x20;
    assert Pow2(6) == 0x40;
    assert Pow2(7) == 0x80;
    assert Pow2(8) == 0x100;
    assert Pow2(9) == 0x200;
    assert Pow2(10) == 0x400;
    assert Pow2(11) == 0x800;
    assert Pow2(12) == 0x1000;
    assert Pow2(13) == 0x2000;
    assert Pow2(14) == 0x4000;
    assert Pow2(15) == 0x8000;
    assert Pow2(16) == 0x10000;
    assert Pow2(17) == 0x20000;
    assert Pow2(18) == 0x40000;
    assert Pow2(19) == 0x80000;
    assert Pow2(20) == 0x100000;
    assert Pow2(21) == 0x200000;
    assert Pow2(22) == 0x400000;
    assert Pow2(23) == 0x800000;
    assert Pow2(24) == 0x1000000;
    assert Pow2(25) == 0x2000000;
    assert Pow2(26) == 0x4000000;
    assert Pow2(27) == 0x8000000;
    assert Pow2(28) == 0x10000000;
    assert Pow2(29) == 0x20000000;
    assert Pow2(30) == 0x40000000;
    assert Pow2(31) == 0x80000000;
    assert Pow2(32) == 0x100000000;
  }

  /** The word whose set bits are exactly `lo..hi`. */
  function Span(width: nat, lo: nat, hi: nat): (w: seq<bool>)
    ensures |w| == width
    ensures forall i :: 0 <= i < width ==> (w[i] <==> lo <= i < hi)
  {
    seq(width, i => lo <= i < hi)
  }

  /** The value of a span is `2^hi - 2^lo`; this is how the hexadecimal
      masks and literals of the source are read. */
  lemma {:induction false} SpanValue(width: nat, lo: nat, hi: nat)
    requires lo <= hi <= width
    ensures ToNat(Span(width, lo, hi)) == Pow2(hi) - Pow2(lo)
  {
    var w := Span(width, lo, hi);
    if width == 0 {
    } else if hi == 0 {
      assert w[1..] == Span(width - 1, 0, 0);
      SpanValue(width - 1, 0, 0);
    } else if lo == 0 {
      assert w[1..] == Span(width - 1, 0, hi - 1);
      SpanValue(width - 1, 0, hi - 1);
    } else {
      assert w[1..] == Span(width - 1, lo - 1, hi - 1);
      SpanValue(width - 1, lo - 1, hi - 1);
    }
  }

  /** OR of two words with no bit in common adds their values. */
  lemma {:induction false} DisjointOrValue(a: seq<bool>, b: seq<bool>)
    requires |a| == |b|
    requires forall i :: 0 <= i < |a| ==> !(a[i] && b[i])
    ensures ToNat(Or(a, b)) == ToNat(a) + ToNat(b)
  {
    if a != [] {
      assert Or(a, b)[1..] == Or(a[1..], b[1..]);
      DisjointOrValue(a[1..], b[1..]);
    }
  }

  /** A word whose bits from `k` on are clear is below `2^k`. */
  lemma {:induction false} ValueBelow(w: seq<bool>, k: nat)
    requires k <= |w|
    requires forall i :: k <= i < |w| ==> !w[i]
    ensures ToNat(w) < Pow2(k)
  {
    if k == 0 {
      ZeroValue(w);
    } else {
      ValueBelow(w[1..], k - 1);
    }
  }

  /** A word with bit `k` set is at least `2^k`. */
  lemma {:induction false} ValueAbove(w: seq<bool>, k: nat)
    requires k < |w| && w[k]
    ensures ToNat(w) >= Pow2(k)
  {
    if k > 0 {
      ValueAbove(w[1..], k - 1);
    }
  }

  /** A word with no bit set is `0`. */
  lemma {:induction false} ZeroValue(w: seq<bool>)
    requires IsZero(w)
    ensures ToNat(w) == 0
  {
    if w != [] {
      ZeroValue(w[1..]);
    }
  }

  /** The input of the `fold` in the `From<[bool; N]>` constructors, padded
      with clear bits up to the width of the word. */
  function Pad(s: seq<bool>, width: nat): (w: seq<bool>)
    requires |s| <= width
    ensures |w| == width
    ensures w[..|s|] == s && IsZero(w[|s|..])
  {
    s + Zeros(width - |s|)
  }

  /** The loop `for b in lo..hi { bits |= 1 << b; }`, starting from `0`: the
      word whose set bits are exactly `lo..hi` (none when `lo >= hi`). */
  method SetRange(width: nat, lo: nat, hi: nat) returns (bits: seq<bool>)
    requires hi <= width
    ensures bits == Span(width, lo, hi)
  {
    bits := Zeros(width);
    var b := lo;
    while b < hi
      invariant b == lo || lo <= b <= hi
      invariant |bits| == width
      invariant forall n :: 0 <= n < width ==> (bits[n] <==> lo <= n < b)
    {
      bits := Or(bits, Bit(width, b));
      b := b + 1;
    }
  }

  /** The `fold` of the `From<[bool; N]>` and `From<&[bool]>` constructors: a
      counter `bit` shifts each `bool` into place and ORs it into the
      accumulator, so element `i` of the input becomes bit `i`. */
  method FoldBits(width: nat, value: seq<bool>) returns (bits: seq<bool>)
    requires |value| <= width
    ensures bits == Pad(value, width)
  {
    bits := Zeros(width);
    var bit := 0;
    while bit < |value|
      invariant bit <= |value|
      invariant bits == Pad(value[..bit], width)
    {
      var b := if value[bit] then Bit(width, bit) else Zeros(width);
      bits := Or(bits, b);
      bit := bit + 1;
      assert bits == Pad(value[..bit], width);
    }
    assert value[..bit] == value;
  }
}
