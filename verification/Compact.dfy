/**
The compact target format (arith_uint256::SetCompact and GetCompact,
src/arith_uint256.cpp:203-246): a base-256 floating point number in 32 bits.
The top byte is the size in bytes, the low 23 bits are the mantissa and the bit
between them is a sign.
*/
module Compact {
  import opened Arith
  import opened BaseUint

  const SIGN: int := 0x80_0000

  const SIZE_UNIT: int := 0x100_0000

  ghost const MODULUS: nat := Pow2(256)

  //
  // Shifts.
  //

  function Shl(x: nat, k: nat): (r: nat)
    ensures r == x * Pow2(k)
  {
    NonNegative(x, Pow2(k));
    x * Pow2(k)
  }

  function Shr(x: nat, k: nat): (r: nat)
    ensures r == x / Pow2(k) <= x
  {
    Quot(x, Pow2(k))
  }

  lemma PowersOf24()
    ensures Pow2(0) == 1 && Pow2(8) == 256 && Pow2(16) == 0x1_0000
    ensures Pow2(15) == 0x8000 && Pow2(23) == SIGN && Pow2(24) == SIZE_UNIT
  {
    Pow2Is16();
    assert Pow2(16) == 2 * Pow2(15);
    Pow2Add(15, 8);
    Pow2Add(16, 8);
  }

  lemma Threshold(m: nat, a: nat, b: nat)
    requires b >= 1
    ensures m * b >= a * b <==> m >= a
  {
    if m < a {
      MulStrict(m, a, b);
    } else {
      MulMono(a, m, b);
    }
  }

  /** A number between multiples of d has its quotient between them. */
  lemma Quotient(v: nat, d: nat, lo: nat, hi: nat)
    requires lo * d <= v < hi * d && d >= 1
    ensures lo <= v / d < hi && (v / d) * d <= v < (v / d) * d + d
  {
    var q := v / d;
    Euclid(v, d);
    if q < lo {
      MulMono(q + 1, lo, d);
      Distribute(q, 1, 1, d);
    }
    if q >= hi {
      MulMono(hi, q, d);
    }
  }

  //
  // The decoder on numbers.
  //

  function Size(c: uint32): nat { c / SIZE_UNIT }

  function Mantissa(c: uint32): nat { c % SIGN }

  predicate SignBit(c: uint32) { (c / SIGN) % 2 == 1 }

  /** The mantissa after the shift that small sizes call for. */
  function Word(c: uint32): nat {
    if Size(c) <= 3 then Shr(Mantissa(c), 8 * (3 - Size(c))) else Mantissa(c)
  }

  /** The number written, whatever its length. */
  function Written(c: uint32): nat {
    if Size(c) <= 3 then Word(c) else Shl(Mantissa(c), 8 * (Size(c) - 3))
  }

  /** The decoded target: cut off at 256 bits. */
  ghost function Decoded(c: uint32): nat {
    Written(c) % MODULUS
  }

  predicate Negative(c: uint32) {
    Word(c) != 0 && SignBit(c)
  }

  predicate Overflows(c: uint32) {
    var w, size := Word(c), Size(c);
    w != 0 && (size > 34 || (w > 0xff && size > 33) || (w > 0xffff && size > 32))
  }

  lemma SmallFits(x: nat)
    requires x < SIZE_UNIT
    ensures x < MODULUS
  {
    PowersOf24();
    Pow2Monotone(24, 256);
  }

  /** The overflow flag is raised exactly when the number written does not fit 256 bits. */
  lemma OverflowIsExact(c: uint32)
    ensures Overflows(c) <==> Written(c) >= MODULUS
  {
    var m, size := Mantissa(c), Size(c);
    if size <= 3 {
      SmallFits(Word(c));
    } else if size > 34 {
      if m > 0 {
        Pow2Monotone(256, 8 * (size - 3));
        MulMono(1, m, Pow2(8 * (size - 3)));
      }
    } else {
      OverflowBelow(c);
    }
  }

  lemma OverflowBelow(c: uint32)
    requires 3 < Size(c) <= 34
    ensures Overflows(c) <==> Written(c) >= MODULUS
  {
    hide Pow2;
    var m, size := Mantissa(c), Size(c);
    var e := 8 * (size - 3);
    PowersOf24();
    Pow2Add(256 - e, e);
    Threshold(m, Pow2(256 - e), Pow2(e));
    assert Written(c) >= MODULUS <==> m >= Pow2(256 - e);
    if size <= 32 {
      Pow2Monotone(24, 256 - e);
    }
  }

  //
  // The encoder on numbers.
  //

  /** Bit length; Uint.Bits meets the bounds below. */
  function BitLength(v: nat): nat {
    if v == 0 then 0 else 1 + BitLength(v / 2)
  }

  lemma {:induction false} BitLengthBounds(v: nat)
    requires v > 0
    ensures BitLength(v) >= 1 && Pow2(BitLength(v) - 1) <= v < Pow2(BitLength(v))
  {
    if v > 1 {
      BitLengthBounds(v / 2);
    }
  }

  lemma BitLengthUnique(v: nat, b: nat)
    requires b >= 1 && Pow2(b - 1) <= v < Pow2(b)
    ensures BitLength(v) == b
  {
    BitLengthBounds(v);
    var c := BitLength(v);
    if c < b {
      Pow2Monotone(c, b - 1);
    } else if c > b {
      Pow2Monotone(b, c - 1);
    }
  }

  /** The three most significant bytes of a number of the given size. */
  function Leading(v: nat, size: nat): nat {
    if size <= 3 then Shl(v, 8 * (3 - size)) else Shr(v, 8 * (size - 3))
  }

  /** The fields put together, one byte of mantissa given up when it collides with the sign bit. */
  function Packed(m: nat, size: nat, negative: bool): nat {
    var c := if (m / SIGN) % 2 == 1 then m / 256 + (size + 1) * SIZE_UNIT else m + size * SIZE_UNIT;
    if negative && c % SIGN != 0 then c + SIGN else c
  }

  /** GetCompact (lines 225-246), with the sign bit on request. */
  function Encoded(v: nat, negative: bool): nat {
    var size := (BitLength(v) + 7) / 8;
    Packed(Leading(v, size), size, negative)
  }

  //
  // The canonical form: the smallest size whose mantissa leaves the sign bit clear.
  //

  function CanonicalSize(v: nat): nat {
    BitLength(v) / 8 + 1
  }

  /** The range of numbers that share a canonical size. */
  lemma SizeRange(v: nat)
    requires v > 0
    ensures var s := CanonicalSize(v); v < Pow2(8 * s - 1) && (s >= 2 ==> v >= Pow2(8 * s - 9))
  {
    hide Pow2;
    hide BitLength;
    BitLengthBounds(v);
    var b, s := BitLength(v), CanonicalSize(v);
    Pow2Monotone(b, 8 * s - 1);
    if s >= 2 {
      Pow2Monotone(8 * s - 9, b - 1);
    }
  }

  lemma SizeFromRange(v: nat, s: nat)
    requires s >= 2 && Pow2(8 * s - 9) <= v < Pow2(8 * s - 1)
    ensures CanonicalSize(v) == s
  {
    BitLengthBounds(v);
    var b := BitLength(v);
    if b < 8 * s - 8 {
      Pow2Monotone(b, 8 * s - 9);
    } else if b > 8 * s - 1 {
      Pow2Monotone(8 * s - 1, b - 1);
    }
  }

  lemma SizeAtMost33(v: nat)
    requires 0 < v < MODULUS
    ensures CanonicalSize(v) <= 33
  {
    BitLengthBounds(v);
    if BitLength(v) > 256 {
      Pow2Monotone(256, BitLength(v) - 1);
    }
  }

  /** The leading bytes of a number below 2^(8s - 24 + top) stay below 2^top. */
  lemma LeadingBelow(v: nat, s: nat, top: nat)
    requires s >= 1 && top >= 23 && v < Pow2(8 * s + top - 24)
    ensures Leading(v, s) < Pow2(top)
  {
    if s <= 3 {
      var d := 8 * (3 - s);
      Pow2Add(8 * s + top - 24, d);
      MulStrict(v, Pow2(8 * s + top - 24), Pow2(d));
    } else {
      var e := 8 * (s - 3);
      Pow2Add(top, e);
      NonNegative(0, Pow2(e));
      Quotient(v, Pow2(e), 0, Pow2(top));
    }
  }

  /** And those of one at or above it, at or above 2^top. */
  lemma LeadingAbove(v: nat, s: nat, top: nat)
    requires s >= 1 && 8 * s + top >= 24 && v >= Pow2(8 * s + top - 24)
    ensures Leading(v, s) >= Pow2(top)
  {
    if s <= 3 {
      var d := 8 * (3 - s);
      Pow2Add(8 * s + top - 24, d);
      MulMono(Pow2(8 * s + top - 24), v, Pow2(d));
    } else {
      var e := 8 * (s - 3);
      Pow2Add(top, e);
      Euclid(v, Pow2(e));
      if v / Pow2(e) < Pow2(top) {
        MulStrict(v / Pow2(e), Pow2(top), Pow2(e));
      }
    }
  }

  /** A canonical mantissa has at most 23 bits, and at least 16 beyond three bytes. */
  lemma MantissaRange(v: nat)
    requires v > 0
    ensures 0 < Leading(v, CanonicalSize(v)) < SIGN
    ensures CanonicalSize(v) > 3 ==> Leading(v, CanonicalSize(v)) >= 0x8000
  {
    var s := CanonicalSize(v);
    SizeRange(v);
    PowersOf24();
    LeadingBelow(v, s, 23);
    if s <= 3 {
      MulMono(1, v, Pow2(8 * (3 - s)));
    } else {
      LeadingAbove(v, s, 15);
    }
  }

  /** One more byte of size is one less byte of mantissa. */
  lemma DropByte(v: nat, size: nat)
    requires size >= 1
    ensures Leading(v, size) / 256 == Leading(v, size + 1)
  {
    PowersOf24();
    if size < 3 {
      var d := Pow2(8 * (2 - size));
      Pow2Add(8, 8 * (2 - size));
      assert Leading(v, size) == v * (256 * d);
      Assoc(v, 256, d);
      Assoc(256, v, d);
      DivUnique(v * d, 0, 256, 256 * (v * d));
    } else if size > 3 {
      var e := 8 * (size - 3);
      Pow2Add(e, 8);
      DivTwice(v, Pow2(e), 256);
    }
  }

  lemma DivTwice(v: nat, d: nat, k: nat)
    requires d >= 1 && k >= 1
    ensures (v / d) / k == v / (d * k)
  {
    DivAtMost(v, d);
    Euclid(v, d);
    DivAtMost(v / d, k);
    Euclid(v / d, k);
    Regrouped(v / d, v % d, d, k, (v / d) / k, (v / d) % k);
  }

  lemma Regrouped(q: nat, r: nat, d: nat, k: nat, q': nat, r': nat)
    requires q == q' * k + r' && r < d && r' < k
    ensures q' == (q * d + r) / (d * k)
  {
    MulStrict(r', k, d);
    NonNegative(r', d);
    Distribute(r', q', k, d);
    assert (r' + q' * k) * d == q' * (k * d) + r' * d;
    assert k * d == d * k;
    DivUnique(q', r' * d + r, d * k, q * d + r);
  }

  /** The encoder produces the canonical form. */
  lemma EncodedIsCanonical(v: nat)
    requires v > 0
    ensures Encoded(v, false) == Leading(v, CanonicalSize(v)) + CanonicalSize(v) * SIZE_UNIT
  {
    hide Leading;
    hide Pow2;
    hide Packed;
    hide BitLength;
    BitLengthBounds(v);
    var b := BitLength(v);
    var size := (b + 7) / 8;
    MantissaRange(v);
    if b % 8 == 0 {
      PowersOf24();
      LeadingAbove(v, size, 23);
      LeadingBelow(v, size, 24);
      DropByte(v, size);
      PackedCollides(Leading(v, size), size);
    } else {
      PackedClear(Leading(v, size), size);
    }
  }

  lemma PackedClear(m: nat, size: nat)
    requires m < SIGN
    ensures Packed(m, size, false) == m + size * SIZE_UNIT
  {
  }

  lemma PackedCollides(m: nat, size: nat)
    requires SIGN <= m < SIZE_UNIT
    ensures Packed(m, size, false) == m / 256 + (size + 1) * SIZE_UNIT
  {
  }

  lemma Fields(m: nat, s: nat, negative: bool)
    requires m < SIGN && s < 256
    ensures var c := m + s * SIZE_UNIT + if negative then SIGN else 0;
            0 <= c < BASE && Size(c) == s && Mantissa(c) == m && SignBit(c) == negative
  {
    var sign := if negative then 1 else 0;
    var c := m + s * SIZE_UNIT + sign * SIGN;
    DivUnique(s, m + sign * SIGN, SIZE_UNIT, c);
    DivUnique(2 * s + sign, m, SIGN, c);
  }

  /** What a canonical encoding says. */
  lemma EncodedFields(v: nat, negative: bool)
    requires 0 < v < MODULUS
    ensures Encoded(v, negative) < BASE
    ensures var c := Encoded(v, negative);
            Size(c) == CanonicalSize(v) && Mantissa(c) == Leading(v, CanonicalSize(v)) && SignBit(c) == negative
  {
    hide Pow2;
    hide Leading;
    EncodedIsCanonical(v);
    MantissaRange(v);
    SizeAtMost33(v);
    Fields(Leading(v, CanonicalSize(v)), CanonicalSize(v), false);
    Fields(Leading(v, CanonicalSize(v)), CanonicalSize(v), negative);
  }

  /** The number an encoding writes, and how far below the encoded number it is. */
  lemma WrittenCanonical(v: nat, c: uint32)
    requires 0 < v < MODULUS
    requires Size(c) == CanonicalSize(v) && Mantissa(c) == Leading(v, CanonicalSize(v))
    ensures 0 < Word(c) && 0 < Written(c) <= v
    ensures Size(c) <= 3 ==> Written(c) == v
    ensures Size(c) > 3 ==> v < Written(c) + Pow2(8 * (Size(c) - 3))
    ensures (v - Written(c)) * 0x8000 < Written(c)
  {
    MantissaRange(v);
    var m, s := Mantissa(c), Size(c);
    if s <= 3 {
      var d := Pow2(8 * (3 - s));
      DivUnique(v, 0, d, v * d);
    } else {
      var d := Pow2(8 * (s - 3));
      Euclid(v, d);
      MulMono(0x8000, m, d);
      MulMono(1, m, d);
      assert (v - m * d) * 0x8000 < d * 0x8000;
    }
  }

  /**
  Encoding and decoding: no overflow, the sign asked for, and a number rounded down
  by less than one part in 2^15.
  */
  lemma RoundTrip(v: nat, negative: bool)
    requires 0 < v < MODULUS
    ensures Encoded(v, negative) < BASE
    ensures var c := Encoded(v, negative);
            && Negative(c) == negative && !Overflows(c)
            && 0 < Decoded(c) <= v && (v - Decoded(c)) * 0x8000 < Decoded(c)
  {
    EncodedFields(v, negative);
    var c := Encoded(v, negative);
    WrittenCanonical(v, c);
    OverflowIsExact(c);
    Within(Written(c), MODULUS);
  }

  /** The rounded number has the same encoding, so encoding is idempotent. */
  lemma Idempotent(v: nat, negative: bool)
    requires 0 < v < MODULUS
    ensures Encoded(v, negative) < BASE
    ensures Encoded(Decoded(Encoded(v, negative)), negative) == Encoded(v, negative)
  {
    hide Pow2;
    hide Leading;
    EncodedFields(v, negative);
    var c := Encoded(v, negative);
    WrittenCanonical(v, c);
    Within(Written(c), MODULUS);
    if Size(c) > 3 {
      SameLeading(v, c);
      EncodedIsCanonical(v);
      EncodedIsCanonical(Written(c));
    }
  }

  lemma SameLeading(v: nat, c: uint32)
    requires v > 0 && Size(c) == CanonicalSize(v) > 3 && Mantissa(c) == Leading(v, CanonicalSize(v))
    ensures Written(c) > 0 && CanonicalSize(Written(c)) == CanonicalSize(v)
    ensures Leading(Written(c), CanonicalSize(v)) == Leading(v, CanonicalSize(v))
  {
    MantissaRange(v);
    var m, e := Mantissa(c), 8 * (Size(c) - 3);
    PowersOf24();
    Pow2Add(15, e);
    Pow2Add(23, e);
    MulMono(0x8000, m, Pow2(e));
    MulStrict(m, SIGN, Pow2(e));
    SizeFromRange(Written(c), Size(c));
    DivUnique(m, 0, Pow2(e), Written(c));
  }

  /** Zero, and only zero, is encoded as zero, and takes no sign. */
  lemma ZeroEncoded(v: nat, negative: bool)
    requires v < MODULUS
    ensures Encoded(v, negative) == 0 <==> v == 0
  {
    hide Pow2;
    hide Leading;
    if v > 0 {
      EncodedFields(v, negative);
    } else {
      NothingShifted(v, 0);
    }
  }

  lemma NothingShifted(v: nat, size: nat)
    requires v == 0
    ensures Leading(v, size) == 0
  {
  }

  /** A word that writes zero decodes to zero, without a flag. */
  lemma ZeroWritten(c: uint32)
    requires Word(c) == 0
    ensures Decoded(c) == 0 && !Negative(c) && !Overflows(c)
  {
    hide Pow2;
    var z := Written(c);
    assert z == 0;
    SmallFits(z);
    Within(z, MODULUS);
  }

  /** A decoded target is never the largest 256-bit number, so adding one to it cannot wrap. */
  lemma DecodedBelowMax(c: uint32)
    ensures Decoded(c) + 1 < MODULUS
  {
    if Size(c) <= 3 {
      PowersOf24();
      Pow2Monotone(24, 256);
      Within(Word(c), MODULUS);
    } else {
      var e := 8 * (Size(c) - 3);
      assert Pow2(e) == 2 * Pow2(e - 1) && MODULUS == 2 * Pow2(255);
      EvenRemainder(Mantissa(c), Pow2(e - 1), Pow2(255));
    }
  }

  lemma EvenRemainder(m: nat, h: nat, k: nat)
    requires k >= 1
    ensures (m * (2 * h)) % (2 * k) + 1 < 2 * k
  {
    Assoc(m, 2, h);
    Assoc(2, m, h);
    var x := m * h;
    Euclid(x, k);
    Distribute(x % k, x / k, k, 2);
    assert 2 * x == (x / k) * (2 * k) + 2 * (x % k);
    ModUnique(2 * (x % k), x / k, 2 * k, 2 * x);
  }

  //
  // The methods.
  //

  lemma Modulus256(x: Uint)
    requires x.pn.Length == 8
    ensures x.Modulus() == MODULUS
  {
    WIsPow2(8);
  }

  /** Assignment from a 32-bit word. */
  method SetWord(x: Uint, word: uint32)
    requires x.pn.Length == 8
    modifies x.pn
    ensures x.Value() == word
  {
    x.SetZero();
    ghost var zero := x.pn[..];
    assert zero[0] == 0 by { LowLimb(zero); }
    x.pn[0] := word;
    assert x.pn[..] == zero[0 := word];
    ValUpdate(zero, 0, word);
    assert W(0) == 1;
  }

  /** The lowest limb is the value modulo 2^32. */
  lemma LowLimb(s: seq<uint32>)
    requires |s| > 0
    ensures s[0] == Val(s) % BASE && s[0] <= Val(s)
  {
    ValSplit(s, 1);
    ValPrefix(s, 0);
    assert W(0) == 1 && W(1) == BASE && s[..0] == [];
    DivUnique(Val(s[1..]), s[0], BASE, Val(s));
  }

  /** Lines 205-223. */
  method SetCompact(x: Uint, nCompact: uint32) returns (negative: bool, overflow: bool)
    requires x.pn.Length == 8
    modifies x.pn
    ensures x.Value() == Decoded(nCompact)
    ensures negative == Negative(nCompact) && overflow == Overflows(nCompact)
  {
    var size := nCompact / SIZE_UNIT;
    var word: uint32 := nCompact % SIGN;
    if size <= 3 {
      word := Shr(word, 8 * (3 - size));
      SetWord(x, word);
      SmallFits(word);
      Within(word, MODULUS);
    } else {
      SetWord(x, word);
      Modulus256(x);
      x.ShiftLeft(8 * (size - 3));
    }
    negative := word != 0 && (nCompact / SIGN) % 2 == 1;
    overflow := word != 0 && (size > 34 || (word > 0xff && size > 33) || (word > 0xffff && size > 32));
  }

  /** Lines 225-234. */
  method GetCompact(x: Uint, fNegative: bool) returns (nCompact: uint32)
    requires x.pn.Length == 8
    ensures nCompact == Encoded(x.Value(), fNegative)
  {
    ghost var v := x.Value();
    assert v < MODULUS by { ValBound(x.pn[..]); Modulus256(x); }
    var bits := x.Bits();
    assert bits == BitLength(v) by { if v > 0 { BitLengthUnique(v, bits); } }
    var size := (bits + 7) / 8;
    LeadingFits(v, size);
    nCompact := LeadingWord(x, size);
    nCompact := Pack(nCompact, size, fNegative);
  }

  method LeadingWord(x: Uint, size: nat) returns (word: uint32)
    requires x.pn.Length == 8 && Leading(x.Value(), size) < SIZE_UNIT
    ensures word == Leading(x.Value(), size)
  {
    hide Pow2;
    hide Val;
    ghost var v := x.Value();
    if size <= 3 {
      LowLimb(x.pn[..]);
      assert v < BASE by { MulMono(1, Pow2(8 * (3 - size)), v); }
      Within(v, BASE);
      word := Shl(x.pn[0], 8 * (3 - size));
    } else {
      var bn := new Uint.Copy(x);
      bn.ShiftRight(8 * (size - 3));
      ghost var w := Leading(v, size);
      LowLimb(bn.pn[..]);
      Within(w, BASE);
      word := bn.pn[0];
    }
  }

  /** Lines 235-245; the two assertions are the source's. */
  method Pack(mantissa: uint32, nSize: nat, fNegative: bool) returns (nCompact: uint32)
    requires mantissa < SIZE_UNIT && nSize <= 32
    ensures nCompact == Packed(mantissa, nSize, fNegative)
  {
    var size := nSize;
    nCompact := mantissa;
    if (nCompact / SIGN) % 2 == 1 {
      nCompact := nCompact / 256;
      size := size + 1;
    }
    assert nCompact < SIGN;
    assert size < 256;
    nCompact := nCompact + size * SIZE_UNIT;
    if fNegative && nCompact % SIGN != 0 {
      nCompact := nCompact + SIGN;
    }
  }

  lemma BitLengthZero(v: nat)
    ensures BitLength(v) == 0 <==> v == 0
  {
  }

  lemma LeadingFits(v: nat, size: nat)
    requires v < MODULUS && size == (BitLength(v) + 7) / 8
    ensures Leading(v, size) < SIZE_UNIT && size <= 32
  {
    hide Pow2;
    hide Leading;
    hide BitLength;
    BitLengthZero(v);
    PowersOf24();
    if v > 0 {
      BitLengthBounds(v);
      if BitLength(v) > 256 {
        Pow2Monotone(256, BitLength(v) - 1);
      }
      Pow2Monotone(BitLength(v), 8 * size);
      LeadingBelow(v, size, 24);
    } else {
      NothingShifted(v, size);
    }
  }
}
