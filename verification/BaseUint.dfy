/**
Fixed-width unsigned integers as arrays of 32-bit limbs (base_uint,
src/arith_uint256.h and src/arith_uint256.cpp), for every width.  Each operator works
in place, limb by limb, and is proved to compute modulo 2^(32*WIDTH).
*/
module BaseUint {
  import opened Arith

  const UINT64_MAX: int := 0xffff_ffff_ffff_ffff

  class Uint {
    /** The limbs, least significant first. */
    const pn: array<uint32>

    ghost function Value(): nat
      reads pn
    {
      Val(pn[..])
    }

    /** 2^(32*WIDTH) */
    ghost function Modulus(): nat {
      W(pn.Length)
    }

    constructor Zero(width: nat)
      ensures fresh(pn) && pn.Length == width && Value() == 0
    {
      pn := new uint32[width](i => 0);
      new;
      ValZero(pn[..]);
    }

    constructor Copy(b: Uint)
      ensures fresh(pn) && pn.Length == b.pn.Length && pn[..] == b.pn[..]
    {
      pn := new uint32[b.pn.Length];
      new;
      for i := 0 to pn.Length
        invariant forall j :: 0 <= j < i ==> pn[j] == b.pn[j]
      {
        pn[i] := b.pn[i];
      }
    }

    method Assign(b: Uint)
      requires b.pn.Length == pn.Length
      modifies pn
      ensures pn[..] == old(b.pn[..])
    {
      for i := 0 to pn.Length
        invariant forall j :: 0 <= j < i ==> pn[j] == old(b.pn[j])
        invariant forall j :: i <= j < pn.Length ==> pn[j] == old(pn[j])
      {
        pn[i] := b.pn[i];
      }
    }

    method SetZero()
      modifies pn
      ensures Value() == 0 && forall i :: 0 <= i < pn.Length ==> pn[i] == 0
    {
      for i := 0 to pn.Length
        invariant forall j :: 0 <= j < i ==> pn[j] == 0
      {
        pn[i] := 0;
      }
      ValZero(pn[..]);
    }

    /** operator+=; b may be this very number. */
    method Add(b: Uint)
      requires b.pn.Length == pn.Length
      modifies pn
      ensures Value() == (old(Value()) + old(b.Value())) % Modulus()
    {
      ghost var x, y := pn[..], b.pn[..];
      var carry := 0;
      var i := 0;
      while i < pn.Length
        invariant 0 <= i <= pn.Length && 0 <= carry <= 1
        invariant forall j :: i <= j < pn.Length ==> pn[j] == x[j]
        invariant Val(pn[..i]) + carry * W(i) == Val(x[..i]) + Val(y[..i])
      {
        assert pn[i] == x[i] && b.pn[i] == y[i];
        var n := carry + pn[i] + b.pn[i];
        assert n <= UINT64_MAX;
        ghost var before := pn[..];
        pn[i] := n % BASE;
        assert pn[..][..i] == before[..i];
        AddStep(pn[..], before, x, y, i, carry, n);
        carry := n / BASE;
        i := i + 1;
      }
      assert pn[..i] == pn[..] && x[..i] == x && y[..i] == y;
      ValBound(pn[..]);
      ModUnique(Value(), carry, W(i), Val(x) + Val(y));
    }

    /** operator~ */
    method Complement() returns (r: Uint)
      ensures fresh(r) && fresh(r.pn) && r.pn.Length == pn.Length
      ensures r.Value() == Modulus() - 1 - Value()
    {
      r := new Uint.Zero(pn.Length);
      for i := 0 to pn.Length
        invariant forall j :: 0 <= j < i ==> r.pn[j] == BASE - 1 - pn[j]
      {
        r.pn[i] := BASE - 1 - pn[i];
      }
      ComplementValue(pn[..], r.pn[..]);
    }

    /** operator-() */
    method Negate() returns (r: Uint)
      requires pn.Length >= 1
      ensures fresh(r) && fresh(r.pn) && r.pn.Length == pn.Length
      ensures r.Value() == (0 - Value()) % Modulus()
    {
      r := Complement();
      ghost var v := r.Value();
      r.Increment();
      NegateMod(Value(), v, W(pn.Length));
    }

    /** operator-= */
    method Subtract(b: Uint)
      requires b.pn.Length == pn.Length >= 1
      modifies pn
      ensures Value() == (old(Value()) - old(b.Value())) % Modulus()
    {
      var neg := b.Negate();
      ghost var x, y := Value(), b.Value();
      ValBound(pn[..]);
      ValBound(b.pn[..]);
      SubMod(x, y, neg.Value(), W(pn.Length));
      Add(neg);
    }

    /** operator++ */
    method Increment()
      requires pn.Length >= 1
      modifies pn
      ensures Value() == (old(Value()) + 1) % Modulus()
    {
      hide Val;
      hide W;
      ghost var x := pn[..];
      var i := 0;
      pn[0] := Succ32(pn[0]);
      FirstWeight();
      IncrementStep(x, pn[..], 0);
      while pn[i] == 0 && i < pn.Length - 1
        invariant 0 <= i < pn.Length
        invariant forall j :: i < j < pn.Length ==> pn[j] == x[j]
        invariant Val(pn[..]) == Val(x) + 1 - if pn[i] == 0 then W(i + 1) else 0
        decreases pn.Length - i
      {
        ghost var before := pn[..];
        i := i + 1;
        assert before[i] == x[i];
        pn[i] := Succ32(pn[i]);
        ghost var after := pn[..];
        assert Val(before) == Val(x) + 1 - W(i);
        IncrementStep(before, after, i);
        assert after[i] == pn[i];
      }
      ValBound(pn[..]);
      if pn[i] == 0 {
        ModUnique(Value(), 1, W(pn.Length), Val(x) + 1);
      } else {
        ModUnique(Value(), 0, W(pn.Length), Val(x) + 1);
      }
    }

    /** operator-- */
    method Decrement()
      requires pn.Length >= 1
      modifies pn
      ensures Value() == (old(Value()) - 1) % Modulus()
    {
      hide Val;
      hide W;
      ghost var x := pn[..];
      var i := 0;
      pn[0] := Pred32(pn[0]);
      FirstWeight();
      DecrementStep(x, pn[..], 0);
      while pn[i] == BASE - 1 && i < pn.Length - 1
        invariant 0 <= i < pn.Length
        invariant forall j :: i < j < pn.Length ==> pn[j] == x[j]
        invariant Val(pn[..]) == Val(x) - 1 + if pn[i] == BASE - 1 then W(i + 1) else 0
        decreases pn.Length - i
      {
        ghost var before := pn[..];
        i := i + 1;
        assert before[i] == x[i];
        pn[i] := Pred32(pn[i]);
        ghost var after := pn[..];
        assert Val(before) == Val(x) - 1 + W(i);
        DecrementStep(before, after, i);
        assert after[i] == pn[i];
      }
      ValBound(pn[..]);
      if pn[i] == BASE - 1 {
        ModUnique(Value(), -1, W(pn.Length), Val(x) - 1);
      } else {
        ModUnique(Value(), 0, W(pn.Length), Val(x) - 1);
      }
    }

    /** operator*= with a 32-bit factor */
    method MultiplySmall(b32: uint32)
      modifies pn
      ensures Value() == (b32 * old(Value())) % Modulus()
    {
      ghost var x := pn[..];
      var carry := 0;
      var i := 0;
      while i < pn.Length
        invariant 0 <= i <= pn.Length && 0 <= carry < BASE
        invariant pn[i..] == x[i..]
        invariant Val(pn[..i]) + carry * W(i) == b32 * Val(x[..i])
      {
        assert pn[i] == x[i];
        ProductFits(b32, pn[i], carry);
        var n := carry + b32 * pn[i];
        assert n <= UINT64_MAX;
        ghost var before := pn[..];
        pn[i] := n % BASE;
        assert pn[..][..i] == before[..i];
        MulStep(pn[..], before, x, i, b32, carry, n);
        carry := n / BASE;
        i := i + 1;
      }
      assert pn[..i] == pn[..] && x[..i] == x;
      ValBound(pn[..]);
      ModUnique(Value(), carry, W(i), b32 * Val(x));
    }

    /** One pass of the outer loop of operator*=: add aj * b, shifted by j limbs. */
    method MultiplyRow(aj: uint32, b: Uint, j: nat) returns (ghost k: nat)
      requires b.pn.Length == pn.Length && b.pn != pn && j < pn.Length
      modifies pn
      ensures Value() + k * Modulus() == old(Value()) + aj * (b.Value() * W(j))
    {
      hide RowInv;
      ghost var p, y := pn[..], b.pn[..];
      var carry := 0;
      var i := 0;
      RowInit(p, y, j, aj);
      while i + j < pn.Length
        invariant 0 <= i <= pn.Length - j && 0 <= carry < BASE
        invariant pn[i + j..] == p[i + j..]
        invariant RowInv(pn[..], p, y, i, j, aj, carry)
      {
        assert pn[i + j] == p[i + j] && b.pn[i] == y[i];
        ProductFits(aj, b.pn[i], carry);
        var n := carry + pn[i + j] + aj * b.pn[i];
        assert n <= UINT64_MAX;
        ghost var before := pn[..];
        var limb: uint32 := n % BASE;
        pn[i + j] := limb;
        assert pn[..] == before[i + j := limb];
        RowStep(pn[..], before, p, y, i, j, aj, carry, n);
        carry := n / BASE;
        i := i + 1;
      }
      k := RowEnd(pn[..], p, y, j, aj, carry);
    }

    /**
    operator*=.  The source clears its own limbs before it reads the factor's, so a number
    multiplied by itself in place becomes zero.
    */
    method Multiply(b: Uint)
      requires b.pn.Length == pn.Length
      modifies pn
      ensures Value() == if b.pn == pn then 0 else (old(Value()) * old(b.Value())) % Modulus()
    {
      var a := pn[..];
      ghost var v := b.Value();
      SetZero();
      ghost var k := 0;
      var j := 0;
      assert a[..0] == [];
      while j < pn.Length
        invariant 0 <= j <= pn.Length && k >= 0
        invariant b.pn != pn ==> b.Value() == v
        invariant b.pn != pn ==> Value() + k * W(pn.Length) == Val(a[..j]) * v
        invariant b.pn == pn ==> forall i :: 0 <= i < pn.Length ==> pn[i] == 0
      {
        if b.pn == pn {
          MultiplyRowByZero(a[j], j);
        } else {
          ghost var before := Value();
          ghost var more := MultiplyRow(a[j], b, j);
          OuterStep(a, j, v, before, Value(), k, more, W(pn.Length));
          k := k + more;
        }
        j := j + 1;
      }
      if b.pn == pn {
        ValZero(pn[..]);
      } else {
        assert a[..j] == a;
        ValBound(pn[..]);
        ModUnique(Value(), k, W(pn.Length), Val(a) * v);
      }
    }

    /** The row of a factor that has been cleared. */
    method MultiplyRowByZero(aj: uint32, j: nat)
      requires j < pn.Length && forall i :: 0 <= i < pn.Length ==> pn[i] == 0
      modifies pn
      ensures forall i :: 0 <= i < pn.Length ==> pn[i] == 0
    {
      var carry := 0;
      var i := 0;
      while i + j < pn.Length
        invariant 0 <= i && carry == 0 && forall m :: 0 <= m < pn.Length ==> pn[m] == 0
      {
        var n := carry + pn[i + j] + aj * pn[i];
        pn[i + j] := n % BASE;
        carry := n / BASE;
        i := i + 1;
      }
    }

    /** One pass of the loop of <<= (lines 30-33), for limb i of the original number. */
    method LeftLimb(x: uint32, i: nat, k: nat, s: nat)
      requires i < pn.Length && s < 32
      requires i + k + 1 < pn.Length ==> pn[i + k + 1] == 0
      requires i + k < pn.Length ==> pn[i + k] < Pow2(s)
      modifies pn
      ensures 0 <= x / Pow2(32 - s) < Pow2(s) <= BASE && 0 <= (x * Pow2(s)) % BASE
      ensures i + k < pn.Length ==> old(pn[i + k]) + (x * Pow2(s)) % BASE < BASE
      ensures pn[..] == PlaceLeft(old(pn[..]), i + k, x / Pow2(32 - s), (x * Pow2(s)) % BASE)
    {
      var hi, lo := x / Pow2(32 - s), (x * Pow2(s)) % BASE;
      ghost var xl := SplitLimb(x, s);
      if i + k + 1 < pn.Length && s != 0 {
        OrZero(hi);
        pn[i + k + 1] := Or(pn[i + k + 1], hi);
      }
      if i + k < pn.Length {
        OrDisjoint(xl, pn[i + k], s);
        OrFits(xl, pn[i + k], s);
        pn[i + k] := Or(pn[i + k], lo);
      }
    }

    /** operator<<= */
    method ShiftLeft(shift: nat)
      modifies pn
      ensures Value() == (old(Value()) * Pow2(shift)) % Modulus()
    {
      hide Val;
      hide W;
      hide Pow2;
      var a := pn[..];
      SetZero();
      var k, s := shift / 32, shift % 32;
      ghost var n := pn.Length;
      ghost var over := 0;
      var i := 0;
      NothingShifted(a, Pow2(s) * W(k));
      while i < pn.Length
        invariant 0 <= i <= n && over >= 0
        invariant forall m :: i + k < m < n ==> pn[m] == 0
        invariant i + k < n ==> pn[i + k] < Pow2(s)
        invariant Value() + over * W(n) == Val(a[..i]) * (Pow2(s) * W(k))
      {
        ghost var before := pn[..];
        LeftLimb(a[i], i, k, s);
        over := LeftStep(before, pn[..], a, i, k, s, over);
        i := i + 1;
      }
      assert a[..i] == a;
      ValBound(pn[..]);
      ModUnique(Value(), over, W(n), Val(a) * (Pow2(s) * W(k)));
      ShiftFactor(shift);
    }

    /** One pass of the loop of >>= (lines 47-50), for limb i of the original number. */
    method RightLimb(x: uint32, i: nat, k: nat, s: nat)
      requires k <= i < pn.Length && s < 32
      requires pn[i - k] == 0 && (i > k ==> pn[i - k - 1] < Pow2(32 - s))
      modifies pn
      ensures 0 <= x / Pow2(s) < Pow2(32 - s) <= BASE && 0 <= (x * Pow2(32 - s)) % BASE
      ensures i > k ==> old(pn[i - k - 1]) + (x * Pow2(32 - s)) % BASE < BASE
      ensures pn[..] == PlaceRight(old(pn[..]), i - k, x / Pow2(s), (x * Pow2(32 - s)) % BASE)
    {
      var hi, lo := x / Pow2(s), (x * Pow2(32 - s)) % BASE;
      ghost var xl := SplitRight(x, s);
      if i > k && s != 0 {
        OrDisjoint(xl, pn[i - k - 1], 32 - s);
        OrFits(xl, pn[i - k - 1], 32 - s);
        pn[i - k - 1] := Or(pn[i - k - 1], lo);
      }
      OrZero(hi);
      pn[i - k] := Or(pn[i - k], hi);
    }

    /** operator>>= */
    method ShiftRight(shift: nat)
      modifies pn
      ensures Value() == old(Value()) / Pow2(shift)
    {
      hide RightInv;
      var a := pn[..];
      SetZero();
      var k, s := shift / 32, shift % 32;
      ghost var rem := 0;
      var i := 0;
      RightInit(pn[..], a, k, s);
      while i < pn.Length
        invariant 0 <= i <= pn.Length && rem >= 0
        invariant RightInv(pn[..], a, i, k, s, rem)
      {
        ghost var before := pn[..];
        RightReady(before, a, i, k, s, rem);
        if i >= k {
          RightLimb(a[i], i, k, s);
        }
        rem := RightStep(before, pn[..], a, i, k, s, rem);
        i := i + 1;
      }
      RightEnd(pn[..], a, shift, rem);
    }

    /** operator/=; a zero divisor is an error. */
    method Divide(b: Uint) returns (ok: bool)
      requires b.pn.Length == pn.Length >= 1
      modifies pn
      ensures ok == (old(b.Value()) != 0)
      ensures ok ==> Value() == old(Value()) / old(b.Value())
    {
      var div := new Uint.Copy(b);
      var num := new Uint.Copy(this);
      ghost var x, d := Value(), b.Value();
      SetZero();
      var num_bits := num.Bits();
      var div_bits := div.Bits();
      if div_bits == 0 {
        return false;
      }
      if div_bits > num_bits {
        SmallerBits(x, num_bits, d, div_bits);
        DivUnique(0, x, d, x);
        return true;
      }
      DivideAligned(div, num, num_bits - div_bits, num_bits, div_bits);
      return true;
    }

    /** The shift-and-subtract loop, on an aligned divisor (lines 96-104). */
    method DivideAligned(div: Uint, num: Uint, align: nat, ghost xb: nat, ghost db: nat)
      requires div.pn.Length == num.pn.Length == pn.Length >= 1
      requires div.pn != num.pn && div.pn != pn && num.pn != pn
      requires 1 <= db <= xb <= 32 * pn.Length && align == xb - db
      requires num.Value() < Pow2(xb) && Pow2(db - 1) <= div.Value() < Pow2(db)
      requires forall i :: 0 <= i < pn.Length ==> pn[i] == 0
      modifies pn, div.pn, num.pn
      ensures Value() == old(num.Value()) / old(div.Value())
    {
      hide DivInv;
      ghost var x, d := num.Value(), div.Value();
      AlignDivisor(x, xb, d, db, pn.Length);
      DivInit(pn[..], x, d, align);
      div.ShiftLeft(align);
      var shift: int := align;
      while shift >= 0
        invariant -1 <= shift < 32 * pn.Length
        invariant shift >= 0 ==> div.Value() == d * Pow2(shift)
        invariant DivInv(pn[..], num.Value(), x, d, shift + 1)
      {
        DivideStep(div, num, shift, x, d);
        HalveDivisor(d, shift);
        div.ShiftRight(1);
        shift := shift - 1;
      }
      DivEnd(pn[..], num.Value(), x, d);
    }

    /** Subtract the divisor if it still goes in, and note it in the quotient (lines 98-101). */
    method DivideStep(div: Uint, num: Uint, shift: nat, ghost x: nat, ghost d: nat)
      requires div.pn.Length == num.pn.Length == pn.Length >= 1 && shift < 32 * pn.Length
      requires div.pn != num.pn && div.pn != pn && num.pn != pn
      requires div.Value() == d * Pow2(shift) && DivInv(pn[..], num.Value(), x, d, shift + 1)
      modifies pn, num.pn
      ensures DivInv(pn[..], num.Value(), x, d, shift)
    {
      hide DivInv;
      var c := num.CompareTo(div);
      ghost var r, p, v := num.Value(), pn[..], div.Value();
      if c >= 0 {
        ValBound(num.pn[..]);
        num.Subtract(div);
        ModUnique(r - v, 0, W(pn.Length), r - v);
        DivClear(p, r, x, d, shift);
        SetBit(shift);
        DivTake(p, pn[..], r, x, d, shift);
      } else {
        DivSkip(p, r, x, d, shift);
      }
    }

    /** pn[shift / 32] |= 1 << (shift & 31), for a bit that is still clear */
    method SetBit(shift: nat)
      requires shift < 32 * pn.Length && BitsClear(pn[..], shift + 1)
      modifies pn
      ensures Value() == old(Value()) + Pow2(shift)
      ensures BitsClear(pn[..], shift)
    {
      var m, t := shift / 32, shift % 32;
      ghost var before := pn[..];
      ghost var c := ClearLimb(before, shift);
      OrDisjoint(c, Pow2(t), t + 1);
      BitFits(c, t, before[m]);
      pn[m] := Or(pn[m], Pow2(t));
      ValUpdate(before, m, before[m] + Pow2(t));
      assert pn[..] == before[m := before[m] + Pow2(t)];
      ShiftFactor(shift);
      StillClear(before, pn[..], shift, c);
    }

    /** CompareTo: the sign of the difference. */
    method CompareTo(b: Uint) returns (r: int)
      requires b.pn.Length == pn.Length
      ensures r == if Value() < b.Value() then -1 else if Value() > b.Value() then 1 else 0
    {
      var i := pn.Length - 1;
      while i >= 0
        invariant -1 <= i < pn.Length
        invariant forall j :: i < j < pn.Length ==> pn[j] == b.pn[j]
      {
        if pn[i] < b.pn[i] {
          FirstDifference(pn[..], b.pn[..], i);
          return -1;
        }
        if pn[i] > b.pn[i] {
          FirstDifference(b.pn[..], pn[..], i);
          return 1;
        }
        i := i - 1;
      }
      assert pn[..] == b.pn[..];
      return 0;
    }

    /** The position of the highest bit set plus one, or zero. */
    method Bits() returns (r: nat)
      ensures if Value() == 0 then r == 0 else r >= 1 && Pow2(r - 1) <= Value() < Pow2(r)
      ensures r <= 32 * pn.Length
    {
      ghost var x := pn[..];
      var pos := pn.Length - 1;
      while pos >= 0
        invariant -1 <= pos < pn.Length
        invariant forall j :: pos < j < pn.Length ==> x[j] == 0
      {
        if pn[pos] != 0 {
          var bits := LimbBits(pn[pos]);
          TopLimb(x, pos, bits);
          return 32 * pos + bits;
        }
        pos := pos - 1;
      }
      ValZero(x);
      return 0;
    }
  }

  /** The bit length of a nonzero limb (lines 176-181). */
  method LimbBits(x: uint32) returns (r: nat)
    requires x != 0
    ensures 1 <= r <= 32 && Pow2(r - 1) <= x < Pow2(r)
  {
    Pow2Is32();
    var bits := 31;
    while bits > 0
      invariant 0 <= bits <= 31 && x < Pow2(bits + 1)
    {
      if TestBit(x, bits) {
        HighBit(x, bits);
        return bits + 1;
      }
      HighBit(x, bits);
      bits := bits - 1;
    }
    return 1;
  }

  /** x & (1 << k) */
  predicate TestBit(x: nat, k: nat) {
    (x / Pow2(k)) % 2 == 1
  }

  lemma HighBit(x: nat, k: nat)
    requires x < Pow2(k + 1)
    ensures TestBit(x, k) <==> x >= Pow2(k)
  {
    HighCore(x, Pow2(k));
  }

  lemma HighCore(x: nat, p: nat)
    requires x < 2 * p
    ensures x / p == if x >= p then 1 else 0
  {
    if x >= p {
      DivUnique(1, x - p, p, x);
    } else {
      DivUnique(0, x, p, x);
    }
  }

  //
  // Why the steps of the loops are right.
  //

  lemma AddStep(after: seq<uint32>, before: seq<uint32>, x: seq<uint32>, y: seq<uint32>, i: nat, carry: nat, n: nat)
    requires i < |after| == |before| == |x| == |y| && after[..i] == before[..i]
    requires n == carry + x[i] + y[i] && after[i] == n % BASE
    requires Val(before[..i]) + carry * W(i) == Val(x[..i]) + Val(y[..i])
    ensures Val(after[..i + 1]) + (n / BASE) * W(i + 1) == Val(x[..i + 1]) + Val(y[..i + 1])
  {
    ValPrefix(after, i);
    ValPrefix(x, i);
    ValPrefix(y, i);
    Carry(n, W(i));
    Distribute3(carry, x[i], y[i], W(i));
  }

  lemma Distribute3(a: int, b: int, c: int, w: int)
    ensures (a + b + c) * w == a * w + b * w + c * w
  {
  }

  lemma {:induction false} ComplementValue(x: seq<uint32>, y: seq<uint32>)
    requires |x| == |y| && forall i :: 0 <= i < |x| ==> y[i] == BASE - 1 - x[i]
    ensures Val(x) + Val(y) == W(|x|) - 1
  {
    if x != [] {
      var n := |x| - 1;
      ComplementValue(x[..n], y[..n]);
      assert x[n] * W(n) + y[n] * W(n) == (BASE - 1) * W(n);
      assert (BASE - 1) * W(n) == BASE * W(n) - W(n);
    }
  }

  lemma NegateMod(x: nat, y: nat, m: nat)
    requires m >= 1 && x < m && x + y == m - 1
    ensures (y + 1) % m == (0 - x) % m
  {
    if x == 0 {
      ModUnique(0, 1, m, y + 1);
      ModUnique(0, 0, m, 0 - x);
    } else {
      ModUnique(y + 1, -1, m, 0 - x);
      ModUnique(y + 1, 0, m, y + 1);
    }
  }

  lemma SubMod(x: nat, y: nat, z: nat, m: nat)
    requires m >= 1 && x < m && y < m && z == (0 - y) % m
    ensures (x + z) % m == (x - y) % m
  {
    var q := (0 - y) / m;
    var r, p := (x + z) % m, (x + z) / m;
    Regroup(p, q, m);
    ModUnique(r, p + q, m, x - y);
  }

  lemma Regroup(p: int, q: int, m: int)
    ensures (p + q) * m == p * m + q * m
  {
  }

  /** 32-bit increment and decrement wrap around. */
  function Succ32(x: uint32): uint32 {
    if x == BASE - 1 then 0 else x + 1
  }

  function Pred32(x: uint32): uint32 {
    if x == 0 then BASE - 1 else x - 1
  }

  lemma FirstWeight()
    ensures W(0) == 1
  {
  }

  lemma StepTerms(w: int)
    ensures 1 * w == w && (-1) * w == 0 - w
    ensures (BASE - 1) * w == BASE * w - w && (0 - (BASE - 1)) * w == w - BASE * w
  {
  }

  lemma IncrementStep(before: seq<uint32>, after: seq<uint32>, i: nat)
    requires i < |before| && after == before[i := Succ32(before[i])]
    ensures Val(after) == Val(before) + W(i) - if after[i] == 0 then W(i + 1) else 0
  {
    StepTerms(W(i));
    if before[i] == BASE - 1 {
      ValUpdate(before, i, 0);
    } else {
      ValUpdate(before, i, before[i] + 1);
    }
  }

  lemma DecrementStep(before: seq<uint32>, after: seq<uint32>, i: nat)
    requires i < |before| && after == before[i := Pred32(before[i])]
    ensures Val(after) == Val(before) - W(i) + if after[i] == BASE - 1 then W(i + 1) else 0
  {
    StepTerms(W(i));
    if before[i] == 0 {
      ValUpdate(before, i, BASE - 1);
    } else {
      ValUpdate(before, i, before[i] - 1);
    }
  }

  /** The highest limb in which two numbers differ decides. */
  lemma FirstDifference(x: seq<uint32>, y: seq<uint32>, i: nat)
    requires i < |x| == |y| && x[i] < y[i] && forall j :: i < j < |x| ==> x[j] == y[j]
    ensures Val(x) < Val(y)
  {
    assert x[i + 1..] == y[i + 1..];
    ValSplit(x, i + 1);
    ValSplit(y, i + 1);
    ValPrefix(x, i);
    ValPrefix(y, i);
    ValBound(x[..i]);
    MulStrict(x[i], y[i], W(i));
  }

  /** All limbs above pos are zero, and limb pos has the given bit length. */
  lemma TopLimb(x: seq<uint32>, pos: nat, bits: nat)
    requires pos < |x| && forall j :: pos < j < |x| ==> x[j] == 0
    requires bits >= 1 && Pow2(bits - 1) <= x[pos] < Pow2(bits)
    ensures Pow2(32 * pos + bits - 1) <= Val(x) < Pow2(32 * pos + bits)
  {
    ValSplit(x, pos + 1);
    ValZero(x[pos + 1..]);
    ValPrefix(x, pos);
    ValBound(x[..pos]);
    WIsPow2(pos);
    Pow2Add(32 * pos, bits - 1);
    Pow2Add(32 * pos, bits);
    var w := W(pos);
    assert 0 * W(pos + 1) == 0;
    MulMono(Pow2(bits - 1), x[pos], w);
    MulStrict(x[pos], Pow2(bits), w);
    assert Pow2(bits - 1) * w == w * Pow2(bits - 1) && Pow2(bits) * w == w * Pow2(bits);
  }

  //
  // Multiplication.
  //

  lemma ProductFits(a: uint32, b: uint32, carry: int)
    requires 0 <= carry < BASE
    ensures 0 <= a * b && carry + (BASE - 1) + a * b <= UINT64_MAX
    ensures (carry + (BASE - 1) + a * b) / BASE < BASE
  {
    MulMono(a, BASE - 1, b);
    MulMono(b, BASE - 1, BASE - 1);
    assert b * (BASE - 1) == (BASE - 1) * b;
  }

  lemma MulStep(after: seq<uint32>, before: seq<uint32>, x: seq<uint32>, i: nat, b: nat, carry: nat, n: nat)
    requires i < |after| == |before| == |x| && after[..i] == before[..i]
    requires n == carry + b * x[i] && after[i] == n % BASE
    requires Val(before[..i]) + carry * W(i) == b * Val(x[..i])
    ensures Val(after[..i + 1]) + (n / BASE) * W(i + 1) == b * Val(x[..i + 1])
  {
    ValPrefix(after, i);
    ValPrefix(x, i);
    Carry(n, W(i));
    Regroup(carry, b * x[i], W(i));
    Assoc(b, x[i], W(i));
    assert b * (Val(x[..i]) + x[i] * W(i)) == b * Val(x[..i]) + b * (x[i] * W(i));
  }

  /** The state of the inner loop of *= before limb i of the factor. */
  ghost predicate RowInv(q: seq<uint32>, p: seq<uint32>, y: seq<uint32>, i: nat, j: nat, aj: nat, carry: nat) {
    && i + j <= |q| == |p| == |y|
    && Val(q[..i + j]) + carry * W(i + j) == Val(p[..i + j]) + aj * (Val(y[..i]) * W(j))
  }

  lemma RowInit(p: seq<uint32>, y: seq<uint32>, j: nat, aj: nat)
    requires j < |p| == |y|
    ensures RowInv(p, p, y, 0, j, aj, 0)
  {
    assert y[..0] == [];
  }

  lemma RowStep(after: seq<uint32>, before: seq<uint32>, p: seq<uint32>, y: seq<uint32>, i: nat, j: nat, aj: nat, carry: nat, n: nat)
    requires RowInv(before, p, y, i, j, aj, carry) && i + j < |p|
    requires n == carry + p[i + j] + aj * y[i] && |after| == |before| && after[i + j] == n % BASE
    requires after[..i + j] == before[..i + j]
    ensures RowInv(after, p, y, i + 1, j, aj, n / BASE)
  {
    ValPrefix(after, i + j);
    ValPrefix(p, i + j);
    ValPrefix(y, i);
    Carry(n, W(i + j));
    Distribute3(carry, p[i + j], aj * y[i], W(i + j));
    WAdd(i, j);
    RowTerm(aj, y[i], W(i), W(j), Val(y[..i]));
  }

  lemma RowTerm(a: int, y: int, wi: int, wj: int, v: int)
    ensures a * ((v + y * wi) * wj) == a * (v * wj) + (a * y) * (wi * wj)
  {
    assert (v + y * wi) * wj == v * wj + (y * wi) * wj;
    assert (y * wi) * wj == y * (wi * wj);
    assert a * (v * wj + y * (wi * wj)) == a * (v * wj) + a * (y * (wi * wj));
    Assoc(a, y, wi * wj);
  }

  /** What the row leaves out lies above the top limb. */
  lemma RowEnd(q: seq<uint32>, p: seq<uint32>, y: seq<uint32>, j: nat, aj: nat, carry: nat) returns (k: nat)
    requires j < |y| && RowInv(q, p, y, |y| - j, j, aj, carry)
    ensures Val(q) + k * W(|y|) == Val(p) + aj * (Val(y) * W(j))
  {
    var i := |y| - j;
    assert q[..i + j] == q && p[..i + j] == p;
    var hi := Val(y[i..]);
    ValSplit(y, i);
    WAdd(i, j);
    RowTerm(aj, hi, W(i), W(j), Val(y[..i]));
    NonNegative(aj, hi);
    k := carry + aj * hi;
    Regroup(carry, aj * hi, W(|y|));
  }

  lemma OuterStep(a: seq<uint32>, j: nat, v: nat, before: nat, after: nat, k: nat, more: nat, m: nat)
    requires j < |a| && before + k * m == Val(a[..j]) * v
    requires after + more * m == before + a[j] * (v * W(j))
    ensures after + (k + more) * m == Val(a[..j + 1]) * v
  {
    ValPrefix(a, j);
    Regroup(k, more, m);
    Regroup(Val(a[..j]), a[j] * W(j), v);
    assert a[j] * (v * W(j)) == (a[j] * W(j)) * v;
  }

  //
  // Shifts.
  //

  lemma NothingShifted(a: seq<uint32>, f: nat)
    ensures Val(a[..0]) * f == 0
  {
  }

  lemma ShiftFactor(shift: nat)
    ensures Pow2(shift) == Pow2(shift % 32) * W(shift / 32)
  {
    WIsPow2(shift / 32);
    Pow2Add(shift % 32, 32 * (shift / 32));
  }

  /** A limb shifted left by s < 32: what is pushed out, and what stays. */
  lemma SplitLimb(x: uint32, s: nat) returns (xl: nat)
    requires s < 32
    ensures xl < Pow2(32 - s) && xl * Pow2(s) == (x * Pow2(s)) % BASE
    ensures 0 <= x / Pow2(32 - s) < Pow2(s) <= BASE
    ensures x * Pow2(s) == (x / Pow2(32 - s)) * BASE + (x * Pow2(s)) % BASE
  {
    Pow2Is32();
    Pow2Add(32 - s, s);
    Pow2Monotone(s, 32);
    SplitCore(x, Pow2(32 - s), Pow2(s));
    xl := x % Pow2(32 - s);
  }

  lemma SplitCore(x: nat, d: nat, p: nat)
    requires d >= 1 && p >= 1 && d * p == BASE && x < BASE
    ensures (x % d) * p == (x * p) % BASE && x / d == (x * p) / BASE && 0 <= x / d < p
    ensures x * p == (x / d) * BASE + (x * p) % BASE
    ensures x == (x / d) * d + x % d
  {
    var xh, xl := x / d, x % d;
    SplitProduct(xh, d, xl, p);
    MulStrict(xl, d, p);
    NonNegative(xl, p);
    DivUnique(xh, xl * p, BASE, x * p);
    if xh >= p {
      MulMono(p, xh, d);
    }
  }

  lemma SplitProduct(xh: int, d: int, xl: int, p: int)
    ensures (xh * d + xl) * p == xh * (d * p) + xl * p
  {
    assert (xh * d + xl) * p == (xh * d) * p + xl * p;
    assert (xh * d) * p == xh * (d * p);
  }

  lemma OrFits(xl: nat, y: nat, s: nat)
    requires s < 32 && xl < Pow2(32 - s) && y < Pow2(s)
    ensures xl * Pow2(s) + y < BASE
  {
    Pow2Is32();
    Pow2Add(32 - s, s);
    MulStrict(xl, Pow2(32 - s), Pow2(s));
  }

  /** The limbs after hi and lo have been put at positions m + 1 and m, as far as these exist. */
  function PlaceLeft(p: seq<uint32>, m: nat, hi: uint32, lo: uint32): (r: seq<uint32>)
    requires m < |p| ==> p[m] + lo < BASE
    ensures |r| == |p|
  {
    var p1 := if m + 1 < |p| && hi != 0 then p[m + 1 := hi] else p;
    if m < |p| then p1[m := p[m] + lo] else p1
  }

  lemma PlaceLeftValue(p: seq<uint32>, m: nat, hi: uint32, lo: uint32)
    requires (m < |p| ==> p[m] + lo < BASE) && (m + 1 < |p| ==> p[m + 1] == 0)
    ensures Val(PlaceLeft(p, m, hi, lo)) ==
            Val(p) + (if m < |p| then lo * W(m) else 0) + (if m + 1 < |p| then hi * W(m + 1) else 0)
  {
    var p1 := if m + 1 < |p| && hi != 0 then p[m + 1 := hi] else p;
    if m + 1 < |p| && hi != 0 {
      ValUpdate(p, m + 1, hi);
    }
    if m < |p| {
      ValUpdate(p1, m, p[m] + lo);
    }
  }

  /** One pass of the loop of <<=; `over` counts what has left the number at the top. */
  lemma LeftStep(p: seq<uint32>, p': seq<uint32>, a: seq<uint32>, i: nat, k: nat, s: nat, over: nat)
    returns (over': nat)
    requires i < |a| == |p| && s < 32
    requires i + k + 1 < |a| ==> p[i + k + 1] == 0
    requires var hi, lo := a[i] / Pow2(32 - s), (a[i] * Pow2(s)) % BASE;
             && 0 <= hi < BASE && 0 <= lo
             && (i + k < |a| ==> p[i + k] + lo < BASE)
             && p' == PlaceLeft(p, i + k, hi, lo)
    requires Val(p) + over * W(|a|) == Val(a[..i]) * (Pow2(s) * W(k))
    ensures Val(p') + over' * W(|a|) == Val(a[..i + 1]) * (Pow2(s) * W(k))
  {
    var hi, lo := LeftTerm(a[i], i, k, s);
    over' := LeftStepWith(p, a, i, k, Pow2(s) * W(k), hi, lo, over);
  }

  lemma LeftStepWith(p: seq<uint32>, a: seq<uint32>, i: nat, k: nat, f: nat, hi: uint32, lo: uint32, over: nat)
    returns (over': nat)
    requires i < |a| == |p|
    requires (i + k + 1 < |a| ==> p[i + k + 1] == 0) && (i + k < |a| ==> p[i + k] + lo < BASE)
    requires (a[i] * W(i)) * f == (hi * BASE + lo) * W(i + k)
    requires Val(p) + over * W(|a|) == Val(a[..i]) * f
    ensures Val(PlaceLeft(p, i + k, hi, lo)) + over' * W(|a|) == Val(a[..i + 1]) * f
  {
    PlaceLeftValue(p, i + k, hi, lo);
    ValPrefix(a, i);
    Regroup(Val(a[..i]), a[i] * W(i), f);
    over' := Overflow(hi, lo, i + k, |a|, Val(p), Val(PlaceLeft(p, i + k, hi, lo)), over, Val(a[..i]) * f);
  }

  lemma LeftTerm(x: uint32, i: nat, k: nat, s: nat) returns (hi: nat, lo: nat)
    requires s < 32
    ensures hi == x / Pow2(32 - s) && lo == (x * Pow2(s)) % BASE
    ensures (x * W(i)) * (Pow2(s) * W(k)) == (hi * BASE + lo) * W(i + k)
  {
    var xl := SplitLimb(x, s);
    hi, lo := x / Pow2(32 - s), (x * Pow2(s)) % BASE;
    WAdd(i, k);
    LimbTerm(x, W(i), Pow2(s), W(k));
  }

  /** Whatever part of hi and lo does not fit is a multiple of the modulus. */
  lemma Overflow(hi: nat, lo: nat, m: nat, n: nat, v: nat, v': nat, over: nat, total: nat) returns (over': nat)
    requires v + over * W(n) == total
    requires v' == v + (if m < n then lo * W(m) else 0) + (if m + 1 < n then hi * W(m + 1) else 0)
    ensures v' + over' * W(n) == total + (hi * BASE + lo) * W(m)
  {
    SplitProduct(hi, BASE, lo, W(m));
    if m + 1 < n {
      over' := over;
    } else if m < n {
      over' := over + hi;
      Regroup(over, hi, W(n));
    } else {
      WAdd(m - n, n);
      var x := (hi * BASE + lo) * W(m - n);
      NonNegative(hi * BASE + lo, W(m - n));
      over' := over + x;
      Regroup(over, x, W(n));
      Assoc(hi * BASE + lo, W(m - n), W(n));
    }
  }

  lemma LimbTerm(x: int, wi: int, p: int, wk: int)
    ensures (x * wi) * (p * wk) == (x * p) * (wi * wk)
  {
    assert (x * wi) * (p * wk) == x * (wi * (p * wk));
    assert wi * (p * wk) == p * (wi * wk);
    Assoc(x, p, wi * wk);
  }

  /** A limb shifted right by s < 32, with the bits that fall into the limb below. */
  lemma SplitRight(x: uint32, s: nat) returns (xl: nat)
    requires s < 32
    ensures xl < Pow2(s) && xl * Pow2(32 - s) == (x * Pow2(32 - s)) % BASE
    ensures 0 <= x / Pow2(s) < Pow2(32 - s) <= BASE
    ensures x == (x / Pow2(s)) * Pow2(s) + xl
  {
    Pow2Is32();
    Pow2Add(s, 32 - s);
    Pow2Monotone(32 - s, 32);
    SplitCore(x, Pow2(s), Pow2(32 - s));
    xl := x % Pow2(s);
  }

  /** The limbs after hi and lo have been put at positions m and m - 1. */
  function PlaceRight(p: seq<uint32>, m: nat, hi: uint32, lo: uint32): (r: seq<uint32>)
    requires m < |p| && (m > 0 ==> p[m - 1] + lo < BASE)
    ensures |r| == |p|
  {
    var p1 := if m > 0 then p[m - 1 := p[m - 1] + lo] else p;
    p1[m := hi]
  }

  lemma PlaceRightValue(p: seq<uint32>, m: nat, hi: uint32, lo: uint32)
    requires m < |p| && p[m] == 0 && (m > 0 ==> p[m - 1] + lo < BASE)
    ensures Val(PlaceRight(p, m, hi, lo)) == Val(p) + hi * W(m) + if m > 0 then lo * W(m - 1) else 0
  {
    if m > 0 {
      var p1 := p[m - 1 := p[m - 1] + lo];
      ValUpdate(p, m - 1, p[m - 1] + lo);
      ValUpdate(p1, m, hi);
      assert p1[m] == 0;
    } else {
      ValUpdate(p, m, hi);
    }
  }

  /** The state of the loop of >>= before limb i; `rem` is what has fallen off the bottom. */
  ghost predicate RightInv(p: seq<uint32>, a: seq<uint32>, i: nat, k: nat, s: nat, rem: nat) {
    && i <= |a| == |p| && s < 32
    && (forall m :: 0 <= m < |p| && m >= i - k ==> p[m] == 0)
    && (i > k ==> p[i - k - 1] < Pow2(32 - s))
    && Val(p) * (Pow2(s) * W(k)) + rem == Val(a[..i])
    && (if i <= k then rem < W(i) else rem < Pow2(s) * W(k))
  }

  lemma RightInit(p: seq<uint32>, a: seq<uint32>, k: nat, s: nat)
    requires |p| == |a| && s < 32 && forall m :: 0 <= m < |p| ==> p[m] == 0
    ensures RightInv(p, a, 0, k, s, 0)
  {
    ValZero(p);
    assert a[..0] == [];
  }

  lemma RightReady(p: seq<uint32>, a: seq<uint32>, i: nat, k: nat, s: nat, rem: nat)
    requires RightInv(p, a, i, k, s, rem) && i < |a|
    ensures i < |p| && s < 32 && (i < k ==> Val(p) == 0)
    ensures i >= k ==> p[i - k] == 0 && (i > k ==> p[i - k - 1] < Pow2(32 - s))
  {
    if i < k {
      ValZero(p);
    }
  }

  lemma RightEnd(p: seq<uint32>, a: seq<uint32>, shift: nat, rem: nat)
    requires RightInv(p, a, |a|, shift / 32, shift % 32, rem)
    ensures Val(p) == Val(a) / Pow2(shift)
  {
    var k, s := shift / 32, shift % 32;
    assert a[..|a|] == a;
    RemainderFits(|a|, k, s, rem);
    DivUnique(Val(p), rem, Pow2(s) * W(k), Val(a));
    ShiftFactor(shift);
  }

  lemma RightStep(p: seq<uint32>, p': seq<uint32>, a: seq<uint32>, i: nat, k: nat, s: nat, rem: nat) returns (rem': nat)
    requires RightInv(p, a, i, k, s, rem) && i < |a|
    requires i < k ==> p' == p
    requires i >= k ==> (var hi, lo := a[i] / Pow2(s), (a[i] * Pow2(32 - s)) % BASE;
                         && 0 <= hi < BASE && 0 <= lo
                         && (i > k ==> p[i - k - 1] + lo < BASE)
                         && p' == PlaceRight(p, i - k, hi, lo))
    ensures RightInv(p', a, i + 1, k, s, rem')
  {
    ValPrefix(a, i);
    RightReady(p, a, i, k, s, rem);
    if i < k {
      rem' := rem + a[i] * W(i);
      NonNegative(a[i], W(i));
      MulStrict(a[i], BASE, W(i));
      assert 0 * (Pow2(s) * W(k)) == 0;
    } else if i == k {
      rem' := RightAtBottom(p, p', a, i, s, rem);
    } else {
      rem' := rem;
      RightAbove(p, p', a, i, k, s, rem);
    }
  }

  lemma RightAtBottom(p: seq<uint32>, p': seq<uint32>, a: seq<uint32>, k: nat, s: nat, rem: nat) returns (rem': nat)
    requires k < |a| == |p| && s < 32 && p[0] == 0 && rem < W(k)
    requires var hi, lo := a[k] / Pow2(s), (a[k] * Pow2(32 - s)) % BASE;
             0 <= hi < BASE && 0 <= lo && p' == PlaceRight(p, 0, hi, lo)
    ensures Val(p') * (Pow2(s) * W(k)) + rem' == Val(p) * (Pow2(s) * W(k)) + rem + a[k] * W(k)
    ensures rem' < Pow2(s) * W(k) && p'[0] < Pow2(32 - s)
  {
    var xl := SplitRight(a[k], s);
    var hi, lo := a[k] / Pow2(s), (a[k] * Pow2(32 - s)) % BASE;
    PlaceRightValue(p, 0, hi, lo);
    NonNegative(xl, W(k));
    rem' := rem + xl * W(k);
    MulStrict(xl, Pow2(s), W(k));
    FirstRight(Val(p), hi, xl, Pow2(s), W(k), rem);
  }

  lemma RightAbove(p: seq<uint32>, p': seq<uint32>, a: seq<uint32>, i: nat, k: nat, s: nat, rem: nat)
    requires k < i < |a| == |p| && s < 32 && p[i - k] == 0
    requires var hi, lo := a[i] / Pow2(s), (a[i] * Pow2(32 - s)) % BASE;
             0 <= hi < BASE && 0 <= lo && p[i - k - 1] + lo < BASE && p' == PlaceRight(p, i - k, hi, lo)
    ensures Val(p') * (Pow2(s) * W(k)) + rem == Val(p) * (Pow2(s) * W(k)) + rem + a[i] * W(i)
    ensures p'[i - k] < Pow2(32 - s)
  {
    var xl := SplitRight(a[i], s);
    var hi, lo := a[i] / Pow2(s), (a[i] * Pow2(32 - s)) % BASE;
    PlaceRightValue(p, i - k, hi, lo);
    WAdd(i - k, k);
    Pow2Is32();
    Pow2Add(32 - s, s);
    NextRight(Val(p), hi, xl, Pow2(s), Pow2(32 - s), W(k), W(i - k - 1), W(i - k), rem);
  }

  lemma FirstRight(v: int, hi: int, xl: int, p: int, wk: int, rem: int)
    ensures (v + hi * 1 + 0) * (p * wk) + (rem + xl * wk) == v * (p * wk) + rem + (hi * p + xl) * wk
  {
    assert (v + hi) * (p * wk) == v * (p * wk) + hi * (p * wk);
    Assoc(hi, p, wk);
    Regroup(hi * p, xl, wk);
  }

  lemma NextRight(v: int, hi: int, xl: int, p: int, r: int, wk: int, w1: int, w: int, rem: int)
    requires r * p == BASE && w == BASE * w1
    ensures (v + hi * w + (xl * r) * w1) * (p * wk) + rem == v * (p * wk) + rem + (hi * p + xl) * (w * wk)
  {
    assert (v + hi * w + (xl * r) * w1) * (p * wk) == v * (p * wk) + (hi * w) * (p * wk) + ((xl * r) * w1) * (p * wk);
    LimbTerm(hi, w, p, wk);
    LimbTerm(xl * r, w1, p, wk);
    assert (xl * r) * p == xl * BASE by { Assoc(xl, r, p); }
    assert (xl * BASE) * (w1 * wk) == xl * (w * wk) by {
      assert (xl * BASE) * (w1 * wk) == xl * (BASE * (w1 * wk));
      Assoc(BASE, w1, wk);
    }
    Regroup(hi * p, xl, w * wk);
  }

  lemma RemainderFits(n: nat, k: nat, s: nat, rem: nat)
    requires if n <= k then rem < W(n) else rem < Pow2(s) * W(k)
    ensures rem < Pow2(s) * W(k)
  {
    if n <= k {
      WMonotone(n, k);
      MulMono(1, Pow2(s), W(k));
    }
  }

  lemma {:induction false} WMonotone(a: nat, b: nat)
    requires a <= b
    ensures W(a) <= W(b)
  {
    if a < b {
      WMonotone(a, b - 1);
    }
  }

  //
  // Division.
  //

  /** All bits below position k are zero, limb by limb. */
  ghost predicate BitsClear(x: seq<uint32>, k: nat) {
    forall j :: 0 <= j < |x| ==> LimbClear(x, j, k)
  }

  ghost predicate LimbClear(x: seq<uint32>, j: nat, k: nat)
    requires j < |x|
  {
    && (32 * j + 32 <= k ==> x[j] == 0)
    && (32 * j < k < 32 * j + 32 ==> x[j] % Pow2(k - 32 * j) == 0)
  }

  lemma Multiple(x: nat, d: nat)
    requires d >= 1 && x % d == 0
    ensures x == (x / d) * d
  {
  }

  lemma ClearLimb(x: seq<uint32>, shift: nat) returns (c: nat)
    requires shift < 32 * |x| && BitsClear(x, shift + 1)
    ensures x[shift / 32] == c * Pow2(shift % 32 + 1)
  {
    var m, t := shift / 32, shift % 32;
    assert LimbClear(x, m, shift + 1);
    if t == 31 {
      c := 0;
    } else {
      c := x[m] / Pow2(t + 1);
      Multiple(x[m], Pow2(t + 1));
    }
  }

  lemma BitFits(c: nat, t: nat, x: uint32)
    requires t < 32 && x == c * Pow2(t + 1)
    ensures Pow2(t) < Pow2(t + 1) && x + Pow2(t) < BASE
  {
    Pow2Is32();
    var e := 31 - t;
    Pow2Add(e, t + 1);
    if c >= Pow2(e) {
      MulMono(Pow2(e), c, Pow2(t + 1));
    } else {
      MulStrict(c, Pow2(e), Pow2(t + 1));
    }
  }

  lemma StillClear(x: seq<uint32>, y: seq<uint32>, shift: nat, c: nat)
    requires shift < 32 * |x| && BitsClear(x, shift + 1)
    requires x[shift / 32] == c * Pow2(shift % 32 + 1) && x[shift / 32] + Pow2(shift % 32) < BASE
    requires y == x[shift / 32 := x[shift / 32] + Pow2(shift % 32)]
    ensures BitsClear(y, shift)
  {
    var m, t := shift / 32, shift % 32;
    forall j | 0 <= j < |y| ensures LimbClear(y, j, shift) {
      assert LimbClear(x, j, shift + 1);
      if j == m && t > 0 {
        OddMultiple(c, t);
      }
    }
  }

  lemma OddMultiple(c: nat, t: nat)
    ensures (c * Pow2(t + 1) + Pow2(t)) % Pow2(t) == 0
  {
    assert c * (2 * Pow2(t)) == (2 * c) * Pow2(t);
    Regroup(2 * c, 1, Pow2(t));
    ModUnique(0, 2 * c + 1, Pow2(t), c * Pow2(t + 1) + Pow2(t));
  }

  lemma ClearBelow(x: seq<uint32>, shift: nat)
    requires BitsClear(x, shift + 1)
    ensures BitsClear(x, shift)
  {
    forall j | 0 <= j < |x| ensures LimbClear(x, j, shift) {
      assert LimbClear(x, j, shift + 1);
      if 32 * j < shift < 32 * j + 31 {
        HalfMultiple(x[j], shift - 32 * j);
      } else if shift == 32 * j + 31 {
        ModUnique(0, 0, Pow2(31), 0);
      }
    }
  }

  lemma HalfMultiple(x: nat, t: nat)
    requires x % Pow2(t + 1) == 0
    ensures x % Pow2(t) == 0
  {
    var c := x / Pow2(t + 1);
    Multiple(x, Pow2(t + 1));
    assert c * (2 * Pow2(t)) == (2 * c) * Pow2(t);
    ModUnique(0, 2 * c, Pow2(t), x);
  }

  /** A number with fewer bits is smaller. */
  lemma SmallerBits(x: nat, xb: nat, d: nat, db: nat)
    requires xb < db && (if x == 0 then xb == 0 else xb >= 1 && x < Pow2(xb)) && d >= Pow2(db - 1)
    ensures x < d
  {
    Pow2Monotone(xb, db - 1);
  }

  /** Aligned on its highest bit the divisor still fits, and twice it exceeds the numerator. */
  lemma AlignDivisor(x: nat, xb: nat, d: nat, db: nat, n: nat)
    requires 1 <= db <= xb <= 32 * n && x < Pow2(xb) && Pow2(db - 1) <= d < Pow2(db)
    ensures d * Pow2(xb - db) < W(n) && (d * Pow2(xb - db)) % W(n) == d * Pow2(xb - db)
    ensures x < d * Pow2(xb - db + 1)
  {
    var e := xb - db;
    WIsPow2(n);
    Pow2Add(db, e);
    Pow2Monotone(xb, 32 * n);
    MulStrict(d, Pow2(db), Pow2(e));
    ModUnique(d * Pow2(e), 0, W(n), d * Pow2(e));
    Pow2Add(db - 1, e + 1);
    MulMono(Pow2(db - 1), d, Pow2(e + 1));
  }

  /** The state of the division loop once the quotient bits from position k up are known. */
  ghost predicate DivInv(q: seq<uint32>, num: nat, x: nat, d: nat, k: nat) {
    Val(q) * d + num == x && num < d * Pow2(k) && BitsClear(q, k)
  }

  lemma DivInit(q: seq<uint32>, x: nat, d: nat, align: nat)
    requires x < d * Pow2(align + 1) && forall i :: 0 <= i < |q| ==> q[i] == 0
    ensures DivInv(q, x, x, d, align + 1)
  {
    ValZero(q);
    assert 0 * d == 0;
    var k := align + 1;
    forall j | 0 <= j < |q| ensures LimbClear(q, j, k) {
      if 32 * j < k {
        ModUnique(0, 0, Pow2(k - 32 * j), 0);
      }
    }
  }

  lemma DivClear(q: seq<uint32>, num: nat, x: nat, d: nat, shift: nat)
    requires DivInv(q, num, x, d, shift + 1)
    ensures BitsClear(q, shift + 1)
  {
  }

  lemma DivTake(q: seq<uint32>, q': seq<uint32>, num: nat, x: nat, d: nat, shift: nat)
    requires DivInv(q, num, x, d, shift + 1) && num >= d * Pow2(shift)
    requires Val(q') == Val(q) + Pow2(shift) && BitsClear(q', shift)
    ensures DivInv(q', num - d * Pow2(shift), x, d, shift)
  {
    QuotientStep(Val(q), num, d, Pow2(shift), x);
  }

  lemma DivSkip(q: seq<uint32>, num: nat, x: nat, d: nat, shift: nat)
    requires DivInv(q, num, x, d, shift + 1) && num < d * Pow2(shift)
    ensures DivInv(q, num, x, d, shift)
  {
    ClearBelow(q, shift);
  }

  lemma DivEnd(q: seq<uint32>, num: nat, x: nat, d: nat)
    requires DivInv(q, num, x, d, 0)
    ensures Val(q) == x / d
  {
    assert Pow2(0) == 1;
    DivUnique(Val(q), num, d, x);
  }

  lemma QuotientStep(q: nat, r: nat, d: nat, p: nat, x: nat)
    requires q * d + r == x && d * p <= r < d * (2 * p)
    ensures (q + p) * d + (r - d * p) == x && r - d * p < d * p
  {
    assert (q + p) * d == q * d + p * d;
    assert d * (2 * p) == d * p + d * p;
  }

  lemma HalveDivisor(d: nat, shift: nat)
    ensures shift >= 1 ==> (d * Pow2(shift)) / Pow2(1) == d * Pow2(shift - 1)
  {
    if shift >= 1 {
      assert Pow2(1) == 2;
      assert d * (2 * Pow2(shift - 1)) == (d * Pow2(shift - 1)) * 2;
      DivUnique(d * Pow2(shift - 1), 0, 2, d * Pow2(shift));
    }
  }
}
