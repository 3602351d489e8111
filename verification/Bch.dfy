/**
Why the Bech32 checksum detects any three errors in up to 1023 symbols, as src/bech32.cpp:44-49
promises.  The generator vanishes at y^24, y^25 and y^26, where y generates the nonzero elements
of GF(1024) = GF(2)[y] / (y^10 + y^8 + y^5 + y + 1).  Elements are vectors of ten bits, and
everything needed of the field is that multiplication by y is a linear map, of which no
power below the 1023rd fixes a vector other than zero.
*/
module Bch {
  import opened Gf32

  datatype Vec = Vec(bits: bv10)

  const NIL: Vec := Vec(0)

  function Xor(a: Vec, b: Vec): Vec { Vec(a.bits ^ b.bits) }

  function Shl(v: Vec): Vec { Vec(v.bits << 1) }

  /** What y^10 comes to. */
  const CARRY: Vec := Vec(0x123)

  /** Multiplication by y. */
  function Up(v: Vec): Vec { Xor(Shl(v), When(Has(v, 512), CARRY)) }

  predicate Has(v: Vec, m: bv10) { v.bits & m != 0 }

  function When(b: bool, v: Vec): Vec { if b then v else NIL }

  lemma XorNil(a: Vec)
    ensures Xor(a, NIL) == a == Xor(NIL, a)
  {
  }

  lemma XorZero(a: Vec, b: Vec)
    ensures Xor(a, b) == NIL <==> a == b
  {
  }

  lemma XorSwap(a: Vec, b: Vec, c: Vec, d: Vec)
    ensures Xor(Xor(a, b), Xor(c, d)) == Xor(Xor(a, c), Xor(b, d))
  {
  }

  lemma XorMiddle(x: Vec, y: Vec, z: Vec)
    ensures Xor(Xor(x, y), Xor(y, z)) == Xor(x, z)
  {
  }

  lemma XorInjective(a: Vec, b: Vec, c: Vec)
    requires Xor(a, b) == Xor(a, c)
    ensures b == c
  {
    assert (a.bits ^ b.bits) ^ a.bits == b.bits;
    assert (a.bits ^ c.bits) ^ a.bits == c.bits;
  }

  lemma ShlLinear(a: Vec, b: Vec)
    ensures Shl(Xor(a, b)) == Xor(Shl(a), Shl(b))
  {
  }

  lemma HasXor(a: Vec, b: Vec)
    ensures Has(Xor(a, b), 512) == (Has(a, 512) != Has(b, 512))
  {
  }

  lemma WhenXor(a: bool, b: bool, v: Vec)
    ensures When(a != b, v) == Xor(When(a, v), When(b, v))
  {
  }

  lemma UpLinear(a: Vec, b: Vec)
    ensures Up(Xor(a, b)) == Xor(Up(a), Up(b))
  {
    hide Xor;
    hide Shl;
    hide Has;
    hide When;
    ShlLinear(a, b);
    HasXor(a, b);
    WhenXor(Has(a, 512), Has(b, 512), CARRY);
    XorSwap(Shl(a), Shl(b), When(Has(a, 512), CARRY), When(Has(b, 512), CARRY));
  }

  lemma UpBits(v: Vec)
    ensures Up(v).bits == (v.bits << 1) ^ (if v.bits & 512 != 0 then 0x123 else 0)
  {
  }

  lemma BitsInjective(a: bv10, b: bv10)
    requires (a << 1) ^ (if a & 512 != 0 then 0x123 else 0) == (b << 1) ^ (if b & 512 != 0 then 0x123 else 0)
    ensures a == b
  {
  }

  lemma UpInjective(a: Vec, b: Vec)
    requires Up(a) == Up(b)
    ensures a == b
  {
    hide Up;
    UpBits(a);
    UpBits(b);
    BitsInjective(a.bits, b.bits);
  }

  //
  // Powers of y.
  //

  function Pw(k: nat, v: Vec): Vec {
    if k == 0 then v else Up(Pw(k - 1, v))
  }

  lemma {:induction false} PwAdd(a: nat, b: nat, v: Vec)
    ensures Pw(a, Pw(b, v)) == Pw(a + b, v)
    decreases a
  {
    hide Up;
    if a > 0 {
      PwAdd(a - 1, b, v);
    }
  }

  lemma {:induction false} PwLinear(k: nat, a: Vec, b: Vec)
    ensures Pw(k, Xor(a, b)) == Xor(Pw(k, a), Pw(k, b))
    decreases k
  {
    hide Up;
    hide Xor;
    if k > 0 {
      PwLinear(k - 1, a, b);
      UpLinear(Pw(k - 1, a), Pw(k - 1, b));
    }
  }

  lemma {:induction false} PwInjective(k: nat, a: Vec, b: Vec)
    requires Pw(k, a) == Pw(k, b)
    ensures a == b
    decreases k
  {
    hide Up;
    if k > 0 {
      UpInjective(Pw(k - 1, a), Pw(k - 1, b));
      PwInjective(k - 1, a, b);
    }
  }

  lemma PwNil(k: nat)
    ensures Pw(k, NIL) == NIL
  {
    hide Pw;
    hide Xor;
    XorZero(NIL, NIL);
    PwLinear(k, NIL, NIL);
    XorZero(Pw(k, NIL), Pw(k, NIL));
  }

  //
  // Multiplication by any power: y^k times v is found from y^k itself.
  //

  const UNIT: Vec := Vec(1)

  /** Ten vectors: the columns of a linear map, or the partial sums of one. */
  datatype Ten = Ten(c0: Vec, c1: Vec, c2: Vec, c3: Vec, c4: Vec, c5: Vec, c6: Vec, c7: Vec, c8: Vec, c9: Vec)

  /** A column for each bit of v. */
  function Map(c: Ten, v: Vec): Vec {
    Term(Term(Term(Term(Term(Term(Term(Term(Term(When(Has(v, 1), c.c0), Has(v, 2), c.c1), Has(v, 4), c.c2), Has(v, 8), c.c3),
         Has(v, 16), c.c4), Has(v, 32), c.c5), Has(v, 64), c.c6), Has(v, 128), c.c7), Has(v, 256), c.c8), Has(v, 512), c.c9)
  }

  function Columns(e: Vec): Ten {
    var e1 := Up(e);
    var e2 := Up(e1);
    var e3 := Up(e2);
    var e4 := Up(e3);
    var e5 := Up(e4);
    var e6 := Up(e5);
    var e7 := Up(e6);
    var e8 := Up(e7);
    Ten(e, e1, e2, e3, e4, e5, e6, e7, e8, Up(e8))
  }

  /** The product e*v. */
  function Mul(e: Vec, v: Vec): Vec { Map(Columns(e), v) }

  function Term(x: Vec, b: bool, e: Vec): Vec { Xor(x, When(b, e)) }

  lemma TermUp(x: Vec, b: bool, e: Vec)
    ensures Up(Term(x, b, e)) == Term(Up(x), b, Up(e))
    ensures Up(When(b, e)) == When(b, Up(e))
  {
    hide Up;
    hide Xor;
    UpNil();
    UpLinear(x, When(b, e));
  }

  lemma UpNil()
    ensures Up(NIL) == NIL
  {
  }

  lemma MulUp(e: Vec, v: Vec)
    ensures Mul(Up(e), v) == Up(Mul(e, v))
  {
    hide Up;
    hide Has;
    hide When;
    hide Term;
    var e1 := Up(e);
    var e2 := Up(e1);
    var e3 := Up(e2);
    var e4 := Up(e3);
    var e5 := Up(e4);
    var e6 := Up(e5);
    var e7 := Up(e6);
    var e8 := Up(e7);
    var e9 := Up(e8);
    var x0 := When(Has(v, 1), e);
    var x1 := Term(x0, Has(v, 2), e1);
    var x2 := Term(x1, Has(v, 4), e2);
    var x3 := Term(x2, Has(v, 8), e3);
    var x4 := Term(x3, Has(v, 16), e4);
    var x5 := Term(x4, Has(v, 32), e5);
    var x6 := Term(x5, Has(v, 64), e6);
    var x7 := Term(x6, Has(v, 128), e7);
    var x8 := Term(x7, Has(v, 256), e8);
    TermUp(x0, Has(v, 1), e);
    TermUp(x0, Has(v, 2), e1);
    TermUp(x1, Has(v, 4), e2);
    TermUp(x2, Has(v, 8), e3);
    TermUp(x3, Has(v, 16), e4);
    TermUp(x4, Has(v, 32), e5);
    TermUp(x5, Has(v, 64), e6);
    TermUp(x6, Has(v, 128), e7);
    TermUp(x7, Has(v, 256), e8);
    TermUp(x8, Has(v, 512), e9);
  }

  predicate Step(s: Vec, s': Vec, v: Vec, m: bv10, c: Vec) {
    s'.bits == s.bits ^ (if v.bits & m != 0 then c.bits else 0)
  }

  /** The partial sums, in terms of bits. */
  predicate Steps(c: Ten, v: Vec, s: Ten) {
    && Step(NIL, s.c0, v, 1, c.c0)
    && Step(s.c0, s.c1, v, 2, c.c1)
    && Step(s.c1, s.c2, v, 4, c.c2)
    && Step(s.c2, s.c3, v, 8, c.c3)
    && Step(s.c3, s.c4, v, 16, c.c4)
    && Step(s.c4, s.c5, v, 32, c.c5)
    && Step(s.c5, s.c6, v, 64, c.c6)
    && Step(s.c6, s.c7, v, 128, c.c7)
    && Step(s.c7, s.c8, v, 256, c.c8)
    && Step(s.c8, s.c9, v, 512, c.c9)
  }

  lemma MapSteps(c: Ten, v: Vec) returns (s: Ten)
    ensures Steps(c, v, s) && s.c9 == Map(c, v)
  {
    hide Term;
    hide When;
    hide Has;
    hide Step;
    WhenBits(v, 1, c.c0);
    var x0 := When(Has(v, 1), c.c0);
    TermBits(x0, v, 2, c.c1);
    var x1 := Term(x0, Has(v, 2), c.c1);
    TermBits(x1, v, 4, c.c2);
    var x2 := Term(x1, Has(v, 4), c.c2);
    TermBits(x2, v, 8, c.c3);
    var x3 := Term(x2, Has(v, 8), c.c3);
    TermBits(x3, v, 16, c.c4);
    var x4 := Term(x3, Has(v, 16), c.c4);
    TermBits(x4, v, 32, c.c5);
    var x5 := Term(x4, Has(v, 32), c.c5);
    TermBits(x5, v, 64, c.c6);
    var x6 := Term(x5, Has(v, 64), c.c6);
    TermBits(x6, v, 128, c.c7);
    var x7 := Term(x6, Has(v, 128), c.c7);
    TermBits(x7, v, 256, c.c8);
    var x8 := Term(x7, Has(v, 256), c.c8);
    TermBits(x8, v, 512, c.c9);
    var x9 := Term(x8, Has(v, 512), c.c9);
    s := Ten(x0, x1, x2, x3, x4, x5, x6, x7, x8, x9);
  }

  lemma WhenBits(v: Vec, m: bv10, e: Vec)
    ensures Step(NIL, When(Has(v, m), e), v, m, e)
  {
  }

  lemma TermBits(x: Vec, v: Vec, m: bv10, e: Vec)
    ensures Step(x, Term(x, Has(v, m), e), v, m, e)
  {
    var t := When(Has(v, m), e);
    assert t.bits == if v.bits & m != 0 then e.bits else 0;
    hide When;
    hide Has;
  }

  lemma ColumnsOfUnit()
    ensures Columns(Vec(1)) == Ten(Vec(1), Vec(2), Vec(4), Vec(8), Vec(16), Vec(32), Vec(64), Vec(128), Vec(256), Vec(512))
  {
    assert Up(Vec(1)) == Vec(2) && Up(Vec(2)) == Vec(4) && Up(Vec(4)) == Vec(8) && Up(Vec(8)) == Vec(16) && Up(Vec(16)) == Vec(32);
    assert Up(Vec(32)) == Vec(64) && Up(Vec(64)) == Vec(128) && Up(Vec(128)) == Vec(256) && Up(Vec(256)) == Vec(512);
    hide Up;
  }

  lemma UnitSteps(v: Vec, s: Ten)
    requires Steps(Ten(Vec(1), Vec(2), Vec(4), Vec(8), Vec(16), Vec(32), Vec(64), Vec(128), Vec(256), Vec(512)), v, s)
    ensures s.c9 == v
  {
  }

  lemma MulUnit(v: Vec)
    ensures Mul(UNIT, v) == v
  {
    hide Map;
    hide Columns;
    hide Steps;
    ColumnsOfUnit();
    var s := MapSteps(Columns(UNIT), v);
    UnitSteps(v, s);
  }

  lemma {:induction false} PwIsMul(k: nat, v: Vec)
    ensures Pw(k, v) == Mul(Pw(k, UNIT), v)
    decreases k
  {
    hide Up;
    hide Mul;
    if k == 0 {
      MulUnit(v);
    } else {
      PwIsMul(k - 1, v);
      MulUp(Pw(k - 1, UNIT), v);
    }
  }

  /** y^(a + b) from y^a and y^b. */
  lemma Product(a: nat, b: nat)
    ensures Pw(a + b, UNIT) == Mul(Pw(a, UNIT), Pw(b, UNIT))
  {
    hide Pw;
    PwAdd(a, b, UNIT);
    PwIsMul(a, Pw(b, UNIT));
  }

  lemma Combine(a: nat, b: nat, x: Vec, y: Vec)
    requires Pw(a, UNIT) == x && Pw(b, UNIT) == y
    ensures Pw(a + b, UNIT) == Mul(x, y)
  {
    hide Mul;
    hide Pw;
    Product(a, b);
  }

  lemma Products()
    ensures Mul(Vec(2), Vec(2)) == Vec(4) && Mul(Vec(4), Vec(4)) == Vec(16) && Mul(Vec(16), Vec(16)) == Vec(256)
    ensures Mul(Vec(256), Vec(256)) == Vec(281) && Mul(Vec(281), Vec(281)) == Vec(88) && Mul(Vec(88), Vec(88)) == Vec(239)
    ensures Mul(Vec(239), Vec(239)) == Vec(838) && Mul(Vec(838), Vec(838)) == Vec(485) && Mul(Vec(485), Vec(485)) == Vec(539)
    ensures Mul(Vec(539), Vec(539)) == Vec(2)
  {
  }

  lemma MixedProducts()
    ensures Mul(Vec(281), Vec(256)) == Vec(1008) && Mul(Vec(1008), Vec(2)) == Vec(707) && Mul(Vec(707), Vec(2)) == Vec(165)
    ensures Mul(Vec(88), Vec(2)) == Vec(176)
    ensures Mul(Vec(707), Vec(16)) == Vec(11) && Mul(Vec(239), Vec(11)) == Vec(874)
    ensures Mul(Vec(16), Vec(2)) == Vec(32) && Mul(Vec(281), Vec(32)) == Vec(126)
    ensures Mul(Vec(239), Vec(126)) == Vec(497) && Mul(Vec(485), Vec(497)) == Vec(54)
  {
  }

  lemma First()
    ensures Pw(1, UNIT) == Vec(2)
  {
    assert Pw(0, UNIT) == UNIT;
    assert Pw(1, UNIT) == Up(UNIT);
  }

  /** By squaring. */
  lemma Powers()
    ensures Pw(1, UNIT) == Vec(2) && Pw(4, UNIT) == Vec(16) && Pw(8, UNIT) == Vec(256) && Pw(16, UNIT) == Vec(281)
    ensures Pw(32, UNIT) == Vec(88) && Pw(64, UNIT) == Vec(239) && Pw(128, UNIT) == Vec(838) && Pw(256, UNIT) == Vec(485)
    ensures Pw(512, UNIT) == Vec(539) && Pw(1024, UNIT) == Vec(2)
  {
    hide Mul;
    hide Pw;
    Products();
    First();
    Combine(1, 1, Vec(2), Vec(2));
    Combine(2, 2, Vec(4), Vec(4));
    Combine(4, 4, Vec(16), Vec(16));
    Combine(8, 8, Vec(256), Vec(256));
    Combine(16, 16, Vec(281), Vec(281));
    Combine(32, 32, Vec(88), Vec(88));
    Combine(64, 64, Vec(239), Vec(239));
    Combine(128, 128, Vec(838), Vec(838));
    Combine(256, 256, Vec(485), Vec(485));
    Combine(512, 512, Vec(539), Vec(539));
  }

  lemma RootPowers()
    ensures Pw(24, UNIT) == Vec(1008) && Pw(25, UNIT) == Vec(707) && Pw(26, UNIT) == Vec(165)
  {
    hide Mul;
    hide Pw;
    Powers();
    MixedProducts();
    Combine(16, 8, Vec(281), Vec(256));
    Combine(24, 1, Vec(1008), Vec(2));
    Combine(25, 1, Vec(707), Vec(2));
  }

  /** The powers 1023/31, 1023/11 and 1023/3. */
  lemma DivisorPowers()
    ensures Pw(33, UNIT) == Vec(176) && Pw(93, UNIT) == Vec(874) && Pw(341, UNIT) == Vec(54)
  {
    hide Mul;
    hide Pw;
    Powers();
    MixedProducts();
    RootPowers();
    Combine(32, 1, Vec(88), Vec(2));
    Combine(25, 4, Vec(707), Vec(16));
    Combine(64, 29, Vec(239), Vec(11));
    Combine(4, 1, Vec(16), Vec(2));
    Combine(16, 5, Vec(281), Vec(32));
    Combine(64, 21, Vec(239), Vec(126));
    Combine(256, 85, Vec(485), Vec(497));
  }

  //
  // Periods.
  //

  predicate Period(k: nat, v: Vec) { Pw(k, v) == v }

  lemma Full(v: Vec)
    ensures Period(1023, v)
  {
    hide Up;
    hide Mul;
    hide Pw;
    Powers();
    First();
    LastStep(1024, UNIT);
    LastStep(1, UNIT);
    assert Pw(0, UNIT) == UNIT by { PwNone(0, UNIT); }
    UpInjective(Pw(1023, UNIT), UNIT);
    PwIsMul(1023, v);
    MulUnit(v);
  }

  lemma LastStep(k: nat, v: Vec)
    requires k > 0
    ensures Pw(k, v) == Up(Pw(k - 1, v))
  {
  }

  lemma PwNone(k: nat, v: Vec)
    requires k == 0
    ensures Pw(k, v) == v
  {
  }

  lemma {:induction false} PeriodTimes(g: nat, q: nat, v: Vec)
    requires Period(g, v)
    ensures Period(g * q, v)
    decreases q
  {
    hide Up;
    if q == 0 {
      assert g * q == 0;
    } else {
      PeriodTimes(g, q - 1, v);
      PwAdd(g, g * (q - 1), v);
      assert g + g * (q - 1) == g * q;
    }
  }

  /** A period leads to one that divides 1023. */
  lemma {:induction false} FindPeriod(d: nat, v: Vec) returns (g: nat, q: nat)
    requires 0 < d && Period(d, v)
    ensures 0 < g <= d && Period(g, v) && g * q == 1023
    decreases d
  {
    hide Pw;
    hide Up;
    var n := 1023;
    q := n / d;
    var r := n % d;
    assert d * q + r == n;
    if r == 0 {
      g := d;
    } else {
      Full(v);
      PeriodTimes(d, q, v);
      PwAdd(r, d * q, v);
      g, q := FindPeriod(r, v);
    }
  }

  lemma SmallDivisor(m: nat, n: nat)
    requires m * n == 1023 && m <= 31
    ensures m == 1 || m == 3 || m == 11 || m == 31
  {
    if m <= 16 {
      LowDivisor(m, n);
    } else {
      HighDivisor(m, n);
    }
  }

  lemma LowDivisor(m: nat, n: nat)
    requires m * n == 1023 && m <= 16
    ensures m == 1 || m == 3 || m == 11
  {
    assert m == 0 || m == 1 || m == 2 || m == 3 || m == 4 || m == 5 || m == 6 || m == 7 || m == 8
           || m == 9 || m == 10 || m == 11 || m == 12 || m == 13 || m == 14 || m == 15 || m == 16;
  }

  lemma HighDivisor(m: nat, n: nat)
    requires m * n == 1023 && 17 <= m <= 31
    ensures m == 31
  {
    assert m == 17 || m == 18 || m == 19 || m == 20 || m == 21 || m == 22 || m == 23 || m == 24
           || m == 25 || m == 26 || m == 27 || m == 28 || m == 29 || m == 30 || m == 31;
  }

  /** So a proper divisor of 1023 divides 341, 93 or 33. */
  lemma ProperDivisor(g: nat, q: nat) returns (t: nat)
    requires g * q == 1023 && g < 1023
    ensures g * t == 341 || g * t == 93 || g * t == 33
  {
    if g <= 31 {
      SmallDivisor(g, q);
      t := if g == 3 then 31 else 341 / g;
    } else {
      if q >= 32 {
        Bigger(g, q);
      }
      assert q * g == 1023;
      SmallDivisor(q, g);
      t := 1;
    }
  }

  lemma Bigger(g: nat, q: nat)
    requires g >= 32 && q >= 32
    ensures g * q >= 1024
  {
    assert (g - 32) * (q - 32) >= 0;
  }

  lemma Columns33()
    ensures Columns(Vec(176)) == Ten(Vec(176), Vec(352), Vec(704), Vec(163), Vec(326), Vec(652), Vec(59), Vec(118), Vec(236), Vec(472))
  {
    assert Up(Vec(176)) == Vec(352) && Up(Vec(352)) == Vec(704) && Up(Vec(704)) == Vec(163) && Up(Vec(163)) == Vec(326) && Up(Vec(326)) == Vec(652);
    assert Up(Vec(652)) == Vec(59) && Up(Vec(59)) == Vec(118) && Up(Vec(118)) == Vec(236) && Up(Vec(236)) == Vec(472);
    hide Up;
  }

  lemma Steps33(v: Vec, s: Ten)
    requires Steps(Ten(Vec(176), Vec(352), Vec(704), Vec(163), Vec(326), Vec(652), Vec(59), Vec(118), Vec(236), Vec(472)), v, s) && s.c9 == v
    ensures v == NIL
  {
  }

  lemma Fixed33(v: Vec)
    requires Mul(Vec(176), v) == v
    ensures v == NIL
  {
    hide Map;
    hide Columns;
    hide Steps;
    Columns33();
    var s := MapSteps(Columns(Vec(176)), v);
    Steps33(v, s);
  }

  lemma Columns93()
    ensures Columns(Vec(874)) == Ten(Vec(874), Vec(1015), Vec(717), Vec(185), Vec(370), Vec(740), Vec(235), Vec(470), Vec(940), Vec(635))
  {
    assert Up(Vec(874)) == Vec(1015) && Up(Vec(1015)) == Vec(717) && Up(Vec(717)) == Vec(185) && Up(Vec(185)) == Vec(370) && Up(Vec(370)) == Vec(740);
    assert Up(Vec(740)) == Vec(235) && Up(Vec(235)) == Vec(470) && Up(Vec(470)) == Vec(940) && Up(Vec(940)) == Vec(635);
    hide Up;
  }

  lemma Steps93(v: Vec, s: Ten)
    requires Steps(Ten(Vec(874), Vec(1015), Vec(717), Vec(185), Vec(370), Vec(740), Vec(235), Vec(470), Vec(940), Vec(635)), v, s) && s.c9 == v
    ensures v == NIL
  {
  }

  lemma Fixed93(v: Vec)
    requires Mul(Vec(874), v) == v
    ensures v == NIL
  {
    hide Map;
    hide Columns;
    hide Steps;
    Columns93();
    var s := MapSteps(Columns(Vec(874)), v);
    Steps93(v, s);
  }

  lemma Columns341()
    ensures Columns(Vec(54)) == Ten(Vec(54), Vec(108), Vec(216), Vec(432), Vec(864), Vec(995), Vec(741), Vec(233), Vec(466), Vec(932))
  {
    assert Up(Vec(54)) == Vec(108) && Up(Vec(108)) == Vec(216) && Up(Vec(216)) == Vec(432) && Up(Vec(432)) == Vec(864) && Up(Vec(864)) == Vec(995);
    assert Up(Vec(995)) == Vec(741) && Up(Vec(741)) == Vec(233) && Up(Vec(233)) == Vec(466) && Up(Vec(466)) == Vec(932);
    hide Up;
  }

  lemma Steps341(v: Vec, s: Ten)
    requires Steps(Ten(Vec(54), Vec(108), Vec(216), Vec(432), Vec(864), Vec(995), Vec(741), Vec(233), Vec(466), Vec(932)), v, s) && s.c9 == v
    ensures v == NIL
  {
  }

  lemma Fixed341(v: Vec)
    requires Mul(Vec(54), v) == v
    ensures v == NIL
  {
    hide Map;
    hide Columns;
    hide Steps;
    Columns341();
    var s := MapSteps(Columns(Vec(54)), v);
    Steps341(v, s);
  }

  /** No power of y below the 1023rd fixes a vector other than zero. */
  lemma NoShortPeriod(d: nat, v: Vec)
    requires 0 < d < 1023 && Period(d, v)
    ensures v == NIL
  {
    hide Pw;
    hide Mul;
    var g, q := FindPeriod(d, v);
    var t := ProperDivisor(g, q);
    PeriodTimes(g, t, v);
    PwIsMul(g * t, v);
    DivisorPowers();
    if g * t == 341 {
      Fixed341(v);
    } else if g * t == 93 {
      Fixed93(v);
    } else {
      Fixed33(v);
    }
  }

  lemma PowersDiffer(a: nat, b: nat, v: Vec)
    requires a < b < a + 1023 && Pw(a, v) == Pw(b, v)
    ensures v == NIL
  {
    hide Pw;
    PwAdd(a, b - a, v);
    PwInjective(a, v, Pw(b - a, v));
    NoShortPeriod(b - a, v);
  }

  //
  // Three error terms that vanish at three consecutive powers.
  //

  function Both(a: nat, b: nat, v: Vec): Vec { Xor(Pw(a, v), Pw(b, v)) }

  lemma Eliminate(a: nat, b: nat, c: nat, u: Vec, v: Vec, w: Vec)
    requires u == Xor(v, w) && Xor(Pw(a, u), Xor(Pw(b, v), Pw(c, w))) == NIL
    ensures Both(a, b, v) == Both(a, c, w)
  {
    hide Pw;
    hide Xor;
    PwLinear(a, v, w);
    XorSwap(Pw(a, v), Pw(a, w), Pw(b, v), Pw(c, w));
    XorZero(Both(a, b, v), Both(a, c, w));
  }

  lemma BothTwice(a: nat, b: nat, v: Vec)
    ensures Both(a, b, Both(a, b, v)) == Both(2 * a, 2 * b, v)
  {
    hide Pw;
    hide Xor;
    PwLinear(a, Pw(a, v), Pw(b, v));
    PwLinear(b, Pw(a, v), Pw(b, v));
    PwAdd(a, a, v);
    PwAdd(a, b, v);
    PwAdd(b, a, v);
    PwAdd(b, b, v);
    var x, y, z := Pw(2 * a, v), Pw(a + b, v), Pw(2 * b, v);
    XorMiddle(x, y, z);
  }

  lemma BothZero(a: nat, b: nat, v: Vec)
    requires b < a < b + 1023 && Both(a, b, v) == NIL
    ensures v == NIL
  {
    hide Pw;
    hide Xor;
    XorZero(Pw(a, v), Pw(b, v));
    PowersDiffer(b, a, v);
  }

  lemma ThreeTerms(a: nat, b: nat, u: Vec, v: Vec, w: Vec)
    requires 0 < b < a < 1023
    requires Xor(u, Xor(v, w)) == NIL
    requires Xor(Pw(a, u), Xor(Pw(b, v), Pw(0, w))) == NIL
    requires Xor(Pw(2 * a, u), Xor(Pw(2 * b, v), Pw(0, w))) == NIL
    ensures u == v == w == NIL
  {
    hide Pw;
    hide Xor;
    XorZero(u, Xor(v, w));
    Eliminate(a, b, 0, u, v, w);
    Eliminate(2 * a, 2 * b, 0, u, v, w);
    var p := Both(a, b, v);
    BothTwice(a, b, v);
    BothTwice(a, 0, w);
    XorInjective(Pw(a, p), Pw(b, p), Pw(0, p));
    PowersDiffer(0, b, p);
    BothZero(a, b, v);
    BothZero(a, 0, w);
    XorNil(v);
  }

  //
  // GF(32) inside GF(1024), and the value of a remainder at a power of y.
  //

  function Embed(c: Gf): Vec {
    Term(Term(Term(Term(When(Bit(c, 1), Vec(1)), Bit(c, 2), Vec(14)), Bit(c, 4), Vec(84)), Bit(c, 8), Vec(856)), Bit(c, 16), Vec(191))
  }

  lemma TermXor(x: Vec, y: Vec, a: bool, b: bool, e: Vec)
    ensures Term(Xor(x, y), a != b, e) == Xor(Term(x, a, e), Term(y, b, e))
  {
    hide Xor;
    hide When;
    WhenXor(a, b, e);
    XorSwap(x, y, When(a, e), When(b, e));
  }

  lemma EmbedLinear(c: Gf, d: Gf)
    ensures Embed(Add(c, d)) == Xor(Embed(c), Embed(d))
  {
    hide Xor;
    hide When;
    hide Term;
    hide Bit;
    hide Add;
    BitAdd(c, d);
    WhenXor(Bit(c, 1), Bit(d, 1), Vec(1));
    var x0, y0 := When(Bit(c, 1), Vec(1)), When(Bit(d, 1), Vec(1));
    TermXor(x0, y0, Bit(c, 2), Bit(d, 2), Vec(14));
    var x1, y1 := Term(x0, Bit(c, 2), Vec(14)), Term(y0, Bit(d, 2), Vec(14));
    TermXor(x1, y1, Bit(c, 4), Bit(d, 4), Vec(84));
    var x2, y2 := Term(x1, Bit(c, 4), Vec(84)), Term(y1, Bit(d, 4), Vec(84));
    TermXor(x2, y2, Bit(c, 8), Bit(d, 8), Vec(856));
    var x3, y3 := Term(x2, Bit(c, 8), Vec(856)), Term(y2, Bit(d, 8), Vec(856));
    TermXor(x3, y3, Bit(c, 16), Bit(d, 16), Vec(191));
  }

  lemma EmbedInjective(c: Gf)
    ensures Embed(c) == NIL <==> c == O
  {
  }

  /** One step of evaluating a polynomial at y^r: what there is, times y^r, plus a coefficient. */
  function Horner(r: nat, v: Vec, c: Gf): Vec { Xor(Pw(r, v), Embed(c)) }

  function Ev(r: nat, p: Poly): Vec {
    Horner(r, Horner(r, Horner(r, Horner(r, Horner(r, Embed(p.c0), p.c1), p.c2), p.c3), p.c4), p.c5)
  }

  lemma HornerLinear(r: nat, v: Vec, w: Vec, c: Gf, d: Gf)
    ensures Horner(r, Xor(v, w), Add(c, d)) == Xor(Horner(r, v, c), Horner(r, w, d))
  {
    hide Pw;
    hide Xor;
    hide Embed;
    hide Add;
    PwLinear(r, v, w);
    EmbedLinear(c, d);
    XorSwap(Pw(r, v), Pw(r, w), Embed(c), Embed(d));
  }

  lemma EvLinear(r: nat, p: Poly, q: Poly)
    ensures Ev(r, Sum(p, q)) == Xor(Ev(r, p), Ev(r, q))
  {
    hide Horner;
    hide Xor;
    hide Embed;
    hide Add;
    EmbedLinear(p.c0, q.c0);
    var v0, w0 := Embed(p.c0), Embed(q.c0);
    HornerLinear(r, v0, w0, p.c1, q.c1);
    var v1, w1 := Horner(r, v0, p.c1), Horner(r, w0, q.c1);
    HornerLinear(r, v1, w1, p.c2, q.c2);
    var v2, w2 := Horner(r, v1, p.c2), Horner(r, w1, q.c2);
    HornerLinear(r, v2, w2, p.c3, q.c3);
    var v3, w3 := Horner(r, v2, p.c3), Horner(r, w2, q.c3);
    HornerLinear(r, v3, w3, p.c4, q.c4);
    var v4, w4 := Horner(r, v3, p.c4), Horner(r, w3, q.c4);
    HornerLinear(r, v4, w4, p.c5, q.c5);
  }

  /** The generator a of GF(32) is y^924. */
  lemma EmbeddedPower()
    ensures Pw(924, UNIT) == Vec(14)
  {
    hide Mul;
    hide Pw;
    Powers();
    RootPowers();
    assert Mul(Vec(1008), Vec(16)) == Vec(660) && Mul(Vec(838), Vec(660)) == Vec(152) && Mul(Vec(485), Vec(152)) == Vec(292)
           && Mul(Vec(539), Vec(292)) == Vec(14) by { EmbeddedProducts(); }
    Combine(24, 4, Vec(1008), Vec(16));
    Combine(128, 28, Vec(838), Vec(660));
    Combine(256, 156, Vec(485), Vec(152));
    Combine(512, 412, Vec(539), Vec(292));
  }

  lemma EmbeddedProducts()
    ensures Mul(Vec(1008), Vec(16)) == Vec(660) && Mul(Vec(838), Vec(660)) == Vec(152) && Mul(Vec(485), Vec(152)) == Vec(292)
    ensures Mul(Vec(539), Vec(292)) == Vec(14)
  {
  }

  /** What holds of a basis and carries over to sums holds of every element. */
  lemma Span(holds: Gf -> bool, c: Gf)
    requires holds(O) && holds(Gf(1)) && holds(Gf(2)) && holds(Gf(4)) && holds(Gf(8)) && holds(Gf(16))
    requires forall a, b :: holds(a) && holds(b) ==> holds(Add(a, b))
    ensures holds(c)
  {
    hide Add;
    hide Bit;
    var c0 := Gf32.Select(Bit(c, 1), Gf(1));
    var c1 := Gf32.Select(Bit(c, 2), Gf(2));
    var c2 := Gf32.Select(Bit(c, 4), Gf(4));
    var c3 := Gf32.Select(Bit(c, 8), Gf(8));
    var c4 := Gf32.Select(Bit(c, 16), Gf(16));
    assert holds(Add(c0, c1));
    assert holds(Add(Add(c0, c1), c2));
    assert holds(Add(Add(Add(c0, c1), c2), c3));
    assert holds(Add(Add(Add(Add(c0, c1), c2), c3), c4));
    BasisOf(c);
  }

  lemma BasisOf(c: Gf)
    ensures c == Add(Add(Add(Add(Gf32.Select(Bit(c, 1), Gf(1)), Gf32.Select(Bit(c, 2), Gf(2))), Gf32.Select(Bit(c, 4), Gf(4))),
                         Gf32.Select(Bit(c, 8), Gf(8))), Gf32.Select(Bit(c, 16), Gf(16)))
  {
  }

  lemma TwiceLinear(c: Gf, d: Gf)
    ensures Twice(Add(c, d)) == Add(Twice(c), Twice(d))
  {
  }

  /** Doubling in GF(32) is multiplication by y^924. */
  predicate DoublesAt(c: Gf) { Embed(Twice(c)) == Pw(924, Embed(c)) }

  lemma DoublesAdd(c: Gf, d: Gf)
    requires DoublesAt(c) && DoublesAt(d)
    ensures DoublesAt(Add(c, d))
  {
    hide Pw;
    hide Xor;
    hide Embed;
    hide Add;
    hide Twice;
    TwiceLinear(c, d);
    EmbedLinear(c, d);
    EmbedLinear(Twice(c), Twice(d));
    PwLinear(924, Embed(c), Embed(d));
  }

  lemma DoublesBasis()
    ensures DoublesAt(O) && DoublesAt(Gf(1)) && DoublesAt(Gf(2)) && DoublesAt(Gf(4)) && DoublesAt(Gf(8)) && DoublesAt(Gf(16))
  {
    hide Pw;
    hide Mul;
    EmbeddedPower();
    PwNil(924);
    PwIsMul(924, Vec(1));
    PwIsMul(924, Vec(14));
    PwIsMul(924, Vec(84));
    PwIsMul(924, Vec(856));
    PwIsMul(924, Vec(191));
    DoublesProducts();
    EmbeddedBasis();
  }

  lemma DoublesProducts()
    ensures Mul(Vec(14), Vec(1)) == Vec(14) && Mul(Vec(14), Vec(14)) == Vec(84) && Mul(Vec(14), Vec(84)) == Vec(856)
    ensures Mul(Vec(14), Vec(856)) == Vec(191) && Mul(Vec(14), Vec(191)) == Vec(857)
  {
  }

  lemma EmbeddedBasis()
    ensures Embed(O) == NIL && Embed(Gf(1)) == Vec(1) && Embed(Gf(2)) == Vec(14) && Embed(Gf(4)) == Vec(84)
    ensures Embed(Gf(8)) == Vec(856) && Embed(Gf(16)) == Vec(191)
    ensures Twice(O) == O && Twice(Gf(1)) == Gf(2) && Twice(Gf(2)) == Gf(4) && Twice(Gf(4)) == Gf(8) && Twice(Gf(8)) == Gf(16)
    ensures Twice(Gf(16)) == Gf(9) && Embed(Gf(9)) == Vec(857)
  {
  }

  lemma Doubles(c: Gf)
    ensures DoublesAt(c)
  {
    hide DoublesAt;
    DoublesBasis();
    forall a, b | DoublesAt(a) && DoublesAt(b) ensures DoublesAt(Add(a, b)) { DoublesAdd(a, b); }
    Span(x => DoublesAt(x), c);
  }

  //
  // The roots of the generator.
  //

  function Lead(c: Gf): Poly { Poly(c, O, O, O, O, O) }

  /** For a leading coefficient c: the remainder of c*x^6 has the value of c*x^6 at y^r. */
  predicate RootAt(r: nat, c: Gf) { Ev(r, Next(Lead(c), O)) == Pw(r, Ev(r, Lead(c))) }

  lemma RootAdd(r: nat, c: Gf, d: Gf)
    requires RootAt(r, c) && RootAt(r, d)
    ensures RootAt(r, Add(c, d))
  {
    hide Pw;
    hide Xor;
    hide Ev;
    hide Next;
    AddSelf(O);
    assert Lead(Add(c, d)) == Sum(Lead(c), Lead(d));
    hide Add;
    hide Sum;
    NextLinear(Lead(c), Lead(d), O, O);
    EvLinear(r, Lead(c), Lead(d));
    EvLinear(r, Next(Lead(c), O), Next(Lead(d), O));
    PwLinear(r, Ev(r, Lead(c)), Ev(r, Lead(d)));
  }

  lemma HornerDoubled(r: nat, v: Vec, c: Gf)
    ensures Horner(r, Pw(924, v), Twice(c)) == Pw(924, Horner(r, v, c))
  {
    hide Pw;
    hide Xor;
    hide Embed;
    hide Twice;
    Doubles(c);
    PwAdd(r, 924, v);
    PwAdd(924, r, v);
    PwLinear(924, Pw(r, v), Embed(c));
  }

  lemma EvDoubled(r: nat, p: Poly)
    ensures Ev(r, Doubled(p)) == Pw(924, Ev(r, p))
  {
    hide Horner;
    hide Pw;
    hide Embed;
    hide Twice;
    Doubles(p.c0);
    var v0 := Embed(p.c0);
    HornerDoubled(r, v0, p.c1);
    var v1 := Horner(r, v0, p.c1);
    HornerDoubled(r, v1, p.c2);
    var v2 := Horner(r, v1, p.c2);
    HornerDoubled(r, v2, p.c3);
    var v3 := Horner(r, v2, p.c3);
    HornerDoubled(r, v3, p.c4);
    var v4 := Horner(r, v3, p.c4);
    HornerDoubled(r, v4, p.c5);
  }

  lemma NextDoubled(c: Gf)
    ensures Next(Lead(Twice(c)), O) == Doubled(Next(Lead(c), O))
  {
    hide AddMul;
    hide Twice;
    Commutes(Gf(29), c);
    Commutes(Gf(22), c);
    Commutes(Gf(20), c);
    Commutes(Gf(21), c);
    Commutes(Gf(18), c);
  }

  predicate CommutesAt(g: Gf, c: Gf) { AddMul(O, Twice(c), g) == Twice(AddMul(O, c, g)) }

  lemma CommutesAdd(g: Gf, c: Gf, d: Gf)
    requires CommutesAt(g, c) && CommutesAt(g, d)
    ensures CommutesAt(g, Add(c, d))
  {
    AddSelf(O);
    hide AddMul;
    hide Add;
    hide Twice;
    TwiceLinear(c, d);
    AddMulLinear(O, O, c, d, g);
    AddMulLinear(O, O, Twice(c), Twice(d), g);
    TwiceLinear(AddMul(O, c, g), AddMul(O, d, g));
  }

  lemma CommutesBasis(g: Gf)
    ensures CommutesAt(g, O) && CommutesAt(g, Gf(1)) && CommutesAt(g, Gf(2)) && CommutesAt(g, Gf(4))
    ensures CommutesAt(g, Gf(8)) && CommutesAt(g, Gf(16))
  {
    hide AddMul;
    EmbeddedBasis();
    TimesBasis(g);
    FifthPower(g);
  }

  lemma TimesBasis(g: Gf)
    ensures AddMul(O, O, g) == O && AddMul(O, Gf(1), g) == g && AddMul(O, Gf(2), g) == Twice(g)
    ensures AddMul(O, Gf(4), g) == Twice(Twice(g)) && AddMul(O, Gf(8), g) == Twice(Twice(Twice(g)))
    ensures AddMul(O, Gf(16), g) == Twice(Twice(Twice(Twice(g)))) && AddMul(O, Gf(9), g) == Add(g, Twice(Twice(Twice(g))))
  {
    hide Twice;
    hide Add;
    AddSelf(O);
    AddSelf(g);
    AddSelf(Twice(g));
    AddSelf(Twice(Twice(g)));
    AddSelf(Twice(Twice(Twice(g))));
    AddSelf(Twice(Twice(Twice(Twice(g)))));
    AddSelf(Add(g, Twice(Twice(Twice(g)))));
    BasisBits();
    hide Bit;
  }

  lemma BasisBits()
    ensures forall m :: !Bit(O, m)
    ensures Bit(Gf(1), 1) && !Bit(Gf(1), 2) && !Bit(Gf(1), 4) && !Bit(Gf(1), 8) && !Bit(Gf(1), 16)
    ensures !Bit(Gf(2), 1) && Bit(Gf(2), 2) && !Bit(Gf(2), 4) && !Bit(Gf(2), 8) && !Bit(Gf(2), 16)
    ensures !Bit(Gf(4), 1) && !Bit(Gf(4), 2) && Bit(Gf(4), 4) && !Bit(Gf(4), 8) && !Bit(Gf(4), 16)
    ensures !Bit(Gf(8), 1) && !Bit(Gf(8), 2) && !Bit(Gf(8), 4) && Bit(Gf(8), 8) && !Bit(Gf(8), 16)
    ensures !Bit(Gf(16), 1) && !Bit(Gf(16), 2) && !Bit(Gf(16), 4) && !Bit(Gf(16), 8) && Bit(Gf(16), 16)
    ensures Bit(Gf(9), 1) && !Bit(Gf(9), 2) && !Bit(Gf(9), 4) && Bit(Gf(9), 8) && !Bit(Gf(9), 16)
  {
  }

  /** a^5 is a^3 + 1. */
  lemma FifthPower(g: Gf)
    ensures Twice(Twice(Twice(Twice(Twice(g))))) == Add(g, Twice(Twice(Twice(g))))
  {
  }

  lemma Commutes(g: Gf, c: Gf)
    ensures CommutesAt(g, c)
  {
    hide CommutesAt;
    CommutesBasis(g);
    forall a, b | CommutesAt(g, a) && CommutesAt(g, b) ensures CommutesAt(g, Add(a, b)) { CommutesAdd(g, a, b); }
    Span(x => CommutesAt(g, x), c);
  }

  lemma RootTwice(r: nat, c: Gf)
    requires RootAt(r, c)
    ensures RootAt(r, Twice(c))
  {
    hide Pw;
    hide Ev;
    hide Next;
    NextDoubled(c);
    assert Twice(O) == O;
    assert Lead(Twice(c)) == Doubled(Lead(c));
    hide Twice;
    hide Doubled;
    EvDoubled(r, Lead(c));
    EvDoubled(r, Next(Lead(c), O));
    PwAdd(r, 924, Ev(r, Lead(c)));
    PwAdd(924, r, Ev(r, Lead(c)));
  }

  lemma Root(r: nat, c: Gf)
    requires RootAt(r, Gf(1))
    ensures RootAt(r, c)
  {
    hide RootAt;
    RootTwice(r, Gf(1));
    RootTwice(r, Gf(2));
    RootTwice(r, Gf(4));
    RootTwice(r, Gf(8));
    EmbeddedBasis();
    RootAdd(r, Gf(1), Gf(1));
    AddSelf(Gf(1));
    forall a, b | RootAt(r, a) && RootAt(r, b) ensures RootAt(r, Add(a, b)) { RootAdd(r, a, b); }
    Span(x => RootAt(r, x), c);
  }

  lemma RootProducts24()
    ensures Mul(Vec(1008), Vec(946)) == Vec(152) && Mul(Vec(1008), Vec(125)) == Vec(150)
    ensures Mul(Vec(1008), Vec(124)) == Vec(870) && Mul(Vec(1008), Vec(212)) == Vec(523)
    ensures Mul(Vec(1008), Vec(1008)) == Vec(589) && Mul(Vec(589), Vec(589)) == Vec(185) && Mul(Vec(185), Vec(589)) == Vec(698)
  {
  }

  lemma Root24()
    ensures RootAt(24, Gf(1))
  {
    hide Mul;
    hide Pw;
    hide Embed;
    hide Next;
    hide Xor;
    RootPowers();
    RootProducts24();
    Generator();
    Values();
    HornerAt(24, Vec(1008), Vec(946), Vec(152), Gf(22), Vec(229), Vec(125));
    HornerAt(24, Vec(1008), Vec(125), Vec(150), Gf(20), Vec(235), Vec(125));
    HornerAt(24, Vec(1008), Vec(125), Vec(150), Gf(21), Vec(234), Vec(124));
    HornerAt(24, Vec(1008), Vec(124), Vec(870), Gf(29), Vec(946), Vec(212));
    HornerAt(24, Vec(1008), Vec(212), Vec(523), Gf(18), Vec(177), Vec(698));
    Combine(24, 24, Vec(1008), Vec(1008));
    Combine(48, 48, Vec(589), Vec(589));
    Combine(96, 48, Vec(185), Vec(589));
    AtUnit(24);
  }

  lemma RootProducts25()
    ensures Mul(Vec(707), Vec(946)) == Vec(304) && Mul(Vec(707), Vec(469)) == Vec(838) && Mul(Vec(707), Vec(941)) == Vec(131)
    ensures Mul(Vec(707), Vec(105)) == Vec(109) && Mul(Vec(707), Vec(991)) == Vec(23)
    ensures Mul(Vec(707), Vec(707)) == Vec(882) && Mul(Vec(882), Vec(882)) == Vec(470) && Mul(Vec(470), Vec(882)) == Vec(166)
  {
  }

  lemma Root25()
    ensures RootAt(25, Gf(1))
  {
    hide Mul;
    hide Pw;
    hide Embed;
    hide Next;
    hide Xor;
    RootPowers();
    RootProducts25();
    Generator();
    Values();
    HornerAt(25, Vec(707), Vec(946), Vec(304), Gf(22), Vec(229), Vec(469));
    HornerAt(25, Vec(707), Vec(469), Vec(838), Gf(20), Vec(235), Vec(941));
    HornerAt(25, Vec(707), Vec(941), Vec(131), Gf(21), Vec(234), Vec(105));
    HornerAt(25, Vec(707), Vec(105), Vec(109), Gf(29), Vec(946), Vec(991));
    HornerAt(25, Vec(707), Vec(991), Vec(23), Gf(18), Vec(177), Vec(166));
    Combine(25, 25, Vec(707), Vec(707));
    Combine(50, 50, Vec(882), Vec(882));
    Combine(100, 50, Vec(470), Vec(882));
    AtUnit(25);
  }

  lemma RootProducts26()
    ensures Mul(Vec(165), Vec(946)) == Vec(608) && Mul(Vec(165), Vec(645)) == Vec(65) && Mul(Vec(165), Vec(170)) == Vec(477)
    ensures Mul(Vec(165), Vec(311)) == Vec(545) && Mul(Vec(165), Vec(403)) == Vec(41)
    ensures Mul(Vec(165), Vec(165)) == Vec(685) && Mul(Vec(685), Vec(685)) == Vec(938) && Mul(Vec(938), Vec(685)) == Vec(152)
  {
  }

  lemma Root26()
    ensures RootAt(26, Gf(1))
  {
    hide Mul;
    hide Pw;
    hide Embed;
    hide Next;
    hide Xor;
    RootPowers();
    RootProducts26();
    Generator();
    Values();
    HornerAt(26, Vec(165), Vec(946), Vec(608), Gf(22), Vec(229), Vec(645));
    HornerAt(26, Vec(165), Vec(645), Vec(65), Gf(20), Vec(235), Vec(170));
    HornerAt(26, Vec(165), Vec(170), Vec(477), Gf(21), Vec(234), Vec(311));
    HornerAt(26, Vec(165), Vec(311), Vec(545), Gf(29), Vec(946), Vec(403));
    HornerAt(26, Vec(165), Vec(403), Vec(41), Gf(18), Vec(177), Vec(152));
    Combine(26, 26, Vec(165), Vec(165));
    Combine(52, 52, Vec(685), Vec(685));
    Combine(104, 52, Vec(938), Vec(685));
    AtUnit(26);
  }

  lemma Generator()
    ensures Next(Lead(Gf(1)), O) == Poly(Gf(29), Gf(22), Gf(20), Gf(21), Gf(29), Gf(18))
  {
  }

  lemma Values()
    ensures Embed(Gf(29)) == Vec(946) && Embed(Gf(22)) == Vec(229) && Embed(Gf(20)) == Vec(235)
    ensures Embed(Gf(21)) == Vec(234) && Embed(Gf(18)) == Vec(177)
  {
  }

  lemma HornerAt(r: nat, e: Vec, x: Vec, y: Vec, c: Gf, f: Vec, z: Vec)
    requires Pw(r, UNIT) == e && Mul(e, x) == y && Embed(c) == f && z.bits == y.bits ^ f.bits
    ensures Horner(r, x, c) == z
  {
    hide Mul;
    hide Pw;
    hide Embed;
    PwIsMul(r, x);
  }

  /** The leading coefficient 1 times x^6 at y^r. */
  lemma AtUnit(r: nat)
    ensures Pw(r, Ev(r, Lead(Gf(1)))) == Pw(6 * r, UNIT)
  {
    hide Pw;
    hide Xor;
    hide Embed;
    EmbeddedBasis();
    XorNil(Pw(r, UNIT));
    PwAdd(r, r, UNIT);
    XorNil(Pw(r, Pw(r, UNIT)));
    PwAdd(r, 2 * r, UNIT);
    XorNil(Pw(r, Pw(2 * r, UNIT)));
    PwAdd(r, 3 * r, UNIT);
    XorNil(Pw(r, Pw(3 * r, UNIT)));
    PwAdd(r, 4 * r, UNIT);
    XorNil(Pw(r, Pw(4 * r, UNIT)));
    PwAdd(r, 5 * r, UNIT);
  }

  //
  // Remainders and their values at a root.
  //

  lemma EvShift(r: nat, b: Gf, c: Gf, d: Gf, e: Gf, f: Gf, v: Gf)
    ensures Horner(r, Ev(r, Poly(O, b, c, d, e, f)), v) == Ev(r, Poly(b, c, d, e, f, v))
  {
    hide Pw;
    hide Xor;
    hide Embed;
    EmbeddedBasis();
    PwNil(r);
    XorNil(Embed(b));
  }

  /** At a root, appending a coefficient multiplies the value and adds the coefficient. */
  lemma EvNext(r: nat, p: Poly, v: Gf)
    requires RootAt(r, Gf(1))
    ensures Ev(r, Next(p, v)) == Horner(r, Ev(r, p), v)
  {
    var rest, lead := Poly(O, p.c1, p.c2, p.c3, p.c4, p.c5), Lead(p.c0);
    SplitLead(p, v);
    hide Pw;
    hide Xor;
    hide Embed;
    hide Add;
    hide Sum;
    hide Next;
    hide Ev;
    NextLinear(rest, lead, v, O);
    NextShort(p.c1, p.c2, p.c3, p.c4, p.c5, v);
    EvLinear(r, Next(rest, v), Next(lead, O));
    EvLinear(r, rest, lead);
    Root(r, p.c0);
    HornerLinear(r, Ev(r, rest), Ev(r, lead), v, O);
    EvShift(r, p.c1, p.c2, p.c3, p.c4, p.c5, v);
    EmbeddedBasis();
    XorNil(Pw(r, Ev(r, lead)));
  }

  lemma SplitLead(p: Poly, v: Gf)
    ensures p == Sum(Poly(O, p.c1, p.c2, p.c3, p.c4, p.c5), Lead(p.c0)) && v == Add(v, O)
  {
    hide Add;
    AddSelf(p.c0);
    AddSelf(p.c1);
    AddSelf(p.c2);
    AddSelf(p.c3);
    AddSelf(p.c4);
    AddSelf(p.c5);
    AddSelf(v);
  }

  function Run(r: nat, x: Vec, vs: seq<Gf>): Vec
    decreases |vs|
  {
    if vs == [] then x else Run(r, Horner(r, x, vs[0]), vs[1..])
  }

  lemma {:induction false} EvRem(r: nat, p: Poly, vs: seq<Gf>)
    requires RootAt(r, Gf(1))
    ensures Ev(r, Rem(p, vs)) == Run(r, Ev(r, p), vs)
    decreases |vs|
  {
    hide RootAt;
    hide Next;
    hide Ev;
    hide Horner;
    if vs != [] {
      EvNext(r, p, vs[0]);
      EvRem(r, Next(p, vs[0]), vs[1..]);
    }
  }

  lemma {:induction false} RunCat(r: nat, x: Vec, u: seq<Gf>, v: seq<Gf>)
    ensures Run(r, x, u + v) == Run(r, Run(r, x, u), v)
    decreases |u|
  {
    hide Horner;
    if u == [] {
      assert u + v == v;
    } else {
      assert (u + v)[0] == u[0] && (u + v)[1..] == u[1..] + v;
      RunCat(r, Horner(r, x, u[0]), u[1..], v);
    }
  }

  lemma {:induction false} RunZeros(r: nat, x: Vec, n: nat)
    ensures Run(r, x, Zeros(n)) == Pw(r * n, x)
    decreases n
  {
    hide Pw;
    hide Xor;
    hide Embed;
    if n == 0 {
      PwNone(r * n, x);
    } else {
      assert Zeros(n)[0] == O && Zeros(n)[1..] == Zeros(n - 1);
      EmbeddedBasis();
      XorNil(Pw(r, x));
      RunZeros(r, Pw(r, x), n - 1);
      PwAdd(r * (n - 1), r, x);
      assert r * (n - 1) + r == r * n;
    }
  }

  /** m - 1 zeros and then a coefficient. */
  function Gap(m: nat, c: Gf): seq<Gf>
    requires m >= 1
  {
    Zeros(m - 1) + [c]
  }

  lemma RunGap(r: nat, x: Vec, m: nat, c: Gf)
    requires m >= 1
    ensures Run(r, x, Gap(m, c)) == Xor(Pw(r * m, x), Embed(c))
  {
    hide Pw;
    hide Xor;
    hide Embed;
    RunCat(r, x, Zeros(m - 1), [c]);
    RunZeros(r, x, m - 1);
    var y := Pw(r * (m - 1), x);
    assert Run(r, y, [c]) == Horner(r, y, c);
    PwAdd(r, r * (m - 1), x);
    assert r + r * (m - 1) == r * m;
  }

  function Window(e: Gf, m: nat, f: Gf, n: nat, g: Gf): seq<Gf>
    requires m >= 1 && n >= 1
  {
    Gap(1, e) + Gap(m, f) + Gap(n, g)
  }

  lemma RunWindow(r: nat, e: Gf, m: nat, f: Gf, n: nat, g: Gf)
    requires m >= 1 && n >= 1
    ensures Run(r, NIL, Window(e, m, f, n, g)) == Xor(Pw(r * (m + n), Embed(e)), Xor(Pw(r * n, Embed(f)), Embed(g)))
  {
    hide Pw;
    hide Xor;
    hide Embed;
    hide Run;
    hide Gap;
    RunCat(r, NIL, Gap(1, e) + Gap(m, f), Gap(n, g));
    RunCat(r, NIL, Gap(1, e), Gap(m, f));
    RunGap(r, NIL, 1, e);
    PwNil(r * 1);
    XorNil(Embed(e));
    RunGap(r, Embed(e), m, f);
    var x := Pw(r * m, Embed(e));
    RunGap(r, Xor(x, Embed(f)), n, g);
    PwLinear(r * n, x, Embed(f));
    PwAdd(r * n, r * m, Embed(e));
    assert r * n + r * m == r * (m + n);
    XorAssoc(Pw(r * n, x), Pw(r * n, Embed(f)), Embed(g));
  }

  lemma XorAssoc(a: Vec, b: Vec, c: Vec)
    ensures Xor(Xor(a, b), c) == Xor(a, Xor(b, c))
  {
  }

  lemma ZeroAt(r: nat, w: seq<Gf>)
    requires RootAt(r, Gf(1)) && Rem(ZERO, w) == ZERO
    ensures Run(r, NIL, w) == NIL
  {
    hide RootAt;
    hide Rem;
    hide Run;
    hide Pw;
    hide Xor;
    hide Embed;
    EvRem(r, ZERO, w);
    EmbeddedBasis();
    PwNil(r);
    XorNil(NIL);
  }

  /** Three errors within 1023 symbols do not cancel. */
  lemma WindowZero(e: Gf, m: nat, f: Gf, n: nat, g: Gf)
    requires m >= 1 && n >= 1 && m + n < 1023 && Rem(ZERO, Window(e, m, f, n, g)) == ZERO
    ensures e == f == g == O
  {
    hide RootAt;
    hide Rem;
    hide Run;
    hide Pw;
    hide Xor;
    hide Embed;
    hide Window;
    var w := Window(e, m, f, n, g);
    Root24();
    Root25();
    Root26();
    ZeroAt(24, w);
    ZeroAt(25, w);
    ZeroAt(26, w);
    RunWindow(24, e, m, f, n, g);
    RunWindow(25, e, m, f, n, g);
    RunWindow(26, e, m, f, n, g);
    var a := m + n;
    var u, v := Pw(24 * a, Embed(e)), Pw(24 * n, Embed(f));
    PwAdd(a, 24 * a, Embed(e));
    PwAdd(n, 24 * n, Embed(f));
    PwAdd(2 * a, 24 * a, Embed(e));
    PwAdd(2 * n, 24 * n, Embed(f));
    PwNone(0, Embed(g));
    ThreeTerms(a, n, u, v, Embed(g));
    PwNil(24 * a);
    PwInjective(24 * a, Embed(e), NIL);
    PwNil(24 * n);
    PwInjective(24 * n, Embed(f), NIL);
    EmbedInjective(e);
    EmbedInjective(f);
    EmbedInjective(g);
  }

  lemma WindowAt(e: Gf, m: nat, f: Gf, n: nat, g: Gf, l: nat)
    requires m >= 1 && n >= 1 && l <= m + n
    ensures |Window(e, m, f, n, g)| == m + n + 1
    ensures Window(e, m, f, n, g)[l] == if l == 0 then e else if l == m then f else if l == m + n then g else O
  {
  }

  lemma DifferenceIsWindow(x: seq<Gf>, y: seq<Gf>, m: nat, n: nat)
    requires m >= 1 && n >= 1 && |x| == |y| == m + n + 1
    requires forall l :: 0 < l < m + n && l != m ==> x[l] == y[l]
    ensures Plus(x, y) == Window(Add(x[0], y[0]), m, Add(x[m], y[m]), n, Add(x[m + n], y[m + n]))
  {
    hide Window;
    hide Add;
    var e, f, g := Add(x[0], y[0]), Add(x[m], y[m]), Add(x[m + n], y[m + n]);
    WindowAt(e, m, f, n, g, 0);
    forall l | 0 <= l <= m + n ensures Plus(x, y)[l] == Window(e, m, f, n, g)[l] {
      WindowAt(e, m, f, n, g, l);
      AddSelf(x[l]);
    }
  }

  lemma ThreeInWindow(x: seq<Gf>, y: seq<Gf>, m: nat, n: nat)
    requires m >= 1 && n >= 1 && m + n < 1023 && |x| == |y| == m + n + 1
    requires forall l :: 0 < l < m + n && l != m ==> x[l] == y[l]
    requires Rem(ZERO, Plus(x, y)) == ZERO
    ensures x == y
  {
    hide Rem;
    hide Window;
    hide Add;
    DifferenceIsWindow(x, y, m, n);
    WindowZero(Add(x[0], y[0]), m, Add(x[m], y[m]), n, Add(x[m + n], y[m + n]));
    SameSymbol(x[0], y[0]);
    SameSymbol(x[m], y[m]);
    SameSymbol(x[m + n], y[m + n]);
  }

  /** Strings that differ in at most three places within 1023 symbols have the same remainder only if equal. */
  lemma ThreeErrors(p: Poly, x: seq<Gf>, y: seq<Gf>, i: nat, j: nat, k: nat)
    requires |x| == |y| && i < j < k < |x| && k - i < 1023
    requires forall l :: 0 <= l < |x| && l != i && l != j && l != k ==> x[l] == y[l]
    requires Rem(p, x) == Rem(p, y)
    ensures x == y
  {
    hide Rem;
    hide Plus;
    var wx, wy := x[i..k + 1], y[i..k + 1];
    Cut(x, x, i, k);
    Cut(x, y, i, k);
    WindowCancels(p, x[..i], wx, wy, x[k + 1..]);
    forall l | 0 < l < k - i && l != j - i ensures wx[l] == wy[l] {
      assert wx[l] == x[i + l] && wy[l] == y[i + l];
    }
    ThreeInWindow(wx, wy, j - i, k - j);
  }

  lemma Cut(x: seq<Gf>, y: seq<Gf>, i: nat, k: nat)
    requires |x| == |y| && i <= k < |x|
    requires forall l :: 0 <= l < i || k < l < |x| ==> x[l] == y[l]
    ensures y == x[..i] + y[i..k + 1] + x[k + 1..]
  {
  }

  lemma SameSymbol(a: Gf, b: Gf)
    requires Add(a, b) == O
    ensures a == b
  {
    Cancels(a, b, O);
    AddSelf(a);
  }
}
