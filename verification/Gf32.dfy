/**
The arithmetic behind the Bech32 checksum (src/bech32.cpp:37-94): GF(32) as polynomials
modulo a^5 + a^3 + 1, and remainders of polynomials over GF(32) modulo the generator
x^6 + {29}x^5 + {22}x^4 + {20}x^3 + {21}x^2 + {29}x + {18}.
*/
module Gf32 {

  //
  // The field.
  //

  datatype Gf = Gf(bits: bv5)

  const O: Gf := Gf(0)

  function Add(a: Gf, b: Gf): Gf { Gf(a.bits ^ b.bits) }

  function Twice(g: Gf): Gf {
    Gf(if g.bits & 16 != 0 then (g.bits << 1) ^ 9 else g.bits << 1)
  }

  predicate Bit(k: Gf, m: bv5) { k.bits & m != 0 }

  function Select(b: bool, g: Gf): Gf { if b then g else O }

  /** x + k*g, by doubling g and adding a term for each bit of k. */
  function AddMul(x: Gf, k: Gf, g: Gf): Gf {
    var g1 := Twice(g);
    var g2 := Twice(g1);
    var g3 := Twice(g2);
    var g4 := Twice(g3);
    Add(Add(Add(Add(Add(x, Select(Bit(k, 1), g)), Select(Bit(k, 2), g1)), Select(Bit(k, 4), g2)), Select(Bit(k, 8), g3)),
        Select(Bit(k, 16), g4))
  }

  lemma BitAdd(k: Gf, l: Gf)
    ensures Bit(Add(k, l), 1) == (Bit(k, 1) != Bit(l, 1))
    ensures Bit(Add(k, l), 2) == (Bit(k, 2) != Bit(l, 2))
    ensures Bit(Add(k, l), 4) == (Bit(k, 4) != Bit(l, 4))
    ensures Bit(Add(k, l), 8) == (Bit(k, 8) != Bit(l, 8))
    ensures Bit(Add(k, l), 16) == (Bit(k, 16) != Bit(l, 16))
  {
  }

  lemma SelectAdd(a: bool, b: bool, g: Gf)
    ensures Select(a != b, g) == Add(Select(a, g), Select(b, g))
  {
  }

  lemma Exchange(a: Gf, b: Gf, c: Gf, d: Gf)
    ensures Add(Add(a, b), Add(c, d)) == Add(Add(a, c), Add(b, d))
  {
  }

  lemma TermLinear(x: Gf, y: Gf, a: bool, b: bool, g: Gf)
    ensures Add(Add(x, y), Select(a != b, g)) == Add(Add(x, Select(a, g)), Add(y, Select(b, g)))
  {
    hide Add;
    hide Select;
    SelectAdd(a, b, g);
    Exchange(x, y, Select(a, g), Select(b, g));
  }

  /** Multiplying by a fixed g and adding is linear. */
  lemma AddMulLinear(x: Gf, y: Gf, k: Gf, l: Gf, g: Gf)
    ensures AddMul(Add(x, y), Add(k, l), g) == Add(AddMul(x, k, g), AddMul(y, l, g))
  {
    hide Add;
    hide Select;
    hide Bit;
    hide Twice;
    BitAdd(k, l);
    var g1 := Twice(g);
    var g2 := Twice(g1);
    var g3 := Twice(g2);
    var g4 := Twice(g3);
    TermLinear(x, y, Bit(k, 1), Bit(l, 1), g);
    var x1, y1 := Add(x, Select(Bit(k, 1), g)), Add(y, Select(Bit(l, 1), g));
    TermLinear(x1, y1, Bit(k, 2), Bit(l, 2), g1);
    var x2, y2 := Add(x1, Select(Bit(k, 2), g1)), Add(y1, Select(Bit(l, 2), g1));
    TermLinear(x2, y2, Bit(k, 4), Bit(l, 4), g2);
    var x3, y3 := Add(x2, Select(Bit(k, 4), g2)), Add(y2, Select(Bit(l, 4), g2));
    TermLinear(x3, y3, Bit(k, 8), Bit(l, 8), g3);
    var x4, y4 := Add(x3, Select(Bit(k, 8), g3)), Add(y3, Select(Bit(l, 8), g3));
    TermLinear(x4, y4, Bit(k, 16), Bit(l, 16), g4);
  }

  //
  // Remainders: polynomials of degree at most five, highest coefficient first.
  //

  datatype Poly = Poly(c0: Gf, c1: Gf, c2: Gf, c3: Gf, c4: Gf, c5: Gf)

  function Doubled(p: Poly): Poly {
    Poly(Twice(p.c0), Twice(p.c1), Twice(p.c2), Twice(p.c3), Twice(p.c4), Twice(p.c5))
  }

  const ZERO: Poly := Poly(O, O, O, O, O, O)

  const ONE: Poly := Poly(O, O, O, O, O, Gf(1))

  function Sum(p: Poly, q: Poly): Poly {
    Poly(Add(p.c0, q.c0), Add(p.c1, q.c1), Add(p.c2, q.c2), Add(p.c3, q.c3), Add(p.c4, q.c4), Add(p.c5, q.c5))
  }

  lemma SumZero(p: Poly, q: Poly)
    ensures Sum(p, ZERO) == p == Sum(ZERO, p)
    ensures Sum(p, q) == ZERO <==> p == q
  {
  }

  lemma SumCancels(p: Poly, q: Poly, r: Poly)
    ensures Sum(p, q) == r <==> q == Sum(p, r)
  {
    Cancels(p.c0, q.c0, r.c0);
    Cancels(p.c1, q.c1, r.c1);
    Cancels(p.c2, q.c2, r.c2);
    Cancels(p.c3, q.c3, r.c3);
    Cancels(p.c4, q.c4, r.c4);
    Cancels(p.c5, q.c5, r.c5);
  }

  lemma Cancels(a: Gf, b: Gf, c: Gf)
    ensures Add(a, b) == c <==> b == Add(a, c)
  {
  }

  /** p(x)*x + v modulo the generator. */
  function Next(p: Poly, v: Gf): Poly {
    var k := p.c0;
    Poly(AddMul(p.c1, k, Gf(29)), AddMul(p.c2, k, Gf(22)), AddMul(p.c3, k, Gf(20)), AddMul(p.c4, k, Gf(21)), AddMul(p.c5, k, Gf(29)),
         AddMul(v, k, Gf(18)))
  }

  lemma NextLinear(p: Poly, q: Poly, v: Gf, w: Gf)
    ensures Next(Sum(p, q), Add(v, w)) == Sum(Next(p, v), Next(q, w))
  {
    hide Add;
    hide AddMul;
    AddMulLinear(p.c1, q.c1, p.c0, q.c0, Gf(29));
    AddMulLinear(p.c2, q.c2, p.c0, q.c0, Gf(22));
    AddMulLinear(p.c3, q.c3, p.c0, q.c0, Gf(20));
    AddMulLinear(p.c4, q.c4, p.c0, q.c0, Gf(21));
    AddMulLinear(p.c5, q.c5, p.c0, q.c0, Gf(29));
    AddMulLinear(v, w, p.c0, q.c0, Gf(18));
  }

  /** The generator does not vanish at zero, so multiplying by x loses nothing. */
  lemma NextInjective(p: Poly)
    requires Next(p, O) == ZERO
    ensures p == ZERO
  {
    assert AddMul(O, p.c0, Gf(18)) == O;
    LowTerm(p.c0);
    assert p.c0 == O;
    NoTerm(p.c1, Gf(29));
    NoTerm(p.c2, Gf(22));
    NoTerm(p.c3, Gf(20));
    NoTerm(p.c4, Gf(21));
    NoTerm(p.c5, Gf(29));
  }

  lemma LowTerm(k: Gf)
    requires AddMul(O, k, Gf(18)) == O
    ensures k == O
  {
  }

  lemma NoTerm(x: Gf, g: Gf)
    ensures AddMul(x, O, g) == x
  {
  }

  /** The remainder after further coefficients. */
  function Rem(p: Poly, vs: seq<Gf>): Poly
    decreases |vs|
  {
    if vs == [] then p else Rem(Next(p, vs[0]), vs[1..])
  }

  lemma {:induction false} RemCat(p: Poly, u: seq<Gf>, v: seq<Gf>)
    ensures Rem(p, u + v) == Rem(Rem(p, u), v)
    decreases |u|
  {
    hide Next;
    if u == [] {
      assert u + v == v;
    } else {
      assert (u + v)[0] == u[0] && (u + v)[1..] == u[1..] + v;
      RemCat(Next(p, u[0]), u[1..], v);
    }
  }

  function Plus(u: seq<Gf>, v: seq<Gf>): (r: seq<Gf>)
    requires |u| == |v|
    ensures |r| == |u|
  {
    seq(|u|, i requires 0 <= i < |u| => Add(u[i], v[i]))
  }

  function Zeros(n: nat): (r: seq<Gf>)
    ensures |r| == n
  {
    seq(n, i => O)
  }

  lemma {:induction false} RemLinear(p: Poly, q: Poly, u: seq<Gf>, v: seq<Gf>)
    requires |u| == |v|
    ensures Rem(Sum(p, q), Plus(u, v)) == Sum(Rem(p, u), Rem(q, v))
    decreases |u|
  {
    hide Next;
    hide Sum;
    hide Add;
    if u != [] {
      NextLinear(p, q, u[0], v[0]);
      assert Plus(u, v)[1..] == Plus(u[1..], v[1..]);
      RemLinear(Next(p, u[0]), Next(q, v[0]), u[1..], v[1..]);
    }
  }

  /** Zero coefficients keep a zero remainder zero, and no other becomes zero. */
  lemma {:induction false} RemZeros(p: Poly, n: nat)
    ensures Rem(p, Zeros(n)) == ZERO <==> p == ZERO
    decreases n
  {
    hide AddMul;
    if n > 0 {
      var z := Zeros(n);
      assert z[1..] == Zeros(n - 1);
      RemZeros(Next(p, O), n - 1);
      if Next(p, O) == ZERO {
        NextInjective(p);
      }
      if p == ZERO {
        NextZero();
      }
    }
  }

  lemma NextZero()
    ensures Next(ZERO, O) == ZERO
  {
    hide Next;
    NextShort(O, O, O, O, O, O);
  }

  /** Coefficients appended to two remainders keep them apart. */
  lemma RemInjective(p: Poly, q: Poly, vs: seq<Gf>)
    requires Rem(p, vs) == Rem(q, vs)
    ensures p == q
  {
    hide Next;
    RemLinear(p, q, vs, vs);
    assert Plus(vs, vs) == Zeros(|vs|) by {
      forall i | 0 <= i < |vs| ensures Add(vs[i], vs[i]) == O { AddSelf(vs[i]); }
    }
    SumZero(Rem(p, vs), Rem(q, vs));
    RemZeros(Sum(p, q), |vs|);
    SumZero(p, q);
  }

  lemma AddSelf(a: Gf)
    ensures Add(a, a) == O && Add(a, O) == a == Add(O, a)
  {
  }

  lemma RemFirst(p: Poly, vs: seq<Gf>, i: nat)
    requires i < |vs|
    ensures Rem(p, vs[i..]) == Rem(Next(p, vs[i]), vs[i + 1..])
  {
    hide Next;
    assert vs[i..][1..] == vs[i + 1..];
  }

  function Six(vs: seq<Gf>): Poly
    requires |vs| == 6
  {
    Poly(vs[0], vs[1], vs[2], vs[3], vs[4], vs[5])
  }

  /** Six coefficients after zero are the remainder itself. */
  lemma RemSix(p: Poly, vs: seq<Gf>)
    requires p == ZERO && |vs| == 6
    ensures Rem(p, vs) == Six(vs)
  {
    hide Next;
    hide Rem;
    var p1 := Poly(O, O, O, O, O, vs[0]);
    var p2 := Poly(O, O, O, O, vs[0], vs[1]);
    var p3 := Poly(O, O, O, vs[0], vs[1], vs[2]);
    var p4 := Poly(O, O, vs[0], vs[1], vs[2], vs[3]);
    var p5 := Poly(O, vs[0], vs[1], vs[2], vs[3], vs[4]);
    var p6 := Poly(vs[0], vs[1], vs[2], vs[3], vs[4], vs[5]);
    NextShort(O, O, O, O, O, vs[0]);
    RemFirst(p, vs, 0);
    NextShort(O, O, O, O, vs[0], vs[1]);
    RemFirst(p1, vs, 1);
    NextShort(O, O, O, vs[0], vs[1], vs[2]);
    RemFirst(p2, vs, 2);
    NextShort(O, O, vs[0], vs[1], vs[2], vs[3]);
    RemFirst(p3, vs, 3);
    NextShort(O, vs[0], vs[1], vs[2], vs[3], vs[4]);
    RemFirst(p4, vs, 4);
    NextShort(vs[0], vs[1], vs[2], vs[3], vs[4], vs[5]);
    RemFirst(p5, vs, 5);
    assert vs[0..] == vs && vs[6..] == [];
    RemNone(p6);
  }

  lemma RemNone(p: Poly)
    ensures Rem(p, []) == p
  {
  }

  lemma NextShort(b: Gf, c: Gf, d: Gf, e: Gf, f: Gf, v: Gf)
    ensures Next(Poly(O, b, c, d, e, f), v) == Poly(b, c, d, e, f, v)
  {
    NoTerm(b, Gf(29));
    NoTerm(c, Gf(22));
    NoTerm(d, Gf(20));
    NoTerm(e, Gf(21));
    NoTerm(f, Gf(29));
    NoTerm(v, Gf(18));
  }

  /** A burst of at most six symbols whose remainder is zero is all zero. */
  lemma BurstZero(p: Poly, w: seq<Gf>)
    requires p == ZERO && |w| <= 6 && Rem(p, w) == ZERO
    ensures w == Zeros(|w|)
  {
    hide Rem;
    var z := Zeros(6 - |w|);
    RemZeros(p, |z|);
    RemCat(p, z, w);
    var vs := z + w;
    RemSix(p, vs);
    forall i | 0 <= i < |w| ensures w[i] == O {
      assert w[i] == vs[i + |z|];
    }
  }

  /** Where strings differ only in a window and have the same remainder, the differences have none. */
  lemma WindowCancels(p: Poly, before: seq<Gf>, w: seq<Gf>, w': seq<Gf>, after: seq<Gf>)
    requires |w| == |w'|
    requires Rem(p, before + w + after) == Rem(p, before + w' + after)
    ensures Rem(ZERO, Plus(w, w')) == ZERO
  {
    hide Next;
    var q := Rem(p, before);
    RemCat(p, before + w, after);
    RemCat(p, before, w);
    RemCat(p, before + w', after);
    RemCat(p, before, w');
    RemInjective(Rem(q, w), Rem(q, w'), after);
    RemLinear(q, q, w, w');
    SumZero(q, q);
    SumZero(Rem(q, w), Rem(q, w'));
  }

  /** Strings that agree outside a window of at most six symbols have the same remainder only if equal. */
  lemma BurstDetected(p: Poly, before: seq<Gf>, w: seq<Gf>, w': seq<Gf>, after: seq<Gf>)
    requires |w| == |w'| <= 6
    requires Rem(p, before + w + after) == Rem(p, before + w' + after)
    ensures w == w'
  {
    hide Rem;
    WindowCancels(p, before, w, w', after);
    BurstZero(ZERO, Plus(w, w'));
    PlusZero(w, w');
  }

  lemma PlusZero(u: seq<Gf>, v: seq<Gf>)
    requires |u| == |v|
    requires Plus(u, v) == Zeros(|u|)
    ensures u == v
  {
    forall i | 0 <= i < |u| ensures u[i] == v[i] {
      assert Plus(u, v)[i] == Zeros(|u|)[i];
      Cancels(u[i], v[i], O);
      AddSelf(u[i]);
    }
  }

  /** Six symbols xored into six trailing zeros are added to the remainder. */
  lemma RemTrailing(p: Poly, vs: seq<Gf>)
    requires |vs| == 6
    ensures Rem(p, vs) == Sum(Rem(p, Zeros(6)), Six(vs))
  {
    hide Next;
    RemLinear(p, ZERO, Zeros(6), vs);
    SumZero(p, ZERO);
    assert Plus(Zeros(6), vs) == vs by {
      forall i | 0 <= i < 6 ensures Add(Zeros(6)[i], vs[i]) == vs[i] { AddSelf(vs[i]); }
    }
    RemSix(ZERO, vs);
  }
}
