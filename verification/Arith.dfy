/** Powers of two, bitwise or, and numbers in little-endian base 2^32. */
module Arith {

  const BASE: int := 0x1_0000_0000

  type uint32 = x: int | 0 <= x < 0x1_0000_0000

  function Pow2(k: nat): (r: nat)
    ensures r >= 1
  {
    if k == 0 then 1 else 2 * Pow2(k - 1)
  }

  lemma Assoc(c: int, x: int, y: int)
    ensures c * (x * y) == (c * x) * y
  {
  }

  lemma {:induction false} Pow2Add(a: nat, b: nat)
    ensures Pow2(a + b) == Pow2(a) * Pow2(b)
  {
    if a > 0 {
      Pow2Add(a - 1, b);
      Assoc(2, Pow2(a - 1), Pow2(b));
    }
  }

  lemma {:induction false} Pow2Monotone(a: nat, b: nat)
    requires a <= b
    ensures Pow2(a) <= Pow2(b)
  {
    if a < b {
      Pow2Monotone(a, b - 1);
    }
  }

  lemma Pow2Is16()
    ensures Pow2(8) == 256 && Pow2(16) == 65536
  {
    assert Pow2(4) == 16;
    Pow2Add(4, 4);
    Pow2Add(8, 8);
  }

  lemma Pow2Is32()
    ensures Pow2(32) == BASE && Pow2(31) == BASE / 2
  {
    Pow2Is16();
    Pow2Add(16, 16);
    assert Pow2(32) == 2 * Pow2(31);
  }

  /** The weight of limb i. */
  function W(i: nat): (r: nat)
    ensures r >= 1
  {
    if i == 0 then 1 else BASE * W(i - 1)
  }

  lemma {:induction false} WIsPow2(i: nat)
    ensures W(i) == Pow2(32 * i)
  {
    if i > 0 {
      WIsPow2(i - 1);
      Pow2Is32();
      Pow2Add(32, 32 * (i - 1));
    }
  }

  lemma {:induction false} WAdd(a: nat, b: nat)
    ensures W(a + b) == W(a) * W(b)
  {
    if a > 0 {
      WAdd(a - 1, b);
      Assoc(BASE, W(a - 1), W(b));
    }
  }

  //
  // Numbers.
  //

  /** The value of a sequence of limbs, least significant first. */
  function Val(s: seq<uint32>): (r: nat) {
    if s == [] then 0
    else
      var n := |s| - 1;
      NonNegative(s[n], W(n));
      Val(s[..n]) + s[n] * W(n)
  }

  lemma NonNegative(a: nat, b: nat)
    ensures a * b >= 0
  {
  }

  lemma ValPrefix(s: seq<uint32>, i: nat)
    requires i < |s|
    ensures Val(s[..i + 1]) == Val(s[..i]) + s[i] * W(i)
  {
    var t := s[..i + 1];
    assert t[..|t| - 1] == s[..i];
  }

  lemma {:induction false} ValBound(s: seq<uint32>)
    ensures Val(s) < W(|s|)
  {
    if s != [] {
      var n := |s| - 1;
      ValBound(s[..n]);
      MulMono(s[n], BASE - 1, W(n));
      assert (BASE - 1) * W(n) == BASE * W(n) - W(n);
    }
  }

  function Times(a: nat, b: nat): (r: nat)
    ensures r == a * b
  {
    NonNegative(a, b);
    a * b
  }

  lemma MulMono(a: int, b: int, c: nat)
    requires a <= b
    ensures a * c <= b * c
  {
  }

  lemma MulStrict(a: int, b: int, c: nat)
    requires a < b
    ensures a * c + c <= b * c
  {
    MulMono(a + 1, b, c);
    assert (a + 1) * c == a * c + c;
  }

  /** Splitting a number between limbs. */
  lemma {:induction false} ValSplit(s: seq<uint32>, i: nat)
    requires i <= |s|
    ensures Val(s) == Val(s[..i]) + Val(s[i..]) * W(i)
  {
    if i == |s| {
      assert s[..i] == s && s[i..] == [];
    } else {
      var n := |s| - 1;
      ValSplit(s[..n], i);
      assert s[..n][..i] == s[..i];
      var hi := s[i..];
      assert hi[..|hi| - 1] == s[..n][i..] && hi[|hi| - 1] == s[n];
      var m := n - i;
      WAdd(m, i);
      var v, x := Val(s[..n][i..]), s[n];
      Distribute(v, x, W(m), W(i));
    }
  }

  lemma Distribute(v: int, x: int, m: int, i: int)
    ensures (v + x * m) * i == v * i + x * (m * i)
  {
  }

  /** One limb changed. */
  lemma {:induction false} ValUpdate(s: seq<uint32>, i: nat, x: uint32)
    requires i < |s|
    ensures Val(s[i := x]) == Val(s) + (x - s[i]) * W(i)
  {
    var n := |s| - 1;
    if i == n {
      assert s[i := x][..n] == s[..n];
      assert (x - s[i]) * W(i) == x * W(i) - s[i] * W(i);
    } else {
      assert s[i := x][..n] == s[..n][i := x];
      ValUpdate(s[..n], i, x);
    }
  }

  lemma {:induction false} ValZero(s: seq<uint32>)
    requires forall i :: 0 <= i < |s| ==> s[i] == 0
    ensures Val(s) == 0
  {
    if s != [] {
      ValZero(s[..|s| - 1]);
    }
  }

  /** A number below the modulus that differs from x by a multiple of it is x modulo it. */
  lemma ModUnique(v: nat, k: int, m: nat, x: int)
    requires v < m && v + k * m == x
    ensures v == x % m
  {
    var q := x / m;
    var r := x % m;
    assert x == q * m + r;
    if k < q {
      MulStrict(k, q, m);
    } else if k > q {
      MulStrict(q, k, m);
    }
  }

  lemma DivUnique(q: nat, r: nat, d: nat, x: nat)
    requires r < d && x == q * d + r
    ensures q == x / d && r == x % d
  {
    var q' := x / d;
    var r' := x % d;
    assert x == q' * d + r';
    if q < q' {
      MulStrict(q, q', d);
    } else if q > q' {
      MulStrict(q', q, d);
    }
  }

  lemma Euclid(x: int, d: nat)
    requires d >= 1
    ensures x == (x / d) * d + x % d && 0 <= x % d < d
  {
  }

  lemma DivAtMost(x: nat, d: nat)
    requires d >= 1
    ensures 0 <= x / d <= x
  {
    Euclid(x, d);
    if x / d < 0 {
      MulMono(x / d, -1, d);
    } else {
      MulMono(1, d, x / d);
    }
  }

  function Quot(x: nat, d: nat): (r: nat)
    requires d >= 1
    ensures r == x / d <= x
  {
    DivAtMost(x, d);
    x / d
  }

  lemma Within(x: nat, m: nat)
    requires x < m
    ensures x % m == x
  {
  }

  /** The low limb and the carry of an accumulator. */
  lemma Carry(n: nat, w: nat)
    ensures (n % BASE) * w + (n / BASE) * (BASE * w) == n * w
  {
    var lo, hi := n % BASE, n / BASE;
    assert n == lo + BASE * hi;
    assert (lo + BASE * hi) * w == lo * w + hi * (BASE * w);
  }

  //
  // Bitwise or.
  //

  function Or(x: nat, y: nat): (r: nat)
    decreases x + y
  {
    if x == 0 && y == 0 then 0
    else (if x % 2 == 1 || y % 2 == 1 then 1 else 0) + 2 * Or(x / 2, y / 2)
  }

  lemma {:induction false} OrZero(y: nat)
    ensures Or(0, y) == y == Or(y, 0)
  {
    if y > 0 {
      OrZero(y / 2);
    }
  }

  /** Numbers without a common bit: one a multiple of 2^k, the other below it. */
  lemma {:induction false} OrDisjoint(m: nat, y: nat, k: nat)
    requires y < Pow2(k)
    ensures Or(m * Pow2(k), y) == m * Pow2(k) + y == Or(y, m * Pow2(k))
  {
    if k == 0 {
      OrZero(m);
    } else {
      var p := Pow2(k - 1);
      assert m * (2 * p) == 2 * (m * p);
      OrDisjoint(m, y / 2, k - 1);
      var x := m * Pow2(k);
      assert x / 2 == m * p && x % 2 == 0;
      if x == 0 && y == 0 {
        OrZero(0);
      }
    }
  }
}
