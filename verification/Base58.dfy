/**
Base58 (src/base58.cpp:16-95): a change of base between bytes and 58 characters that keeps
leading zeroes, in buffers whose sizes are linear estimates of the number of digits.
*/
module Base58 {
  import opened Arith
  import opened Common

  //
  // Powers.
  //

  function Pow(b: nat, e: nat): nat {
    if e == 0 then 1 else Times(b, Pow(b, e - 1))
  }

  lemma Mono2(a: nat, b: nat, c: nat, d: nat)
    requires a <= b && c <= d
    ensures a * c <= b * d
  {
    MulMono(a, b, c);
    MulMono(c, d, b);
  }

  lemma {:induction false} PowPositive(b: nat, e: nat)
    requires b >= 1
    ensures Pow(b, e) >= 1
  {
    if e > 0 {
      PowPositive(b, e - 1);
      MulMono(1, b, Pow(b, e - 1));
    }
  }

  lemma {:induction false} PowAdd(b: nat, d: nat, e: nat)
    ensures Pow(b, d + e) == Pow(b, d) * Pow(b, e)
  {
    if d > 0 {
      PowAdd(b, d - 1, e);
      Assoc(b, Pow(b, d - 1), Pow(b, e));
    }
  }

  lemma {:induction false} PowPow(b: nat, d: nat, e: nat)
    ensures Times(d, e) >= 0 && Pow(b, Times(d, e)) == Pow(Pow(b, d), e)
  {
    if e > 0 {
      PowPow(b, d, e - 1);
      assert d * e == d + d * (e - 1);
      PowAdd(b, d, d * (e - 1));
    }
  }

  lemma {:induction false} PowBase(a: nat, b: nat, e: nat)
    requires a <= b
    ensures Pow(a, e) <= Pow(b, e)
  {
    if e > 0 {
      PowBase(a, b, e - 1);
      Mono2(a, b, Pow(a, e - 1), Pow(b, e - 1));
    }
  }

  lemma {:induction false} PowBaseStrict(a: nat, b: nat, e: nat)
    requires a < b && e > 0
    ensures Pow(a, e) < Pow(b, e)
  {
    if e == 1 {
      assert Pow(a, 0) == 1 && Pow(b, 0) == 1;
    } else {
      PowBaseStrict(a, b, e - 1);
      Mono2(a, b, Pow(a, e - 1), Pow(a, e - 1));
      Strict(b, Pow(a, e - 1), Pow(b, e - 1));
    }
  }

  lemma Strict(b: nat, x: nat, y: nat)
    requires b > 0 && x < y
    ensures b * x < b * y
  {
    MulMono(x + 1, y, b);
  }

  lemma {:induction false} PowExponent(b: nat, d: nat, e: nat)
    requires b >= 1 && d <= e
    ensures Pow(b, d) <= Pow(b, e)
  {
    if d < e {
      PowExponent(b, d, e - 1);
      PowPositive(b, e - 1);
      MulMono(1, b, Pow(b, e - 1));
    }
  }

  /**
  A buffer of s base-b digits holds n base-a digits when u digits of b hold v digits of a and
  s is more than the share u/v of n.
  */
  lemma BufferSuffices(a: nat, b: nat, u: nat, v: nat, n: nat, s: nat)
    requires b >= 1 && v >= 1 && Pow(a, v) <= Pow(b, u) && n * u <= s * v
    ensures Pow(a, n) <= Pow(b, s)
  {
    hide Pow;
    var x, y := Pow(a, n), Pow(b, s);
    PowPow(a, n, v);
    PowPow(a, v, n);
    assert Times(n, v) == Times(v, n);
    PowBase(Pow(a, v), Pow(b, u), n);
    PowPow(b, u, n);
    PowPow(b, s, v);
    assert Times(u, n) == n * u && Times(s, v) == s * v;
    PowExponent(b, Times(u, n), Times(s, v));
    assert Pow(x, v) <= Pow(y, v);
    if x > y {
      PowBaseStrict(y, x, v);
    }
  }

  //
  // The two estimates, with powers of 58 bounded by multiples of powers of two.
  //

  lemma PowSmall()
    ensures Pow(58, 3) == 195112 && Pow(58, 5) == 656356768
    ensures Pow(2, 8) == 256 && Pow(2, 20) == 0x10_0000 && Pow(2, 33) == 0x2_0000_0000
    ensures Pow(2, 40) == 0x100_0000_0000 && Pow(2, 54) == 0x40_0000_0000_0000
  {
    assert Pow(58, 3) == 195112;
    PowAdd(58, 3, 2);
    assert Pow(2, 7) == 128;
    PowAdd(2, 7, 7);
    PowAdd(2, 14, 6);
    PowAdd(2, 20, 20);
    PowAdd(2, 20, 13);
    PowAdd(2, 7, 6);
    PowAdd(2, 40, 14);
  }

  lemma ProductAbove(d: nat, e: nat, x: nat, k: nat, y: nat, l: nat)
    requires Pow(58, d) >= x * Pow(2, k) && Pow(58, e) >= y * Pow(2, l)
    ensures Pow(58, d + e) >= (x * y) * Pow(2, k + l)
  {
    hide Pow;
    PowAdd(58, d, e);
    PowAdd(2, k, l);
    Mono2(x * Pow(2, k), Pow(58, d), y * Pow(2, l), Pow(58, e));
    Shuffle(x, Pow(2, k), y, Pow(2, l));
  }

  lemma ProductBelow(d: nat, e: nat, x: nat, k: nat, y: nat, l: nat)
    requires Pow(58, d) <= x * Pow(2, k) && Pow(58, e) <= y * Pow(2, l)
    ensures Pow(58, d + e) <= (x * y) * Pow(2, k + l)
  {
    hide Pow;
    PowAdd(58, d, e);
    PowAdd(2, k, l);
    Mono2(Pow(58, d), x * Pow(2, k), Pow(58, e), y * Pow(2, l));
    Shuffle(x, Pow(2, k), y, Pow(2, l));
  }

  lemma Shuffle(x: nat, p: nat, y: nat, q: nat)
    ensures (x * p) * (y * q) == (x * y) * (p * q)
  {
    Assoc(x * p, y, q);
    Assoc(x, p, y);
    Assoc(x, y, p);
    Assoc(x * y, p, q);
  }

  /** Fifty bytes fit 69 characters. */
  lemma BytesToDigits()
    ensures Pow(256, 50) <= Pow(58, 69)
  {
    hide Pow;
    PowSmall();
    assert Pow(58, 5) >= 625 * Pow(2, 20);
    ProductAbove(5, 5, 625, 20, 625, 20);
    ProductAbove(10, 10, 390625, 40, 390625, 40);
    PowZero(2);
    ProductAbove(20, 3, 152587890625, 80, 195112, 0);
    PowAdd(2, 54, 80);
    MulMono(Pow(2, 54), 152587890625 * 195112, Pow(2, 80));
    assert Pow(58, 23) >= 1 * Pow(2, 134);
    ProductAbove(23, 23, 1, 134, 1, 134);
    ProductAbove(46, 23, 1, 268, 1, 134);
    PowPow(2, 8, 50);
    PowExponent(2, 400, 402);
  }

  lemma PowZero(b: nat)
    ensures Pow(b, 0) == 1
  {
  }

  /** A thousand characters fit 733 bytes. */
  lemma DigitsToBytes()
    ensures Pow(58, 1000) <= Pow(256, 733)
  {
    hide Pow;
    PowSmall();
    assert Pow(58, 5) <= 626 * Pow(2, 20);
    ProductBelow(5, 5, 626, 20, 626, 20);
    ProductBelow(10, 10, 391876, 40, 391876, 40);
    ProductBelow(20, 5, 153566799376, 80, 626, 20);
    PowAdd(2, 40, 100);
    MulMono(153566799376 * 626, 88 * Pow(2, 40), Pow(2, 100));
    Assoc(88, Pow(2, 40), Pow(2, 100));
    assert Pow(58, 25) <= 88 * Pow(2, 140);
    ProductBelow(25, 25, 88, 140, 88, 140);
    ProductBelow(50, 50, 7744, 280, 7744, 280);
    ProductBelow(100, 25, 59969536, 560, 88, 140);
    PowAdd(2, 33, 700);
    MulMono(59969536 * 88, Pow(2, 33), Pow(2, 700));
    assert Pow(58, 125) <= Pow(2, 733);
    PowBase(Pow(58, 125), Pow(2, 733), 8);
    PowPow(58, 125, 8);
    PowPow(2, 733, 8);
    PowPow(2, 8, 733);
  }

  //
  // Numbers in a base, most significant digit first.
  //

  predicate IsDigits(b: nat, ds: seq<nat>) {
    forall i :: 0 <= i < |ds| ==> ds[i] < b
  }

  function Num(b: nat, ds: seq<nat>): nat {
    if ds == [] then 0 else Times(Num(b, ds[..|ds| - 1]), b) + ds[|ds| - 1]
  }

  /** The digits of a number, without leading zeroes. */
  function Digits(b: nat, v: nat): (r: seq<nat>)
    requires b >= 2
    ensures IsDigits(b, r)
    decreases v
  {
    if v == 0 then []
    else
      Smaller(v, b);
      Digits(b, v / b) + [v % b]
  }

  lemma Smaller(v: nat, b: nat)
    requires v > 0 && b >= 2
    ensures 0 <= v / b < v
  {
    Euclid(v, b);
    if v / b >= v {
      MulMono(v, v / b, b);
      MulMono(2, b, v);
    }
    if v / b < 0 {
      MulMono(v / b, -1, b);
    }
  }

  lemma {:induction false} NumDigits(b: nat, v: nat)
    requires b >= 2
    ensures Num(b, Digits(b, v)) == v
    ensures v > 0 ==> Digits(b, v) != [] && Digits(b, v)[0] != 0
    decreases v
  {
    if v > 0 {
      Smaller(v, b);
      NumDigits(b, v / b);
      Euclid(v, b);
      var ds := Digits(b, v);
      assert ds[..|ds| - 1] == Digits(b, v / b);
      if v / b == 0 {
        assert Digits(b, 0) == [];
      }
    }
  }

  lemma {:induction false} NumBound(b: nat, ds: seq<nat>)
    requires IsDigits(b, ds) && b >= 1
    ensures Num(b, ds) < Pow(b, |ds|)
  {
    if ds != [] {
      var n := |ds| - 1;
      NumBound(b, ds[..n]);
      BoundStep(Num(b, ds[..n]), Pow(b, n), b, ds[n]);
    }
  }

  lemma BoundStep(x: nat, p: nat, b: nat, d: nat)
    requires x < p && d < b
    ensures x * b + d < b * p
  {
    MulMono(x + 1, p, b);
    assert (x + 1) * b == x * b + b;
  }

  lemma NumLast(b: nat, ds: seq<nat>, d: nat)
    ensures Num(b, ds + [d]) == Num(b, ds) * b + d
  {
    assert (ds + [d])[..|ds|] == ds;
  }

  lemma {:induction false} NumFirst(b: nat, d: nat, ds: seq<nat>)
    ensures Num(b, [d] + ds) == d * Pow(b, |ds|) + Num(b, ds)
  {
    if ds == [] {
      assert [d] + ds == [] + [d];
      NumLast(b, [], d);
    } else {
      var n := |ds| - 1;
      var init := ds[..n];
      NumFirst(b, d, init);
      assert [d] + ds == ([d] + init) + [ds[n]] && ds == init + [ds[n]];
      NumLast(b, [d] + init, ds[n]);
      NumLast(b, init, ds[n]);
      PowNext(b, n);
      hide Num;
      hide Pow;
      Spread(d, Pow(b, n), Num(b, init), b);
    }
  }

  lemma PowNext(b: nat, e: nat)
    ensures Pow(b, e + 1) == b * Pow(b, e)
  {
  }

  lemma Spread(d: nat, p: nat, x: nat, b: nat)
    ensures (d * p + x) * b == d * (b * p) + x * b
  {
  }

  /** The digits of a positive number: those of the quotient, and the remainder. */
  lemma DigitsOfQuotient(b: nat, q: nat, d: nat)
    requires b >= 2 && d < b && (q > 0 || d > 0)
    ensures q * b + d > 0 && Digits(b, q * b + d) == Digits(b, q) + [d]
  {
    MulMono(0, q, b);
    if q > 0 {
      MulMono(1, q, b);
    }
    DivUnique(q, d, b, q * b + d);
    DigitsStep(b, q * b + d, q, d);
  }

  lemma DigitsStep(b: nat, v: nat, q: nat, d: nat)
    requires b >= 2 && v > 0 && q == v / b && d == v % b
    ensures Digits(b, v) == Digits(b, q) + [d]
  {
  }

  /** A digit string without a leading zero is the one its number has. */
  lemma {:induction false} DigitsUnique(b: nat, ds: seq<nat>)
    requires b >= 2 && IsDigits(b, ds) && (ds == [] || ds[0] != 0)
    ensures Digits(b, Num(b, ds)) == ds
    ensures ds != [] ==> Num(b, ds) > 0
  {
    if ds != [] {
      var n := |ds| - 1;
      var init, d := ds[..n], ds[n];
      DigitsUnique(b, init);
      NumLast(b, init, d);
      assert ds == init + [d];
      hide Num;
      hide Digits;
      DigitsOfQuotient(b, Num(b, init), d);
    }
  }

  function Zeroes(n: nat): (r: seq<nat>)
    ensures |r| == n && forall i :: 0 <= i < n ==> r[i] == 0
  {
    seq(n, i => 0)
  }

  /** The number of leading zeroes. */
  function Leading(ds: seq<nat>): (r: nat)
    ensures r <= |ds| && (forall i :: 0 <= i < r ==> ds[i] == 0) && (r < |ds| ==> ds[r] != 0)
    decreases |ds|
  {
    if ds != [] && ds[0] == 0 then 1 + Leading(ds[1..]) else 0
  }

  lemma LeadingUnique(ds: seq<nat>, n: nat)
    requires n <= |ds| && (forall i :: 0 <= i < n ==> ds[i] == 0) && (n < |ds| ==> ds[n] != 0)
    ensures Leading(ds) == n
  {
  }

  lemma {:induction false} NumZeroes(b: nat, n: nat, ds: seq<nat>)
    ensures Num(b, Zeroes(n) + ds) == Num(b, ds)
    decreases n
  {
    if n == 0 {
      assert Zeroes(0) + ds == ds;
    } else {
      NumZeroes(b, n - 1, ds);
      assert Zeroes(n) + ds == [0] + (Zeroes(n - 1) + ds);
      NumFirst(b, 0, Zeroes(n - 1) + ds);
    }
  }

  /** The same number in another base, with as many leading zeroes. */
  function Convert(a: nat, b: nat, ds: seq<nat>): (r: seq<nat>)
    requires b >= 2
    ensures b >= 1 && IsDigits(b, r)
  {
    Zeroes(Leading(ds)) + Digits(b, Num(a, ds))
  }

  /** Converting back gives the original digits. */
  lemma ConvertBack(a: nat, b: nat, ds: seq<nat>)
    requires a >= 2 && b >= 2 && IsDigits(a, ds)
    ensures Convert(b, a, Convert(a, b, ds)) == ds
  {
    var z, v := Leading(ds), Num(a, ds);
    var rest := ds[z..];
    assert ds == Zeroes(z) + rest;
    NumZeroes(a, z, rest);
    DigitsUnique(a, rest);
    var out := Digits(b, v);
    NumDigits(b, v);
    NumZeroes(b, z, out);
    if v == 0 {
      assert out == [];
    }
    LeadingUnique(Zeroes(z) + out, z);
  }

  //
  // The buffer.
  //

  ghost predicate Valid(b: nat, buf: array<nat>)
    reads buf
  {
    IsDigits(b, buf[..])
  }

  /** The digits done so far and the carry make up factor times the old digits, plus the new one. */
  ghost predicate Carried(b: nat, f: nat, d: nat, was: seq<nat>, now: seq<nat>, carry: nat) {
    |was| == |now| && IsDigits(b, now) && Num(b, now) + carry * Pow(b, |was|) == f * Num(b, was) + d
  }

  lemma CarryStart(b: nat, f: nat, d: nat)
    ensures Carried(b, f, d, [], [], d)
  {
    assert Pow(b, 0) == 1 && Num(b, []) == 0;
  }

  /** One digit of the inner loop. */
  lemma CarryStep(b: nat, f: nat, d: nat, was: seq<nat>, now: seq<nat>, x: nat, y: nat, carry: nat, carry': nat)
    requires b >= 1 && Carried(b, f, d, was, now, carry)
    requires y < b && y + carry' * b == carry + f * x
    ensures Carried(b, f, d, [x] + was, [y] + now, carry')
  {
    NumFirst(b, y, now);
    NumFirst(b, x, was);
    PowNext(b, |was|);
    hide Num;
    hide Pow;
    Terms(y, Pow(b, |was|), carry', b, carry, f, x, Num(b, was));
  }

  lemma CarryEnd(b: nat, f: nat, d: nat, was: seq<nat>, now: seq<nat>, carry: nat)
    requires Carried(b, f, d, was, now, carry) && Num(b, was) * f + d < Pow(b, |was|)
    ensures carry == 0 && IsDigits(b, now) && Num(b, now) == Num(b, was) * f + d
  {
    hide Num;
    hide Pow;
    NoCarry(Num(b, now), carry, Pow(b, |was|));
  }

  lemma Terms(y: int, p: int, c': int, b: int, c: int, f: int, x: int, o: int)
    requires y + c' * b == c + f * x
    ensures y * p + c' * (b * p) == c * p + (f * x) * p
    ensures f * (x * p + o) == (f * x) * p + f * o
  {
    assert (y + c' * b) * p == y * p + c' * (b * p);
    assert (c + f * x) * p == c * p + (f * x) * p;
  }

  lemma CarryDigit(b: nat, t: nat)
    requires b >= 1
    ensures t % b + (t / b) * b == t && 0 <= t % b < b && 0 <= t / b
  {
    if t / b < 0 {
      MulMono(t / b, -1, b);
    }
  }

  /**
  "buf = buf * factor + digit" (lines 36-42 and 74-81); the assertion is the source's, and holds
  whenever the new number fits the buffer.
  */
  method MulAdd(buf: array<nat>, b: nat, factor: nat, digit: nat)
    requires b >= 2 && Valid(b, buf)
    requires Num(b, buf[..]) * factor + digit < Pow(b, buf.Length)
    modifies buf
    ensures Valid(b, buf) && Num(b, buf[..]) == old(Num(b, buf[..])) * factor + digit
  {
    hide Carried;
    hide Num;
    hide Pow;
    ghost var was := buf[..];
    var carry := digit;
    var it := buf.Length;
    CarryStart(b, factor, digit);
    assert was[it..] == [] && buf[it..] == [];
    while it > 0
      invariant 0 <= it <= buf.Length && carry >= 0
      invariant buf[..it] == was[..it]
      invariant Carried(b, factor, digit, was[it..], buf[it..], carry)
    {
      ghost var now, carry0 := buf[it..], carry;
      it := it - 1;
      ghost var x := was[it];
      assert buf[it] == x;
      carry := carry + Times(factor, buf[it]);
      CarryDigit(b, carry);
      buf[it] := carry % b;
      assert buf[it..] == [buf[it]] + now && was[it..] == [x] + was[it + 1..];
      carry := carry / b;
      CarryStep(b, factor, digit, was[it + 1..], now, x, buf[it], carry0, carry);
    }
    assert buf[0..] == buf[..] && was[0..] == was;
    CarryEnd(b, factor, digit, was, buf[..], carry);
    assert carry == 0;
  }

  lemma NoCarry(x: nat, carry: nat, p: nat)
    requires x + carry * p < p
    ensures carry == 0
  {
    if carry > 0 {
      MulMono(1, carry, p);
    }
  }

  //
  // Characters, as character codes.
  //

  const ONE: nat := 49

  /** pszBase58 (line 14): "123456789ABCDEFGHJKLMNPQRSTUVWXYZabcdefghijkmnopqrstuvwxyz". */
  function CharOf(d: nat): nat
    requires d < 58
  {
    if d < 9 then d + 49 else if d < 17 then d - 9 + 65 else if d < 22 then d - 17 + 74
    else if d < 33 then d - 22 + 80 else if d < 44 then d - 33 + 97 else d - 44 + 109
  }

  /** strchr in pszBase58. */
  function DigitOf(c: nat): Option<nat> {
    if 49 <= c < 58 then Some(c - 49) else if 65 <= c < 73 then Some(c - 65 + 9) else if 74 <= c < 79 then Some(c - 74 + 17)
    else if 80 <= c < 91 then Some(c - 80 + 22) else if 97 <= c < 108 then Some(c - 97 + 33)
    else if 109 <= c < 123 then Some(c - 109 + 44) else None
  }

  const ALPHABET := "123456789ABCDEFGH" + "JKLMNPQRSTUVWXYZ" + "abcdefghijkmnopqrstuvwxyz"

  /** The characters are those of the alphabet, in its order. */
  lemma AlphabetIs(d: nat)
    requires d < 58
    ensures |ALPHABET| == 58 && CharOf(d) == ALPHABET[d] as int
  {
    FirstChars(d);
    MiddleChars(d);
    LastChars(d);
  }

  lemma FirstChars(d: nat)
    ensures d < 17 ==> CharOf(d) == "123456789ABCDEFGH"[d] as int
  {
  }

  lemma MiddleChars(d: nat)
    ensures 17 <= d < 33 ==> CharOf(d) == "JKLMNPQRSTUVWXYZ"[d - 17] as int
  {
  }

  lemma LastChars(d: nat)
    ensures 33 <= d < 58 ==> CharOf(d) == "abcdefghijkmnopqrstuvwxyz"[d - 33] as int
  {
  }

  predicate IsSpace(c: nat) { c == 32 || 9 <= c <= 13 }

  /** The white space of isspace: blank, tab, line feed, vertical tab, form feed and carriage return. */
  lemma SpacesAre(c: char)
    ensures IsSpace(c as int) <==> c in " \t\n\U{0b}\U{0c}\r"
  {
  }

  lemma CharThenDigit(d: nat)
    requires d < 58
    ensures DigitOf(CharOf(d)) == Some(d) && !IsSpace(CharOf(d)) && (CharOf(d) == ONE <==> d == 0)
  {
  }

  lemma DigitThenChar(c: nat)
    requires DigitOf(c).Some?
    ensures DigitOf(c).value < 58 && CharOf(DigitOf(c).value) == c && !IsSpace(c) && (c == ONE <==> DigitOf(c).value == 0)
  {
  }

  function Chars(ds: seq<nat>): (r: seq<nat>)
    requires IsDigits(58, ds)
    ensures |r| == |ds|
  {
    seq(|ds|, i requires 0 <= i < |ds| => CharOf(ds[i]))
  }

  predicate AllDigits(s: seq<nat>) { forall i :: 0 <= i < |s| ==> DigitOf(s[i]).Some? }

  function DigitsOf(s: seq<nat>): (r: seq<nat>)
    requires AllDigits(s)
    ensures |r| == |s|
  {
    seq(|s|, i requires 0 <= i < |s| => DigitOf(s[i]).value)
  }

  lemma DigitsOfAreDigits(s: seq<nat>)
    requires AllDigits(s)
    ensures IsDigits(58, DigitsOf(s))
  {
    forall i | 0 <= i < |s| ensures DigitsOf(s)[i] < 58 {
      DigitThenChar(s[i]);
    }
  }

  predicate AllSpaces(s: seq<nat>) { forall i :: 0 <= i < |s| ==> IsSpace(s[i]) }

  /** The number of leading characters that are spaces, or that are not. */
  function Run(s: seq<nat>, spaces: bool): (r: nat)
    ensures r <= |s| && (forall i :: 0 <= i < r ==> IsSpace(s[i]) == spaces) && (r < |s| ==> IsSpace(s[r]) != spaces)
    decreases |s|
  {
    if s != [] && IsSpace(s[0]) == spaces then 1 + Run(s[1..], spaces) else 0
  }

  /** The text between leading spaces and the next space. */
  function Body(s: seq<nat>): seq<nat> {
    var t := s[Run(s, true)..];
    t[..Run(t, false)]
  }

  function Tail(s: seq<nat>): seq<nat> {
    var t := s[Run(s, true)..];
    t[Run(t, false)..]
  }

  //
  // The encoding.
  //

  function Encoded(bytes: seq<nat>): seq<nat> {
    Chars(Convert(256, 58, bytes))
  }

  function Decoded(s: seq<nat>): Option<seq<nat>> {
    if AllDigits(Body(s)) && AllSpaces(Tail(s)) then Some(Convert(58, 256, DigitsOf(Body(s)))) else None
  }

  /** Every byte string is decoded from its encoding. */
  lemma DecodeEncode(bytes: seq<nat>)
    requires IsDigits(256, bytes)
    ensures Decoded(Encoded(bytes)) == Some(bytes)
  {
    hide DigitOf;
    hide CharOf;
    var ds := Convert(256, 58, bytes);
    var s := Chars(ds);
    forall i | 0 <= i < |s| ensures DigitOf(s[i]) == Some(ds[i]) && !IsSpace(s[i]) {
      CharThenDigit(ds[i]);
    }
    assert Run(s, true) == 0;
    assert Run(s[0..], false) == |s|;
    assert Body(s) == s && Tail(s) == [];
    assert DigitsOf(s) == ds;
    ConvertBack(256, 58, bytes);
  }

  /** An accepted string is the encoding of what it decodes to, up to spaces around it. */
  lemma EncodeDecode(s: seq<nat>)
    requires Decoded(s).Some?
    ensures Encoded(Decoded(s).value) == Body(s)
  {
    hide DigitOf;
    hide CharOf;
    var b := Body(s);
    var ds := DigitsOf(b);
    DigitsOfAreDigits(b);
    ConvertBack(58, 256, ds);
    forall i | 0 <= i < |b| ensures Chars(ds)[i] == b[i] {
      DigitThenChar(b[i]);
    }
  }

  /** A string without spaces is its own body. */
  lemma BodyOfPlain(s: seq<nat>)
    requires forall i :: 0 <= i < |s| ==> !IsSpace(s[i])
    ensures Body(s) == s
  {
    assert Run(s, true) == 0;
    assert s[0..] == s;
    assert Run(s, false) == |s|;
  }

  /** A text without spaces is found between the spaces around it. */
  lemma BodyWithin(pre: seq<nat>, e: seq<nat>, post: seq<nat>)
    requires AllSpaces(pre) && AllSpaces(post) && forall i :: 0 <= i < |e| ==> !IsSpace(e[i])
    ensures Body(pre + e + post) == e && AllSpaces(Tail(pre + e + post))
  {
    hide IsSpace;
    var s := pre + e + post;
    var r := Run(s, true);
    var t := s[r..];
    if e == [] {
      forall i | 0 <= i < |s| ensures IsSpace(s[i]) {}
      assert r == |s| && t == [];
    } else {
      assert s[|pre|] == e[0];
      assert forall i :: 0 <= i < |pre| ==> s[i] == pre[i];
      assert r == |pre|;
      assert t == e + post;
      assert forall i :: 0 <= i < |e| ==> t[i] == e[i];
      assert post != [] ==> t[|e|] == post[0];
      assert Run(t, false) == |e|;
      assert t[..|e|] == e && t[|e|..] == post;
    }
  }

  lemma NoSpacesEncoded(bytes: seq<nat>)
    requires IsDigits(256, bytes)
    ensures forall i :: 0 <= i < |Encoded(bytes)| ==> !IsSpace(Encoded(bytes)[i])
  {
    hide CharOf;
    hide IsSpace;
    hide DigitOf;
    var ds := Convert(256, 58, bytes);
    forall i | 0 <= i < |ds| ensures !IsSpace(Chars(ds)[i]) {
      CharThenDigit(ds[i]);
    }
  }

  ghost predicate Around(s: seq<nat>, pre: seq<nat>, bytes: seq<nat>, post: seq<nat>)
    requires IsDigits(256, bytes)
  {
    AllSpaces(pre) && AllSpaces(post) && s == pre + Encoded(bytes) + post
  }

  /** A string is accepted as some bytes exactly if it is their encoding with any spaces around it. */
  lemma DecodedIff(s: seq<nat>, bytes: seq<nat>)
    ensures Decoded(s) == Some(bytes) <==> IsDigits(256, bytes) && exists pre, post :: Around(s, pre, bytes, post)
  {
    hide Convert;
    hide Chars;
    if Decoded(s) == Some(bytes) {
      DigitsOfAreDigits(Body(s));
      ConvertBack(58, 256, DigitsOf(Body(s)));
      EncodeDecode(s);
      var r := Run(s, true);
      var t := s[r..];
      assert s == s[..r] + Body(s) + Tail(s);
      assert Around(s, s[..r], bytes, Tail(s));
    }
    if IsDigits(256, bytes) && exists pre, post :: Around(s, pre, bytes, post) {
      var pre, post :| Around(s, pre, bytes, post);
      NoSpacesEncoded(bytes);
      BodyWithin(pre, Encoded(bytes), post);
      DecodeEncode(bytes);
      BodyOfPlain(Encoded(bytes));
      assert Body(s) == Body(Encoded(bytes));
    }
  }

  //
  // The methods.
  //

  /** Lines 70-83: the buffer after every byte, which never overflows. */
  method ToBase58(bytes: seq<nat>) returns (b58: array<nat>)
    requires IsDigits(256, bytes)
    ensures fresh(b58) && Valid(58, b58) && Num(58, b58[..]) == Num(256, bytes)
  {
    hide Num;
    hide Pow;
    b58 := new nat[|bytes| * 138 / 100 + 1](i => 0);
    BytesToDigits();
    BufferSuffices(256, 58, 69, 50, |bytes|, b58.Length);
    NumOfZeroes(58, b58[..]);
    NumNone(256);
    for i := 0 to |bytes|
      invariant Valid(58, b58) && Num(58, b58[..]) == Num(256, bytes[..i])
    {
      PrefixStep(256, bytes, i, 58, b58.Length);
      MulAdd(b58, 58, 256, bytes[i]);
    }
    assert bytes[..|bytes|] == bytes;
  }

  lemma NumNone(b: nat)
    ensures Num(b, []) == 0
  {
  }

  lemma NumOfZeroes(b: nat, ds: seq<nat>)
    requires forall i :: 0 <= i < |ds| ==> ds[i] == 0
    ensures Num(b, ds) == 0
  {
    assert ds == Zeroes(|ds|) + [];
    NumZeroes(b, |ds|, []);
  }

  /** The number of each prefix stays within a buffer that holds the whole. */
  lemma PrefixStep(a: nat, ds: seq<nat>, i: nat, b: nat, size: nat)
    requires a >= 1 && IsDigits(a, ds) && i < |ds| && Pow(a, |ds|) <= Pow(b, size)
    ensures Num(a, ds[..i + 1]) == Num(a, ds[..i]) * a + ds[i] < Pow(b, size)
  {
    assert ds[..i + 1] == ds[..i] + [ds[i]];
    NumLast(a, ds[..i], ds[i]);
    NumBound(a, ds[..i + 1]);
    PowExponent(a, i + 1, |ds|);
  }

  /** Leading zeroes are skipped (lines 84-87 and 50-53): what is left is the number's digits. */
  method SkipZeroes(buf: array<nat>, b: nat) returns (it: nat)
    requires b >= 2 && Valid(b, buf)
    ensures it <= buf.Length && buf[it..] == Digits(b, Num(b, buf[..]))
  {
    it := 0;
    while it < buf.Length && buf[it] == 0
      invariant it <= buf.Length && forall i :: 0 <= i < it ==> buf[i] == 0
    {
      it := it + 1;
    }
    assert buf[..] == Zeroes(it) + buf[it..];
    NumZeroes(b, it, buf[it..]);
    DigitsUnique(b, buf[it..]);
  }

  /** Lines 88-94: the characters of zeroes and then of the digits from position it on. */
  method Translate(zeroes: nat, b58: array<nat>, it: nat) returns (str: seq<nat>)
    requires it <= b58.Length && Valid(58, b58)
    ensures IsDigits(58, Zeroes(zeroes) + b58[it..]) && str == Chars(Zeroes(zeroes) + b58[it..])
  {
    hide CharOf;
    OneIsZero();
    str := seq(zeroes, i => ONE);
    for i := it to b58.Length
      invariant str == Chars(Zeroes(zeroes) + b58[it..i])
    {
      assert b58[it..i + 1] == b58[it..i] + [b58[i]];
      str := str + [CharOf(b58[i])];
    }
    assert b58[it..b58.Length] == b58[it..];
  }

  lemma OneIsZero()
    ensures CharOf(0) == ONE
  {
  }

  /** Lines 64-69. */
  method CountZeroes(bytes: seq<nat>) returns (zeroes: nat)
    ensures zeroes == Leading(bytes)
  {
    zeroes := 0;
    while zeroes < |bytes| && bytes[zeroes] == 0
      invariant zeroes <= |bytes| && forall i :: 0 <= i < zeroes ==> bytes[i] == 0
    {
      zeroes := zeroes + 1;
    }
    LeadingUnique(bytes, zeroes);
  }

  /** Lines 62-95. */
  method EncodeBase58(bytes: seq<nat>) returns (str: seq<nat>)
    requires IsDigits(256, bytes)
    ensures str == Encoded(bytes)
  {
    hide Chars;
    hide Num;
    hide Digits;
    var zeroes := CountZeroes(bytes);
    SplitZeroes(256, bytes, zeroes);
    var b58 := ToBase58(bytes[zeroes..]);
    var it := SkipZeroes(b58, 58);
    str := Translate(zeroes, b58, it);
  }

  lemma SplitZeroes(b: nat, ds: seq<nat>, z: nat)
    requires z <= |ds| && (forall i :: 0 <= i < z ==> ds[i] == 0) && (z < |ds| ==> ds[z] != 0)
    ensures Leading(ds) == z && Num(b, ds) == Num(b, ds[z..])
  {
    LeadingUnique(ds, z);
    assert ds == Zeroes(z) + ds[z..];
    NumZeroes(b, z, ds[z..]);
  }

  /** Lines 27-44: the buffer after every character up to a space or the end, if all are known. */
  method ToBase256(psz: seq<nat>) returns (ok: bool, b256: array<nat>, n: nat)
    ensures n <= |psz| && ok == AllDigits(psz[..Run(psz, false)])
    ensures ok ==> n == Run(psz, false) && fresh(b256) && Valid(256, b256) && Num(256, b256[..]) == Num(58, DigitsOf(psz[..n]))
  {
    hide Num;
    hide Pow;
    hide DigitOf;
    hide IsSpace;
    b256 := new nat[|psz| * 733 / 1000 + 1](i => 0);
    DigitsToBytes();
    BufferSuffices(58, 256, 733, 1000, |psz|, b256.Length);
    NumOfZeroes(256, b256[..]);
    NumNone(58);
    n := 0;
    while n < |psz| && !IsSpace(psz[n])
      invariant n <= Run(psz, false) && AllDigits(psz[..n])
      invariant fresh(b256) && Valid(256, b256) && Num(256, b256[..]) == Num(58, DigitsOf(psz[..n]))
    {
      var ch := DigitOf(psz[n]);
      if ch == None {
        assert psz[..Run(psz, false)][n] == psz[n];
        return false, b256, n;
      }
      CharacterStep(psz, n, b256.Length);
      MulAdd(b256, 256, 58, ch.value);
      n := n + 1;
    }
    ok := true;
  }

  lemma CharacterStep(psz: seq<nat>, n: nat, size: nat)
    requires n < |psz| && AllDigits(psz[..n]) && DigitOf(psz[n]).Some? && Pow(58, |psz|) <= Pow(256, size)
    ensures AllDigits(psz[..n + 1])
    ensures Num(58, DigitsOf(psz[..n + 1])) == Num(58, DigitsOf(psz[..n])) * 58 + DigitOf(psz[n]).value < Pow(256, size)
  {
    hide DigitOf;
    assert psz[..n + 1] == psz[..n] + [psz[n]];
    var ds := DigitsOf(psz[..n + 1]);
    assert ds == DigitsOf(psz[..n]) + [DigitOf(psz[n]).value];
    DigitsOfAreDigits(psz[..n + 1]);
    NumLast(58, DigitsOf(psz[..n]), DigitOf(psz[n]).value);
    NumBound(58, ds);
    PowExponent(58, n + 1, |psz|);
  }

  /** Lines 18-20. */
  method SkipSpaces(str: seq<nat>) returns (n: nat)
    ensures n == Run(str, true)
  {
    n := 0;
    while n < |str| && IsSpace(str[n])
      invariant n <= Run(str, true)
    {
      n := n + 1;
    }
  }

  /** Lines 21-26. */
  method CountOnes(text: seq<nat>) returns (zeroes: nat)
    ensures zeroes <= |text| && (forall i :: 0 <= i < zeroes ==> text[i] == ONE) && (zeroes < |text| ==> text[zeroes] != ONE)
  {
    zeroes := 0;
    while zeroes < |text| && text[zeroes] == ONE
      invariant zeroes <= |text| && forall i :: 0 <= i < zeroes ==> text[i] == ONE
    {
      zeroes := zeroes + 1;
    }
  }

  /** Lines 16-60; no result stands for a false return. */
  method DecodeBase58(str: seq<nat>) returns (vch: Option<seq<nat>>)
    ensures vch == Decoded(str)
  {
    hide IsSpace;
    hide DigitOf;
    hide Run;
    hide Num;
    hide Leading;
    var skipped := SkipSpaces(str);
    var text := str[skipped..];
    var zeroes := CountOnes(text);
    var psz := text[zeroes..];
    RunOnes(text, zeroes);
    DigitsOfOnes(text, zeroes, Run(psz, false));
    assert Tail(str) == psz[Run(psz, false)..];
    var ok, b256, n := ToBase256(psz);
    if !ok {
      return None;
    }
    var rest := SkipSpaces(psz[n..]);
    AllSpacesIff(psz[n..]);
    if rest != |psz[n..]| {
      return None;
    }
    var it := SkipZeroes(b256, 256);
    OnesAreZeroes(text, zeroes, n);
    return Some(Zeroes(zeroes) + b256[it..]);
  }

  lemma AllSpacesIff(s: seq<nat>)
    ensures AllSpaces(s) <==> Run(s, true) == |s|
  {
  }

  /** Leading ones belong to the body. */
  lemma RunOnes(text: seq<nat>, z: nat)
    requires z <= |text| && forall i :: 0 <= i < z ==> text[i] == ONE
    ensures Run(text, false) == z + Run(text[z..], false)
  {
    var n := Run(text[z..], false);
    OneIsDigit();
    forall i | 0 <= i < z + n ensures !IsSpace(text[i]) {
      if i >= z {
        assert text[i] == text[z..][i - z];
      }
    }
    assert z + n < |text| ==> IsSpace(text[z..][n]);
  }

  lemma AllDigitsCat(u: seq<nat>, v: seq<nat>)
    ensures AllDigits(u + v) <==> AllDigits(u) && AllDigits(v)
  {
    if AllDigits(u + v) {
      forall i | 0 <= i < |u| ensures DigitOf(u[i]).Some? {
        assert (u + v)[i] == u[i];
      }
      forall i | 0 <= i < |v| ensures DigitOf(v[i]).Some? {
        assert (u + v)[|u| + i] == v[i];
      }
    }
  }

  lemma DigitsOfOnes(text: seq<nat>, z: nat, n: nat)
    requires z + n <= |text| && forall i :: 0 <= i < z ==> text[i] == ONE
    ensures AllDigits(text[..z + n]) <==> AllDigits(text[z..][..n])
  {
    hide DigitOf;
    OneIsDigit();
    assert text[..z + n] == text[..z] + text[z..][..n];
    AllDigitsCat(text[..z], text[z..][..n]);
  }

  lemma OneIsDigit()
    ensures DigitOf(ONE) == Some(0) && !IsSpace(ONE)
  {
  }

  lemma OnesAreZeroes(text: seq<nat>, z: nat, n: nat)
    requires z + n <= |text| && AllDigits(text[..z + n]) && (forall i :: 0 <= i < z ==> text[i] == ONE)
    requires n > 0 ==> text[z] != ONE
    ensures var ds := DigitsOf(text[..z + n]);
            && AllDigits(text[z..][..n]) && Leading(ds) == z && Num(58, ds) == Num(58, DigitsOf(text[z..][..n]))
  {
    hide DigitOf;
    var body := text[..z + n];
    var ds := DigitsOf(body);
    OneIsDigit();
    assert text[z..][..n] == body[z..];
    forall i | 0 <= i < n ensures DigitOf(body[z..][i]).Some? {
      assert body[z..][i] == body[z + i];
    }
    assert ds[z..] == DigitsOf(body[z..]);
    if n > 0 {
      DigitThenChar(text[z]);
    }
    SplitZeroes(58, ds, z);
  }
}
