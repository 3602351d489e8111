/**
The heights that the skip pointers of the block index lead to (src/chain.cpp:61-99), and how
many steps it takes to get from one height to another: no more than about a quarter of the
square of the number of bits of the height.
*/
module SkipList {
  import opened Arith

  /** Bitwise and. */
  function And(x: nat, y: nat): (r: nat)
    ensures r <= x && r <= y
  {
    if x == 0 || y == 0 then 0
    else (if x % 2 == 1 && y % 2 == 1 then 1 else 0) + 2 * And(x / 2, y / 2)
  }

  /** n & (n - 1); zero stays zero in two's complement. */
  function InvertLowestOne(n: nat): (r: nat)
    ensures if n == 0 then r == 0 else r < n
  {
    if n == 0 then 0 else And(n, n - 1)
  }

  /** GetSkipHeight (lines 64-73). */
  function SkipHeight(height: nat): (r: nat)
    ensures height > 0 ==> r < height
  {
    if height < 2 then 0
    else if height % 2 == 1 then InvertLowestOne(InvertLowestOne(height - 1)) + 1
    else InvertLowestOne(height)
  }

  /** Whether GetAncestor follows the skip pointer (lines 83-88), on its way from height h to t. */
  predicate Skips(h: nat, t: nat)
    requires t < h
  {
    var s, p := SkipHeight(h), SkipHeight(h - 1);
    s == t || (s > t && !(p < s - 2 && p >= t))
  }

  function NextHeight(h: nat, t: nat): (r: nat)
    requires t < h
    ensures t <= r < h
  {
    if Skips(h, t) then SkipHeight(h) else h - 1
  }

  /** The steps of GetAncestor from height h to t. */
  function Steps(h: nat, t: nat): nat
    requires t <= h
    decreases h
  {
    if h == t then 0 else 1 + Steps(NextHeight(h, t), t)
  }

  lemma SkipAfterEven(q: nat)
    requires q % 2 == 0 && q > 0
    ensures SkipHeight(q + 1) == InvertLowestOne(InvertLowestOne(q)) + 1 && SkipHeight(q) == InvertLowestOne(q)
  {
    hide InvertLowestOne;
  }

  lemma Doubles(m: nat)
    ensures Pow2(m + 1) == 2 * Pow2(m) && Pow2(m) >= 1
  {
  }

  lemma SkipTwice(q: nat, g: nat, r: nat)
    requires q % 2 == 0 && q > 0 && InvertLowestOne(q) == g && InvertLowestOne(g) == r
    ensures SkipHeight(q + 1) == r + 1
  {
    hide InvertLowestOne;
  }

  lemma OneStep(h: nat, t: nat)
    requires t < h
    ensures Steps(h, t) == 1 + Steps(NextHeight(h, t), t)
  {
    hide NextHeight;
  }

  //
  // Clearing the lowest bit.
  //

  lemma {:induction false} AndSelf(x: nat)
    ensures And(x, x) == x
  {
    if x > 0 {
      AndSelf(x / 2);
    }
  }

  lemma InvertOdd(x: nat)
    ensures InvertLowestOne(2 * x + 1) == 2 * x
  {
    AndSelf(x);
  }

  lemma InvertEven(x: nat)
    ensures InvertLowestOne(2 * x) == 2 * InvertLowestOne(x)
  {
    if x > 0 {
      assert (2 * x - 1) / 2 == x - 1;
    }
  }

  /** A multiple of 2^k. */
  predicate Multiple(n: nat, k: nat) {
    k == 0 || (n % 2 == 0 && Multiple(n / 2, k - 1))
  }

  lemma {:induction false} MultipleOfLess(n: nat, k: nat, m: nat)
    requires Multiple(n, k) && m <= k
    ensures Multiple(n, m)
  {
    if m > 0 {
      MultipleOfLess(n / 2, k - 1, m - 1);
    }
  }

  lemma {:induction false} AtLeast(n: nat, k: nat)
    requires Multiple(n, k) && n > 0
    ensures n >= Pow2(k)
  {
    if k > 0 {
      AtLeast(n / 2, k - 1);
    }
  }

  /** Below a multiple of 2^k there is one 2^m lower, for m up to k. */
  lemma {:induction false} MultipleBelow(n: nat, k: nat, m: nat)
    requires Multiple(n, k) && n > 0 && m <= k
    ensures Pow2(m) <= n && Multiple(n - Pow2(m), m)
  {
    MultipleOfLess(n, k, m);
    AtLeast(n, m);
    if m > 0 {
      MultipleBelow(n / 2, k - 1, m - 1);
      assert (n - Pow2(m)) / 2 == n / 2 - Pow2(m - 1);
    }
  }

  /** Below a multiple of 2^k, clearing the lowest bit of what is 2^m lower. */
  lemma {:induction false} InvertBelow(n: nat, k: nat, m: nat)
    requires Multiple(n, k) && n > 0 && m < k
    ensures Pow2(m + 1) <= n && InvertLowestOne(n - Pow2(m)) == n - Pow2(m + 1)
  {
    hide InvertLowestOne;
    MultipleBelow(n, k, m + 1);
    if m == 0 {
      InvertOdd(n / 2 - 1);
      assert n - 1 == 2 * (n / 2 - 1) + 1;
    } else {
      InvertBelow(n / 2, k - 1, m - 1);
      InvertEven(n / 2 - Pow2(m - 1));
      assert n - Pow2(m) == 2 * (n / 2 - Pow2(m - 1));
    }
  }

  lemma {:induction false} InvertMultiple(n: nat, k: nat)
    requires Multiple(n, k) && n > 0
    ensures InvertLowestOne(n) + Pow2(k) <= n
  {
    if k > 0 {
      InvertMultiple(n / 2, k - 1);
      InvertEven(n / 2);
    }
  }

  //
  // Which way a step goes.
  //

  /** From an odd height the skip is taken whenever it does not lead too far. */
  lemma NextOfOdd(h: nat, t: nat)
    requires t < h && h % 2 == 1
    ensures NextHeight(h, t) == if SkipHeight(h) >= t then SkipHeight(h) else h - 1
  {
    hide InvertLowestOne;
    if h > 1 {
      var g := InvertLowestOne(h - 1);
      assert InvertLowestOne(g) <= g;
    }
  }

  /** A skip that leads too far is not taken. */
  lemma NextIfTooFar(h: nat, t: nat)
    requires t < h && SkipHeight(h) < t
    ensures NextHeight(h, t) == h - 1
  {
  }

  /** From 2^m below a multiple of 2^k to 2^(m+1) below it, unless the target is more than twice as far. */
  lemma NextOfEven(n: nat, k: nat, m: nat, t: nat)
    requires Multiple(n, k) && n > 0 && m + 2 <= k && m % 2 == 1
    requires Pow2(m + 2) <= n && n - Pow2(m + 2) + 1 < t <= n - Pow2(m + 1)
    ensures NextHeight(n - Pow2(m), t) == n - Pow2(m + 1)
  {
    hide InvertLowestOne;
    hide SkipHeight;
    hide Multiple;
    var q := n - Pow2(m);
    assert 0 < Pow2(m) < Pow2(m + 1) < Pow2(m + 2);
    assert Pow2(1) == 2 && Pow2(2) == 4 && Pow2(3) == 8;
    Pow2Monotone(if m == 1 then 1 else 3, m);
    hide Pow2;
    EvenBelow(n, k, m);
    InvertBelow(n, k, m);
    SkipAfterEven(q);
    if m == 1 {
      SkipNearTop(n, k);
    } else {
      SkipNearMultiple(n, k, m);
    }
  }

  /** From three below a multiple of eight the skip leads at least to seven below. */
  lemma SkipNearTop(n: nat, k: nat)
    requires Multiple(n, k) && n > 0 && 3 <= k
    ensures n >= 8 && SkipHeight(n - 3) <= n - 7
  {
    assert Pow2(1) == 2 && Pow2(2) == 4 && Pow2(3) == 8;
    hide InvertLowestOne;
    hide SkipHeight;
    InvertBelow(n, k, 2);
    EvenBelow(n, k, 2);
    SkipAfterEven(n - 4);
    if n > 8 {
      MultipleBelow(n, k, 3);
      InvertMultiple(n - 8, 3);
    }
  }

  /** From just below a multiple of 2^m, for m at least three, the skip leads to seven below. */
  lemma SkipNearMultiple(n: nat, k: nat, m: nat)
    requires Multiple(n, k) && n > 0 && 3 <= m < k
    ensures Pow2(m) + 8 <= n && SkipHeight(n - Pow2(m) - 1) == n - Pow2(m) - 7
  {
    MultipleBelow(n, k, m);
    MultipleBelow(n, k, m + 1);
    SkipOfEighthIs(n - Pow2(m), m);
  }

  lemma SkipOfEighthIs(q: nat, m: nat)
    requires Multiple(q, m) && q > 0 && m >= 3
    ensures q >= 8 && SkipHeight(q - 1) == q - 7
  {
    assert Pow2(1) == 2 && Pow2(2) == 4 && Pow2(3) == 8;
    hide InvertLowestOne;
    hide SkipHeight;
    hide Pow2;
    InvertBelow(q, m, 1);
    InvertBelow(q, m, 2);
    EvenBelow(q, m, 1);
    SkipAfterEven(q - 2);
  }

  //
  // Counting.
  //

  /** The steps to anything within 2^k below a multiple of 2^k. */
  function Bound(k: nat): nat {
    if k == 0 then 1 else Bound(k - 1) + (k + 3) / 2
  }

  lemma {:induction false} BoundMonotone(j: nat, k: nat)
    requires j <= k
    ensures Bound(j) <= Bound(k)
  {
    if j < k {
      BoundMonotone(j, k - 1);
    }
  }

  lemma BoundPositive(k: nat)
    ensures Bound(k) >= 1 && (k >= 1 ==> Bound(k) >= 3)
  {
    BoundMonotone(0, k);
    if k >= 1 {
      BoundMonotone(1, k);
    }
  }

  lemma {:induction false} BoundIsQuadratic(k: nat)
    ensures 4 * Bound(k) <= k * k + 7 * k + 4
  {
    if k > 0 {
      BoundIsQuadratic(k - 1);
      assert (k - 1) * (k - 1) == k * k - 2 * k + 1;
    }
  }

  lemma {:induction false} Near(n: nat, k: nat, t: nat)
    requires Multiple(n, k) && t <= n <= t + Pow2(k)
    ensures Steps(n, t) <= Bound(k)
    decreases k, k + 2
  {
    if t < n {
      if k == 0 {
        assert NextHeight(n, t) == t;
      } else if SkipHeight(n) == t {
        assert NextHeight(n, t) == t;
      } else {
        InvertMultiple(n, k);
        NextIfTooFar(n, t);
        assert Pow2(1) == 2;
        Below(n, k, 1, t);
      }
    }
  }

  lemma {:induction false} EvenBelow(n: nat, k: nat, m: nat)
    requires Multiple(n, k) && n > 0 && 1 <= m <= k
    ensures Pow2(m) <= n && (n - Pow2(m)) % 2 == 0
  {
    hide Pow2;
    MultipleBelow(n, k, m);
  }

  /** Where the skip leads from just above 2^m below a multiple of 2^k. */
  lemma {:induction false} SkipBelow(n: nat, k: nat, m: nat)
    requires Multiple(n, k) && n > 0 && 1 <= m && m + 2 <= k
    ensures Pow2(m) <= Pow2(m + 2) <= n && SkipHeight(n - Pow2(m) + 1) == n - Pow2(m + 2) + 1
  {
    hide InvertLowestOne;
    hide Pow2;
    hide Multiple;
    hide SkipHeight;
    Doubles(m);
    Doubles(m + 1);
    EvenBelow(n, k, m);
    InvertBelow(n, k, m);
    InvertBelow(n, k, m + 1);
    SkipTwice(n - Pow2(m), n - Pow2(m + 1), n - Pow2(m + 2));
  }

  /** From just above 2^m below a multiple of 2^k, for odd m. */
  lemma {:induction false} Below(n: nat, k: nat, m: nat, t: nat)
    requires Multiple(n, k) && n > 0 && 1 <= m <= k && m % 2 == 1
    requires Pow2(m) <= n && t + Pow2(m) <= n + 1 && n <= t + Pow2(k)
    ensures Steps(n - Pow2(m) + 1, t) <= (k - m) / 2 + 1 + Bound(k - 1)
    decreases k, 1 + k - m
  {
    hide InvertLowestOne;
    hide NextHeight;
    hide SkipHeight;
    hide Multiple;
    hide Pow2;
    hide Bound;
    var p := n - Pow2(m) + 1;
    EvenBelow(n, k, m);
    AtLeast(n, k);
    if t < p {
      NextOfOdd(p, t);
      if m == k {
        BelowLast(n, k, t);
      } else if m + 1 == k {
        BelowSecond(n, k, t);
      } else {
        SkipBelow(n, k, m);
        if t <= n - Pow2(m + 2) + 1 {
          Below(n, k, m + 2, t);
          assert (k - m) / 2 == 1 + (k - (m + 2)) / 2;
        } else {
          BelowMiddle(n, k, m, t);
        }
      }
    }
  }

  lemma {:induction false} BelowLast(n: nat, k: nat, t: nat)
    requires Multiple(n, k) && n > 0 && k >= 1 && k % 2 == 1
    requires Pow2(k) <= n && t == n - Pow2(k)
    ensures Steps(t + 1, t) == 1
  {
    assert NextHeight(t + 1, t) == t;
  }

  /** The skip from just above 2^(k-1) below a multiple of 2^k leads below 2^k below it, or to 1. */
  lemma SkipSecond(n: nat, k: nat)
    requires Multiple(n, k) && n > 0 && k >= 2
    ensures Pow2(k - 1) < Pow2(k) <= n && (n - Pow2(k - 1)) % 2 == 0
    ensures if n == Pow2(k) then SkipHeight(n - Pow2(k - 1) + 1) == 1
            else SkipHeight(n - Pow2(k - 1) + 1) < n - Pow2(k)
  {
    hide InvertLowestOne;
    hide SkipHeight;
    hide Pow2;
    hide Multiple;
    Doubles(k - 1);
    EvenBelow(n, k, k - 1);
    MultipleBelow(n, k, k);
    InvertBelow(n, k, k - 1);
    var b := n - Pow2(k);
    SkipTwice(n - Pow2(k - 1), b, InvertLowestOne(b));
    if b > 0 {
      InvertMultiple(b, k);
    }
  }

  lemma {:induction false} BelowSecond(n: nat, k: nat, t: nat)
    requires Multiple(n, k) && n > 0 && k >= 2
    requires Pow2(k) <= n && n <= t + Pow2(k) && t + Pow2(k - 1) <= n
    ensures Steps(n - Pow2(k - 1) + 1, t) <= 1 + Bound(k - 1)
    decreases k, 1
  {
    hide NextHeight;
    hide SkipHeight;
    hide Multiple;
    hide Pow2;
    hide Bound;
    BoundPositive(k - 1);
    Doubles(k - 1);
    var p := n - Pow2(k - 1) + 1;
    hide Steps;
    SkipSecond(n, k);
    MultipleBelow(n, k, k - 1);
    NextOfOdd(p, t);
    OneStep(p, t);
    if n == Pow2(k) && t <= 1 {
      FromOne(t);
    } else {
      Near(p - 1, k - 1, t);
    }
  }

  lemma FromOne(t: nat)
    requires t <= 1
    ensures Steps(1, t) <= 1
  {
  }

  lemma {:induction false} BelowMiddle(n: nat, k: nat, m: nat, t: nat)
    requires Multiple(n, k) && n > 0 && 1 <= m && m + 2 <= k && m % 2 == 1
    requires Pow2(m + 2) <= n && n - Pow2(m + 2) + 1 < t <= n - Pow2(m)
    ensures NextHeight(n - Pow2(m) + 1, t) == n - Pow2(m) ==> Steps(n - Pow2(m) + 1, t) <= 2 + Bound(k - 1)
    decreases k, 1
  {
    hide NextHeight;
    hide Multiple;
    hide Pow2;
    hide Bound;
    hide Steps;
    Doubles(m);
    Doubles(m + 1);
    var q := n - Pow2(m);
    MultipleBelow(n, k, m);
    MultipleBelow(n, k, m + 1);
    OneStep(q + 1, t);
    if t <= n - Pow2(m + 1) {
      OneStep(q, t);
      NextOfEven(n, k, m, t);
      Near(n - Pow2(m + 1), m + 1, t);
      BoundMonotone(m + 1, k - 1);
    } else {
      Near(q, m, t);
      BoundMonotone(m, k - 1);
    }
  }

  /** The number of ones in binary. */
  function Ones(n: nat): nat {
    if n == 0 then 0 else Ones(n / 2) + n % 2
  }

  lemma {:induction false} OnesOfInvert(n: nat)
    requires n > 0
    ensures Ones(InvertLowestOne(n)) == Ones(n) - 1
  {
    hide Ones;
    hide InvertLowestOne;
    var x := n / 2;
    OnesOfDouble(x);
    if n % 2 == 1 {
      assert n == 2 * x + 1;
      InvertOdd(x);
    } else {
      assert n == 2 * x;
      OnesOfInvert(x);
      InvertEven(x);
      OnesOfDouble(InvertLowestOne(x));
    }
  }

  lemma {:induction false} OnesBound(n: nat, k: nat)
    requires n < Pow2(k)
    ensures Ones(n) <= k
  {
    if k > 0 {
      OnesBound(n / 2, k - 1);
    }
  }

  lemma OnesOfOdd(n: nat)
    requires n % 2 == 1
    ensures Ones(n) == Ones(n - 1) + 1
  {
    assert (n - 1) / 2 == n / 2;
  }

  /** The skip from an odd height has fewer ones. */
  lemma SkipOfOdd(h: nat)
    requires h % 2 == 1 && h > 1
    ensures SkipHeight(h) % 2 == 1 && Ones(SkipHeight(h)) < Ones(h)
  {
    hide InvertLowestOne;
    hide Ones;
    var g := InvertLowestOne(h - 1);
    OnesOfInvert(h - 1);
    OnesOfOdd(h);
    InvertIsEven(h - 1);
    InvertIsEven(g);
    OnesOfOdd(InvertLowestOne(g) + 1);
    if g > 0 {
      OnesOfInvert(g);
    }
  }

  lemma InvertIsEven(n: nat)
    requires n % 2 == 0
    ensures InvertLowestOne(n) % 2 == 0
  {
    InvertEven(n / 2);
  }

  /** The lowest bit of a positive number. */
  lemma {:induction false} LowestBit(n: nat, k: nat) returns (j: nat)
    requires 0 < n < Pow2(k)
    ensures j < k && Multiple(n, j) && InvertLowestOne(n) == n - Pow2(j)
    decreases k
  {
    if n % 2 == 1 {
      j := 0;
      InvertOdd(n / 2);
    } else {
      j := LowestBit(n / 2, k - 1);
      InvertEven(n / 2);
      j := j + 1;
    }
  }

  /** From an even height that is passed by although its skip would do, the skip of the height below is taken, and has fewer ones. */
  lemma PassedBy(h: nat, t: nat)
    requires h % 2 == 0 && t < SkipHeight(h) && !Skips(h, t)
    ensures h >= 2 && t <= SkipHeight(h - 1) && NextHeight(h, t) == h - 1 && NextHeight(h - 1, t) == SkipHeight(h - 1)
    ensures SkipHeight(h - 1) < SkipHeight(h) - 2
  {
    NextOfOdd(h - 1, t);
  }

  lemma PassedByOnes(h: nat, t: nat)
    requires h % 2 == 0 && t < SkipHeight(h) && !Skips(h, t)
    ensures h >= 2 && Ones(SkipHeight(h - 1)) < Ones(h)
  {
    PassedBy(h, t);
    if h % 8 == 0 {
      SkipOfEighth(h);
    } else {
      hide InvertLowestOne;
      FewerOnes(h);
      OnesOfInvert(h);
      if SkipHeight(h) > 0 {
        OnesPositive(SkipHeight(h));
      }
      TwiceInverted(h);
    }
  }

  /** From a multiple of eight the skip is never passed by. */
  lemma SkipOfEighth(h: nat)
    requires h % 8 == 0 && h > 0
    ensures SkipHeight(h - 1) + 2 >= SkipHeight(h)
  {
    EighthIsMultiple(h);
    assert Pow2(3) == 8;
    hide InvertLowestOne;
    hide SkipHeight;
    hide Pow2;
    hide Multiple;
    SkipOfEighthIs(h, 3);
    InvertMultiple(h, 3);
    SkipAfterEven(h);
  }

  lemma EighthIsMultiple(h: nat)
    requires h % 8 == 0
    ensures Multiple(h, 3)
  {
    assert (h / 2) % 2 == 0 && (h / 2 / 2) % 2 == 0;
    assert Multiple(h / 2 / 2 / 2, 0);
    assert Multiple(h / 2 / 2, 1);
    assert Multiple(h / 2, 2);
  }

  lemma OnesOfDouble(x: nat)
    ensures Ones(2 * x) == Ones(x) && Ones(2 * x + 1) == Ones(x) + 1
  {
  }

  lemma FewerOnes(h: nat)
    requires h % 2 == 0 && h % 8 != 0
    ensures h >= 2 && Ones(h - 2) <= Ones(h)
  {
    hide Ones;
    if h % 4 == 2 {
      var a := h / 4;
      assert h == 2 * (2 * a + 1) && h - 2 == 2 * (2 * a);
      OnesOfDouble(2 * a + 1);
      OnesOfDouble(2 * a);
      OnesOfDouble(a);
    } else {
      var a := h / 8;
      assert h == 2 * (2 * (2 * a + 1)) && h - 2 == 2 * (2 * (2 * a) + 1);
      OnesOfDouble(2 * (2 * a + 1));
      OnesOfDouble(2 * a + 1);
      OnesOfDouble(2 * (2 * a) + 1);
      OnesOfDouble(2 * a);
      OnesOfDouble(a);
    }
  }

  lemma OnesPositive(n: nat)
    requires n > 0
    ensures Ones(n) >= 1
  {
  }

  lemma TwiceInverted(h: nat)
    requires h % 2 == 0 && h >= 2
    ensures Ones(h - 2) >= 2 ==> Ones(SkipHeight(h - 1)) == Ones(h - 2) - 1
    ensures Ones(h - 2) < 2 ==> Ones(SkipHeight(h - 1)) <= 1
  {
    FewOnes();
    hide InvertLowestOne;
    hide Ones;
    if h > 2 {
      var x := h - 2;
      var g := InvertLowestOne(x);
      SkipAfterEven(x);
      hide SkipHeight;
      OnesOfInvert(x);
      InvertIsEven(x);
      InvertIsEven(g);
      OnesOfOdd(InvertLowestOne(g) + 1);
      if g > 0 {
        OnesOfInvert(g);
        OnesPositive(g);
      }
    }
  }

  lemma FewOnes()
    ensures Ones(0) == 0 && Ones(1) == 1
  {
  }

  /** Clearing the lowest bit, in terms of the last three bits. */
  lemma InvertEights(a: nat)
    ensures InvertLowestOne(8 * a) == 8 * InvertLowestOne(a) && InvertLowestOne(8 * a + 2) == 8 * a
    ensures InvertLowestOne(8 * a + 4) == 8 * a && InvertLowestOne(8 * a + 6) == 8 * a + 4
  {
    hide InvertLowestOne;
    InvertEven(a);
    InvertEven(2 * a);
    InvertEven(4 * a);
    InvertOdd(2 * a);
    InvertEven(4 * a + 1);
    assert 4 * a + 1 == 2 * (2 * a) + 1 && 8 * a + 2 == 2 * (4 * a + 1);
    InvertOdd(a);
    InvertEven(2 * a + 1);
    InvertEven(4 * a + 2);
    assert 4 * a + 2 == 2 * (2 * a + 1) && 8 * a + 4 == 2 * (4 * a + 2);
    InvertOdd(2 * a + 1);
    InvertEven(4 * a + 3);
    assert 4 * a + 3 == 2 * (2 * a + 1) + 1 && 8 * a + 6 == 2 * (4 * a + 3);
  }

  lemma SameSkipsAt(a: nat)
    ensures SkipHeight(8 * a + 3) == SkipHeight(8 * a + 5) == 8 * InvertLowestOne(a) + 1
  {
    hide InvertLowestOne;
    hide SkipHeight;
    InvertEights(a);
    EvenEights(a);
    SkipTwice(8 * a + 2, 8 * a, 8 * InvertLowestOne(a));
    SkipTwice(8 * a + 4, 8 * a, 8 * InvertLowestOne(a));
  }

  lemma EvenEights(a: nat)
    ensures (8 * a + 2) % 2 == 0 && (8 * a + 4) % 2 == 0
  {
    EvenDouble(4 * a + 1);
    EvenDouble(4 * a + 2);
    assert 8 * a + 2 == 2 * (4 * a + 1) && 8 * a + 4 == 2 * (4 * a + 2);
  }

  lemma EvenDouble(x: nat)
    ensures (2 * x) % 2 == 0
  {
  }

  /** From four above a multiple of eight the heights on both sides have the same skip. */
  lemma SameSkips(q: nat)
    requires q % 8 == 4
    ensures SkipHeight(q - 1) == SkipHeight(q + 1) && SkipHeight(q + 1) < q - 2
  {
    hide SkipHeight;
    var a := q / 8;
    assert q == 8 * a + 4;
    SameSkipsAt(a);
    assert InvertLowestOne(a) <= a;
  }

  /** Whether a step down to an odd height may come before its skip. */
  function Late(h: nat, t: nat): nat {
    if h % 8 == 4 && SkipHeight(h - 1) >= t then 1 else 0
  }

  lemma NotLateAfterSkip(h: nat, t: nat)
    requires t < h && h % 2 == 0 && Skips(h, t) && SkipHeight(h) > 0
    ensures Late(SkipHeight(h), t) == 0
  {
    var s := SkipHeight(h);
    if s % 8 == 4 {
      SixAboveEighth(h);
      SameSkips(s);
    }
  }

  /** Clearing the lowest bit leads to four above a multiple of eight only from six above it. */
  lemma SixAboveEighth(h: nat)
    requires h > 0 && h % 2 == 0 && SkipHeight(h) % 8 == 4
    ensures SkipHeight(h) == h - 2
  {
    hide InvertLowestOne;
    hide SkipHeight;
    SkipAfterEven(h);
    var a := h / 8;
    InvertEights(a);
    EvenRest(h);
  }

  lemma EvenRest(h: nat)
    requires h % 2 == 0
    ensures var a := h / 8; h == 8 * a || h == 8 * a + 2 || h == 8 * a + 4 || h == 8 * a + 6
  {
  }

  lemma SkipOfTwoAt(a: nat)
    ensures SkipHeight(4 * a + 2) == 4 * a && Ones(4 * a + 2) == Ones(4 * a) + 1
  {
    hide Ones;
    hide InvertLowestOne;
    hide SkipHeight;
    assert 4 * a + 2 == 2 * (2 * a + 1) && 4 * a == 2 * (2 * a);
    OnesOfDouble(2 * a + 1);
    OnesOfDouble(2 * a);
    OnesOfDouble(a);
    InvertEven(2 * a + 1);
    InvertOdd(a);
    SkipAfterEven(4 * a + 2);
  }

  lemma SkipOfTwo(h: nat)
    requires h % 4 == 2
    ensures SkipHeight(h) == h - 2 && Ones(h) == Ones(h - 2) + 1
  {
    hide Ones;
    hide SkipHeight;
    var a := h / 4;
    assert h == 4 * a + 2;
    SkipOfTwoAt(a);
  }

  lemma SkipOverOneBit(h: nat)
    requires h % 2 == 0 && h > 2 && Ones(h - 2) == 1
    ensures SkipHeight(h - 1) == 1
  {
    hide InvertLowestOne;
    hide SkipHeight;
    var x := h - 2;
    OnesOfInvert(x);
    SkipAfterEven(x);
    if InvertLowestOne(x) > 0 {
      OnesPositive(InvertLowestOne(x));
    }
  }

  lemma PassedByTwoOnes(h: nat)
    requires h % 4 == 2 && h > 2
    ensures Ones(SkipHeight(h - 1)) + 2 <= Ones(h) || (SkipHeight(h - 1) == 1 && Ones(h) >= 2)
  {
    hide Ones;
    hide SkipHeight;
    SkipOfTwo(h);
    EvenIfTwo(h);
    TwiceInverted(h);
    OnesPositive(h - 2);
    if Ones(h - 2) < 2 {
      SkipOverOneBit(h);
    }
  }

  lemma EvenIfTwo(h: nat)
    requires h % 4 == 2
    ensures h % 2 == 0
  {
  }

  lemma PassedBySteps(h: nat, t: nat, b: nat)
    requires h % 2 == 0 && t < SkipHeight(h) && !Skips(h, t) && b >= 3
    requires h >= 2 && t <= SkipHeight(h - 1) && SkipHeight(h - 1) > 0
    requires Steps(SkipHeight(h - 1), t) + 1 <= Ones(SkipHeight(h - 1)) + b
    ensures Steps(SkipHeight(h - 1), t) + 3 <= Ones(h) + Late(h, t) + b
  {
    hide Ones;
    hide SkipHeight;
    hide Steps;
    hide Skips;
    PassedByOnes(h, t);
    PassedBy(h, t);
    if h % 4 == 2 {
      PassedByTwoOnes(h);
      if SkipHeight(h - 1) == 1 {
        FromOne(t);
      }
    } else {
      FourOrEight(h);
      if h % 8 == 0 {
        SkipOfEighth(h);
      }
    }
  }

  lemma FourOrEight(h: nat)
    requires h % 2 == 0 && h % 4 != 2
    ensures h % 8 == 0 || h % 8 == 4
  {
  }

  lemma NotAtTarget(h: nat, t: nat)
    requires t < h && !Skips(h, t) && SkipHeight(h) >= t
    ensures t < SkipHeight(h)
  {
    hide SkipHeight;
  }

  lemma SkipIsNext(h: nat, t: nat)
    requires t < h && Skips(h, t)
    ensures NextHeight(h, t) == SkipHeight(h) >= t
  {
    hide SkipHeight;
  }

  /** The steps of GetAncestor, in terms of the number of bits of the height it starts from. */
  lemma {:induction false} StepsBound(h: nat, t: nat, k: nat)
    requires t <= h < Pow2(k) && h > 0 && k >= 1
    ensures Steps(h, t) + 1 <= Ones(h) + Late(h, t) + Bound(k - 1)
    decreases h, 1
  {
    hide InvertLowestOne;
    hide Ones;
    hide Pow2;
    hide Bound;
    hide SkipHeight;
    hide Skips;
    hide NextHeight;
    BoundPositive(k - 1);
    OnesPositive(h);
    if t < h {
      if h % 2 == 1 {
        OddStepsBound(h, t, k);
      } else if Skips(h, t) {
        SkipStepsBound(h, t, k);
      } else if SkipHeight(h) < t {
        FarStepsBound(h, t, k);
      } else {
        PassedStepsBound(h, t, k);
      }
    } else {
      NoSteps(h);
    }
  }

  lemma NoSteps(h: nat)
    ensures Steps(h, h) == 0
  {
  }

  lemma {:induction false} SkipStepsBound(h: nat, t: nat, k: nat)
    requires t < h < Pow2(k) && h % 2 == 0 && k >= 1 && Skips(h, t)
    ensures Steps(h, t) + 1 <= Ones(h) + Late(h, t) + Bound(k - 1)
    decreases h, 0
  {
    hide InvertLowestOne;
    hide Ones;
    hide Pow2;
    hide Bound;
    hide SkipHeight;
    hide Skips;
    hide NextHeight;
    hide Steps;
    BoundPositive(k - 1);
    OneStep(h, t);
    SkipIsNext(h, t);
    OnesOfInvert(h);
    SkipAfterEven(h);
    if SkipHeight(h) > 0 {
      NotLateAfterSkip(h, t);
      StepsBound(SkipHeight(h), t, k);
    } else {
      OnesPositive(h);
      NoSteps(t);
    }
  }

  lemma FarStepsBound(h: nat, t: nat, k: nat)
    requires t < h < Pow2(k) && h % 2 == 0 && k >= 1 && SkipHeight(h) < t
    ensures Steps(h, t) + 1 <= Ones(h) + Late(h, t) + Bound(k - 1)
  {
    hide InvertLowestOne;
    hide Ones;
    hide Pow2;
    hide Bound;
    hide SkipHeight;
    hide Steps;
    OnesPositive(h);
    var j := LowestBit(h, k);
    SkipAfterEven(h);
    Near(h, j, t);
    BoundMonotone(j, k - 1);
  }

  lemma {:induction false} PassedStepsBound(h: nat, t: nat, k: nat)
    requires t < h < Pow2(k) && h % 2 == 0 && k >= 1 && !Skips(h, t) && SkipHeight(h) >= t
    ensures Steps(h, t) + 1 <= Ones(h) + Late(h, t) + Bound(k - 1)
    decreases h, 0
  {
    hide InvertLowestOne;
    hide Ones;
    hide Pow2;
    hide Bound;
    hide SkipHeight;
    hide NextHeight;
    hide Steps;
    hide Skips;
    NotAtTarget(h, t);
    PassedBy(h, t);
    FourBits(h, k, t);
    SkipOfOdd(h - 1);
    StepsBound(SkipHeight(h - 1), t, k);
    TwoSteps(h, t);
    PassedBySteps(h, t, Bound(k - 1));
  }

  /** A height that is passed by has a bound of at least three. */
  lemma FourBits(h: nat, k: nat, t: nat)
    requires h % 2 == 0 && t < SkipHeight(h) && !Skips(h, t) && h < Pow2(k)
    ensures h >= 4 && k >= 2 && Bound(k - 1) >= 3
  {
    PassedBy(h, t);
    hide Skips;
    hide SkipHeight;
    TwoBits(h, k);
    BoundPositive(k - 1);
  }

  lemma TwoBits(h: nat, k: nat)
    requires 2 <= h < Pow2(k)
    ensures k >= 2
  {
    if k < 2 {
      Pow2Monotone(k, 1);
    }
  }

  lemma {:induction false} OddStepsBound(h: nat, t: nat, k: nat)
    requires t < h < Pow2(k) && h % 2 == 1 && k >= 1
    ensures Steps(h, t) + 1 <= Ones(h) + Bound(k - 1)
    decreases h, 0
  {
    hide InvertLowestOne;
    hide Ones;
    hide Pow2;
    hide Bound;
    hide SkipHeight;
    hide NextHeight;
    hide Steps;
    BoundPositive(k - 1);
    FewOnes();
    if h > 1 {
      NextOfOdd(h, t);
      OneStep(h, t);
      OnesOfOdd(h);
      SkipOfOdd(h);
      if SkipHeight(h) < t && (h - 1) % 8 == 4 {
        SameSkips(h - 1);
      }
      StepsBound(NextHeight(h, t), t, k);
    } else {
      FromOne(t);
    }
  }

  lemma TwoSteps(h: nat, t: nat)
    requires h >= 2 && t < h - 1 && NextHeight(h, t) == h - 1
    ensures Steps(h, t) == 2 + Steps(NextHeight(h - 1, t), t)
  {
    hide NextHeight;
  }

  /** So they grow at most with the square of the number of bits. */
  lemma StepsAreFew(h: nat, t: nat, k: nat)
    requires t <= h < Pow2(k) && k >= 1
    ensures 4 * Steps(h, t) <= k * k + 9 * k
  {
    if h > 0 {
      StepsBound(h, t, k);
      OnesBound(h, k);
      BoundIsQuadratic(k - 1);
      assert (k - 1) * (k - 1) == k * k - 2 * k + 1;
    }
  }

  /** At most 121 steps for any two heights below 2^18. */
  lemma StepsFor18Bits(h: nat, t: nat)
    requires t <= h < 0x4_0000
    ensures Steps(h, t) <= 121
  {
    assert Pow2(18) == 0x4_0000 by { Pow2Is16(); }
    StepsAreFew(h, t, 18);
  }
}
