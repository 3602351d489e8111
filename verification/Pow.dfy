/**
Difficulty (src/pow.cpp, with the derived parameters of src/consensus/params.cpp
and the assertions of src/chainparams.cpp).  The 256-bit computation is proved
equal to the same formulas over unbounded numbers, so no step of it wraps.
*/
module Pow {
  import opened Common
  import opened Arith
  import opened BaseUint
  import opened Compact

  datatype Params = Params(
    powLimit: nat,
    nPowAveragingWindow: nat,
    nPowMaxAdjustDown: nat,
    nPowMaxAdjustUp: nat,
    nPowAllowMinDifficultyBlocksAfterHeight: Option<nat>,
    blossomHeight: Option<nat>,
    nPreBlossomPowTargetSpacing: nat,
    nPostBlossomPowTargetSpacing: nat)

  /** An entry of the chain: its encoded target, its time and its median time past. */
  datatype Block = Block(nBits: uint32, time: int, medianTimePast: int)

  function PoWTargetSpacing(p: Params, nHeight: nat): nat {
    if p.blossomHeight.Some? && nHeight >= p.blossomHeight.value
    then p.nPostBlossomPowTargetSpacing
    else p.nPreBlossomPowTargetSpacing
  }

  function AveragingWindowTimespan(p: Params, nHeight: nat): (r: nat) {
    Times(p.nPowAveragingWindow, PoWTargetSpacing(p, nHeight))
  }

  function MinActualTimespan(p: Params, nHeight: nat): nat
    requires p.nPowMaxAdjustUp <= 100
  {
    Times(AveragingWindowTimespan(p, nHeight), 100 - p.nPowMaxAdjustUp) / 100
  }

  function MaxActualTimespan(p: Params, nHeight: nat): nat {
    Times(AveragingWindowTimespan(p, nHeight), 100 + p.nPowMaxAdjustDown) / 100
  }

  /**
  What chain parameters satisfy: a window of targets fits 256 bits (the assertion beside
  the parameters), spacings are positive, adjustments are percentages below the window
  itself, and timespans fit the 32-bit factor of the retarget product.
  */
  ghost predicate WellFormed(p: Params) {
    && 0 < p.powLimit < MODULUS
    && 0 < p.nPowAveragingWindow <= (MODULUS - 1) / p.powLimit
    && p.nPowAveragingWindow < BASE
    && p.nPowMaxAdjustUp <= 100 && 100 + p.nPowMaxAdjustDown <= 100 * p.nPowAveragingWindow
    && SpacingFits(p, p.nPreBlossomPowTargetSpacing) && SpacingFits(p, p.nPostBlossomPowTargetSpacing)
  }

  ghost predicate SpacingFits(p: Params, spacing: nat) {
    0 < spacing && (p.nPowAveragingWindow * spacing) * (100 + p.nPowMaxAdjustDown) < 100 * BASE
  }

  /** The parameters of the main and the test network: a limit of 2^k - 1 for k = 243 or 251. */
  lemma NetworkIsWellFormed(p: Params, k: nat)
    requires k <= 251 && p.powLimit == Pow2(k) - 1 && p.powLimit > 0
    requires SharedParams(p) && p.nPowMaxAdjustDown == 32 && p.nPowMaxAdjustUp == 16
    ensures WellFormed(p)
  {
    hide Pow2;
    Pow2Add(k, 256 - k);
    ThirtyTwo(256 - k);
    MulMono(32, Pow2(256 - k), Pow2(k));
    LimitFits(MODULUS - 1, p.powLimit, 17);
  }

  /** The parameters of the regression-test network: a limit of (2^256 - 1) / 17. */
  lemma RegtestIsWellFormed(p: Params)
    requires 17 * p.powLimit == MODULUS - 1
    requires SharedParams(p) && p.nPowMaxAdjustDown == 0 && p.nPowMaxAdjustUp == 0
    ensures WellFormed(p)
  {
    LimitFits(MODULUS - 1, p.powLimit, 17);
  }

  lemma ThirtyTwo(n: nat)
    requires n >= 5
    ensures Pow2(n) >= 32
  {
    assert Pow2(5) == 32;
    Pow2Monotone(5, n);
  }

  predicate SharedParams(p: Params) {
    p.nPowAveragingWindow == 17 && p.nPreBlossomPowTargetSpacing == 150 && p.nPostBlossomPowTargetSpacing == 75
  }

  lemma LimitFits(n: nat, limit: nat, window: nat)
    requires window * limit <= n && limit > 0
    ensures window <= n / limit
  {
    Euclid(n, limit);
    if n / limit < window {
      MulMono(n / limit + 1, window, limit);
    }
  }

  /** A window of targets at the limit does not reach 2^256. */
  lemma WindowFits(p: Params)
    requires WellFormed(p)
    ensures p.nPowAveragingWindow * p.powLimit < MODULUS && p.powLimit < MODULUS
  {
    var q := (MODULUS - 1) / p.powLimit;
    Euclid(MODULUS - 1, p.powLimit);
    MulMono(p.nPowAveragingWindow, q, p.powLimit);
  }

  lemma SpansFit(p: Params, h: nat)
    requires WellFormed(p)
    ensures 0 < AveragingWindowTimespan(p, h) < BASE
    ensures MinActualTimespan(p, h) <= AveragingWindowTimespan(p, h) <= MaxActualTimespan(p, h) < BASE
    ensures MaxActualTimespan(p, h) <= p.nPowAveragingWindow * AveragingWindowTimespan(p, h)
  {
    var spacing := PoWTargetSpacing(p, h);
    assert SpacingFits(p, spacing);
    var span := AveragingWindowTimespan(p, h);
    MulMono(1, spacing, p.nPowAveragingWindow);
    Percentages(span, p.nPowMaxAdjustUp, p.nPowMaxAdjustDown, p.nPowAveragingWindow);
  }

  lemma Percentages(span: nat, up: nat, down: nat, window: nat)
    requires up <= 100 && 100 + down <= 100 * window && span * (100 + down) < 100 * BASE
    ensures (span * (100 - up)) / 100 <= span <= (span * (100 + down)) / 100 < BASE
    ensures (span * (100 + down)) / 100 <= window * span
  {
    MulMono(100 - up, 100, span);
    MulMono(100, 100 + down, span);
    MulMono(100 + down, 100 * window, span);
    Assoc(100, window, span);
  }

  //
  // The computation over unbounded numbers.
  //

  /** The C++ quotient, which truncates toward zero. */
  function TruncDiv(a: int, b: nat): (r: int)
    requires b > 0
  {
    if a >= 0 then a / b else -((-a) / b)
  }

  function Clamp(x: int, lo: nat, hi: nat): (r: nat)
    requires lo <= hi
    ensures lo <= r <= hi && (lo <= x <= hi ==> r == x)
  {
    if x < lo then lo else if x > hi then hi else x
  }

  /** The damped and limited timespan (lines 71-81). */
  function ActualTimespan(p: Params, last: int, first: int, h: nat): (r: nat)
    requires p.nPowMaxAdjustUp <= 100 && MinActualTimespan(p, h) <= MaxActualTimespan(p, h)
    ensures MinActualTimespan(p, h) <= r <= MaxActualTimespan(p, h)
  {
    var span := AveragingWindowTimespan(p, h);
    Clamp(span + TruncDiv(last - first - span, 4), MinActualTimespan(p, h), MaxActualTimespan(p, h))
  }

  function Min(a: nat, b: nat): nat { if a <= b then a else b }

  /** The new target: the average scaled by actual over expected timespan, at most the limit. */
  function NextTarget(avg: nat, span: nat, actual: nat, limit: nat): (r: nat)
    requires span > 0
    ensures r <= limit
  {
    Min(Times(Quot(avg, span), actual), limit)
  }

  function Targets(chain: seq<Block>, n: nat): nat
    requires n <= |chain|
  {
    if n == 0 then 0 else Written(chain[|chain| - n].nBits) + Targets(chain, n - 1)
  }

  /** Decodes without a flag to a number between zero and the limit. */
  ghost predicate TargetOk(c: uint32, limit: nat) {
    !Negative(c) && !Overflows(c) && Written(c) <= limit
  }

  ghost predicate TargetsOk(chain: seq<Block>, limit: nat) {
    forall i :: 0 <= i < |chain| ==> TargetOk(chain[i].nBits, limit)
  }

  predicate MinDifficultyAllowed(chain: seq<Block>, newTime: Option<int>, p: Params)
    requires chain != []
  {
    var h := |chain| - 1;
    && p.nPowAllowMinDifficultyBlocksAfterHeight.Some?
    && h >= p.nPowAllowMinDifficultyBlocksAfterHeight.value
    && newTime.Some?
    && newTime.value > chain[h].time + PoWTargetSpacing(p, h + 1) * 6
  }

  /** The target required of the block after the chain, before encoding. */
  ghost function RequiredTarget(chain: seq<Block>, newTime: Option<int>, p: Params): (r: nat)
    requires WellFormed(p)
    ensures r <= p.powLimit
  {
    var h, n := |chain| - 1, p.nPowAveragingWindow;
    if |chain| <= n || MinDifficultyAllowed(chain, newTime, p) then p.powLimit
    else
      SpansFit(p, h + 1);
      NextTarget(Quot(Targets(chain, n), n), AveragingWindowTimespan(p, h + 1),
                 ActualTimespan(p, chain[h].medianTimePast, chain[h - n].medianTimePast, h + 1), p.powLimit)
  }

  //
  // What is promised.
  //

  lemma {:induction false} TargetsBound(chain: seq<Block>, n: nat, limit: nat)
    requires n <= |chain| && TargetsOk(chain, limit)
    ensures Targets(chain, n) <= n * limit
  {
    if n > 0 {
      TargetsBound(chain, n - 1, limit);
      assert TargetOk(chain[|chain| - n].nBits, limit);
      Distribute(n - 1, 1, 1, limit);
    }
  }

  /** The retarget product stays below the number of targets times the limit, so below 2^256. */
  lemma ProductFits(avg: nat, span: nat, actual: nat, window: nat, limit: nat)
    requires span > 0 && avg <= limit && actual <= window * span
    ensures avg / span >= 0 && (avg / span) * actual <= window * limit
  {
    DivAtMost(avg, span);
    Euclid(avg, span);
    var q := avg / span;
    MulMono(actual, window * span, q);
    Assoc(q, window, span);
    Assoc(window, q, span);
    MulMono(q * span, limit, window);
  }

  lemma AverageBound(chain: seq<Block>, p: Params)
    requires WellFormed(p) && TargetsOk(chain, p.powLimit) && p.nPowAveragingWindow <= |chain|
    ensures Targets(chain, p.nPowAveragingWindow) < MODULUS
    ensures 0 <= Targets(chain, p.nPowAveragingWindow) / p.nPowAveragingWindow <= p.powLimit
  {
    var n := p.nPowAveragingWindow;
    TargetsBound(chain, n, p.powLimit);
    WindowFits(p);
    var t := Targets(chain, n);
    Euclid(t, n);
    DivAtMost(t, n);
    if t / n > p.powLimit {
      MulStrict(p.powLimit, t / n, n);
    }
  }

  /** An encoded target at most the limit decodes to one at most the limit, without a flag. */
  lemma EncodedOk(v: nat, limit: nat)
    requires v <= limit < MODULUS
    ensures Encoded(v, false) < BASE && TargetOk(Encoded(v, false), limit)
    ensures v > 0 ==> Written(Encoded(v, false)) > 0
  {
    ZeroEncoded(v, false);
    if v > 0 {
      RoundTrip(v, false);
      var c := Encoded(v, false);
      OverflowIsExact(c);
      Within(Written(c), MODULUS);
    } else {
      ZeroOk(Encoded(v, false));
    }
  }

  lemma ZeroOk(c: uint32)
    requires c == 0
    ensures Written(c) == 0 && !Negative(c) && !Overflows(c)
  {
    assert Mantissa(c) == 0;
    assert Word(c) == 0;
    ZeroWritten(c);
  }

  /**
  Along every chain whose blocks carry the required targets, for whatever block times, every
  target decodes without a flag to at most the limit.
  */
  lemma RunTargetsOk(chain: seq<Block>, newTimes: seq<Option<int>>, p: Params)
    requires WellFormed(p) && |newTimes| == |chain|
    requires forall i :: 0 <= i < |chain| ==> chain[i].nBits == Encoded(RequiredTarget(chain[..i], newTimes[i], p), false)
    ensures TargetsOk(chain, p.powLimit)
  {
    forall i | 0 <= i < |chain|
      ensures TargetOk(chain[i].nBits, p.powLimit)
    {
      EncodedOk(RequiredTarget(chain[..i], newTimes[i], p), p.powLimit);
    }
  }

  /** The retarget comes to zero exactly when the average is below the expected timespan or the limited timespan is zero. */
  lemma ZeroTargetIff(avg: nat, span: nat, actual: nat, limit: nat)
    requires span > 0 && limit > 0
    ensures NextTarget(avg, span, actual, limit) == 0 <==> avg < span || actual == 0
  {
    DivAtMost(avg, span);
    Euclid(avg, span);
    if avg >= span {
      assert avg / span >= 1 by { if avg / span < 1 { MulMono(avg / span, 0, span); } }
      MulMono(1, avg / span, actual);
    } else {
      Within(avg, span);
      DivUnique(0, avg, span, avg);
    }
  }

  /** The chain is long enough for a retarget and the special rule does not apply. */
  predicate Retargets(chain: seq<Block>, newTime: Option<int>, p: Params) {
    |chain| > p.nPowAveragingWindow && !MinDifficultyAllowed(chain, newTime, p)
  }

  ghost function WindowAverage(chain: seq<Block>, p: Params): nat
    requires WellFormed(p) && p.nPowAveragingWindow <= |chain|
  {
    Quot(Targets(chain, p.nPowAveragingWindow), p.nPowAveragingWindow)
  }

  /** The timespan that the retarget after the chain works with. */
  ghost function LimitedTimespan(chain: seq<Block>, p: Params): nat
    requires WellFormed(p) && p.nPowAveragingWindow < |chain|
  {
    SpansFit(p, |chain|);
    var h := |chain| - 1;
    ActualTimespan(p, chain[h].medianTimePast, chain[h - p.nPowAveragingWindow].medianTimePast, |chain|)
  }

  //
  // The required target without the formulas: what each of its parts is, by inequalities on the chain itself.
  //

  /** The sum of the targets of a list of blocks. */
  function Total(blocks: seq<Block>): nat {
    if blocks == [] then 0 else Written(blocks[0].nBits) + Total(blocks[1..])
  }

  lemma {:induction false} TargetsIsTotal(chain: seq<Block>, n: nat)
    requires n <= |chain|
    ensures Targets(chain, n) == Total(chain[|chain| - n..])
  {
    hide Written;
    if n > 0 {
      TargetsIsTotal(chain, n - 1);
      assert chain[|chain| - n..][1..] == chain[|chain| - (n - 1)..];
    }
  }

  /**
  A timespan r that differs from the expected one by a quarter of what the actual one does, rounded toward
  the expected one, unless it meets the least or the greatest one.
  */
  ghost predicate IsDamped(actual: int, span: int, lo: int, hi: int, r: int) {
    && lo <= r <= hi
    && (actual >= span ==> 4 * (r - span) <= actual - span && (r < hi ==> actual - span < 4 * (r - span) + 4))
    && (actual < span ==> 4 * (span - r) <= span - actual && (r > lo ==> span - actual < 4 * (span - r) + 4))
  }

  /** Which part of what: span, limits and damped timespan r of the window, its average, and the new target t. */
  ghost predicate IsRetarget(chain: seq<Block>, p: Params, span: nat, lo: nat, hi: nat, r: nat, avg: nat, q: nat, t: nat)
    requires p.nPowAveragingWindow < |chain|
  {
    var n, h := p.nPowAveragingWindow, |chain| - 1;
    && span == n * (if p.blossomHeight.Some? && p.blossomHeight.value <= h + 1 then p.nPostBlossomPowTargetSpacing
                    else p.nPreBlossomPowTargetSpacing)
    && 100 * lo <= span * (100 - p.nPowMaxAdjustUp) < 100 * lo + 100
    && 100 * hi <= span * (100 + p.nPowMaxAdjustDown) < 100 * hi + 100
    && IsDamped(chain[h].medianTimePast - chain[h - n].medianTimePast, span, lo, hi, r)
    && avg * n <= Total(chain[|chain| - n..]) < avg * n + n
    && q * span <= avg < q * span + span
    && t == if q * r <= p.powLimit then q * r else p.powLimit
  }

  /** The special rule of the test network: the new block comes more than six spacings after the last one. */
  ghost predicate IsLate(chain: seq<Block>, newTime: Option<int>, p: Params) {
    && chain != [] && p.nPowAllowMinDifficultyBlocksAfterHeight.Some? && newTime.Some?
    && |chain| - 1 >= p.nPowAllowMinDifficultyBlocksAfterHeight.value
    && newTime.value - chain[|chain| - 1].time
       > 6 * if p.blossomHeight.Some? && p.blossomHeight.value <= |chain| then p.nPostBlossomPowTargetSpacing
             else p.nPreBlossomPowTargetSpacing
  }

  /** The target t is required of the block after the chain. */
  ghost predicate IsRequired(chain: seq<Block>, newTime: Option<int>, p: Params, t: nat) {
    if |chain| <= p.nPowAveragingWindow || IsLate(chain, newTime, p) then t == p.powLimit
    else exists span: nat, lo: nat, hi: nat, r: nat, avg: nat, q: nat :: IsRetarget(chain, p, span, lo, hi, r, avg, q, t)
  }

  /** The timespan of every retarget is the damped one. */
  lemma TimespanIsDamped(chain: seq<Block>, p: Params)
    requires WellFormed(p) && p.nPowAveragingWindow < |chain|
    ensures var h, n := |chain| - 1, p.nPowAveragingWindow;
            IsDamped(chain[h].medianTimePast - chain[h - n].medianTimePast, AveragingWindowTimespan(p, |chain|),
                     MinActualTimespan(p, |chain|), MaxActualTimespan(p, |chain|), LimitedTimespan(chain, p))
  {
    SpansFit(p, |chain|);
  }

  lemma RequiredIs(chain: seq<Block>, newTime: Option<int>, p: Params)
    requires WellFormed(p)
    ensures IsRequired(chain, newTime, p, RequiredTarget(chain, newTime, p))
  {
    if |chain| > p.nPowAveragingWindow && !IsLate(chain, newTime, p) {
      assert Retargets(chain, newTime, p);
      RetargetIs(chain, newTime, p);
    }
  }

  lemma RetargetIs(chain: seq<Block>, newTime: Option<int>, p: Params)
    requires WellFormed(p) && Retargets(chain, newTime, p)
    ensures var span := AveragingWindowTimespan(p, |chain|);
            && span > 0
            && IsRetarget(chain, p, span, MinActualTimespan(p, |chain|), MaxActualTimespan(p, |chain|), LimitedTimespan(chain, p),
                          WindowAverage(chain, p), Quot(WindowAverage(chain, p), span), RequiredTarget(chain, newTime, p))
  {
    hide IsDamped;
    var n, span := p.nPowAveragingWindow, AveragingWindowTimespan(p, |chain|);
    SpansFit(p, |chain|);
    TimespanIsDamped(chain, p);
    TargetsIsTotal(chain, n);
    hide Total;
    Euclid(Targets(chain, n), n);
    Euclid(WindowAverage(chain, p), span);
  }

  lemma QuotientUnique(a: nat, b: nat, d: nat, x: nat)
    requires a * d <= x < a * d + d && b * d <= x < b * d + d
    ensures a == b
  {
    if a < b {
      MulStrict(a, b, d);
    } else if b < a {
      MulStrict(b, a, d);
    }
  }

  /** So the rules leave no choice: one target is required after a chain. */
  lemma RequiredUnique(chain: seq<Block>, newTime: Option<int>, p: Params, t: nat)
    requires WellFormed(p) && IsRequired(chain, newTime, p, t)
    ensures t == RequiredTarget(chain, newTime, p)
  {
    if |chain| > p.nPowAveragingWindow && !IsLate(chain, newTime, p) {
      hide IsDamped;
      hide Total;
      hide RequiredTarget;
      assert Retargets(chain, newTime, p);
      var span: nat, lo: nat, hi: nat, r: nat, avg: nat, q: nat :| IsRetarget(chain, p, span, lo, hi, r, avg, q, t);
      RetargetIs(chain, newTime, p);
      var lo', hi', r' := MinActualTimespan(p, |chain|), MaxActualTimespan(p, |chain|), LimitedTimespan(chain, p);
      assert lo == lo' && hi == hi';
      var h := |chain| - 1;
      SpansFit(p, |chain|);
      DampedUnique(chain[h].medianTimePast - chain[h - p.nPowAveragingWindow].medianTimePast, span, lo, hi, r, r');
      QuotientUnique(avg, WindowAverage(chain, p), p.nPowAveragingWindow, Total(chain[|chain| - p.nPowAveragingWindow..]));
      QuotientUnique(q, Quot(avg, span), span, avg);
    }
  }

  lemma DampedUnique(actual: int, span: int, lo: int, hi: int, r: int, r': int)
    requires lo <= span <= hi && IsDamped(actual, span, lo, hi, r) && IsDamped(actual, span, lo, hi, r')
    ensures r == r'
  {
  }

  /** The target required after a chain is zero exactly in these cases. */
  lemma RequiredZeroIff(chain: seq<Block>, newTime: Option<int>, p: Params)
    requires WellFormed(p)
    ensures RequiredTarget(chain, newTime, p) == 0 <==>
            && Retargets(chain, newTime, p)
            && (WindowAverage(chain, p) < AveragingWindowTimespan(p, |chain|) || LimitedTimespan(chain, p) == 0)
  {
    if Retargets(chain, newTime, p) {
      SpansFit(p, |chain|);
      ZeroTargetIff(WindowAverage(chain, p), AveragingWindowTimespan(p, |chain|), LimitedTimespan(chain, p), p.powLimit);
    }
  }

  /** Where the least timespan is positive, a low average is the only cause. */
  lemma ZeroIffLowAverage(chain: seq<Block>, newTime: Option<int>, p: Params)
    requires WellFormed(p) && MinActualTimespan(p, |chain|) > 0
    ensures RequiredTarget(chain, newTime, p) == 0 <==>
            Retargets(chain, newTime, p) && WindowAverage(chain, p) < AveragingWindowTimespan(p, |chain|)
  {
    RequiredZeroIff(chain, newTime, p);
    SpansFit(p, |chain|);
  }

  /** So it is on all three networks. */
  lemma NetworkSpansPositive(p: Params, h: nat)
    requires SharedParams(p) && p.nPowMaxAdjustUp <= 16
    ensures MinActualTimespan(p, h) > 0
  {
    var span := AveragingWindowTimespan(p, h);
    assert span == 2550 || span == 1275;
    MulMono(84, 100 - p.nPowMaxAdjustUp, span);
  }

  /** After targets that are all below the averaging timespan the next one is zero, which no hash can meet. */
  lemma LowTargetsGiveZero(chain: seq<Block>, newTime: Option<int>, p: Params)
    requires WellFormed(p) && Retargets(chain, newTime, p)
    requires TargetsOk(chain, AveragingWindowTimespan(p, |chain|) - 1)
    ensures RequiredTarget(chain, newTime, p) == 0
    ensures Encoded(RequiredTarget(chain, newTime, p), false) == 0 && Written(0) == 0
  {
    SpansFit(p, |chain|);
    var n, limit := p.nPowAveragingWindow, AveragingWindowTimespan(p, |chain|) - 1;
    TargetsBound(chain, n, limit);
    var t := Targets(chain, n);
    Euclid(t, n);
    DivAtMost(t, n);
    if t / n > limit {
      MulStrict(limit, t / n, n);
    }
    RequiredZeroIff(chain, newTime, p);
    ZeroEncoded(0, false);
    ZeroOk(0);
  }

  /** Such a chain: eighteen blocks of target one, at the expected distance. */
  lemma LowTargetsExample(p: Params) returns (chain: seq<Block>)
    requires WellFormed(p) && SharedParams(p) && p.nPowAllowMinDifficultyBlocksAfterHeight == None
    ensures |chain| == 18 && TargetsOk(chain, p.powLimit) && RequiredTarget(chain, None, p) == 0
  {
    var c: uint32 := 0x0300_0001;
    OneOk(c);
    chain := seq(18, i => Block(c, 150 * i, 150 * i));
    assert AveragingWindowTimespan(p, 18) == 2550 || AveragingWindowTimespan(p, 18) == 1275;
    forall i | 0 <= i < 18 ensures TargetOk(chain[i].nBits, 1) {
      assert chain[i].nBits == c;
    }
    LowTargetsGiveZero(chain, None, p);
  }

  lemma OneOk(c: uint32)
    requires c == 0x0300_0001
    ensures TargetOk(c, 1)
  {
    assert Size(c) == 3 && Mantissa(c) == 1;
    assert Shr(1, 0) == 1;
  }

  //
  // A chain with the required targets that comes to zero.
  //

  /** Every block carries the required target, and the median times are one second apart. */
  ghost predicate Fast(chain: seq<Block>, p: Params)
    requires WellFormed(p)
  {
    forall i {:trigger chain[i]} :: 0 <= i < |chain| ==>
      && chain[i].medianTimePast == i
      && chain[i].nBits == Encoded(RequiredTarget(chain[..i], None, p), false)
  }

  ghost predicate AtMost(chain: seq<Block>, from: int, m: nat) {
    forall i :: 0 <= i < |chain| && from <= i ==> Written(chain[i].nBits) <= m
  }

  lemma {:induction false} TargetsAtMost(chain: seq<Block>, n: nat, m: nat)
    requires n <= |chain| && AtMost(chain, |chain| - n, m)
    ensures Targets(chain, n) <= n * m
  {
    if n > 0 {
      TargetsAtMost(chain, n - 1, m);
      Distribute(n - 1, 1, 1, m);
    }
  }

  /** With blocks one second apart the limited timespan is the least one, 84 percent of the expected one. */
  lemma LeastTimespan(chain: seq<Block>, p: Params)
    requires WellFormed(p) && SharedParams(p) && p.nPowMaxAdjustUp == 16 && |chain| > 17 && Fast(chain, p)
    ensures LimitedTimespan(chain, p) * 100 <= AveragingWindowTimespan(p, |chain|) * 84
  {
    var h := |chain| - 1;
    assert chain[h].medianTimePast == h && chain[h - 17].medianTimePast == h - 17;
    var span := AveragingWindowTimespan(p, |chain|);
    assert span == 2550 || span == 1275;
    assert MinActualTimespan(p, |chain|) == Times(span, 84) / 100;
    assert span + TruncDiv(17 - span, 4) < MinActualTimespan(p, |chain|);
  }

  /** The next target is at most 84 percent of the largest one in the window. */
  lemma NextAtMost(chain: seq<Block>, p: Params, m: nat)
    requires WellFormed(p) && SharedParams(p) && p.nPowMaxAdjustUp == 16 && |chain| > 17 && Fast(chain, p)
    requires AtMost(chain, |chain| - 17, m)
    ensures 100 * RequiredTarget(chain, None, p) <= 84 * m
  {
    LeastTimespan(chain, p);
    SpansFit(p, |chain|);
    TargetsAtMost(chain, 17, m);
    var span, actual, avg := AveragingWindowTimespan(p, |chain|), LimitedTimespan(chain, p), WindowAverage(chain, p);
    assert avg <= m by { Euclid(Targets(chain, 17), 17); }
    ScaledAtMost(avg, span, actual);
  }

  lemma ScaledAtMost(avg: nat, span: nat, actual: nat)
    requires span > 0 && actual * 100 <= span * 84
    ensures 100 * Times(Quot(avg, span), actual) <= 84 * avg
  {
    Euclid(avg, span);
    var q := Quot(avg, span);
    MulMono(actual * 100, span * 84, q);
    assert 100 * (q * actual) == q * (actual * 100);
    assert q * (span * 84) == 84 * (q * span);
  }

  /** One more block with the required target. */
  lemma Grow(chain: seq<Block>, p: Params) returns (chain': seq<Block>)
    requires WellFormed(p) && Fast(chain, p)
    ensures |chain'| == |chain| + 1 && chain <= chain' && Fast(chain', p)
    ensures Written(chain'[|chain|].nBits) <= RequiredTarget(chain, None, p)
  {
    hide RequiredTarget;
    var target := RequiredTarget(chain, None, p);
    EncodedOk(target, p.powLimit);
    EncodedOk(target, target);
    chain' := chain + [Block(Encoded(target, false), |chain|, |chain|)];
    forall i | 0 <= i < |chain'|
      ensures chain'[i].medianTimePast == i && chain'[i].nBits == Encoded(RequiredTarget(chain'[..i], None, p), false)
    {
      if i < |chain| {
        assert chain'[i] == chain[i];
        assert chain'[..i] == chain[..i];
      } else {
        assert chain'[..i] == chain;
      }
    }
  }

  /** Blocks at the limit, until there is a window of them. */
  lemma {:induction false} FirstWindow(p: Params, n: nat) returns (chain: seq<Block>)
    requires WellFormed(p)
    ensures |chain| == n && Fast(chain, p) && AtMost(chain, 0, p.powLimit)
    decreases n
  {
    hide RequiredTarget;
    hide Encoded;
    hide Written;
    hide WellFormed;
    if n == 0 {
      chain := [];
    } else {
      var before := FirstWindow(p, n - 1);
      chain := Grow(before, p);
      forall i | 0 <= i < |chain| ensures Written(chain[i].nBits) <= p.powLimit {
        if i < n - 1 {
          assert chain[i] == before[i];
        }
      }
    }
  }

  /** The next n blocks have targets at most 84 percent of the largest in the window before them. */
  lemma {:induction false} Fall(chain: seq<Block>, p: Params, m: nat, n: nat) returns (chain': seq<Block>)
    requires WellFormed(p) && SharedParams(p) && p.nPowMaxAdjustUp == 16 && |chain| > 17 && Fast(chain, p)
    requires AtMost(chain, |chain| - 17, m)
    ensures |chain'| == |chain| + n && chain <= chain' && Fast(chain', p)
    ensures AtMost(chain', |chain|, 84 * m / 100) && AtMost(chain', |chain| - 17, m)
    decreases n
  {
    hide RequiredTarget;
    if n == 0 {
      chain' := chain;
    } else {
      var before := Fall(chain, p, m, n - 1);
      NextAtMost(before, p, m);
      chain' := Grow(before, p);
      forall i | 0 <= i < |chain'| && |chain| - 17 <= i
        ensures Written(chain'[i].nBits) <= m && (|chain| <= i ==> Written(chain'[i].nBits) <= 84 * m / 100)
      {
        if i < |before| {
          assert chain'[i] == before[i];
        }
      }
    }
  }

  lemma {:induction false} ReachZero(chain: seq<Block>, p: Params, m: nat) returns (chain': seq<Block>)
    requires WellFormed(p) && SharedParams(p) && p.nPowMaxAdjustUp == 16 && |chain| > 17 && Fast(chain, p)
    requires AtMost(chain, |chain| - 17, m)
    ensures |chain'| > 17 && Fast(chain', p) && RequiredTarget(chain', None, p) == 0
    decreases m
  {
    hide RequiredTarget;
    if m == 0 {
      NextAtMost(chain, p, m);
      chain' := chain;
    } else {
      var next := Fall(chain, p, m, 17);
      chain' := ReachZero(next, p, 84 * m / 100);
    }
  }

  /**
  On the main and the test network a chain whose every block carries the required target, found one second apart,
  comes to a required target of zero.
  */
  lemma ZeroIsReached(p: Params) returns (chain: seq<Block>)
    requires WellFormed(p) && SharedParams(p) && p.nPowMaxAdjustUp == 16
    ensures forall i :: 0 <= i < |chain| ==> chain[i].nBits == Encoded(RequiredTarget(chain[..i], None, p), false)
    ensures RequiredTarget(chain, None, p) == 0
  {
    var first := FirstWindow(p, 18);
    chain := ReachZero(first, p, p.powLimit);
  }

  /** One step changes the average by at most the allowed percentages, unless it meets the limit. */
  lemma StepIsLimited(avg: nat, span: nat, actual: nat, lo: nat, hi: nat, limit: nat)
    requires span > 0 && lo <= actual <= hi
    ensures NextTarget(avg, span, actual, limit) * span <= avg * hi
    ensures NextTarget(avg, span, actual, limit) == limit || NextTarget(avg, span, actual, limit) * span >= (avg - span) * lo
  {
    DivAtMost(avg, span);
    Euclid(avg, span);
    var q, r := avg / span, NextTarget(avg, span, actual, limit);
    MulMono(r, q * actual, span);
    Swap(q, actual, span);
    MulMono(q * span, avg, actual);
    MulMono(actual, hi, avg);
    if r != limit {
      MulMono(avg - span, q * span, lo);
      MulMono(lo, actual, q * span);
    }
  }

  lemma Swap(q: nat, a: nat, s: nat)
    ensures (q * a) * s == (q * s) * a && q * s >= 0
  {
  }

  //
  // The methods, on 256-bit numbers.
  //

  lemma Plain(x: Uint)
    requires x.pn.Length == 8
    ensures x.Modulus() == MODULUS && x.Value() < MODULUS
  {
    Modulus256(x);
    ValBound(x.pn[..]);
  }

  /** Lines 63-94. */
  method CalculateNextWorkRequired(bnAvg: Uint, last: int, first: int, p: Params, limit: Uint, h: nat) returns (nBits: uint32)
    requires WellFormed(p) && bnAvg.pn.Length == limit.pn.Length == 8
    requires limit.Value() == p.powLimit && bnAvg.Value() <= p.powLimit
    ensures MinActualTimespan(p, h) <= MaxActualTimespan(p, h) && AveragingWindowTimespan(p, h) > 0
    ensures IsDamped(last - first, AveragingWindowTimespan(p, h), MinActualTimespan(p, h), MaxActualTimespan(p, h),
                     ActualTimespan(p, last, first, h))
    ensures nBits == Encoded(NextTarget(bnAvg.Value(), AveragingWindowTimespan(p, h),
                                        ActualTimespan(p, last, first, h), p.powLimit), false)
  {
    SpansFit(p, h);
    var span := AveragingWindowTimespan(p, h);
    var actual := last - first;
    actual := span + TruncDiv(actual - span, 4);
    if actual < MinActualTimespan(p, h) {
      actual := MinActualTimespan(p, h);
    }
    if actual > MaxActualTimespan(p, h) {
      actual := MaxActualTimespan(p, h);
    }
    assert actual == ActualTimespan(p, last, first, h);
    var bnNew := Scaled(bnAvg, span, actual, p, limit);
    var cmp := bnNew.CompareTo(limit);
    if cmp > 0 {
      bnNew.Assign(limit);
    }
    nBits := GetCompact(bnNew, false);
  }

  /** Lines 85-87: the quotient first, then the product, neither of which wraps. */
  method Scaled(bnAvg: Uint, span: uint32, actual: uint32, p: Params, limit: Uint) returns (bnNew: Uint)
    requires WellFormed(p) && bnAvg.pn.Length == limit.pn.Length == 8
    requires bnAvg.Value() <= p.powLimit && span > 0 && actual <= p.nPowAveragingWindow * span
    ensures fresh(bnNew) && fresh(bnNew.pn) && bnNew.pn.Length == 8
    ensures bnNew.Value() == (bnAvg.Value() / span) * actual
  {
    ghost var avg := bnAvg.Value();
    var divisor := new Uint.Zero(8);
    SetWord(divisor, span);
    bnNew := new Uint.Copy(bnAvg);
    var ok := bnNew.Divide(divisor);
    assert bnNew.Value() == avg / span;
    bnNew.MultiplySmall(actual);
    ProductFits(avg, span, actual, p.nPowAveragingWindow, p.powLimit);
    WindowFits(p);
    Plain(bnNew);
    NonNegative(avg / span, actual);
    Within((avg / span) * actual, MODULUS);
  }

  lemma RequiredCases(chain: seq<Block>, newTime: Option<int>, p: Params)
    requires WellFormed(p)
    ensures !Retargets(chain, newTime, p) ==> RequiredTarget(chain, newTime, p) == p.powLimit
    ensures Retargets(chain, newTime, p) ==>
              && AveragingWindowTimespan(p, |chain|) > 0
              && MinActualTimespan(p, |chain|) <= MaxActualTimespan(p, |chain|)
              && RequiredTarget(chain, newTime, p)
                 == NextTarget(WindowAverage(chain, p), AveragingWindowTimespan(p, |chain|),
                               ActualTimespan(p, chain[|chain| - 1].medianTimePast,
                                              chain[|chain| - 1 - p.nPowAveragingWindow].medianTimePast, |chain|), p.powLimit)
  {
    if Retargets(chain, newTime, p) {
      SpansFit(p, |chain|);
    }
  }

  /** Lines 19-61: the chain is walked back from its tip. */
  method GetNextWorkRequired(chain: seq<Block>, newTime: Option<int>, p: Params, limit: Uint) returns (nBits: uint32)
    requires WellFormed(p) && limit.pn.Length == 8 && limit.Value() == p.powLimit
    requires TargetsOk(chain, p.powLimit)
    ensures nBits == Encoded(RequiredTarget(chain, newTime, p), false)
    ensures IsRequired(chain, newTime, p, RequiredTarget(chain, newTime, p))
    ensures TargetOk(nBits, p.powLimit)
  {
    hide IsRequired;
    hide RequiredTarget;
    hide WellFormed;
    hide TargetsOk;
    hide TargetOk;
    hide Encoded;
    hide Pow2;
    WindowFits(p);
    EncodedOk(RequiredTarget(chain, newTime, p), p.powLimit);
    RequiredIs(chain, newTime, p);
    RequiredCases(chain, newTime, p);
    var nProofOfWorkLimit := GetCompact(limit, false);
    if chain == [] {
      return nProofOfWorkLimit;
    }
    var last := |chain| - 1;
    if MinDifficultyAllowed(chain, newTime, p) {
      return nProofOfWorkLimit;
    }
    var bnTot, pindexFirst := WindowTotal(chain, p);
    if pindexFirst < 0 {
      return nProofOfWorkLimit;
    }
    Average(bnTot, chain, p);
    nBits := CalculateNextWorkRequired(bnTot, chain[last].medianTimePast, chain[pindexFirst].medianTimePast, p, limit, last + 1);
  }

  /** Lines 41-49: the sum of the window's targets, and the index before the window or -1. */
  method WindowTotal(chain: seq<Block>, p: Params) returns (bnTot: Uint, pindexFirst: int)
    requires WellFormed(p) && TargetsOk(chain, p.powLimit)
    ensures fresh(bnTot) && fresh(bnTot.pn) && bnTot.pn.Length == 8
    ensures if |chain| <= p.nPowAveragingWindow then pindexFirst == -1
            else pindexFirst == |chain| - 1 - p.nPowAveragingWindow && bnTot.Value() == Targets(chain, p.nPowAveragingWindow)
  {
    bnTot := new Uint.Zero(8);
    pindexFirst := |chain| - 1;
    var i := 0;
    while pindexFirst >= 0 && i < p.nPowAveragingWindow
      invariant fresh(bnTot.pn) && bnTot.pn.Length == 8
      invariant 0 <= i <= p.nPowAveragingWindow && pindexFirst == |chain| - 1 - i >= -1
      invariant bnTot.Value() == Targets(chain, i)
    {
      AddTarget(bnTot, chain, i, p);
      pindexFirst := pindexFirst - 1;
      i := i + 1;
    }
  }

  /** Lines 45-47. */
  method AddTarget(bnTot: Uint, chain: seq<Block>, i: nat, p: Params)
    requires WellFormed(p) && TargetsOk(chain, p.powLimit) && i < |chain| && i < p.nPowAveragingWindow
    requires bnTot.pn.Length == 8 && bnTot.Value() == Targets(chain, i)
    modifies bnTot.pn
    ensures bnTot.Value() == Targets(chain, i + 1)
  {
    hide Pow2;
    hide Written;
    var bnTmp := new Uint.Zero(8);
    var c := chain[|chain| - 1 - i].nBits;
    var negative, overflow := SetCompact(bnTmp, c);
    TotalFits(chain, i, p);
    bnTot.Add(bnTmp);
    Modulus256(bnTot);
  }

  /** Each target, and each running total, fits 256 bits. */
  lemma TotalFits(chain: seq<Block>, i: nat, p: Params)
    requires WellFormed(p) && TargetsOk(chain, p.powLimit) && i < |chain| && i < p.nPowAveragingWindow
    ensures Decoded(chain[|chain| - 1 - i].nBits) == Written(chain[|chain| - 1 - i].nBits)
    ensures Targets(chain, i + 1) % MODULUS == Targets(chain, i + 1)
  {
    var c := chain[|chain| - 1 - i].nBits;
    assert TargetOk(c, p.powLimit);
    Within(Written(c), MODULUS);
    TargetsBound(chain, i + 1, p.powLimit);
    WindowFits(p);
    MulMono(i + 1, p.nPowAveragingWindow, p.powLimit);
    Within(Targets(chain, i + 1), MODULUS);
  }

  /** Line 55. */
  method Average(bnTot: Uint, chain: seq<Block>, p: Params)
    requires WellFormed(p) && TargetsOk(chain, p.powLimit) && p.nPowAveragingWindow <= |chain|
    requires bnTot.pn.Length == 8 && bnTot.Value() == Targets(chain, p.nPowAveragingWindow)
    modifies bnTot.pn
    ensures bnTot.Value() == Targets(chain, p.nPowAveragingWindow) / p.nPowAveragingWindow <= p.powLimit
  {
    var window := new Uint.Zero(8);
    SetWord(window, p.nPowAveragingWindow);
    var ok := bnTot.Divide(window);
    AverageBound(chain, p);
  }

  /**
  Lines 134-151: a hash is accepted exactly when the number written is positive, at most
  the limit, and at least the hash.
  */
  method CheckProofOfWork(hash: Uint, nBits: uint32, p: Params, limit: Uint) returns (ok: bool)
    requires hash.pn.Length == limit.pn.Length == 8 && limit.Value() == p.powLimit < MODULUS
    ensures ok <==> !SignBit(nBits) && 0 < Written(nBits) <= p.powLimit && hash.Value() <= Written(nBits)
  {
    var bnTarget := new Uint.Zero(8);
    var fNegative, fOverflow := SetCompact(bnTarget, nBits);
    OverflowIsExact(nBits);
    if Written(nBits) < MODULUS {
      Within(Written(nBits), MODULUS);
    }
    WordZeroIff(nBits);
    var zero := new Uint.Zero(8);
    var toZero := bnTarget.CompareTo(zero);
    var toLimit := bnTarget.CompareTo(limit);
    if fNegative || toZero == 0 || fOverflow || toLimit > 0 {
      return false;
    }
    var toHash := hash.CompareTo(bnTarget);
    if toHash > 0 {
      return false;
    }
    return true;
  }

  lemma WordZeroIff(c: uint32)
    ensures Word(c) == 0 <==> Written(c) == 0
  {
    if Size(c) > 3 && Mantissa(c) > 0 {
      MulMono(1, Mantissa(c), Pow2(8 * (Size(c) - 3)));
    }
  }

  /**
  Lines 153-166: the expected number of hashes, 2^256 / (target + 1) rounded down, without
  a 257-bit number; zero when the target is not one.
  */
  method GetBlockProof(nBits: uint32) returns (work: Uint)
    ensures work.pn.Length == 8
    ensures work.Value() == if Negative(nBits) || Overflows(nBits) || Written(nBits) == 0 then 0
                            else MODULUS / (Written(nBits) + 1)
  {
    var bnTarget := new Uint.Zero(8);
    var fNegative, fOverflow := SetCompact(bnTarget, nBits);
    OverflowIsExact(nBits);
    var zero := new Uint.Zero(8);
    var toZero := bnTarget.CompareTo(zero);
    if fNegative || fOverflow || toZero == 0 {
      if !fOverflow {
        Within(Written(nBits), MODULUS);
      }
      return zero;
    }
    Within(Written(nBits), MODULUS);
    DecodedBelowMax(nBits);
    work := WorkFor(bnTarget);
  }

  /** Line 165. */
  method WorkFor(bnTarget: Uint) returns (work: Uint)
    requires bnTarget.pn.Length == 8 && bnTarget.Value() > 0 && bnTarget.Value() + 1 < MODULUS
    modifies bnTarget.pn
    ensures fresh(work) && fresh(work.pn) && work.pn.Length == 8
    ensures work.Value() == MODULUS / (old(bnTarget.Value()) + 1)
  {
    hide Pow2;
    hide Val;
    hide W;
    ghost var t := bnTarget.Value();
    Modulus256(bnTarget);
    work := bnTarget.Complement();
    bnTarget.Increment();
    assert bnTarget.Value() == t + 1 by { Within(t + 1, MODULUS); }
    var ok := work.Divide(bnTarget);
    ghost var q := work.Value();
    assert q + 1 == MODULUS / (t + 1) && q + 1 < MODULUS by { Work(t, MODULUS); }
    Modulus256(work);
    Within(q + 1, MODULUS);
    work.Increment();
  }

  lemma Work(t: nat, m: nat)
    requires 0 < t && t + 1 < m
    ensures 0 <= (m - 1 - t) / (t + 1) && (m - 1 - t) / (t + 1) + 1 == m / (t + 1) < m
  {
    var d := t + 1;
    var x := m - d;
    DivAtMost(x, d);
    Euclid(x, d);
    var q := x / d;
    Distribute(q, 1, 1, d);
    DivUnique(q + 1, x % d, d, m);
    MulMono(2, d, q + 1);
  }
}
