/**
The peaks of the history tree (src/coins.cpp:302-446; ZIP 221): a Merkle mountain range stored
as an array.  A perfect subtree of altitude a takes 2^(a+1) - 1 consecutive positions, its
left half first, then its right half, then its root.
*/
module HistoryTree {
  import opened Arith

  //
  // Geometry.
  //

  /** The number of nodes of a perfect tree. */
  function Size(a: nat): (r: nat)
    ensures r >= 1
  {
    2 * Pow2(a) - 1
  }

  /** The root of the perfect tree of altitude a that starts at s. */
  function Root(s: nat, a: nat): (r: nat)
    ensures s <= r
  {
    s + Size(a) - 1
  }

  /** Two halves and a root. */
  lemma Halves(s: nat, a: nat)
    requires a > 0
    ensures Size(a) == Size(a - 1) + Size(a - 1) + 1
    ensures Root(s, a - 1) == Root(s, a) - Pow2(a)
    ensures Root(s + Size(a - 1), a - 1) == Root(s, a) - 1
  {
  }

  lemma {:induction false} SizeGrows(a: nat, b: nat)
    requires a < b
    ensures 2 * Size(a) + 1 <= Size(b)
  {
    Pow2Monotone(a + 1, b);
  }

  /** The altitudes of the peaks, left to right, are strictly decreasing. */
  predicate Decreasing(alts: seq<nat>) {
    forall i, j :: 0 <= i < j < |alts| ==> alts[i] > alts[j]
  }

  function Total(alts: seq<nat>): nat {
    if alts == [] then 0 else Size(alts[0]) + Total(alts[1..])
  }

  /** These are the peaks of a tree with n nodes. */
  predicate IsPeaks(alts: seq<nat>, n: nat) {
    Decreasing(alts) && Total(alts) == n
  }

  /** What is left after a peak is smaller than another peak of its altitude. */
  lemma {:induction false} TotalBound(alts: seq<nat>)
    requires Decreasing(alts) && alts != []
    ensures Size(alts[0]) <= Total(alts) < 2 * Size(alts[0])
  {
    var rest := alts[1..];
    if rest != [] {
      assert alts[1] == rest[0];
      TotalBound(rest);
      SizeGrows(rest[0], alts[0]);
    }
  }

  lemma {:induction false} TotalSplit(alts: seq<nat>, k: nat)
    requires k <= |alts|
    ensures Total(alts) == Total(alts[..k]) + Total(alts[k..])
  {
    if k == 0 {
      assert alts[..0] == [] && alts[0..] == alts;
    } else {
      TotalSplit(alts[1..], k - 1);
      assert alts[..k][1..] == alts[1..][..k - 1] && alts[1..][k - 1..] == alts[k..];
    }
  }

  lemma TotalNext(alts: seq<nat>, k: nat)
    requires k < |alts|
    ensures Total(alts[..k + 1]) == Total(alts[..k]) + Size(alts[k])
  {
    var t := alts[..k + 1];
    TotalSplit(t, k);
    assert t[..k] == alts[..k] && t[k..] == [alts[k]];
    assert Total([alts[k]]) == Size(alts[k]) + Total([]);
  }

  /** Which altitudes fit into what is left: those up to that of the next peak. */
  lemma FitsIff(alts: seq<nat>, k: nat, n: nat, a: nat)
    requires IsPeaks(alts, n) && k <= |alts|
    requires k < |alts| ==> alts[k] <= a
    ensures Root(Total(alts[..k]), a) < n <==> k < |alts| && alts[k] == a
  {
    TotalSplit(alts, k);
    var rest := alts[k..];
    if rest != [] {
      TotalBound(rest);
      if alts[k] < a {
        SizeGrows(alts[k], a);
      }
    }
  }

  /** A length has at most one list of peaks. */
  lemma {:induction false} PeaksUnique(x: seq<nat>, y: seq<nat>, n: nat)
    requires IsPeaks(x, n) && IsPeaks(y, n)
    ensures x == y
    decreases |x|
  {
    if x == [] || y == [] {
      if x != [] {
        TotalBound(x);
      }
      if y != [] {
        TotalBound(y);
      }
    } else {
      TotalBound(x);
      TotalBound(y);
      if x[0] < y[0] {
        SizeGrows(x[0], y[0]);
      } else if y[0] < x[0] {
        SizeGrows(y[0], x[0]);
      }
      PeaksUnique(x[1..], y[1..], n - Size(x[0]));
    }
  }

  function Leaves(alts: seq<nat>): nat {
    if alts == [] then 0 else Pow2(alts[0]) + Leaves(alts[1..])
  }

  /** The stored nodes: two for each leaf, but one fewer for each peak. */
  lemma {:induction false} TotalFromLeaves(alts: seq<nat>)
    ensures Total(alts) + |alts| == 2 * Leaves(alts)
  {
    if alts != [] {
      TotalFromLeaves(alts[1..]);
    }
  }

  /** Every number of leaves has a list of peaks, each peak above a power of two of them. */
  lemma {:induction false} PeaksExist(m: nat, top: nat) returns (alts: seq<nat>)
    requires m < Pow2(top)
    ensures Decreasing(alts) && Leaves(alts) == m && (alts != [] ==> alts[0] < top)
  {
    if top == 0 {
      alts := [];
    } else if m < Pow2(top - 1) {
      alts := PeaksExist(m, top - 1);
    } else {
      var rest := PeaksExist(m - Pow2(top - 1), top - 1);
      alts := [top - 1] + rest;
      assert alts[1..] == rest;
    }
  }

  /** The peaks tile the array: every position is under exactly one of them. */
  lemma {:induction false} Tiled(alts: seq<nat>, n: nat, j: nat) returns (k: nat)
    requires Total(alts) == n && j < n
    ensures k < |alts| && Total(alts[..k]) <= j < Total(alts[..k + 1])
    ensures forall k' :: 0 <= k' < |alts| && Total(alts[..k']) <= j < Total(alts[..k' + 1]) ==> k' == k
  {
    assert alts[..|alts|] == alts;
    k := 0;
    while k < |alts| && Total(alts[..k + 1]) <= j
      invariant k <= |alts| && Total(alts[..k]) <= j
    {
      k := k + 1;
    }
    forall k' | 0 <= k' < |alts| && Total(alts[..k']) <= j < Total(alts[..k' + 1]) ensures k' == k {
      if k' < k {
        TotalGrows(alts, k' + 1, k);
      } else if k < k' {
        TotalGrows(alts, k + 1, k');
      }
    }
  }

  lemma {:induction false} TotalGrows(alts: seq<nat>, i: nat, j: nat)
    requires i <= j <= |alts|
    ensures Total(alts[..i]) <= Total(alts[..j])
    decreases j - i
  {
    if i < j {
      TotalNext(alts, i);
      TotalGrows(alts, i + 1, j);
    }
  }

  //
  // Entries.
  //

  datatype Entry<T> = Leaf(data: T) | Node(data: T, left: nat, right: nat)

  /** The entry of the perfect tree of altitude a that starts at s, linked to the roots of its halves. */
  function EntryOf<T>(h: seq<T>, s: nat, a: nat): Entry<T>
    requires Root(s, a) < |h|
  {
    if a == 0 then Leaf(h[Root(s, a)])
    else Node(h[Root(s, a)], Root(s, a - 1), Root(s + Size(a - 1), a - 1))
  }

  /** The first k peaks. */
  function PeakIndices(alts: seq<nat>, k: nat): seq<nat>
    requires k <= |alts|
  {
    if k == 0 then [] else PeakIndices(alts, k - 1) + [Root(Total(alts[..k - 1]), alts[k - 1])]
  }

  lemma PeakInside(alts: seq<nat>, n: nat, k: nat)
    requires Total(alts) == n && k < |alts|
    ensures Root(Total(alts[..k]), alts[k]) < n
  {
    TotalNext(alts, k);
    TotalSplit(alts, k + 1);
  }

  ghost function PeakEntries<T>(h: seq<T>, alts: seq<nat>, k: nat): seq<Entry<T>>
    requires Total(alts) == |h| && k <= |alts|
  {
    if k == 0 then []
    else
      PeakInside(alts, |h|, k - 1);
      PeakEntries(h, alts, k - 1) + [EntryOf(h, Total(alts[..k - 1]), alts[k - 1])]
  }

  /** Both halves of every tree on the right slope of the tree of altitude a that starts at s. */
  function SlopeIndices(s: nat, a: nat): seq<nat>
    decreases a
  {
    if a == 0 then []
    else [Root(s, a - 1), Root(s + Size(a - 1), a - 1)] + SlopeIndices(s + Size(a - 1), a - 1)
  }

  function SlopeEntries<T>(h: seq<T>, s: nat, a: nat): seq<Entry<T>>
    requires Root(s, a) < |h|
    decreases a
  {
    if a == 0 then []
    else
      Halves(s, a);
      [EntryOf(h, s, a - 1), EntryOf(h, s + Size(a - 1), a - 1)] + SlopeEntries(h, s + Size(a - 1), a - 1)
  }

  //
  // The method.
  //

  /** floor(log2(x)) (lines 318-324). */
  method FloorLog2(x: nat) returns (log: nat)
    requires x > 0
    ensures Pow2(log) <= x < 2 * Pow2(log)
  {
    log := 0;
    var y := x;
    while y / 2 != 0
      invariant y >= 1 && y * Pow2(log) <= x < (y + 1) * Pow2(log)
      decreases y
    {
      HalfStep(x, y, Pow2(log));
      y := y / 2;
      log := log + 1;
    }
    assert y == 1;
  }

  lemma HalfStep(x: nat, y: nat, p: nat)
    requires y * p <= x < (y + 1) * p
    ensures (y / 2) * (2 * p) <= x < (y / 2 + 1) * (2 * p)
  {
    assert (y / 2) * (2 * p) == (2 * (y / 2)) * p;
    assert (y / 2 + 1) * (2 * p) == (2 * (y / 2) + 2) * p;
    MulMono(2 * (y / 2), y, p);
    MulMono(y + 1, 2 * (y / 2) + 2, p);
  }

  /** The altitude of the first peak (lines 326-330). */
  method Altitude(n: nat, ghost alts: seq<nat>) returns (alt: nat)
    requires IsPeaks(alts, n) && alts != []
    ensures alt == alts[0]
  {
    TotalBound(alts);
    var log := FloorLog2(n + 1);
    LogIsAltitude(n, alts[0], log);
    alt := log - 1;
  }

  lemma LogIsAltitude(n: nat, a: nat, log: nat)
    requires Size(a) <= n < 2 * Size(a) && Pow2(log) <= n + 1 < 2 * Pow2(log)
    ensures log == a + 1
  {
    if log <= a {
      Pow2Monotone(log, a);
    } else if log >= a + 2 {
      Pow2Monotone(a + 2, log);
    }
  }

  /** The links of lines 302-316. */
  function Drafted<T>(data: T, alt: nat, pos: nat): Entry<T>
    requires alt > 0 ==> pos >= Pow2(alt)
  {
    if alt == 0 then Leaf(data) else Node(data, pos - Pow2(alt), pos - 1)
  }

  /** The entry drafted for a position is that of the tree rooted there. */
  lemma DraftedIsEntry<T>(h: seq<T>, s: nat, a: nat)
    requires Root(s, a) < |h|
    ensures a > 0 ==> Root(s, a) >= Pow2(a)
    ensures EntryOf(h, s, a) == Drafted(h[Root(s, a)], a, Root(s, a))
  {
    if a > 0 {
      Halves(s, a);
    }
  }

  method DraftNode<T>(indices: seq<nat>, entries: seq<Entry<T>>, h: seq<T>, alt: nat, pos: nat, ghost s: nat)
    returns (indices': seq<nat>, entries': seq<Entry<T>>)
    requires pos == Root(s, alt) < |h|
    ensures indices' == indices + [Root(s, alt)] && entries' == entries + [EntryOf(h, s, alt)]
  {
    DraftedIsEntry(h, s, alt);
    var entry := Drafted(h[pos], alt, pos);
    indices' := indices + [pos];
    entries' := entries + [entry];
  }

  datatype Preloaded<T> = NoTree | Preloaded(totalPeaks: nat, entries: seq<Entry<T>>, indices: seq<nat>)

  ghost function ExpectedIndices(alts: seq<nat>, extra: bool): seq<nat>
    requires alts != []
  {
    var last := |alts| - 1;
    PeakIndices(alts, |alts|) + if extra then SlopeIndices(Total(alts[..last]), alts[last]) else []
  }

  ghost function ExpectedEntries<T>(h: seq<T>, alts: seq<nat>, extra: bool): seq<Entry<T>>
    requires alts != [] && Total(alts) == |h|
  {
    var last := |alts| - 1;
    PeakInside(alts, |h|, last);
    PeakEntries(h, alts, |alts|) + if extra then SlopeEntries(h, Total(alts[..last]), alts[last]) else []
  }

  /**
  PreloadHistoryTree (lines 332-446) on a stored tree whose peaks are alts: the peaks left to
  right, each linked to its own halves, and on request both halves of every node on the right
  slope of the last peak.  Positions stay within 32 bits for trees of up to 2^31 - 2 nodes.
  */
  method PreloadHistoryTree<T>(h: seq<T>, extra: bool, ghost alts: seq<nat>) returns (r: Preloaded<T>)
    requires IsPeaks(alts, |h|) && |h| + 1 < 0x8000_0000
    ensures r.NoTree? <==> alts == []
    ensures alts != [] ==> r == Preloaded(|alts|, ExpectedEntries(h, alts, extra), ExpectedIndices(alts, extra))
  {
    hide PeakIndices;
    hide PeakEntries;
    hide SlopeIndices;
    hide SlopeEntries;
    if alts != [] {
      TotalBound(alts);
    }
    if |h| == 0 {
      return NoTree;
    }
    ghost var last := |alts| - 1;
    if |h| == 1 {
      SingleLeaf(h, alts, extra);
      return Preloaded(1, [Leaf(h[0])], [0]);
    }
    PeakInside(alts, |h|, last);
    var entries, indices, lastPos, lastAlt := CollectPeaks(h, alts);
    var totalPeaks := |entries|;
    if !extra {
      return Preloaded(totalPeaks, entries, indices);
    }
    var moreEntries, moreIndices := CollectSlope(h, lastPos, lastAlt, Total(alts[..last]));
    return Preloaded(totalPeaks, entries + moreEntries, indices + moreIndices);
  }

  lemma SingleLeaf<T>(h: seq<T>, alts: seq<nat>, extra: bool)
    requires IsPeaks(alts, |h|) && |h| == 1
    ensures |alts| == 1 && ExpectedIndices(alts, extra) == [0] && ExpectedEntries(h, alts, extra) == [Leaf(h[0])]
  {
    TotalBound(alts);
    var a := alts[0];
    assert a == 0;
    assert Size(a) == 1;
    assert |alts| == 1;
    var none := alts[..0];
    assert none == [] && Total(none) == 0;
    var s := Total(none);
    assert Root(s, a) == 0;
    OnePeak(h, alts);
    NoSlope(h, s, a);
  }

  lemma OnePeak<T>(h: seq<T>, alts: seq<nat>)
    requires Total(alts) == |h| && |alts| == 1
    ensures Root(Total(alts[..0]), alts[0]) < |h|
    ensures PeakIndices(alts, |alts|) == [Root(Total(alts[..0]), alts[0])]
    ensures PeakEntries(h, alts, |alts|) == [EntryOf(h, Total(alts[..0]), alts[0])]
  {
    hide EntryOf;
    hide Root;
    PeakInside(alts, |h|, 0);
    var k: nat := |alts| - 1;
    assert PeakIndices(alts, k) == [] && PeakEntries(h, alts, k) == [];
  }

  lemma NoSlope<T>(h: seq<T>, s: nat, a: nat)
    requires a == 0 && Root(s, a) < |h|
    ensures SlopeIndices(s, a) == [] && SlopeEntries(h, s, a) == []
  {
  }

  /** Lines 343-406. */
  method CollectPeaks<T>(h: seq<T>, ghost alts: seq<nat>)
    returns (entries: seq<Entry<T>>, indices: seq<nat>, lastPos: nat, lastAlt: nat)
    requires IsPeaks(alts, |h|) && 1 < |h| && |h| + 1 < 0x8000_0000
    ensures alts != [] && indices == PeakIndices(alts, |alts|) && entries == PeakEntries(h, alts, |alts|)
    ensures lastAlt == alts[|alts| - 1] && lastPos == Root(Total(alts[..|alts| - 1]), lastAlt)
    ensures |entries| == |alts|
  {
    hide PeakIndices;
    hide PeakEntries;
    hide Total;
    hide Decreasing;
    entries, indices, lastPos, lastAlt := [], [], 0, 0;
    PeaksStart(h, alts);
    var alt := Altitude(|h|, alts);
    TotalBound(alts);
    var pos: uint32 := 2 * Pow2(alt) - 2;
    ghost var k := 0;
    while alt != 0
      invariant k <= |alts| && alt <= alts[0]
      invariant pos == Root(Total(alts[..k]), alt) && Total(alts[..k]) <= |h|
      invariant k < |alts| ==> alts[k] <= alt
      invariant alt == 0 ==> k == |alts|
      invariant indices == PeakIndices(alts, k) && entries == PeakEntries(h, alts, k) && |entries| == k
      invariant k > 0 ==> lastAlt == alts[k - 1] && lastPos == Root(Total(alts[..k - 1]), lastAlt)
      decreases alt, |alts| - k
    {
      FitsIff(alts, k, |h|, alt);
      if pos >= |h| {
        Halves(Total(alts[..k]), alt);
        pos := pos - Pow2(alt);
        alt := alt - 1;
        FitsIff(alts, k, |h|, alt);
      }
      if pos < |h| {
        entries, indices := TakePeak(h, alts, k, entries, indices, alt, pos);
        lastPos := pos;
        lastAlt := alt;
        NextPosition(alts, k, |h|);
        pos := pos + 2 * Pow2(alt) - 1;
        k := k + 1;
      }
    }
  }

  lemma PeaksStart<T>(h: seq<T>, alts: seq<nat>)
    requires IsPeaks(alts, |h|) && |h| > 1
    ensures alts != [] && alts[0] > 0 && Total(alts[..0]) == 0
    ensures PeakIndices(alts, 0) == [] && PeakEntries(h, alts, 0) == []
  {
    TotalBound(alts);
  }

  lemma NextPosition(alts: seq<nat>, k: nat, n: nat)
    requires IsPeaks(alts, n) && k < |alts|
    ensures Root(Total(alts[..k]), alts[k]) + Size(alts[k]) == Root(Total(alts[..k + 1]), alts[k])
    ensures Total(alts[..k + 1]) <= n && Size(alts[k]) <= Size(alts[0]) <= n
    ensures k + 1 < |alts| ==> alts[k + 1] < alts[k]
    ensures alts[k] == 0 ==> k + 1 == |alts|
  {
    TotalNext(alts, k);
    TotalSplit(alts, k + 1);
    TotalBound(alts);
    if k > 0 {
      SizeGrows(alts[k], alts[0]);
    }
  }

  method TakePeak<T>(h: seq<T>, ghost alts: seq<nat>, ghost k: nat, entries: seq<Entry<T>>, indices: seq<nat>, alt: nat, pos: nat)
    returns (entries': seq<Entry<T>>, indices': seq<nat>)
    requires Total(alts) == |h| && k < |alts| && alts[k] == alt && pos == Root(Total(alts[..k]), alt) < |h|
    requires indices == PeakIndices(alts, k) && entries == PeakEntries(h, alts, k)
    ensures indices' == PeakIndices(alts, k + 1) && entries' == PeakEntries(h, alts, k + 1)
    ensures |entries'| == |entries| + 1
  {
    hide EntryOf;
    hide Root;
    indices', entries' := DraftNode(indices, entries, h, alt, pos, Total(alts[..k]));
  }

  /** Lines 411-443: both children of each node down the right slope. */
  method CollectSlope<T>(h: seq<T>, lastPos: nat, lastAlt: nat, ghost start: nat)
    returns (entries: seq<Entry<T>>, indices: seq<nat>)
    requires lastPos == Root(start, lastAlt) < |h|
    ensures indices == SlopeIndices(start, lastAlt) && entries == SlopeEntries(h, start, lastAlt)
  {
    hide SlopeIndices;
    hide SlopeEntries;
    hide EntryOf;
    hide Root;
    entries, indices := [], [];
    var alt, pos := lastAlt, lastPos;
    ghost var s: nat := start;
    while alt > 0
      invariant pos == Root(s, alt) < |h|
      invariant indices + SlopeIndices(s, alt) == SlopeIndices(start, lastAlt)
      invariant entries + SlopeEntries(h, s, alt) == SlopeEntries(h, start, lastAlt)
    {
      Halves(s, alt);
      ghost var s' := s + Size(alt - 1);
      SlopeStep(h, s, alt);
      var leftPos, rightPos := pos - Pow2(alt), pos - 1;
      alt := alt - 1;
      ghost var more, moreEntries := SlopeIndices(s', alt), SlopeEntries(h, s', alt);
      indices, entries := DraftNode(indices, entries, h, alt, leftPos, s);
      indices, entries := DraftNode(indices, entries, h, alt, rightPos, s');
      pos := rightPos;
      s := s';
    }
    NoSlope(h, s, alt);
  }

  lemma SlopeStep<T>(h: seq<T>, s: nat, alt: nat)
    requires alt > 0 && Root(s, alt) < |h|
    ensures var a, s' := alt - 1, s + Size(alt - 1);
            && Root(s, a) < |h| && Root(s', a) < |h|
            && SlopeIndices(s, alt) == [Root(s, a), Root(s', a)] + SlopeIndices(s', a)
            && SlopeEntries(h, s, alt) == [EntryOf(h, s, a), EntryOf(h, s', a)] + SlopeEntries(h, s', a)
  {
    hide EntryOf;
    Halves(s, alt);
  }
}
