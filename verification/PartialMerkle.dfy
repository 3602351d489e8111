/**
Partial Merkle trees (CPartialMerkleTree, src/merkleblock.cpp and src/merkleblock.h):
a depth-first list of flag bits and hashes that proves which transactions of a block
matched a filter (BIP 37, section "Partial Merkle branch format").

Digests are natural numbers, 0 being the null hash, and the pair hash is a parameter.
*/
module PartialMerkle {
  import opened Arith

  type Digest = nat
  type PairHash = (Digest, Digest) -> Digest

  const MAX_TRANSACTIONS: nat := 2000000 / 60

  ghost predicate Collide(hash: PairHash, a: Digest, b: Digest, c: Digest, d: Digest) {
    hash(a, b) == hash(c, d)
  }

  ghost predicate Injective(hash: PairHash) {
    forall a, b, c, d {:trigger Collide(hash, a, b, c, d)} :: Collide(hash, a, b, c, d) ==> a == c && b == d
  }

  lemma Inject(hash: PairHash, a: Digest, b: Digest, c: Digest, d: Digest)
    requires Injective(hash) && hash(a, b) == hash(c, d)
    ensures a == c && b == d
  {
    assert Collide(hash, a, b, c, d);
  }

  //
  // Shape of the tree.
  //

  /** Number of nodes at a height (CalcTreeWidth). */
  function Width(n: nat, h: nat): nat {
    (n + Pow2(h) - 1) / Pow2(h)
  }

  /** The first leaf below a node. */
  function Lo(h: nat, pos: nat): nat {
    if h == 0 then pos else Lo(h - 1, pos * 2)
  }

  /** One past the last leaf below a node. */
  function Hi(n: nat, h: nat, pos: nat): nat {
    if Lo(h, pos + 1) < n then Lo(h, pos + 1) else n
  }

  /** A position exists at a height exactly when its first leaf does. */
  predicate Has(n: nat, h: nat, pos: nat) {
    Lo(h, pos) < n
  }

  lemma {:induction false} LoIsShift(h: nat, pos: nat)
    ensures Lo(h, pos) == pos * Pow2(h)
  {
    if h > 0 {
      LoIsShift(h - 1, pos * 2);
      Doubled(pos, Pow2(h - 1));
    }
  }

  lemma Doubled(pos: nat, d: nat)
    ensures pos * (2 * d) == (pos * 2) * d
  {
  }

  lemma {:induction false} LoMonotone(h: nat, a: nat, b: nat)
    requires a < b
    ensures Lo(h, a) < Lo(h, b)
  {
    if h > 0 {
      LoMonotone(h - 1, a * 2, b * 2);
    }
  }

  lemma WidthIff(n: nat, h: nat, pos: nat)
    ensures pos < Width(n, h) <==> Has(n, h, pos)
  {
    LoIsShift(h, pos);
    CeilDiv(n, Pow2(h), pos);
  }

  lemma CeilDiv(n: nat, d: nat, pos: nat)
    requires d >= 1
    ensures pos < (n + d - 1) / d <==> pos * d < n
  {
    var w := (n + d - 1) / d;
    assert w * d <= n + d - 1 < w * d + d;
    if pos < w {
      assert (pos + 1) * d <= w * d;
    } else {
      assert w * d <= pos * d;
    }
  }

  /** The children of a node share out its leaves. */
  lemma Split(n: nat, h: nat, pos: nat)
    requires h > 0 && Has(n, h, pos)
    ensures Has(n, h - 1, pos * 2)
    ensures Lo(h, pos) == Lo(h - 1, pos * 2) < Hi(n, h - 1, pos * 2) <= Hi(n, h, pos) <= n
    ensures Has(n, h - 1, pos * 2 + 1) ==>
              Hi(n, h - 1, pos * 2) == Lo(h - 1, pos * 2 + 1) < Hi(n, h, pos) == Hi(n, h - 1, pos * 2 + 1)
    ensures !Has(n, h - 1, pos * 2 + 1) ==> Hi(n, h - 1, pos * 2) == Hi(n, h, pos)
  {
    LoMonotone(h - 1, pos * 2, pos * 2 + 1);
    LoMonotone(h - 1, pos * 2 + 1, pos * 2 + 2);
  }

  /** The first height with at most one node. */
  function HeightFrom(n: nat, h: nat): (r: nat)
    ensures r >= h && !Has(n, r, 1)
    decreases n - Lo(h, 1)
  {
    if Has(n, h, 1) then
      LoMonotone(h, 1, 2);
      HeightFrom(n, h + 1)
    else h
  }

  function TreeHeight(n: nat): nat {
    HeightFrom(n, 0)
  }

  lemma {:induction false} LoZero(h: nat)
    ensures Lo(h, 0) == 0
  {
    if h > 0 { LoZero(h - 1); }
  }

  lemma RootExists(n: nat)
    requires n >= 1
    ensures Has(n, TreeHeight(n), 0) && Lo(TreeHeight(n), 0) == 0 && Hi(n, TreeHeight(n), 0) == n
  {
    LoZero(TreeHeight(n));
  }

  method IsNode(n: nat, h: nat, pos: nat) returns (b: bool)
    ensures b == Has(n, h, pos)
  {
    WidthIff(n, h, pos);
    b := pos < Width(n, h);
  }

  method CalcHeight(n: nat) returns (h: nat)
    ensures h == TreeHeight(n)
  {
    h := 0;
    WidthIff(n, h, 1);
    while Width(n, h) > 1
      invariant HeightFrom(n, h) == TreeHeight(n)
      invariant Width(n, h) > 1 <==> Has(n, h, 1)
      decreases n - Lo(h, 1)
    {
      LoMonotone(h, 1, 2);
      h := h + 1;
      WidthIff(n, h, 1);
    }
  }

  //
  // The full tree.
  //

  function CalcHash(hash: PairHash, txids: seq<Digest>, h: nat, pos: nat): Digest
    requires Has(|txids|, h, pos)
  {
    if h == 0 then
      txids[pos]
    else
      Split(|txids|, h, pos);
      var left := CalcHash(hash, txids, h - 1, pos * 2);
      var right := if Has(|txids|, h - 1, pos * 2 + 1) then CalcHash(hash, txids, h - 1, pos * 2 + 1) else left;
      hash(left, right)
  }

  function Root(hash: PairHash, txids: seq<Digest>): Digest
    requires txids != []
  {
    RootExists(|txids|);
    CalcHash(hash, txids, TreeHeight(|txids|), 0)
  }

  //
  // Building.
  //

  predicate AnyMatch(vMatch: seq<bool>, lo: nat, hi: nat)
    requires hi <= |vMatch|
  {
    exists p :: lo <= p < hi && vMatch[p]
  }

  function Matched(vMatch: seq<bool>, lo: nat, hi: nat): nat
    requires lo <= hi <= |vMatch|
    decreases hi - lo
  {
    if lo == hi then 0 else (if vMatch[lo] then 1 else 0) + Matched(vMatch, lo + 1, hi)
  }

  function Selected(txids: seq<Digest>, vMatch: seq<bool>, lo: nat, hi: nat): seq<Digest>
    requires lo <= hi <= |vMatch| == |txids|
    decreases hi - lo
  {
    if lo == hi then [] else (if vMatch[lo] then [txids[lo]] else []) + Selected(txids, vMatch, lo + 1, hi)
  }

  lemma {:induction false} SelectedSplit(txids: seq<Digest>, vMatch: seq<bool>, lo: nat, mid: nat, hi: nat)
    requires lo <= mid <= hi <= |vMatch| == |txids|
    ensures Selected(txids, vMatch, lo, hi) == Selected(txids, vMatch, lo, mid) + Selected(txids, vMatch, mid, hi)
    ensures Matched(vMatch, lo, hi) == Matched(vMatch, lo, mid) + Matched(vMatch, mid, hi)
    decreases mid - lo
  {
    var a, b := Selected(txids, vMatch, lo, mid), Selected(txids, vMatch, mid, hi);
    if lo < mid {
      SelectedSplit(txids, vMatch, lo + 1, mid, hi);
      var head := if vMatch[lo] then [txids[lo]] else [];
      assert a == head + Selected(txids, vMatch, lo + 1, mid);
      assert a + b == head + (Selected(txids, vMatch, lo + 1, mid) + b);
    } else {
      assert a + b == b;
    }
  }

  lemma {:induction false} NoneSelected(txids: seq<Digest>, vMatch: seq<bool>, lo: nat, hi: nat)
    requires lo <= hi <= |vMatch| == |txids|
    ensures AnyMatch(vMatch, lo, hi) <==> Matched(vMatch, lo, hi) > 0
    ensures |Selected(txids, vMatch, lo, hi)| == Matched(vMatch, lo, hi)
    decreases hi - lo
  {
    if lo < hi {
      NoneSelected(txids, vMatch, lo + 1, hi);
      if vMatch[lo] {
        assert AnyMatch(vMatch, lo, hi);
      } else if AnyMatch(vMatch, lo, hi) {
        var p :| lo <= p < hi && vMatch[p];
        assert lo + 1 <= p;
      }
    }
  }

  datatype Proof = Proof(bits: seq<bool>, hashes: seq<Digest>)

  function Build(hash: PairHash, txids: seq<Digest>, vMatch: seq<bool>, h: nat, pos: nat): Proof
    requires |vMatch| == |txids| && Has(|txids|, h, pos)
  {
    var parent := AnyMatch(vMatch, Lo(h, pos), Hi(|txids|, h, pos));
    if h == 0 || !parent then Proof([parent], [CalcHash(hash, txids, h, pos)])
    else
      Split(|txids|, h, pos);
      var left := Build(hash, txids, vMatch, h - 1, pos * 2);
      if Has(|txids|, h - 1, pos * 2 + 1) then
        var right := Build(hash, txids, vMatch, h - 1, pos * 2 + 1);
        Proof([parent] + left.bits + right.bits, left.hashes + right.hashes)
      else Proof([parent] + left.bits, left.hashes)
  }

  /** No more hashes than leaves, and a bit for each hash. */
  lemma {:induction false} BuildSizes(hash: PairHash, txids: seq<Digest>, vMatch: seq<bool>, h: nat, pos: nat)
    requires |vMatch| == |txids| && Has(|txids|, h, pos)
    ensures Lo(h, pos) < Hi(|txids|, h, pos) <= |txids|
    ensures |Build(hash, txids, vMatch, h, pos).hashes| <= Hi(|txids|, h, pos) - Lo(h, pos)
    ensures |Build(hash, txids, vMatch, h, pos).hashes| <= |Build(hash, txids, vMatch, h, pos).bits|
  {
    LoMonotone(h, pos, pos + 1);
    if h > 0 && AnyMatch(vMatch, Lo(h, pos), Hi(|txids|, h, pos)) {
      Split(|txids|, h, pos);
      BuildSizes(hash, txids, vMatch, h - 1, pos * 2);
      if Has(|txids|, h - 1, pos * 2 + 1) {
        BuildSizes(hash, txids, vMatch, h - 1, pos * 2 + 1);
      }
    }
  }

  /** How many hashes a subtree takes. */
  lemma BuildCount(hash: PairHash, txids: seq<Digest>, vMatch: seq<bool>, h: nat, pos: nat)
    requires |vMatch| == |txids| && Has(|txids|, h, pos)
    requires h > 0 && AnyMatch(vMatch, Lo(h, pos), Hi(|txids|, h, pos))
    ensures Has(|txids|, h - 1, pos * 2)
    ensures |Build(hash, txids, vMatch, h, pos).hashes| ==
            |Build(hash, txids, vMatch, h - 1, pos * 2).hashes|
            + if Has(|txids|, h - 1, pos * 2 + 1) then |Build(hash, txids, vMatch, h - 1, pos * 2 + 1).hashes| else 0
  {
    Split(|txids|, h, pos);
  }

  /** At most 1 + matched * height hashes. */
  lemma {:induction false} BuildHashes(hash: PairHash, txids: seq<Digest>, vMatch: seq<bool>, h: nat, pos: nat)
    requires |vMatch| == |txids| && Has(|txids|, h, pos)
    ensures Lo(h, pos) <= Hi(|txids|, h, pos) <= |txids|
    ensures |Build(hash, txids, vMatch, h, pos).hashes| <= 1 + Matched(vMatch, Lo(h, pos), Hi(|txids|, h, pos)) * h
    decreases h, 1
  {
    LoMonotone(h, pos, pos + 1);
    var lo, hi := Lo(h, pos), Hi(|txids|, h, pos);
    if h > 0 && AnyMatch(vMatch, lo, hi) {
      InnerHashes(hash, txids, vMatch, h, pos);
    } else {
      assert Matched(vMatch, lo, hi) * h >= 0;
    }
  }

  lemma {:induction false} InnerHashes(hash: PairHash, txids: seq<Digest>, vMatch: seq<bool>, h: nat, pos: nat)
    requires |vMatch| == |txids| && Has(|txids|, h, pos) && Lo(h, pos) <= Hi(|txids|, h, pos) <= |txids|
    requires h > 0 && AnyMatch(vMatch, Lo(h, pos), Hi(|txids|, h, pos))
    ensures |Build(hash, txids, vMatch, h, pos).hashes| <= 1 + Matched(vMatch, Lo(h, pos), Hi(|txids|, h, pos)) * h
    decreases h, 0
  {
    hide Build;
    var lo, hi := Lo(h, pos), Hi(|txids|, h, pos);
    Split(|txids|, h, pos);
    var mid := Hi(|txids|, h - 1, pos * 2);
    NoneSelected(txids, vMatch, lo, hi);
    SelectedSplit(txids, vMatch, lo, mid, hi);
    BuildCount(hash, txids, vMatch, h, pos);
    BuildHashes(hash, txids, vMatch, h - 1, pos * 2);
    var ml, mr := Matched(vMatch, lo, mid), Matched(vMatch, mid, hi);
    var l := |Build(hash, txids, vMatch, h - 1, pos * 2).hashes|;
    if Has(|txids|, h - 1, pos * 2 + 1) {
      BuildHashes(hash, txids, vMatch, h - 1, pos * 2 + 1);
      HashBound(ml, mr, h, l, |Build(hash, txids, vMatch, h - 1, pos * 2 + 1).hashes|);
    } else {
      HashBound(ml, 0, h, l, 0);
    }
  }

  lemma HashBound(ml: nat, mr: nat, h: nat, l: nat, r: nat)
    requires h > 0 && ml + mr > 0 && l <= 1 + ml * (h - 1) && r <= 1 + mr * (h - 1)
    ensures l + r <= 1 + (ml + mr) * h
  {
    assert ml * (h - 1) + mr * (h - 1) + (ml + mr) == (ml + mr) * h;
  }

  /** The nodes visited that have only one child. */
  function Singles(n: nat, vMatch: seq<bool>, h: nat, pos: nat): nat
    requires |vMatch| == n
  {
    if h == 0 || !AnyMatch(vMatch, Lo(h, pos), Hi(n, h, pos)) then 0
    else if Has(n, h - 1, pos * 2 + 1) then Singles(n, vMatch, h - 1, pos * 2) + Singles(n, vMatch, h - 1, pos * 2 + 1)
    else 1 + Singles(n, vMatch, h - 1, pos * 2)
  }

  /** There are 2*N - 1 bits for N hashes, and one more for each node visited that has only one child. */
  lemma {:induction false} BuildBits(hash: PairHash, txids: seq<Digest>, vMatch: seq<bool>, h: nat, pos: nat)
    requires |vMatch| == |txids| && Has(|txids|, h, pos)
    ensures |Build(hash, txids, vMatch, h, pos).bits| ==
            2 * |Build(hash, txids, vMatch, h, pos).hashes| - 1 + Singles(|txids|, vMatch, h, pos)
  {
    if h > 0 && AnyMatch(vMatch, Lo(h, pos), Hi(|txids|, h, pos)) {
      Split(|txids|, h, pos);
      BuildBits(hash, txids, vMatch, h - 1, pos * 2);
      if Has(|txids|, h - 1, pos * 2 + 1) {
        BuildBits(hash, txids, vMatch, h - 1, pos * 2 + 1);
      }
    }
  }

  /** Such nodes are at the right edge only, so that there is at most one at each height. */
  lemma {:induction false} FewSingles(n: nat, vMatch: seq<bool>, h: nat, pos: nat)
    requires |vMatch| == n && Has(n, h, pos)
    ensures Lo(h, pos + 1) <= n ==> Singles(n, vMatch, h, pos) == 0
    ensures Singles(n, vMatch, h, pos) <= h
  {
    if h > 0 {
      Split(n, h, pos);
      LoMonotone(h - 1, pos * 2 + 1, pos * 2 + 2);
      FewSingles(n, vMatch, h - 1, pos * 2);
      if Has(n, h - 1, pos * 2 + 1) {
        FewSingles(n, vMatch, h - 1, pos * 2 + 1);
      }
    }
  }

  /** The first leaf below the highest node with only one child; n if there is none. */
  function FirstSingle(n: nat, h: nat, pos: nat): nat {
    if h == 0 then n
    else if Has(n, h - 1, pos * 2 + 1) then FirstSingle(n, h - 1, pos * 2 + 1)
    else Lo(h, pos)
  }

  /** A node with only one child is visited exactly if some match is at that leaf or after it. */
  lemma {:induction false} SinglesIff(n: nat, vMatch: seq<bool>, h: nat, pos: nat)
    requires |vMatch| == n && Has(n, h, pos)
    ensures Lo(h, pos) <= FirstSingle(n, h, pos) <= n
    ensures Singles(n, vMatch, h, pos) == 0 <==> !AnyMatch(vMatch, FirstSingle(n, h, pos), n)
  {
    if h > 0 {
      Split(n, h, pos);
      if Has(n, h - 1, pos * 2 + 1) {
        SinglesIff(n, vMatch, h - 1, pos * 2 + 1);
        FewSingles(n, vMatch, h - 1, pos * 2);
        if Hi(n, h, pos) < n {
          FewSingles(n, vMatch, h - 1, pos * 2 + 1);
        }
      }
    }
  }

  /**
  So at most 2*N - 1 bits and the height, and within 2*N - 1 exactly if nothing is matched from the first
  leaf of the highest node with only one child on.
  */
  lemma BitsBound(hash: PairHash, txids: seq<Digest>, vMatch: seq<bool>)
    requires txids != [] && |vMatch| == |txids|
    ensures var p, n, h := BuildAll(hash, txids, vMatch), |txids|, TreeHeight(|txids|);
            && |p.bits| <= 2 * |p.hashes| - 1 + h
            && (|p.bits| <= 2 * |p.hashes| - 1 <==> !AnyMatch(vMatch, FirstSingle(n, h, 0), n))
  {
    hide Build;
    RootExists(|txids|);
    BuildBits(hash, txids, vMatch, TreeHeight(|txids|), 0);
    FewSingles(|txids|, vMatch, TreeHeight(|txids|), 0);
    SinglesIff(|txids|, vMatch, TreeHeight(|txids|), 0);
  }

  /** With five transactions of which the last is matched there are five bits for two hashes. */
  lemma FiveBits(hash: PairHash, txids: seq<Digest>)
    requires |txids| == 5
    ensures var p := BuildAll(hash, txids, [false, false, false, false, true]);
            |p.bits| == 5 && |p.hashes| == 2
  {
    var m := [false, false, false, false, true];
    assert Lo(0, 4) == 4 && Lo(0, 5) == 5 && Lo(1, 2) == 4 && Lo(1, 3) == 6 && Lo(2, 1) == 4 && Lo(2, 2) == 8;
    assert Lo(1, 0) == 0 && Lo(2, 0) == 0 && Lo(3, 0) == 0 && Lo(0, 1) == 1 && Lo(1, 1) == 2 && Lo(3, 1) == 8;
    assert TreeHeight(5) == HeightFrom(5, 1) == HeightFrom(5, 2) == HeightFrom(5, 3) == 3;
    assert m[4];
    assert AnyMatch(m, 4, 5) && AnyMatch(m, 0, 5) && !AnyMatch(m, 0, 4);
    hide AnyMatch;
    hide CalcHash;
    var leaf := Build(hash, txids, m, 0, 4);
    assert |leaf.bits| == 1 && |leaf.hashes| == 1;
    var b1 := Build(hash, txids, m, 1, 2);
    assert |b1.bits| == 2 && |b1.hashes| == 1;
    var b2 := Build(hash, txids, m, 2, 1);
    assert |b2.bits| == 3 && |b2.hashes| == 1;
    var b0 := Build(hash, txids, m, 2, 0);
    assert |b0.bits| == 1 && |b0.hashes| == 1;
  }

  //
  // The encoded size.
  //

  /** The bytes of a length (GetSizeOfCompactSize). */
  function CompactSize(n: nat): nat {
    if n < 253 then 1 else if n <= 0xffff then 3 else if n <= 0xffff_ffff then 5 else 9
  }

  function Encoded(hashes: nat, bits: nat): nat {
    var bytes := (bits + 7) / 8;
    4 + CompactSize(hashes) + 32 * hashes + CompactSize(bytes) + bytes
  }

  /** 10 + ceil(32.25 * N) */
  function Documented(hashes: nat): nat {
    10 + 32 * hashes + (hashes + 3) / 4
  }

  lemma {:induction false} HeightAtMost(n: nat, h: nat, k: nat)
    requires h <= k && !Has(n, k, 1)
    ensures HeightFrom(n, h) <= k
    decreases k - h
  {
    if h < k && Has(n, h, 1) {
      HeightAtMost(n, h + 1, k);
    }
  }

  /** The height is the least one at which a perfect tree has a leaf for every transaction. */
  lemma HeightIsLeast(n: nat, h: nat)
    ensures TreeHeight(n) <= h <==> n <= Pow2(h)
  {
    LoIsShift(h, 1);
    if n <= Pow2(h) {
      HeightAtMost(n, 0, h);
    } else if TreeHeight(n) <= h {
      LoIsShift(TreeHeight(n), 1);
      Pow2Monotone(TreeHeight(n), h);
    }
  }

  lemma HeightIsSmall(n: nat)
    requires n <= MAX_TRANSACTIONS
    ensures TreeHeight(n) <= 16
  {
    Pow2Is16();
    LoIsShift(16, 1);
    HeightAtMost(n, 0, 16);
  }

  lemma EncodedIff(hashes: nat, singles: nat)
    requires 1 <= hashes <= MAX_TRANSACTIONS && singles <= 16
    ensures Encoded(hashes, 2 * hashes - 1 + singles) <= 10 + 32 * hashes + (2 * hashes + 6 + singles) / 8
    ensures Encoded(hashes, 2 * hashes - 1 + singles) <= Documented(hashes) <==>
            2 * hashes + 6 + singles < 253 * 8 || (2 * hashes + 6) % 8 + singles < 8
    ensures singles == 0 ==> Encoded(hashes, 2 * hashes - 1 + singles) <= Documented(hashes)
  {
    assert (2 * hashes + 6) / 8 == (hashes + 3) / 4;
  }

  lemma MoreBits(a: nat, b: nat)
    requires a <= b
    ensures a / 8 <= b / 8
  {
  }

  /**
  The encoding is within the size that its bits need, and within the documented size exactly if its flag
  bytes are less than 253, so that their length takes one byte, or the bits of the visited nodes with only
  one child fit into the last byte of the others; so it always is if nothing is matched from the first leaf
  of the highest such node on.
  */
  lemma SizeIff(hash: PairHash, txids: seq<Digest>, vMatch: seq<bool>)
    requires 1 <= |txids| <= MAX_TRANSACTIONS && |vMatch| == |txids|
    ensures var p, h := BuildAll(hash, txids, vMatch), TreeHeight(|txids|);
            var n, singles, size := |p.hashes|, Singles(|txids|, vMatch, h, 0), Encoded(|p.hashes|, |p.bits|);
            && size <= 10 + 32 * n + (2 * n + 6 + h) / 8
            && (size <= Documented(n) <==> 2 * n + 6 + singles < 253 * 8 || (2 * n + 6) % 8 + singles < 8)
            && (!AnyMatch(vMatch, FirstSingle(|txids|, h, 0), |txids|) ==> size <= Documented(n))
  {
    hide Build;
    hide Encoded;
    hide Documented;
    hide Singles;
    hide FirstSingle;
    hide AnyMatch;
    hide TreeHeight;
    hide Lo;
    hide Hi;
    var h := TreeHeight(|txids|);
    RootExists(|txids|);
    HeightIsSmall(|txids|);
    BuildBits(hash, txids, vMatch, h, 0);
    BuildSizes(hash, txids, vMatch, h, 0);
    BuildSome(hash, txids, vMatch, h, 0);
    FewSingles(|txids|, vMatch, h, 0);
    SinglesIff(|txids|, vMatch, h, 0);
    var n, singles := |BuildAll(hash, txids, vMatch).hashes|, Singles(|txids|, vMatch, h, 0);
    EncodedIff(n, singles);
    MoreBits(2 * n + 6 + singles, 2 * n + 6 + h);
  }

  lemma {:induction false} BuildSome(hash: PairHash, txids: seq<Digest>, vMatch: seq<bool>, h: nat, pos: nat)
    requires |vMatch| == |txids| && Has(|txids|, h, pos)
    ensures |Build(hash, txids, vMatch, h, pos).hashes| >= 1
  {
    if h > 0 && AnyMatch(vMatch, Lo(h, pos), Hi(|txids|, h, pos)) {
      Split(|txids|, h, pos);
      BuildSome(hash, txids, vMatch, h - 1, pos * 2);
    }
  }

  //
  // A block of 2^k + 1 transactions that all match: k nodes with only one child above the last one.
  //

  ghost predicate AllMatched(vMatch: seq<bool>) {
    forall i :: 0 <= i < |vMatch| ==> vMatch[i]
  }

  lemma {:induction false} AllLeaves(hash: PairHash, txids: seq<Digest>, vMatch: seq<bool>, h: nat, pos: nat)
    requires |vMatch| == |txids| && Has(|txids|, h, pos) && AllMatched(vMatch)
    ensures |Build(hash, txids, vMatch, h, pos).hashes| == Hi(|txids|, h, pos) - Lo(h, pos)
  {
    LoMonotone(h, pos, pos + 1);
    assert vMatch[Lo(h, pos)];
    if h > 0 {
      Split(|txids|, h, pos);
      AllLeaves(hash, txids, vMatch, h - 1, pos * 2);
      if Has(|txids|, h - 1, pos * 2 + 1) {
        AllLeaves(hash, txids, vMatch, h - 1, pos * 2 + 1);
      }
    }
  }

  lemma {:induction false} HeightOfOneMore(k: nat, h: nat)
    requires h <= k + 1
    ensures HeightFrom(Pow2(k) + 1, h) == k + 1
    decreases k + 1 - h
  {
    LoIsShift(h, 1);
    if h <= k {
      Pow2Monotone(h, k);
      HeightOfOneMore(k, h + 1);
    }
  }

  /** The nodes above the last of 2^k + 1 leaves, up to height k. */
  lemma {:induction false} LastSingles(vMatch: seq<bool>, k: nat, h: nat)
    requires h <= k && |vMatch| == Pow2(k) + 1 && AllMatched(vMatch)
    ensures Lo(h, Pow2(k - h)) == Pow2(k)
    ensures Singles(|vMatch|, vMatch, h, Pow2(k - h)) == h
  {
    LoIsShift(h, Pow2(k - h));
    Pow2Add(k - h, h);
    if h > 0 {
      LastSingles(vMatch, k, h - 1);
      LoMonotone(h - 1, Pow2(k - h) * 2, Pow2(k - h) * 2 + 1);
      assert Pow2(k - h + 1) == 2 * Pow2(k - h);
      LoMonotone(h, Pow2(k - h), Pow2(k - h) + 1);
      assert vMatch[Pow2(k)];
    }
  }

  lemma RootSingles(vMatch: seq<bool>, k: nat)
    requires |vMatch| == Pow2(k) + 1 && AllMatched(vMatch)
    ensures Singles(|vMatch|, vMatch, k + 1, 0) == k
  {
    LastSingles(vMatch, k, k);
    LoZero(k);
    LoZero(k + 1);
    LoMonotone(k + 1, 0, 1);
    assert vMatch[0];
    FewSingles(|vMatch|, vMatch, k, 0);
  }

  lemma ManyEighths(k: nat)
    requires k >= 10
    ensures Pow2(k) == 8 * Pow2(k - 3) && Pow2(k - 3) >= 128
  {
    Pow2Monotone(7, k - 3);
    assert Pow2(7) == 128;
    assert Pow2(k) == 2 * Pow2(k - 1) && Pow2(k - 1) == 2 * Pow2(k - 2) && Pow2(k - 2) == 2 * Pow2(k - 3);
  }

  lemma TooMany(m: nat, k: nat)
    requires m >= 128 && k >= 10
    ensures var n := 8 * m + 1; 2 * n + 6 + k >= 253 * 8 && (2 * n + 6) % 8 + k >= 8
  {
  }

  /** Such a block is beyond the documented size from 1025 transactions on. */
  lemma SizeExceeded(hash: PairHash, txids: seq<Digest>, vMatch: seq<bool>, k: nat)
    requires 10 <= k && |txids| == |vMatch| == Pow2(k) + 1 <= MAX_TRANSACTIONS && AllMatched(vMatch)
    ensures var p := BuildAll(hash, txids, vMatch);
            && |p.hashes| == |txids| && |p.bits| == 2 * |txids| - 1 + k
            && Encoded(|p.hashes|, |p.bits|) > Documented(|p.hashes|)
  {
    hide Build;
    hide Singles;
    RootExists(|txids|);
    HeightOfOneMore(k, 0);
    RootSingles(vMatch, k);
    AllLeaves(hash, txids, vMatch, k + 1, 0);
    BuildBits(hash, txids, vMatch, k + 1, 0);
    SizeIff(hash, txids, vMatch);
    hide Encoded;
    hide Documented;
    ManyEighths(k);
    TooMany(Pow2(k - 3), k);
  }

  //
  // Extracting.
  //

  datatype Cursor = Cursor(bitsUsed: nat, hashUsed: nat, bad: bool, matches: seq<Digest>)

  function Extract(hash: PairHash, n: nat, p: Proof, h: nat, pos: nat, c: Cursor): (r: (Cursor, Digest))
    ensures c.bad ==> r.0.bad
    decreases h
  {
    if c.bitsUsed >= |p.bits| then (c.(bad := true), 0)
    else
      var parent := p.bits[c.bitsUsed];
      var c1 := c.(bitsUsed := c.bitsUsed + 1);
      if h == 0 || !parent then
        if c1.hashUsed >= |p.hashes| then (c1.(bad := true), 0)
        else
          var d := p.hashes[c1.hashUsed];
          (c1.(hashUsed := c1.hashUsed + 1, matches := if h == 0 && parent then c1.matches + [d] else c1.matches), d)
      else
        var (c2, left) := Extract(hash, n, p, h - 1, pos * 2, c1);
        if Has(n, h - 1, pos * 2 + 1) then
          var (c3, right) := Extract(hash, n, p, h - 1, pos * 2 + 1, c2);
          (c3.(bad := c3.bad || right == left), hash(left, right))
        else (c2, hash(left, left))
  }

  /** A proof that is bad already is read in the same way. */
  lemma {:induction false} BadStays(hash: PairHash, n: nat, p: Proof, h: nat, pos: nat, c: Cursor)
    ensures var (c', d) := Extract(hash, n, p, h, pos, c);
            Extract(hash, n, p, h, pos, c.(bad := true)) == (c'.(bad := true), d)
    decreases h
  {
    if c.bitsUsed < |p.bits| && h > 0 && p.bits[c.bitsUsed] {
      var c1 := c.(bitsUsed := c.bitsUsed + 1);
      BadStays(hash, n, p, h - 1, pos * 2, c1);
      var c2 := Extract(hash, n, p, h - 1, pos * 2, c1).0;
      BadStays(hash, n, p, h - 1, pos * 2 + 1, c2);
    }
  }

  const START := Cursor(0, 0, false, [])

  /** The root and the matches; the root is 0 if the proof is rejected. */
  function ExtractMatches(hash: PairHash, n: nat, p: Proof): (r: (Digest, seq<Digest>)) {
    if n == 0 || n > MAX_TRANSACTIONS || |p.hashes| > n || |p.bits| < |p.hashes| then (0, [])
    else
      var (c, root) := Extract(hash, n, p, TreeHeight(n), 0, START);
      if c.bad || (c.bitsUsed + 7) / 8 != (|p.bits| + 7) / 8 || c.hashUsed != |p.hashes| then (0, c.matches)
      else (root, c.matches)
  }

  //
  // Soundness: nobody can make a foreign transaction appear below the true root.
  //

  ghost predicate IncreasingWithin(ps: seq<nat>, lo: nat, hi: nat) {
    && (forall i :: 0 <= i < |ps| ==> lo <= ps[i] < hi)
    && (forall i, j :: 0 <= i < j < |ps| ==> ps[i] < ps[j])
  }

  /** The transactions at a list of positions. */
  function Pick(txids: seq<Digest>, ps: seq<nat>): (r: seq<Digest>)
    requires forall i :: 0 <= i < |ps| ==> ps[i] < |txids|
    ensures |r| == |ps| && forall i :: 0 <= i < |ps| ==> r[i] == txids[ps[i]]
  {
    seq(|ps|, i requires 0 <= i < |ps| => txids[ps[i]])
  }

  /** The subtree below a node agrees with the block: its matches sit at increasing positions. */
  ghost predicate MatchesAt(txids: seq<Digest>, ps: seq<nat>, lo: nat, hi: nat, before: seq<Digest>, after: seq<Digest>) {
    hi <= |txids| && IncreasingWithin(ps, lo, hi) && after == before + Pick(txids, ps)
  }

  lemma {:induction false} SubtreeSound(hash: PairHash, txids: seq<Digest>, p: Proof, h: nat, pos: nat, c: Cursor)
    returns (ps: seq<nat>)
    requires Injective(hash) && Has(|txids|, h, pos)
    requires var (c', d) := Extract(hash, |txids|, p, h, pos, c); !c'.bad && d == CalcHash(hash, txids, h, pos)
    ensures MatchesAt(txids, ps, Lo(h, pos), Hi(|txids|, h, pos), c.matches, Extract(hash, |txids|, p, h, pos, c).0.matches)
  {
    var n := |txids|;
    LoMonotone(h, pos, pos + 1);
    var parent := p.bits[c.bitsUsed];
    if h == 0 || !parent {
      ps := if h == 0 && parent then [pos] else [];
      assert Pick(txids, ps) == if h == 0 && parent then [txids[pos]] else [];
    } else {
      Split(n, h, pos);
      var c1 := c.(bitsUsed := c.bitsUsed + 1);
      var (c2, left) := Extract(hash, n, p, h - 1, pos * 2, c1);
      var leftHash := CalcHash(hash, txids, h - 1, pos * 2);
      if Has(n, h - 1, pos * 2 + 1) {
        var (c3, right) := Extract(hash, n, p, h - 1, pos * 2 + 1, c2);
        Inject(hash, left, right, leftHash, CalcHash(hash, txids, h - 1, pos * 2 + 1));
        var psl := SubtreeSound(hash, txids, p, h - 1, pos * 2, c1);
        var psr := SubtreeSound(hash, txids, p, h - 1, pos * 2 + 1, c2);
        ps := psl + psr;
        JoinMatches(txids, psl, psr, Lo(h, pos), Lo(h - 1, pos * 2 + 1), Hi(n, h, pos), c.matches, c2.matches, c3.matches);
      } else {
        Inject(hash, left, left, leftHash, leftHash);
        ps := SubtreeSound(hash, txids, p, h - 1, pos * 2, c1);
      }
    }
  }

  lemma JoinIncreasing(psl: seq<nat>, psr: seq<nat>, lo: nat, mid: nat, hi: nat)
    requires lo <= mid <= hi && IncreasingWithin(psl, lo, mid) && IncreasingWithin(psr, mid, hi)
    ensures IncreasingWithin(psl + psr, lo, hi)
  {
  }

  lemma PickJoined(txids: seq<Digest>, psl: seq<nat>, psr: seq<nat>)
    requires (forall i :: 0 <= i < |psl| ==> psl[i] < |txids|) && (forall i :: 0 <= i < |psr| ==> psr[i] < |txids|)
    ensures forall i :: 0 <= i < |psl + psr| ==> (psl + psr)[i] < |txids|
    ensures Pick(txids, psl + psr) == Pick(txids, psl) + Pick(txids, psr)
  {
  }

  lemma JoinMatches(txids: seq<Digest>, psl: seq<nat>, psr: seq<nat>, lo: nat, mid: nat, hi: nat,
                    a: seq<Digest>, b: seq<Digest>, c: seq<Digest>)
    requires lo <= mid <= hi
    requires MatchesAt(txids, psl, lo, mid, a, b) && MatchesAt(txids, psr, mid, hi, b, c)
    ensures MatchesAt(txids, psl + psr, lo, hi, a, c)
  {
    JoinIncreasing(psl, psr, lo, mid, hi);
    hide IncreasingWithin;
    PickJoined(txids, psl, psr);
  }

  /**
  Whatever bits and hashes it is given, ExtractMatches returns the true root of a block
  only together with transactions of that block, in block order.
  */
  lemma Soundness(hash: PairHash, txids: seq<Digest>, p: Proof) returns (ps: seq<nat>)
    requires Injective(hash) && txids != []
    requires var (root, _) := ExtractMatches(hash, |txids|, p); root != 0 && root == Root(hash, txids)
    ensures IncreasingWithin(ps, 0, |txids|) && ExtractMatches(hash, |txids|, p).1 == Pick(txids, ps)
  {
    RootExists(|txids|);
    ps := SubtreeSound(hash, txids, p, TreeHeight(|txids|), 0, START);
    assert [] + Pick(txids, ps) == Pick(txids, ps);
  }

  //
  // Round trip.
  //

  ghost predicate Distinct(txids: seq<Digest>) {
    forall i, j :: 0 <= i < j < |txids| ==> txids[i] != txids[j]
  }

  /** Equal hashes at one height have equal first leaves. */
  lemma {:induction false} EqualHashEqualLeaf(hash: PairHash, txids: seq<Digest>, h: nat, a: nat, b: nat)
    requires Injective(hash) && Has(|txids|, h, a) && Has(|txids|, h, b)
    requires CalcHash(hash, txids, h, a) == CalcHash(hash, txids, h, b)
    ensures Lo(h, a) < |txids| && Lo(h, b) < |txids| && txids[Lo(h, a)] == txids[Lo(h, b)]
  {
    if h > 0 {
      Split(|txids|, h, a);
      Split(|txids|, h, b);
      var ra := if Has(|txids|, h - 1, a * 2 + 1) then CalcHash(hash, txids, h - 1, a * 2 + 1) else CalcHash(hash, txids, h - 1, a * 2);
      var rb := if Has(|txids|, h - 1, b * 2 + 1) then CalcHash(hash, txids, h - 1, b * 2 + 1) else CalcHash(hash, txids, h - 1, b * 2);
      Inject(hash, CalcHash(hash, txids, h - 1, a * 2), ra, CalcHash(hash, txids, h - 1, b * 2), rb);
      EqualHashEqualLeaf(hash, txids, h - 1, a * 2, b * 2);
    }
  }

  lemma SiblingsDiffer(hash: PairHash, txids: seq<Digest>, h: nat, pos: nat)
    requires Injective(hash) && Distinct(txids) && h > 0 && Has(|txids|, h, pos) && Has(|txids|, h - 1, pos * 2 + 1)
    ensures Has(|txids|, h - 1, pos * 2)
    ensures CalcHash(hash, txids, h - 1, pos * 2) != CalcHash(hash, txids, h - 1, pos * 2 + 1)
  {
    Split(|txids|, h, pos);
    if CalcHash(hash, txids, h - 1, pos * 2) == CalcHash(hash, txids, h - 1, pos * 2 + 1) {
      EqualHashEqualLeaf(hash, txids, h - 1, pos * 2, pos * 2 + 1);
    }
  }

  //
  // Soundness for whatever number of transactions a proof claims: here the check against identical branches is needed.
  //

  /** A node is hashed with itself exactly if it has one child, so a claimed shape that gives the true hash is the true one. */
  lemma SameChildren(hash: PairHash, txids: seq<Digest>, h: nat, pos: nat, left: Digest, right: Digest)
    requires Injective(hash) && Distinct(txids) && h > 0 && Has(|txids|, h, pos)
    requires hash(left, right) == CalcHash(hash, txids, h, pos)
    ensures Has(|txids|, h - 1, pos * 2) && left == CalcHash(hash, txids, h - 1, pos * 2)
    ensures left != right <==> Has(|txids|, h - 1, pos * 2 + 1)
    ensures Has(|txids|, h - 1, pos * 2 + 1) ==> right == CalcHash(hash, txids, h - 1, pos * 2 + 1)
  {
    Split(|txids|, h, pos);
    var l := CalcHash(hash, txids, h - 1, pos * 2);
    if Has(|txids|, h - 1, pos * 2 + 1) {
      Inject(hash, left, right, l, CalcHash(hash, txids, h - 1, pos * 2 + 1));
      SiblingsDiffer(hash, txids, h, pos);
    } else {
      Inject(hash, left, right, l, l);
    }
  }

  lemma {:induction false} ClaimedSubtreeSound(hash: PairHash, txids: seq<Digest>, n: nat, p: Proof, h: nat, pos: nat, c: Cursor)
    returns (ps: seq<nat>)
    requires Injective(hash) && Distinct(txids) && Has(|txids|, h, pos)
    requires var (c', d) := Extract(hash, n, p, h, pos, c); !c'.bad && d == CalcHash(hash, txids, h, pos)
    ensures MatchesAt(txids, ps, Lo(h, pos), Hi(|txids|, h, pos), c.matches, Extract(hash, n, p, h, pos, c).0.matches)
  {
    hide Distinct;
    hide Injective;
    LoMonotone(h, pos, pos + 1);
    var parent := p.bits[c.bitsUsed];
    if h == 0 || !parent {
      ps := if h == 0 && parent then [pos] else [];
      assert Pick(txids, ps) == if h == 0 && parent then [txids[pos]] else [];
    } else {
      Split(|txids|, h, pos);
      hide CalcHash;
      var c1 := c.(bitsUsed := c.bitsUsed + 1);
      var (c2, left) := Extract(hash, n, p, h - 1, pos * 2, c1);
      if Has(n, h - 1, pos * 2 + 1) {
        var (c3, right) := Extract(hash, n, p, h - 1, pos * 2 + 1, c2);
        SameChildren(hash, txids, h, pos, left, right);
        var psl := ClaimedSubtreeSound(hash, txids, n, p, h - 1, pos * 2, c1);
        var psr := ClaimedSubtreeSound(hash, txids, n, p, h - 1, pos * 2 + 1, c2);
        ps := psl + psr;
        JoinMatches(txids, psl, psr, Lo(h, pos), Lo(h - 1, pos * 2 + 1), Hi(|txids|, h, pos), c.matches, c2.matches, c3.matches);
      } else {
        SameChildren(hash, txids, h, pos, left, left);
        ps := ClaimedSubtreeSound(hash, txids, n, p, h - 1, pos * 2, c1);
      }
    }
  }

  /**
  Whatever number of transactions it is given that makes a tree as high, ExtractMatches returns the true root of a
  block without duplicates only together with transactions of that block, in block order.
  */
  lemma ClaimedSoundness(hash: PairHash, txids: seq<Digest>, n: nat, p: Proof) returns (ps: seq<nat>)
    requires Injective(hash) && Distinct(txids) && txids != [] && TreeHeight(n) == TreeHeight(|txids|)
    requires var (root, _) := ExtractMatches(hash, n, p); root != 0 && root == Root(hash, txids)
    ensures IncreasingWithin(ps, 0, |txids|) && ExtractMatches(hash, n, p).1 == Pick(txids, ps)
  {
    RootExists(|txids|);
    ps := ClaimedSubtreeSound(hash, txids, n, p, TreeHeight(|txids|), 0, START);
    assert [] + Pick(txids, ps) == Pick(txids, ps);
  }

  //
  // Nothing to spare: what an accepted proof holds is all needed.
  //

  /** A longer proof that begins with this one is read in the same way, if this one suffices. */
  lemma {:induction false} ReadAlike(hash: PairHash, n: nat, p: Proof, q: Proof, h: nat, pos: nat, c: Cursor)
    requires p.bits <= q.bits && p.hashes <= q.hashes && Enough(hash, n, p, h, pos, c)
    ensures Extract(hash, n, q, h, pos, c) == Extract(hash, n, p, h, pos, c)
    decreases h
  {
    if h > 0 && p.bits[c.bitsUsed] {
      var c1 := c.(bitsUsed := c.bitsUsed + 1);
      ReadAlike(hash, n, p, q, h - 1, pos * 2, c1);
      if Has(n, h - 1, pos * 2 + 1) {
        ReadAlike(hash, n, p, q, h - 1, pos * 2 + 1, Extract(hash, n, p, h - 1, pos * 2, c1).0);
      }
    }
  }

  /** Extraction finds every bit and hash that it looks for. */
  ghost predicate Enough(hash: PairHash, n: nat, p: Proof, h: nat, pos: nat, c: Cursor)
    decreases h
  {
    && c.bitsUsed < |p.bits|
    && var c1 := c.(bitsUsed := c.bitsUsed + 1);
       if h == 0 || !p.bits[c.bitsUsed] then c1.hashUsed < |p.hashes|
       else
         && Enough(hash, n, p, h - 1, pos * 2, c1)
         && (Has(n, h - 1, pos * 2 + 1) ==> Enough(hash, n, p, h - 1, pos * 2 + 1, Extract(hash, n, p, h - 1, pos * 2, c1).0))
  }

  lemma {:induction false} GoodIsEnough(hash: PairHash, n: nat, p: Proof, h: nat, pos: nat, c: Cursor)
    requires !Extract(hash, n, p, h, pos, c).0.bad
    ensures Enough(hash, n, p, h, pos, c)
    decreases h
  {
    if h > 0 && p.bits[c.bitsUsed] {
      var c1 := c.(bitsUsed := c.bitsUsed + 1);
      GoodIsEnough(hash, n, p, h - 1, pos * 2, c1);
      if Has(n, h - 1, pos * 2 + 1) {
        GoodIsEnough(hash, n, p, h - 1, pos * 2 + 1, Extract(hash, n, p, h - 1, pos * 2, c1).0);
      }
    }
  }

  /**
  A proof is accepted only for 1 to 33333 transactions and with no more hashes than transactions or bits; and an
  accepted one is no longer accepted once a hash or a byte of bits is appended.
  */
  lemma NothingToSpare(hash: PairHash, n: nat, p: Proof, q: Proof)
    requires ExtractMatches(hash, n, p).0 != 0
    ensures 1 <= n <= 33333 && |p.hashes| <= n && |p.hashes| <= |p.bits|
    ensures p.bits <= q.bits && p.hashes <= q.hashes && (|q.hashes| > |p.hashes| || |q.bits| >= |p.bits| + 8) ==>
              ExtractMatches(hash, n, q).0 == 0
  {
    hide Extract;
    var h := TreeHeight(n);
    GoodIsEnough(hash, n, p, h, 0, START);
    if p.bits <= q.bits && p.hashes <= q.hashes {
      ReadAlike(hash, n, p, q, h, 0, START);
    }
  }

  /** A part of a sequence, from position a on. */
  ghost predicate IsAt<T>(s: seq<T>, a: nat, x: seq<T>) {
    a + |x| <= |s| && s[a..a + |x|] == x
  }

  lemma IsAtSplit<T>(s: seq<T>, a: nat, x: seq<T>, y: seq<T>)
    requires IsAt(s, a, x + y)
    ensures IsAt(s, a, x) && IsAt(s, a + |x|, y)
  {
    var t := s[a..a + |x + y|];
    assert t[..|x|] == x && t[|x|..] == y;
    assert s[a..a + |x|] == t[..|x|];
    assert s[a + |x|..a + |x| + |y|] == t[|x|..];
  }

  lemma IsAtOne<T>(s: seq<T>, a: nat, x: T)
    requires IsAt(s, a, [x])
    ensures a < |s| && s[a] == x
  {
    assert s[a..a + 1][0] == x;
  }

  /** A proof that contains the built subtree at the cursor. */
  ghost predicate Contains(p: Proof, c: Cursor, sub: Proof) {
    IsAt(p.bits, c.bitsUsed, sub.bits) && IsAt(p.hashes, c.hashUsed, sub.hashes)
  }

  function After(c: Cursor, sub: Proof, matches: seq<Digest>): Cursor {
    Cursor(c.bitsUsed + |sub.bits|, c.hashUsed + |sub.hashes|, c.bad, c.matches + matches)
  }

  lemma ContainsSplit(p: Proof, c: Cursor, bit: bool, left: Proof, right: Proof, matches: seq<Digest>)
    requires Contains(p, c, Proof([bit] + left.bits + right.bits, left.hashes + right.hashes))
    ensures c.bitsUsed < |p.bits| && p.bits[c.bitsUsed] == bit
    ensures var c1 := c.(bitsUsed := c.bitsUsed + 1); Contains(p, c1, left) && Contains(p, After(c1, left, matches), right)
  {
    hide IsAt;
    assert [bit] + left.bits + right.bits == [bit] + (left.bits + right.bits);
    IsAtSplit(p.bits, c.bitsUsed, [bit], left.bits + right.bits);
    IsAtOne(p.bits, c.bitsUsed, bit);
    IsAtSplit(p.bits, c.bitsUsed + 1, left.bits, right.bits);
    IsAtSplit(p.hashes, c.hashUsed, left.hashes, right.hashes);
  }

  lemma {:induction false} ExtractBuilt(hash: PairHash, txids: seq<Digest>, vMatch: seq<bool>, p: Proof, h: nat, pos: nat, c: Cursor)
    requires Injective(hash) && Distinct(txids) && |vMatch| == |txids| && Has(|txids|, h, pos) && !c.bad
    requires Contains(p, c, Build(hash, txids, vMatch, h, pos))
    ensures Lo(h, pos) <= Hi(|txids|, h, pos) <= |txids|
    ensures Extract(hash, |txids|, p, h, pos, c) ==
            (After(c, Build(hash, txids, vMatch, h, pos), Selected(txids, vMatch, Lo(h, pos), Hi(|txids|, h, pos))),
             CalcHash(hash, txids, h, pos))
    decreases h, 1
  {
    var n := |txids|;
    var built := Build(hash, txids, vMatch, h, pos);
    BuildSizes(hash, txids, vMatch, h, pos);
    var lo, hi := Lo(h, pos), Hi(n, h, pos);
    var parent := AnyMatch(vMatch, lo, hi);
    NoneSelected(txids, vMatch, lo, hi);
    if h == 0 || !parent {
      assert p.bits[c.bitsUsed] == p.bits[c.bitsUsed..c.bitsUsed + 1][0] == parent;
      assert p.hashes[c.hashUsed] == p.hashes[c.hashUsed..c.hashUsed + 1][0];
      if h == 0 {
        LeafSelected(txids, vMatch, pos);
      } else {
        assert Selected(txids, vMatch, lo, hi) == [];
      }
      assert c.matches + [] == c.matches;
    } else {
      ExtractInner(hash, txids, vMatch, p, h, pos, c);
    }
  }

  lemma LeafSelected(txids: seq<Digest>, vMatch: seq<bool>, pos: nat)
    requires |vMatch| == |txids| && Has(|txids|, 0, pos)
    ensures pos < |txids| && Lo(0, pos) == pos && Hi(|txids|, 0, pos) == pos + 1
    ensures Selected(txids, vMatch, pos, pos + 1) == if vMatch[pos] then [txids[pos]] else []
    ensures AnyMatch(vMatch, pos, pos + 1) == vMatch[pos]
  {
    assert Selected(txids, vMatch, pos + 1, pos + 1) == [];
  }

  /** Extraction at an inner node, from the results of its subtrees. */
  lemma ExtractNode(hash: PairHash, n: nat, p: Proof, h: nat, pos: nat, c: Cursor,
                    left: Proof, right: Proof, lsel: seq<Digest>, rsel: seq<Digest>, lh: Digest, rh: Digest)
    requires h > 0 && c.bitsUsed < |p.bits| && p.bits[c.bitsUsed] && !c.bad
    requires var c1 := c.(bitsUsed := c.bitsUsed + 1);
             && Extract(hash, n, p, h - 1, pos * 2, c1) == (After(c1, left, lsel), lh)
             && (if Has(n, h - 1, pos * 2 + 1)
                 then lh != rh && Extract(hash, n, p, h - 1, pos * 2 + 1, After(c1, left, lsel)) == (After(After(c1, left, lsel), right, rsel), rh)
                 else lh == rh && right == Proof([], []) && rsel == [])
    ensures Extract(hash, n, p, h, pos, c)
            == (After(c, Proof([true] + left.bits + right.bits, left.hashes + right.hashes), lsel + rsel), hash(lh, rh))
  {
    AfterTwice(c, true, left, right, lsel, rsel);
  }

  /** What is built at an inner node above a match. */
  lemma BuildNode(hash: PairHash, txids: seq<Digest>, vMatch: seq<bool>, h: nat, pos: nat) returns (right: Proof, rh: Digest)
    requires |vMatch| == |txids| && Has(|txids|, h, pos) && h > 0 && AnyMatch(vMatch, Lo(h, pos), Hi(|txids|, h, pos))
    ensures Has(|txids|, h - 1, pos * 2)
    ensures Has(|txids|, h - 1, pos * 2 + 1) ==>
              right == Build(hash, txids, vMatch, h - 1, pos * 2 + 1) && rh == CalcHash(hash, txids, h - 1, pos * 2 + 1)
    ensures !Has(|txids|, h - 1, pos * 2 + 1) ==> right == Proof([], []) && rh == CalcHash(hash, txids, h - 1, pos * 2)
    ensures var left := Build(hash, txids, vMatch, h - 1, pos * 2);
            Build(hash, txids, vMatch, h, pos) == Proof([true] + left.bits + right.bits, left.hashes + right.hashes)
    ensures CalcHash(hash, txids, h, pos) == hash(CalcHash(hash, txids, h - 1, pos * 2), rh)
  {
    Split(|txids|, h, pos);
    if Has(|txids|, h - 1, pos * 2 + 1) {
      right, rh := Build(hash, txids, vMatch, h - 1, pos * 2 + 1), CalcHash(hash, txids, h - 1, pos * 2 + 1);
    } else {
      right, rh := Proof([], []), CalcHash(hash, txids, h - 1, pos * 2);
    }
  }

  /** The leaves selected below an inner node are those below its children. */
  lemma SelectedNode(txids: seq<Digest>, vMatch: seq<bool>, h: nat, pos: nat) returns (lsel: seq<Digest>, rsel: seq<Digest>)
    requires |vMatch| == |txids| && Has(|txids|, h, pos) && h > 0
    ensures Lo(h - 1, pos * 2) <= Hi(|txids|, h - 1, pos * 2) <= |txids|
    ensures lsel == Selected(txids, vMatch, Lo(h - 1, pos * 2), Hi(|txids|, h - 1, pos * 2))
    ensures Has(|txids|, h - 1, pos * 2 + 1) ==>
              && Lo(h - 1, pos * 2 + 1) <= Hi(|txids|, h - 1, pos * 2 + 1) <= |txids|
              && rsel == Selected(txids, vMatch, Lo(h - 1, pos * 2 + 1), Hi(|txids|, h - 1, pos * 2 + 1))
    ensures !Has(|txids|, h - 1, pos * 2 + 1) ==> rsel == []
    ensures Lo(h, pos) <= Hi(|txids|, h, pos) <= |txids|
    ensures Selected(txids, vMatch, Lo(h, pos), Hi(|txids|, h, pos)) == lsel + rsel
  {
    Split(|txids|, h, pos);
    var lo, mid, hi := Lo(h, pos), Hi(|txids|, h - 1, pos * 2), Hi(|txids|, h, pos);
    SelectedSplit(txids, vMatch, lo, mid, hi);
    lsel, rsel := Selected(txids, vMatch, lo, mid), Selected(txids, vMatch, mid, hi);
  }

  /** A node above a match: its left subtree is extracted first, then its right one if there is one. */
  lemma {:induction false} ExtractInner(hash: PairHash, txids: seq<Digest>, vMatch: seq<bool>, p: Proof, h: nat, pos: nat, c: Cursor)
    requires Injective(hash) && Distinct(txids) && |vMatch| == |txids| && Has(|txids|, h, pos) && !c.bad
    requires Contains(p, c, Build(hash, txids, vMatch, h, pos))
    requires h > 0 && AnyMatch(vMatch, Lo(h, pos), Hi(|txids|, h, pos))
    ensures Lo(h, pos) <= Hi(|txids|, h, pos)
    ensures Extract(hash, |txids|, p, h, pos, c) ==
            (After(c, Build(hash, txids, vMatch, h, pos), Selected(txids, vMatch, Lo(h, pos), Hi(|txids|, h, pos))),
             CalcHash(hash, txids, h, pos))
    decreases h, 0
  {
    var right, rh := BuildNode(hash, txids, vMatch, h, pos);
    var lsel, rsel := SelectedNode(txids, vMatch, h, pos);
    var left, lh := Build(hash, txids, vMatch, h - 1, pos * 2), CalcHash(hash, txids, h - 1, pos * 2);
    var c1 := c.(bitsUsed := c.bitsUsed + 1);
    ContainsSplit(p, c, true, left, right, lsel);
    ExtractBuilt(hash, txids, vMatch, p, h - 1, pos * 2, c1);
    if Has(|txids|, h - 1, pos * 2 + 1) {
      ExtractBuilt(hash, txids, vMatch, p, h - 1, pos * 2 + 1, After(c1, left, lsel));
      SiblingsDiffer(hash, txids, h, pos);
    }
    ExtractNode(hash, |txids|, p, h, pos, c, left, right, lsel, rsel, lh, rh);
  }

  lemma AfterTwice(c: Cursor, bit: bool, left: Proof, right: Proof, lsel: seq<Digest>, rsel: seq<Digest>)
    ensures After(After(c.(bitsUsed := c.bitsUsed + 1), left, lsel), right, rsel)
            == After(c, Proof([bit] + left.bits + right.bits, left.hashes + right.hashes), lsel + rsel)
    ensures [bit] + left.bits + [] == [bit] + left.bits && left.hashes + [] == left.hashes && lsel + [] == lsel
  {
    assert c.matches + lsel + rsel == c.matches + (lsel + rsel);
  }

  /** The proof for a whole block. */
  function BuildAll(hash: PairHash, txids: seq<Digest>, vMatch: seq<bool>): Proof
    requires txids != [] && |vMatch| == |txids|
  {
    RootExists(|txids|);
    Build(hash, txids, vMatch, TreeHeight(|txids|), 0)
  }

  predicate PaddedTo8(bits: seq<bool>, padded: seq<bool>) {
    |padded| == (|bits| + 7) / 8 * 8 && bits <= padded
  }

  /**
  Building a proof, sending its bits in whole bytes and extracting gives back the root
  and exactly the matched transactions in order; the stated size bounds hold.
  */
  lemma RoundTrip(hash: PairHash, txids: seq<Digest>, vMatch: seq<bool>, padded: seq<bool>)
    requires Injective(hash) && Distinct(txids) && 1 <= |txids| <= 33333 && |vMatch| == |txids|
    requires PaddedTo8(BuildAll(hash, txids, vMatch).bits, padded)
    ensures var p := BuildAll(hash, txids, vMatch);
            && ExtractMatches(hash, |txids|, p.(bits := padded)) == (Root(hash, txids), Selected(txids, vMatch, 0, |txids|))
            && |p.hashes| <= |txids| && |p.hashes| <= |p.bits|
            && |p.hashes| <= 1 + Matched(vMatch, 0, |txids|) * TreeHeight(|txids|)
  {
    hide Build;
    hide Extract;
    hide CalcHash;
    hide Selected;
    hide Distinct;
    hide Injective;
    var n := |txids|;
    var h := TreeHeight(n);
    RootExists(n);
    var p := BuildAll(hash, txids, vMatch);
    BuildSizes(hash, txids, vMatch, h, 0);
    BuildHashes(hash, txids, vMatch, h, 0);
    var sent := p.(bits := padded);
    assert sent.bits[0..|p.bits|] == p.bits && sent.hashes[0..|p.hashes|] == p.hashes;
    ExtractBuilt(hash, txids, vMatch, sent, h, 0, START);
    assert [] + Selected(txids, vMatch, 0, n) == Selected(txids, vMatch, 0, n);
  }

  //
  // Packing bits into bytes (src/merkleblock.h:87-105).
  //

  /** 1 << k */
  function Mask(k: nat): bv8
    requires k < 8
  {
    if k == 0 then 1 else if k == 1 then 2 else if k == 2 then 4 else if k == 3 then 8
    else if k == 4 then 16 else if k == 5 then 32 else if k == 6 then 64 else 128
  }

  lemma MaskIsShift(k: nat)
    requires k < 8
    ensures Mask(k) == (1 as bv8) << k
  {
  }

  predicate TestBit(b: bv8, k: nat)
    requires k < 8
  {
    b & Mask(k) != 0
  }

  function OrBit(b: bv8, k: nat): bv8
    requires k < 8
  {
    b | Mask(k)
  }

  lemma MaskOr(b: bv8, j: nat, k: nat)
    requires j < 8 && k < 8
    ensures TestBit(OrBit(b, j), k) == (j == k || TestBit(b, k))
  {
  }

  predicate BitOf(bytes: seq<bv8>, p: nat)
    requires p < 8 * |bytes|
  {
    TestBit(bytes[p / 8], p % 8)
  }

  function WithBit(bytes: seq<bv8>, p: nat): (r: seq<bv8>)
    requires p < 8 * |bytes|
    ensures |r| == |bytes|
  {
    bytes[p / 8 := OrBit(bytes[p / 8], p % 8)]
  }

  lemma WithBitAt(bytes: seq<bv8>, p: nat, q: nat)
    requires p < 8 * |bytes| && q < 8 * |bytes|
    ensures BitOf(WithBit(bytes, p), q) == (q == p || BitOf(bytes, q))
  {
    hide TestBit;
    hide OrBit;
    if q / 8 == p / 8 {
      MaskOr(bytes[p / 8], p % 8, q % 8);
    }
  }

  lemma NoBits(n: nat, q: nat)
    requires q < 8 * n
    ensures !BitOf(seq(n, i => 0), q)
  {
  }

  method PackBits(bits: seq<bool>) returns (bytes: seq<bv8>)
    ensures |bytes| == (|bits| + 7) / 8
    ensures PaddedTo8(bits, Unpacked(bytes))
    ensures forall p :: |bits| <= p < 8 * |bytes| ==> !BitOf(bytes, p)
  {
    hide BitOf;
    hide WithBit;
    var n := (|bits| + 7) / 8;
    bytes := seq(n, i => 0);
    forall q | 0 <= q < 8 * n ensures !BitOf(bytes, q) {
      NoBits(n, q);
    }
    var p := 0;
    while p < |bits|
      invariant 0 <= p <= |bits| && |bytes| == n
      invariant forall q :: 0 <= q < 8 * n ==> BitOf(bytes, q) == (q < p && bits[q])
    {
      if bits[p] {
        ghost var before := bytes;
        bytes := WithBit(bytes, p);
        forall q | 0 <= q < 8 * n ensures BitOf(bytes, q) == (q < p + 1 && bits[q]) {
          WithBitAt(before, p, q);
        }
      }
      p := p + 1;
    }
    assert forall q :: 0 <= q < |bits| ==> Unpacked(bytes)[q] == bits[q];
  }

  function Unpacked(bytes: seq<bv8>): (bits: seq<bool>)
    ensures |bits| == 8 * |bytes| && forall p :: 0 <= p < |bits| ==> bits[p] == BitOf(bytes, p)
  {
    seq(8 * |bytes|, p requires 0 <= p < 8 * |bytes| => BitOf(bytes, p))
  }

  method UnpackBits(bytes: seq<bv8>) returns (bits: seq<bool>)
    ensures bits == Unpacked(bytes)
  {
    hide BitOf;
    bits := [];
    var p := 0;
    while p < 8 * |bytes|
      invariant 0 <= p <= 8 * |bytes| && bits == Unpacked(bytes)[..p]
    {
      bits := bits + [BitOf(bytes, p)];
      p := p + 1;
    }
  }

  //
  // The object of the source.
  //

  class PartialMerkleTree {
    var nTransactions: nat
    var vBits: seq<bool>
    var vHash: seq<Digest>
    var fBad: bool

    function Value(): Proof
      reads this
    {
      Proof(vBits, vHash)
    }

    constructor FromBlock(hash: PairHash, vTxid: seq<Digest>, vMatch: seq<bool>)
      requires vTxid != [] && |vMatch| == |vTxid|
      ensures nTransactions == |vTxid| && !fBad && Value() == BuildAll(hash, vTxid, vMatch)
    {
      nTransactions, fBad, vBits, vHash := |vTxid|, false, [], [];
      new;
      RootExists(|vTxid|);
      var nHeight := CalcHeight(nTransactions);
      TraverseAndBuild(hash, nHeight, 0, vTxid, vMatch);
    }

    /** Received over the network. */
    constructor FromBytes(n: nat, hashes: seq<Digest>, bytes: seq<bv8>)
      ensures nTransactions == n && !fBad && Value() == Proof(Unpacked(bytes), hashes)
    {
      nTransactions, vHash, fBad := n, hashes, false;
      vBits := [];
      new;
      vBits := UnpackBits(bytes);
    }

    method IsParentOfMatch(height: nat, pos: nat, vMatch: seq<bool>) returns (fParentOfMatch: bool)
      requires nTransactions == |vMatch| && Has(|vMatch|, height, pos)
      ensures fParentOfMatch == AnyMatch(vMatch, Lo(height, pos), Hi(|vMatch|, height, pos))
    {
      fParentOfMatch := false;
      LoIsShift(height, pos);
      LoIsShift(height, pos + 1);
      LoMonotone(height, pos, pos + 1);
      var p, end := pos * Pow2(height), (pos + 1) * Pow2(height);
      while p < end && p < nTransactions
        invariant Lo(height, pos) <= p <= Hi(nTransactions, height, pos)
        invariant fParentOfMatch == AnyMatch(vMatch, Lo(height, pos), p)
      {
        fParentOfMatch := fParentOfMatch || vMatch[p];
        p := p + 1;
      }
    }

    method TraverseAndBuild(hash: PairHash, height: nat, pos: nat, vTxid: seq<Digest>, vMatch: seq<bool>)
      requires nTransactions == |vTxid| == |vMatch| && Has(|vTxid|, height, pos)
      modifies this`vBits, this`vHash
      ensures vBits == old(vBits) + Build(hash, vTxid, vMatch, height, pos).bits
      ensures vHash == old(vHash) + Build(hash, vTxid, vMatch, height, pos).hashes
      decreases height, 1
    {
      var fParentOfMatch := IsParentOfMatch(height, pos, vMatch);
      vBits := vBits + [fParentOfMatch];
      if height == 0 || !fParentOfMatch {
        vHash := vHash + [CalcHash(hash, vTxid, height, pos)];
      } else {
        ghost var left := Build(hash, vTxid, vMatch, height - 1, pos * 2);
        ghost var right := BuildChildren(hash, height, pos, vTxid, vMatch);
        assert vBits == old(vBits) + ([true] + left.bits + right.bits);
      }
    }

    /** Descend into the subtrees of a node above a match. */
    method BuildChildren(hash: PairHash, height: nat, pos: nat, vTxid: seq<Digest>, vMatch: seq<bool>) returns (ghost right: Proof)
      requires nTransactions == |vTxid| == |vMatch| && Has(|vTxid|, height, pos)
      requires height > 0 && AnyMatch(vMatch, Lo(height, pos), Hi(|vTxid|, height, pos))
      modifies this`vBits, this`vHash
      ensures Has(|vTxid|, height - 1, pos * 2)
      ensures var left := Build(hash, vTxid, vMatch, height - 1, pos * 2);
              && vBits == old(vBits) + left.bits + right.bits && vHash == old(vHash) + (left.hashes + right.hashes)
              && Build(hash, vTxid, vMatch, height, pos) == Proof([true] + left.bits + right.bits, left.hashes + right.hashes)
      decreases height, 0
    {
      ghost var rh;
      right, rh := BuildNode(hash, vTxid, vMatch, height, pos);
      TraverseAndBuild(hash, height - 1, pos * 2, vTxid, vMatch);
      var hasRight := IsNode(nTransactions, height - 1, pos * 2 + 1);
      if hasRight {
        TraverseAndBuild(hash, height - 1, pos * 2 + 1, vTxid, vMatch);
      }
    }

    method TraverseAndExtract(hash: PairHash, height: nat, pos: nat, nBitsUsed: nat, nHashUsed: nat, vMatch: seq<Digest>)
      returns (node: Digest, bitsUsed: nat, hashUsed: nat, matches: seq<Digest>)
      modifies this`fBad
      ensures (Cursor(bitsUsed, hashUsed, fBad, matches), node)
              == Extract(hash, nTransactions, Value(), height, pos, Cursor(nBitsUsed, nHashUsed, old(fBad), vMatch))
      decreases height
    {
      bitsUsed, hashUsed, matches := nBitsUsed, nHashUsed, vMatch;
      if bitsUsed >= |vBits| {
        fBad := true;
        return 0, bitsUsed, hashUsed, matches;
      }
      var fParentOfMatch := vBits[bitsUsed];
      bitsUsed := bitsUsed + 1;
      if height == 0 || !fParentOfMatch {
        if hashUsed >= |vHash| {
          fBad := true;
          return 0, bitsUsed, hashUsed, matches;
        }
        node := vHash[hashUsed];
        hashUsed := hashUsed + 1;
        if height == 0 && fParentOfMatch {
          matches := matches + [node];
        }
      } else {
        var left;
        left, bitsUsed, hashUsed, matches := TraverseAndExtract(hash, height - 1, pos * 2, bitsUsed, hashUsed, matches);
        var right;
        var hasRight := IsNode(nTransactions, height - 1, pos * 2 + 1);
        if hasRight {
          right, bitsUsed, hashUsed, matches := TraverseAndExtract(hash, height - 1, pos * 2 + 1, bitsUsed, hashUsed, matches);
          if right == left {
            fBad := true;
          }
        } else {
          right := left;
        }
        node := hash(left, right);
      }
    }

    /** A tree that is bad already, such as one never filled, gives no root. */
    method Matches(hash: PairHash) returns (root: Digest, vMatch: seq<Digest>)
      modifies this`fBad
      ensures vMatch == ExtractMatches(hash, nTransactions, Value()).1
      ensures root == if old(fBad) then 0 else ExtractMatches(hash, nTransactions, Value()).0
    {
      if nTransactions == 0 || nTransactions > MAX_TRANSACTIONS || |vHash| > nTransactions || |vBits| < |vHash| {
        return 0, [];
      }
      var nHeight := CalcHeight(nTransactions);
      var nBitsUsed, nHashUsed;
      BadStays(hash, nTransactions, Value(), nHeight, 0, START);
      root, nBitsUsed, nHashUsed, vMatch := TraverseAndExtract(hash, nHeight, 0, 0, 0, []);
      if fBad || (nBitsUsed + 7) / 8 != (|vBits| + 7) / 8 || nHashUsed != |vHash| {
        root := 0;
      }
    }
  }
}
