/** Unspent outputs of one transaction (CCoins, src/coins.h:75-244). */
module Coins {
  import opened Common

  /** A transaction output; a spent one is null. */
  datatype TxOut = Spent | Unspent(nValue: nat, script: seq<byte>)

  datatype CCoins = CCoins(fCoinBase: bool, vout: seq<TxOut>, nHeight: nat, nVersion: nat)

  const CLEARED := CCoins(false, [], 0, 0)

  /** All outputs spent. */
  predicate IsPruned(c: CCoins) {
    forall i :: 0 <= i < |c.vout| ==> c.vout[i].Spent?
  }

  function Trim(vout: seq<TxOut>): (r: seq<TxOut>)
    ensures r <= vout
    ensures r == [] || r[|r| - 1].Unspent?
    ensures forall i :: |r| <= i < |vout| ==> vout[i].Spent?
  {
    if vout != [] && vout[|vout| - 1].Spent? then Trim(vout[..|vout| - 1]) else vout
  }

  /** The coins after Cleanup. */
  function Cleaned(c: CCoins): CCoins {
    c.(vout := Trim(c.vout))
  }

  predicate IsClean(c: CCoins) {
    c.vout == [] || c.vout[|c.vout| - 1].Unspent?
  }

  lemma CleanedIsClean(c: CCoins)
    ensures IsClean(Cleaned(c))
    ensures IsPruned(Cleaned(c)) <==> IsPruned(c)
    ensures IsClean(c) ==> Cleaned(c) == c
    ensures forall n :: 0 <= n < |c.vout| && c.vout[n].Unspent? ==> n < |Cleaned(c).vout| && Cleaned(c).vout[n] == c.vout[n]
  {
    var r := Trim(c.vout);
    assert forall i :: 0 <= i < |r| ==> r[i] == c.vout[i];
  }

  /** For cleaned coins "no outputs left" and "everything spent" are the same test. */
  lemma CleanPrunedIsEmpty(c: CCoins)
    requires IsClean(c)
    ensures IsPruned(c) <==> c.vout == []
  {
    if c.vout != [] {
      assert c.vout[|c.vout| - 1].Unspent?;
    }
  }

  /** Cleanup as the source runs it: pop spent outputs off the end. */
  method Cleanup(c: CCoins) returns (r: CCoins)
    ensures r == Cleaned(c)
  {
    var vout := c.vout;
    while |vout| > 0 && vout[|vout| - 1].Spent?
      invariant Trim(vout) == Trim(c.vout)
    {
      vout := vout[..|vout| - 1];
    }
    r := c.(vout := vout);
  }

  //
  // Where coins come from: FromTx, Spend, and the undoing of a spend.
  //

  const OP_RETURN: byte := 0x6a

  /** src/script/script.h:26 */
  const MAX_SCRIPT_SIZE := 10000

  /** src/script/script.h:604-607 */
  predicate IsUnspendable(script: seq<byte>) {
    (|script| > 0 && script[0] == OP_RETURN) || |script| > MAX_SCRIPT_SIZE
  }

  function Cleared(o: TxOut): TxOut {
    if o.Unspent? && IsUnspendable(o.script) then Spent else o
  }

  function AllCleared(vout: seq<TxOut>): (r: seq<TxOut>)
    ensures |r| == |vout|
  {
    seq(|vout|, i requires 0 <= i < |vout| => Cleared(vout[i]))
  }

  /** The coins of a transaction (src/coins.h:91-97). */
  function FromTx(fCoinBase: bool, vout: seq<TxOut>, nHeight: nat, nVersion: nat): CCoins {
    Cleaned(CCoins(fCoinBase, AllCleared(vout), nHeight, nVersion))
  }

  predicate IsAvailable(c: CCoins, n: nat) {
    n < |c.vout| && c.vout[n].Unspent?
  }

  /** Spend (src/coins.cpp:37-44), and whether there was something to spend. */
  function Spend(c: CCoins, n: nat): (r: (CCoins, bool)) {
    if IsAvailable(c, n) then (Cleaned(c.(vout := c.vout[n := Spent])), true) else (c, false)
  }

  function Resized(vout: seq<TxOut>, n: nat): (r: seq<TxOut>)
    ensures |r| >= n && vout <= r
  {
    if |vout| < n then vout + seq(n - |vout|, i => Spent) else vout
  }

  /** The last lines of ApplyTxInUndo, and the end of the modification (src/main.cpp:2284-2286). */
  function Restore(c: CCoins, n: nat, o: TxOut): CCoins {
    Cleaned(c.(vout := Resized(c.vout, n + 1)[n := o]))
  }

  /** Clean coins none of whose outputs is unspendable. */
  predicate Spendable(c: CCoins) {
    IsClean(c) && forall i :: 0 <= i < |c.vout| && c.vout[i].Unspent? ==> !IsUnspendable(c.vout[i].script)
  }

  /** FromTx keeps exactly the outputs that can be spent. */
  lemma FromTxSpendable(fCoinBase: bool, vout: seq<TxOut>, nHeight: nat, nVersion: nat)
    ensures var c := FromTx(fCoinBase, vout, nHeight, nVersion);
            && Spendable(c) && |c.vout| <= |vout|
            && c.fCoinBase == fCoinBase && c.nHeight == nHeight && c.nVersion == nVersion
            && forall n: nat :: IsAvailable(c, n) <==>
                 && n < |vout| && vout[n].Unspent?
                 && (vout[n].script == [] || vout[n].script[0] != 0x6a) && |vout[n].script| <= 10000
    ensures var c := FromTx(fCoinBase, vout, nHeight, nVersion);
            forall n: nat :: IsAvailable(c, n) ==> n < |vout| && c.vout[n] == vout[n]
  {
    CleanedIsClean(CCoins(fCoinBase, AllCleared(vout), nHeight, nVersion));
    var all := AllCleared(vout);
    var c := FromTx(fCoinBase, vout, nHeight, nVersion);
    assert forall i :: 0 <= i < |c.vout| ==> c.vout[i] == all[i];
    forall n: nat ensures IsAvailable(c, n) <==> n < |vout| && vout[n].Unspent? && !IsUnspendable(vout[n].script) {
      if n < |vout| {
        assert all[n] == Cleared(vout[n]);
      }
    }
  }

  /** Spend takes away exactly one output, and leaves spendable coins. */
  lemma SpendSpendable(c: CCoins, n: nat)
    requires Spendable(c)
    ensures var (c', ok) := Spend(c, n);
            && Spendable(c') && |c'.vout| <= |c.vout| && ok == IsAvailable(c, n)
            && (forall m: nat :: IsAvailable(c', m) <==> IsAvailable(c, m) && m != n)
            && (forall m: nat :: IsAvailable(c', m) ==> c'.vout[m] == c.vout[m])
  {
    if IsAvailable(c, n) {
      CleanedIsClean(c.(vout := c.vout[n := Spent]));
      var r := Trim(c.vout[n := Spent]);
      assert forall i :: 0 <= i < |r| ==> r[i] == c.vout[n := Spent][i];
    }
  }

  /** Restoring a spent output undoes Spend. */
  lemma RestoreUndoesSpend(c: CCoins, n: nat)
    requires Spendable(c) && IsAvailable(c, n)
    ensures Restore(Spend(c, n).0, n, c.vout[n]) == c
  {
    var c1 := Spend(c, n).0;
    var w := c.vout[n := Spent];
    CleanedIsClean(c.(vout := w));
    var r := Resized(c1.vout, n + 1)[n := c.vout[n]];
    assert c1.vout <= w;
    forall i | 0 <= i < |r| ensures i < |c.vout| && r[i] == c.vout[i] {
      if i < |c1.vout| {
        assert c1.vout[i] == w[i];
      }
    }
    assert r == c.vout;
  }

  lemma RestoreSpendable(c: CCoins, n: nat, o: TxOut)
    requires Spendable(c) && o.Unspent? && !IsUnspendable(o.script)
    ensures Spendable(Restore(c, n, o))
    ensures forall m: nat :: IsAvailable(Restore(c, n, o), m) <==> IsAvailable(c, m) || m == n
    ensures forall m: nat :: IsAvailable(Restore(c, n, o), m) ==> Restore(c, n, o).vout[m] == if m == n then o else c.vout[m]
  {
    var r := Resized(c.vout, n + 1)[n := o];
    forall i | 0 <= i < |r| ensures r[i] == if i == n then o else if i < |c.vout| then c.vout[i] else Spent {
      assert i < |c.vout| ==> Resized(c.vout, n + 1)[i] == c.vout[i];
    }
    assert IsClean(c.(vout := r));
    CleanedIsClean(c.(vout := r));
  }

  /** What is kept to undo a spend (src/undo.h:19-28): the output, and the header if it was the last one. */
  datatype TxInUndo = TxInUndo(txout: TxOut, fCoinBase: bool, nHeight: nat, nVersion: nat)

  /** Spending an input in UpdateCoins (src/main.cpp:2005-2019); the output is there. */
  function SpendWithUndo(c: CCoins, n: nat): (r: (CCoins, TxInUndo))
    requires IsAvailable(c, n)
  {
    var c' := Spend(c, n).0;
    (c', if c'.vout == [] then TxInUndo(c.vout[n], c.fCoinBase, c.nHeight, c.nVersion) else TxInUndo(c.vout[n], false, 0, 0))
  }

  /** ApplyTxInUndo (src/main.cpp:2265-2289) and the end of the modification. */
  function ApplyUndo(c: CCoins, n: nat, u: TxInUndo): CCoins {
    Restore(if u.nHeight != 0 then CCoins(u.fCoinBase, [], u.nHeight, u.nVersion) else c, n, u.txout)
  }

  /** What a view shows for coins that a spend left behind: nothing is kept of pruned ones. */
  function LeftBehind(c: CCoins): CCoins {
    if IsPruned(c) then CLEARED else c
  }

  /**
  Undoing a spend gives the coins as they were, header included, exactly if an output is left, or the height is
  not zero, or there is nothing else in the header; the outputs come back in any case.
  */
  lemma UndoUndoesSpendIff(c: CCoins, n: nat)
    requires Spendable(c) && IsAvailable(c, n)
    ensures var (c', u) := SpendWithUndo(c, n);
            && ApplyUndo(LeftBehind(c'), n, u).vout == c.vout
            && (ApplyUndo(LeftBehind(c'), n, u) == c <==> c'.vout != [] || c.nHeight != 0 || (!c.fCoinBase && c.nVersion == 0))
  {
    RestoreUndoesSpend(c, n);
    SpendSpendable(c, n);
    CleanPrunedIsEmpty(Spend(c, n).0);
  }

  /** ClearUnspendable as the source runs it (src/coins.h:122-128). */
  method ClearUnspendable(c: CCoins) returns (r: CCoins)
    ensures r == Cleaned(c.(vout := AllCleared(c.vout)))
  {
    var vout := c.vout;
    for i := 0 to |c.vout|
      invariant |vout| == |c.vout|
      invariant forall j :: 0 <= j < |vout| ==> vout[j] == if j < i then Cleared(c.vout[j]) else c.vout[j]
    {
      if vout[i].Unspent? && IsUnspendable(vout[i].script) {
        vout := vout[i := Spent];
      }
    }
    assert vout == AllCleared(c.vout);
    r := Cleanup(c.(vout := vout));
  }
}
