/**
Transactions and the unspent outputs they move, as block assembly sees them: UpdateCoins
(src/main.cpp:1999-2027), HaveInputs and GetValueIn (src/coins.cpp:895-907, 953-965), and the
value a transaction takes in and gives out (src/primitives/transaction.cpp:262-315).
*/
module Ledger {

  type Txid = nat

  datatype OutPoint = OutPoint(hash: Txid, n: nat)

  datatype Out = Out(nValue: nat, unspendable: bool)

  datatype JoinSplit = JoinSplit(vpubOld: nat, vpubNew: nat)

  datatype Tx = Tx(
    id: Txid,
    vin: seq<OutPoint>,
    vout: seq<Out>,
    valueBalance: int,
    joinSplits: seq<JoinSplit>,
    size: nat,
    legacySigOps: nat)

  /** Unspent outputs and their values. */
  type View = map<OutPoint, nat>

  predicate HaveCoins(view: View, h: Txid) {
    exists p :: p in view && p.hash == h
  }

  predicate HaveInputs(view: View, tx: Tx) {
    forall i :: 0 <= i < |tx.vin| ==> tx.vin[i] in view
  }

  /** No input twice. */
  predicate DistinctInputs(tx: Tx) {
    forall i, j :: 0 <= i < j < |tx.vin| ==> tx.vin[i] != tx.vin[j]
  }

  function Points(vin: seq<OutPoint>): set<OutPoint> {
    set i | 0 <= i < |vin| :: vin[i]
  }

  /** The outputs that can be spent. */
  function Outputs(id: Txid, vout: seq<Out>): View {
    map i | 0 <= i < |vout| && !vout[i].unspendable :: OutPoint(id, i) := vout[i].nValue
  }

  function Apply(view: View, tx: Tx): View {
    (view - Points(tx.vin)) + Outputs(tx.id, tx.vout)
  }

  /** The view after a list of transactions. */
  function Replay(view: View, vtx: seq<Tx>): View {
    if vtx == [] then view else Apply(Replay(view, vtx[..|vtx| - 1]), vtx[|vtx| - 1])
  }

  lemma ReplayLast(view: View, vtx: seq<Tx>, tx: Tx)
    ensures Replay(view, vtx + [tx]) == Apply(Replay(view, vtx), tx)
  {
    assert (vtx + [tx])[..|vtx|] == vtx;
  }

  /** Every transaction finds its inputs unspent when its turn comes. */
  ghost predicate ValidSequence(view: View, vtx: seq<Tx>) {
    forall k {:trigger Replay(view, vtx[..k])} :: 0 <= k < |vtx| ==> HaveInputs(Replay(view, vtx[..k]), vtx[k])
  }

  /** An output that the list did not find was created by the list. */
  lemma {:induction false} CreatedBy(view: View, vtx: seq<Tx>, p: OutPoint) returns (j: nat)
    requires p in Replay(view, vtx) && p !in view
    ensures j < |vtx| && vtx[j].id == p.hash
    decreases |vtx|
  {
    var n := |vtx| - 1;
    if p in Outputs(vtx[n].id, vtx[n].vout) {
      j := n;
    } else {
      j := CreatedBy(view, vtx[..n], p);
    }
  }

  /** So a transaction comes after every one whose outputs it spends and that was not there before. */
  lemma ParentsFirst(view: View, vtx: seq<Tx>, k: nat, p: OutPoint) returns (j: nat)
    requires ValidSequence(view, vtx) && k < |vtx| && p in vtx[k].vin && !HaveCoins(view, p.hash)
    ensures j < k && vtx[j].id == p.hash
  {
    assert HaveInputs(Replay(view, vtx[..k]), vtx[k]);
    j := CreatedBy(view, vtx[..k], p);
  }

  //
  // Value.
  //

  ghost function Total(view: View): int {
    if view == map[] then 0
    else
      var p :| p in view;
      view[p] + Total(view - {p})
  }

  lemma {:induction false} TotalRemove(view: View, p: OutPoint)
    requires p in view
    ensures Total(view) == view[p] + Total(view - {p})
    decreases |view|
  {
    var q :| q in view && Total(view) == view[q] + Total(view - {q});
    if q != p {
      TotalRemove(view - {q}, p);
      TotalRemove(view - {p}, q);
      assert view - {q} - {p} == view - {p} - {q};
    }
  }

  lemma TotalAdd(view: View, p: OutPoint, v: nat)
    requires p !in view
    ensures Total(view[p := v]) == Total(view) + v
  {
    TotalRemove(view[p := v], p);
    assert view[p := v] - {p} == view;
  }

  function InputValue(view: View, vin: seq<OutPoint>): int
    requires forall i :: 0 <= i < |vin| ==> vin[i] in view
  {
    if vin == [] then 0 else InputValue(view, vin[..|vin| - 1]) + view[vin[|vin| - 1]]
  }

  function OutputValue(vout: seq<Out>): int {
    if vout == [] then 0 else OutputValue(vout[..|vout| - 1]) + vout[|vout| - 1].nValue
  }

  /** The value sent to outputs that nobody can spend. */
  function Burned(vout: seq<Out>): int {
    if vout == [] then 0
    else Burned(vout[..|vout| - 1]) + if vout[|vout| - 1].unspendable then vout[|vout| - 1].nValue else 0
  }

  function OldValue(js: seq<JoinSplit>): int {
    if js == [] then 0 else OldValue(js[..|js| - 1]) + js[|js| - 1].vpubOld
  }

  function NewValue(js: seq<JoinSplit>): int {
    if js == [] then 0 else NewValue(js[..|js| - 1]) + js[|js| - 1].vpubNew
  }

  /** GetShieldedValueIn: what comes out of the shielded pools. */
  function ShieldedValueIn(tx: Tx): int {
    (if tx.valueBalance >= 0 then tx.valueBalance else 0) + NewValue(tx.joinSplits)
  }

  /** GetValueOut: transparent outputs and what goes into the shielded pools. */
  function ValueOut(tx: Tx): int {
    OutputValue(tx.vout) + (if tx.valueBalance <= 0 then -tx.valueBalance else 0) + OldValue(tx.joinSplits)
  }

  function ValueIn(view: View, tx: Tx): int
    requires HaveInputs(view, tx)
  {
    InputValue(view, tx.vin) + ShieldedValueIn(tx)
  }

  function Fee(view: View, tx: Tx): int
    requires HaveInputs(view, tx)
  {
    ValueIn(view, tx) - ValueOut(tx)
  }

  function SproutDelta(tx: Tx): int { OldValue(tx.joinSplits) - NewValue(tx.joinSplits) }

  function SaplingDelta(tx: Tx): int { -tx.valueBalance }

  /** A join split takes vpubOld from the transparent side into the pool and gives vpubNew back. */
  lemma JoinSplitMoves(view: View, tx: Tx, js: JoinSplit)
    requires HaveInputs(view, tx)
    ensures var more := tx.(joinSplits := tx.joinSplits + [js]);
            && SproutDelta(more) == SproutDelta(tx) + js.vpubOld - js.vpubNew && SaplingDelta(more) == SaplingDelta(tx)
            && Fee(view, more) == Fee(view, tx) + js.vpubNew - js.vpubOld
  {
    assert (tx.joinSplits + [js])[..|tx.joinSplits|] == tx.joinSplits;
  }

  /** A positive value balance comes out of the Sapling pool, a negative one goes into it. */
  lemma BalanceMoves(view: View, tx: Tx, balance: int)
    requires HaveInputs(view, tx) && tx.valueBalance == 0
    ensures var more := tx.(valueBalance := balance);
            && SaplingDelta(more) == SaplingDelta(tx) - balance && SproutDelta(more) == SproutDelta(tx)
            && Fee(view, more) == Fee(view, tx) + balance
  {
  }

  /** Without shielded parts the fee is what the inputs are worth more than the outputs. */
  lemma PlainFee(view: View, tx: Tx)
    requires HaveInputs(view, tx) && tx.valueBalance == 0 && tx.joinSplits == []
    ensures Fee(view, tx) == InputValue(view, tx.vin) - OutputValue(tx.vout) && SproutDelta(tx) == 0 && SaplingDelta(tx) == 0
  {
  }

  lemma {:induction false} TotalSpend(view: View, vin: seq<OutPoint>)
    requires forall i :: 0 <= i < |vin| ==> vin[i] in view
    requires forall i, j :: 0 <= i < j < |vin| ==> vin[i] != vin[j]
    ensures Total(view - Points(vin)) == Total(view) - InputValue(view, vin)
    decreases |vin|
  {
    if vin == [] {
      assert view - Points(vin) == view;
    } else {
      var n := |vin| - 1;
      var before := view - Points(vin[..n]);
      TotalSpend(view, vin[..n]);
      assert vin[n] !in Points(vin[..n]);
      TotalRemove(before, vin[n]);
      assert Points(vin) == Points(vin[..n]) + {vin[n]};
      assert before - {vin[n]} == view - Points(vin);
    }
  }

  lemma OutputsLast(id: Txid, vout: seq<Out>)
    requires vout != []
    ensures var n := |vout| - 1;
            && OutPoint(id, n) !in Outputs(id, vout[..n])
            && Outputs(id, vout) == if vout[n].unspendable then Outputs(id, vout[..n])
                                    else Outputs(id, vout[..n])[OutPoint(id, n) := vout[n].nValue]
  {
  }

  lemma {:induction false} TotalCreate(view: View, id: Txid, vout: seq<Out>)
    requires !HaveCoins(view, id)
    ensures Total(view + Outputs(id, vout)) == Total(view) + OutputValue(vout) - Burned(vout)
    decreases |vout|
  {
    hide Outputs;
    hide Total;
    if vout == [] {
      OutputsNone(id, vout);
      assert view + Outputs(id, vout) == view;
    } else {
      OutputsLast(id, vout);
      var n := |vout| - 1;
      TotalCreate(view, id, vout[..n]);
      if !vout[n].unspendable {
        AddOutput(view, Outputs(id, vout[..n]), OutPoint(id, n), vout[n].nValue);
      }
    }
  }

  lemma OutputsNone(id: Txid, vout: seq<Out>)
    requires vout == []
    ensures Outputs(id, vout) == map[]
  {
  }

  lemma AddOutput(view: View, outs: View, p: OutPoint, v: nat)
    requires p !in view && p !in outs
    ensures Total(view + outs[p := v]) == Total(view + outs) + v
  {
    TotalAdd(view + outs, p, v);
    assert (view + outs)[p := v] == view + outs[p := v];
  }

  /**
  No value appears or disappears: what is unspent, what is in the shielded pools, what is paid as
  fee and what is burned add up to what there was.
  */
  lemma ValueConserved(view: View, tx: Tx)
    requires HaveInputs(view, tx) && DistinctInputs(tx) && !HaveCoins(view, tx.id)
    ensures Total(Apply(view, tx)) + SproutDelta(tx) + SaplingDelta(tx) + Fee(view, tx) + Burned(tx.vout) == Total(view)
  {
    TotalSpend(view, tx.vin);
    var left := view - Points(tx.vin);
    assert !HaveCoins(left, tx.id);
    TotalCreate(left, tx.id, tx.vout);
  }

  /** Transactions of a list do not bring back coins of an identifier they do not have. */
  lemma {:induction false} NoCoinsWithout(view: View, vtx: seq<Tx>, h: Txid)
    requires !HaveCoins(view, h) && forall j :: 0 <= j < |vtx| ==> vtx[j].id != h
    ensures !HaveCoins(Replay(view, vtx), h)
  {
    if HaveCoins(Replay(view, vtx), h) {
      var p :| p in Replay(view, vtx) && p.hash == h;
      var j := CreatedBy(view, vtx, p);
    }
  }
}
