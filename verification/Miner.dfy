/**
Block assembly (CreateNewBlock, src/miner.cpp:205-505): transactions are taken off a queue in
whatever order its heap gives, and added to the block while they fit, can be spent and keep both
shielded pools from going negative.
*/
module Miner {
  import opened Common
  import opened Ledger
  import opened Scheduler

  /** src/consensus/consensus.h:26 */
  const MAX_BLOCK_SIGOPS := 20000

  datatype Settings = Settings(
    nBlockMaxSize: nat,
    nBlockMinSize: nat,
    nBlockPrioritySize: nat,
    zip209: bool,
    nChainSproutValue: Option<int>,
    nChainSaplingValue: Option<int>)

  /**
  What block assembly asks of code outside this model: whether a transaction may be mined at this
  height, whether it pays too little or has high priority, its script signature operations, and
  whether its scripts pass.
  */
  datatype Policy = Policy(
    eligible: Txid -> bool,
    cheap: Txid -> bool,
    highPriority: Txid -> bool,
    p2shSigOps: (Txid, View) -> nat,
    scriptsPass: (Txid, View) -> bool)

  /** The block under construction; index i of fees and sigOps belongs to vtx[i]. */
  datatype Block = Block(
    vtx: seq<Tx>,
    fees: seq<int>,
    sigOps: seq<nat>,
    view: View,
    nBlockSize: nat,
    nBlockSigOps: nat,
    nFees: int,
    sprout: int,
    sapling: int)

  predicate Monitored(s: Settings) {
    s.zip209 && s.nChainSproutValue.Some? && s.nChainSaplingValue.Some?
  }

  //
  // Sums over the block.
  //

  function Sum(xs: seq<int>): int {
    if xs == [] then 0 else Sum(xs[..|xs| - 1]) + xs[|xs| - 1]
  }

  lemma SumLast(xs: seq<int>, x: int)
    ensures Sum(xs + [x]) == Sum(xs) + x
  {
    assert (xs + [x])[..|xs|] == xs;
  }

  function SumNat(xs: seq<nat>): nat {
    if xs == [] then 0 else SumNat(xs[..|xs| - 1]) + xs[|xs| - 1]
  }

  function Sizes(vtx: seq<Tx>): nat {
    if vtx == [] then 0 else Sizes(vtx[..|vtx| - 1]) + vtx[|vtx| - 1].size
  }

  function SproutSum(vtx: seq<Tx>): int {
    if vtx == [] then 0 else SproutSum(vtx[..|vtx| - 1]) + SproutDelta(vtx[|vtx| - 1])
  }

  function SaplingSum(vtx: seq<Tx>): int {
    if vtx == [] then 0 else SaplingSum(vtx[..|vtx| - 1]) + SaplingDelta(vtx[|vtx| - 1])
  }

  function BurnedSum(vtx: seq<Tx>): int {
    if vtx == [] then 0 else BurnedSum(vtx[..|vtx| - 1]) + Burned(vtx[|vtx| - 1].vout)
  }

  lemma SumsLast(vtx: seq<Tx>, tx: Tx)
    ensures Sizes(vtx + [tx]) == Sizes(vtx) + tx.size
    ensures SproutSum(vtx + [tx]) == SproutSum(vtx) + SproutDelta(tx)
    ensures SaplingSum(vtx + [tx]) == SaplingSum(vtx) + SaplingDelta(tx)
  {
    assert (vtx + [tx])[..|vtx|] == vtx;
  }

  //
  // What is kept.
  //

  ghost predicate FeeAt(view0: View, vtx: seq<Tx>, fees: seq<int>, k: nat)
    requires k < |vtx|
  {
    && k < |fees|
    && HaveInputs(Replay(view0, vtx[..k]), vtx[k])
    && fees[k] == Fee(Replay(view0, vtx[..k]), vtx[k])
  }

  /** Each transaction finds its inputs and pays the fee recorded for it; the view is that after all. */
  ghost predicate Sound(view0: View, b: Block) {
    && b.view == Replay(view0, b.vtx)
    && |b.fees| == |b.vtx| && b.nFees == Sum(b.fees)
    && (forall k {:trigger FeeAt(view0, b.vtx, b.fees, k)} :: 0 <= k < |b.vtx| ==> FeeAt(view0, b.vtx, b.fees, k))
  }

  /** The limits on size and signature operations. */
  ghost predicate WithinLimits(s: Settings, b: Block) {
    && b.nBlockSize == 1000 + Sizes(b.vtx)
    && |b.sigOps| == |b.vtx| && b.nBlockSigOps == 100 + SumNat(b.sigOps)
    && (b.vtx != [] ==> b.nBlockSize < s.nBlockMaxSize && b.nBlockSigOps < MAX_BLOCK_SIGOPS)
  }

  /** ZIP 209: no selected transaction leaves a pool negative. */
  ghost predicate Turnstile(s: Settings, b: Block) {
    Monitored(s) ==>
      && b.sprout == s.nChainSproutValue.value + SproutSum(b.vtx)
      && b.sapling == s.nChainSaplingValue.value + SaplingSum(b.vtx)
      && (forall k {:trigger PoolsAt(s, b.vtx, k)} :: 0 < k <= |b.vtx| ==> PoolsAt(s, b.vtx, k))
  }

  ghost predicate PoolsAt(s: Settings, vtx: seq<Tx>, k: nat)
    requires Monitored(s) && k <= |vtx|
  {
    s.nChainSproutValue.value + SproutSum(vtx[..k]) >= 0 && s.nChainSaplingValue.value + SaplingSum(vtx[..k]) >= 0
  }

  function Added(b: Block, tx: Tx, fee: int, sigOps: nat, sprout: int, sapling: int): Block {
    Block(b.vtx + [tx], b.fees + [fee], b.sigOps + [sigOps], Apply(b.view, tx), b.nBlockSize + tx.size,
          b.nBlockSigOps + sigOps, b.nFees + fee, sprout, sapling)
  }

  /** The checks before the queue may be sorted by fee (lines 380-396). */
  predicate PassesFirst(s: Settings, p: Policy, b: Block, byFee: bool, tx: Tx) {
    && b.nBlockSize + tx.size < s.nBlockMaxSize
    && b.nBlockSigOps + tx.legacySigOps < MAX_BLOCK_SIGOPS
    && !(byFee && p.cheap(tx.id) && b.nBlockSize + tx.size >= s.nBlockMinSize)
  }

  function SigOps(p: Policy, b: Block, tx: Tx): nat { tx.legacySigOps + p.p2shSigOps(tx.id, b.view) }

  /** All the checks (lines 380-449): limits, policy, inputs, scripts and the turnstile. */
  predicate Acceptable(s: Settings, p: Policy, b: Block, byFee: bool, tx: Tx) {
    && PassesFirst(s, p, b, byFee, tx)
    && HaveInputs(b.view, tx)
    && b.nBlockSigOps + SigOps(p, b, tx) < MAX_BLOCK_SIGOPS
    && p.scriptsPass(tx.id, b.view)
    && (Monitored(s) ==> b.sprout + SproutDelta(tx) >= 0 && b.sapling + SaplingDelta(tx) >= 0)
  }

  lemma AddSound(view0: View, b: Block, tx: Tx, sigOps: nat, sprout: int, sapling: int)
    requires Sound(view0, b) && HaveInputs(b.view, tx)
    ensures Sound(view0, Added(b, tx, Fee(b.view, tx), sigOps, sprout, sapling))
  {
    hide Replay;
    var fee := Fee(b.view, tx);
    var c := Added(b, tx, fee, sigOps, sprout, sapling);
    ReplayLast(view0, b.vtx, tx);
    SumLast(b.fees, fee);
    forall k | 0 <= k < |c.vtx| ensures FeeAt(view0, c.vtx, c.fees, k) {
      if k < |b.vtx| {
        assert FeeAt(view0, b.vtx, b.fees, k);
        assert c.vtx[..k] == b.vtx[..k];
      } else {
        assert c.vtx[..k] == b.vtx;
      }
    }
  }

  lemma AddWithin(s: Settings, b: Block, tx: Tx, fee: int, sigOps: nat, sprout: int, sapling: int)
    requires WithinLimits(s, b)
    requires b.nBlockSize + tx.size < s.nBlockMaxSize && b.nBlockSigOps + sigOps < MAX_BLOCK_SIGOPS
    ensures WithinLimits(s, Added(b, tx, fee, sigOps, sprout, sapling))
  {
    SumsLast(b.vtx, tx);
    assert (b.sigOps + [sigOps])[..|b.sigOps|] == b.sigOps;
  }

  lemma AddTurnstile(s: Settings, b: Block, tx: Tx, fee: int, sigOps: nat, sprout: int, sapling: int)
    requires Turnstile(s, b)
    requires Monitored(s) ==>
               && sprout == b.sprout + SproutDelta(tx) && sapling == b.sapling + SaplingDelta(tx)
               && sprout >= 0 && sapling >= 0
    ensures Turnstile(s, Added(b, tx, fee, sigOps, sprout, sapling))
  {
    if Monitored(s) {
      var more := b.vtx + [tx];
      SumsLast(b.vtx, tx);
      forall k | 0 < k <= |more| ensures PoolsAt(s, more, k) {
        if k <= |b.vtx| {
          assert PoolsAt(s, b.vtx, k);
          assert more[..k] == b.vtx[..k];
        } else {
          assert more[..k] == more;
        }
      }
    }
  }

  //
  // The pool.
  //

  /** Pool transactions are unconfirmed, spend nothing twice, and spend confirmed or pool outputs. */
  ghost predicate PoolOk(pool: map<Txid, Tx>, view0: View) {
    forall id {:trigger TxOk(pool, view0, id)} :: id in pool ==> TxOk(pool, view0, id)
  }

  ghost predicate TxOk(pool: map<Txid, Tx>, view0: View, id: Txid)
    requires id in pool
  {
    var tx := pool[id];
    && tx.id == id && DistinctInputs(tx) && !HaveCoins(view0, id)
    && forall i :: 0 <= i < |tx.vin| ==> HaveCoins(view0, tx.vin[i].hash) || tx.vin[i].hash in pool
  }

  /** The unconfirmed parents, once for each input. */
  function Missing(view0: View, vin: seq<OutPoint>): seq<Txid> {
    if vin == [] then []
    else
      var init, h := Missing(view0, vin[..|vin| - 1]), vin[|vin| - 1].hash;
      if HaveCoins(view0, h) then init else init + [h]
  }

  lemma {:induction false} MissingIff(view0: View, vin: seq<OutPoint>, h: Txid)
    ensures h in Missing(view0, vin) <==> !HaveCoins(view0, h) && exists i :: 0 <= i < |vin| && vin[i].hash == h
  {
    hide HaveCoins;
    if vin != [] {
      var n := |vin| - 1;
      MissingIff(view0, vin[..n], h);
      assert vin == vin[..n] + [vin[n]];
      if h in Missing(view0, vin[..n]) {
        var i :| 0 <= i < |vin[..n]| && vin[..n][i].hash == h;
        assert vin[i].hash == h;
      }
      if !HaveCoins(view0, h) && (exists i :: 0 <= i < |vin| && vin[i].hash == h) {
        var i :| 0 <= i < |vin| && vin[i].hash == h;
        if i < n {
          assert vin[..n][i].hash == h;
        }
      }
    }
  }

  function Parents(view0: View, tx: Tx): set<Txid> {
    SetOf(Missing(view0, tx.vin))
  }

  ghost predicate ParentsOk(pool: map<Txid, Tx>, view0: View, policy: Policy, parents: map<Txid, set<Txid>>, seen: set<Txid>) {
    && parents.Keys <= pool.Keys
    && (forall id :: id in parents <==> id in seen && policy.eligible(id))
    && (forall id :: id in parents ==> parents[id] == Parents(view0, pool[id]))
  }

  function Ids(vtx: seq<Tx>): set<Txid> { set i | 0 <= i < |vtx| :: vtx[i].id }

  /** Selected transactions are from the pool, each once, and were considered. */
  ghost predicate Selected(pool: map<Txid, Tx>, vtx: seq<Tx>, considered: set<Txid>) {
    && (forall i, j :: 0 <= i < j < |vtx| ==> vtx[i].id != vtx[j].id)
    && (forall i :: 0 <= i < |vtx| ==> vtx[i].id in pool && pool[vtx[i].id] == vtx[i] && vtx[i].id in considered)
  }

  lemma SelectedLast(pool: map<Txid, Tx>, vtx: seq<Tx>, considered: set<Txid>, tx: Tx)
    requires Selected(pool, vtx, considered) && tx.id in pool && pool[tx.id] == tx && tx.id !in considered
    ensures Selected(pool, vtx + [tx], considered + {tx.id}) && Selected(pool, vtx, considered + {tx.id})
    ensures Ids(vtx + [tx]) == Ids(vtx) + {tx.id}
  {
    var more := vtx + [tx];
    assert forall i :: 0 <= i < |vtx| ==> more[i] == vtx[i];
    assert Ids(more) == Ids(vtx) + {tx.id} by {
      assert more[|vtx|] == tx;
      forall id | id in Ids(vtx) ensures id in Ids(more) {
        var i :| 0 <= i < |vtx| && vtx[i].id == id;
        assert more[i].id == id;
      }
    }
  }

  /** Over the whole block no value appears or disappears. */
  lemma {:induction false} BlockConserves(view0: View, pool: map<Txid, Tx>, vtx: seq<Tx>, fees: seq<int>, considered: set<Txid>)
    requires PoolOk(pool, view0) && Selected(pool, vtx, considered) && |fees| == |vtx|
    requires forall k {:trigger FeeAt(view0, vtx, fees, k)} :: 0 <= k < |vtx| ==> FeeAt(view0, vtx, fees, k)
    ensures Total(Replay(view0, vtx)) + SproutSum(vtx) + SaplingSum(vtx) + Sum(fees) + BurnedSum(vtx) == Total(view0)
    decreases |vtx|
  {
    hide Total;
    hide Apply;
    hide HaveInputs;
    hide Fee;
    if vtx != [] {
      var n := |vtx| - 1;
      var init, f := vtx[..n], fees[..n];
      forall k | 0 <= k < n ensures FeeAt(view0, init, f, k) {
        assert FeeAt(view0, vtx, fees, k);
        assert init[..k] == vtx[..k];
      }
      BlockConserves(view0, pool, init, f, considered);
      assert FeeAt(view0, vtx, fees, n);
      assert TxOk(pool, view0, vtx[n].id);
      NoCoinsWithout(view0, init, vtx[n].id);
      ValueConserved(Replay(view0, init), vtx[n]);
    }
  }

  /** A selected transaction comes after all its unconfirmed parents. */
  lemma ParentsSelectedFirst(view0: View, b: Block, k: nat, h: Txid) returns (j: nat)
    requires Sound(view0, b) && k < |b.vtx| && h in Parents(view0, b.vtx[k])
    ensures j < k && b.vtx[j].id == h
  {
    MissingIff(view0, b.vtx[k].vin, h);
    var i :| 0 <= i < |b.vtx[k].vin| && b.vtx[k].vin[i].hash == h;
    SoundIsValid(view0, b);
    j := ParentsFirst(view0, b.vtx, k, b.vtx[k].vin[i]);
  }

  lemma SoundIsValid(view0: View, b: Block)
    requires Sound(view0, b)
    ensures ValidSequence(view0, b.vtx)
  {
    forall k | 0 <= k < |b.vtx| ensures HaveInputs(Replay(view0, b.vtx[..k]), b.vtx[k]) {
      assert FeeAt(view0, b.vtx, b.fees, k);
    }
  }

  //
  // Signature operations.
  //

  /** Entry k is the legacy operations of transaction k and its script operations in the view it is checked against. */
  ghost predicate CountAt(p: Policy, view0: View, b: Block, k: nat)
    requires k < |b.vtx|
  {
    k < |b.sigOps| && b.sigOps[k] == b.vtx[k].legacySigOps + p.p2shSigOps(b.vtx[k].id, Replay(view0, b.vtx[..k]))
  }

  ghost predicate Counted(p: Policy, view0: View, b: Block) {
    |b.sigOps| == |b.vtx| && forall k {:trigger CountAt(p, view0, b, k)} :: 0 <= k < |b.vtx| ==> CountAt(p, view0, b, k)
  }

  lemma AddCounted(p: Policy, view0: View, b: Block, tx: Tx, fee: int, sprout: int, sapling: int)
    requires Counted(p, view0, b) && b.view == Replay(view0, b.vtx)
    ensures Counted(p, view0, Added(b, tx, fee, SigOps(p, b, tx), sprout, sapling))
  {
    hide Replay;
    hide Apply;
    var c := Added(b, tx, fee, SigOps(p, b, tx), sprout, sapling);
    forall k | 0 <= k < |c.vtx| ensures CountAt(p, view0, c, k) {
      if k < |b.vtx| {
        assert CountAt(p, view0, b, k);
        assert c.vtx[..k] == b.vtx[..k];
      } else {
        assert c.vtx[..k] == b.vtx;
      }
    }
  }

  //
  // Scripts.
  //

  /** The scripts of transaction k pass against the view that its predecessors in the block leave. */
  ghost predicate ScriptsAt(p: Policy, view0: View, vtx: seq<Tx>, k: nat)
    requires k < |vtx|
  {
    p.scriptsPass(vtx[k].id, Replay(view0, vtx[..k]))
  }

  ghost predicate ScriptsOk(p: Policy, view0: View, b: Block) {
    forall k {:trigger ScriptsAt(p, view0, b.vtx, k)} :: 0 <= k < |b.vtx| ==> ScriptsAt(p, view0, b.vtx, k)
  }

  lemma AddScripts(p: Policy, view0: View, b: Block, tx: Tx, fee: int, sigOps: nat, sprout: int, sapling: int)
    requires ScriptsOk(p, view0, b) && b.view == Replay(view0, b.vtx) && p.scriptsPass(tx.id, b.view)
    ensures ScriptsOk(p, view0, Added(b, tx, fee, sigOps, sprout, sapling))
  {
    hide Replay;
    hide Apply;
    var vtx := b.vtx + [tx];
    forall k | 0 <= k < |vtx| ensures ScriptsAt(p, view0, vtx, k) {
      if k < |b.vtx| {
        assert ScriptsAt(p, view0, b.vtx, k);
        assert vtx[..k] == b.vtx[..k];
      } else {
        assert vtx[..k] == b.vtx;
      }
    }
  }

  //
  // The whole selection, as a function of the order in which transactions are considered.
  //

  /** The block so far, and whether the queue is sorted by fee. */
  datatype Progress = Progress(block: Block, byFee: bool)

  function PoolAtStart(s: Settings, value: Option<int>): int {
    if s.zip209 && value.Some? then value.value else 0
  }

  function Start(s: Settings, view0: View): Progress {
    Progress(Block([], [], [], view0, 1000, 100, 0, PoolAtStart(s, s.nChainSproutValue), PoolAtStart(s, s.nChainSaplingValue)),
             s.nBlockPrioritySize <= 0)
  }

  /** Fee order begins with the first transaction that would pass the priority size or has no high priority. */
  predicate ByFeeAfter(s: Settings, p: Policy, g: Progress, tx: Tx) {
    || g.byFee
    || (PassesFirst(s, p, g.block, false, tx)
        && (g.block.nBlockSize + tx.size >= s.nBlockPrioritySize || !p.highPriority(tx.id)))
  }

  function BlockAfter(s: Settings, p: Policy, g: Progress, tx: Tx): Block {
    var b := g.block;
    if !Acceptable(s, p, b, g.byFee, tx) then b
    else
      Added(b, tx, Fee(b.view, tx), SigOps(p, b, tx),
            if Monitored(s) then b.sprout + SproutDelta(tx) else b.sprout,
            if Monitored(s) then b.sapling + SaplingDelta(tx) else b.sapling)
  }

  function After(s: Settings, p: Policy, g: Progress, tx: Tx): Progress {
    Progress(BlockAfter(s, p, g, tx), ByFeeAfter(s, p, g, tx))
  }

  predicate AllIn(ids: seq<Txid>, pool: map<Txid, Tx>) {
    forall i :: 0 <= i < |ids| ==> ids[i] in pool
  }

  function Assembled(s: Settings, p: Policy, view0: View, pool: map<Txid, Tx>, ids: seq<Txid>): Progress
    requires AllIn(ids, pool)
  {
    if ids == [] then Start(s, view0)
    else After(s, p, Assembled(s, p, view0, pool, ids[..|ids| - 1]), pool[ids[|ids| - 1]])
  }

  /** What assembly keeps of the block. */
  ghost predicate Kept(s: Settings, p: Policy, view0: View, b: Block) {
    Sound(view0, b) && WithinLimits(s, b) && Turnstile(s, b) && Counted(p, view0, b) && ScriptsOk(p, view0, b)
  }

  /** At the start everything that assembly keeps holds. */
  lemma StartOk(s: Settings, p: Policy, view0: View, pool: map<Txid, Tx>)
    ensures var b := Start(s, view0).block;
            Kept(s, p, view0, b) && Selected(pool, b.vtx, {}) && Ids(b.vtx) == {}
  {
  }

  lemma AssembledLast(s: Settings, p: Policy, view0: View, pool: map<Txid, Tx>, ids: seq<Txid>, id: Txid)
    requires AllIn(ids, pool) && id in pool
    ensures AllIn(ids + [id], pool)
    ensures Assembled(s, p, view0, pool, ids + [id]) == After(s, p, Assembled(s, p, view0, pool, ids), pool[id])
  {
    assert (ids + [id])[..|ids|] == ids;
  }

  /** The last transaction considered is added or not. */
  lemma AssembledVtx(s: Settings, p: Policy, view0: View, pool: map<Txid, Tx>, ids: seq<Txid>)
    requires AllIn(ids, pool) && ids != []
    ensures AllIn(ids[..|ids| - 1], pool)
    ensures var g, tx := Assembled(s, p, view0, pool, ids[..|ids| - 1]), pool[ids[|ids| - 1]];
            Assembled(s, p, view0, pool, ids).block.vtx == if Acceptable(s, p, g.block, g.byFee, tx) then g.block.vtx + [tx] else g.block.vtx
  {
    hide Acceptable;
  }

  /** What is selected is among what has been considered. */
  lemma {:induction false} SelectedAmong(s: Settings, p: Policy, view0: View, pool: map<Txid, Tx>, ids: seq<Txid>, id: Txid)
    requires AllIn(ids, pool) && (forall x :: x in pool ==> pool[x].id == x)
    requires id in Ids(Assembled(s, p, view0, pool, ids).block.vtx)
    ensures id in ids
    decreases |ids|
  {
    hide Acceptable;
    if ids != [] {
      var n := |ids| - 1;
      var b, tx := Assembled(s, p, view0, pool, ids[..n]).block, pool[ids[n]];
      if id != ids[n] {
        assert id in Ids(b.vtx) by { IdsLast(b.vtx, tx); }
        SelectedAmong(s, p, view0, pool, ids[..n], id);
      }
    }
  }

  lemma IdsLast(vtx: seq<Tx>, tx: Tx)
    ensures Ids(vtx + [tx]) == Ids(vtx) + {tx.id}
  {
    var more := vtx + [tx];
    assert more[|vtx|] == tx;
    forall id | id in Ids(vtx) ensures id in Ids(more) {
      var i :| 0 <= i < |vtx| && vtx[i].id == id;
      assert more[i].id == id;
    }
  }

  /**
  Each transaction is selected exactly if it passes all checks against the block as it is when it is
  considered, and then comes right after that block.
  */
  lemma {:induction false} DecidedIff(s: Settings, p: Policy, view0: View, pool: map<Txid, Tx>, ids: seq<Txid>, i: nat)
    requires AllIn(ids, pool) && NoDuplicates(ids) && i < |ids| && (forall x :: x in pool ==> pool[x].id == x)
    ensures AllIn(ids[..i], pool)
    ensures var g, b := Assembled(s, p, view0, pool, ids[..i]), Assembled(s, p, view0, pool, ids).block;
            && g.block.vtx <= b.vtx
            && (ids[i] in Ids(b.vtx) <==> Acceptable(s, p, g.block, g.byFee, pool[ids[i]]))
            && (ids[i] in Ids(b.vtx) ==> |g.block.vtx| < |b.vtx| && b.vtx[|g.block.vtx|] == pool[ids[i]])
    decreases |ids|
  {
    hide Acceptable;
    hide Assembled;
    var n := |ids| - 1;
    var before, tx := Assembled(s, p, view0, pool, ids[..n]), pool[ids[n]];
    AssembledVtx(s, p, view0, pool, ids);
    IdsLast(before.block.vtx, tx);
    hide Ids;
    if i < n {
      DecidedIff(s, p, view0, pool, ids[..n], i);
      assert ids[..n][..i] == ids[..i];
    } else if ids[n] in Ids(before.block.vtx) {
      SelectedAmong(s, p, view0, pool, ids[..n], ids[n]);
    }
  }

  //
  // The same in terms of the finished block alone: why each considered transaction is in it or not.
  //

  /** How many of the identifiers are in the block. */
  function Placed(ids: seq<Txid>, chosen: set<Txid>): nat {
    if ids == [] then 0 else Placed(ids[..|ids| - 1], chosen) + if ids[|ids| - 1] in chosen then 1 else 0
  }

  /**
  Why a transaction does not come after the first k of the block: the size, the signature operations without and
  with those of its scripts, too low a fee once the minimum size is passed in fee order, a missing input, failing
  scripts, or a shielded pool that would go negative.
  */
  ghost predicate LeftOut(s: Settings, p: Policy, view0: View, b: Block, k: nat, byFee: bool, tx: Tx)
    requires k <= |b.vtx| == |b.sigOps|
  {
    var before, view := b.vtx[..k], Replay(view0, b.vtx[..k]);
    var size, ops := 1000 + Sizes(before) + tx.size, 100 + SumNat(b.sigOps[..k]) + tx.legacySigOps;
    || size >= s.nBlockMaxSize
    || ops >= 20000
    || (byFee && p.cheap(tx.id) && size >= s.nBlockMinSize)
    || (exists i :: 0 <= i < |tx.vin| && tx.vin[i] !in view)
    || ops + p.p2shSigOps(tx.id, view) >= 20000
    || !p.scriptsPass(tx.id, view)
    || (s.zip209 && s.nChainSproutValue.Some? && s.nChainSaplingValue.Some?
        && (|| s.nChainSproutValue.value + SproutSum(before) + OldValue(tx.joinSplits) < NewValue(tx.joinSplits)
            || s.nChainSaplingValue.value + SaplingSum(before) < tx.valueBalance))
  }

  /** Transaction j makes the queue be sorted by fee: it fits, but is past the priority size or of no high priority. */
  ghost predicate StartsFeeOrder(s: Settings, p: Policy, b: Block, k: nat, tx: Tx)
    requires k <= |b.vtx| == |b.sigOps|
  {
    var size, ops := 1000 + Sizes(b.vtx[..k]) + tx.size, 100 + SumNat(b.sigOps[..k]) + tx.legacySigOps;
    size < s.nBlockMaxSize && ops < 20000 && (size >= s.nBlockPrioritySize || !p.highPriority(tx.id))
  }

  ghost predicate StartsAt(s: Settings, p: Policy, pool: map<Txid, Tx>, b: Block, ids: seq<Txid>, j: nat)
    requires j < |ids| && AllIn(ids, pool) && |b.vtx| == |b.sigOps|
  {
    var k := Placed(ids[..j], Ids(b.vtx));
    k <= |b.vtx| && StartsFeeOrder(s, p, b, k, pool[ids[j]])
  }

  /** The queue is sorted by fee when transaction i is considered. */
  ghost predicate FeeOrder(s: Settings, p: Policy, pool: map<Txid, Tx>, b: Block, ids: seq<Txid>, i: nat)
    requires i <= |ids| && AllIn(ids, pool) && |b.vtx| == |b.sigOps|
  {
    s.nBlockPrioritySize == 0 || exists j {:trigger StartsAt(s, p, pool, b, ids, j)} :: 0 <= j < i && StartsAt(s, p, pool, b, ids, j)
  }

  /** The whole statement for transaction i of the considered order: in the block, at its place, unless one of these causes is there. */
  ghost predicate Explained(s: Settings, p: Policy, view0: View, pool: map<Txid, Tx>, b: Block, ids: seq<Txid>, i: nat)
    requires AllIn(ids, pool) && |b.vtx| == |b.sigOps|
  {
    && i < |ids|
    && var k := Placed(ids[..i], Ids(b.vtx));
       && k <= |b.vtx|
       && (ids[i] in Ids(b.vtx) <==> !LeftOut(s, p, view0, b, k, FeeOrder(s, p, pool, b, ids, i), pool[ids[i]]))
       && (ids[i] in Ids(b.vtx) ==> k < |b.vtx| && b.vtx[k] == pool[ids[i]])
  }

  lemma BlockAfterKept(s: Settings, p: Policy, view0: View, g: Progress, tx: Tx)
    requires Kept(s, p, view0, g.block)
    ensures Kept(s, p, view0, BlockAfter(s, p, g, tx))
  {
    var b := g.block;
    if Acceptable(s, p, b, g.byFee, tx) {
      AcceptableMeans(s, p, b, g.byFee, tx);
      hide Acceptable;
      var fee, ops := Fee(b.view, tx), SigOps(p, b, tx);
      var sprout := if Monitored(s) then b.sprout + SproutDelta(tx) else b.sprout;
      var sapling := if Monitored(s) then b.sapling + SaplingDelta(tx) else b.sapling;
      SoundView(view0, b);
      hide Sound;
      hide WithinLimits;
      hide Turnstile;
      hide Counted;
      hide ScriptsOk;
      AddSound(view0, b, tx, ops, sprout, sapling);
      AddWithin(s, b, tx, fee, ops, sprout, sapling);
      AddTurnstile(s, b, tx, fee, ops, sprout, sapling);
      AddCounted(p, view0, b, tx, fee, sprout, sapling);
      AddScripts(p, view0, b, tx, fee, ops, sprout, sapling);
    }
  }

  lemma {:induction false} AssembledKept(s: Settings, p: Policy, view0: View, pool: map<Txid, Tx>, ids: seq<Txid>)
    requires AllIn(ids, pool)
    ensures Kept(s, p, view0, Assembled(s, p, view0, pool, ids).block)
    decreases |ids|
  {
    hide Kept;
    hide BlockAfter;
    if ids == [] {
      StartOk(s, p, view0, pool);
    } else {
      var n := |ids| - 1;
      AssembledKept(s, p, view0, pool, ids[..n]);
      BlockAfterKept(s, p, view0, Assembled(s, p, view0, pool, ids[..n]), pool[ids[n]]);
    }
  }

  /** What is in the block after a part of the order is the beginning of what is in it after the whole. */
  lemma {:induction false} AssembledPrefix(s: Settings, p: Policy, view0: View, pool: map<Txid, Tx>, ids: seq<Txid>, i: nat)
    requires AllIn(ids, pool) && NoDuplicates(ids) && i <= |ids| && (forall x :: x in pool ==> pool[x].id == x)
    ensures AllIn(ids[..i], pool)
    ensures var g, b := Assembled(s, p, view0, pool, ids[..i]).block, Assembled(s, p, view0, pool, ids).block;
            && g.vtx <= b.vtx && g.sigOps <= b.sigOps && |g.vtx| == Placed(ids[..i], Ids(b.vtx))
    decreases |ids|, i
  {
    hide Acceptable;
    var b := Assembled(s, p, view0, pool, ids).block;
    if i > 0 {
      var n := i - 1;
      AssembledPrefix(s, p, view0, pool, ids, n);
      DecidedIff(s, p, view0, pool, ids, n);
      AssembledNext(s, p, view0, pool, ids, n);
      assert ids[..i][..n] == ids[..n];
    }
    if i < |ids| {
      AssembledGrows(s, p, view0, pool, ids, i);
    } else {
      assert ids[..i] == ids;
    }
  }

  lemma AssembledNext(s: Settings, p: Policy, view0: View, pool: map<Txid, Tx>, ids: seq<Txid>, n: nat)
    requires AllIn(ids, pool) && n < |ids|
    ensures AllIn(ids[..n], pool) && AllIn(ids[..n + 1], pool)
    ensures Assembled(s, p, view0, pool, ids[..n + 1]) == After(s, p, Assembled(s, p, view0, pool, ids[..n]), pool[ids[n]])
  {
    assert ids[..n + 1][..n] == ids[..n];
  }

  lemma {:induction false} AssembledGrows(s: Settings, p: Policy, view0: View, pool: map<Txid, Tx>, ids: seq<Txid>, i: nat)
    requires AllIn(ids, pool) && i <= |ids|
    ensures AllIn(ids[..i], pool)
    ensures var g, b := Assembled(s, p, view0, pool, ids[..i]).block, Assembled(s, p, view0, pool, ids).block;
            g.vtx <= b.vtx && g.sigOps <= b.sigOps
    decreases |ids| - i
  {
    hide Acceptable;
    hide Assembled;
    if i < |ids| {
      AssembledGrows(s, p, view0, pool, ids, i + 1);
      AssembledNext(s, p, view0, pool, ids, i);
    } else {
      assert ids[..i] == ids;
    }
  }

  /** Within what is kept, the checks of the code are the absence of the causes. */
  lemma AcceptableIff(s: Settings, p: Policy, view0: View, g: Block, b: Block, byFee: bool, tx: Tx)
    requires Kept(s, p, view0, g) && |b.vtx| == |b.sigOps| && g.vtx <= b.vtx && g.sigOps <= b.sigOps && |g.vtx| == |g.sigOps|
    ensures Acceptable(s, p, g, byFee, tx) <==> !LeftOut(s, p, view0, b, |g.vtx|, byFee, tx)
    ensures PassesFirst(s, p, g, false, tx) && (g.nBlockSize + tx.size >= s.nBlockPrioritySize || !p.highPriority(tx.id))
            <==> StartsFeeOrder(s, p, b, |g.vtx|, tx)
  {
    assert b.vtx[..|g.vtx|] == g.vtx && b.sigOps[..|g.vtx|] == g.sigOps;
  }

  /** Fee order as the code keeps it is fee order as the finished block shows it. */
  lemma {:induction false} ByFeeIff(s: Settings, p: Policy, view0: View, pool: map<Txid, Tx>, ids: seq<Txid>, i: nat)
    requires AllIn(ids, pool) && NoDuplicates(ids) && i <= |ids| && (forall x :: x in pool ==> pool[x].id == x)
    ensures var b := Assembled(s, p, view0, pool, ids).block;
            && |b.vtx| == |b.sigOps| && AllIn(ids[..i], pool)
            && (Assembled(s, p, view0, pool, ids[..i]).byFee <==> FeeOrder(s, p, pool, b, ids, i))
    decreases i
  {
    hide Acceptable;
    hide PassesFirst;
    hide StartsFeeOrder;
    hide Placed;
    AssembledKept(s, p, view0, pool, ids);
    var b := Assembled(s, p, view0, pool, ids).block;
    assert |b.vtx| == |b.sigOps| by { KeptSizes(s, p, view0, b); }
    if i > 0 {
      var n := i - 1;
      ByFeeIff(s, p, view0, pool, ids, n);
      AssembledPrefix(s, p, view0, pool, ids, n);
      AssembledKept(s, p, view0, pool, ids[..n]);
      AssembledNext(s, p, view0, pool, ids, n);
      var g := Assembled(s, p, view0, pool, ids[..n]);
      KeptSizes(s, p, view0, g.block);
      AcceptableIff(s, p, view0, g.block, b, false, pool[ids[n]]);
      assert StartsAt(s, p, pool, b, ids, n) <==> StartsFeeOrder(s, p, b, |g.block.vtx|, pool[ids[n]]);
      assert FeeOrder(s, p, pool, b, ids, i) <==> FeeOrder(s, p, pool, b, ids, n) || StartsAt(s, p, pool, b, ids, n);
    }
  }

  lemma KeptSizes(s: Settings, p: Policy, view0: View, b: Block)
    requires Kept(s, p, view0, b)
    ensures |b.vtx| == |b.sigOps|
  {
  }

  /** Every considered transaction is in the block exactly if none of the causes keeps it out. */
  lemma AllExplained(s: Settings, p: Policy, view0: View, pool: map<Txid, Tx>, ids: seq<Txid>, i: nat)
    requires AllIn(ids, pool) && NoDuplicates(ids) && i < |ids| && (forall x :: x in pool ==> pool[x].id == x)
    ensures var b := Assembled(s, p, view0, pool, ids).block;
            |b.vtx| == |b.sigOps| && Explained(s, p, view0, pool, b, ids, i)
  {
    hide Acceptable;
    hide PassesFirst;
    hide LeftOut;
    hide Assembled;
    hide FeeOrder;
    hide Ids;
    hide Placed;
    ByFeeIff(s, p, view0, pool, ids, i);
    AssembledPrefix(s, p, view0, pool, ids, i);
    AssembledKept(s, p, view0, pool, ids[..i]);
    DecidedIff(s, p, view0, pool, ids, i);
    var g, b := Assembled(s, p, view0, pool, ids[..i]), Assembled(s, p, view0, pool, ids).block;
    KeptSizes(s, p, view0, g.block);
    AcceptableIff(s, p, view0, g.block, b, g.byFee, pool[ids[i]]);
  }

  //
  // The builder.
  //

  class TemplateBuilder {
    const pool: map<Txid, Tx>
    const view0: View
    const settings: Settings
    const policy: Policy
    var block: Block
    var sched: Sched
    var fSortedByFee: bool
    var vTxFees: seq<int>
    ghost var parents: map<Txid, set<Txid>>
    ghost var considered: set<Txid>
    ghost var history: seq<Txid>

    /** Everything that assembly keeps, once the pool's transactions in seen have been entered. */
    ghost predicate Valid(seen: set<Txid>)
      reads this
    {
      && PoolOk(pool, view0)
      && ParentsOk(pool, view0, policy, parents, seen)
      && Ok(parents, sched, Ids(block.vtx), considered)
      && Selected(pool, block.vtx, considered)
      && Sound(view0, block) && WithinLimits(settings, block) && Turnstile(settings, block) && Counted(policy, view0, block) && ScriptsOk(policy, view0, block)
      && Follows(history, considered)
    }

    /** The block and the order of the queue are what considering the history, in its order, leads to. */
    ghost predicate Follows(history: seq<Txid>, considered: set<Txid>)
      reads this
    {
      && AllIn(history, pool) && NoDuplicates(history) && SetOf(history) == considered
      && Progress(block, fSortedByFee) == Assembled(settings, policy, view0, pool, history)
    }

    /** Lines 218-221, 248-259 and 339-368. */
    constructor (pool: map<Txid, Tx>, view0: View, settings: Settings, policy: Policy)
      requires PoolOk(pool, view0)
      ensures this.pool == pool && this.view0 == view0 && this.settings == settings && this.policy == policy
      ensures Valid({}) && block.vtx == [] && considered == {}
    {
      this.pool, this.view0, this.settings, this.policy := pool, view0, settings, policy;
      var sprout, sapling := 0, 0;
      if settings.zip209 && settings.nChainSproutValue.Some? {
        sprout := settings.nChainSproutValue.value;
      }
      if settings.zip209 && settings.nChainSaplingValue.Some? {
        sapling := settings.nChainSaplingValue.value;
      }
      block := Block([], [], [], view0, 1000, 100, 0, sprout, sapling);
      sched := Sched([], map[], map[]);
      fSortedByFee := settings.nBlockPrioritySize <= 0;
      vTxFees := [-1];
      parents, considered, history := map[], {}, [];
      new;
      hide Sound;
      hide WithinLimits;
      hide Turnstile;
      hide Counted;
      hide ScriptsOk;
      hide Ok;
      EmptyOk();
      StartOk(settings, policy, view0, pool);
      assert Progress(block, fSortedByFee) == Start(settings, view0);
    }

    /** Lines 261-337: every eligible transaction is queued or waits for its unconfirmed parents. */
    method EnterPool(order: seq<Txid>)
      requires Valid({}) && block.vtx == [] && considered == {}
      requires NoDuplicates(order) && forall id :: id in order <==> id in pool
      modifies this`sched, this`parents
      ensures Valid(pool.Keys)
    {
      hide Ok;
      hide Turnstile;
      hide Sound;
      hide WithinLimits;
      hide PoolOk;
      hide Counted;
      hide ScriptsOk;
      hide Assembled;
      assert Ids(block.vtx) == {};
      for i := 0 to |order|
        invariant ParentsOk(pool, view0, policy, parents, SetOf(order[..i]))
        invariant Ok(parents, sched, {}, {})
      {
        var id := order[i];
        SetOfLast(order, i);
        if policy.eligible(id) {
          EnterTx(id);
          parents := parents[id := Parents(view0, pool[id])];
        }
      }
      assert order[..|order|] == order;
      assert SetOf(order) == pool.Keys;
    }

    /** Lines 273-336 for one transaction. */
    method EnterTx(id: Txid)
      requires id in pool && id !in parents && Ok(parents, sched, {}, {})
      modifies this`sched
      ensures Ok(parents[id := Parents(view0, pool[id])], sched, {}, {})
    {
      hide HaveCoins;
      ghost var was := sched;
      var tx := pool[id];
      var fOrphan := false;
      assert tx.vin[..0] == [];
      for i := 0 to |tx.vin|
        invariant sched == AddParents(was, id, Missing(view0, tx.vin[..i]))
        invariant fOrphan <==> Missing(view0, tx.vin[..i]) != []
      {
        var h := tx.vin[i].hash;
        ghost var ps := Missing(view0, tx.vin[..i]);
        assert tx.vin[..i + 1][..i] == tx.vin[..i];
        if !HaveCoins(view0, h) {
          fOrphan := true;
          sched := AddParent(sched, id, h);
          assert (ps + [h])[..|ps|] == ps;
        }
      }
      assert tx.vin[..|tx.vin|] == tx.vin;
      if !fOrphan {
        sched := sched.(queue := sched.queue + [id]);
      }
      EnterKeeps(parents, was, id, Missing(view0, tx.vin));
    }

    /** UpdateCoins (src/main.cpp:1999-2027); the assertion is the source's. */
    method UpdateCoins(view: View, tx: Tx) returns (r: View)
      requires HaveInputs(view, tx) && DistinctInputs(tx)
      ensures r == Apply(view, tx)
    {
      r := view;
      for i := 0 to |tx.vin|
        invariant r == view - Points(tx.vin[..i])
      {
        assert tx.vin[i] in r;
        assert tx.vin[..i + 1] == tx.vin[..i] + [tx.vin[i]];
        assert Points(tx.vin[..i + 1]) == Points(tx.vin[..i]) + {tx.vin[i]};
        r := r - {tx.vin[i]};
      }
      assert tx.vin[..|tx.vin|] == tx.vin;
      r := r + Outputs(tx.id, tx.vout);
    }

    /** Lines 428-436: the pools after a transaction. */
    method PoolsAfter(tx: Tx) returns (sprout: int, sapling: int)
      ensures sprout == block.sprout + SproutDelta(tx) && sapling == block.sapling + SaplingDelta(tx)
    {
      sprout, sapling := block.sprout, block.sapling;
      sapling := sapling + -tx.valueBalance;
      for i := 0 to |tx.joinSplits|
        invariant sprout == block.sprout + OldValue(tx.joinSplits[..i]) - NewValue(tx.joinSplits[..i])
      {
        assert tx.joinSplits[..i + 1][..i] == tx.joinSplits[..i];
        sprout := sprout + tx.joinSplits[i].vpubOld;
        sprout := sprout - tx.joinSplits[i].vpubNew;
      }
      assert tx.joinSplits[..|tx.joinSplits|] == tx.joinSplits;
    }

    /** Lines 468-483: those that wait for a selected transaction hear of it. */
    method AnnounceAll(h: Txid, ghost selected: set<Txid>)
      requires Ok(parents, sched, selected, considered)
      modifies this`sched
      ensures Ok(parents, sched, selected + {h}, considered)
    {
      hide Partial;
      AnnounceStart(parents, sched, selected, considered, h);
      var waiting := DependersOf(sched, h);
      ghost var done := {};
      for i := 0 to |waiting|
        invariant Partial(parents, sched, selected, considered, h, done) && DependersOf(sched, h) == waiting
        invariant forall j :: 0 <= j < i ==> waiting[j] in done
      {
        AnnounceKeeps(parents, sched, selected, considered, h, done, waiting[i]);
        sched := Announce(sched, h, waiting[i]);
        done := done + {waiting[i]};
      }
      AnnounceDone(parents, sched, selected, considered, h, done);
    }

    /** Lines 380-449: whether the transaction is taken, with its signature operations and the pools after it. */
    method Consider(tx: Tx) returns (take: bool, nTxSigOps: nat, sprout: int, sapling: int)
      modifies this`fSortedByFee
      ensures take == Acceptable(settings, policy, block, old(fSortedByFee), tx)
      ensures take ==> nTxSigOps == SigOps(policy, block, tx)
      ensures take && Monitored(settings) ==> sprout == block.sprout + SproutDelta(tx) && sapling == block.sapling + SaplingDelta(tx)
      ensures take && !Monitored(settings) ==> sprout == block.sprout && sapling == block.sapling
      ensures fSortedByFee <==>
                || old(fSortedByFee)
                || (PassesFirst(settings, policy, block, false, tx)
                    && (block.nBlockSize + tx.size >= settings.nBlockPrioritySize || !policy.highPriority(tx.id)))
    {
      take, nTxSigOps, sprout, sapling := false, tx.legacySigOps, block.sprout, block.sapling;
      if block.nBlockSize + tx.size >= settings.nBlockMaxSize {
        return;
      }
      if block.nBlockSigOps + nTxSigOps >= MAX_BLOCK_SIGOPS {
        return;
      }
      if fSortedByFee && policy.cheap(tx.id) && block.nBlockSize + tx.size >= settings.nBlockMinSize {
        return;
      }
      if !fSortedByFee && (block.nBlockSize + tx.size >= settings.nBlockPrioritySize || !policy.highPriority(tx.id)) {
        fSortedByFee := true;
      }
      if !HaveInputs(block.view, tx) {
        return;
      }
      nTxSigOps := nTxSigOps + policy.p2shSigOps(tx.id, block.view);
      if block.nBlockSigOps + nTxSigOps >= MAX_BLOCK_SIGOPS {
        return;
      }
      if !policy.scriptsPass(tx.id, block.view) {
        return;
      }
      if Monitored(settings) {
        sprout, sapling := PoolsAfter(tx);
        if sprout < 0 {
          return;
        }
        if sapling < 0 {
          return;
        }
      }
      take := true;
    }

    /** Lines 451-483: the transaction is added, and those that wait for it hear of it. */
    method IncludeTx(tx: Tx, nTxSigOps: nat, sprout: int, sapling: int)
      requires Sound(view0, block) && WithinLimits(settings, block) && Turnstile(settings, block) && Counted(policy, view0, block) && ScriptsOk(policy, view0, block)
      requires Ok(parents, sched, Ids(block.vtx), considered) && nTxSigOps == SigOps(policy, block, tx)
      requires policy.scriptsPass(tx.id, block.view)
      requires HaveInputs(block.view, tx) && DistinctInputs(tx)
      requires block.nBlockSize + tx.size < settings.nBlockMaxSize && block.nBlockSigOps + nTxSigOps < MAX_BLOCK_SIGOPS
      requires Monitored(settings) ==>
                 && sprout == block.sprout + SproutDelta(tx) && sapling == block.sapling + SaplingDelta(tx)
                 && sprout >= 0 && sapling >= 0
      modifies this`block, this`sched
      ensures Sound(view0, block) && WithinLimits(settings, block) && Turnstile(settings, block) && Counted(policy, view0, block) && ScriptsOk(policy, view0, block)
      ensures block == old(Added(block, tx, Fee(block.view, tx), nTxSigOps, sprout, sapling))
      ensures Ok(parents, sched, old(Ids(block.vtx)) + {tx.id}, considered)
    {
      hide Ok;
      hide Turnstile;
      hide Sound;
      hide WithinLimits;
      hide Ids;
      hide HaveInputs;
      hide DistinctInputs;
      var nTxFees := Fee(block.view, tx);
      AddSound(view0, block, tx, nTxSigOps, sprout, sapling);
      AddWithin(settings, block, tx, nTxFees, nTxSigOps, sprout, sapling);
      AddTurnstile(settings, block, tx, nTxFees, nTxSigOps, sprout, sapling);
      assert block.view == Replay(view0, block.vtx) by { SoundView(view0, block); }
      AddCounted(policy, view0, block, tx, nTxFees, sprout, sapling);
      hide Counted;
      AddScripts(policy, view0, block, tx, nTxFees, nTxSigOps, sprout, sapling);
      hide ScriptsOk;
      ghost var selected := Ids(block.vtx);
      var view := UpdateCoins(block.view, tx);
      block := Block(block.vtx + [tx], block.fees + [nTxFees], block.sigOps + [nTxSigOps], view,
                     block.nBlockSize + tx.size, block.nBlockSigOps + nTxSigOps, block.nFees + nTxFees, sprout, sapling);
      AnnounceAll(tx.id, selected);
    }

    /** One pass of the loop (lines 370-484), with any choice of the next transaction. */
    method SelectNext() returns (ghost id: Txid)
      requires Valid(pool.Keys) && sched.queue != []
      modifies this`sched, this`considered, this`history, this`block, this`fSortedByFee
      ensures Valid(pool.Keys)
      ensures id in parents && id !in old(considered) && considered == old(considered) + {id} && id in pool
      ensures Progress(block, fSortedByFee) == After(settings, policy, old(Progress(block, fSortedByFee)), pool[id])
    {
      hide Ok;
      hide Turnstile;
      hide Sound;
      hide WithinLimits;
      hide PoolOk;
      hide Ids;
      hide HaveInputs;
      hide DistinctInputs;
      hide Acceptable;
      hide Counted;
      hide ScriptsOk;
      hide Assembled;
      ghost var before, byFee := block, fSortedByFee;
      var i :| 0 <= i < |sched.queue|;
      var next := sched.queue[i];
      id := next;
      QueuedIsNew(parents, sched, Ids(block.vtx), considered, i);
      PopKeeps(parents, sched, Ids(block.vtx), considered, i);
      var tx := pool[next];
      PoolTx(pool, view0, next);
      SelectedLast(pool, block.vtx, considered, tx);
      sched := sched.(queue := Without(sched.queue, i));
      considered := considered + {next};
      var take, nTxSigOps, sprout, sapling := Consider(tx);
      if take {
        AcceptableMeans(settings, policy, block, byFee, tx);
        IncludeTx(tx, nTxSigOps, sprout, sapling);
      }
      AssembledLast(settings, policy, view0, pool, history, next);
      HistoryLast(history, next);
      history := history + [next];
    }

    /** Lines 370-484: the loop ends because no transaction is considered twice. */
    method SelectAll()
      requires Valid(pool.Keys)
      modifies this`sched, this`considered, this`history, this`block, this`fSortedByFee
      ensures Valid(pool.Keys) && sched.queue == []
    {
      hide Valid;
      while sched.queue != []
        invariant Valid(pool.Keys)
        decreases |parents.Keys - considered|
      {
        ghost var left := parents.Keys - considered;
        ghost var id := SelectNext();
        assert id in left && id !in parents.Keys - considered;
        Fewer(parents.Keys - considered, left);
      }
    }

    /**
    Lines 255-505 without the coinbase transaction: whatever the heap's choices, assembly ends, and
    a transaction has been considered exactly when all its unconfirmed parents were selected, and is in the
    block exactly if no cause kept it out when it was considered.
    */
    method CreateNewBlock(order: seq<Txid>)
      requires Valid({}) && block.vtx == [] && considered == {} && vTxFees == [-1]
      requires NoDuplicates(order) && forall id :: id in order <==> id in pool
      modifies this
      ensures Valid(pool.Keys)
      ensures forall id :: id in parents ==> (id in considered <==> parents[id] <= Ids(block.vtx))
      ensures AllIn(history, pool) && SetOf(history) == considered && NoDuplicates(history)
      ensures block == Assembled(settings, policy, view0, pool, history).block
      ensures |block.vtx| == |block.sigOps|
      ensures forall i {:trigger Explained(settings, policy, view0, pool, block, history, i)} :: 0 <= i < |history| ==>
                Explained(settings, policy, view0, pool, block, history, i)
      ensures vTxFees == [-Sum(block.fees)] + block.fees
      ensures Total(block.view) + SproutSum(block.vtx) + SaplingSum(block.vtx) + BurnedSum(block.vtx) == Total(view0) + vTxFees[0]
    {
      hide Total;
      hide Ok;
      hide Turnstile;
      hide Sound;
      hide WithinLimits;
      hide PoolOk;
      hide Selected;
      hide ParentsOk;
      hide Counted;
      hide ScriptsOk;
      hide Acceptable;
      EnterPool(order);
      SelectAll();
      NoneStarved(parents, sched, Ids(block.vtx), considered);
      SoundFees(view0, block);
      SoundConserves(view0, pool, block, considered);
      vTxFees := vTxFees + block.fees;
      vTxFees := vTxFees[0 := -block.nFees];
      PoolIds(pool, view0);
      ByFeeIff(settings, policy, view0, pool, history, 0);
      forall i | 0 <= i < |history| ensures Explained(settings, policy, view0, pool, block, history, i) {
        AllExplained(settings, policy, view0, pool, history, i);
      }
    }
  }

  lemma SoundView(view0: View, b: Block)
    requires Sound(view0, b)
    ensures b.view == Replay(view0, b.vtx)
  {
  }

  lemma HistoryLast(history: seq<Txid>, id: Txid)
    requires NoDuplicates(history) && id !in SetOf(history)
    ensures NoDuplicates(history + [id]) && SetOf(history + [id]) == SetOf(history) + {id}
  {
    var more := history + [id];
    assert forall i :: 0 <= i < |history| ==> more[i] == history[i] && history[i] in SetOf(history);
    assert more[|history|] == id;
    forall x | x in SetOf(history) ensures x in SetOf(more) {
      var i :| 0 <= i < |history| && history[i] == x;
      assert more[i] == x;
    }
  }

  lemma SoundConserves(view0: View, pool: map<Txid, Tx>, b: Block, considered: set<Txid>)
    requires PoolOk(pool, view0) && Selected(pool, b.vtx, considered) && Sound(view0, b)
    ensures Total(b.view) + SproutSum(b.vtx) + SaplingSum(b.vtx) + Sum(b.fees) + BurnedSum(b.vtx) == Total(view0)
  {
    hide Total;
    BlockConserves(view0, pool, b.vtx, b.fees, considered);
  }

  lemma SoundFees(view0: View, b: Block)
    requires Sound(view0, b)
    ensures b.nFees == Sum(b.fees)
  {
  }

  lemma Fewer(a: set<Txid>, b: set<Txid>)
    requires a < b
    ensures |a| < |b|
  {
    var x :| x in b && x !in a;
    assert a <= b - {x};
    SubsetSize(a, b - {x});
  }

  lemma {:induction false} SubsetSize(a: set<Txid>, b: set<Txid>)
    requires a <= b
    ensures |a| <= |b|
  {
    if a != {} {
      var x :| x in a;
      SubsetSize(a - {x}, b - {x});
    }
  }

  lemma QueuedIsNew(parents: map<Txid, set<Txid>>, s: Sched, selected: set<Txid>, considered: set<Txid>, i: nat)
    requires Ok(parents, s, selected, considered) && i < |s.queue|
    ensures s.queue[i] in parents && s.queue[i] !in considered
  {
    assert s.queue[i] in s.queue;
  }

  lemma AcceptableMeans(s: Settings, p: Policy, b: Block, byFee: bool, tx: Tx)
    requires Acceptable(s, p, b, byFee, tx)
    ensures HaveInputs(b.view, tx) && p.scriptsPass(tx.id, b.view)
    ensures b.nBlockSize + tx.size < s.nBlockMaxSize && b.nBlockSigOps + SigOps(p, b, tx) < MAX_BLOCK_SIGOPS
    ensures Monitored(s) ==> b.sprout + SproutDelta(tx) >= 0 && b.sapling + SaplingDelta(tx) >= 0
  {
  }

  lemma PoolIds(pool: map<Txid, Tx>, view0: View)
    requires PoolOk(pool, view0)
    ensures forall id :: id in pool ==> pool[id].id == id
  {
    forall id | id in pool ensures pool[id].id == id {
      assert TxOk(pool, view0, id);
    }
  }

  lemma PoolTx(pool: map<Txid, Tx>, view0: View, id: Txid)
    requires PoolOk(pool, view0) && id in pool
    ensures pool[id].id == id && DistinctInputs(pool[id])
  {
    assert TxOk(pool, view0, id);
  }

  lemma SetOfLast(order: seq<Txid>, i: nat)
    requires i < |order| && NoDuplicates(order)
    ensures SetOf(order[..i + 1]) == SetOf(order[..i]) + {order[i]} && order[i] !in SetOf(order[..i])
  {
    assert order[..i + 1] == order[..i] + [order[i]];
  }
}
