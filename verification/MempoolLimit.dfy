/**
The weighted transaction tree that limits the mempool (WeightedTxTree,
src/mempool_limit.cpp, ZIP 401 section "Specification"): a binary tree embedded in a
vector, where every node stores the total weight of its strict descendants.
*/
module MempoolLimit {
  import opened Common

  type Txid = nat

  datatype TxWeight = TxWeight(cost: int, evictionWeight: int) {
    function Add(o: TxWeight): TxWeight { TxWeight(cost + o.cost, evictionWeight + o.evictionWeight) }
    function Negate(): TxWeight { TxWeight(-cost, -evictionWeight) }
  }

  datatype Info = Info(txId: Txid, txWeight: TxWeight)

  const ZERO := TxWeight(0, 0)
  const MIN_TX_COST := 4000
  const LOW_FEE_PENALTY := 16000
  const DEFAULT_FEE := 10000

  /** WeightedTxInfo::from; its weights are what the tree is given in practice. */
  function From(txId: Txid, memUsage: nat, fee: int): (r: Info)
    ensures Weighted(r) && Priced(r) && r.txId == txId
    ensures var w := r.txWeight;
            && w.cost >= 4000 && w.cost >= memUsage && (w.cost == 4000 || w.cost == memUsage)
            && w.evictionWeight - w.cost == if fee < 10000 then 16000 else 0
  {
    var cost := if memUsage < MIN_TX_COST then MIN_TX_COST else memUsage;
    Info(txId, TxWeight(cost, if fee < DEFAULT_FEE then cost + LOW_FEE_PENALTY else cost))
  }

  predicate Weighted(x: Info) {
    0 < x.txWeight.cost <= x.txWeight.evictionWeight
  }

  /** The penalty is at most four times the least cost. */
  predicate Priced(x: Info) {
    x.txWeight.evictionWeight <= 5 * x.txWeight.cost
  }

  datatype Tree = Tree(infos: seq<Info>, childWeights: seq<TxWeight>, index: map<Txid, nat>)

  const EMPTY := Tree([], [], map[])

  //
  // Sums over subtrees.
  //

  /** Node i is node j or one of its ancestors. */
  predicate Above(i: nat, j: nat) {
    if j <= i then j == i else Above(i, (j - 1) / 2)
  }

  /** The total of a measure f over all nodes below k that node i is above. */
  function SumAbove(f: Info -> int, xs: seq<Info>, i: nat, k: nat): int
    requires k <= |xs|
  {
    if k == 0 then 0 else SumAbove(f, xs, i, k - 1) + When(Above(i, k - 1), f(xs[k - 1]))
  }

  function When(b: bool, x: int): int {
    if b then x else 0
  }

  const Cost: Info -> int := (x: Info) => x.txWeight.cost
  const Eviction: Info -> int := (x: Info) => x.txWeight.evictionWeight

  /** The total weight of node i and its descendants. */
  function Subtree(xs: seq<Info>, i: nat): TxWeight {
    TxWeight(SumAbove(Cost, xs, i, |xs|), SumAbove(Eviction, xs, i, |xs|))
  }

  /** The total weight of the strict descendants of node i. */
  function Descendants(xs: seq<Info>, i: nat): TxWeight
    requires i < |xs|
  {
    Subtree(xs, i).Add(xs[i].txWeight.Negate())
  }

  /** A node is above itself and what its children are above, each exactly once. */
  lemma AboveOrder(i: nat, j: nat)
    requires Above(i, j)
    ensures i <= j
  {
  }

  lemma {:induction false} AboveChildren(i: nat, j: nat)
    ensures i < j ==> (Above(i, j) <==> Above(2 * i + 1, j) || Above(2 * i + 2, j))
    ensures !(Above(2 * i + 1, j) && Above(2 * i + 2, j))
    ensures j <= i ==> !Above(2 * i + 1, j) && !Above(2 * i + 2, j)
  {
    if j > 2 * i + 2 {
      AboveChildren(i, (j - 1) / 2);
    }
  }

  lemma {:induction false} SumSplits(f: Info -> int, xs: seq<Info>, i: nat, k: nat)
    requires k <= |xs|
    ensures SumAbove(f, xs, i, k) ==
            SumAbove(f, xs, 2 * i + 1, k) + SumAbove(f, xs, 2 * i + 2, k) + if i < k then f(xs[i]) else 0
  {
    if k > 0 {
      SumSplits(f, xs, i, k - 1);
      AboveChildren(i, k - 1);
      ExactlyOne(Above(i, k - 1), Above(2 * i + 1, k - 1), Above(2 * i + 2, k - 1), i == k - 1, f(xs[k - 1]));
    }
  }

  lemma {:induction false} ExactlyOne(whole: bool, left: bool, right: bool, here: bool, w: int)
    requires whole == (left || right || here) && !(left && right) && !(left && here) && !(right && here)
    ensures When(whole, w) == When(left, w) + When(right, w) + When(here, w)
  {
  }

  lemma {:induction false} SumBeyond(f: Info -> int, xs: seq<Info>, i: nat, k: nat)
    requires k <= |xs| && k <= i
    ensures SumAbove(f, xs, i, k) == 0
  {
    if k > 0 {
      SumBeyond(f, xs, i, k - 1);
    }
  }

  lemma {:induction false} SumPrefix(f: Info -> int, xs: seq<Info>, ys: seq<Info>, i: nat, k: nat)
    requires k <= |xs| && k <= |ys| && forall j :: 0 <= j < k ==> xs[j] == ys[j]
    ensures SumAbove(f, xs, i, k) == SumAbove(f, ys, i, k)
  {
    if k > 0 {
      SumPrefix(f, xs, ys, i, k - 1);
    }
  }

  lemma {:induction false} SumUpdate(f: Info -> int, xs: seq<Info>, i: nat, k: nat, j: nat, x: Info)
    requires j < k <= |xs|
    ensures SumAbove(f, xs[j := x], i, k) == SumAbove(f, xs, i, k) + When(Above(i, j), f(x) - f(xs[j]))
  {
    if k - 1 == j {
      SumPrefix(f, xs, xs[j := x], i, k - 1);
    } else {
      SumUpdate(f, xs, i, k - 1, j, x);
    }
  }

  lemma {:induction false} SubtreeUpdate(xs: seq<Info>, i: nat, j: nat, x: Info)
    requires j < |xs|
    ensures Subtree(xs[j := x], i) == Subtree(xs, i).Add(if Above(i, j) then x.txWeight.Add(xs[j].txWeight.Negate()) else ZERO)
  {
    SumUpdate(Cost, xs, i, |xs|, j, x);
    SumUpdate(Eviction, xs, i, |xs|, j, x);
  }

  lemma {:induction false} SubtreeAppend(xs: seq<Info>, x: Info, i: nat)
    ensures Subtree(xs + [x], i) == Subtree(xs, i).Add(if Above(i, |xs|) then x.txWeight else ZERO)
  {
    SumPrefix(Cost, xs, xs + [x], i, |xs|);
    SumPrefix(Eviction, xs, xs + [x], i, |xs|);
  }

  lemma {:induction false} SubtreeBeyond(xs: seq<Info>, i: nat)
    requires |xs| <= i
    ensures Subtree(xs, i) == ZERO
  {
    SumBeyond(Cost, xs, i, |xs|);
    SumBeyond(Eviction, xs, i, |xs|);
  }

  //
  // Propagation to the ancestors.
  //

  function BackPropagate(cw: seq<TxWeight>, from: nat, delta: TxWeight): (r: seq<TxWeight>)
    requires from <= |cw|
    ensures |r| == |cw|
    decreases from
  {
    if from == 0 then cw
    else
      var p := (from - 1) / 2;
      BackPropagate(cw[p := cw[p].Add(delta)], p, delta)
  }

  /** Exactly the strict ancestors change, by delta. */
  lemma {:induction false} BackPropagateAt(cw: seq<TxWeight>, from: nat, delta: TxWeight, i: nat)
    requires from <= |cw| && i < |cw|
    ensures BackPropagate(cw, from, delta)[i] == if i < from && Above(i, from) then cw[i].Add(delta) else cw[i]
    decreases from
  {
    if from > 0 {
      var p := (from - 1) / 2;
      BackPropagateAt(cw[p := cw[p].Add(delta)], p, delta, i);
    }
  }

  //
  // The operations.
  //

  function WeightAt(t: Tree, i: nat): TxWeight
    requires |t.infos| == |t.childWeights|
  {
    if i < |t.infos| then t.infos[i].txWeight.Add(t.childWeights[i]) else ZERO
  }

  function Add(t: Tree, x: Info): Tree
    requires |t.infos| == |t.childWeights|
  {
    if x.txId in t.index then t
    else Tree(t.infos + [x], BackPropagate(t.childWeights + [ZERO], |t.infos|, x.txWeight), t.index[x.txId := |t.infos|])
  }

  function Remove(t: Tree, txId: Txid): Tree
    requires Inv(t)
  {
    if txId !in t.index then t
    else
      assert IndexOk(t, txId);
      var at, last := t.index[txId], |t.infos| - 1;
      var w := t.infos[last].txWeight;
      var cw := BackPropagate(t.childWeights, last, w.Negate());
      if at < last then
        var delta := w.Add(t.infos[at].txWeight.Negate());
        Tree(t.infos[at := t.infos[last]][..last],
             BackPropagate(cw, at, delta)[..last],
             t.index[t.infos[last].txId := at] - {txId})
      else Tree(t.infos[..last], cw[..last], t.index - {txId})
  }

  //
  // The invariant.
  //

  ghost predicate IndexOk(t: Tree, txId: Txid) {
    txId in t.index ==> t.index[txId] < |t.infos| && t.infos[t.index[txId]].txId == txId
  }

  ghost predicate NodeOk(t: Tree, i: nat) {
    i < |t.infos| && i < |t.childWeights| ==>
      && t.childWeights[i] == Descendants(t.infos, i)
      && t.infos[i].txId in t.index && t.index[t.infos[i].txId] == i
      && Weighted(t.infos[i])
  }

  ghost predicate Inv(t: Tree) {
    && |t.infos| == |t.childWeights|
    && (forall i: nat {:trigger NodeOk(t, i)} :: NodeOk(t, i))
    && (forall x {:trigger IndexOk(t, x)} :: IndexOk(t, x))
  }

  lemma {:induction false} WeightIsSubtree(t: Tree, i: nat)
    requires Inv(t)
    ensures WeightAt(t, i) == Subtree(t.infos, i)
  {
    assert NodeOk(t, i);
    if i >= |t.infos| {
      SubtreeBeyond(t.infos, i);
    }
  }

  lemma {:induction false} AddKeeps(t: Tree, x: Info)
    requires Inv(t) && Weighted(x)
    ensures Inv(Add(t, x))
  {
    var t' := Add(t, x);
    if x.txId !in t.index {
      forall i: nat ensures NodeOk(t', i) {
        assert NodeOk(t, i);
        if i <= |t.infos| {
          BackPropagateAt(t.childWeights + [ZERO], |t.infos|, x.txWeight, i);
          SubtreeAppend(t.infos, x, i);
          SubtreeBeyond(t.infos, |t.infos|);
        }
        if i < |t.infos| {
          assert IndexOk(t, t.infos[i].txId);
        }
      }
      forall y ensures IndexOk(t', y) { assert IndexOk(t, y); }
    }
  }

  /** Dropping the last node and propagating its weight leaves the right sums for the rest. */
  lemma {:induction false} DropLast(t: Tree, i: nat)
    requires Inv(t) && i < |t.infos| - 1
    ensures var last := |t.infos| - 1;
            BackPropagate(t.childWeights, last, t.infos[last].txWeight.Negate())[i] == Descendants(t.infos[..last], i)
  {
    var last := |t.infos| - 1;
    BackPropagateAt(t.childWeights, last, t.infos[last].txWeight.Negate(), i);
    assert t.infos == t.infos[..last] + [t.infos[last]];
    SubtreeAppend(t.infos[..last], t.infos[last], i);
    assert NodeOk(t, i);
  }

  /** Overwriting a node and propagating the difference keeps the sums right. */
  lemma {:induction false} Overwrite(xs: seq<Info>, cw: seq<TxWeight>, at: nat, x: Info, i: nat)
    requires i < |xs| <= |cw| && at < |xs| && cw[i] == Descendants(xs, i)
    ensures BackPropagate(cw, at, x.txWeight.Add(xs[at].txWeight.Negate()))[i] == Descendants(xs[at := x], i)
  {
    BackPropagateAt(cw, at, x.txWeight.Add(xs[at].txWeight.Negate()), i);
    SubtreeUpdate(xs, i, at, x);
  }

  lemma {:induction false} RemoveSums(t: Tree, txId: Txid, i: nat)
    requires Inv(t) && txId in t.index && i < |t.infos| - 1
    ensures |Remove(t, txId).infos| == |Remove(t, txId).childWeights| == |t.infos| - 1
    ensures Remove(t, txId).childWeights[i] == Descendants(Remove(t, txId).infos, i)
  {
    assert IndexOk(t, txId);
    var at, last := t.index[txId], |t.infos| - 1;
    DropLast(t, i);
    if at < last {
      var cw := BackPropagate(t.childWeights, last, t.infos[last].txWeight.Negate());
      Overwrite(t.infos[..last], cw, at, t.infos[last], i);
      assert t.infos[at := t.infos[last]][..last] == t.infos[..last][at := t.infos[last]];
    }
  }

  lemma {:induction false} RemoveKeeps(t: Tree, txId: Txid)
    requires Inv(t)
    ensures Inv(Remove(t, txId))
  {
    if txId in t.index {
      var t' := Remove(t, txId);
      assert IndexOk(t, txId);
      var at, last := t.index[txId], |t.infos| - 1;
      assert NodeOk(t, last);
      forall i: nat ensures NodeOk(t', i) {
        if i < last {
          RemoveSums(t, txId, i);
          assert NodeOk(t, i);
        }
      }
      forall y ensures IndexOk(t', y) {
        assert IndexOk(t, y);
        if y in t'.index && at < last && y != t.infos[last].txId {
          assert NodeOk(t, t.index[y]);
        }
      }
    }
  }

  /** What the tree holds. */
  ghost function Contents(t: Tree): map<Txid, TxWeight>
    requires Inv(t)
  {
    map x | x in t.index :: assert IndexOk(t, x); t.infos[t.index[x]].txWeight
  }

  lemma {:induction false} AddContents(t: Tree, x: Info)
    requires Inv(t) && Weighted(x)
    ensures Inv(Add(t, x))
    ensures Contents(Add(t, x)) == if x.txId in Contents(t) then Contents(t) else Contents(t)[x.txId := x.txWeight]
  {
    AddKeeps(t, x);
    var c, c' := Contents(t), Contents(Add(t, x));
    if x.txId !in t.index {
      forall y | y in c' ensures y in c[x.txId := x.txWeight] && c'[y] == c[x.txId := x.txWeight][y] {
        assert IndexOk(t, y);
      }
    }
  }

  lemma {:induction false} RemoveContents(t: Tree, txId: Txid)
    requires Inv(t)
    ensures Inv(Remove(t, txId))
    ensures Contents(Remove(t, txId)) == Contents(t) - {txId}
  {
    RemoveKeeps(t, txId);
    if txId in t.index {
      RemovedIndex(t, txId);
      hide Remove;
      hide Inv;
      var r := Remove(t, txId);
      forall y | y in r.index ensures Contents(r)[y] == Contents(t)[y] {
        RemovedAt(t, txId, y);
      }
    }
  }

  lemma RemovedIndex(t: Tree, txId: Txid)
    requires Inv(t) && txId in t.index
    ensures Remove(t, txId).index.Keys == t.index.Keys - {txId}
  {
    assert IndexOk(t, txId);
    assert NodeOk(t, |t.infos| - 1);
  }

  lemma RemovedAt(t: Tree, txId: Txid, y: Txid)
    requires Inv(t) && txId in t.index && y in t.index && y != txId
    ensures var r := Remove(t, txId);
            y in r.index && r.index[y] < |r.infos| && t.index[y] < |t.infos| && r.infos[r.index[y]] == t.infos[t.index[y]]
  {
    assert IndexOk(t, txId) && IndexOk(t, y);
    assert NodeOk(t, |t.infos| - 1) && NodeOk(t, t.index[y]);
  }

  /** The total weight is the sum over everything held. */
  lemma {:induction false} TotalIsSum(t: Tree)
    requires Inv(t)
    ensures WeightAt(t, 0) == TxWeight(SumAll(Cost, t.infos, |t.infos|), SumAll(Eviction, t.infos, |t.infos|))
  {
    WeightIsSubtree(t, 0);
    RootSum(Cost, t.infos, |t.infos|);
    RootSum(Eviction, t.infos, |t.infos|);
  }

  function SumAll(f: Info -> int, xs: seq<Info>, k: nat): int
    requires k <= |xs|
  {
    if k == 0 then 0 else SumAll(f, xs, k - 1) + f(xs[k - 1])
  }

  lemma {:induction false} RootSum(f: Info -> int, xs: seq<Info>, k: nat)
    requires k <= |xs|
    ensures SumAbove(f, xs, 0, k) == SumAll(f, xs, k)
  {
    if k > 0 {
      RootSum(f, xs, k - 1);
      RootAbove(k - 1);
    }
  }

  lemma {:induction false} RootAbove(j: nat)
    ensures Above(0, j)
  {
    if j > 0 { RootAbove((j - 1) / 2); }
  }

  //
  // Weighted random choice.
  //

  /** Conversion of a 64-bit value to an int local. */
  function ToInt(x: int): int {
    (x + 0x8000_0000) % 0x1_0000_0000 - 0x8000_0000
  }

  const INT_MAX: int := 0x7fff_ffff

  function Weight(t: Tree, i: nat): int
    requires |t.infos| == |t.childWeights|
  {
    WeightAt(t, i).evictionWeight
  }

  lemma {:induction false} WeightSplits(t: Tree, i: nat)
    requires Inv(t)
    ensures Weight(t, i) >= 0 && (Weight(t, i) > 0 <==> i < |t.infos|)
    ensures i < |t.infos| ==> Weight(t, i) == Weight(t, 2 * i + 1) + t.infos[i].txWeight.evictionWeight + Weight(t, 2 * i + 2)
    ensures Weight(t, i) <= Weight(t, 0)
  {
    WeightIsSubtree(t, i);
    WeightIsSubtree(t, 2 * i + 1);
    WeightIsSubtree(t, 2 * i + 2);
    WeightIsSubtree(t, 0);
    SumSplits(Eviction, t.infos, i, |t.infos|);
    SumWithinRoot(t, i, |t.infos|);
    SumWithinRoot(t, 2 * i + 1, |t.infos|);
    SumWithinRoot(t, 2 * i + 2, |t.infos|);
    if i < |t.infos| {
      assert NodeOk(t, i);
    } else {
      SubtreeBeyond(t.infos, i);
    }
  }

  lemma {:induction false} SumWithinRoot(t: Tree, i: nat, k: nat)
    requires Inv(t) && k <= |t.infos|
    ensures 0 <= SumAbove(Eviction, t.infos, i, k) <= SumAbove(Eviction, t.infos, 0, k)
  {
    if k > 0 {
      SumWithinRoot(t, i, k - 1);
      RootAbove(k - 1);
      assert NodeOk(t, k - 1);
    }
  }

  /** The weighted choice: left subtree first, then the node itself, then the right subtree. */
  function Find(t: Tree, i: nat, w: int): nat
    requires Inv(t) && 0 <= w < Weight(t, i)
    decreases |t.infos| - i
  {
    FindBounds(t, i);
    var left := Weight(t, 2 * i + 1);
    var right := Weight(t, i) - Weight(t, 2 * i + 2);
    if w < left then Find(t, 2 * i + 1, w)
    else if w < right then i
    else Find(t, 2 * i + 2, w - right)
  }

  lemma {:induction false} FindBounds(t: Tree, i: nat)
    requires Inv(t) && 0 < Weight(t, i)
    ensures i < |t.infos|
    ensures var left, right := Weight(t, 2 * i + 1), Weight(t, i) - Weight(t, 2 * i + 2);
            0 <= left < right == left + t.infos[i].txWeight.evictionWeight && right <= Weight(t, i)
  {
    WeightSplits(t, i);
    WeightSplits(t, 2 * i + 1);
    WeightSplits(t, 2 * i + 2);
    assert NodeOk(t, i);
  }

  /** The search ends at a node of the subtree it started in. */
  lemma {:induction false} FindAbove(t: Tree, i: nat, w: int)
    requires Inv(t) && 0 <= w < Weight(t, i)
    ensures Find(t, i, w) < |t.infos| && Above(i, Find(t, i, w))
    decreases |t.infos| - i
  {
    FindBounds(t, i);
    var left, right := Weight(t, 2 * i + 1), Weight(t, i) - Weight(t, 2 * i + 2);
    if w < left {
      FindAbove(t, 2 * i + 1, w);
      AboveParent(i, 2 * i + 1, Find(t, 2 * i + 1, w));
    } else if w >= right {
      FindAbove(t, 2 * i + 2, w - right);
      AboveParent(i, 2 * i + 2, Find(t, 2 * i + 2, w - right));
    }
  }

  lemma {:induction false} AboveParent(i: nat, child: nat, j: nat)
    requires (child == 2 * i + 1 || child == 2 * i + 2) && Above(child, j)
    ensures Above(i, j) && i < j
  {
    AboveChildren(i, j);
  }

  /** Where the interval of node j starts among the values for the subtree of node i. */
  function Start(t: Tree, i: nat, j: nat): int
    requires Inv(t) && j < |t.infos|
    decreases |t.infos| - i
  {
    if i >= j then Weight(t, 2 * i + 1)
    else if Above(2 * i + 1, j) then Start(t, 2 * i + 1, j)
    else Weight(t, i) - Weight(t, 2 * i + 2) + Start(t, 2 * i + 2, j)
  }

  /** Node j is chosen exactly for an interval as long as its own eviction weight. */
  lemma {:induction false} FindInterval(t: Tree, i: nat, j: nat, w: int)
    requires Inv(t) && j < |t.infos| && Above(i, j) && 0 <= w < Weight(t, i)
    ensures Find(t, i, w) == j <==> Start(t, i, j) <= w < Start(t, i, j) + t.infos[j].txWeight.evictionWeight
    decreases |t.infos| - i
  {
    hide Find;
    hide Weight;
    hide Above;
    var left, right := Weight(t, 2 * i + 1), Weight(t, i) - Weight(t, 2 * i + 2);
    FindCases(t, i, w);
    if w < left {
      FindSide(t, i, 2 * i + 1, w);
    } else if right <= w {
      FindSide(t, i, 2 * i + 2, w - right);
    }
    AboveChildren(i, j);
    AboveOrder(i, j);
    assert NodeOk(t, j);
    if i < j && Above(2 * i + 1, j) {
      StartBounds(t, 2 * i + 1, j);
      if w < left {
        FindInterval(t, 2 * i + 1, j, w);
      }
    } else if i < j {
      StartBounds(t, 2 * i + 2, j);
      if w >= right {
        FindInterval(t, 2 * i + 2, j, w - right);
      }
    }
  }

  /** The three branches of the search. */
  lemma {:induction false} FindCases(t: Tree, i: nat, w: int)
    requires Inv(t) && 0 <= w < Weight(t, i)
    ensures i < |t.infos|
    ensures var left, right := Weight(t, 2 * i + 1), Weight(t, i) - Weight(t, 2 * i + 2);
            && 0 <= left < right == left + t.infos[i].txWeight.evictionWeight && right <= Weight(t, i)
            && (w < left ==> Find(t, i, w) == Find(t, 2 * i + 1, w))
            && (left <= w < right ==> Find(t, i, w) == i)
            && (right <= w ==> w - right < Weight(t, 2 * i + 2) && Find(t, i, w) == Find(t, 2 * i + 2, w - right))
  {
    FindBounds(t, i);
  }

  /** A search that starts in a child ends below that child only. */
  lemma {:induction false} FindSide(t: Tree, i: nat, child: nat, w: int)
    requires Inv(t) && 0 <= w < Weight(t, child)
    requires child == 2 * i + 1 || child == 2 * i + 2
    ensures Find(t, child, w) > i
    ensures child == 2 * i + 1 ==> !Above(2 * i + 2, Find(t, child, w))
    ensures child == 2 * i + 2 ==> !Above(2 * i + 1, Find(t, child, w))
  {
    FindAbove(t, child, w);
    AboveParent(i, child, Find(t, child, w));
    AboveChildren(i, Find(t, child, w));
  }

  lemma {:induction false} StartBounds(t: Tree, i: nat, j: nat)
    requires Inv(t) && j < |t.infos| && Above(i, j)
    ensures 0 <= Start(t, i, j) && Start(t, i, j) + t.infos[j].txWeight.evictionWeight <= Weight(t, i)
    decreases |t.infos| - i
  {
    WeightSplits(t, i);
    WeightSplits(t, 2 * i + 1);
    WeightSplits(t, 2 * i + 2);
    AboveChildren(i, j);
    assert NodeOk(t, i);
    if i < j {
      StartBounds(t, if Above(2 * i + 1, j) then 2 * i + 1 else 2 * i + 2, j);
    }
  }

  /** Every transaction is chosen for exactly evictionWeight many of the random numbers. */
  lemma {:induction false} SelectionIsWeighted(t: Tree, j: nat)
    requires Inv(t) && j < |t.infos|
    ensures |Choices(t, j)| == t.infos[j].txWeight.evictionWeight
  {
    RootAbove(j);
    StartBounds(t, 0, j);
    assert NodeOk(t, j);
    var s, n := Start(t, 0, j), t.infos[j].txWeight.evictionWeight;
    forall w ensures w in Choices(t, j) <==> s <= w < s + n {
      if 0 <= w < Weight(t, 0) {
        FindInterval(t, 0, j, w);
      }
    }
    RangeSize(Choices(t, j), s, n);
  }

  ghost function Choices(t: Tree, j: nat): set<int>
    requires Inv(t)
  {
    set w | 0 <= w < Weight(t, 0) && Find(t, 0, w) == j
  }

  lemma {:induction false} RangeSize(s: set<int>, lo: int, n: nat)
    requires forall w :: w in s <==> lo <= w < lo + n
    ensures |s| == n
  {
    if n == 0 {
      assert forall w :: w !in s;
    } else {
      RangeSize(s - {lo + n - 1}, lo, n - 1);
    }
  }

  /** What maybeDropRandom is meant to do with random number rnd. */
  function DropRandom(t: Tree, capacity: int, rnd: nat): (r: (Tree, Option<Txid>))
    requires Inv(t) && capacity >= 0
  {
    if WeightAt(t, 0).cost <= capacity then (t, None)
    else
      OverLimitHasWeight(t);
      FindAbove(t, 0, rnd % Weight(t, 0));
      var drop := t.infos[Find(t, 0, rnd % Weight(t, 0))].txId;
      (Remove(t, drop), Some(drop))
  }

  lemma {:induction false} OverLimitHasWeight(t: Tree)
    requires Inv(t) && WeightAt(t, 0).cost > 0
    ensures Weight(t, 0) > 0
  {
    WeightSplits(t, 0);
    if t.infos == [] {
      WeightIsSubtree(t, 0);
    }
  }

  /** Nothing is dropped within the limit; over it exactly one held transaction is. */
  lemma {:induction false} DropRandomCorrect(t: Tree, capacity: int, rnd: nat)
    requires Inv(t) && capacity >= 0
    ensures var (t', dropped) := DropRandom(t, capacity, rnd);
            && Inv(t')
            && (dropped.None? <==> WeightAt(t, 0).cost <= capacity)
            && (dropped.None? ==> t' == t)
            && (dropped.Some? ==> dropped.value in Contents(t) && Contents(t') == Contents(t) - {dropped.value})
  {
    if WeightAt(t, 0).cost > capacity {
      OverLimitHasWeight(t);
      FindAbove(t, 0, rnd % Weight(t, 0));
      var i := Find(t, 0, rnd % Weight(t, 0));
      assert NodeOk(t, i);
      RemoveContents(t, t.infos[i].txId);
    }
  }

  //
  // The search as the source runs it, with int locals.
  //

  /**
  findByEvictionWeight, cut off after `fuel` calls.  Beyond the last node both weights are zero, and
  the search goes on for ever.
  */
  function Search(t: Tree, i: nat, w: int, fuel: nat): Option<nat>
    requires |t.infos| == |t.childWeights|
    decreases fuel
  {
    if fuel == 0 then None
    else
      var left := ToInt(Weight(t, 2 * i + 1));
      var right := ToInt(Weight(t, i) - Weight(t, 2 * i + 2));
      if w < left then Search(t, 2 * i + 1, w, fuel - 1)
      else if w < right then Some(i)
      else Search(t, 2 * i + 2, w - right, fuel - 1)
  }

  ghost predicate EndsAt(t: Tree, i: nat, w: int, j: nat)
    requires |t.infos| == |t.childWeights|
  {
    exists fuel: nat :: Search(t, i, w, fuel) == Some(j)
  }

  ghost predicate NeverEnds(t: Tree, i: nat, w: int)
    requires |t.infos| == |t.childWeights|
  {
    forall fuel: nat :: Search(t, i, w, fuel) == None
  }

  /** Where the search ends, or that it does not. */
  function IntFind(t: Tree, i: nat, w: int): Option<nat>
    requires |t.infos| == |t.childWeights|
    decreases if i < |t.infos| then |t.infos| - i else 0
  {
    if i >= |t.infos| then None
    else
      var left := ToInt(Weight(t, 2 * i + 1));
      var right := ToInt(Weight(t, i) - Weight(t, 2 * i + 2));
      if w < left then IntFind(t, 2 * i + 1, w)
      else if w < right then Some(i)
      else IntFind(t, 2 * i + 2, w - right)
  }

  lemma {:induction false} Beyond(t: Tree, i: nat, w: int, fuel: nat)
    requires |t.infos| == |t.childWeights| <= i
    ensures Search(t, i, w, fuel) == None
    decreases fuel
  {
    if fuel > 0 {
      Beyond(t, 2 * i + 1, w, fuel - 1);
      Beyond(t, 2 * i + 2, w, fuel - 1);
    }
  }

  lemma {:induction false} FuelSuffices(t: Tree, i: nat, w: int, fuel: nat)
    requires |t.infos| == |t.childWeights|
    ensures Search(t, i, w, fuel) == None || Search(t, i, w, fuel) == IntFind(t, i, w)
    ensures i + fuel >= |t.infos| ==> Search(t, i, w, fuel) == IntFind(t, i, w)
    decreases fuel
  {
    hide Weight;
    if i >= |t.infos| {
      Beyond(t, i, w, fuel);
    } else if fuel > 0 {
      var right := ToInt(Weight(t, i) - Weight(t, 2 * i + 2));
      FuelSuffices(t, 2 * i + 1, w, fuel - 1);
      FuelSuffices(t, 2 * i + 2, w - right, fuel - 1);
    }
  }

  /** IntFind says exactly where the search ends, for every tree and every number. */
  lemma IntFindIsSearch(t: Tree, i: nat, w: int)
    requires |t.infos| == |t.childWeights|
    ensures forall j: nat :: EndsAt(t, i, w, j) <==> IntFind(t, i, w) == Some(j)
    ensures NeverEnds(t, i, w) <==> IntFind(t, i, w) == None
  {
    hide Search;
    hide IntFind;
    forall fuel: nat ensures Search(t, i, w, fuel) == None || Search(t, i, w, fuel) == IntFind(t, i, w) {
      FuelSuffices(t, i, w, fuel);
    }
    FuelSuffices(t, i, w, |t.infos|);
  }

  lemma {:induction false} IntFindAbove(t: Tree, i: nat, w: int)
    requires |t.infos| == |t.childWeights|
    ensures IntFind(t, i, w).Some? ==> IntFind(t, i, w).value < |t.infos| && Above(i, IntFind(t, i, w).value)
    decreases if i < |t.infos| then |t.infos| - i else 0
  {
    hide Weight;
    if i < |t.infos| {
      var left := ToInt(Weight(t, 2 * i + 1));
      var right := ToInt(Weight(t, i) - Weight(t, 2 * i + 2));
      if w < left {
        IntFindAbove(t, 2 * i + 1, w);
        if IntFind(t, i, w).Some? {
          AboveParent(i, 2 * i + 1, IntFind(t, i, w).value);
        }
      } else if w >= right {
        IntFindAbove(t, 2 * i + 2, w - right);
        if IntFind(t, i, w).Some? {
          AboveParent(i, 2 * i + 2, IntFind(t, i, w).value);
        }
      }
    }
  }

  /** What is left of a node and the node itself together fit an int. */
  predicate Fits(t: Tree, i: nat)
    requires |t.infos| == |t.childWeights|
  {
    Weight(t, i) - Weight(t, 2 * i + 2) <= INT_MAX
  }

  ghost predicate AllFit(t: Tree)
    requires |t.infos| == |t.childWeights|
  {
    forall i: nat {:trigger Fits(t, i)} :: i < |t.infos| ==> Fits(t, i)
  }

  /** From node i on, the search for w ends at the weighted choice. */
  ghost predicate ExactAt(t: Tree, i: nat, w: int)
    requires Inv(t)
  {
    0 <= w < Weight(t, i) ==> IntFind(t, i, w) == Some(Find(t, i, w))
  }

  ghost predicate ExactFrom(t: Tree, i: nat)
    requires Inv(t)
  {
    forall w {:trigger ExactAt(t, i, w)} :: ExactAt(t, i, w)
  }

  lemma {:induction false} FitsExact(t: Tree, i: nat, w: int)
    requires Inv(t) && AllFit(t) && 0 <= w < Weight(t, i)
    ensures IntFind(t, i, w) == Some(Find(t, i, w))
    decreases |t.infos| - i
  {
    hide Weight;
    FindCases(t, i, w);
    assert Fits(t, i);
    var left, right := Weight(t, 2 * i + 1), Weight(t, i) - Weight(t, 2 * i + 2);
    InInt(left);
    InInt(right);
    if w < left {
      FitsExact(t, 2 * i + 1, w);
    } else if right <= w {
      FitsExact(t, 2 * i + 2, w - right);
    }
  }

  lemma InInt(x: int)
    requires 0 <= x <= INT_MAX
    ensures ToInt(x) == x
  {
  }

  lemma ToIntRange(x: int)
    ensures -0x8000_0000 <= ToInt(x) <= INT_MAX
  {
  }

  /** Where a node does not fit, INT_MAX is looked for on the right of it, and belongs on the left or to it. */
  lemma {:induction false} MisfitFails(t: Tree, i: nat)
    requires Inv(t) && i < |t.infos| && !Fits(t, i)
    ensures INT_MAX < Weight(t, i) && IntFind(t, i, INT_MAX) != Some(Find(t, i, INT_MAX))
  {
    hide Weight;
    hide Find;
    WeightSplits(t, i);
    WeightSplits(t, 2 * i + 2);
    var left, right := Weight(t, 2 * i + 1), Weight(t, i) - Weight(t, 2 * i + 2);
    ToIntRange(left);
    ToIntRange(right);
    FindCases(t, i, INT_MAX);
    IntFindAbove(t, 2 * i + 2, INT_MAX - ToInt(right));
    if IntFind(t, i, INT_MAX).Some? {
      var j := IntFind(t, i, INT_MAX).value;
      AboveChildren(i, j);
      AboveOrder(2 * i + 2, j);
      if INT_MAX < left {
        FindAbove(t, 2 * i + 1, INT_MAX);
      }
    }
  }

  lemma {:induction false} ExactRight(t: Tree, i: nat, child: nat)
    requires child == 2 * i + 2 && Inv(t) && i < |t.infos| && Fits(t, i) && ExactFrom(t, i)
    ensures ExactFrom(t, child)
  {
    hide Weight;
    hide Find;
    hide IntFind;
    var right := Weight(t, i) - Weight(t, 2 * i + 2);
    WeightSplits(t, i);
    WeightSplits(t, 2 * i + 1);
    assert NodeOk(t, i);
    forall v ensures ExactAt(t, child, v) {
      if 0 <= v < Weight(t, 2 * i + 2) {
        assert ExactAt(t, i, v + right);
        FindCases(t, i, v + right);
        IntFindRight(t, i, v + right);
      }
    }
  }

  lemma IntFindRight(t: Tree, i: nat, w: int)
    requires Inv(t) && i < |t.infos| && Fits(t, i) && Weight(t, i) - Weight(t, 2 * i + 2) <= w
    ensures IntFind(t, i, w) == IntFind(t, 2 * i + 2, w - (Weight(t, i) - Weight(t, 2 * i + 2)))
  {
    WeightSplits(t, i);
    WeightSplits(t, 2 * i + 1);
    assert NodeOk(t, i);
    InInt(Weight(t, 2 * i + 1));
    InInt(Weight(t, i) - Weight(t, 2 * i + 2));
  }

  /** Within a subtree on which the search is exact every node fits. */
  lemma {:induction false} ExactFits(t: Tree, i: nat, k: nat)
    requires Inv(t) && k < |t.infos| && Above(i, k) && ExactFrom(t, i)
    ensures Fits(t, k)
    decreases |t.infos| - i
  {
    AboveOrder(i, k);
    if !Fits(t, i) {
      assert ExactAt(t, i, INT_MAX);
      MisfitFails(t, i);
    }
    AboveChildren(i, k);
    if i < k && Above(2 * i + 2, k) {
      ExactRight(t, i, 2 * i + 2);
      ExactFits(t, 2 * i + 2, k);
    } else if i < k {
      SmallFits(t, i, k);
    }
  }

  /** Everything on the left of a node that fits, fits too. */
  lemma {:induction false} SmallFits(t: Tree, i: nat, k: nat)
    requires Inv(t) && i < |t.infos| && k < |t.infos| && Fits(t, i) && Above(2 * i + 1, k)
    ensures Fits(t, k)
  {
    WithinSubtree(t, 2 * i + 1, k);
    WeightSplits(t, i);
    WeightSplits(t, 2 * k + 2);
    assert NodeOk(t, i);
  }

  lemma {:induction false} WithinSubtree(t: Tree, i: nat, k: nat)
    requires Inv(t) && Above(i, k)
    ensures Weight(t, k) <= Weight(t, i)
    decreases k
  {
    if i < k {
      var p := (k - 1) / 2;
      WithinSubtree(t, i, p);
      WeightSplits(t, p);
      WeightSplits(t, 2 * p + 1);
      WeightSplits(t, 2 * p + 2);
      if p < |t.infos| {
        assert NodeOk(t, p);
      }
    }
  }

  /**
  The search ends at the weighted choice for every number below the total exactly if every node's left
  subtree and the node itself together fit an int.
  */
  lemma SearchIsExactIff(t: Tree)
    requires Inv(t)
    ensures (forall w {:trigger EndsRight(t, w, w)} :: EndsRight(t, w, w)) <==> AllFit(t)
  {
    hide IntFind;
    hide Find;
    hide EndsAt;
    hide AllFit;
    forall w ensures EndsRight(t, w, w) <==> ExactAt(t, 0, w) {
      IntFindIsSearch(t, 0, w);
    }
    if AllFit(t) {
      forall w ensures ExactAt(t, 0, w) {
        if 0 <= w < Weight(t, 0) {
          FitsExact(t, 0, w);
        }
      }
    }
    if ExactFrom(t, 0) {
      AllFitIf(t);
    }
  }

  /** The search for w ends at the weighted choice for r. */
  ghost predicate EndsRight(t: Tree, r: int, w: int)
    requires Inv(t)
  {
    0 <= r < Weight(t, 0) ==> EndsAt(t, 0, w, Find(t, 0, r))
  }

  lemma AllFitIf(t: Tree)
    requires Inv(t) && ExactFrom(t, 0)
    ensures AllFit(t)
  {
    hide ExactFrom;
    hide Fits;
    forall k: nat | k < |t.infos| ensures Fits(t, k) {
      RootAbove(k);
      ExactFits(t, 0, k);
    }
  }

  //
  // maybeDropRandom, whose random number is an int as well.
  //

  /** Whether maybeDropRandom chooses by weight; both conditions are about the totals that it has at hand. */
  predicate IntSafe(t: Tree)
    requires |t.infos| == |t.childWeights|
  {
    Weight(t, 0) <= 0x8000_0000 && Fits(t, 0)
  }

  lemma SafeFits(t: Tree)
    requires Inv(t) && IntSafe(t)
    ensures AllFit(t)
  {
    forall k: nat | k < |t.infos| ensures Fits(t, k) {
      RootAbove(k);
      WeightSplits(t, 0);
      WeightSplits(t, 1);
      WeightSplits(t, 2);
      if k > 0 {
        assert NodeOk(t, 0);
        AboveChildren(0, k);
        WithinSubtree(t, if Above(1, k) then 1 else 2, k);
        WeightSplits(t, 2 * k + 2);
      }
    }
  }

  /** A negative number is looked for on the left for ever. */
  lemma {:induction false} NegativeNeverEnds(t: Tree, i: nat, w: int)
    requires Inv(t) && w < 0 && (i < |t.infos| ==> Weight(t, i) <= INT_MAX)
    ensures IntFind(t, i, w) == None
    decreases if i < |t.infos| then |t.infos| - i else 0
  {
    hide Weight;
    if i < |t.infos| {
      WeightSplits(t, i);
      WeightSplits(t, 2 * i + 1);
      WeightSplits(t, 2 * i + 2);
      assert NodeOk(t, i);
      InInt(Weight(t, 2 * i + 1));
      NegativeNeverEnds(t, 2 * i + 1, w);
    }
  }

  /** Every number below the total, turned into an int, leads to its weighted choice. */
  ghost predicate ChoosesByWeight(t: Tree)
    requires Inv(t)
  {
    forall r {:trigger EndsRight(t, r, ToInt(r))} :: EndsRight(t, r, ToInt(r))
  }

  lemma ChoosesByWeightIff(t: Tree)
    requires Inv(t)
    ensures ChoosesByWeight(t) <==> IntSafe(t)
  {
    hide IntFind;
    hide Find;
    hide EndsAt;
    WeightSplits(t, 0);
    WeightSplits(t, 2);
    if IntSafe(t) {
      SafeFits(t);
      forall r ensures EndsRight(t, r, ToInt(r)) {
        if 0 <= r < Weight(t, 0) {
          InInt(r);
          FitsExact(t, 0, r);
          IntFindIsSearch(t, 0, r);
        }
      }
    } else if !Fits(t, 0) {
      MisfitFails(t, 0);
      InInt(INT_MAX);
      IntFindIsSearch(t, 0, INT_MAX);
      assert !EndsRight(t, INT_MAX, ToInt(INT_MAX));
    } else {
      LeftForEver(t);
      var r := 0x8000_0000;
      assert ToInt(r) == -0x8000_0000;
      IntFindIsSearch(t, 0, ToInt(r));
      assert !EndsRight(t, r, ToInt(r));
    }
  }

  lemma LeftForEver(t: Tree)
    requires Inv(t) && t.infos != [] && Fits(t, 0)
    ensures IntFind(t, 0, -0x8000_0000) == None
  {
    WeightSplits(t, 0);
    WeightSplits(t, 1);
    assert NodeOk(t, 0);
    InInt(Weight(t, 1));
    NegativeNeverEnds(t, 1, -0x8000_0000);
  }

  /** Trees that fail: with one transaction of eviction weight 2^31, no search ever ends. */
  lemma HangingTree(x: Info)
    requires Weighted(x) && x.txWeight.evictionWeight == 0x8000_0000
    ensures Inv(Add(EMPTY, x))
    ensures forall w :: NeverEnds(Add(EMPTY, x), 0, w)
  {
    hide Add;
    hide Inv;
    hide Weight;
    hide IntFind;
    hide Search;
    hide NeverEnds;
    EmptyInv();
    AddKeeps(EMPTY, x);
    OneNode(x);
    forall w ensures NeverEnds(Add(EMPTY, x), 0, w) {
      OneNodeHangs(Add(EMPTY, x), w);
      NeverEndsIf(Add(EMPTY, x), 0, w);
    }
  }

  lemma NeverEndsIf(t: Tree, i: nat, w: int)
    requires |t.infos| == |t.childWeights| && IntFind(t, i, w) == None
    ensures NeverEnds(t, i, w)
  {
    hide Search;
    hide IntFind;
    IntFindIsSearch(t, i, w);
  }

  lemma OneNode(x: Info)
    ensures var t := Add(EMPTY, x);
            && |t.infos| == |t.childWeights| == 1
            && Weight(t, 0) == x.txWeight.evictionWeight && Weight(t, 1) == 0 && Weight(t, 2) == 0
  {
  }

  lemma OneNodeHangs(t: Tree, w: int)
    requires |t.infos| == |t.childWeights| == 1
    requires Weight(t, 0) == 0x8000_0000 && Weight(t, 1) == 0 && Weight(t, 2) == 0
    ensures IntFind(t, 0, w) == None
  {
    hide Weight;
    assert ToInt(0) == 0 && ToInt(0x8000_0000) == -0x8000_0000;
  }

  lemma EmptyInv()
    ensures Inv(EMPTY)
  {
  }

  /** The outcome of maybeDropRandom, which may also be that it does not return. */
  datatype Outcome = Kept | Dropped(txId: Txid) | Hangs

  /** maybeDropRandom as the source runs it, with random number rnd. */
  function DropInt(t: Tree, capacity: int, rnd: nat): (r: (Tree, Outcome))
    requires Inv(t) && capacity >= 0
  {
    if WeightAt(t, 0).cost <= capacity then (t, Kept)
    else
      OverLimitHasWeight(t);
      var found := IntFind(t, 0, ToInt(rnd % Weight(t, 0)));
      IntFindAbove(t, 0, ToInt(rnd % Weight(t, 0)));
      if found == None then (t, Hangs)
      else (Remove(t, t.infos[found.value].txId), Dropped(t.infos[found.value].txId))
  }

  /** Whatever it chooses, maybeDropRandom takes out at most one held transaction, and that only over the limit. */
  lemma {:induction false} DropIntCorrect(t: Tree, capacity: int, rnd: nat)
    requires Inv(t) && capacity >= 0
    ensures var (t', o) := DropInt(t, capacity, rnd);
            && Inv(t')
            && (o.Kept? <==> WeightAt(t, 0).cost <= capacity)
            && (!o.Dropped? ==> t' == t)
            && (o.Dropped? ==> o.txId in Contents(t) && Contents(t') == Contents(t) - {o.txId})
  {
    if DropInt(t, capacity, rnd).1.Dropped? {
      OverLimitHasWeight(t);
      IntFindAbove(t, 0, ToInt(rnd % Weight(t, 0)));
      var i := IntFind(t, 0, ToInt(rnd % Weight(t, 0))).value;
      assert NodeOk(t, i);
      RemoveContents(t, t.infos[i].txId);
    }
  }

  /** Where IntSafe holds, maybeDropRandom does what it is meant to do. */
  lemma DropIntIsDropRandom(t: Tree, capacity: int, rnd: nat)
    requires Inv(t) && capacity >= 0 && IntSafe(t)
    ensures var (t', o) := DropInt(t, capacity, rnd);
            !o.Hangs? && DropRandom(t, capacity, rnd) == (t', if o.Dropped? then Some(o.txId) else None)
  {
    if WeightAt(t, 0).cost > capacity {
      OverLimitHasWeight(t);
      var r := rnd % Weight(t, 0);
      SafeFits(t);
      WeightSplits(t, 0);
      InInt(r);
      FitsExact(t, 0, r);
    }
  }

  //
  // Every run.
  //

  datatype Op = AddOp(info: Info) | RemoveOp(txId: Txid) | DropOp(rnd: nat)

  /** Weights are as From gives them, and a run ends where maybeDropRandom does not return. */
  predicate Allowed(t: Tree, capacity: nat, op: Op)
    requires Inv(t)
  {
    match op
    case AddOp(x) => Weighted(x)
    case RemoveOp(_) => true
    case DropOp(rnd) => !DropInt(t, capacity, rnd).1.Hangs?
  }

  function Step(t: Tree, capacity: nat, op: Op): Tree
    requires Inv(t)
  {
    match op
    case AddOp(x) => Add(t, x)
    case RemoveOp(x) => Remove(t, x)
    case DropOp(rnd) => DropInt(t, capacity, rnd).0
  }

  ghost predicate Reaches(t: Tree, capacity: nat, ops: seq<Op>, t': Tree)
    decreases |ops|
  {
    if ops == [] then t' == t
    else Inv(t) && Allowed(t, capacity, ops[0]) && Reaches(Step(t, capacity, ops[0]), capacity, ops[1..], t')
  }

  lemma {:induction false} StepKeeps(t: Tree, capacity: nat, op: Op)
    requires Inv(t) && Allowed(t, capacity, op)
    ensures Inv(Step(t, capacity, op))
  {
    match op
    case AddOp(x) => AddKeeps(t, x);
    case RemoveOp(x) => RemoveKeeps(t, x);
    case DropOp(rnd) => DropIntCorrect(t, capacity, rnd);
  }

  /** After any sequence of operations on an empty tree the sums and the index are exact. */
  lemma {:induction false} RunKeeps(t: Tree, capacity: nat, ops: seq<Op>, t': Tree)
    requires Inv(t) && Reaches(t, capacity, ops, t')
    ensures Inv(t')
    decreases |ops|
  {
    if ops != [] {
      StepKeeps(t, capacity, ops[0]);
      RunKeeps(Step(t, capacity, ops[0]), capacity, ops[1..], t');
    }
  }

  //
  // The mempool adds only what From gives, and only while the cost is within the limit, because
  // AcceptToMemoryPool ends with EnsureSizeLimit (src/main.cpp:1592, src/txmempool.cpp:840-849).
  //

  predicate Configured(t: Tree, capacity: nat, maxCost: nat, op: Op)
    requires |t.infos| == |t.childWeights|
  {
    op.AddOp? ==> Weighted(op.info) && Priced(op.info) && op.info.txWeight.cost <= maxCost && WeightAt(t, 0).cost <= capacity
  }

  ghost predicate ConfiguredRun(t: Tree, capacity: nat, maxCost: nat, ops: seq<Op>, t': Tree)
    decreases |ops|
  {
    if ops == [] then t' == t
    else Inv(t) && Configured(t, capacity, maxCost, ops[0])
         && ConfiguredRun(Step(t, capacity, ops[0]), capacity, maxCost, ops[1..], t')
  }

  ghost predicate AllPriced(t: Tree) {
    forall i :: 0 <= i < |t.infos| ==> Priced(t.infos[i])
  }

  /** The cost stays within the limit and one transaction, and every transaction is priced. */
  ghost predicate WithinBounds(t: Tree, bound: nat)
    requires |t.infos| == |t.childWeights|
  {
    AllPriced(t) && WeightAt(t, 0).cost <= bound
  }

  lemma {:induction false} PricedTotal(xs: seq<Info>, k: nat)
    requires k <= |xs| && forall i :: 0 <= i < |xs| ==> Priced(xs[i])
    ensures SumAll(Eviction, xs, k) <= 5 * SumAll(Cost, xs, k)
  {
    if k > 0 {
      PricedTotal(xs, k - 1);
    }
  }

  lemma BoundsAreSafe(t: Tree, bound: nat)
    requires Inv(t) && WithinBounds(t, bound) && 5 * bound <= INT_MAX
    ensures IntSafe(t)
  {
    TotalIsSum(t);
    PricedTotal(t.infos, |t.infos|);
    WeightSplits(t, 0);
    WeightSplits(t, 2);
  }

  /** Adding adds exactly the new weight to the total. */
  lemma AddTotal(t: Tree, x: Info)
    requires Inv(t) && Weighted(x)
    ensures Inv(Add(t, x))
    ensures WeightAt(Add(t, x), 0) == if x.txId in t.index then WeightAt(t, 0) else WeightAt(t, 0).Add(x.txWeight)
  {
    AddKeeps(t, x);
    WeightIsSubtree(t, 0);
    WeightIsSubtree(Add(t, x), 0);
    SubtreeAppend(t.infos, x, 0);
    RootAbove(|t.infos|);
  }

  /** Removing takes exactly the weight of the removed transaction off the total. */
  lemma RemoveTotal(t: Tree, txId: Txid)
    requires Inv(t)
    ensures Inv(Remove(t, txId))
    ensures WeightAt(t, 0) == if txId in Contents(t) then WeightAt(Remove(t, txId), 0).Add(Contents(t)[txId]) else WeightAt(Remove(t, txId), 0)
  {
    RemoveKeeps(t, txId);
    if txId in t.index {
      assert IndexOk(t, txId);
      var at, last := t.index[txId], |t.infos| - 1;
      WeightIsSubtree(t, 0);
      WeightIsSubtree(Remove(t, txId), 0);
      RootAbove(at);
      RootAbove(last);
      SubtreeAppend(t.infos[..last], t.infos[last], 0);
      assert t.infos == t.infos[..last] + [t.infos[last]];
      if at < last {
        SubtreeUpdate(t.infos[..last], 0, at, t.infos[last]);
        assert t.infos[at := t.infos[last]][..last] == t.infos[..last][at := t.infos[last]];
      }
    }
  }

  lemma RemoveBounds(t: Tree, txId: Txid, bound: nat)
    requires Inv(t) && WithinBounds(t, bound)
    ensures Inv(Remove(t, txId)) && WithinBounds(Remove(t, txId), bound)
  {
    RemoveTotal(t, txId);
    if txId in t.index {
      assert IndexOk(t, txId);
      assert NodeOk(t, t.index[txId]);
    }
  }

  lemma {:induction false} ConfiguredStep(t: Tree, capacity: nat, maxCost: nat, op: Op)
    requires Inv(t) && WithinBounds(t, capacity + maxCost) && Configured(t, capacity, maxCost, op)
    requires 5 * (capacity + maxCost) <= INT_MAX
    ensures Allowed(t, capacity, op)
    ensures Inv(Step(t, capacity, op)) && WithinBounds(Step(t, capacity, op), capacity + maxCost)
  {
    BoundsAreSafe(t, capacity + maxCost);
    match op
    case AddOp(x) => AddTotal(t, x);
    case RemoveOp(x) => RemoveBounds(t, x, capacity + maxCost);
    case DropOp(rnd) =>
      DropIntIsDropRandom(t, capacity, rnd);
      var o := DropInt(t, capacity, rnd).1;
      if o.Dropped? {
        RemoveBounds(t, o.txId, capacity + maxCost);
      }
  }

  /** In every run of the mempool the int locals suffice, if five times the limit and one transaction fit an int. */
  lemma {:induction false} ConfiguredIsSafe(t: Tree, capacity: nat, maxCost: nat, ops: seq<Op>, t': Tree)
    requires Inv(t) && WithinBounds(t, capacity + maxCost) && 5 * (capacity + maxCost) <= INT_MAX
    requires ConfiguredRun(t, capacity, maxCost, ops, t')
    ensures Inv(t') && IntSafe(t') && ChoosesByWeight(t')
    decreases |ops|
  {
    if ops == [] {
      BoundsAreSafe(t, capacity + maxCost);
      ChoosesByWeightIff(t);
    } else {
      ConfiguredStep(t, capacity, maxCost, ops[0]);
      ConfiguredIsSafe(Step(t, capacity, ops[0]), capacity, maxCost, ops[1..], t');
    }
  }

  /** So it is with the default limit, for transactions of up to 349 megabytes. */
  lemma DefaultIsSafe(maxCost: nat, ops: seq<Op>, t: Tree)
    requires maxCost <= 349_000_000 && ConfiguredRun(EMPTY, 80_000_000, maxCost, ops, t)
    ensures Inv(t) && ChoosesByWeight(t)
  {
    EmptyInv();
    ConfiguredIsSafe(EMPTY, 80_000_000, maxCost, ops, t);
  }

  lemma {:induction false} ConfiguredLast(t: Tree, capacity: nat, maxCost: nat, ops: seq<Op>, t': Tree, op: Op)
    requires ConfiguredRun(t, capacity, maxCost, ops, t') && Inv(t') && Configured(t', capacity, maxCost, op)
    ensures ConfiguredRun(t, capacity, maxCost, ops + [op], Step(t', capacity, op))
    decreases |ops|
  {
    hide Step;
    hide Configured;
    if ops == [] {
      assert ([] + [op])[1..] == [];
      assert ConfiguredRun(Step(t', capacity, op), capacity, maxCost, [], Step(t', capacity, op));
    } else {
      assert (ops + [op])[0] == ops[0] && (ops + [op])[1..] == ops[1..] + [op];
      ConfiguredLast(Step(t, capacity, ops[0]), capacity, maxCost, ops[1..], t', op);
    }
  }

  /** A pool of n small transactions that pay less than the usual fee, which a large enough cost limit admits. */
  lemma {:induction false} ManySmall(n: nat, capacity: nat) returns (ops: seq<Op>, t: Tree)
    requires MIN_TX_COST * n <= capacity
    ensures ConfiguredRun(EMPTY, capacity, MIN_TX_COST, ops, t) && Inv(t)
    ensures WeightAt(t, 0) == TxWeight(MIN_TX_COST * n, (MIN_TX_COST + LOW_FEE_PENALTY) * n)
    ensures forall x :: x in t.index ==> x < n
    decreases n
  {
    EmptyInv();
    if n == 0 {
      ops, t := [], EMPTY;
    } else {
      var before, t0 := ManySmall(n - 1, capacity);
      var x := From(n - 1, MIN_TX_COST, 0);
      hide Inv;
      AddTotal(t0, x);
      ConfiguredLast(EMPTY, capacity, MIN_TX_COST, before, t0, AddOp(x));
      ops, t := before + [AddOp(x)], Add(t0, x);
    }
  }

  /** With a cost limit of 429500000 there is a run after which maybeDropRandom does not choose by weight. */
  lemma LargeLimitFails() returns (ops: seq<Op>, t: Tree)
    ensures ConfiguredRun(EMPTY, 429_500_000, MIN_TX_COST, ops, t) && Inv(t) && !ChoosesByWeight(t)
  {
    ops, t := ManySmall(107_375, 429_500_000);
    hide Inv;
    hide ConfiguredRun;
    ChoosesByWeightIff(t);
  }

  //
  // EnsureSizeLimit: with a transaction goes what the pool removes along with it, here `also`.
  //

  function RemoveAll(t: Tree, txIds: seq<Txid>): (r: Tree)
    requires Inv(t)
    ensures Inv(r) && |r.infos| <= |t.infos|
    decreases |txIds|
  {
    if txIds == [] then t
    else
      RemoveKeeps(t, txIds[0]);
      RemoveSize(t, txIds[0]);
      RemoveAll(Remove(t, txIds[0]), txIds[1..])
  }

  lemma RemoveSize(t: Tree, txId: Txid)
    requires Inv(t)
    ensures |Remove(t, txId).infos| == if txId in t.index then |t.infos| - 1 else |t.infos|
  {
    if txId in t.index {
      assert IndexOk(t, txId);
    }
  }

  /** One pass of the loop: what is left, and what was dropped. */
  function LimitStep(t: Tree, capacity: nat, rnd: nat, also: Txid -> seq<Txid>): (r: (Tree, Outcome))
    requires Inv(t)
    ensures Inv(r.0) && (r.1.Dropped? ==> |r.0.infos| < |t.infos|)
  {
    DropIntCorrect(t, capacity, rnd);
    var (t', o) := DropInt(t, capacity, rnd);
    if o.Dropped? then
      DroppedSize(t, capacity, rnd);
      (RemoveAll(t', also(o.txId)), o)
    else (t, o)
  }

  /** The tree and the transactions dropped, with random number n first. */
  function Limited(t: Tree, capacity: nat, rnd: nat -> nat, n: nat, also: Txid -> seq<Txid>): (r: (Tree, seq<Txid>))
    requires Inv(t)
    ensures Inv(r.0)
    decreases |t.infos|
  {
    var (t', o) := LimitStep(t, capacity, rnd(n), also);
    if !o.Dropped? then (t, [])
    else
      var (t'', rest) := Limited(t', capacity, rnd, n + 1, also);
      (t'', [o.txId] + rest)
  }

  /** The tree after i passes. */
  function AfterPasses(t: Tree, capacity: nat, rnd: nat -> nat, n: nat, also: Txid -> seq<Txid>, i: nat): (r: Tree)
    requires Inv(t)
    ensures Inv(r)
    decreases i
  {
    if i == 0 then t else AfterPasses(LimitStep(t, capacity, rnd(n), also).0, capacity, rnd, n + 1, also, i - 1)
  }

  /**
  Eviction goes on exactly as long as the cost exceeds the limit: before each eviction it does, and what is evicted
  is held then; at the end it does not, or the search does not return.
  */
  lemma {:induction false} LimitedOnlyOver(t: Tree, capacity: nat, rnd: nat -> nat, n: nat, also: Txid -> seq<Txid>, i: nat)
    requires Inv(t) && i <= |Limited(t, capacity, rnd, n, also).1|
    ensures var t', evicted := AfterPasses(t, capacity, rnd, n, also, i), Limited(t, capacity, rnd, n, also).1;
            if i < |evicted| then WeightAt(t', 0).cost > capacity && evicted[i] in Contents(t')
            else t' == Limited(t, capacity, rnd, n, also).0
                 && (WeightAt(t', 0).cost <= capacity || DropInt(t', capacity, rnd(n + i)).1.Hangs?)
    decreases i
  {
    hide NodeOk;
    hide IndexOk;
    hide WeightAt;
    hide LimitStep;
    var t1, o := LimitStep(t, capacity, rnd(n), also).0, LimitStep(t, capacity, rnd(n), also).1;
    LimitStepOver(t, capacity, rnd(n), also);
    if i > 0 {
      assert o.Dropped?;
      LimitedOnlyOver(t1, capacity, rnd, n + 1, also, i - 1);
      assert Limited(t, capacity, rnd, n, also).1 == [o.txId] + Limited(t1, capacity, rnd, n + 1, also).1;
    }
  }

  lemma LimitStepIs(t: Tree, capacity: nat, rnd: nat, also: Txid -> seq<Txid>)
    requires Inv(t)
    ensures Inv(DropInt(t, capacity, rnd).0)
    ensures var (t', o) := DropInt(t, capacity, rnd);
            LimitStep(t, capacity, rnd, also) == if o.Dropped? then (RemoveAll(t', also(o.txId)), o) else (t, o)
  {
    hide NodeOk;
    hide IndexOk;
    hide DropInt;
    hide RemoveAll;
    DropIntCorrect(t, capacity, rnd);
  }

  lemma LimitStepOver(t: Tree, capacity: nat, rnd: nat, also: Txid -> seq<Txid>)
    requires Inv(t)
    ensures var o := LimitStep(t, capacity, rnd, also).1;
            && o == DropInt(t, capacity, rnd).1
            && (if o.Dropped? then WeightAt(t, 0).cost > capacity && o.txId in Contents(t)
                else WeightAt(t, 0).cost <= capacity || o.Hangs?)
  {
    hide NodeOk;
    hide IndexOk;
    hide DropInt;
    hide RemoveAll;
    DropIntCorrect(t, capacity, rnd);
  }

  ghost predicate Shrunk(t: Tree, t': Tree)
    requires Inv(t) && Inv(t')
  {
    forall x {:trigger x in Contents(t')} :: x in Contents(t') ==> x in Contents(t) && Contents(t')[x] == Contents(t)[x]
  }

  lemma {:induction false} RemoveAllShrinks(t: Tree, txIds: seq<Txid>, bound: nat)
    requires Inv(t)
    ensures Shrunk(t, RemoveAll(t, txIds)) && (WithinBounds(t, bound) ==> WithinBounds(RemoveAll(t, txIds), bound))
    decreases |txIds|
  {
    hide NodeOk;
    hide IndexOk;
    hide WithinBounds;
    if txIds != [] {
      RemoveContents(t, txIds[0]);
      if WithinBounds(t, bound) {
        RemoveBounds(t, txIds[0], bound);
      }
      RemoveAllShrinks(Remove(t, txIds[0]), txIds[1..], bound);
    }
  }

  lemma LimitStepShrinks(t: Tree, capacity: nat, rnd: nat, also: Txid -> seq<Txid>, bound: nat)
    requires Inv(t)
    ensures var (t', o) := LimitStep(t, capacity, rnd, also);
            && Shrunk(t, t') && (WithinBounds(t, bound) ==> WithinBounds(t', bound))
            && (o.Dropped? ==> o.txId in Contents(t) && o.txId !in Contents(t'))
            && (WithinBounds(t, bound) && 5 * bound <= INT_MAX ==> !o.Hangs?)
  {
    hide NodeOk;
    hide IndexOk;
    hide WithinBounds;
    hide RemoveAll;
    DropIntCorrect(t, capacity, rnd);
    var (t1, o) := DropInt(t, capacity, rnd);
    if WithinBounds(t, bound) && 5 * bound <= INT_MAX {
      BoundsAreSafe(t, bound);
      DropIntIsDropRandom(t, capacity, rnd);
    }
    if o.Dropped? {
      RemoveAllShrinks(t1, also(o.txId), bound);
      if WithinBounds(t, bound) {
        RemoveBounds(t, o.txId, bound);
      }
    }
  }

  /** What is left was there before, what is evicted was there and is gone, and within the bounds the end is within the limit. */
  lemma {:induction false} LimitedShrinks(t: Tree, capacity: nat, rnd: nat -> nat, n: nat, also: Txid -> seq<Txid>, bound: nat)
    requires Inv(t) && WithinBounds(t, bound) && 5 * bound <= INT_MAX
    ensures var (t', evicted) := Limited(t, capacity, rnd, n, also);
            && Shrunk(t, t') && WeightAt(t', 0).cost <= capacity
            && (forall i :: 0 <= i < |evicted| ==> evicted[i] in Contents(t) && evicted[i] !in Contents(t'))
    decreases |t.infos|
  {
    hide NodeOk;
    hide IndexOk;
    hide WithinBounds;
    hide DropInt;
    LimitStepShrinks(t, capacity, rnd(n), also, bound);
    DropIntCorrect(t, capacity, rnd(n));
    var (t1, o) := LimitStep(t, capacity, rnd(n), also);
    if o.Dropped? {
      LimitedShrinks(t1, capacity, rnd, n + 1, also, bound);
      var (t', evicted) := Limited(t, capacity, rnd, n, also);
      forall i | 0 <= i < |evicted| ensures evicted[i] in Contents(t) && evicted[i] !in Contents(t') {
        if i > 0 {
          assert evicted[i] == Limited(t1, capacity, rnd, n + 1, also).1[i - 1];
        }
      }
    }
  }

  //
  // The object of the source.
  //

  class WeightedTxTree {
    const capacity: nat
    var size: nat
    var txIdAndWeights: seq<Info>
    var childWeights: seq<TxWeight>
    var txIdToIndexMap: map<Txid, nat>

    function Value(): Tree
      reads this
    {
      Tree(txIdAndWeights, childWeights, txIdToIndexMap)
    }

    ghost predicate Valid()
      reads this
    {
      Inv(Value()) && size == |txIdAndWeights|
    }

    constructor (capacity: nat)
      ensures Valid() && Value() == EMPTY && this.capacity == capacity
    {
      this.capacity := capacity;
      size, txIdAndWeights, childWeights, txIdToIndexMap := 0, [], [], map[];
    }

    method Propagate(fromIndex: nat, weightDelta: TxWeight)
      requires fromIndex <= |childWeights|
      modifies this`childWeights
      ensures childWeights == BackPropagate(old(childWeights), fromIndex, weightDelta)
    {
      var from: nat := fromIndex;
      while from > 0
        invariant 0 <= from <= |childWeights| == |old(childWeights)|
        invariant BackPropagate(childWeights, from, weightDelta) == BackPropagate(old(childWeights), fromIndex, weightDelta)
      {
        from := (from - 1) / 2;
        childWeights := childWeights[from := childWeights[from].Add(weightDelta)];
      }
    }

    method AddTx(x: Info)
      requires Valid() && Weighted(x)
      modifies this
      ensures Valid() && Value() == Add(old(Value()), x)
    {
      AddKeeps(Value(), x);
      if x.txId in txIdToIndexMap {
        return;
      }
      txIdAndWeights := txIdAndWeights + [x];
      childWeights := childWeights + [ZERO];
      txIdToIndexMap := txIdToIndexMap[x.txId := size];
      Propagate(size, x.txWeight);
      size := size + 1;
    }

    /** Fill the hole at removeIndex with the last entry, which `size` now points at. */
    method MoveLast(removeIndex: nat)
      requires removeIndex < size < |txIdAndWeights| == |childWeights|
      modifies this
      ensures size == old(size)
      ensures txIdAndWeights == old(txIdAndWeights)[removeIndex := old(txIdAndWeights)[size]]
      ensures txIdToIndexMap == old(txIdToIndexMap)[old(txIdAndWeights)[size].txId := removeIndex]
      ensures childWeights == BackPropagate(old(childWeights), removeIndex,
                old(txIdAndWeights)[size].txWeight.Add(old(txIdAndWeights)[removeIndex].txWeight.Negate()))
    {
      var weightDelta := txIdAndWeights[size].txWeight.Add(txIdAndWeights[removeIndex].txWeight.Negate());
      txIdAndWeights := txIdAndWeights[removeIndex := txIdAndWeights[size]];
      txIdToIndexMap := txIdToIndexMap[txIdAndWeights[removeIndex].txId := removeIndex];
      Propagate(removeIndex, weightDelta);
    }

    method RemoveTx(txId: Txid)
      requires Valid()
      modifies this
      ensures Valid() && Value() == Remove(old(Value()), txId)
    {
      ghost var t := Value();
      RemoveKeeps(t, txId);
      if txId !in txIdToIndexMap {
        return;
      }
      assert IndexOk(t, txId);
      var removeIndex := txIdToIndexMap[txId];
      size := size - 1;
      Propagate(size, txIdAndWeights[size].txWeight.Negate());
      if removeIndex < size {
        MoveLast(removeIndex);
      }
      txIdToIndexMap := txIdToIndexMap - {txId};
      txIdAndWeights := txIdAndWeights[..|txIdAndWeights| - 1];
      childWeights := childWeights[..|childWeights| - 1];
    }

    /** findByEvictionWeight; no result stands for a search that does not end. */
    method FindByEvictionWeight(fromIndex: nat, weightToFind: int) returns (r: Option<nat>)
      requires Valid()
      ensures r == IntFind(Value(), fromIndex, weightToFind)
      ensures r.None? ==> NeverEnds(Value(), fromIndex, weightToFind)
      ensures r.Some? ==> r.value < size && EndsAt(Value(), fromIndex, weightToFind, r.value)
      decreases if fromIndex < size then size - fromIndex else 0
    {
      hide NodeOk;
      hide IndexOk;
      hide EndsAt;
      hide NeverEnds;
      hide Weight;
      IntFindIsSearch(Value(), fromIndex, weightToFind);
      IntFindAbove(Value(), fromIndex, weightToFind);
      hide Above;
      if fromIndex >= size {
        return None;
      }
      var leftWeight := ToInt(Weight(Value(), fromIndex * 2 + 1));
      var rightWeight := ToInt(Weight(Value(), fromIndex) - Weight(Value(), fromIndex * 2 + 2));
      if weightToFind < leftWeight {
        r := FindByEvictionWeight(fromIndex * 2 + 1, weightToFind);
      } else if weightToFind < rightWeight {
        r := Some(fromIndex);
      } else {
        r := FindByEvictionWeight(fromIndex * 2 + 2, weightToFind - rightWeight);
      }
    }

    method MaybeDropRandom(rnd: nat) returns (outcome: Outcome)
      requires Valid()
      modifies this
      ensures Valid() && (Value(), outcome) == DropInt(old(Value()), capacity, rnd)
      ensures IntSafe(old(Value())) ==>
                DropRandom(old(Value()), capacity, rnd) == (Value(), if outcome.Dropped? then Some(outcome.txId) else None)
      ensures !outcome.Kept? <==> WeightAt(old(Value()), 0).cost > capacity
      ensures !outcome.Hangs? || !IntSafe(old(Value()))
    {
      ghost var t := Value();
      if IntSafe(t) {
        DropIntIsDropRandom(t, capacity, rnd);
      }
      var total := WeightAt(Value(), 0);
      if total.cost <= capacity {
        return Kept;
      }
      OverLimitHasWeight(t);
      var randomWeight := ToInt(rnd % total.evictionWeight);
      var found := FindByEvictionWeight(0, randomWeight);
      if found == None {
        return Hangs;
      }
      var drop := txIdAndWeights[found.value];
      RemoveTx(drop.txId);
      return Dropped(drop.txId);
    }

    method RemoveTogether(txIds: seq<Txid>)
      requires Valid()
      modifies this
      ensures Valid() && Value() == RemoveAll(old(Value()), txIds)
    {
      hide Inv;
      hide Remove;
      ghost var t0 := Value();
      assert txIds[0..] == txIds;
      for i := 0 to |txIds|
        invariant Valid() && RemoveAll(Value(), txIds[i..]) == RemoveAll(t0, txIds)
      {
        assert txIds[i..][1..] == txIds[i + 1..];
        RemoveTx(txIds[i]);
      }
    }

    /** One pass of the loop of EnsureSizeLimit. */
    method DropTogether(rnd: nat, also: Txid -> seq<Txid>) returns (outcome: Outcome)
      requires Valid()
      modifies this
      ensures Valid() && (Value(), outcome) == LimitStep(old(Value()), capacity, rnd, also)
    {
      hide NodeOk;
      hide IndexOk;
      hide DropInt;
      hide LimitStep;
      hide RemoveAll;
      LimitStepIs(Value(), capacity, rnd, also);
      DropIntCorrect(Value(), capacity, rnd);
      outcome := MaybeDropRandom(rnd);
      if outcome.Dropped? {
        RemoveTogether(also(outcome.txId));
      }
    }

    /** EnsureSizeLimit (src/txmempool.cpp:840-849) on the tree: drop at random until the cost is within the limit. */
    method EnsureSizeLimit(rnd: nat -> nat, also: Txid -> seq<Txid>, ghost bound: nat) returns (evicted: seq<Txid>)
      requires Valid() && WithinBounds(Value(), bound) && 5 * bound <= INT_MAX
      modifies this
      ensures Valid() && (Value(), evicted) == Limited(old(Value()), capacity, rnd, 0, also)
      ensures WeightAt(Value(), 0).cost <= capacity
    {
      hide NodeOk;
      hide IndexOk;
      hide WithinBounds;
      hide WeightAt;
      hide LimitStep;
      hide Limited;
      hide Resumes;
      evicted := [];
      ghost var t0 := Value();
      LimitedShrinks(t0, capacity, rnd, 0, also, bound);
      ResumesAtStart(t0, capacity, rnd, also);
      while true
        invariant Valid() && Resumes(t0, Value(), capacity, rnd, also, evicted)
        decreases size
      {
        ghost var t := Value();
        var outcome := DropTogether(rnd(|evicted|), also);
        ResumesNext(t0, t, capacity, rnd, also, evicted);
        if !outcome.Dropped? {
          return;
        }
        evicted := evicted + [outcome.txId];
      }
    }
  }

  /** What has been evicted so far, and what Limited makes of the rest, is what it makes of the whole. */
  ghost predicate Resumes(t0: Tree, t: Tree, capacity: nat, rnd: nat -> nat, also: Txid -> seq<Txid>, evicted: seq<Txid>)
    requires Inv(t0) && Inv(t)
  {
    var (t', rest) := Limited(t, capacity, rnd, |evicted|, also);
    Limited(t0, capacity, rnd, 0, also) == (t', evicted + rest)
  }

  lemma ResumesAtStart(t0: Tree, capacity: nat, rnd: nat -> nat, also: Txid -> seq<Txid>)
    requires Inv(t0)
    ensures Resumes(t0, t0, capacity, rnd, also, [])
  {
    hide NodeOk;
    hide IndexOk;
    hide Limited;
    var r := Limited(t0, capacity, rnd, 0, also);
    assert [] + r.1 == r.1;
  }

  lemma ResumesNext(t0: Tree, t: Tree, capacity: nat, rnd: nat -> nat, also: Txid -> seq<Txid>, evicted: seq<Txid>)
    requires Inv(t0) && Inv(t) && Resumes(t0, t, capacity, rnd, also, evicted)
    ensures var (t', o) := LimitStep(t, capacity, rnd(|evicted|), also);
            if o.Dropped? then Resumes(t0, t', capacity, rnd, also, evicted + [o.txId])
            else t' == t && Limited(t0, capacity, rnd, 0, also) == (t, evicted)
  {
    hide NodeOk;
    hide IndexOk;
    hide DropInt;
    hide LimitStep;
    LimitStepIs(t, capacity, rnd(|evicted|), also);
    LimitedUnfold(t, capacity, rnd, |evicted|, also);
    hide Limited;
    var (t', o) := LimitStep(t, capacity, rnd(|evicted|), also);
    if o.Dropped? {
      var rest := Limited(t', capacity, rnd, |evicted| + 1, also).1;
      assert evicted + ([o.txId] + rest) == (evicted + [o.txId]) + rest;
    } else {
      assert evicted + [] == evicted;
    }
  }

  lemma LimitedUnfold(t: Tree, capacity: nat, rnd: nat -> nat, n: nat, also: Txid -> seq<Txid>)
    requires Inv(t)
    ensures var (t', o) := LimitStep(t, capacity, rnd(n), also);
            Limited(t, capacity, rnd, n, also) ==
            if !o.Dropped? then (t, [])
            else (Limited(t', capacity, rnd, n + 1, also).0, [o.txId] + Limited(t', capacity, rnd, n + 1, also).1)
  {
    hide NodeOk;
    hide IndexOk;
    hide LimitStep;
  }

  lemma DroppedSize(t: Tree, capacity: nat, rnd: nat)
    requires Inv(t) && DropInt(t, capacity, rnd).1.Dropped?
    ensures |DropInt(t, capacity, rnd).0.infos| == |t.infos| - 1
  {
    OverLimitHasWeight(t);
    IntFindAbove(t, 0, ToInt(rnd % Weight(t, 0)));
    var i := IntFind(t, 0, ToInt(rnd % Weight(t, 0))).value;
    assert NodeOk(t, i);
  }
}
