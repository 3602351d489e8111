/**
The commitment-tree anchors in a stack of coins caches (GetSproutAnchorAt, GetSaplingAnchorAt, PushAnchor,
PopAnchor, BatchWriteAnchors and Flush; src/coins.cpp:134-178, 231-262, 566-596, 743-774 and
src/txdb.cpp:57-79, 179-196).  Sprout and Sapling run the same code on maps of their own.

A root is the hash of its tree, so each root stands for one tree.
*/
module Anchors {
  import opened Common

  type Root = nat
  type Tree = nat

  /** The tree of each root, and the root of the empty tree. */
  datatype Trees = Trees(treeOf: Root -> Tree, empty: Root)

  datatype Entry = Entry(entered: bool, tree: Tree, isDirty: bool)

  datatype Stack =
    | Db(anchors: map<Root, Tree>)
    | Cache(entries: map<Root, Entry>, below: Stack)

  /** What a view answers for a root; a database always knows the empty tree. */
  function Look(ts: Trees, s: Stack, rt: Root): Option<Tree> {
    match s
    case Db(anchors) =>
      if rt == ts.empty then Some(ts.treeOf(rt)) else if rt in anchors then Some(anchors[rt]) else None
    case Cache(entries, below) =>
      if rt !in entries then Look(ts, below, rt)
      else if entries[rt].entered then Some(entries[rt].tree)
      else None
  }

  /** GetSproutAnchorAt: an anchor found below is kept at every level passed; that there is none is not kept. */
  function Get(ts: Trees, s: Stack, rt: Root): (r: (Stack, Option<Tree>)) {
    match s
    case Db(_) => (s, Look(ts, s, rt))
    case Cache(entries, below) =>
      if rt in entries then (s, if entries[rt].entered then Some(entries[rt].tree) else None)
      else
        var (below', found) := Get(ts, below, rt);
        if found.None? then (Cache(entries, below'), None)
        else (Cache(entries[rt := Entry(true, found.value, false)], below'), found)
  }

  /** PushAnchor where the root is not the best one already. */
  function Push(s: Stack, rt: Root, tree: Tree): Stack
    requires s.Cache?
  {
    s.(entries := s.entries[rt := Entry(true, tree, true)])
  }

  /** PopAnchor of the best root, which is brought into the cache first; the source asserts that it is there. */
  function Pop(ts: Trees, s: Stack, rt: Root): Stack
    requires s.Cache? && Look(ts, s, rt).Some?
  {
    var s1 := Get(ts, s, rt).0;
    GetHolds(ts, s, rt);
    s1.(entries := s1.entries[rt := s1.entries[rt].(entered := false, isDirty := true)])
  }

  lemma {:induction false} GetHolds(ts: Trees, s: Stack, rt: Root)
    ensures Get(ts, s, rt).1 == Look(ts, s, rt)
    ensures s.Cache? ==> Get(ts, s, rt).0.Cache?
    ensures s.Cache? && Look(ts, s, rt).Some? ==> rt in Get(ts, s, rt).0.entries
  {
    if s.Cache? && rt !in s.entries {
      GetHolds(ts, s.below, rt);
    }
  }

  /** What BatchWriteAnchors makes of one entry. */
  function MergeEntry(ours: Option<Entry>, child: Entry): Option<Entry> {
    if !child.isDirty then ours
    else match ours
      case None => Some(Entry(child.entered, child.tree, true))
      case Some(e) => if e.entered != child.entered then Some(e.(entered := child.entered, isDirty := true)) else ours
  }

  function At<K, V>(m: map<K, V>, k: K): Option<V> {
    if k in m then Some(m[k]) else None
  }

  function Merged(ours: map<Root, Entry>, child: map<Root, Entry>, rt: Root): Option<Entry> {
    if rt in child then MergeEntry(At(ours, rt), child[rt]) else At(ours, rt)
  }

  function Merge(ours: map<Root, Entry>, child: map<Root, Entry>): map<Root, Entry> {
    map rt | rt in ours.Keys + child.Keys && Merged(ours, child, rt).Some? :: Merged(ours, child, rt).value
  }

  /** The database's own BatchWriteAnchors, which never writes the empty tree. */
  function Write(ts: Trees, db: map<Root, Tree>, child: map<Root, Entry>): map<Root, Tree> {
    map rt | rt in db.Keys + child.Keys
             && (if rt in child && child[rt].isDirty && !(child[rt].entered && rt == ts.empty) then child[rt].entered else rt in db)
           :: if rt in child && child[rt].isDirty && !(child[rt].entered && rt == ts.empty) then child[rt].tree else db[rt]
  }

  function Flush(ts: Trees, s: Stack): Stack
    requires s.Cache?
  {
    match s.below
    case Db(anchors) => Cache(map[], Db(Write(ts, anchors, s.entries)))
    case Cache(entries, below) => Cache(map[], Cache(Merge(entries, s.entries), below))
  }

  //
  // The invariant: entries hold the tree of their root, and clean ones agree with the view below.
  //

  ghost predicate EntryOk(ts: Trees, e: Entry, rt: Root, below: Stack) {
    && e.tree == ts.treeOf(rt)
    && (!e.isDirty ==> e.entered && Look(ts, below, rt) == Some(e.tree))
  }

  ghost predicate Inv(ts: Trees, s: Stack) {
    match s
    case Db(anchors) => forall rt :: rt in anchors ==> anchors[rt] == ts.treeOf(rt)
    case Cache(entries, below) => Inv(ts, below) && forall rt :: rt in entries ==> EntryOk(ts, entries[rt], rt, below)
  }

  /** A view answers with the tree of the root or not at all, and a database always for the empty tree. */
  lemma {:induction false} LookIsTree(ts: Trees, s: Stack, rt: Root)
    requires Inv(ts, s)
    ensures Look(ts, s, rt).Some? ==> Look(ts, s, rt).value == ts.treeOf(rt)
    ensures rt == ts.empty && s.Db? ==> Look(ts, s, rt).Some?
  {
    if s.Cache? && rt !in s.entries {
      LookIsTree(ts, s.below, rt);
    }
  }

  /** Both stacks answer alike at every level. */
  ghost predicate Alike(ts: Trees, s: Stack, s': Stack) {
    && (forall rt :: Look(ts, s', rt) == Look(ts, s, rt))
    && match (s, s')
       case (Db(_), Db(_)) => true
       case (Cache(_, b), Cache(_, b')) => Alike(ts, b, b')
       case _ => false
  }

  lemma {:induction false} AlikeSelf(ts: Trees, s: Stack)
    ensures Alike(ts, s, s)
  {
    if s.Cache? {
      AlikeSelf(ts, s.below);
    }
  }

  /** Reading gives the answer of the view, changes no level's answer and keeps the invariant. */
  lemma {:induction false} GetCorrect(ts: Trees, s: Stack, rt: Root)
    requires Inv(ts, s)
    ensures var (s', found) := Get(ts, s, rt); found == Look(ts, s, rt) && Inv(ts, s') && Alike(ts, s, s')
  {
    if s.Db? || rt in s.entries {
      AlikeSelf(ts, s);
    } else {
      GetCorrect(ts, s.below, rt);
      LookIsTree(ts, s, rt);
      var s' := Get(ts, s, rt).0;
      forall u | u in s'.entries ensures EntryOk(ts, s'.entries[u], u, s'.below) {
        assert u in s.entries ==> EntryOk(ts, s.entries[u], u, s.below);
      }
      forall u ensures Look(ts, s', u) == Look(ts, s, u) {}
    }
  }

  /** Pushing makes the view answer for the root and changes nothing else. */
  lemma PushCorrect(ts: Trees, s: Stack, rt: Root)
    requires s.Cache? && Inv(ts, s)
    ensures var s' := Push(s, rt, ts.treeOf(rt));
            && Inv(ts, s') && s'.below == s.below
            && forall u :: Look(ts, s', u) == if u == rt then Some(ts.treeOf(rt)) else Look(ts, s, u)
  {
  }

  /** Popping takes the answer for the root away, and changes nothing else. */
  lemma PopCorrect(ts: Trees, s: Stack, rt: Root)
    requires s.Cache? && Inv(ts, s) && Look(ts, s, rt).Some?
    ensures var s' := Pop(ts, s, rt);
            && Inv(ts, s') && s'.Cache? && Alike(ts, s.below, s'.below)
            && forall u :: Look(ts, s', u) == if u == rt then None else Look(ts, s, u)
  {
    GetCorrect(ts, s, rt);
    GetHolds(ts, s, rt);
    var s1, s' := Get(ts, s, rt).0, Pop(ts, s, rt);
    forall u | u in s'.entries ensures EntryOk(ts, s'.entries[u], u, s'.below) {
      assert EntryOk(ts, s1.entries[u], u, s1.below);
    }
    forall u ensures Look(ts, s', u) == if u == rt then None else Look(ts, s, u) {
      assert Look(ts, s1, u) == Look(ts, s, u);
    }
  }

  /** The database can not forget the empty tree. */
  predicate SafeToFlush(ts: Trees, s: Stack)
    requires s.Cache?
  {
    s.below.Cache? || ts.empty !in s.entries || s.entries[ts.empty].entered
  }

  /** Flush leaves an empty cache, changes nothing further below, and gives the view below the answers of the flushed cache but for the empty tree. */
  lemma FlushCorrect(ts: Trees, s: Stack)
    requires s.Cache? && Inv(ts, s)
    ensures var s' := Flush(ts, s);
            && Inv(ts, s')
            && (forall rt :: rt != ts.empty || SafeToFlush(ts, s) ==> Look(ts, s'.below, rt) == Look(ts, s, rt) == Look(ts, s', rt))
            && (s.below.Cache? <==> s'.below.Cache?) && (s.below.Cache? ==> s'.below.below == s.below.below)
  {
    var s' := Flush(ts, s);
    forall rt | rt != ts.empty || SafeToFlush(ts, s) ensures Look(ts, s'.below, rt) == Look(ts, s, rt) {
      FlushAt(ts, s, rt);
    }
    if s.below.Cache? {
      forall rt | rt in s'.below.entries ensures EntryOk(ts, s'.below.entries[rt], rt, s'.below.below) {
        assert rt in s.entries ==> EntryOk(ts, s.entries[rt], rt, s.below);
        assert rt in s.below.entries ==> EntryOk(ts, s.below.entries[rt], rt, s.below.below);
      }
    } else {
      forall rt | rt in s'.below.anchors ensures s'.below.anchors[rt] == ts.treeOf(rt) {
        assert rt in s.entries ==> EntryOk(ts, s.entries[rt], rt, s.below);
      }
    }
  }

  lemma FlushAt(ts: Trees, s: Stack, rt: Root)
    requires s.Cache? && Inv(ts, s) && (rt != ts.empty || SafeToFlush(ts, s))
    ensures Look(ts, Flush(ts, s).below, rt) == Look(ts, s, rt)
  {
    assert rt in s.entries ==> EntryOk(ts, s.entries[rt], rt, s.below);
    if s.below.Cache? {
      assert rt in s.below.entries ==> EntryOk(ts, s.below.entries[rt], rt, s.below.below);
    }
  }

  /** So Flush changes nothing that is seen exactly if it does not take the empty tree from the database, which keeps it. */
  lemma FlushIff(ts: Trees, s: Stack)
    requires s.Cache? && Inv(ts, s)
    ensures SafeToFlush(ts, s) ==> forall rt :: Look(ts, Flush(ts, s).below, rt) == Look(ts, s, rt)
    ensures !SafeToFlush(ts, s) ==> Look(ts, s, ts.empty).None? && Look(ts, Flush(ts, s).below, ts.empty).Some?
  {
    if SafeToFlush(ts, s) {
      forall rt ensures Look(ts, Flush(ts, s).below, rt) == Look(ts, s, rt) {
        FlushAt(ts, s, rt);
      }
    }
  }

  /** A popped empty root is back after the flush into the database. */
  lemma EmptyComesBack(ts: Trees, anchors: map<Root, Tree>)
    ensures var s := Pop(ts, Cache(map[], Db(anchors)), ts.empty);
            Look(ts, s, ts.empty).None? && Look(ts, Flush(ts, s).below, ts.empty).Some?
  {
    var s := Cache(map[], Db(anchors));
    assert Look(ts, s, ts.empty).Some?;
    GetHolds(ts, s, ts.empty);
  }

  //
  // Every run of a stack of caches is a run of a list of sets of roots.
  //

  datatype Op = Read(rt: Root) | PushOp(rt: Root) | PopOp(rt: Root) | PushCache | FlushTop | DropTop

  /** The database is changed by a flush only, and only known roots are popped, as the source asserts. */
  predicate Allowed(fs: seq<iset<Root>>, op: Op) {
    match op
    case Read(_) => |fs| >= 1
    case PushCache => |fs| >= 1
    case PopOp(rt) => |fs| >= 2 && rt in fs[0]
    case _ => |fs| >= 2
  }

  /** What is written through: the database never loses the empty root. */
  function Flushed(ts: Trees, fs: seq<iset<Root>>): iset<Root>
    requires |fs| >= 2
  {
    if |fs| == 2 then fs[0] + iset{ts.empty} else fs[0]
  }

  function FlatStep(ts: Trees, fs: seq<iset<Root>>, op: Op): seq<iset<Root>>
    requires Allowed(fs, op)
  {
    match op
    case Read(_) => fs
    case PushOp(rt) => [fs[0] + iset{rt}] + fs[1..]
    case PopOp(rt) => [fs[0] - iset{rt}] + fs[1..]
    case PushCache => [fs[0]] + fs
    case FlushTop => var f := Flushed(ts, fs); [f, f] + fs[2..]
    case DropTop => fs[1..]
  }

  function Step(ts: Trees, s: Stack, op: Op): Stack
    requires s.Db? ==> op.Read? || op.PushCache?
    requires op.PopOp? ==> Look(ts, s, op.rt).Some?
  {
    match op
    case Read(rt) => Get(ts, s, rt).0
    case PushOp(rt) => Push(s, rt, ts.treeOf(rt))
    case PopOp(rt) => Pop(ts, s, rt)
    case PushCache => Cache(map[], s)
    case FlushTop => Flush(ts, s)
    case DropTop => s.below
  }

  ghost predicate Shows(ts: Trees, s: Stack, f: iset<Root>) {
    forall rt :: Look(ts, s, rt).Some? <==> rt in f
  }

  ghost predicate Agrees(ts: Trees, s: Stack, fs: seq<iset<Root>>) {
    && |fs| >= 1 && Shows(ts, s, fs[0])
    && match s
       case Db(_) => |fs| == 1
       case Cache(_, below) => Agrees(ts, below, fs[1..])
  }

  lemma {:induction false} AgreesSize(ts: Trees, s: Stack, fs: seq<iset<Root>>)
    requires Agrees(ts, s, fs)
    ensures |fs| == 1 <==> s.Db?
  {
    if s.Cache? {
      assert Agrees(ts, s.below, fs[1..]);
    }
  }

  lemma {:induction false} AgreesAlike(ts: Trees, s: Stack, s': Stack, fs: seq<iset<Root>>)
    requires Agrees(ts, s, fs) && Alike(ts, s, s')
    ensures Agrees(ts, s', fs)
  {
    if s.Cache? {
      AgreesAlike(ts, s.below, s'.below, fs[1..]);
    }
  }

  lemma StepRefines(ts: Trees, s: Stack, fs: seq<iset<Root>>, op: Op)
    requires Inv(ts, s) && Agrees(ts, s, fs) && Allowed(fs, op)
    ensures (s.Db? ==> op.Read? || op.PushCache?) && (op.PopOp? ==> Look(ts, s, op.rt).Some?)
    ensures Inv(ts, Step(ts, s, op)) && Agrees(ts, Step(ts, s, op), FlatStep(ts, fs, op))
  {
    match op
    case Read(rt) =>
      GetCorrect(ts, s, rt);
      AgreesAlike(ts, s, Get(ts, s, rt).0, fs);
    case PushOp(rt) =>
      PushCorrect(ts, s, rt);
      assert FlatStep(ts, fs, op)[1..] == fs[1..];
    case PopOp(rt) =>
      PopCorrect(ts, s, rt);
      assert FlatStep(ts, fs, op)[1..] == fs[1..];
      AgreesAlike(ts, s.below, Pop(ts, s, rt).below, fs[1..]);
    case PushCache =>
      assert FlatStep(ts, fs, op)[1..] == fs;
    case FlushTop =>
      FlushAgrees(ts, s, fs);
    case DropTop =>
  }

  lemma FlushAgrees(ts: Trees, s: Stack, fs: seq<iset<Root>>)
    requires s.Cache? && Inv(ts, s) && Agrees(ts, s, fs) && Allowed(fs, FlushTop)
    ensures Inv(ts, Flush(ts, s)) && Agrees(ts, Flush(ts, s), FlatStep(ts, fs, FlushTop))
  {
    FlushCorrect(ts, s);
    var fs', f := FlatStep(ts, fs, FlushTop), Flushed(ts, fs);
    assert fs'[1..] == [f] + fs[2..];
    assert fs'[1..][1..] == fs[1..][1..];
    var s' := Flush(ts, s);
    AgreesSize(ts, s.below, fs[1..]);
    forall rt ensures Look(ts, s'.below, rt).Some? <==> rt in f {
      if rt != ts.empty || SafeToFlush(ts, s) {
        FlushAt(ts, s, rt);
      }
    }
    assert Shows(ts, s', f) && Shows(ts, s'.below, f);
  }

  function RunFlat(ts: Trees, fs: seq<iset<Root>>, ops: seq<Op>): Option<seq<iset<Root>>>
    decreases |ops|
  {
    if ops == [] then Some(fs)
    else if Allowed(fs, ops[0]) then RunFlat(ts, FlatStep(ts, fs, ops[0]), ops[1..])
    else None
  }

  /** The stack reached by a sequence of operations. */
  ghost predicate Reaches(ts: Trees, s: Stack, ops: seq<Op>, s': Stack)
    decreases |ops|
  {
    if ops == [] then s' == s
    else
      && (s.Db? ==> ops[0].Read? || ops[0].PushCache?) && (ops[0].PopOp? ==> Look(ts, s, ops[0].rt).Some?)
      && Reaches(ts, Step(ts, s, ops[0]), ops[1..], s')
  }

  /** Every run shows, at every level, the roots that plain sets hold, each with its tree. */
  lemma {:induction false} RunRefines(ts: Trees, s: Stack, fs: seq<iset<Root>>, ops: seq<Op>) returns (s': Stack)
    requires Inv(ts, s) && Agrees(ts, s, fs) && RunFlat(ts, fs, ops).Some?
    ensures Reaches(ts, s, ops, s') && Inv(ts, s') && Agrees(ts, s', RunFlat(ts, fs, ops).value)
    decreases |ops|
  {
    if ops == [] {
      s' := s;
    } else {
      StepRefines(ts, s, fs, ops[0]);
      s' := RunRefines(ts, Step(ts, s, ops[0]), FlatStep(ts, fs, ops[0]), ops[1..]);
    }
  }

  /** A database shows its own roots and the empty one. */
  lemma DbAgrees(ts: Trees, anchors: map<Root, Tree>)
    ensures Agrees(ts, Db(anchors), [iset rt | rt == ts.empty || rt in anchors])
  {
  }
}
