/**
The stack of write-back caches over the coins database (CCoinsViewCache,
src/coins.cpp): entries carry DIRTY and FRESH flags, reads fill every cache they pass
through, and Flush pushes dirty entries one level down.

The first half gives the operations on values and proves that a stack of caches is
indistinguishable from a stack of plain maps.  The second half is the source's
object structure, whose methods are proved to perform exactly these operations.
*/
module CoinsCache {
  import opened Common
  import opened Coins

  type Txid = nat

  datatype ShieldedType = SPROUT | SAPLING
  datatype Nullifier = Nullifier(kind: ShieldedType, nf: nat)

  datatype Entry = Entry(coins: CCoins, isDirty: bool, isFresh: bool)
  datatype NfEntry = NfEntry(entered: bool, isDirty: bool)

  /** A database, or a cache over another view. */
  datatype Stack =
    | Db(coins: map<Txid, CCoins>, spent: set<Nullifier>)
    | Cache(entries: map<Txid, Entry>, nfs: map<Nullifier, NfEntry>, below: Stack)

  //
  // What a view shows: a pruned entry counts as absent (operator==, src/coins.h:138-146).
  //

  function Visible(c: CCoins): Option<CCoins> {
    if IsPruned(c) then None else Some(c)
  }

  function Look(s: Stack, t: Txid): Option<CCoins> {
    match s
    case Db(coins, _) => if t in coins then Visible(coins[t]) else None
    case Cache(entries, _, below) => if t in entries then Visible(entries[t].coins) else Look(below, t)
  }

  function IsSpent(s: Stack, n: Nullifier): bool {
    match s
    case Db(_, spent) => n in spent
    case Cache(_, nfs, below) => if n in nfs then nfs[n].entered else IsSpent(below, n)
  }

  //
  // Operations.
  //

  /** FetchCoins: find the coins, caching what the view below returns at every level passed. */
  function Fetch(s: Stack, t: Txid): (r: (Stack, Option<CCoins>)) {
    match s
    case Db(coins, _) => (s, if t in coins then Some(coins[t]) else None)
    case Cache(entries, nfs, below) =>
      if t in entries then (s, Some(entries[t].coins))
      else
        var (below', r) := Fetch(below, t);
        var entries' := if r.None? then entries
                        else entries[t := Entry(r.value, false, IsPruned(r.value))];
        (Cache(entries', nfs, below'), r)
  }

  /** ModifyCoins: the entry to be modified, created from the view below if there is none. */
  function Open(s: Stack, t: Txid): (r: Stack)
    requires s.Cache?
    ensures r.Cache? && t in r.entries
  {
    if t in s.entries then
      s.(entries := s.entries[t := s.entries[t].(isDirty := true)])
    else
      var (below', r) := Fetch(s.below, t);
      var e := if r.None? then Entry(CLEARED, true, true) else Entry(r.value, true, IsPruned(r.value));
      Cache(s.entries[t := e], s.nfs, below')
  }

  /** ModifyNewCoins: a cleared entry, assumed not to exist below. */
  function OpenNew(s: Stack, t: Txid): (r: Stack)
    requires s.Cache?
    ensures r.Cache? && t in r.entries
  {
    s.(entries := s.entries[t := Entry(CLEARED, true, true)])
  }

  /** The modifier's destructor: keep the modified coins, or drop a fresh entry that is pruned. */
  function Close(s: Stack, t: Txid, modified: CCoins): Stack
    requires s.Cache? && t in s.entries
  {
    var c := Cleaned(modified);
    if s.entries[t].isFresh && IsPruned(c) then s.(entries := s.entries - {t})
    else s.(entries := s.entries[t := s.entries[t].(coins := c)])
  }

  /** GetNullifier: like Fetch, but the answer "not spent" is cached too. */
  function FetchNullifier(s: Stack, n: Nullifier): (r: (Stack, bool)) {
    match s
    case Db(_, spent) => (s, n in spent)
    case Cache(entries, nfs, below) =>
      if n in nfs then (s, nfs[n].entered)
      else
        var (below', r) := FetchNullifier(below, n);
        (Cache(entries, nfs[n := NfEntry(r, false)], below'), r)
  }

  /** SetNullifiers, one nullifier at a time. */
  function SetNullifier(s: Stack, n: Nullifier, spent: bool): Stack
    requires s.Cache?
  {
    s.(nfs := s.nfs[n := NfEntry(spent, true)])
  }

  /** What BatchWrite makes of one coins entry of the child (lines 816-845). */
  function MergeEntry(ours: Option<Entry>, child: Entry): Option<Entry> {
    if !child.isDirty then ours
    else match ours
      case None => if IsPruned(child.coins) then None else Some(Entry(child.coins, true, true))
      case Some(e) => if e.isFresh && IsPruned(child.coins) then None else Some(e.(coins := child.coins, isDirty := true))
  }

  function At<K, V>(m: map<K, V>, k: K): Option<V> {
    if k in m then Some(m[k]) else None
  }

  function Merged(ours: map<Txid, Entry>, child: map<Txid, Entry>, t: Txid): Option<Entry> {
    if t in child then MergeEntry(At(ours, t), child[t]) else At(ours, t)
  }

  function MergeCoins(ours: map<Txid, Entry>, child: map<Txid, Entry>): map<Txid, Entry> {
    map t | t in ours.Keys + child.Keys && Merged(ours, child, t).Some? :: Merged(ours, child, t).value
  }

  /** What BatchWriteNullifiers makes of one entry (lines 724-737). */
  function MergeNf(ours: Option<NfEntry>, child: NfEntry): Option<NfEntry> {
    if !child.isDirty then ours
    else match ours
      case None => Some(NfEntry(child.entered, true))
      case Some(e) => if e.entered != child.entered then Some(NfEntry(child.entered, true)) else ours
  }

  function MergedNf(ours: map<Nullifier, NfEntry>, child: map<Nullifier, NfEntry>, n: Nullifier): Option<NfEntry> {
    if n in child then MergeNf(At(ours, n), child[n]) else At(ours, n)
  }

  function MergeNfs(ours: map<Nullifier, NfEntry>, child: map<Nullifier, NfEntry>): map<Nullifier, NfEntry> {
    map n | n in ours.Keys + child.Keys && MergedNf(ours, child, n).Some? :: MergedNf(ours, child, n).value
  }

  /** The database's own BatchWrite (src/txdb.cpp:221-244 and 164-178). */
  function WriteCoins(db: map<Txid, CCoins>, child: map<Txid, Entry>): map<Txid, CCoins> {
    map t | t in db.Keys + child.Keys
            && (if t in child && child[t].isDirty then !IsPruned(child[t].coins) else t in db)
          :: if t in child && child[t].isDirty then child[t].coins else db[t]
  }

  function WriteNfs(db: set<Nullifier>, child: map<Nullifier, NfEntry>): set<Nullifier> {
    set n | n in db + child.Keys && (if n in child && child[n].isDirty then child[n].entered else n in db)
  }

  function AfterBatchWrite(s: Stack, coins: map<Txid, Entry>, nfs: map<Nullifier, NfEntry>): Stack {
    match s
    case Db(db, spent) => Db(WriteCoins(db, coins), WriteNfs(spent, nfs))
    case Cache(ours, ourNfs, below) => Cache(MergeCoins(ours, coins), MergeNfs(ourNfs, nfs), below)
  }

  function Flush(s: Stack): Stack
    requires s.Cache?
  {
    Cache(map[], map[], AfterBatchWrite(s.below, s.entries, s.nfs))
  }

  //
  // The invariant.
  //

  /** A view that is a cache has an entry of its own for the transaction. */
  predicate Holds(s: Stack, t: Txid) {
    s.Cache? ==> t in s.entries
  }

  /** What the flags of an entry promise about the view below it. */
  ghost predicate EntryOk(e: Entry, t: Txid, below: Stack) {
    && IsClean(e.coins)
    && (e.isFresh ==> Look(below, t) == None)
    && (!e.isDirty ==> Visible(e.coins) == Look(below, t))
    && (!e.isFresh ==> Holds(below, t))
  }

  ghost predicate NfOk(e: NfEntry, n: Nullifier, below: Stack) {
    !e.isDirty ==> e.entered == IsSpent(below, n)
  }

  ghost predicate Inv(s: Stack) {
    match s
    case Db(coins, _) => forall t :: t in coins ==> IsClean(coins[t])
    case Cache(entries, nfs, below) =>
      && Inv(below)
      && (forall t :: t in entries ==> EntryOk(entries[t], t, below))
      && (forall n :: n in nfs ==> NfOk(nfs[n], n, below))
  }

  /** Two stacks of the same height that show the same at every level, the second with no fewer entries. */
  ghost predicate Fills(s: Stack, s': Stack) {
    && (forall t :: Look(s', t) == Look(s, t))
    && (forall n :: IsSpent(s', n) == IsSpent(s, n))
    && (forall t :: Holds(s, t) ==> Holds(s', t))
    && match (s, s')
       case (Db(_, _), Db(_, _)) => true
       case (Cache(_, _, b), Cache(_, _, b')) => Fills(b, b')
       case (_, _) => false
  }

  lemma {:induction false} FillsReflexive(s: Stack)
    ensures Fills(s, s)
  {
    if s.Cache? {
      FillsReflexive(s.below);
    }
  }

  /** A cache over a filled view keeps its invariant. */
  lemma OverFilled(s: Stack, below': Stack)
    requires s.Cache? && Inv(s) && Inv(below') && Fills(s.below, below')
    ensures Inv(s.(below := below'))
  {
    forall t | t in s.entries ensures EntryOk(s.entries[t], t, below') {
      assert EntryOk(s.entries[t], t, s.below);
    }
    forall n | n in s.nfs ensures NfOk(s.nfs[n], n, below') {
      assert NfOk(s.nfs[n], n, s.below);
    }
  }

  //
  // Reads change nothing that can be seen.
  //

  lemma {:induction false} FetchIsRead(s: Stack, t: Txid)
    requires Inv(s)
    ensures var (s', r) := Fetch(s, t);
            && Inv(s') && Fills(s, s')
            && (if r.Some? then Visible(r.value) else None) == Look(s, t)
            && (r.Some? ==> IsClean(r.value) && Holds(s', t))
  {
    if s.Cache? && t !in s.entries {
      FetchIsRead(s.below, t);
      var (below', r) := Fetch(s.below, t);
      var s1 := s.(below := below');
      OverFilled(s, below');
      if r.Some? {
        var e := Entry(r.value, false, IsPruned(r.value));
        assert EntryOk(e, t, below');
        var s' := s1.(entries := s.entries[t := e]);
        assert Fetch(s, t).0 == s';
        forall u | u in s'.entries ensures EntryOk(s'.entries[u], u, below') {
          if u != t {
            assert EntryOk(s1.entries[u], u, below');
          }
        }
        forall u ensures Look(s', u) == Look(s, u) && (Holds(s, u) ==> Holds(s', u)) {}
      } else {
        assert Fetch(s, t).0 == s1;
        forall u ensures Look(s1, u) == Look(s, u) && Holds(s, u) == Holds(s1, u) {}
      }
    } else {
      FillsReflexive(s);
    }
  }

  lemma {:induction false} FetchNullifierIsRead(s: Stack, n: Nullifier)
    requires Inv(s)
    ensures var (s', r) := FetchNullifier(s, n); Inv(s') && Fills(s, s') && r == IsSpent(s, n)
  {
    if s.Cache? && n !in s.nfs {
      FetchNullifierIsRead(s.below, n);
      var (below', r) := FetchNullifier(s.below, n);
      OverFilled(s, below');
      var s1 := s.(below := below');
      var s' := s1.(nfs := s.nfs[n := NfEntry(r, false)]);
      assert FetchNullifier(s, n).0 == s';
      forall u | u in s'.entries ensures EntryOk(s'.entries[u], u, below') {
        assert EntryOk(s1.entries[u], u, below');
      }
      forall m | m in s'.nfs ensures NfOk(s'.nfs[m], m, below') {
        assert m != n ==> NfOk(s1.nfs[m], m, below');
      }
      forall m ensures IsSpent(s', m) == IsSpent(s, m) {}
      forall u ensures Look(s', u) == Look(s, u) {}
    } else {
      FillsReflexive(s);
    }
  }

  /** HaveCoins tests for an empty output list, which for cleaned coins is the same as pruned. */
  predicate HaveCoins(s: Stack, t: Txid) {
    var r := Fetch(s, t).1;
    r.Some? && r.value.vout != []
  }

  lemma HaveCoinsIsVisible(s: Stack, t: Txid)
    requires Inv(s)
    ensures HaveCoins(s, t) <==> Look(s, t).Some?
  {
    FetchIsRead(s, t);
    var r := Fetch(s, t).1;
    if r.Some? {
      CleanPrunedIsEmpty(r.value);
    }
  }

  //
  // Modifications.
  //

  /** The entry list of the top cache changed at t only. */
  lemma ReplaceTop(s: Stack, entries': map<Txid, Entry>, t: Txid)
    requires s.Cache? && Inv(s)
    requires t in entries' ==> EntryOk(entries'[t], t, s.below)
    requires forall u :: u != t ==> (u in entries' <==> u in s.entries) && (u in entries' ==> entries'[u] == s.entries[u])
    ensures Inv(s.(entries := entries'))
    ensures forall u :: u != t ==> Look(s.(entries := entries'), u) == Look(s, u)
    ensures forall n :: IsSpent(s.(entries := entries'), n) == IsSpent(s, n)
  {
    forall u | u in entries' ensures EntryOk(entries'[u], u, s.below) {
      assert u != t ==> EntryOk(s.entries[u], u, s.below);
    }
  }

  /** Look at t is `shown`, everything else is as in s; the views below are filled at most. */
  ghost predicate Changed(s: Stack, s': Stack, t: Txid, shown: Option<CCoins>) {
    && s.Cache? && s'.Cache? && Fills(s.below, s'.below)
    && Look(s', t) == shown
    && (forall u :: u != t ==> Look(s', u) == Look(s, u))
    && (forall n :: IsSpent(s', n) == IsSpent(s, n))
  }

  /** The end of a modification, on an entry whose flags are right but for DIRTY. */
  lemma CloseCorrect(s: Stack, e: Entry, t: Txid, modified: CCoins)
    requires s.Cache? && Inv(s) && EntryOk(e, t, s.below)
    ensures var s' := Close(s.(entries := s.entries[t := e.(isDirty := true)]), t, modified);
            Inv(s') && Changed(s, s', t, Visible(Cleaned(modified)))
  {
    CleanedIsClean(modified);
    FillsReflexive(s.below);
    var s' := Close(s.(entries := s.entries[t := e.(isDirty := true)]), t, modified);
    ReplaceTop(s, s'.entries, t);
  }

  /** ModifyCoins may be used on any txid: afterwards the view shows the modified coins. */
  lemma ModifyCorrect(s: Stack, t: Txid, modified: CCoins)
    requires s.Cache? && Inv(s)
    ensures var s' := Close(Open(s, t), t, modified);
            Inv(s') && Changed(s, s', t, Visible(Cleaned(modified)))
    ensures Visible(Open(s, t).entries[t].coins) == Look(s, t)
  {
    if t in s.entries {
      CloseCorrect(s, s.entries[t], t, modified);
    } else {
      FetchIsRead(s.below, t);
      var (below', r) := Fetch(s.below, t);
      OverFilled(s, below');
      var s1 := s.(below := below');
      var e := if r.None? then Entry(CLEARED, false, true) else Entry(r.value, false, IsPruned(r.value));
      assert EntryOk(e, t, below');
      CloseCorrect(s1, e, t, modified);
      forall u ensures Look(s1, u) == Look(s, u) {}
      forall n ensures IsSpent(s1, n) == IsSpent(s, n) {}
      FillsTransitive(s.below, below', Close(Open(s, t), t, modified).below);
    }
  }

  lemma {:induction false} FillsTransitive(a: Stack, b: Stack, c: Stack)
    requires Fills(a, b) && Fills(b, c)
    ensures Fills(a, c)
  {
    if a.Cache? {
      FillsTransitive(a.below, b.below, c.below);
    }
  }

  /**
  ModifyNewCoins shows the new coins and keeps the flags truthful exactly when the view
  below has no unpruned coins for the transaction.
  */
  lemma ModifyNewCorrect(s: Stack, t: Txid, modified: CCoins)
    requires s.Cache? && Inv(s)
    ensures var s' := Close(OpenNew(s, t), t, modified);
            (Inv(s') && Changed(s, s', t, Visible(Cleaned(modified)))) <==> Look(s.below, t) == None
  {
    if Look(s.below, t) == None {
      ModifyNewRight(s, t, modified);
    } else {
      ModifyNewWrong(s, t, modified);
    }
  }

  lemma ModifyNewRight(s: Stack, t: Txid, modified: CCoins)
    requires s.Cache? && Inv(s) && Look(s.below, t) == None
    ensures var s' := Close(OpenNew(s, t), t, modified);
            Inv(s') && Changed(s, s', t, Visible(Cleaned(modified)))
  {
    hide Inv;
    CleanedIsClean(modified);
    FillsReflexive(s.below);
    var s' := Close(OpenNew(s, t), t, modified);
    assert s' == s.(entries := s'.entries);
    ReplaceTop(s, s'.entries, t);
  }

  lemma ModifyNewWrong(s: Stack, t: Txid, modified: CCoins)
    requires s.Cache? && Inv(s) && Look(s.below, t).Some?
    ensures var s' := Close(OpenNew(s, t), t, modified);
            !(Inv(s') && Changed(s, s', t, Visible(Cleaned(modified))))
  {
    CleanedIsClean(modified);
    var s' := Close(OpenNew(s, t), t, modified);
    if t in s'.entries {
      assert !EntryOk(s'.entries[t], t, s'.below);
    }
  }

  lemma SetNullifierCorrect(s: Stack, n: Nullifier, spent: bool)
    requires s.Cache? && Inv(s)
    ensures var s' := SetNullifier(s, n, spent);
            && Inv(s') && s'.below == s.below
            && (forall u :: Look(s', u) == Look(s, u))
            && (forall m :: IsSpent(s', m) == if m == n then spent else IsSpent(s, m))
  {
    var s' := SetNullifier(s, n, spent);
    forall t | t in s'.entries ensures EntryOk(s'.entries[t], t, s'.below) {
      assert EntryOk(s.entries[t], t, s.below);
    }
    forall m | m in s'.nfs ensures NfOk(s'.nfs[m], m, s'.below) {
      assert m != n ==> NfOk(s.nfs[m], m, s.below);
    }
  }

  //
  // Flush.
  //

  /** The condition that BatchWrite asserts for every dirty entry it moves up (line 824). */
  ghost predicate FreshWhereMissing(ours: map<Txid, Entry>, child: map<Txid, Entry>) {
    forall t :: t in child && child[t].isDirty && t !in ours && !IsPruned(child[t].coins) ==> child[t].isFresh
  }

  lemma FreshAssertionHolds(s: Stack)
    requires s.Cache? && s.below.Cache? && Inv(s)
    ensures FreshWhereMissing(s.below.entries, s.entries)
  {
    forall t | t in s.entries && !s.entries[t].isFresh ensures t in s.below.entries {
      assert EntryOk(s.entries[t], t, s.below);
    }
  }

  lemma MergedEntryOk(s: Stack, t: Txid)
    requires s.Cache? && s.below.Cache? && Inv(s)
    ensures var below, merged := s.below, MergeCoins(s.below.entries, s.entries);
            && (t in merged ==> EntryOk(merged[t], t, below.below))
            && (if t in merged then Visible(merged[t].coins) else Look(below.below, t)) == Look(s, t)
  {
    if t in s.entries {
      assert EntryOk(s.entries[t], t, s.below);
    }
    if t in s.below.entries {
      assert EntryOk(s.below.entries[t], t, s.below.below);
    }
  }

  lemma MergedNfOk(s: Stack, n: Nullifier)
    requires s.Cache? && s.below.Cache? && Inv(s)
    ensures var below, merged := s.below, MergeNfs(s.below.nfs, s.nfs);
            && (n in merged ==> NfOk(merged[n], n, below.below))
            && (if n in merged then merged[n].entered else IsSpent(below.below, n)) == IsSpent(s, n)
  {
    if n in s.nfs {
      assert NfOk(s.nfs[n], n, s.below);
    }
    if n in s.below.nfs {
      assert NfOk(s.below.nfs[n], n, s.below.below);
    }
  }

  /** Flush gives the view below exactly what the flushed cache showed, and empties the cache. */
  lemma FlushCorrect(s: Stack)
    requires s.Cache? && Inv(s)
    ensures var s' := Flush(s);
            && Inv(s')
            && (forall t :: Look(s'.below, t) == Look(s, t) == Look(s', t))
            && (forall n :: IsSpent(s'.below, n) == IsSpent(s, n) == IsSpent(s', n))
            && s'.below.Cache? == s.below.Cache?
            && (s.below.Cache? ==> s'.below.below == s.below.below)
  {
    var below' := AfterBatchWrite(s.below, s.entries, s.nfs);
    if s.below.Cache? {
      forall t ensures Look(below', t) == Look(s, t) { MergedEntryOk(s, t); }
      forall n ensures IsSpent(below', n) == IsSpent(s, n) { MergedNfOk(s, n); }
      forall t | t in below'.entries ensures EntryOk(below'.entries[t], t, below'.below) { MergedEntryOk(s, t); }
      forall n | n in below'.nfs ensures NfOk(below'.nfs[n], n, below'.below) { MergedNfOk(s, n); }
    } else {
      FlushToDb(s);
    }
  }

  lemma FlushToDb(s: Stack)
    requires s.Cache? && s.below.Db? && Inv(s)
    ensures var below' := AfterBatchWrite(s.below, s.entries, s.nfs);
            && Inv(below')
            && (forall t :: Look(below', t) == Look(s, t))
            && (forall n :: IsSpent(below', n) == IsSpent(s, n))
  {
    var below' := AfterBatchWrite(s.below, s.entries, s.nfs);
    forall t | t in s.entries ensures Look(below', t) == Look(s, t) {
      assert EntryOk(s.entries[t], t, s.below);
    }
    forall n | n in s.nfs ensures IsSpent(below', n) == IsSpent(s, n) {
      assert NfOk(s.nfs[n], n, s.below);
    }
    forall t | t in below'.coins ensures IsClean(below'.coins[t]) {
      assert t in s.entries ==> EntryOk(s.entries[t], t, s.below);
    }
  }

  //
  // Every run of a stack of caches is a run of a stack of plain maps.
  //

  datatype Flat = Flat(coins: map<Txid, CCoins>, spent: set<Nullifier>)

  /** One step of the program; depth 0 is the top of the stack. */
  datatype Op =
    | GetCoins(depth: nat, txid: Txid)
    | GetNullifier(depth: nat, nf: Nullifier)
    | Modify(txid: Txid, modified: CCoins)
    | ModifyNew(txid: Txid, modified: CCoins)
    | MarkNullifier(nf: Nullifier, spent: bool)
    | PushCache
    | FlushTop
    | DropTop

  function ReadAt(s: Stack, depth: nat, op: Op): Stack
    requires op.GetCoins? || op.GetNullifier?
  {
    if depth == 0 || s.Db? then
      if op.GetCoins? then Fetch(s, op.txid).0 else FetchNullifier(s, op.nf).0
    else s.(below := ReadAt(s.below, depth - 1, op))
  }

  /** The plain-map program (the top of the stack is the head of the list). */
  function FlatStep(fs: seq<Flat>, op: Op): seq<Flat>
    requires Allowed(fs, op)
  {
    match op
    case GetCoins(_, _) => fs
    case GetNullifier(_, _) => fs
    case Modify(t, c) => [fs[0].(coins := Assign(fs[0].coins, t, Cleaned(c)))] + fs[1..]
    case ModifyNew(t, c) => [fs[0].(coins := Assign(fs[0].coins, t, Cleaned(c)))] + fs[1..]
    case MarkNullifier(n, spent) =>
      [fs[0].(spent := if spent then fs[0].spent + {n} else fs[0].spent - {n})] + fs[1..]
    case PushCache => [fs[0]] + fs
    case FlushTop => [fs[0], fs[0]] + fs[2..]
    case DropTop => fs[1..]
  }

  function Assign(m: map<Txid, CCoins>, t: Txid, c: CCoins): map<Txid, CCoins> {
    if IsPruned(c) then m - {t} else m[t := c]
  }

  /** The database itself is only changed by a flush; new coins must not exist below. */
  predicate Allowed(fs: seq<Flat>, op: Op) {
    match op
    case GetCoins(_, _) => |fs| >= 1
    case GetNullifier(_, _) => |fs| >= 1
    case PushCache => |fs| >= 1
    case ModifyNew(t, _) => |fs| >= 2 && t !in fs[1].coins
    case _ => |fs| >= 2
  }

  function Step(s: Stack, op: Op): Stack
    requires s.Db? ==> op.GetCoins? || op.GetNullifier? || op.PushCache?
  {
    match op
    case GetCoins(depth, _) => ReadAt(s, depth, op)
    case GetNullifier(depth, _) => ReadAt(s, depth, op)
    case Modify(t, c) => Close(Open(s, t), t, c)
    case ModifyNew(t, c) => Close(OpenNew(s, t), t, c)
    case MarkNullifier(n, spent) => SetNullifier(s, n, spent)
    case PushCache => Cache(map[], map[], s)
    case FlushTop => Flush(s)
    case DropTop => s.below
  }

  ghost predicate Shows(s: Stack, f: Flat) {
    && (forall t :: Look(s, t) == At(f.coins, t))
    && (forall n :: IsSpent(s, n) == (n in f.spent))
  }

  ghost predicate Agrees(s: Stack, fs: seq<Flat>) {
    && |fs| >= 1 && Shows(s, fs[0])
    && match s
       case Db(_, _) => |fs| == 1
       case Cache(_, _, below) => Agrees(below, fs[1..])
  }

  lemma {:induction false} AgreesFilled(s: Stack, s': Stack, fs: seq<Flat>)
    requires Agrees(s, fs) && Fills(s, s')
    ensures Agrees(s', fs)
  {
    if s.Cache? {
      AgreesFilled(s.below, s'.below, fs[1..]);
    }
  }

  lemma {:induction false} ReadAtIsRead(s: Stack, depth: nat, op: Op)
    requires Inv(s) && (op.GetCoins? || op.GetNullifier?)
    ensures Inv(ReadAt(s, depth, op)) && Fills(s, ReadAt(s, depth, op))
  {
    if depth == 0 || s.Db? {
      if op.GetCoins? { FetchIsRead(s, op.txid); } else { FetchNullifierIsRead(s, op.nf); }
    } else {
      ReadAtIsRead(s.below, depth - 1, op);
      OverFilled(s, ReadAt(s.below, depth - 1, op));
      forall t ensures Look(ReadAt(s, depth, op), t) == Look(s, t) {}
      forall n ensures IsSpent(ReadAt(s, depth, op), n) == IsSpent(s, n) {}
    }
  }

  lemma ModifyAgrees(s: Stack, s': Stack, fs: seq<Flat>, t: Txid, c: CCoins)
    requires s.Cache? && Agrees(s, fs) && Changed(s, s', t, Visible(c))
    ensures Agrees(s', [fs[0].(coins := Assign(fs[0].coins, t, c))] + fs[1..])
  {
    AgreesFilled(s.below, s'.below, fs[1..]);
    var fs' := [fs[0].(coins := Assign(fs[0].coins, t, c))] + fs[1..];
    assert fs'[1..] == fs[1..];
  }

  /** One step of the stack is one step of the plain maps, and the invariant is kept. */
  lemma StepRefines(s: Stack, fs: seq<Flat>, op: Op)
    requires Inv(s) && Agrees(s, fs) && Allowed(fs, op)
    ensures s.Db? ==> op.GetCoins? || op.GetNullifier? || op.PushCache?
    ensures Inv(Step(s, op)) && Agrees(Step(s, op), FlatStep(fs, op))
  {
    match op
    case GetCoins(depth, _) =>
      ReadAtIsRead(s, depth, op);
      AgreesFilled(s, ReadAt(s, depth, op), fs);
    case GetNullifier(depth, _) =>
      ReadAtIsRead(s, depth, op);
      AgreesFilled(s, ReadAt(s, depth, op), fs);
    case Modify(t, c) =>
      ModifyCorrect(s, t, c);
      ModifyAgrees(s, Step(s, op), fs, t, Cleaned(c));
    case ModifyNew(t, c) =>
      assert Look(s.below, t) == None;
      ModifyNewCorrect(s, t, c);
      ModifyAgrees(s, Step(s, op), fs, t, Cleaned(c));
    case MarkNullifier(n, spent) =>
      SetNullifierCorrect(s, n, spent);
      assert FlatStep(fs, op)[1..] == fs[1..];
    case PushCache =>
      assert FlatStep(fs, op)[1..] == fs;
    case FlushTop =>
      FlushAgrees(s, fs);
    case DropTop =>
  }

  lemma FlushAgrees(s: Stack, fs: seq<Flat>)
    requires s.Cache? && Inv(s) && Agrees(s, fs) && |fs| >= 2
    ensures Inv(Flush(s)) && Agrees(Flush(s), [fs[0], fs[0]] + fs[2..])
  {
    FlushCorrect(s);
    var fs' := [fs[0], fs[0]] + fs[2..];
    assert fs'[1..] == [fs[0]] + fs[2..];
    assert fs'[1..][1..] == fs[1..][1..];
  }

  /** What a read at the top returns is what the plain map of the top holds. */
  lemma ReadsAgree(s: Stack, fs: seq<Flat>, t: Txid, n: Nullifier)
    requires Inv(s) && Agrees(s, fs)
    ensures var r := Fetch(s, t).1; (if r.Some? then Visible(r.value) else None) == At(fs[0].coins, t)
    ensures HaveCoins(s, t) <==> t in fs[0].coins
    ensures FetchNullifier(s, n).1 <==> n in fs[0].spent
  {
    FetchIsRead(s, t);
    HaveCoinsIsVisible(s, t);
    FetchNullifierIsRead(s, n);
  }

  function RunFlat(fs: seq<Flat>, ops: seq<Op>): Option<seq<Flat>>
    decreases |ops|
  {
    if ops == [] then Some(fs)
    else if Allowed(fs, ops[0]) then RunFlat(FlatStep(fs, ops[0]), ops[1..])
    else None
  }

  function Run(s: Stack, ops: seq<Op>): Option<Stack>
    decreases |ops|
  {
    if ops == [] then Some(s)
    else if s.Db? && !(ops[0].GetCoins? || ops[0].GetNullifier? || ops[0].PushCache?) then None
    else Run(Step(s, ops[0]), ops[1..])
  }

  /** Every run from a database shows, at every level, what the plain maps hold. */
  lemma {:induction false} RunRefines(s: Stack, fs: seq<Flat>, ops: seq<Op>)
    requires Inv(s) && Agrees(s, fs) && RunFlat(fs, ops).Some?
    ensures Run(s, ops).Some? && Inv(Run(s, ops).value) && Agrees(Run(s, ops).value, RunFlat(fs, ops).value)
    decreases |ops|
  {
    if ops != [] {
      StepRefines(s, fs, ops[0]);
      RunRefines(Step(s, ops[0]), FlatStep(fs, ops[0]), ops[1..]);
    }
  }

  /** What a database shows: its coins that are not pruned. */
  function FlatOf(coins: map<Txid, CCoins>, spent: set<Nullifier>): Flat {
    Flat(map t | t in coins && !IsPruned(coins[t]) :: coins[t], spent)
  }

  lemma DbAgrees(coins: map<Txid, CCoins>, spent: set<Nullifier>)
    ensures Agrees(Db(coins, spent), [FlatOf(coins, spent)])
  {
  }

  /** So it is from any database, with the plain maps that start as what it shows. */
  lemma RunFromDb(coins: map<Txid, CCoins>, spent: set<Nullifier>, ops: seq<Op>)
    requires Inv(Db(coins, spent)) && RunFlat([FlatOf(coins, spent)], ops).Some?
    ensures Run(Db(coins, spent), ops).Some?
    ensures Agrees(Run(Db(coins, spent), ops).value, RunFlat([FlatOf(coins, spent)], ops).value)
  {
    DbAgrees(coins, spent);
    RunRefines(Db(coins, spent), [FlatOf(coins, spent)], ops);
  }

  //
  // What holds of the coins that modifications leave holds of all that is ever held.
  //

  ghost predicate AllHeld(s: Stack, good: CCoins -> bool) {
    match s
    case Db(coins, _) => forall t :: t in coins ==> good(coins[t])
    case Cache(entries, _, below) => (forall t :: t in entries ==> good(entries[t].coins)) && AllHeld(below, good)
  }

  /** The coins that an operation puts into the cache are good. */
  predicate Leaves(op: Op, good: CCoins -> bool) {
    (op.Modify? || op.ModifyNew?) ==> good(Cleaned(op.modified))
  }

  lemma {:induction false} FetchHeld(s: Stack, t: Txid, good: CCoins -> bool)
    requires AllHeld(s, good)
    ensures AllHeld(Fetch(s, t).0, good) && (Fetch(s, t).1.Some? ==> good(Fetch(s, t).1.value))
  {
    if s.Cache? && t !in s.entries {
      FetchHeld(s.below, t, good);
    }
  }

  lemma {:induction false} FetchNullifierHeld(s: Stack, n: Nullifier, good: CCoins -> bool)
    requires AllHeld(s, good)
    ensures AllHeld(FetchNullifier(s, n).0, good)
  {
    if s.Cache? && n !in s.nfs {
      FetchNullifierHeld(s.below, n, good);
    }
  }

  lemma {:induction false} ReadAtHeld(s: Stack, depth: nat, op: Op, good: CCoins -> bool)
    requires AllHeld(s, good) && (op.GetCoins? || op.GetNullifier?)
    ensures AllHeld(ReadAt(s, depth, op), good)
  {
    if depth == 0 || s.Db? {
      if op.GetCoins? { FetchHeld(s, op.txid, good); } else { FetchNullifierHeld(s, op.nf, good); }
    } else {
      ReadAtHeld(s.below, depth - 1, op, good);
    }
  }

  lemma FlushHeld(s: Stack, good: CCoins -> bool)
    requires s.Cache? && AllHeld(s, good)
    ensures AllHeld(Flush(s), good)
  {
  }

  lemma StepHeld(s: Stack, op: Op, good: CCoins -> bool)
    requires AllHeld(s, good) && good(CLEARED) && Leaves(op, good)
    requires s.Db? ==> op.GetCoins? || op.GetNullifier? || op.PushCache?
    ensures AllHeld(Step(s, op), good)
  {
    match op
    case GetCoins(depth, _) => ReadAtHeld(s, depth, op, good);
    case GetNullifier(depth, _) => ReadAtHeld(s, depth, op, good);
    case Modify(t, c) =>
      if t !in s.entries {
        FetchHeld(s.below, t, good);
      }
    case ModifyNew(t, c) =>
    case MarkNullifier(n, spent) =>
    case PushCache =>
    case FlushTop => FlushHeld(s, good);
    case DropTop =>
  }

  /** In every run, at every level. */
  lemma {:induction false} RunHeld(s: Stack, ops: seq<Op>, good: CCoins -> bool)
    requires AllHeld(s, good) && good(CLEARED) && Run(s, ops).Some?
    requires forall i :: 0 <= i < |ops| ==> Leaves(ops[i], good)
    ensures AllHeld(Run(s, ops).value, good)
    decreases |ops|
  {
    if ops != [] {
      StepHeld(s, ops[0], good);
      RunHeld(Step(s, ops[0]), ops[1..], good);
    }
  }

  //
  // The objects of the source.
  //

  class CoinsDb {
    var coins: map<Txid, CCoins>
    var spent: set<Nullifier>

    constructor (coins: map<Txid, CCoins>, spent: set<Nullifier>)
      ensures this.coins == coins && this.spent == spent
    {
      this.coins, this.spent := coins, spent;
    }

    method BatchWrite(child: map<Txid, Entry>, childNfs: map<Nullifier, NfEntry>)
      modifies this
      ensures Db(coins, spent) == AfterBatchWrite(Db(old(coins), old(spent)), child, childNfs)
    {
      var todo := child.Keys;
      while todo != {}
        invariant todo <= child.Keys && spent == old(spent)
        invariant forall t :: t in coins <==>
                    if t in child && child[t].isDirty && t !in todo then !IsPruned(child[t].coins) else t in old(coins)
        invariant forall t :: t in coins ==>
                    coins[t] == if t in child && child[t].isDirty && t !in todo then child[t].coins else old(coins)[t]
      {
        var t :| t in todo;
        if child[t].isDirty {
          if IsPruned(child[t].coins) { coins := coins - {t}; } else { coins := coins[t := child[t].coins]; }
        }
        todo := todo - {t};
      }
      assert coins == WriteCoins(old(coins), child);
      var nfs := childNfs.Keys;
      while nfs != {}
        invariant nfs <= childNfs.Keys && coins == WriteCoins(old(coins), child)
        invariant forall n :: n in spent <==>
                    if n in childNfs && childNfs[n].isDirty && n !in nfs then childNfs[n].entered else n in old(spent)
      {
        var n :| n in nfs;
        if childNfs[n].isDirty {
          if childNfs[n].entered { spent := spent + {n}; } else { spent := spent - {n}; }
        }
        nfs := nfs - {n};
      }
      assert spent == WriteNfs(old(spent), childNfs);
    }
  }

  /** A cache over a database (`parent` is null) or over another cache. */
  class CoinsViewCache {
    var cacheCoins: map<Txid, Entry>
    var cacheNullifiers: map<Nullifier, NfEntry>
    const parent: CoinsViewCache?
    const db: CoinsDb
    ghost const depth: nat
    ghost const Repr: set<object>

    ghost predicate Linked()
      decreases depth
    {
      && this in Repr && db in Repr
      && (parent != null ==> parent.depth < depth && parent.Repr < Repr && this !in parent.Repr && parent.Linked())
    }

    ghost function Below(): Stack
      requires Linked()
      reads Repr
      decreases depth, 0
    {
      if parent == null then Db(db.coins, db.spent) else parent.Value()
    }

    ghost function Value(): Stack
      requires Linked()
      reads Repr
      decreases depth, 1
    {
      Cache(cacheCoins, cacheNullifiers, Below())
    }

    constructor OverDb(db: CoinsDb)
      ensures Linked() && parent == null && this.db == db && Repr == {this, db}
      ensures Value() == Cache(map[], map[], Db(db.coins, db.spent))
    {
      cacheCoins, cacheNullifiers, parent := map[], map[], null;
      this.db := db;
      depth, Repr := 0, {this, db};
    }

    constructor OverCache(base: CoinsViewCache)
      requires base.Linked()
      ensures Linked() && parent == base && Repr == {this} + base.Repr
      ensures Value() == Cache(map[], map[], base.Value())
    {
      cacheCoins, cacheNullifiers, parent := map[], map[], base;
      db := base.db;
      depth, Repr := base.depth + 1, {this} + base.Repr;
    }

    method FetchCoins(t: Txid) returns (r: Option<CCoins>)
      requires Linked()
      modifies Repr
      ensures (Value(), r) == Fetch(old(Value()), t)
      decreases depth
    {
      if t in cacheCoins {
        return Some(cacheCoins[t].coins);
      }
      if parent == null {
        r := if t in db.coins then Some(db.coins[t]) else None;
      } else {
        r := parent.FetchCoins(t);
      }
      if r.Some? {
        cacheCoins := cacheCoins[t := Entry(r.value, false, IsPruned(r.value))];
      }
    }

    method GetNullifier(n: Nullifier) returns (r: bool)
      requires Linked()
      modifies Repr
      ensures (Value(), r) == FetchNullifier(old(Value()), n)
      decreases depth
    {
      if n in cacheNullifiers {
        return cacheNullifiers[n].entered;
      }
      if parent == null {
        r := n in db.spent;
      } else {
        r := parent.GetNullifier(n);
      }
      cacheNullifiers := cacheNullifiers[n := NfEntry(r, false)];
    }

    /** Returns the coins that the modifier gives access to. */
    method ModifyCoins(t: Txid) returns (coins: CCoins)
      requires Linked()
      modifies Repr
      ensures Value() == Open(old(Value()), t) && coins == Value().entries[t].coins
    {
      if t in cacheCoins {
        cacheCoins := cacheCoins[t := cacheCoins[t].(isDirty := true)];
      } else {
        var r;
        if parent == null {
          r := if t in db.coins then Some(db.coins[t]) else None;
        } else {
          r := parent.FetchCoins(t);
        }
        if r.None? {
          cacheCoins := cacheCoins[t := Entry(CLEARED, true, true)];
        } else {
          cacheCoins := cacheCoins[t := Entry(r.value, true, IsPruned(r.value))];
        }
      }
      coins := cacheCoins[t].coins;
    }

    method ModifyNewCoins(t: Txid)
      requires Linked()
      modifies this
      ensures Value() == OpenNew(old(Value()), t)
    {
      cacheCoins := cacheCoins[t := Entry(CLEARED, true, true)];
    }

    /** The end of a modification that left `modified` in the entry. */
    method EndModify(t: Txid, modified: CCoins)
      requires Linked() && t in cacheCoins
      modifies this
      ensures Value() == Close(old(Value()), t, modified)
    {
      var c := Cleanup(modified);
      if cacheCoins[t].isFresh && IsPruned(c) {
        cacheCoins := cacheCoins - {t};
      } else {
        cacheCoins := cacheCoins[t := cacheCoins[t].(coins := c)];
      }
    }

    method BatchWriteCoins(child: map<Txid, Entry>)
      requires FreshWhereMissing(cacheCoins, child)
      modifies this`cacheCoins
      ensures cacheCoins == MergeCoins(old(cacheCoins), child)
    {
      ghost var ours := cacheCoins;
      var todo := child.Keys;
      while todo != {}
        invariant todo <= child.Keys
        invariant forall t :: At(cacheCoins, t) == if t in todo then At(ours, t) else Merged(ours, child, t)
      {
        var t :| t in todo;
        assert At(cacheCoins, t) == At(ours, t);
        if child[t].isDirty {
          if t !in cacheCoins {
            if !IsPruned(child[t].coins) {
              assert child[t].isFresh;
              cacheCoins := cacheCoins[t := Entry(child[t].coins, true, true)];
            }
          } else if cacheCoins[t].isFresh && IsPruned(child[t].coins) {
            cacheCoins := cacheCoins - {t};
          } else {
            cacheCoins := cacheCoins[t := cacheCoins[t].(coins := child[t].coins, isDirty := true)];
          }
        }
        todo := todo - {t};
      }
      SameMap(cacheCoins, MergeCoins(ours, child));
    }

    method BatchWriteNullifiers(child: map<Nullifier, NfEntry>)
      modifies this`cacheNullifiers
      ensures cacheNullifiers == MergeNfs(old(cacheNullifiers), child)
    {
      ghost var ours := cacheNullifiers;
      var todo := child.Keys;
      while todo != {}
        invariant todo <= child.Keys
        invariant forall n :: At(cacheNullifiers, n) == if n in todo then At(ours, n) else MergedNf(ours, child, n)
      {
        var n :| n in todo;
        assert At(cacheNullifiers, n) == At(ours, n);
        if child[n].isDirty {
          if n !in cacheNullifiers {
            cacheNullifiers := cacheNullifiers[n := NfEntry(child[n].entered, true)];
          } else if cacheNullifiers[n].entered != child[n].entered {
            cacheNullifiers := cacheNullifiers[n := NfEntry(child[n].entered, true)];
          }
        }
        todo := todo - {n};
      }
      SameMap(cacheNullifiers, MergeNfs(ours, child));
    }

    method BatchWrite(child: map<Txid, Entry>, childNfs: map<Nullifier, NfEntry>)
      requires Linked() && FreshWhereMissing(cacheCoins, child)
      modifies this
      ensures Value() == AfterBatchWrite(old(Value()), child, childNfs)
    {
      BatchWriteCoins(child);
      BatchWriteNullifiers(childNfs);
      assert Below() == old(Below());
    }

    method FlushAll()
      requires Linked() && Inv(Value())
      modifies Repr
      ensures Value() == Flush(old(Value()))
    {
      if parent == null {
        db.BatchWrite(cacheCoins, cacheNullifiers);
      } else {
        assert Value().below == parent.Value();
        FreshAssertionHolds(Value());
        parent.BatchWrite(cacheCoins, cacheNullifiers);
        assert Below() == parent.Value();
      }
      cacheCoins, cacheNullifiers := map[], map[];
    }
  }

  lemma SameMap<K, V>(a: map<K, V>, b: map<K, V>)
    requires forall k :: At(a, k) == At(b, k)
    ensures a == b
  {
    assert forall k :: k in a ==> At(a, k) == At(b, k);
    assert forall k :: k in b ==> At(a, k) == At(b, k);
  }
}
