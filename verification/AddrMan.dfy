/**
The address manager (CAddrMan, src/addrman.cpp and src/addrman.h): two hash tables of
address ids, with five redundant indexes and two counters.

The bucket hashes are arbitrary functions, and the clock and the random numbers are
parameters.  A table slot that holds -1 in the source is a slot without an entry here.
The operations are given on values here, where the invariant that Check_ tests is
proved to hold after every run; module AddrManager performs them in place.
*/
module AddrMan {
  import opened Common

  const TRIED_BUCKETS: nat := 256
  const NEW_BUCKETS: nat := 1024
  const BUCKET_SIZE: nat := 64
  const NEW_BUCKETS_PER_ADDRESS: nat := 8

  /** A network address without its port; a service is an address with a port. */
  type NetAddr = nat
  datatype Service = Service(net: NetAddr, port: nat)
  datatype Address = Address(service: Service, nTime: int, nServices: bv64)

  datatype Info = Info(
    service: Service, nTime: int, nServices: bv64, source: NetAddr,
    nLastTry: int, nLastSuccess: int, nAttempts: int,
    nRefCount: int, fInTried: bool, nRandomPos: int)

  datatype Slot = Slot(bucket: nat, pos: nat)

  /** The keyed hashes behind GetTriedBucket, GetNewBucket and GetBucketPosition. */
  datatype Hashes = Hashes(
    tried: Service -> nat,
    unverified: (Service, NetAddr) -> nat,
    position: (bool, nat, Service) -> nat)

  function TriedSlot(h: Hashes, sv: Service): Slot {
    var b := h.tried(sv) % TRIED_BUCKETS;
    Slot(b, h.position(false, b, sv) % BUCKET_SIZE)
  }

  function NewBucket(h: Hashes, sv: Service, source: NetAddr): nat {
    h.unverified(sv, source) % NEW_BUCKETS
  }

  function NewSlot(h: Hashes, sv: Service, bucket: nat): Slot {
    Slot(bucket, h.position(true, bucket, sv) % BUCKET_SIZE)
  }

  /** The sizes of the tables, written out. */
  lemma SlotsOf(h: Hashes, sv: Service, source: NetAddr, bucket: nat)
    ensures TriedSlot(h, sv).bucket == h.tried(sv) % 256
    ensures TriedSlot(h, sv).pos == h.position(false, h.tried(sv) % 256, sv) % 64
    ensures NewBucket(h, sv, source) == h.unverified(sv, source) % 1024
    ensures NewSlot(h, sv, bucket) == Slot(bucket, h.position(true, bucket, sv) % 64)
  {
  }

  type Table = map<Slot, int>

  datatype State = State(
    h: Hashes, nIdCount: int, mapInfo: map<int, Info>, mapAddr: map<NetAddr, int>,
    vRandom: seq<int>, nTried: int, nNew: int, vvTried: Table, vvNew: Table)

  function Empty(h: Hashes): State {
    State(h, 0, map[], map[], [], 0, 0, map[], map[])
  }

  //
  // The invariant, condition by condition as Check_ lists them.
  //

  /** The buckets of the new table whose slot for this service holds the id. */
  function Slots(h: Hashes, vvNew: Table, sv: Service, id: int): set<nat> {
    set b: nat | 0 <= b < NEW_BUCKETS && NewSlot(h, sv, b) in vvNew && vvNew[NewSlot(h, sv, b)] == id
  }

  function TriedIds(m: map<int, Info>): set<int> {
    set id | id in m && m[id].fInTried
  }

  function NewIds(m: map<int, Info>): set<int> {
    set id | id in m && !m[id].fInTried
  }

  /** mapAddr and mapInfo are inverse to each other (-5). */
  ghost predicate IdHasAddr(s: State, id: int) {
    id in s.mapInfo ==>
      0 <= id < s.nIdCount && s.mapInfo[id].service.net in s.mapAddr && s.mapAddr[s.mapInfo[id].service.net] == id
  }

  ghost predicate AddrHasId(s: State, a: NetAddr) {
    a in s.mapAddr ==> s.mapAddr[a] in s.mapInfo && s.mapInfo[s.mapAddr[a]].service.net == a
  }

  ghost predicate AddrOk(s: State) {
    && (forall id {:trigger IdHasAddr(s, id)} :: IdHasAddr(s, id))
    && (forall a {:trigger AddrHasId(s, a)} :: AddrHasId(s, a))
  }

  /** vRandom is a permutation of the ids and nRandomPos is its inverse (-14). */
  ghost predicate IdHasPos(s: State, id: int) {
    id in s.mapInfo ==> 0 <= s.mapInfo[id].nRandomPos < |s.vRandom| && s.vRandom[s.mapInfo[id].nRandomPos] == id
  }

  ghost predicate PosHasId(s: State, i: int) {
    0 <= i < |s.vRandom| ==> s.vRandom[i] in s.mapInfo && s.mapInfo[s.vRandom[i]].nRandomPos == i
  }

  ghost predicate RandomOk(s: State) {
    && (forall id {:trigger IdHasPos(s, id)} :: IdHasPos(s, id))
    && (forall i {:trigger PosHasId(s, i)} :: PosHasId(s, i))
  }

  /** Tried entries sit in exactly their own slot and have no references (-2, -11, -13, -17, -18). */
  ghost predicate TriedSlotOk(s: State, sl: Slot) {
    sl in s.vvTried ==>
      && s.vvTried[sl] in s.mapInfo && s.mapInfo[s.vvTried[sl]].fInTried
      && sl == TriedSlot(s.h, s.mapInfo[s.vvTried[sl]].service)
  }

  ghost predicate TriedIdOk(s: State, id: int) {
    id in s.mapInfo && s.mapInfo[id].fInTried ==>
      && s.mapInfo[id].nRefCount == 0
      && TriedSlot(s.h, s.mapInfo[id].service) in s.vvTried
      && s.vvTried[TriedSlot(s.h, s.mapInfo[id].service)] == id
  }

  ghost predicate TriedOk(s: State) {
    && (forall sl {:trigger TriedSlotOk(s, sl)} :: TriedSlotOk(s, sl))
    && (forall id {:trigger TriedIdOk(s, id)} :: TriedIdOk(s, id))
  }

  /** Slots of the new table hold untried entries, at the position their hash gives (-12, -19). */
  ghost predicate NewSlotOk(s: State, sl: Slot) {
    sl in s.vvNew ==>
      && s.vvNew[sl] in s.mapInfo && !s.mapInfo[s.vvNew[sl]].fInTried
      && sl.bucket < NEW_BUCKETS && sl == NewSlot(s.h, s.mapInfo[s.vvNew[sl]].service, sl.bucket)
  }

  ghost predicate NewOk(s: State) {
    forall sl {:trigger NewSlotOk(s, sl)} :: NewSlotOk(s, sl)
  }

  /** Reference counts are exact, at most 8, and at least 1 but for waived ids (-3, -4, -15). */
  ghost predicate RefOk(s: State, waived: set<int>, id: int) {
    id in s.mapInfo && !s.mapInfo[id].fInTried ==>
      && s.mapInfo[id].nRefCount == |Slots(s.h, s.vvNew, s.mapInfo[id].service, id)|
      && s.mapInfo[id].nRefCount <= NEW_BUCKETS_PER_ADDRESS
      && (id !in waived ==> s.mapInfo[id].nRefCount >= 1)
  }

  ghost predicate RefsOk(s: State, waived: set<int>) {
    forall id {:trigger RefOk(s, waived, id)} :: RefOk(s, waived, id)
  }

  /** The counters are exact but for ids not counted yet (-7, -9, -10). */
  ghost predicate CountsOk(s: State, uncounted: int) {
    && s.nTried == |TriedIds(s.mapInfo)|
    && s.nNew == |NewIds(s.mapInfo)| - uncounted
    && s.nIdCount >= 0
  }

  /** The invariant inside an operation: some ids may lack references or not be counted. */
  ghost predicate Partial(s: State, waived: set<int>, uncounted: int) {
    AddrOk(s) && RandomOk(s) && TriedOk(s) && NewOk(s) && RefsOk(s, waived) && CountsOk(s, uncounted)
  }

  ghost predicate Inv(s: State) {
    Partial(s, {}, 0)
  }

  /** The size test of Check_ (-7) follows from the rest. */
  lemma SizeIsSum(s: State)
    requires Inv(s)
    ensures |s.vRandom| == |s.mapInfo| == s.nTried + s.nNew
  {
    assert s.mapInfo.Keys == TriedIds(s.mapInfo) + NewIds(s.mapInfo);
    forall id ensures id in s.mapInfo <==> id in s.vRandom {
      assert IdHasPos(s, id);
      if i :| 0 <= i < |s.vRandom| && s.vRandom[i] == id {
        assert PosHasId(s, i);
      }
    }
    forall i, j | 0 <= i < j < |s.vRandom| ensures s.vRandom[i] != s.vRandom[j] {
      assert PosHasId(s, i) && PosHasId(s, j);
    }
    SeqOfDistinct(s.vRandom, s.mapInfo.Keys);
  }

  lemma {:induction false} SeqOfDistinct(xs: seq<int>, keys: set<int>)
    requires forall i, j :: 0 <= i < j < |xs| ==> xs[i] != xs[j]
    requires forall k :: k in keys <==> k in xs
    ensures |xs| == |keys|
  {
    if xs == [] {
      assert forall k :: k !in keys;
    } else {
      var rest := xs[..|xs| - 1];
      assert xs == rest + [xs[|xs| - 1]];
      SeqOfDistinct(rest, keys - {xs[|xs| - 1]});
    }
  }

  //
  // The primitive changes of state.
  //

  function Create(s: State, addr: Address, source: NetAddr): State {
    var id := s.nIdCount;
    s.(nIdCount := id + 1,
       mapInfo := s.mapInfo[id := Info(addr.service, addr.nTime, addr.nServices, source, 0, 0, 0, 0, false, |s.vRandom|)],
       mapAddr := s.mapAddr[addr.service.net := id],
       vRandom := s.vRandom + [id])
  }

  function SwapRandom(s: State, i: int, j: int): State
    requires i == j || (0 <= i < |s.vRandom| && 0 <= j < |s.vRandom|)
    requires i != j ==> s.vRandom[i] in s.mapInfo && s.vRandom[j] in s.mapInfo
  {
    if i == j then s
    else
      var id1, id2 := s.vRandom[i], s.vRandom[j];
      var m1 := s.mapInfo[id1 := s.mapInfo[id1].(nRandomPos := j)];
      s.(mapInfo := m1[id2 := m1[id2].(nRandomPos := i)], vRandom := s.vRandom[i := id2][j := id1])
  }

  function Delete(s: State, id: int): State
    requires id in s.mapInfo && RandomOk(s)
  {
    assert IdHasPos(s, id) && PosHasId(s, |s.vRandom| - 1);
    var s1 := SwapRandom(s, s.mapInfo[id].nRandomPos, |s.vRandom| - 1);
    s1.(vRandom := s1.vRandom[..|s1.vRandom| - 1],
        mapAddr := s.mapAddr - {s.mapInfo[id].service.net},
        mapInfo := s1.mapInfo - {id},
        nNew := s.nNew - 1)
  }

  /** Take an id out of a slot of the new table. */
  function Unlink(s: State, sl: Slot): State
    requires sl in s.vvNew && s.vvNew[sl] in s.mapInfo
  {
    var id := s.vvNew[sl];
    s.(mapInfo := s.mapInfo[id := s.mapInfo[id].(nRefCount := s.mapInfo[id].nRefCount - 1)],
       vvNew := s.vvNew - {sl})
  }

  /** Put an id into a free slot of the new table. */
  function Link(s: State, id: int, sl: Slot): State
    requires id in s.mapInfo
  {
    s.(mapInfo := s.mapInfo[id := s.mapInfo[id].(nRefCount := s.mapInfo[id].nRefCount + 1)],
       vvNew := s.vvNew[sl := id])
  }

  function LeaveTried(s: State, sl: Slot): State
    requires sl in s.vvTried && s.vvTried[sl] in s.mapInfo
  {
    var id := s.vvTried[sl];
    s.(mapInfo := s.mapInfo[id := s.mapInfo[id].(fInTried := false)],
       vvTried := s.vvTried - {sl}, nTried := s.nTried - 1)
  }

  function EnterTried(s: State, id: int, sl: Slot): State
    requires id in s.mapInfo
  {
    s.(mapInfo := s.mapInfo[id := s.mapInfo[id].(fInTried := true)],
       vvTried := s.vvTried[sl := id], nTried := s.nTried + 1)
  }

  /** Statistics of an entry change, its place in the indexes does not. */
  predicate SamePlace(a: Info, b: Info) {
    a.service == b.service && a.source == b.source && a.nRefCount == b.nRefCount && a.fInTried == b.fInTried && a.nRandomPos == b.nRandomPos
  }

  //
  // What each primitive keeps.
  //

  lemma CreateKeeps(s: State, addr: Address, source: NetAddr, waived: set<int>, uncounted: int)
    requires Partial(s, waived, uncounted) && addr.service.net !in s.mapAddr
    ensures s.nIdCount !in s.mapInfo
    ensures Partial(Create(s, addr, source), waived + {s.nIdCount}, uncounted + 1)
  {
    hide AddrOk;
    hide RandomOk;
    hide TriedOk;
    hide NewOk;
    hide RefsOk;
    NextIsNew(s);
    CreateIndexes(s, addr, source);
    CreateTables(s, addr, source, waived);
    CreateCounts(s, addr, source);
    hide NewIds;
    hide TriedIds;
  }

  lemma CreateCounts(s: State, addr: Address, source: NetAddr)
    requires s.nIdCount !in s.mapInfo
    ensures |NewIds(Create(s, addr, source).mapInfo)| == |NewIds(s.mapInfo)| + 1
    ensures TriedIds(Create(s, addr, source).mapInfo) == TriedIds(s.mapInfo)
  {
    var id, s' := s.nIdCount, Create(s, addr, source);
    assert NewIds(s'.mapInfo) == NewIds(s.mapInfo) + {id};
  }

  lemma NextIsNew(s: State)
    requires AddrOk(s)
    ensures s.nIdCount !in s.mapInfo
  {
    assert IdHasAddr(s, s.nIdCount);
  }

  lemma CreateIndexes(s: State, addr: Address, source: NetAddr)
    requires AddrOk(s) && RandomOk(s) && addr.service.net !in s.mapAddr && s.nIdCount !in s.mapInfo && s.nIdCount >= 0
    ensures AddrOk(Create(s, addr, source)) && RandomOk(Create(s, addr, source))
  {
    var s' := Create(s, addr, source);
    forall i ensures IdHasAddr(s', i) { assert IdHasAddr(s, i); }
    forall a ensures AddrHasId(s', a) { assert AddrHasId(s, a); }
    forall i ensures IdHasPos(s', i) { assert IdHasPos(s, i); }
    forall i ensures PosHasId(s', i) { assert PosHasId(s, i); }
  }

  lemma CreateTables(s: State, addr: Address, source: NetAddr, waived: set<int>)
    requires TriedOk(s) && NewOk(s) && RefsOk(s, waived) && s.nIdCount !in s.mapInfo
    ensures TriedOk(Create(s, addr, source)) && NewOk(Create(s, addr, source))
    ensures RefsOk(Create(s, addr, source), waived + {s.nIdCount})
  {
    var id, s' := s.nIdCount, Create(s, addr, source);
    forall sl ensures TriedSlotOk(s', sl) { assert TriedSlotOk(s, sl); }
    forall i ensures TriedIdOk(s', i) { assert TriedIdOk(s, i); }
    forall sl ensures NewSlotOk(s', sl) { assert NewSlotOk(s, sl); }
    forall i ensures RefOk(s', waived + {id}, i) {
      if i == id {
        NoSlots(s, addr.service, id);
      } else {
        assert RefOk(s, waived, i);
      }
    }
  }

  /** An id without an entry is in no slot of the new table. */
  lemma NoSlots(s: State, sv: Service, id: int)
    requires NewOk(s) && id !in s.mapInfo
    ensures Slots(s.h, s.vvNew, sv, id) == {}
  {
    forall b ensures b !in Slots(s.h, s.vvNew, sv, id) {
      assert NewSlotOk(s, NewSlot(s.h, sv, b));
    }
  }

  /** nRandomPos plays no part in the tables or the counters. */
  lemma ReorderKeeps(s: State, s': State, waived: set<int>, uncounted: int)
    requires Partial(s, waived, uncounted) && RandomOk(s')
    requires OnlyReordered(s, s')
    ensures Partial(s', waived, uncounted)
  {
    forall id ensures (id in s.mapInfo <==> id in s'.mapInfo) && (id in s.mapInfo ==> SameButPos(s.mapInfo[id], s'.mapInfo[id])) {
      assert id in s.mapInfo.Keys <==> id in s'.mapInfo.Keys;
    }
    assert NewIds(s'.mapInfo) == NewIds(s.mapInfo);
    assert TriedIds(s'.mapInfo) == TriedIds(s.mapInfo);
    forall i ensures IdHasAddr(s', i) { assert IdHasAddr(s, i); }
    forall a ensures AddrHasId(s', a) { assert AddrHasId(s, a); }
    forall sl ensures TriedSlotOk(s', sl) { assert TriedSlotOk(s, sl); }
    forall i ensures TriedIdOk(s', i) { assert TriedIdOk(s, i); }
    forall sl ensures NewSlotOk(s', sl) { assert NewSlotOk(s, sl); }
    forall i ensures RefOk(s', waived, i) { assert RefOk(s, waived, i); }
  }

  lemma SwapKeeps(s: State, i: int, j: int, waived: set<int>, uncounted: int)
    requires Partial(s, waived, uncounted)
    requires 0 <= i < |s.vRandom| && 0 <= j < |s.vRandom|
    ensures s.vRandom[i] in s.mapInfo && s.vRandom[j] in s.mapInfo
    ensures Partial(SwapRandom(s, i, j), waived, uncounted)
    ensures OnlyReordered(s, SwapRandom(s, i, j))
    ensures SwapRandom(s, i, j).vRandom == s.vRandom[i := s.vRandom[j]][j := s.vRandom[i]]
  {
    hide AddrOk;
    hide TriedOk;
    hide NewOk;
    hide RefsOk;
    hide CountsOk;
    assert PosHasId(s, i) && PosHasId(s, j);
    var s' := SwapRandom(s, i, j);
    assert s'.mapInfo.Keys == s.mapInfo.Keys;
    forall k ensures IdHasPos(s', k) { assert IdHasPos(s, k); }
    forall k ensures PosHasId(s', k) { assert PosHasId(s, k); }
    ReorderKeeps(s, s', waived, uncounted);
  }

  /** Only vRandom and its inverse may differ. */
  ghost predicate OnlyReordered(s: State, s': State) {
    && s' == s.(mapInfo := s'.mapInfo, vRandom := s'.vRandom)
    && s'.mapInfo.Keys == s.mapInfo.Keys
    && forall id :: id in s.mapInfo ==> SameButPos(s.mapInfo[id], s'.mapInfo[id])
  }

  ghost predicate SameButPos(a: Info, b: Info) {
    b == a.(nRandomPos := b.nRandomPos)
  }

  lemma DeleteKeeps(s: State, id: int, waived: set<int>, uncounted: int)
    requires Partial(s, waived, uncounted)
    requires id in s.mapInfo && !s.mapInfo[id].fInTried && s.mapInfo[id].nRefCount == 0
    ensures Partial(Delete(s, id), waived - {id}, uncounted)
    ensures DeletedOnly(s, id, Delete(s, id))
  {
    assert IdHasPos(s, id);
    SwapKeeps(s, s.mapInfo[id].nRandomPos, |s.vRandom| - 1, waived, uncounted);
    var s1 := SwapRandom(s, s.mapInfo[id].nRandomPos, |s.vRandom| - 1);
    RemoveLast(s1, id, Delete(s, id), waived, uncounted);
  }

  ghost predicate DeletedOnly(s: State, id: int, s': State) {
    && s'.h == s.h && s'.vvNew == s.vvNew && s'.vvTried == s.vvTried
    && s'.mapInfo.Keys == s.mapInfo.Keys - {id}
    && forall i :: i in s.mapInfo && i != id ==> SameButPos(s.mapInfo[i], s'.mapInfo[i])
  }

  lemma HolderHasReference(s: State, sl: Slot, waived: set<int>)
    requires NewOk(s) && RefsOk(s, waived)
    ensures NewSlotOk(s, sl) && (sl in s.vvNew ==> s.mapInfo[s.vvNew[sl]].nRefCount >= 1)
  {
    assert NewSlotOk(s, sl);
    if sl in s.vvNew {
      var id := s.vvNew[sl];
      assert RefOk(s, waived, id);
      assert sl.bucket in Slots(s.h, s.vvNew, s.mapInfo[id].service, id);
    }
  }

  lemma RemoveLast(s: State, id: int, s': State, waived: set<int>, uncounted: int)
    requires Partial(s, waived, uncounted)
    requires id in s.mapInfo && !s.mapInfo[id].fInTried && s.mapInfo[id].nRefCount == 0
    requires s.vRandom[|s.vRandom|..] == [] && |s.vRandom| > 0 && s.vRandom[|s.vRandom| - 1] == id
    requires s' == s.(vRandom := s.vRandom[..|s.vRandom| - 1], mapAddr := s.mapAddr - {s.mapInfo[id].service.net},
                      mapInfo := s.mapInfo - {id}, nNew := s.nNew - 1)
    ensures Partial(s', waived - {id}, uncounted)
  {
    assert PosHasId(s, |s.vRandom| - 1);
    assert NewIds(s'.mapInfo) == NewIds(s.mapInfo) - {id};
    assert TriedIds(s'.mapInfo) == TriedIds(s.mapInfo);
    assert RefOk(s, waived, id);
    forall i ensures IdHasAddr(s', i) { assert IdHasAddr(s, i) && IdHasAddr(s, id); }
    forall a ensures AddrHasId(s', a) { assert AddrHasId(s, a) && IdHasAddr(s, id); }
    forall i ensures IdHasPos(s', i) { assert IdHasPos(s, i) && IdHasPos(s, id); }
    forall i ensures PosHasId(s', i) { assert PosHasId(s, i); }
    forall sl ensures TriedSlotOk(s', sl) { assert TriedSlotOk(s, sl); }
    forall i ensures TriedIdOk(s', i) { assert TriedIdOk(s, i); }
    forall sl ensures NewSlotOk(s', sl) {
      HolderHasReference(s, sl, waived);
    }
    forall i ensures RefOk(s', waived - {id}, i) { assert RefOk(s, waived, i); }
  }

  /** One slot of the new table changed, and neither its old nor its new holder is `id`. */
  lemma SlotsChange(h: Hashes, vvNew: Table, vvNew': Table, sl: Slot, sv: Service, id: int)
    requires forall x :: x != sl ==> (x in vvNew <==> x in vvNew') && (x in vvNew ==> vvNew'[x] == vvNew[x])
    requires sl in vvNew ==> vvNew[sl] != id
    requires sl in vvNew' ==> vvNew'[sl] != id
    ensures Slots(h, vvNew', sv, id) == Slots(h, vvNew, sv, id)
  {
  }

  /** An entry changed without moving in mapAddr or vRandom. */
  lemma OneInfo(s: State, id: int, s': State)
    requires id in s.mapInfo && AddrOk(s) && RandomOk(s)
    requires s'.mapAddr == s.mapAddr && s'.vRandom == s.vRandom && s'.nIdCount == s.nIdCount
    requires exists info :: s'.mapInfo == s.mapInfo[id := info] && info.service == s.mapInfo[id].service && info.nRandomPos == s.mapInfo[id].nRandomPos
    ensures AddrOk(s') && RandomOk(s')
  {
    forall i ensures IdHasAddr(s', i) { assert IdHasAddr(s, i); }
    forall a ensures AddrHasId(s', a) { assert AddrHasId(s, a); }
    forall i ensures IdHasPos(s', i) { assert IdHasPos(s, i); }
    forall i ensures PosHasId(s', i) { assert PosHasId(s, i); }
  }

  lemma UnlinkKeeps(s: State, sl: Slot, waived: set<int>, uncounted: int)
    requires Partial(s, waived, uncounted) && sl in s.vvNew
    ensures s.vvNew[sl] in s.mapInfo && !s.mapInfo[s.vvNew[sl]].fInTried && s.mapInfo[s.vvNew[sl]].nRefCount >= 1
    ensures Partial(Unlink(s, sl), waived + {s.vvNew[sl]}, uncounted)
  {
    assert NewSlotOk(s, sl);
    var id, s' := s.vvNew[sl], Unlink(s, sl);
    var sv := s.mapInfo[id].service;
    OneInfo(s, id, s');
    assert NewIds(s'.mapInfo) == NewIds(s.mapInfo);
    assert TriedIds(s'.mapInfo) == TriedIds(s.mapInfo);
    forall x ensures TriedSlotOk(s', x) { assert TriedSlotOk(s, x); }
    forall i ensures TriedIdOk(s', i) { assert TriedIdOk(s, i); }
    forall x ensures NewSlotOk(s', x) { assert NewSlotOk(s, x); }
    assert RefOk(s, waived, id);
    assert sl.bucket in Slots(s.h, s.vvNew, sv, id);
    assert Slots(s.h, s'.vvNew, sv, id) == Slots(s.h, s.vvNew, sv, id) - {sl.bucket};
    forall i ensures RefOk(s', waived + {id}, i) {
      assert RefOk(s, waived, i);
      if i in s.mapInfo && i != id {
        SlotsChange(s.h, s.vvNew, s'.vvNew, sl, s.mapInfo[i].service, i);
      }
    }
  }

  lemma LinkKeeps(s: State, id: int, bucket: nat, waived: set<int>, uncounted: int)
    requires Partial(s, waived, uncounted) && bucket < NEW_BUCKETS
    requires id in s.mapInfo && !s.mapInfo[id].fInTried && s.mapInfo[id].nRefCount < NEW_BUCKETS_PER_ADDRESS
    requires NewSlot(s.h, s.mapInfo[id].service, bucket) !in s.vvNew
    ensures Partial(Link(s, id, NewSlot(s.h, s.mapInfo[id].service, bucket)), waived - {id}, uncounted)
  {
    var sl := NewSlot(s.h, s.mapInfo[id].service, bucket);
    var s' := Link(s, id, sl);
    OneInfo(s, id, s');
    assert NewIds(s'.mapInfo) == NewIds(s.mapInfo);
    assert TriedIds(s'.mapInfo) == TriedIds(s.mapInfo);
    forall x ensures TriedSlotOk(s', x) { assert TriedSlotOk(s, x); }
    forall i ensures TriedIdOk(s', i) { assert TriedIdOk(s, i); }
    forall x ensures NewSlotOk(s', x) { assert NewSlotOk(s, x); }
    forall i ensures RefOk(s', waived - {id}, i) { LinkRefs(s, id, bucket, waived, i); }
  }

  lemma LinkRefs(s: State, id: int, bucket: nat, waived: set<int>, i: int)
    requires RefsOk(s, waived) && bucket < NEW_BUCKETS
    requires id in s.mapInfo && !s.mapInfo[id].fInTried && s.mapInfo[id].nRefCount < NEW_BUCKETS_PER_ADDRESS
    requires NewSlot(s.h, s.mapInfo[id].service, bucket) !in s.vvNew
    ensures RefOk(Link(s, id, NewSlot(s.h, s.mapInfo[id].service, bucket)), waived - {id}, i)
  {
    var sv := s.mapInfo[id].service;
    var sl := NewSlot(s.h, sv, bucket);
    var vvNew' := s.vvNew[sl := id];
    assert RefOk(s, waived, i);
    if i == id {
      SlotsLink(s.h, s.vvNew, sv, id, bucket);
    } else if i in s.mapInfo {
      SlotsChange(s.h, s.vvNew, vvNew', sl, s.mapInfo[i].service, i);
    }
    hide Slots;
    hide NewSlot;
  }

  lemma SlotsLink(h: Hashes, vvNew: Table, sv: Service, id: int, bucket: nat)
    requires bucket < NEW_BUCKETS && NewSlot(h, sv, bucket) !in vvNew
    ensures |Slots(h, vvNew[NewSlot(h, sv, bucket) := id], sv, id)| == |Slots(h, vvNew, sv, id)| + 1
  {
    var vvNew' := vvNew[NewSlot(h, sv, bucket) := id];
    assert bucket !in Slots(h, vvNew, sv, id);
    assert Slots(h, vvNew', sv, id) == Slots(h, vvNew, sv, id) + {bucket};
  }

  lemma LeaveTriedKeeps(s: State, sl: Slot, waived: set<int>, uncounted: int)
    requires Partial(s, waived, uncounted) && sl in s.vvTried
    ensures s.vvTried[sl] in s.mapInfo && s.mapInfo[s.vvTried[sl]].fInTried && s.mapInfo[s.vvTried[sl]].nRefCount == 0
    ensures Partial(LeaveTried(s, sl), waived + {s.vvTried[sl]}, uncounted + 1)
  {
    assert TriedSlotOk(s, sl);
    var id, s' := s.vvTried[sl], LeaveTried(s, sl);
    assert TriedIdOk(s, id);
    OneInfo(s, id, s');
    assert NewIds(s'.mapInfo) == NewIds(s.mapInfo) + {id};
    assert TriedIds(s'.mapInfo) == TriedIds(s.mapInfo) - {id};
    forall x ensures TriedSlotOk(s', x) { assert TriedSlotOk(s, x); }
    forall i ensures TriedIdOk(s', i) { assert TriedIdOk(s, i); }
    forall x ensures NewSlotOk(s', x) { assert NewSlotOk(s, x); }
    forall i ensures RefOk(s', waived + {id}, i) {
      assert RefOk(s, waived, i);
      if i == id {
        TriedHasNoSlots(s, id);
      }
    }
  }

  lemma TriedHasNoSlots(s: State, id: int)
    requires NewOk(s) && id in s.mapInfo && s.mapInfo[id].fInTried
    ensures Slots(s.h, s.vvNew, s.mapInfo[id].service, id) == {}
  {
    forall b ensures b !in Slots(s.h, s.vvNew, s.mapInfo[id].service, id) {
      assert NewSlotOk(s, NewSlot(s.h, s.mapInfo[id].service, b));
    }
  }

  lemma EnterTriedKeeps(s: State, id: int, waived: set<int>, uncounted: int)
    requires Partial(s, waived, uncounted)
    requires id in s.mapInfo && !s.mapInfo[id].fInTried && s.mapInfo[id].nRefCount == 0
    requires TriedSlot(s.h, s.mapInfo[id].service) !in s.vvTried
    ensures Partial(EnterTried(s, id, TriedSlot(s.h, s.mapInfo[id].service)), waived - {id}, uncounted - 1)
  {
    var sl := TriedSlot(s.h, s.mapInfo[id].service);
    var s' := EnterTried(s, id, sl);
    OneInfo(s, id, s');
    assert RefOk(s, waived, id);
    assert NewIds(s'.mapInfo) == NewIds(s.mapInfo) - {id};
    assert TriedIds(s'.mapInfo) == TriedIds(s.mapInfo) + {id};
    forall x ensures TriedSlotOk(s', x) { assert TriedSlotOk(s, x); }
    forall i ensures TriedIdOk(s', i) { assert TriedIdOk(s, i); }
    forall x ensures NewSlotOk(s', x) {
      HolderHasReference(s, x, waived);
    }
    forall i ensures RefOk(s', waived - {id}, i) { assert RefOk(s, waived, i); }
  }

  lemma TouchKeeps(s: State, id: int, info: Info, waived: set<int>, uncounted: int)
    requires Partial(s, waived, uncounted) && id in s.mapInfo && SamePlace(info, s.mapInfo[id])
    ensures Partial(s.(mapInfo := s.mapInfo[id := info]), waived, uncounted)
  {
    var s' := s.(mapInfo := s.mapInfo[id := info]);
    OneInfo(s, id, s');
    assert NewIds(s'.mapInfo) == NewIds(s.mapInfo);
    assert TriedIds(s'.mapInfo) == TriedIds(s.mapInfo);
    forall x ensures TriedSlotOk(s', x) { assert TriedSlotOk(s, x); }
    forall i ensures TriedIdOk(s', i) { assert TriedIdOk(s, i); }
    forall x ensures NewSlotOk(s', x) { assert NewSlotOk(s, x); }
    forall i ensures RefOk(s', waived, i) { assert RefOk(s, waived, i); }
  }

  /** A waiver may be dropped for an entry that has a reference, or is gone, or is tried. */
  lemma DropWaiver(s: State, id: int, waived: set<int>, uncounted: int)
    requires Partial(s, waived, uncounted)
    requires id in s.mapInfo && !s.mapInfo[id].fInTried ==> s.mapInfo[id].nRefCount >= 1
    ensures Partial(s, waived - {id}, uncounted)
  {
    forall i ensures RefOk(s, waived - {id}, i) { assert RefOk(s, waived, i); }
  }

  //
  // The operations.
  //

  /** Holds at every point inside an operation. */
  ghost predicate Sound(s: State) {
    Partial(s, s.mapInfo.Keys, |NewIds(s.mapInfo)| - s.nNew)
  }

  lemma PartialIsSound(s: State, waived: set<int>, uncounted: int)
    requires Partial(s, waived, uncounted)
    ensures Sound(s)
  {
    forall i ensures RefOk(s, s.mapInfo.Keys, i) { assert RefOk(s, waived, i); }
  }

  function ClearNew(s: State, sl: Slot): State
    requires Sound(s)
  {
    if sl !in s.vvNew then s
    else
      UnlinkKeeps(s, sl, s.mapInfo.Keys, |NewIds(s.mapInfo)| - s.nNew);
      var s1 := Unlink(s, sl);
      if s1.mapInfo[s.vvNew[sl]].nRefCount == 0 then Delete(s1, s.vvNew[sl]) else s1
  }

  lemma ClearNewKeeps(s: State, sl: Slot, waived: set<int>, uncounted: int)
    requires Partial(s, waived, uncounted)
    ensures Sound(s) && Partial(ClearNew(s, sl), waived, uncounted)
    ensures var s' := ClearNew(s, sl); sl !in s'.vvNew && s'.vvTried == s.vvTried && s'.h == s.h && LosesAtMost(s, sl, s')
  {
    PartialIsSound(s, waived, uncounted);
    if sl in s.vvNew {
      UnlinkKeeps(s, sl, waived, uncounted);
      var id, s1 := s.vvNew[sl], Unlink(s, sl);
      if s1.mapInfo[id].nRefCount == 0 {
        DeleteKeeps(s1, id, waived + {id}, uncounted);
        if id in waived {
          WaiveMore(ClearNew(s, sl), waived + {id} - {id}, waived, uncounted);
        } else {
          assert waived + {id} - {id} == waived;
        }
      } else {
        DropWaiver(s1, id, waived + {id}, uncounted);
        WaiveMore(s1, waived + {id} - {id}, waived, uncounted);
      }
    }
  }

  /** The statistics agree; the place in the tables may differ. */
  ghost predicate SameStats(a: Info, b: Info) {
    b == a.(nRefCount := b.nRefCount, fInTried := b.fInTried, nRandomPos := b.nRandomPos)
  }

  /** Every entry left has its statistics. */
  ghost predicate StatsKept(s: State, s': State) {
    s'.mapInfo.Keys <= s.mapInfo.Keys && forall i :: i in s'.mapInfo ==> SameStats(s.mapInfo[i], s'.mapInfo[i])
  }

  /** The entry whose last reference a slot of the new table is. */
  ghost predicate LastReference(s: State, sl: Slot, id: int) {
    sl in s.vvNew && s.vvNew[sl] == id && id in s.mapInfo && s.mapInfo[id].nRefCount == 1
  }

  /** ClearNew frees the slot, and forgets its holder exactly if that was its last reference. */
  lemma ClearNewExact(s: State, sl: Slot)
    requires Sound(s)
    ensures var s' := ClearNew(s, sl);
            && s'.vvNew == s.vvNew - {sl} && s'.vvTried == s.vvTried && StatsKept(s, s')
            && (forall i :: i in s.mapInfo ==> (i in s'.mapInfo <==> !LastReference(s, sl, i)))
  {
    if sl in s.vvNew {
      UnlinkKeeps(s, sl, s.mapInfo.Keys, |NewIds(s.mapInfo)| - s.nNew);
      var id, s1 := s.vvNew[sl], Unlink(s, sl);
      if s1.mapInfo[id].nRefCount == 0 {
        DeleteKeeps(s1, id, s.mapInfo.Keys + {id}, |NewIds(s.mapInfo)| - s.nNew);
        var s' := ClearNew(s, sl);
        forall i | i in s'.mapInfo ensures i in s.mapInfo && SameStats(s.mapInfo[i], s'.mapInfo[i]) {
          assert i in s1.mapInfo.Keys - {id};
          assert SameButPos(s1.mapInfo[i], s'.mapInfo[i]);
        }
        forall i | i in s.mapInfo ensures i in s'.mapInfo <==> !LastReference(s, sl, i) {
          assert i in s1.mapInfo.Keys;
          assert i in s'.mapInfo.Keys <==> i in s1.mapInfo.Keys - {id};
        }
      }
    } else {
      assert s.vvNew - {sl} == s.vvNew;
    }
  }

  lemma WaiveMore(s: State, waived: set<int>, more: set<int>, uncounted: int)
    requires Partial(s, waived, uncounted) && waived <= more
    ensures Partial(s, more, uncounted)
  {
    forall i ensures RefOk(s, more, i) { assert RefOk(s, waived, i); }
  }

  /** Entries other than the one in the slot stay, and keep everything but their random position. */
  ghost predicate LosesAtMost(s: State, sl: Slot, s': State) {
    && s'.mapInfo.Keys <= s.mapInfo.Keys
    && (forall id :: id in s.mapInfo && !(sl in s.vvNew && s.vvNew[sl] == id) ==>
          id in s'.mapInfo && SameButPos(s.mapInfo[id], s'.mapInfo[id]))
  }

  /** One pass of the loop in MakeTried that removes an entry from the new table. */
  function UnlinkBucket(s: State, id: int, b: nat): (r: State)
    requires id in s.mapInfo
    ensures r.h == s.h && r.mapInfo.Keys == s.mapInfo.Keys && SameButRefs(s.mapInfo[id], r.mapInfo[id])
  {
    var sl := NewSlot(s.h, s.mapInfo[id].service, b);
    if sl in s.vvNew && s.vvNew[sl] == id then Unlink(s, sl) else s
  }

  /** The loop of MakeTried after its first n passes. */
  function UnlinkUpTo(s: State, id: int, n: nat): (r: State)
    requires id in s.mapInfo
    ensures r.h == s.h && r.mapInfo.Keys == s.mapInfo.Keys && SameButRefs(s.mapInfo[id], r.mapInfo[id])
  {
    if n == 0 then s else UnlinkBucket(UnlinkUpTo(s, id, n - 1), id, n - 1)
  }

  ghost predicate SameButRefs(a: Info, b: Info) {
    b == a.(nRefCount := b.nRefCount)
  }

  lemma {:induction false} UnlinkUpToKeeps(s: State, id: int, n: nat, waived: set<int>, uncounted: int)
    requires Partial(s, waived, uncounted) && id in s.mapInfo && id in waived
    ensures Partial(UnlinkUpTo(s, id, n), waived, uncounted)
    ensures OnlyUnlinked(s, id, UnlinkUpTo(s, id, n))
  {
    hide Partial;
    hide UnlinkBucket;
    if n > 0 {
      UnlinkUpToKeeps(s, id, n - 1, waived, uncounted);
      UnlinkNext(s, id, UnlinkUpTo(s, id, n - 1), n - 1, waived, uncounted);
    }
  }

  lemma UnlinkNext(s: State, id: int, s1: State, b: nat, waived: set<int>, uncounted: int)
    requires id in s.mapInfo && OnlyUnlinked(s, id, s1)
    requires Partial(s1, waived, uncounted) && id in s1.mapInfo && id in waived
    ensures Partial(UnlinkBucket(s1, id, b), waived, uncounted)
    ensures OnlyUnlinked(s, id, UnlinkBucket(s1, id, b))
  {
    UnlinkBucketKeeps(s1, id, b, waived, uncounted);
    OnlyUnlinkedTwice(s, id, s1, UnlinkBucket(s1, id, b));
  }

  lemma OnlyUnlinkedTwice(a: State, id: int, b: State, c: State)
    requires OnlyUnlinked(a, id, b) && OnlyUnlinked(b, id, c)
    ensures OnlyUnlinked(a, id, c)
  {
    forall i | i in a.mapInfo && i != id ensures c.mapInfo[i] == a.mapInfo[i] {
      assert i in b.mapInfo.Keys;
    }
  }

  lemma UnlinkBucketKeeps(s: State, id: int, b: nat, waived: set<int>, uncounted: int)
    requires Partial(s, waived, uncounted) && id in s.mapInfo && id in waived
    ensures Partial(UnlinkBucket(s, id, b), waived, uncounted)
    ensures OnlyUnlinked(s, id, UnlinkBucket(s, id, b))
  {
    var sl := NewSlot(s.h, s.mapInfo[id].service, b);
    if sl in s.vvNew && s.vvNew[sl] == id {
      UnlinkKeeps(s, sl, waived, uncounted);
      assert waived + {id} == waived;
    }
  }

  ghost predicate OnlyUnlinked(s: State, id: int, s': State) {
    && s' == s.(mapInfo := s'.mapInfo, vvNew := s'.vvNew)
    && s'.mapInfo.Keys == s.mapInfo.Keys
    && (forall i :: i in s.mapInfo && i != id ==> s'.mapInfo[i] == s.mapInfo[i])
  }

  predicate InBucket(h: Hashes, vvNew: Table, sv: Service, id: int, b: nat) {
    NewSlot(h, sv, b) in vvNew && vvNew[NewSlot(h, sv, b)] == id
  }

  lemma {:induction false} UnlinkUpToClears(s: State, id: int, n: nat, b: nat)
    requires id in s.mapInfo && b < n
    ensures !InBucket(s.h, UnlinkUpTo(s, id, n).vvNew, s.mapInfo[id].service, id, b)
  {
    if b < n - 1 {
      UnlinkUpToClears(s, id, n - 1, b);
    }
  }

  /** After the whole loop the entry has no reference left, as MakeTried asserts. */
  lemma UnlinkedEverywhere(s: State, id: int, waived: set<int>, uncounted: int)
    requires Partial(s, waived, uncounted) && id in s.mapInfo && id in waived && !s.mapInfo[id].fInTried
    ensures UnlinkUpTo(s, id, NEW_BUCKETS).mapInfo[id].nRefCount == 0
  {
    UnlinkUpToKeeps(s, id, NEW_BUCKETS, waived, uncounted);
    var s' := UnlinkUpTo(s, id, NEW_BUCKETS);
    assert RefOk(s', waived, id);
    forall b | b in Slots(s'.h, s'.vvNew, s'.mapInfo[id].service, id) ensures false {
      UnlinkUpToClears(s, id, NEW_BUCKETS, b);
    }
  }

  /** A table without an id. */
  function Purged(t: Table, id: int): Table {
    map sl | sl in t && t[sl] != id :: t[sl]
  }

  lemma {:induction false} UnlinkUpToTable(s: State, id: int, n: nat)
    requires id in s.mapInfo
    ensures var t := UnlinkUpTo(s, id, n).vvNew;
            && (forall sl :: sl in t ==> sl in s.vvNew && t[sl] == s.vvNew[sl])
            && (forall sl :: sl in s.vvNew && s.vvNew[sl] != id ==> sl in t)
  {
    if n > 0 {
      UnlinkUpToTable(s, id, n - 1);
    }
  }

  /** The loop over all buckets takes the id out of the new table altogether. */
  lemma UnlinkedTable(s: State, id: int)
    requires NewOk(s) && id in s.mapInfo
    ensures UnlinkUpTo(s, id, NEW_BUCKETS).vvNew == Purged(s.vvNew, id)
  {
    UnlinkUpToTable(s, id, NEW_BUCKETS);
    var t := UnlinkUpTo(s, id, NEW_BUCKETS).vvNew;
    forall sl | sl in t ensures t[sl] != id {
      assert NewSlotOk(s, sl);
      if t[sl] == id {
        UnlinkUpToClears(s, id, NEW_BUCKETS, sl.bucket);
      }
    }
  }

  /** Move the holder of a tried slot back to the new table (lines 168-187). */
  function Evict(s: State, sl: Slot): (r: State)
    requires Sound(s) && sl in s.vvTried
  {
    LeaveTriedKeeps(s, sl, s.mapInfo.Keys, |NewIds(s.mapInfo)| - s.nNew);
    var id, s1 := s.vvTried[sl], LeaveTried(s, sl);
    PartialIsSound(s1, s.mapInfo.Keys + {id}, |NewIds(s.mapInfo)| - s.nNew + 1);
    var usl := HomeSlot(s.h, s.mapInfo[id]);
    HolderHasReference(s1, usl, s1.mapInfo.Keys);
    ClearNewKeeps(s1, usl, s1.mapInfo.Keys, |NewIds(s1.mapInfo)| - s1.nNew);
    var s2 := Link(ClearNew(s1, usl), id, usl);
    s2.(nNew := s2.nNew + 1)
  }

  /** The slot of the new table that an entry's own source selects. */
  function HomeSlot(h: Hashes, info: Info): Slot {
    NewSlot(h, info.service, NewBucket(h, info.service, info.source))
  }

  lemma EvictKeeps(s: State, sl: Slot, waived: set<int>, uncounted: int)
    requires Partial(s, waived, uncounted) && sl in s.vvTried && s.vvTried[sl] !in waived
    ensures Sound(s) && Partial(Evict(s, sl), waived, uncounted)
    ensures var s', id := Evict(s, sl), s.vvTried[sl];
            && s'.h == s.h && s'.vvTried == s.vvTried - {sl}
            && id in s.mapInfo && id in s'.mapInfo && !s'.mapInfo[id].fInTried && s'.mapInfo[id].nRefCount == 1
            && s'.mapInfo.Keys <= s.mapInfo.Keys
            && (forall i :: i in s.mapInfo && i != id && !(HomeSlot(s.h, s.mapInfo[id]) in s.vvNew && s.vvNew[HomeSlot(s.h, s.mapInfo[id])] == i) ==>
                  i in s'.mapInfo && SameButPos(s.mapInfo[i], s'.mapInfo[i]))
  {
    PartialIsSound(s, waived, uncounted);
    LeaveTriedKeeps(s, sl, waived, uncounted);
    var id, s1 := s.vvTried[sl], LeaveTried(s, sl);
    var usl := HomeSlot(s.h, s.mapInfo[id]);
    HolderHasReference(s1, usl, waived + {id});
    ClearNewKeeps(s1, usl, waived + {id}, uncounted + 1);
    var s2 := ClearNew(s1, usl);
    LinkKeeps(s2, id, NewBucket(s.h, s.mapInfo[id].service, s.mapInfo[id].source), waived + {id}, uncounted + 1);
    assert waived + {id} - {id} == waived;
    Count(Link(s2, id, usl), waived, uncounted + 1, 1);
  }

  /** The displaced entry takes the slot of the new table that its own source selects, and what was there loses it. */
  lemma EvictExact(s: State, sl: Slot, waived: set<int>, uncounted: int)
    requires Partial(s, waived, uncounted) && sl in s.vvTried && s.vvTried[sl] !in waived && Sound(s)
    ensures s.vvTried[sl] in s.mapInfo
    ensures var s', was, home := Evict(s, sl), s.vvTried[sl], HomeSlot(s.h, s.mapInfo[s.vvTried[sl]]);
            && s'.vvTried == s.vvTried - {sl} && s'.vvNew == s.vvNew[home := was] && StatsKept(s, s')
            && (forall i :: i in s.mapInfo ==> (i in s'.mapInfo <==> !LastReference(s, home, i)))
  {
    hide AddrOk;
    hide RandomOk;
    hide TriedOk;
    hide NewOk;
    hide RefsOk;
    hide CountsOk;
    LeaveTriedKeeps(s, sl, waived, uncounted);
    var id, s1 := s.vvTried[sl], LeaveTried(s, sl);
    PartialIsSound(s1, waived + {id}, uncounted + 1);
    var home := HomeSlot(s.h, s.mapInfo[id]);
    HolderHasReference(s, home, waived);
    ClearNewExact(s1, home);
    EvictKeeps(s, sl, waived, uncounted);
    assert (s.vvNew - {home})[home := id] == s.vvNew[home := id];
    var s2 := ClearNew(s1, home);
    forall i | i in s2.mapInfo ensures SameStats(s.mapInfo[i], Evict(s, sl).mapInfo[i]) {
      assert SameStats(s1.mapInfo[i], s2.mapInfo[i]);
    }
    forall i | i in s.mapInfo ensures i in Evict(s, sl).mapInfo <==> !LastReference(s, home, i) {
      assert i in s2.mapInfo <==> !LastReference(s1, home, i);
    }
  }

  /** A change of nNew changes how many entries are not counted. */
  lemma Count(s: State, waived: set<int>, uncounted: int, k: int)
    requires Partial(s, waived, uncounted)
    ensures Partial(s.(nNew := s.nNew + k), waived, uncounted - k)
  {
    var s' := s.(nNew := s.nNew + k);
    forall i ensures IdHasAddr(s', i) { assert IdHasAddr(s, i); }
    forall a ensures AddrHasId(s', a) { assert AddrHasId(s, a); }
    forall i ensures IdHasPos(s', i) { assert IdHasPos(s, i); }
    forall i ensures PosHasId(s', i) { assert PosHasId(s, i); }
    forall x ensures TriedSlotOk(s', x) { assert TriedSlotOk(s, x); }
    forall i ensures TriedIdOk(s', i) { assert TriedIdOk(s, i); }
    forall x ensures NewSlotOk(s', x) { assert NewSlotOk(s, x); }
    forall i ensures RefOk(s', waived, i) { assert RefOk(s, waived, i); }
  }

  /** The state once the entry has left the new table and its tried slot has been freed. */
  function Prepare(s: State, id: int): State
    requires Sound(s) && id in s.mapInfo
  {
    var s1 := UnlinkUpTo(s, id, NEW_BUCKETS);
    UnlinkUpToKeeps(s, id, NEW_BUCKETS, s.mapInfo.Keys, |NewIds(s.mapInfo)| - s.nNew);
    Count(s1, s.mapInfo.Keys, |NewIds(s.mapInfo)| - s.nNew, -1);
    var s2 := s1.(nNew := s1.nNew - 1);
    PartialIsSound(s2, s.mapInfo.Keys, |NewIds(s.mapInfo)| - s.nNew + 1);
    var sl := TriedSlot(s.h, s.mapInfo[id].service);
    if sl in s2.vvTried then Evict(s2, sl) else s2
  }

  function MakeTried(s: State, id: int): State
    requires Inv(s) && id in s.mapInfo && !s.mapInfo[id].fInTried
  {
    PartialIsSound(s, {}, 0);
    PrepareKeeps(s, id);
    EnterTried(Prepare(s, id), id, TriedSlot(s.h, s.mapInfo[id].service))
  }

  lemma PrepareKeeps(s: State, id: int)
    requires Inv(s) && id in s.mapInfo && !s.mapInfo[id].fInTried
    ensures Sound(s) && Partial(Prepare(s, id), {id}, 1)
    ensures ReadyForTried(s, id, Prepare(s, id))
  {
    PartialIsSound(s, {}, 0);
    WaiveMore(s, {}, {id}, 0);
    UnlinkUpToKeeps(s, id, NEW_BUCKETS, {id}, 0);
    UnlinkedEverywhere(s, id, {id}, 0);
    var s1 := UnlinkUpTo(s, id, NEW_BUCKETS);
    Count(s1, {id}, 0, -1);
    var s2 := s1.(nNew := s1.nNew - 1);
    var sl := TriedSlot(s.h, s.mapInfo[id].service);
    assert TriedSlotOk(s, sl);
    if sl in s2.vvTried {
      EvictKeeps(s2, sl, {id}, 1);
      var usl := HomeSlot(s.h, s2.mapInfo[s.vvTried[sl]]);
      HolderHasReference(s2, usl, {id});
      assert LostOnly(s, Prepare(s, id), if usl in s2.vvNew then s2.vvNew[usl] else -1);
    } else {
      assert s2.vvTried == s.vvTried - {sl};
      assert LostOnly(s, Prepare(s, id), -1);
    }
  }

  /** At most one entry was deleted. */
  ghost predicate LostOne(s: State, s': State) {
    exists gone {:trigger LostOnly(s, s', gone)} :: LostOnly(s, s', gone)
  }

  ghost predicate LostOnly(s: State, s': State, gone: int) {
    forall i :: i in s.mapInfo && i != gone ==> i in s'.mapInfo
  }

  /** The entry waits outside both tables, and its tried slot is free. */
  ghost predicate ReadyForTried(s: State, id: int, s': State)
    requires id in s.mapInfo
  {
    var sl := TriedSlot(s.h, s.mapInfo[id].service);
    && s'.h == s.h && id in s'.mapInfo && s'.mapInfo.Keys <= s.mapInfo.Keys
    && s'.mapInfo[id] == s.mapInfo[id].(nRefCount := 0, nRandomPos := s'.mapInfo[id].nRandomPos)
    && s'.vvTried == s.vvTried - {sl}
    && LostOne(s, s')
    && (sl in s.vvTried ==> s.vvTried[sl] in s'.mapInfo && !s'.mapInfo[s.vvTried[sl]].fInTried)
    && (forall i :: i in s.mapInfo && s.mapInfo[i].fInTried && !(sl in s.vvTried && s.vvTried[sl] == i) ==>
          i in s'.mapInfo && SameButPos(s.mapInfo[i], s'.mapInfo[i]))
  }

  /** The entry becomes tried; no tried entry is lost, and only the one in its slot stops being tried. */
  lemma MakeTriedKeeps(s: State, id: int)
    requires Inv(s) && id in s.mapInfo && !s.mapInfo[id].fInTried
    ensures Inv(MakeTried(s, id))
    ensures Promoted(s, id, MakeTried(s, id))
  {
    PrepareKeeps(s, id);
    var s1 := Prepare(s, id);
    EnterTriedKeeps(s1, id, {id}, 1);
    assert {id} - {id} == {};
    var gone :| LostOnly(s, s1, gone);
    assert LostOnly(s, MakeTried(s, id), gone);
    var sl := TriedSlot(s.h, s.mapInfo[id].service);
    forall i | i in s.mapInfo && s.mapInfo[i].fInTried
      ensures (TriedSlot(s.h, s.mapInfo[i].service) == sl) == (sl in s.vvTried && s.vvTried[sl] == i) {
      assert TriedIdOk(s, i) && TriedSlotOk(s, sl);
    }
  }

  ghost predicate Promoted(s: State, id: int, s': State)
    requires id in s.mapInfo
  {
    && s'.mapInfo.Keys <= s.mapInfo.Keys && LostOne(s, s')
    && id in s'.mapInfo
    && s'.mapInfo[id] == s.mapInfo[id].(fInTried := true, nRefCount := 0, nRandomPos := s'.mapInfo[id].nRandomPos)
    && (forall i :: i in s.mapInfo && s.mapInfo[i].fInTried ==>
          && i in s'.mapInfo
          && (s'.mapInfo[i].fInTried <==> TriedSlot(s.h, s.mapInfo[i].service) != TriedSlot(s.h, s.mapInfo[id].service)))
  }

  function Find(s: State, net: NetAddr): Option<int> {
    if net in s.mapAddr && s.mapAddr[net] in s.mapInfo then Some(s.mapAddr[net]) else None
  }

  /** A known entry for exactly this service, port included. */
  predicate Knows(s: State, sv: Service) {
    Find(s, sv.net).Some? && s.mapInfo[Find(s, sv.net).value].service == sv
  }

  function Good(s: State, sv: Service, nTime: int): State
    requires Inv(s)
  {
    if !Knows(s, sv) then s
    else
      var id := Find(s, sv.net).value;
      var info := s.mapInfo[id].(nLastSuccess := nTime, nLastTry := nTime, nAttempts := 0);
      TouchKeeps(s, id, info, {}, 0);
      var s1 := s.(mapInfo := s.mapInfo[id := info]);
      if info.fInTried then s1 else MakeTried(s1, id)
  }

  /** Good_ makes a known service tried; what it displaces goes back to the new table. */
  lemma GoodCorrect(s: State, sv: Service, nTime: int)
    requires Inv(s)
    ensures var s' := Good(s, sv, nTime);
            && Inv(s') && s'.mapInfo.Keys <= s.mapInfo.Keys && LostOne(s, s')
            && (!Knows(s, sv) ==> s' == s)
            && (Knows(s, sv) ==>
                  && Knows(s', sv)
                  && s'.mapInfo[Find(s, sv.net).value].fInTried
                  && s'.mapInfo[Find(s, sv.net).value].nLastSuccess == nTime)
    ensures forall i :: i in s.mapInfo && s.mapInfo[i].fInTried ==>
              && i in Good(s, sv, nTime).mapInfo
              && (TriedSlot(s.h, s.mapInfo[i].service) != TriedSlot(s.h, sv) ==> Good(s, sv, nTime).mapInfo[i].fInTried)
  {
    if Knows(s, sv) {
      var id := Find(s, sv.net).value;
      var info := s.mapInfo[id].(nLastSuccess := nTime, nLastTry := nTime, nAttempts := 0);
      TouchKeeps(s, id, info, {}, 0);
      var s1 := s.(mapInfo := s.mapInfo[id := info]);
      var s' := Good(s, sv, nTime);
      if !info.fInTried {
        MakeTriedKeeps(s1, id);
        var gone :| LostOnly(s1, s', gone);
        assert LostOnly(s, s', gone);
      } else {
        assert LostOnly(s, s', -1);
      }
      assert IdHasAddr(s', id);
    } else {
      assert LostOnly(s, s, -1);
    }
  }

  /** What the new table holds after a move to the tried table. */
  function NewAfter(s: State, id: int): Table
    requires id in s.mapInfo && TriedOk(s)
  {
    var sl, t := TriedSlot(s.h, s.mapInfo[id].service), Purged(s.vvNew, id);
    assert TriedSlotOk(s, sl);
    if sl in s.vvTried then t[HomeSlot(s.h, s.mapInfo[s.vvTried[sl]]) := s.vvTried[sl]] else t
  }

  /**
  MakeTried puts the entry into its tried slot and takes it out of the new table; what held the slot goes to the
  slot of the new table that its source selects, and an entry whose last reference was there is forgotten.
  */
  lemma MakeTriedExact(s: State, id: int)
    requires Inv(s) && id in s.mapInfo && !s.mapInfo[id].fInTried
    ensures var s', sl := MakeTried(s, id), TriedSlot(s.h, s.mapInfo[id].service);
            && TriedSlotOk(s, sl)
            && s'.vvTried == s.vvTried[sl := id] && s'.vvNew == NewAfter(s, id) && StatsKept(s, s')
            && (forall i :: i in s.mapInfo ==>
                  (i in s'.mapInfo <==> !(i != id && sl in s.vvTried && LastReference(s, HomeSlot(s.h, s.mapInfo[s.vvTried[sl]]), i))))
  {
    hide NewAfter;
    hide LastReference;
    PrepareKeeps(s, id);
    PrepareExact(s, id);
    var s1, sl := Prepare(s, id), TriedSlot(s.h, s.mapInfo[id].service);
    hide Prepare;
    hide Inv;
    assert (s.vvTried - {sl})[sl := id] == s.vvTried[sl := id];
    StatsTwice(s, s1, EnterTried(s1, id, sl));
  }

  lemma PrepareExact(s: State, id: int)
    requires Inv(s) && id in s.mapInfo && !s.mapInfo[id].fInTried && Sound(s)
    ensures var s', sl := Prepare(s, id), TriedSlot(s.h, s.mapInfo[id].service);
            && TriedSlotOk(s, sl)
            && s'.vvTried == s.vvTried - {sl} && s'.vvNew == NewAfter(s, id) && StatsKept(s, s')
            && (forall i :: i in s.mapInfo ==>
                  (i in s'.mapInfo <==> !(i != id && sl in s.vvTried && LastReference(s, HomeSlot(s.h, s.mapInfo[s.vvTried[sl]]), i))))
  {
    var s1 := UnlinkUpTo(s, id, NEW_BUCKETS);
    var s2, sl := s1.(nNew := s1.nNew - 1), TriedSlot(s.h, s.mapInfo[id].service);
    LoopExact(s, id);
    PrepareKeeps(s, id);
    assert TriedSlotOk(s, sl);
    hide LastReference;
    hide Inv;
    hide Partial;
    if sl in s.vvTried {
      EvictExact(s2, sl, {id}, 1);
      MakeTriedLost(s, id, s2);
      assert SameHome(s, id, s2, s.vvTried[sl]);
      StatsTwice(s, s2, Prepare(s, id));
    } else {
      assert s.vvTried - {sl} == s.vvTried;
    }
  }

  ghost predicate SameHome(s: State, id: int, s2: State, i: int) {
    i in s.mapInfo && i in s2.mapInfo && HomeSlot(s.h, s.mapInfo[i]) == HomeSlot(s2.h, s2.mapInfo[i])
  }

  /** After the loop over the buckets, with the entry no longer counted as new. */
  lemma LoopExact(s: State, id: int)
    requires Inv(s) && id in s.mapInfo && !s.mapInfo[id].fInTried
    ensures var s1 := UnlinkUpTo(s, id, NEW_BUCKETS);
            var s2 := s1.(nNew := s1.nNew - 1);
            && Partial(s2, {id}, 1) && Sound(s2) && StatsKept(s, s2) && s2.h == s.h
            && s2.vvTried == s.vvTried && s2.vvNew == Purged(s.vvNew, id)
            && s2.mapInfo.Keys == s.mapInfo.Keys && s2.mapInfo[id].nRefCount == 0
            && (forall i :: i in s.mapInfo && i != id ==> s2.mapInfo[i] == s.mapInfo[i])
  {
    WaiveMore(s, {}, {id}, 0);
    UnlinkUpToKeeps(s, id, NEW_BUCKETS, {id}, 0);
    UnlinkedEverywhere(s, id, {id}, 0);
    UnlinkedTable(s, id);
    var s1 := UnlinkUpTo(s, id, NEW_BUCKETS);
    Count(s1, {id}, 0, -1);
    PartialIsSound(s1.(nNew := s1.nNew - 1), {id}, 1);
    UnlinkedStats(s, id, s1);
  }

  lemma UnlinkedStats(s: State, id: int, s1: State)
    requires id in s.mapInfo && OnlyUnlinked(s, id, s1) && SameButRefs(s.mapInfo[id], s1.mapInfo[id])
    ensures StatsKept(s, s1) && s1.vvTried == s.vvTried
  {
    assert forall i :: i in s1.mapInfo ==> i in s.mapInfo.Keys;
  }

  lemma StatsTwice(a: State, b: State, c: State)
    requires StatsKept(a, b) && StatsKept(b, c)
    ensures StatsKept(a, c)
  {
    forall i | i in c.mapInfo ensures i in a.mapInfo && SameStats(a.mapInfo[i], c.mapInfo[i]) {
      assert i in b.mapInfo.Keys && SameStats(b.mapInfo[i], c.mapInfo[i]);
    }
  }

  /** Which entry loses its last reference is seen before the loop already. */
  lemma MakeTriedLost(s: State, id: int, s2: State)
    requires id in s.mapInfo && s2.mapInfo.Keys == s.mapInfo.Keys && s2.vvNew == Purged(s.vvNew, id)
    requires s2.mapInfo[id].nRefCount == 0
    requires forall i :: i in s.mapInfo && i != id ==> s2.mapInfo[i] == s.mapInfo[i]
    ensures forall i, home :: i in s.mapInfo ==> (LastReference(s2, home, i) <==> i != id && LastReference(s, home, i))
  {
    forall i, home | i in s.mapInfo ensures LastReference(s2, home, i) <==> i != id && LastReference(s, home, i) {
      assert i in s2.mapInfo.Keys;
    }
  }

  /** Good_ records the success of a known service, and otherwise does what MakeTried does, if it was not tried before. */
  lemma GoodExact(s: State, sv: Service, nTime: int, id: int)
    requires Inv(s) && id in s.mapInfo && s.mapInfo[id].service == sv
    ensures var s', info := Good(s, sv, nTime), s.mapInfo[id];
            && id in s'.mapInfo && s'.mapInfo[id].fInTried
            && SameStats(info.(nLastSuccess := nTime, nLastTry := nTime, nAttempts := 0), s'.mapInfo[id])
            && s'.mapInfo.Keys <= s.mapInfo.Keys
            && (forall i :: i in s'.mapInfo && i != id ==> SameStats(s.mapInfo[i], s'.mapInfo[i]))
            && s'.vvTried == s.vvTried[TriedSlot(s.h, sv) := id]
            && s'.vvNew == if info.fInTried then s.vvNew else NewAfter(s, id)
  {
    KnowsIff(s, sv, id);
    var info := s.mapInfo[id].(nLastSuccess := nTime, nLastTry := nTime, nAttempts := 0);
    TouchKeeps(s, id, info, {}, 0);
    var s1 := s.(mapInfo := s.mapInfo[id := info]);
    if info.fInTried {
      assert TriedIdOk(s, id);
      assert s.vvTried[TriedSlot(s.h, sv) := id] == s.vvTried;
    } else {
      MakeTriedExact(s1, id);
      MakeTriedKeeps(s1, id);
      var s' := Good(s, sv, nTime);
      assert TriedSlotOk(s, TriedSlot(s.h, sv));
      forall i | i in s'.mapInfo && i != id ensures SameStats(s.mapInfo[i], s'.mapInfo[i]) {
        assert i in s1.mapInfo.Keys && SameStats(s1.mapInfo[i], s'.mapInfo[i]);
      }
    }
  }

  /** The bail-out of Good_ for an entry in no bucket cannot happen: some bucket holds it. */
  lemma UntriedHasBucket(s: State, id: int)
    requires Inv(s) && id in s.mapInfo && !s.mapInfo[id].fInTried
    ensures exists b: nat :: b < NEW_BUCKETS && InBucket(s.h, s.vvNew, s.mapInfo[id].service, id, b)
  {
    assert RefOk(s, {}, id);
    var b :| b in Slots(s.h, s.vvNew, s.mapInfo[id].service, id);
    assert InBucket(s.h, s.vvNew, s.mapInfo[id].service, id, b);
  }

  const DAY: int := 24 * 60 * 60

  predicate IsTerrible(info: Info, nNow: int) {
    if info.nLastTry != 0 && info.nLastTry >= nNow - 60 then false
    else
      || info.nTime > nNow + 10 * 60
      || info.nTime == 0 || nNow - info.nTime > 30 * DAY
      || (info.nLastSuccess == 0 && info.nAttempts >= 3)
      || (nNow - info.nLastSuccess > 7 * DAY && info.nAttempts >= 10)
  }

  /**
  An entry is in good standing exactly if it was tried within the last minute, or has been seen within 30 days and
  not more than 10 minutes ahead, has failed less than three times if it never succeeded, and less than ten times
  if it did not succeed within 7 days.
  */
  lemma GoodStanding(info: Info, nNow: int)
    ensures !IsTerrible(info, nNow) <==>
            || (info.nLastTry != 0 && nNow - info.nLastTry <= 60)
            || (&& info.nTime != 0 && -600 <= nNow - info.nTime <= 2_592_000
                && (info.nAttempts <= 2 || info.nLastSuccess != 0)
                && (info.nAttempts <= 9 || nNow - info.nLastSuccess <= 604_800))
  {
  }

  /** The arguments of Add_, what IsRoutable answers, the two clock readings and RandomInt(2^nRefCount). */
  datatype Addition = Addition(
    addr: Address, source: NetAddr, nTimePenalty: int, routable: bool, nowOnline: int, nowTerrible: int, rnd: nat)

  function Max(a: int, b: int): int { if a < b then b else a }

  function Refreshed(info: Info, a: Addition): Info {
    var interval := if a.nowOnline - a.addr.nTime < DAY then 60 * 60 else DAY;
    var nTime := if a.addr.nTime != 0 && (info.nTime == 0 || info.nTime < a.addr.nTime - interval - a.nTimePenalty)
                 then Max(0, a.addr.nTime - a.nTimePenalty) else info.nTime;
    info.(nTime := nTime, nServices := info.nServices | a.addr.nServices)
  }

  /**
  A known entry's time moves only forward, by more than an hour or, for a time a day or more old, more than a day
  beyond the penalty; the announced services are added, and nothing else changes.
  */
  lemma RefreshedForward(info: Info, a: Addition)
    ensures var r, ahead := Refreshed(info, a), a.addr.nTime - a.nTimePenalty;
            && r == info.(nTime := r.nTime, nServices := info.nServices | a.addr.nServices)
            && (if a.addr.nTime != 0 && (info.nTime == 0 || ahead - info.nTime > if a.nowOnline - a.addr.nTime < 86400 then 3600 else 86400)
                then r.nTime == (if ahead >= 0 then ahead else 0) else r.nTime == info.nTime)
  {
  }

  /** Whether a refreshed entry gets a chance at one more bucket (lines 265-281). */
  predicate WantsBucket(info: Info, a: Addition) {
    && !(a.addr.nTime == 0 || (info.nTime != 0 && a.addr.nTime <= info.nTime))
    && !info.fInTried
    && info.nRefCount != NEW_BUCKETS_PER_ADDRESS
    && !(info.nRefCount > 0 && a.rnd != 0)
  }

  predicate Overwrites(s: State, id: int, sl: Slot, nNow: int)
    requires id in s.mapInfo && NewOk(s)
  {
    assert NewSlotOk(s, sl);
    sl !in s.vvNew
    || IsTerrible(s.mapInfo[s.vvNew[sl]], nNow)
    || (s.mapInfo[s.vvNew[sl]].nRefCount > 1 && s.mapInfo[id].nRefCount == 0)
  }

  /** Lines 289-309 of Add_. */
  function Insert(s: State, id: int, source: NetAddr, nNow: int): State
    requires Sound(s) && id in s.mapInfo
  {
    var sl := NewSlot(s.h, s.mapInfo[id].service, NewBucket(s.h, s.mapInfo[id].service, source));
    if sl in s.vvNew && s.vvNew[sl] == id then s
    else if Overwrites(s, id, sl, nNow) then
      ClearNewKeeps(s, sl, s.mapInfo.Keys, |NewIds(s.mapInfo)| - s.nNew);
      Link(ClearNew(s, sl), id, sl)
    else if s.mapInfo[id].nRefCount == 0 then Delete(s, id)
    else s
  }

  /** Inserting settles the entry's reference count, loses at most one entry and no tried one. */
  lemma InsertKeeps(s: State, id: int, source: NetAddr, nNow: int)
    requires Partial(s, {id}, 0) && id in s.mapInfo && !s.mapInfo[id].fInTried
    requires s.mapInfo[id].nRefCount < NEW_BUCKETS_PER_ADDRESS
    ensures Sound(s) && Inv(Insert(s, id, source, nNow))
    ensures Inserted(s, Insert(s, id, source, nNow))
  {
    PartialIsSound(s, {id}, 0);
    var bucket := NewBucket(s.h, s.mapInfo[id].service, source);
    var sl := NewSlot(s.h, s.mapInfo[id].service, bucket);
    var s' := Insert(s, id, source, nNow);
    HolderHasReference(s, sl, {id});
    if sl in s.vvNew && s.vvNew[sl] == id {
      DropWaiver(s, id, {id}, 0);
      assert LostOnly(s, s', -1);
    } else if Overwrites(s, id, sl, nNow) {
      ClearNewKeeps(s, sl, {id}, 0);
      LinkKeeps(ClearNew(s, sl), id, bucket, {id}, 0);
      assert LostOnly(s, s', if sl in s.vvNew then s.vvNew[sl] else -1);
    } else if s.mapInfo[id].nRefCount == 0 {
      DeleteKeeps(s, id, {id}, 0);
      assert LostOnly(s, s', id);
    } else {
      assert RefOk(s, {id}, id);
      DropWaiver(s, id, {id}, 0);
      assert LostOnly(s, s', -1);
    }
    assert {id} - {id} == {};
  }

  ghost predicate Inserted(s: State, s': State) {
    && s'.mapInfo.Keys <= s.mapInfo.Keys && LostOne(s, s') && s'.vvTried == s.vvTried && s'.h == s.h
    && (forall i :: i in s.mapInfo && s.mapInfo[i].fInTried ==> i in s'.mapInfo && SameButPos(s.mapInfo[i], s'.mapInfo[i]))
  }

  function Add(s: State, a: Addition): (r: (State, bool))
    requires Inv(s)
  {
    if !a.routable then (s, false)
    else
      match Find(s, a.addr.service.net)
      case Some(id) =>
        var s1 := s.(mapInfo := s.mapInfo[id := Refreshed(s.mapInfo[id], a)]);
        TouchKeeps(s, id, s1.mapInfo[id], {}, 0);
        PartialIsSound(s1, {}, 0);
        (if WantsBucket(s1.mapInfo[id], a) then Insert(s1, id, a.source, a.nowTerrible) else s1, false)
      case None =>
        UnknownIsNew(s, a.addr.service.net);
        CreatedKeeps(s, a);
        (Insert(Created(s, a), s.nIdCount, a.source, a.nowTerrible), true)
  }

  /** Lines 283-286: a new entry, counted, with its time pushed back by the penalty. */
  function Created(s: State, a: Addition): State {
    var s1 := Create(s, a.addr, a.source);
    var info := s1.mapInfo[s.nIdCount];
    s1.(mapInfo := s1.mapInfo[s.nIdCount := info.(nTime := Max(0, info.nTime - a.nTimePenalty))], nNew := s1.nNew + 1)
  }

  lemma UnknownIsNew(s: State, net: NetAddr)
    requires AddrOk(s) && Find(s, net) == None
    ensures net !in s.mapAddr
  {
    assert AddrHasId(s, net);
  }

  lemma CreatedKeeps(s: State, a: Addition)
    requires Inv(s) && a.addr.service.net !in s.mapAddr
    ensures s.nIdCount !in s.mapInfo && Sound(Created(s, a)) && Partial(Created(s, a), {s.nIdCount}, 0)
  {
    CreateKeeps(s, a.addr, a.source, {}, 0);
    var s1 := Create(s, a.addr, a.source);
    var info := s1.mapInfo[s.nIdCount];
    var info' := info.(nTime := Max(0, info.nTime - a.nTimePenalty));
    TouchKeeps(s1, s.nIdCount, info', {} + {s.nIdCount}, 1);
    assert {} + {s.nIdCount} == {s.nIdCount};
    Count(s1.(mapInfo := s1.mapInfo[s.nIdCount := info']), {s.nIdCount}, 1, 1);
    PartialIsSound(Created(s, a), {s.nIdCount}, 0);
  }

  /** Add_ answers true exactly for a routable address it did not know, and never touches the tried table. */
  lemma AddCorrect(s: State, a: Addition)
    requires Inv(s)
    ensures var (s', fNew) := Add(s, a);
            && Inv(s') && LostOne(s, s') && s'.vvTried == s.vvTried
            && (fNew <==> a.routable && a.addr.service.net !in s.mapAddr)
            && (forall i :: i in s'.mapInfo ==> i in s.mapInfo || (fNew && i == s.nIdCount && s'.mapInfo[i].service == a.addr.service))
            && (forall i :: i in s.mapInfo && s.mapInfo[i].fInTried ==> i in s'.mapInfo && s'.mapInfo[i].fInTried)
  {
    var s' := Add(s, a).0;
    if !a.routable {
      assert LostOnly(s, s, -1);
    } else {
      match Find(s, a.addr.service.net)
      case Some(id) =>
        var s1 := s.(mapInfo := s.mapInfo[id := Refreshed(s.mapInfo[id], a)]);
        TouchKeeps(s, id, s1.mapInfo[id], {}, 0);
        if WantsBucket(s1.mapInfo[id], a) {
          assert RefOk(s, {}, id);
          WaiveMore(s1, {}, {id}, 0);
          InsertKeeps(s1, id, a.source, a.nowTerrible);
          var gone :| LostOnly(s1, s', gone);
          assert LostOnly(s, s', gone);
        } else {
          assert LostOnly(s, s', -1);
        }
      case None =>
        AddNewCorrect(s, a);
    }
  }

  lemma AddNewCorrect(s: State, a: Addition)
    requires Inv(s) && a.routable && Find(s, a.addr.service.net) == None
    ensures var (s', fNew) := Add(s, a);
            && Inv(s') && LostOne(s, s') && s'.vvTried == s.vvTried && fNew && a.addr.service.net !in s.mapAddr
            && (forall i :: i in s'.mapInfo ==> i in s.mapInfo || (i == s.nIdCount && s'.mapInfo[i].service == a.addr.service))
            && (forall i :: i in s.mapInfo && s.mapInfo[i].fInTried ==> i in s'.mapInfo && s'.mapInfo[i].fInTried)
  {
    UnknownIsNew(s, a.addr.service.net);
    CreatedKeeps(s, a);
    var s1, s' := Created(s, a), Add(s, a).0;
    InsertKeeps(s1, s.nIdCount, a.source, a.nowTerrible);
    var gone :| LostOnly(s1, s', gone);
    assert LostOnly(s, s', gone);
    if s.nIdCount in s'.mapInfo {
      InsertKeepsEntry(s1, s.nIdCount, a.source, a.nowTerrible);
    }
  }

  lemma InsertKeepsEntry(s: State, id: int, source: NetAddr, nNow: int)
    requires Partial(s, {id}, 0) && id in s.mapInfo && Sound(s) && id in Insert(s, id, source, nNow).mapInfo
    ensures Insert(s, id, source, nNow).mapInfo[id].service == s.mapInfo[id].service
  {
    var sl := NewSlot(s.h, s.mapInfo[id].service, NewBucket(s.h, s.mapInfo[id].service, source));
    ClearNewKeeps(s, sl, {id}, 0);
  }

  /** Where Add_ puts an address that it does not know. */
  function HomeOf(s: State, a: Addition): Slot {
    NewSlot(s.h, a.addr.service, NewBucket(s.h, a.addr.service, a.source))
  }

  /** The slot of a new address is free, or its holder is terrible or has another reference. */
  ghost predicate MakesRoom(s: State, a: Addition)
    requires Inv(s)
  {
    var sl := HomeOf(s, a);
    assert NewSlotOk(s, sl);
    sl !in s.vvNew || IsTerrible(s.mapInfo[s.vvNew[sl]], a.nowTerrible) || s.mapInfo[s.vvNew[sl]].nRefCount > 1
  }

  /** A new address is known after Add_ exactly if its slot makes room; either way Add_ answers true. */
  lemma AddKeepsIff(s: State, a: Addition)
    requires Inv(s) && a.routable && a.addr.service.net !in s.mapAddr
    ensures Add(s, a).1
    ensures a.addr.service.net in Add(s, a).0.mapAddr <==> MakesRoom(s, a)
    ensures MakesRoom(s, a) ==> Add(s, a).0.vvNew == s.vvNew[HomeOf(s, a) := s.nIdCount]
    ensures !MakesRoom(s, a) ==> Add(s, a).0.vvNew == s.vvNew
  {
    CreatedKeeps(s, a);
    var s1, s', id, sl := Created(s, a), Add(s, a).0, s.nIdCount, HomeOf(s, a);
    InsertKeeps(s1, id, a.source, a.nowTerrible);
    assert NewSlotOk(s, sl);
    assert Overwrites(s1, id, sl, a.nowTerrible) <==> MakesRoom(s, a);
    if MakesRoom(s, a) {
      ClearNewKeeps(s1, sl, {id}, 0);
      ClearNewTable(s1, sl, {id}, 0);
      assert IdHasAddr(s', id);
    } else {
      DeleteKeeps(s1, id, {id}, 0);
      assert AddrHasId(s', a.addr.service.net);
    }
  }

  /** A new entry that stays has the announced time less the penalty; an entry is forgotten only for it. */
  lemma AddNewExact(s: State, a: Addition)
    requires Inv(s) && a.routable && a.addr.service.net !in s.mapAddr
    ensures var s', id := Add(s, a).0, s.nIdCount;
            && (id in s'.mapInfo <==> MakesRoom(s, a))
            && (id in s'.mapInfo ==>
                  SameStats(Info(a.addr.service, if a.addr.nTime >= a.nTimePenalty then a.addr.nTime - a.nTimePenalty else 0,
                                 a.addr.nServices, a.source, 0, 0, 0, 0, false, 0), s'.mapInfo[id]))
            && (forall i :: i in s'.mapInfo && i != id ==> i in s.mapInfo && SameStats(s.mapInfo[i], s'.mapInfo[i]))
            && (forall i :: i in s.mapInfo ==> (i in s'.mapInfo <==> !(MakesRoom(s, a) && LastReference(s, HomeOf(s, a), i))))
  {
    CreatedKeeps(s, a);
    var s1, s', id, sl := Created(s, a), Add(s, a).0, s.nIdCount, HomeOf(s, a);
    InsertKeeps(s1, id, a.source, a.nowTerrible);
    assert NewSlotOk(s, sl);
    assert Overwrites(s1, id, sl, a.nowTerrible) <==> MakesRoom(s, a);
    InsertExact(s1, id, a.source, a.nowTerrible);
    forall i | i in s.mapInfo ensures LastReference(s1, sl, i) <==> LastReference(s, sl, i) {}
    forall i | i in s'.mapInfo && i != id ensures i in s.mapInfo && SameStats(s.mapInfo[i], s'.mapInfo[i]) {
      assert i in s1.mapInfo && SameStats(s1.mapInfo[i], s'.mapInfo[i]);
    }
  }

  /** An entry takes a slot of the new table. */
  lemma TakesSlot(s: State, id: int, sl: Slot)
    requires Sound(s) && id in s.mapInfo && id in ClearNew(s, sl).mapInfo
    ensures var s' := Link(ClearNew(s, sl), id, sl);
            && StatsKept(s, s') && s'.vvNew == s.vvNew[sl := id]
            && (forall i :: i in s.mapInfo ==> (i in s'.mapInfo <==> !LastReference(s, sl, i)))
  {
    hide LastReference;
    hide ClearNew;
    hide Sound;
    hide StatsKept;
    ClearNewExact(s, sl);
    var s1 := ClearNew(s, sl);
    assert (s.vvNew - {sl})[sl := id] == s.vvNew[sl := id];
    LinkStats(s1, id, sl);
    StatsTwice(s, s1, Link(s1, id, sl));
  }

  lemma LinkStats(s: State, id: int, sl: Slot)
    requires id in s.mapInfo
    ensures StatsKept(s, Link(s, id, sl)) && Link(s, id, sl).mapInfo.Keys == s.mapInfo.Keys
  {
  }

  /** An entry without a reference is forgotten. */
  lemma Forgotten(s: State, id: int)
    requires Partial(s, {id}, 0) && id in s.mapInfo && !s.mapInfo[id].fInTried && s.mapInfo[id].nRefCount == 0
    ensures var s' := Delete(s, id);
            && StatsKept(s, s') && s'.vvNew == s.vvNew && id !in s'.mapInfo
            && (forall i :: i in s.mapInfo && i != id ==> i in s'.mapInfo)
  {
    DeleteKeeps(s, id, {id}, 0);
    var s' := Delete(s, id);
    hide Delete;
    hide Partial;
    forall i | i in s'.mapInfo ensures i in s.mapInfo && SameStats(s.mapInfo[i], s'.mapInfo[i]) {
      assert i in s.mapInfo.Keys - {id};
      assert SameButPos(s.mapInfo[i], s'.mapInfo[i]);
    }
    assert id !in s'.mapInfo.Keys;
    assert forall i :: i in s.mapInfo && i != id ==> i in s'.mapInfo.Keys;
  }

  /** Insert, where the entry is not in the slot already: it takes the slot if it may, and else goes if it has no reference. */
  lemma InsertExact(s: State, id: int, source: NetAddr, nNow: int)
    requires Partial(s, {id}, 0) && id in s.mapInfo && !s.mapInfo[id].fInTried
    ensures Sound(s)
    ensures var sl := NewSlot(s.h, s.mapInfo[id].service, NewBucket(s.h, s.mapInfo[id].service, source));
            var s', own := Insert(s, id, source, nNow), sl in s.vvNew && s.vvNew[sl] == id;
            var takes := !own && Overwrites(s, id, sl, nNow);
            && StatsKept(s, s')
            && s'.vvNew == (if takes then s.vvNew[sl := id] else s.vvNew)
            && (forall i :: i in s.mapInfo && i != id ==> (i in s'.mapInfo <==> !(takes && LastReference(s, sl, i))))
            && (id in s'.mapInfo <==> own || takes || s.mapInfo[id].nRefCount != 0)
  {
    hide AddrOk;
    hide RandomOk;
    hide TriedOk;
    hide NewOk;
    hide RefsOk;
    hide CountsOk;
    hide ClearNew;
    hide Delete;
    hide Overwrites;
    PartialIsSound(s, {id}, 0);
    hide Sound;
    var sl := NewSlot(s.h, s.mapInfo[id].service, NewBucket(s.h, s.mapInfo[id].service, source));
    if sl in s.vvNew && s.vvNew[sl] == id {
    } else if Overwrites(s, id, sl, nNow) {
      ClearNewKeeps(s, sl, {id}, 0);
      TakesSlot(s, id, sl);
    } else if s.mapInfo[id].nRefCount == 0 {
      Forgotten(s, id);
    }
  }

  /** Whether a known, untried entry gets one more reference: there is news of it, and the slot is another's and can be had. */
  ghost predicate GetsReference(s: State, a: Addition, id: int)
    requires Inv(s) && id in s.mapInfo
  {
    var info, t := s.mapInfo[id], Refreshed(s.mapInfo[id], a).nTime;
    var sl := NewSlot(s.h, info.service, NewBucket(s.h, info.service, a.source));
    assert NewSlotOk(s, sl);
    && a.addr.nTime != 0 && (t == 0 || a.addr.nTime > t)
    && !info.fInTried && info.nRefCount < 8 && a.rnd == 0
    && (sl !in s.vvNew || (s.vvNew[sl] != id && IsTerrible(s.mapInfo[s.vvNew[sl]], a.nowTerrible)))
  }

  /** Add_ of a known address refreshes its entry and gives it at most one more reference, which may cost a terrible entry its last. */
  lemma AddKnownExact(s: State, a: Addition, id: int)
    requires Inv(s) && a.routable && id in s.mapInfo && s.mapInfo[id].service.net == a.addr.service.net
    ensures var s', info := Add(s, a).0, s.mapInfo[id];
            var sl := NewSlot(s.h, info.service, NewBucket(s.h, info.service, a.source));
            && !Add(s, a).1
            && s'.vvNew == (if GetsReference(s, a, id) then s.vvNew[sl := id] else s.vvNew)
            && id in s'.mapInfo && SameStats(Refreshed(info, a), s'.mapInfo[id])
            && (forall i :: i in s'.mapInfo && i != id ==> i in s.mapInfo && SameStats(s.mapInfo[i], s'.mapInfo[i]))
            && (forall i :: i in s.mapInfo ==> (i in s'.mapInfo <==> !(i != id && GetsReference(s, a, id) && LastReference(s, sl, i))))
  {
    assert IdHasAddr(s, id);
    var s1 := s.(mapInfo := s.mapInfo[id := Refreshed(s.mapInfo[id], a)]);
    TouchKeeps(s, id, s1.mapInfo[id], {}, 0);
    PartialIsSound(s1, {}, 0);
    assert RefOk(s, {}, id);
    var s', info := Add(s, a).0, s.mapInfo[id];
    var sl := NewSlot(s.h, info.service, NewBucket(s.h, info.service, a.source));
    assert NewSlotOk(s, sl);
    if WantsBucket(s1.mapInfo[id], a) {
      WaiveMore(s1, {}, {id}, 0);
      InsertExact(s1, id, a.source, a.nowTerrible);
      forall i | i in s.mapInfo && i != id ensures LastReference(s1, sl, i) <==> LastReference(s, sl, i) {}
      forall i | i in s'.mapInfo && i != id ensures i in s.mapInfo && SameStats(s.mapInfo[i], s'.mapInfo[i]) {
        assert i in s1.mapInfo && SameStats(s1.mapInfo[i], s'.mapInfo[i]);
      }
    }
  }

  lemma ClearNewTable(s: State, sl: Slot, waived: set<int>, uncounted: int)
    requires Partial(s, waived, uncounted)
    ensures Sound(s) && ClearNew(s, sl).vvNew == s.vvNew - {sl}
  {
    PartialIsSound(s, waived, uncounted);
    if sl in s.vvNew {
      UnlinkKeeps(s, sl, s.mapInfo.Keys, |NewIds(s.mapInfo)| - s.nNew);
    }
  }

  function Attempt(s: State, sv: Service, nTime: int): State {
    if !Knows(s, sv) then s
    else
      var id := Find(s, sv.net).value;
      s.(mapInfo := s.mapInfo[id := s.mapInfo[id].(nLastTry := nTime, nAttempts := s.mapInfo[id].nAttempts + 1)])
  }

  function Connected(s: State, sv: Service, nTime: int): State {
    if !Knows(s, sv) then s
    else
      var id := Find(s, sv.net).value;
      if nTime - s.mapInfo[id].nTime > 20 * 60 then s.(mapInfo := s.mapInfo[id := s.mapInfo[id].(nTime := nTime)]) else s
  }

  /** A service is known exactly if some entry has it, and then it is found under that entry's id. */
  lemma KnowsIff(s: State, sv: Service, id: int)
    requires AddrOk(s)
    ensures id in s.mapInfo && s.mapInfo[id].service == sv <==> Knows(s, sv) && Find(s, sv.net).value == id
  {
    assert IdHasAddr(s, id);
  }

  /** Attempt_ counts an attempt for the very service. */
  lemma AttemptCounts(s: State, sv: Service, nTime: int, id: int)
    requires Inv(s)
    ensures id in s.mapInfo && s.mapInfo[id].service == sv ==>
              && id in Attempt(s, sv, nTime).mapInfo
              && var info := Attempt(s, sv, nTime).mapInfo[id];
                 && Attempt(s, sv, nTime) == s.(mapInfo := s.mapInfo[id := info])
                 && info.nAttempts == s.mapInfo[id].nAttempts + 1 && info.nLastTry == nTime
                 && info.(nAttempts := s.mapInfo[id].nAttempts, nLastTry := s.mapInfo[id].nLastTry) == s.mapInfo[id]
    ensures (forall i :: i in s.mapInfo ==> s.mapInfo[i].service != sv) ==> Attempt(s, sv, nTime) == s
  {
    KnowsIff(s, sv, id);
    if Knows(s, sv) {
      KnowsIff(s, sv, Find(s, sv.net).value);
    }
  }

  /** Connected_ brings the time of the very service up to date, at most once in twenty minutes. */
  lemma ConnectedUpdates(s: State, sv: Service, nTime: int, id: int)
    requires Inv(s)
    ensures id in s.mapInfo && s.mapInfo[id].service == sv ==>
              && id in Connected(s, sv, nTime).mapInfo
              && var info := Connected(s, sv, nTime).mapInfo[id];
                 && Connected(s, sv, nTime) == s.(mapInfo := s.mapInfo[id := info])
                 && info.nTime == (if nTime <= s.mapInfo[id].nTime + 1200 then s.mapInfo[id].nTime else nTime)
                 && info.(nTime := s.mapInfo[id].nTime) == s.mapInfo[id]
    ensures (forall i :: i in s.mapInfo ==> s.mapInfo[i].service != sv) ==> Connected(s, sv, nTime) == s
  {
    KnowsIff(s, sv, id);
    if Knows(s, sv) {
      KnowsIff(s, sv, Find(s, sv.net).value);
    }
    if id in s.mapInfo {
      assert s.mapInfo[id := s.mapInfo[id]] == s.mapInfo;
    }
  }

  lemma Remainder(x: nat, m: nat)
    requires m >= 1
    ensures 0 <= x % m < m && (x < m ==> x % m == x)
  {
  }

  function Pick(rnd: nat -> nat, n: nat, size: nat): (j: nat)
    requires n < size
    ensures n <= j < size && (rnd(n) < size - n ==> j - n == rnd(n))
  {
    Remainder(rnd(n), size - n);
    rnd(n) % (size - n) + n
  }

  /** One pass of the shuffle: the entry picked for position n, and it again if it is good enough. */
  function ShuffleStep(s: State, n: nat, rnd: nat -> nat, nNow: int): (r: (State, seq<Info>))
    requires Inv(s) && n < |s.vRandom|
    ensures Inv(r.0) && OnlyReordered(s, r.0) && |r.0.vRandom| == |s.vRandom|
    ensures r.0.vRandom[..n] == s.vRandom[..n] && r.0.vRandom[n] in r.0.mapInfo
    ensures r.1 == if IsTerrible(r.0.mapInfo[r.0.vRandom[n]], nNow) then [] else [r.0.mapInfo[r.0.vRandom[n]]]
  {
    SwapKeeps(s, n, Pick(rnd, n, |s.vRandom|), {}, 0);
    var s1 := SwapRandom(s, n, Pick(rnd, n, |s.vRandom|));
    assert PosHasId(s1, n);
    (s1, if IsTerrible(s1.mapInfo[s1.vRandom[n]], nNow) then [] else [s1.mapInfo[s1.vRandom[n]]])
  }

  /** GetAddr_ from position n on, with `vAddr` gathered so far; rnd(k) is drawn for position k. */
  function Sample(s: State, n: nat, vAddr: seq<Info>, nNodes: int, rnd: nat -> nat, nNow: int): (r: (State, seq<Info>))
    requires Inv(s)
    decreases |s.vRandom| - n
  {
    if n >= |s.vRandom| || |vAddr| >= nNodes then (s, vAddr)
    else
      var (s1, more) := ShuffleStep(s, n, rnd, nNow);
      Sample(s1, n + 1, vAddr + more, nNodes, rnd, nNow)
  }

  /** Position p of vRandom holds the entry that was copied into the sample. */
  ghost predicate Sampled(s: State, p: nat, info: Info, nNow: int) {
    && p < |s.vRandom| && s.vRandom[p] in s.mapInfo
    && SameButPos(s.mapInfo[s.vRandom[p]], info) && !IsTerrible(info, nNow)
  }

  /** The sample was copied from increasing positions below n. */
  ghost predicate IsSample(s: State, at: seq<nat>, n: nat, vAddr: seq<Info>, nNow: int) {
    && |at| == |vAddr|
    && (forall k :: 0 <= k < |at| ==> at[k] < n && Sampled(s, at[k], vAddr[k], nNow))
    && (forall k, l :: 0 <= k < l < |at| ==> at[k] < at[l])
  }

  lemma StillSampled(s: State, s': State, p: nat, info: Info, nNow: int)
    requires Sampled(s, p, info, nNow) && OnlyReordered(s, s') && |s'.vRandom| == |s.vRandom|
    requires s'.vRandom[p] == s.vRandom[p]
    ensures Sampled(s', p, info, nNow)
  {
    var id := s.vRandom[p];
    assert id in s'.mapInfo.Keys;
    assert SameButPos(s.mapInfo[id], s'.mapInfo[id]);
  }

  /** A shuffle step beyond the sampled positions keeps the sample, with or without the next entry. */
  lemma SampleGrows(s: State, s': State, at: seq<nat>, n: nat, vAddr: seq<Info>, nNow: int)
    requires IsSample(s, at, n, vAddr, nNow) && OnlyReordered(s, s') && n < |s'.vRandom| == |s.vRandom|
    requires s'.vRandom[..n] == s.vRandom[..n] && s'.vRandom[n] in s'.mapInfo
    ensures IsSample(s', at, n + 1, vAddr, nNow)
    ensures var info := s'.mapInfo[s'.vRandom[n]];
            !IsTerrible(info, nNow) ==> IsSample(s', at + [n], n + 1, vAddr + [info], nNow)
  {
    forall k | 0 <= k < |at| ensures at[k] < n + 1 && Sampled(s', at[k], vAddr[k], nNow) {
      assert s'.vRandom[at[k]] == s'.vRandom[..n][at[k]] == s.vRandom[..n][at[k]] == s.vRandom[at[k]];
      StillSampled(s, s', at[k], vAddr[k], nNow);
    }
    var info := s'.mapInfo[s'.vRandom[n]];
    if !IsTerrible(info, nNow) {
      assert Sampled(s', n, info, nNow);
    }
  }

  lemma {:induction false} SampleKeeps(s: State, n: nat, vAddr: seq<Info>, nNodes: int, rnd: nat -> nat, nNow: int)
    requires Inv(s) && |vAddr| <= Max(0, nNodes)
    ensures var (s', sample) := Sample(s, n, vAddr, nNodes, rnd, nNow);
            && Inv(s') && OnlyReordered(s, s') && |s'.vRandom| == |s.vRandom| && |sample| <= Max(0, nNodes)
    decreases |s.vRandom| - n
  {
    if n < |s.vRandom| && |vAddr| < nNodes {
      var (s1, more) := ShuffleStep(s, n, rnd, nNow);
      SampleKeeps(s1, n + 1, vAddr + more, nNodes, rnd, nNow);
      ReorderedTwice(s, s1, Sample(s1, n + 1, vAddr + more, nNodes, rnd, nNow).0);
    }
  }

  lemma {:induction false} SampleIsSample(s: State, n: nat, vAddr: seq<Info>, nNodes: int, rnd: nat -> nat, nNow: int, at: seq<nat>)
    returns (at': seq<nat>)
    requires Inv(s) && IsSample(s, at, n, vAddr, nNow)
    ensures var (s', sample) := Sample(s, n, vAddr, nNodes, rnd, nNow); IsSample(s', at', |s.vRandom|, sample, nNow)
    decreases |s.vRandom| - n
  {
    if n < |s.vRandom| && |vAddr| < nNodes {
      var (s1, more) := ShuffleStep(s, n, rnd, nNow);
      var at1 := SampleExtended(s, s1, at, n, vAddr, more, nNow);
      at' := SampleIsSample(s1, n + 1, vAddr + more, nNodes, rnd, nNow, at1);
    } else {
      at' := at;
      assert forall k :: 0 <= k < |at| ==> Sampled(s, at[k], vAddr[k], nNow);
    }
  }

  lemma SampleExtended(s: State, s': State, at: seq<nat>, n: nat, vAddr: seq<Info>, more: seq<Info>, nNow: int)
    returns (at': seq<nat>)
    requires IsSample(s, at, n, vAddr, nNow) && OnlyReordered(s, s') && n < |s'.vRandom| == |s.vRandom|
    requires s'.vRandom[..n] == s.vRandom[..n] && s'.vRandom[n] in s'.mapInfo
    requires more == if IsTerrible(s'.mapInfo[s'.vRandom[n]], nNow) then [] else [s'.mapInfo[s'.vRandom[n]]]
    ensures IsSample(s', at', n + 1, vAddr + more, nNow)
  {
    SampleGrows(s, s', at, n, vAddr, nNow);
    assert vAddr + [] == vAddr;
    at' := if more == [] then at else at + [n];
  }

  /** The entries in good standing from position n on. */
  ghost function GoodFrom(s: State, n: nat, nNow: int): set<int> {
    set i | n <= i < |s.vRandom| && s.vRandom[i] in s.mapInfo && !IsTerrible(s.mapInfo[s.vRandom[i]], nNow) :: s.vRandom[i]
  }

  ghost function GoodIds(s: State, nNow: int): set<int> {
    set id | id in s.mapInfo && !IsTerrible(s.mapInfo[id], nNow)
  }

  lemma AllGood(s: State, nNow: int)
    requires RandomOk(s)
    ensures GoodFrom(s, 0, nNow) == GoodIds(s, nNow)
  {
    forall id | id in GoodIds(s, nNow) ensures id in GoodFrom(s, 0, nNow) {
      assert IdHasPos(s, id);
    }
  }

  /** An entry behind the sampled positions stays behind them. */
  lemma StaysBehind(s: State, s': State, n: nat, nNow: int, id: int)
    requires Inv(s) && Inv(s') && OnlyReordered(s, s') && n <= |s.vRandom| == |s'.vRandom|
    requires s'.vRandom[..n] == s.vRandom[..n] && id in GoodFrom(s, n, nNow)
    ensures id in GoodFrom(s', n, nNow)
  {
    var i :| n <= i < |s.vRandom| && s.vRandom[i] == id;
    assert id in s'.mapInfo.Keys && SameButPos(s.mapInfo[id], s'.mapInfo[id]);
    assert IdHasPos(s', id) && PosHasId(s, i);
    var j := s'.mapInfo[id].nRandomPos;
    assert PosHasId(s, j);
    forall k | 0 <= k < n ensures s.vRandom[k] == s'.vRandom[k] {
      assert s.vRandom[..n][k] == s'.vRandom[..n][k];
    }
    assert s'.vRandom[j] == id;
  }

  lemma StepCounts(s: State, n: nat, rnd: nat -> nat, nNow: int)
    requires Inv(s) && n < |s.vRandom|
    ensures var (s1, more) := ShuffleStep(s, n, rnd, nNow);
            Inv(s1) && |GoodFrom(s, n, nNow)| == |more| + |GoodFrom(s1, n + 1, nNow)|
  {
    var (s1, more) := ShuffleStep(s, n, rnd, nNow);
    forall id ensures id in GoodFrom(s, n, nNow) <==> id in GoodFrom(s1, n, nNow) {
      if id in GoodFrom(s, n, nNow) {
        StaysBehind(s, s1, n, nNow, id);
      }
      if id in GoodFrom(s1, n, nNow) {
        ReorderedBack(s, s1);
        StaysBehind(s1, s, n, nNow, id);
      }
    }
    assert GoodFrom(s, n, nNow) == GoodFrom(s1, n, nNow);
    var rest, first := GoodFrom(s1, n + 1, nNow), s1.vRandom[n];
    forall i | n + 1 <= i < |s1.vRandom| ensures s1.vRandom[i] != first {
      assert PosHasId(s1, i) && PosHasId(s1, n);
    }
    assert GoodFrom(s1, n, nNow) == if IsTerrible(s1.mapInfo[first], nNow) then rest else rest + {first};
  }

  lemma ReorderedBack(s: State, s': State)
    requires OnlyReordered(s, s')
    ensures OnlyReordered(s', s)
  {
    forall id | id in s'.mapInfo ensures SameButPos(s'.mapInfo[id], s.mapInfo[id]) {
      assert id in s.mapInfo.Keys;
    }
  }

  /** The sample takes all entries in good standing unless it is full before. */
  lemma {:induction false} SampleCounts(s: State, n: nat, vAddr: seq<Info>, nNodes: int, rnd: nat -> nat, nNow: int)
    requires Inv(s)
    ensures var sample := Sample(s, n, vAddr, nNodes, rnd, nNow).1;
            && |sample| <= |vAddr| + |GoodFrom(s, n, nNow)|
            && (|sample| == |vAddr| + |GoodFrom(s, n, nNow)| || |sample| >= nNodes)
    decreases |s.vRandom| - n
  {
    hide GoodFrom;
    hide Inv;
    if n < |s.vRandom| && |vAddr| < nNodes {
      StepCounts(s, n, rnd, nNow);
      var (s1, more) := ShuffleStep(s, n, rnd, nNow);
      SampleCounts(s1, n + 1, vAddr + more, nNodes, rnd, nNow);
    } else if n >= |s.vRandom| {
      assert GoodFrom(s, n, nNow) == {} by { NoneLeft(s, n, nNow); }
    }
  }

  lemma NoneLeft(s: State, n: nat, nNow: int)
    requires n >= |s.vRandom|
    ensures GoodFrom(s, n, nNow) == {}
  {
  }

  /**
  GetAddr_ returns distinct known addresses in good standing: all of them, or 2500 of them, or as many as 23% of all
  entries allow.
  */
  lemma SampleCorrect(s: State, rnd: nat -> nat, nNow: int)
    requires Inv(s)
    ensures var (s', sample) := Sample(s, 0, [], MaxNodes(s), rnd, nNow);
            && Inv(s') && OnlyReordered(s, s') && 100 * |sample| <= 23 * |s.vRandom| && |sample| <= 2500
            && (|sample| == |GoodIds(s, nNow)| || |sample| == 2500 || 100 * (|sample| + 1) > 23 * |s.vRandom|)
            && (forall i, j :: 0 <= i < j < |sample| ==> sample[i].service.net != sample[j].service.net)
            && (forall i :: 0 <= i < |sample| ==> !IsTerrible(sample[i], nNow) && Knows(s, sample[i].service))
  {
    SampleKeeps(s, 0, [], MaxNodes(s), rnd, nNow);
    SampleCounts(s, 0, [], MaxNodes(s), rnd, nNow);
    AllGood(s, nNow);
    var at := SampleIsSample(s, 0, [], MaxNodes(s), rnd, nNow, []);
    var (s', sample) := Sample(s, 0, [], MaxNodes(s), rnd, nNow);
    SampleIsDistinct(s, s', at, |s.vRandom|, sample, nNow);
  }

  lemma SampleSize(s: State, rnd: nat -> nat, nNow: int)
    requires Inv(s)
    ensures var size := |Sample(s, 0, [], MaxNodes(s), rnd, nNow).1|;
            && 100 * size <= 23 * |s.vRandom| && size <= 2500
            && (size == |GoodIds(s, nNow)| || size == 2500 || 100 * (size + 1) > 23 * |s.vRandom|)
  {
    SampleCorrect(s, rnd, nNow);
  }

  lemma SampleIsDistinct(s: State, s': State, at: seq<nat>, n: nat, vAddr: seq<Info>, nNow: int)
    requires Inv(s) && Inv(s') && OnlyReordered(s, s') && IsSample(s', at, n, vAddr, nNow)
    ensures forall i, j :: 0 <= i < j < |vAddr| ==> vAddr[i].service.net != vAddr[j].service.net
    ensures forall i :: 0 <= i < |vAddr| ==> !IsTerrible(vAddr[i], nNow) && Knows(s, vAddr[i].service)
  {
    forall i, j | 0 <= i < j < |vAddr| ensures vAddr[i].service.net != vAddr[j].service.net {
      assert Sampled(s', at[i], vAddr[i], nNow) && Sampled(s', at[j], vAddr[j], nNow);
      assert PosHasId(s', at[i]) && PosHasId(s', at[j]);
      assert IdHasAddr(s', s'.vRandom[at[i]]) && IdHasAddr(s', s'.vRandom[at[j]]);
    }
    forall i | 0 <= i < |vAddr| ensures !IsTerrible(vAddr[i], nNow) && Knows(s, vAddr[i].service) {
      assert Sampled(s', at[i], vAddr[i], nNow);
      var id := s'.vRandom[at[i]];
      assert id in s.mapInfo.Keys;
      assert SameButPos(s.mapInfo[id], s'.mapInfo[id]);
      assert IdHasAddr(s, id);
    }
  }

  lemma ReorderedTwice(a: State, b: State, c: State)
    requires OnlyReordered(a, b) && OnlyReordered(b, c)
    ensures OnlyReordered(a, c)
  {
    forall id | id in a.mapInfo ensures SameButPos(a.mapInfo[id], c.mapInfo[id]) {
      assert id in b.mapInfo.Keys;
      assert SameButPos(a.mapInfo[id], b.mapInfo[id]) && SameButPos(b.mapInfo[id], c.mapInfo[id]);
    }
  }

  function MaxNodes(s: State): int {
    var n := 23 * |s.vRandom| / 100;
    if n > 2500 then 2500 else n
  }

  //
  // Every run.
  //

  datatype Op =
    | AddOp(addition: Addition)
    | GoodOp(service: Service, nTime: int)
    | AttemptOp(service: Service, nTime: int)
    | ConnectedOp(service: Service, nTime: int)
    | GetAddrOp(rnd: nat -> nat, nNow: int)

  function Step(s: State, op: Op): State
    requires Inv(s)
  {
    match op
    case AddOp(a) => Add(s, a).0
    case GoodOp(sv, t) => Good(s, sv, t)
    case AttemptOp(sv, t) => Attempt(s, sv, t)
    case ConnectedOp(sv, t) => Connected(s, sv, t)
    case GetAddrOp(rnd, now) => Sample(s, 0, [], MaxNodes(s), rnd, now).0
  }

  lemma AttemptKeeps(s: State, sv: Service, nTime: int)
    requires Inv(s)
    ensures Inv(Attempt(s, sv, nTime))
  {
    if Knows(s, sv) {
      var id := Find(s, sv.net).value;
      TouchKeeps(s, id, Attempt(s, sv, nTime).mapInfo[id], {}, 0);
    }
  }

  lemma ConnectedKeeps(s: State, sv: Service, nTime: int)
    requires Inv(s)
    ensures Inv(Connected(s, sv, nTime))
  {
    if Connected(s, sv, nTime) != s {
      var id := Find(s, sv.net).value;
      TouchKeeps(s, id, Connected(s, sv, nTime).mapInfo[id], {}, 0);
    }
  }

  lemma StepKeeps(s: State, op: Op)
    requires Inv(s)
    ensures Inv(Step(s, op))
  {
    match op
    case AddOp(a) => AddCorrect(s, a);
    case GoodOp(sv, t) => GoodCorrect(s, sv, t);
    case AttemptOp(sv, t) => AttemptKeeps(s, sv, t);
    case ConnectedOp(sv, t) => ConnectedKeeps(s, sv, t);
    case GetAddrOp(rnd, now) => SampleCorrect(s, rnd, now);
  }

  lemma EmptyInv(h: Hashes)
    ensures Inv(Empty(h))
  {
    var s := Empty(h);
    assert TriedIds(s.mapInfo) == {} && NewIds(s.mapInfo) == {};
    assert forall i :: IdHasAddr(s, i) && IdHasPos(s, i) && PosHasId(s, i) && TriedIdOk(s, i) && RefOk(s, {}, i);
    assert forall a :: AddrHasId(s, a);
    assert forall sl :: TriedSlotOk(s, sl) && NewSlotOk(s, sl);
  }

  ghost predicate Reaches(s: State, ops: seq<Op>, s': State)
    decreases |ops|
  {
    if ops == [] then s' == s else Inv(s) && Reaches(Step(s, ops[0]), ops[1..], s')
  }

  /** From an empty manager, every sequence of operations can be run to its end and keeps the invariant. */
  lemma RunKeeps(h: Hashes, ops: seq<Op>)
    ensures exists s' :: Reaches(Empty(h), ops, s') && Inv(s')
  {
    EmptyInv(h);
    var s' := RunFrom(Empty(h), ops);
  }

  lemma {:induction false} RunFrom(s: State, ops: seq<Op>) returns (s': State)
    requires Inv(s)
    ensures Reaches(s, ops, s') && Inv(s')
    decreases |ops|
  {
    if ops == [] {
      s' := s;
    } else {
      StepKeeps(s, ops[0]);
      s' := RunFrom(Step(s, ops[0]), ops[1..]);
    }
  }

  /** Of two new addresses with one slot the second is dropped at once, though Add_ answers true for both. */
  lemma SecondIsDropped(h: Hashes, a: Addition, b: Addition)
    requires a.routable && b.routable && a.addr.service.net != b.addr.service.net
    requires HomeOf(Empty(h), a) == HomeOf(Empty(h), b)
    requires a.nTimePenalty == 0 && 0 < a.addr.nTime <= b.nowTerrible <= a.addr.nTime + 30 * DAY
    ensures Inv(Empty(h)) && Add(Empty(h), a).1
    ensures var s := Add(Empty(h), a).0;
            Reaches(Empty(h), [AddOp(a)], s) && Inv(s) && Add(s, b).1 && b.addr.service.net !in Add(s, b).0.mapAddr
  {
    var s0 := Empty(h);
    EmptyInv(h);
    AddCorrect(s0, a);
    AddKeepsIff(s0, a);
    var s := Add(s0, a).0;
    assert Step(s0, AddOp(a)) == s;
    assert Reaches(s, [], s);
    assert [AddOp(a)][1..] == [];
    FirstEntry(h, a);
    AddKeepsIff(s, b);
  }

  lemma FirstEntry(h: Hashes, a: Addition)
    requires a.routable && Inv(Empty(h))
    ensures var s := Add(Empty(h), a).0;
            && s.h == h && s.mapAddr == map[a.addr.service.net := 0] && s.mapInfo.Keys == {0}
            && s.mapInfo[0].nRefCount == 1 && s.mapInfo[0].nAttempts == 0 && s.mapInfo[0].nLastSuccess == 0
            && s.mapInfo[0].nLastTry == 0 && s.mapInfo[0].nTime == Max(0, a.addr.nTime - a.nTimePenalty)
  {
    var s0 := Empty(h);
    assert Find(s0, a.addr.service.net) == None;
    CreatedKeeps(s0, a);
    var s1 := Created(s0, a);
    assert s1.vvNew == map[];
    var sl := HomeOf(s0, a);
    assert Overwrites(s1, 0, sl, a.nowTerrible);
    assert ClearNew(s1, sl) == s1;
  }

  /** Such addresses exist: here every hash is zero. */
  lemma DroppedExample() returns (h: Hashes, a: Addition, b: Addition)
    ensures Inv(Empty(h)) && Inv(Add(Empty(h), a).0)
    ensures Add(Add(Empty(h), a).0, b).1 && b.addr.service.net !in Add(Add(Empty(h), a).0, b).0.mapAddr
  {
    h := Hashes(sv => 0, (sv, net) => 0, (isNew, bucket, sv) => 0);
    a := Addition(Address(Service(1, 8233), 1, 1), 3, 0, true, 1, 1, 0);
    b := Addition(Address(Service(2, 8233), 1, 1), 3, 0, true, 1, 1, 0);
    SecondIsDropped(h, a, b);
  }
}
