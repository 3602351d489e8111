/**
The address manager as an object that updates its maps, its vector and its two tables
in place (CAddrMan, src/addrman.h:172-252).  Every method is proved to perform the
operation that module AddrMan defines on values, and every assert of the source is
an assert here.
*/
module AddrManager {
  import opened Common
  import opened AddrMan

  function AllSlots(buckets: nat, size: nat): (r: set<Slot>)
    ensures forall sl :: sl in r <==> sl.bucket < buckets && sl.pos < size
  {
    var r := set b: nat, p: nat | 0 <= b < buckets && 0 <= p < size :: Slot(b, p);
    assert forall sl: Slot :: sl == Slot(sl.bucket, sl.pos);
    r
  }

  /** The occupied slots of a table; -1 marks a free one. */
  ghost function Occupied(t: array2<int>): Table
    reads t
  {
    map sl | sl in AllSlots(t.Length0, t.Length1) && t[sl.bucket, sl.pos] != -1 :: t[sl.bucket, sl.pos]
  }

  class Manager {
    const h: Hashes
    var nIdCount: int
    var mapInfo: map<int, Info>
    var mapAddr: map<NetAddr, int>
    var vRandom: seq<int>
    var nTried: int
    var nNew: int
    const vvTried: array2<int>
    const vvNew: array2<int>

    ghost predicate Shaped() {
      && vvTried.Length0 == TRIED_BUCKETS && vvTried.Length1 == BUCKET_SIZE
      && vvNew.Length0 == NEW_BUCKETS && vvNew.Length1 == BUCKET_SIZE
      && vvTried != vvNew
    }

    ghost function Value(): State
      reads this, vvTried, vvNew
    {
      State(h, nIdCount, mapInfo, mapAddr, vRandom, nTried, nNew, Occupied(vvTried), Occupied(vvNew))
    }

    constructor (h: Hashes)
      ensures Shaped() && fresh(vvTried) && fresh(vvNew)
      ensures Value() == Empty(h)
    {
      this.h := h;
      nIdCount, mapInfo, mapAddr, vRandom, nTried, nNew := 0, map[], map[], [], 0, 0;
      vvTried := new int[TRIED_BUCKETS, BUCKET_SIZE];
      vvNew := new int[NEW_BUCKETS, BUCKET_SIZE];
      new;
      ClearTable(vvNew);
      ClearTable(vvTried);
    }

    static method ClearTable(t: array2<int>)
      modifies t
      ensures Occupied(t) == map[]
    {
      for b := 0 to t.Length0
        invariant forall i, j :: 0 <= i < b && 0 <= j < t.Length1 ==> t[i, j] == -1
      {
        for p := 0 to t.Length1
          invariant forall i, j :: 0 <= i < b && 0 <= j < t.Length1 ==> t[i, j] == -1
          invariant forall j :: 0 <= j < p ==> t[b, j] == -1
        {
          t[b, p] := -1;
        }
      }
    }

    static method SetSlot(t: array2<int>, sl: Slot, id: int)
      requires sl.bucket < t.Length0 && sl.pos < t.Length1
      modifies t
      ensures Occupied(t) == if id == -1 then old(Occupied(t)) - {sl} else old(Occupied(t))[sl := id]
    {
      ghost var before := Occupied(t);
      t[sl.bucket, sl.pos] := id;
      ghost var after := if id == -1 then before - {sl} else before[sl := id];
      assert Occupied(t).Keys == after.Keys;
    }

    method FindId(net: NetAddr) returns (id: Option<int>)
      requires Shaped()
      ensures id == Find(Value(), net)
    {
      if net !in mapAddr || mapAddr[net] !in mapInfo {
        return None;
      }
      return Some(mapAddr[net]);
    }

    method CreateEntry(addr: Address, source: NetAddr) returns (id: int)
      requires Shaped()
      modifies this
      ensures id == old(nIdCount) && Value() == Create(old(Value()), addr, source)
    {
      id := nIdCount;
      nIdCount := nIdCount + 1;
      mapInfo := mapInfo[id := Info(addr.service, addr.nTime, addr.nServices, source, 0, 0, 0, 0, false, -1)];
      mapAddr := mapAddr[addr.service.net := id];
      mapInfo := mapInfo[id := mapInfo[id].(nRandomPos := |vRandom|)];
      vRandom := vRandom + [id];
    }

    method Swap(i: int, j: int)
      requires Shaped() && RandomOk(Value()) && (i == j || (0 <= i < |vRandom| && 0 <= j < |vRandom|))
      modifies this
      ensures i == j || (old(vRandom)[i] in old(mapInfo) && old(vRandom)[j] in old(mapInfo))
      ensures Value() == SwapRandom(old(Value()), i, j)
    {
      if i == j {
        return;
      }
      var id1, id2 := vRandom[i], vRandom[j];
      assert PosHasId(Value(), i) && PosHasId(Value(), j);
      assert id1 in mapInfo;
      assert id2 in mapInfo;
      mapInfo := mapInfo[id1 := mapInfo[id1].(nRandomPos := j)];
      mapInfo := mapInfo[id2 := mapInfo[id2].(nRandomPos := i)];
      vRandom := vRandom[i := id2];
      vRandom := vRandom[j := id1];
    }

    /** The last lines of Delete. */
    method DropLast(id: int, net: NetAddr)
      requires vRandom != []
      modifies this
      ensures Value() == old(Value().(vRandom := vRandom[..|vRandom| - 1], mapAddr := mapAddr - {net},
                                      mapInfo := mapInfo - {id}, nNew := nNew - 1))
    {
      hide Occupied;
      vRandom := vRandom[..|vRandom| - 1];
      mapAddr := mapAddr - {net};
      mapInfo := mapInfo - {id};
      nNew := nNew - 1;
    }

    method DeleteEntry(id: int)
      requires Shaped() && RandomOk(Value())
      requires id in mapInfo && !mapInfo[id].fInTried && mapInfo[id].nRefCount == 0
      modifies this
      ensures Value() == Delete(old(Value()), id)
    {
      DeleteSteps(Value(), id);
      var net, pos, last := mapInfo[id].service.net, mapInfo[id].nRandomPos, |vRandom| - 1;
      hide RandomOk;
      hide SwapRandom;
      hide Occupied;
      hide Delete;
      Swap(pos, last);
      DropLast(id, net);
    }

    /** The slot is one of the new table's. */
    method ClearSlot(sl: Slot)
      requires Shaped() && Sound(Value()) && sl.bucket < NEW_BUCKETS && sl.pos < BUCKET_SIZE
      modifies this, vvNew
      ensures Value() == ClearNew(old(Value()), sl)
    {
      ghost var s := Value();
      if vvNew[sl.bucket, sl.pos] != -1 {
        var id := vvNew[sl.bucket, sl.pos];
        assert s.vvNew[sl] == id;
        UnlinkKeeps(s, sl, s.mapInfo.Keys, |NewIds(s.mapInfo)| - s.nNew);
        assert mapInfo[id].nRefCount > 0;
        mapInfo := mapInfo[id := mapInfo[id].(nRefCount := mapInfo[id].nRefCount - 1)];
        SetSlot(vvNew, sl, -1);
        assert Value() == Unlink(s, sl);
        if mapInfo[id].nRefCount == 0 {
          DeleteEntry(id);
        }
      }
    }

    method LeaveBucket(id: int, bucket: nat)
      requires Shaped() && id in mapInfo && id != -1 && bucket < NEW_BUCKETS
      modifies this, vvNew
      ensures Value() == UnlinkBucket(old(Value()), id, bucket)
    {
      var sl := NewSlot(h, mapInfo[id].service, bucket);
      if vvNew[sl.bucket, sl.pos] == id {
        SetSlot(vvNew, sl, -1);
        mapInfo := mapInfo[id := mapInfo[id].(nRefCount := mapInfo[id].nRefCount - 1)];
      }
    }

    /** The first loop of MakeTried. */
    method LeaveNew(id: int)
      requires Shaped() && id in mapInfo && id != -1
      modifies this, vvNew
      ensures Value() == UnlinkUpTo(old(Value()), id, NEW_BUCKETS)
    {
      ghost var s := Value();
      var bucket: nat := 0;
      while bucket < NEW_BUCKETS
        invariant bucket <= NEW_BUCKETS && Value() == UnlinkUpTo(s, id, bucket)
      {
        LeaveBucket(id, bucket);
        bucket := bucket + 1;
      }
    }

    method LeaveTriedSlot(sl: Slot) returns (id: int)
      requires Shaped() && Sound(Value()) && sl in Value().vvTried
      modifies this, vvTried
      ensures id == old(Value()).vvTried[sl] && id in old(mapInfo) && Value() == LeaveTried(old(Value()), sl)
    {
      ghost var s := Value();
      LeaveTriedKeeps(s, sl, s.mapInfo.Keys, |NewIds(s.mapInfo)| - s.nNew);
      id := vvTried[sl.bucket, sl.pos];
      assert id in mapInfo;
      mapInfo := mapInfo[id := mapInfo[id].(fInTried := false)];
      SetSlot(vvTried, sl, -1);
      nTried := nTried - 1;
    }

    method PutBack(id: int, usl: Slot)
      requires Shaped() && id in mapInfo && id != -1 && mapInfo[id].nRefCount == 0
      requires usl.bucket < NEW_BUCKETS && usl.pos < BUCKET_SIZE && usl !in Value().vvNew
      modifies this, vvNew
      ensures Value() == Link(old(Value()), id, usl).(nNew := old(nNew) + 1)
    {
      assert vvNew[usl.bucket, usl.pos] == -1 by {
        assert usl !in Occupied(vvNew);
      }
      mapInfo := mapInfo[id := mapInfo[id].(nRefCount := 1)];
      SetSlot(vvNew, usl, id);
      nNew := nNew + 1;
    }

    /** Makes room in a tried slot that is taken (lines 168-187). */
    method EvictFrom(sl: Slot)
      requires Shaped() && Sound(Value()) && sl in Value().vvTried
      modifies this, vvNew, vvTried
      ensures Value() == Evict(old(Value()), sl)
    {
      ghost var s := Value();
      LeaveTriedKeeps(s, sl, s.mapInfo.Keys, |NewIds(s.mapInfo)| - s.nNew);
      var id := LeaveTriedSlot(sl);
      ghost var s1 := Value();
      PartialIsSound(s1, s.mapInfo.Keys + {id}, |NewIds(s.mapInfo)| - s.nNew + 1);
      LiveIds(s1, id);
      var usl := HomeSlot(h, mapInfo[id]);
      HolderHasReference(s1, usl, s1.mapInfo.Keys);
      ClearNewKeeps(s1, usl, s1.mapInfo.Keys, |NewIds(s1.mapInfo)| - s1.nNew);
      ClearSlot(usl);
      PutBack(id, usl);
    }

    /** MakeTried up to the point where the tried slot is free (lines 150-189). */
    method PrepareEntry(id: int)
      requires Shaped() && Inv(Value()) && id in mapInfo && !mapInfo[id].fInTried
      modifies this, vvNew, vvTried
      ensures Sound(old(Value())) && Value() == Prepare(old(Value()), id)
    {
      ghost var s := Value();
      PartialIsSound(s, {}, 0);
      LiveIds(s, id);
      LeaveNew(id);
      nNew := nNew - 1;
      assert mapInfo[id].nRefCount == 0 by {
        WaiveMore(s, {}, {id}, 0);
        UnlinkedEverywhere(s, id, {id}, 0);
      }
      ghost var s1 := UnlinkUpTo(s, id, NEW_BUCKETS);
      UnlinkUpToKeeps(s, id, NEW_BUCKETS, s.mapInfo.Keys, |NewIds(s.mapInfo)| - s.nNew);
      Count(s1, s.mapInfo.Keys, |NewIds(s.mapInfo)| - s.nNew, -1);
      PartialIsSound(Value(), s.mapInfo.Keys, |NewIds(s.mapInfo)| - s.nNew + 1);
      var sl := TriedSlot(h, mapInfo[id].service);
      if vvTried[sl.bucket, sl.pos] != -1 {
        assert sl in Occupied(vvTried);
        EvictFrom(sl);
      }
    }

    method EnterTriedSlot(id: int, sl: Slot)
      requires Shaped() && id in mapInfo && id != -1 && sl.bucket < TRIED_BUCKETS && sl.pos < BUCKET_SIZE
      requires sl !in Value().vvTried
      modifies this, vvTried
      ensures Value() == EnterTried(old(Value()), id, sl)
    {
      assert vvTried[sl.bucket, sl.pos] == -1 by {
        assert sl !in Occupied(vvTried);
      }
      SetSlot(vvTried, sl, id);
      nTried := nTried + 1;
      mapInfo := mapInfo[id := mapInfo[id].(fInTried := true)];
    }

    method MoveToTried(id: int)
      requires Shaped() && Inv(Value()) && id in mapInfo && !mapInfo[id].fInTried
      modifies this, vvNew, vvTried
      ensures Value() == MakeTried(old(Value()), id)
    {
      PrepareKeeps(Value(), id);
      LiveIds(Value(), id);
      var sl := TriedSlot(h, mapInfo[id].service);
      PrepareEntry(id);
      EnterTriedSlot(id, sl);
    }

    /** nRnd is the bucket at which the search for the entry starts. */
    method MarkGood(sv: Service, nTime: int, nRnd: nat)
      requires Shaped() && Inv(Value())
      modifies this, vvNew, vvTried
      ensures Value() == Good(old(Value()), sv, nTime)
    {
      ghost var s := Value();
      var found := FindId(sv.net);
      if found.None? {
        return;
      }
      var id := found.value;
      if mapInfo[id].service != sv {
        return;
      }
      ghost var info := mapInfo[id].(nLastSuccess := nTime, nLastTry := nTime, nAttempts := 0);
      mapInfo := mapInfo[id := mapInfo[id].(nLastSuccess := nTime, nLastTry := nTime, nAttempts := 0)];
      TouchKeeps(s, id, info, {}, 0);
      if mapInfo[id].fInTried {
        return;
      }
      var nUBucket := SearchBuckets(id, nRnd);
      assert nUBucket != -1;
      MoveToTried(id);
    }

    /** The search of Good_ (lines 223-232), which finds a bucket for every untried entry. */
    method SearchBuckets(id: int, nRnd: nat) returns (nUBucket: int)
      requires Shaped() && Inv(Value()) && id in mapInfo && !mapInfo[id].fInTried
      ensures 0 <= nUBucket < NEW_BUCKETS && InBucket(h, Occupied(vvNew), mapInfo[id].service, id, nUBucket)
    {
      ghost var s := Value();
      SearchSucceeds(s, id, nRnd);
      LiveIds(s, id);
      nUBucket := -1;
      var n: nat := 0;
      while n < NEW_BUCKETS && nUBucket == -1
        invariant nUBucket == -1 ==> forall k: nat :: k < n ==> !FoundAt(s, id, nRnd, k)
        invariant nUBucket != -1 ==> 0 <= nUBucket < NEW_BUCKETS && InBucket(h, Occupied(vvNew), mapInfo[id].service, id, nUBucket)
      {
        var nB := (n + nRnd) % NEW_BUCKETS;
        var sl := NewSlot(h, mapInfo[id].service, nB);
        if vvNew[sl.bucket, sl.pos] == id {
          nUBucket := nB;
        }
        n := n + 1;
      }
    }

    /** Lines 254-281: update a known entry, and decide whether to try one more bucket. */
    method RefreshEntry(id: int, a: Addition) returns (more: bool)
      requires Shaped() && id in mapInfo
      modifies this`mapInfo
      ensures mapInfo == old(mapInfo)[id := Refreshed(old(mapInfo)[id], a)]
      ensures more == WantsBucket(mapInfo[id], a)
    {
      mapInfo := mapInfo[id := Refreshed(mapInfo[id], a)];
      var info := mapInfo[id];
      if a.addr.nTime == 0 || (info.nTime != 0 && a.addr.nTime <= info.nTime) {
        return false;
      }
      if info.fInTried {
        return false;
      }
      if info.nRefCount == NEW_BUCKETS_PER_ADDRESS {
        return false;
      }
      var nFactor := Factor(info.nRefCount);
      if nFactor > 1 && a.rnd != 0 {
        return false;
      }
      return true;
    }

    method CreateCounted(a: Addition) returns (id: int)
      requires Shaped()
      modifies this
      ensures id == old(nIdCount) && Value() == Created(old(Value()), a)
    {
      id := CreateEntry(a.addr, a.source);
      mapInfo := mapInfo[id := mapInfo[id].(nTime := Max(0, mapInfo[id].nTime - a.nTimePenalty))];
      nNew := nNew + 1;
    }

    method AddAddress(a: Addition) returns (fNew: bool)
      requires Shaped() && Inv(Value())
      modifies this, vvNew
      ensures (Value(), fNew) == Add(old(Value()), a)
      ensures fNew ==> (a.addr.service.net in mapAddr <==> MakesRoom(old(Value()), a))
    {
      ghost var s := Value();
      if !a.routable {
        return false;
      }
      var found := FindId(a.addr.service.net);
      if found.Some? {
        var id := found.value;
        TouchKeeps(s, id, Refreshed(mapInfo[id], a), {}, 0);
        var more := RefreshEntry(id, a);
        PartialIsSound(Value(), {}, 0);
        if more {
          InsertEntry(id, a.source, a.nowTerrible);
        }
        return false;
      } else {
        UnknownIsNew(s, a.addr.service.net);
        CreatedKeeps(s, a);
        AddKeepsIff(s, a);
        var id := CreateCounted(a);
        InsertEntry(id, a.source, a.nowTerrible);
        return true;
      }
    }

    /** Whether the slot may be taken over (lines 292-299). */
    method MayInsert(id: int, sl: Slot, nNow: int) returns (fInsert: bool)
      requires Shaped() && Sound(Value()) && id in mapInfo && sl.bucket < NEW_BUCKETS && sl.pos < BUCKET_SIZE
      ensures fInsert == Overwrites(Value(), id, sl, nNow)
    {
      assert NewSlotOk(Value(), sl);
      fInsert := vvNew[sl.bucket, sl.pos] == -1;
      if !fInsert {
        var existing := mapInfo[vvNew[sl.bucket, sl.pos]];
        if IsTerrible(existing, nNow) || (existing.nRefCount > 1 && mapInfo[id].nRefCount == 0) {
          fInsert := true;
        }
      }
    }

    method TakeOver(id: int, sl: Slot)
      requires Shaped() && Sound(Value()) && id in mapInfo && sl.bucket < NEW_BUCKETS && sl.pos < BUCKET_SIZE
      requires id in ClearNew(Value(), sl).mapInfo
      modifies this, vvNew
      ensures Value() == Link(ClearNew(old(Value()), sl), id, sl)
    {
      LiveIds(Value(), id);
      ClearSlot(sl);
      mapInfo := mapInfo[id := mapInfo[id].(nRefCount := mapInfo[id].nRefCount + 1)];
      SetSlot(vvNew, sl, id);
    }

    method InsertEntry(id: int, source: NetAddr, nNow: int)
      requires Shaped() && Sound(Value()) && id in mapInfo && !mapInfo[id].fInTried
      modifies this, vvNew
      ensures Value() == Insert(old(Value()), id, source, nNow)
    {
      ghost var s := Value();
      LiveIds(s, id);
      var sl := NewSlot(h, mapInfo[id].service, NewBucket(h, mapInfo[id].service, source));
      if vvNew[sl.bucket, sl.pos] != id {
        var fInsert := MayInsert(id, sl, nNow);
        if fInsert {
          ClearNewKeeps(s, sl, s.mapInfo.Keys, |NewIds(s.mapInfo)| - s.nNew);
          TakeOver(id, sl);
        } else if mapInfo[id].nRefCount == 0 {
          DeleteEntry(id);
        }
      }
    }

    method MarkAttempt(sv: Service, nTime: int)
      requires Shaped()
      modifies this
      ensures Value() == Attempt(old(Value()), sv, nTime)
    {
      var found := FindId(sv.net);
      if found.None? {
        return;
      }
      var id := found.value;
      if mapInfo[id].service != sv {
        return;
      }
      mapInfo := mapInfo[id := mapInfo[id].(nLastTry := nTime, nAttempts := mapInfo[id].nAttempts + 1)];
    }

    method ShuffleOnce(n: nat, rnd: nat -> nat, nNow: int) returns (more: seq<Info>)
      requires Shaped() && Inv(Value()) && n < |vRandom|
      modifies this
      ensures (Value(), more) == ShuffleStep(old(Value()), n, rnd, nNow)
    {
      ghost var s := Value();
      var j := Pick(rnd, n, |vRandom|);
      SwapKeeps(s, n, j, {}, 0);
      Swap(n, j);
      assert PosHasId(Value(), n);
      assert vRandom[n] in mapInfo;
      more := if IsTerrible(mapInfo[vRandom[n]], nNow) then [] else [mapInfo[vRandom[n]]];
    }

    method MarkConnected(sv: Service, nTime: int)
      requires Shaped()
      modifies this
      ensures Value() == Connected(old(Value()), sv, nTime)
    {
      var found := FindId(sv.net);
      if found.None? {
        return;
      }
      var id := found.value;
      if mapInfo[id].service != sv {
        return;
      }
      if nTime - mapInfo[id].nTime > 20 * 60 {
        mapInfo := mapInfo[id := mapInfo[id].(nTime := nTime)];
      }
    }

    method GetAddr(rnd: nat -> nat, nNow: int) returns (vAddr: seq<Info>)
      requires Shaped() && Inv(Value())
      modifies this
      ensures (Value(), vAddr) == Sample(old(Value()), 0, [], MaxNodes(old(Value())), rnd, nNow)
      ensures 100 * |vAddr| <= 23 * |old(vRandom)| && |vAddr| <= 2500
      ensures |vAddr| == |GoodIds(old(Value()), nNow)| || |vAddr| == 2500 || 100 * (|vAddr| + 1) > 23 * |old(vRandom)|
    {
      hide GoodIds;
      hide Inv;
      SampleSize(Value(), rnd, nNow);
      var nNodes := 23 * |vRandom| / 100;
      if nNodes > 2500 {
        nNodes := 2500;
      }
      vAddr := [];
      ghost var s := Value();
      var n: nat := 0;
      while n < |vRandom| && |vAddr| < nNodes
        invariant n <= |vRandom| && Inv(Value())
        invariant Sample(s, 0, [], nNodes, rnd, nNow) == Sample(Value(), n, vAddr, nNodes, rnd, nNow)
      {
        var more := ShuffleOnce(n, rnd, nNow);
        vAddr := vAddr + more;
        n := n + 1;
      }
    }
  }

  /** Ids are never -1, the mark of a free slot. */
  lemma LiveIds(s: State, id: int)
    requires AddrOk(s) && id in s.mapInfo
    ensures id != -1
  {
    assert IdHasAddr(s, id);
  }

  ghost predicate FoundAt(s: State, id: int, nRnd: nat, k: nat)
    requires id in s.mapInfo
  {
    InBucket(s.h, s.vvNew, s.mapInfo[id].service, id, (k + nRnd) % NEW_BUCKETS)
  }

  /** Wherever the search starts, it comes past a bucket that holds the entry. */
  lemma SearchSucceeds(s: State, id: int, nRnd: nat)
    requires Inv(s) && id in s.mapInfo && !s.mapInfo[id].fInTried
    ensures exists k: nat :: k < NEW_BUCKETS && FoundAt(s, id, nRnd, k)
  {
    UntriedHasBucket(s, id);
    var b: nat :| b < NEW_BUCKETS && InBucket(s.h, s.vvNew, s.mapInfo[id].service, id, b);
    var r := nRnd % NEW_BUCKETS;
    var k: nat := if b >= r then b - r else b + NEW_BUCKETS - r;
    assert (k + nRnd) % NEW_BUCKETS == b;
    assert FoundAt(s, id, nRnd, k);
  }

  /** 2 to the number of references (lines 277-279). */
  method Factor(nRefCount: int) returns (nFactor: int)
    ensures nFactor >= 1 && (nFactor > 1 <==> nRefCount > 0)
  {
    nFactor := 1;
    var n := 0;
    while n < nRefCount
      invariant 0 <= n && (nRefCount >= 0 ==> n <= nRefCount) && (nRefCount < 0 ==> n == 0)
      invariant nFactor >= 1 && (nFactor > 1 <==> n > 0)
    {
      nFactor := nFactor * 2;
      n := n + 1;
    }
  }

  /** Delete, step by step. */
  lemma DeleteSteps(s: State, id: int)
    requires id in s.mapInfo && RandomOk(s)
    ensures IdHasPos(s, id) && PosHasId(s, |s.vRandom| - 1)
    ensures var s1 := SwapRandom(s, s.mapInfo[id].nRandomPos, |s.vRandom| - 1);
            |s1.vRandom| == |s.vRandom| > 0
            && Delete(s, id) == s1.(vRandom := s1.vRandom[..|s1.vRandom| - 1], mapAddr := s1.mapAddr - {s.mapInfo[id].service.net},
                                    mapInfo := s1.mapInfo - {id}, nNew := s1.nNew - 1)
  {
    hide RandomOk;
    assert IdHasPos(s, id) && PosHasId(s, |s.vRandom| - 1) by { RandomMeans(s, id); }
  }

  lemma RandomMeans(s: State, id: int)
    requires RandomOk(s)
    ensures IdHasPos(s, id) && PosHasId(s, |s.vRandom| - 1)
  {
  }
}
