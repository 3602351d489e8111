/**
The order of block assembly (src/miner.cpp:60-71, 254-337, 468-483): transactions that wait for
unconfirmed parents (COrphan, mapDependers) and a queue of those that do not.
*/
module Scheduler {
  import opened Ledger

  /** vecPriority, the sets of COrphan, and mapDependers. */
  datatype Sched = Sched(queue: seq<Txid>, dependsOn: map<Txid, set<Txid>>, dependers: map<Txid, seq<Txid>>)

  function DependersOf(s: Sched, h: Txid): seq<Txid> {
    if h in s.dependers then s.dependers[h] else []
  }

  //
  // The invariant.
  //

  predicate NoDuplicates(q: seq<Txid>) {
    forall i, j :: 0 <= i < j < |q| ==> q[i] != q[j]
  }

  /**
  One transaction: its set holds the parents not yet selected, and it is queued or has been
  considered exactly when there are none.
  */
  ghost predicate At(parents: map<Txid, set<Txid>>, s: Sched, selected: set<Txid>, considered: set<Txid>, id: Txid)
    requires id in parents
  {
    && (id in s.dependsOn ==> s.dependsOn[id] == parents[id] - selected)
    && (id in s.queue || id in considered <==> parents[id] <= selected)
  }

  /** Every transaction with parents is listed under each of them, and only those are listed. */
  ghost predicate Linked(parents: map<Txid, set<Txid>>, s: Sched) {
    && (forall id {:trigger id in s.dependsOn} :: id in s.dependsOn <==> id in parents && parents[id] != {})
    && (forall h, o {:trigger o in DependersOf(s, h)} :: o in DependersOf(s, h) <==> o in parents && h in parents[o])
  }

  ghost predicate Heard(parents: map<Txid, set<Txid>>, s: Sched, selected: set<Txid>, considered: set<Txid>, h: Txid, done: set<Txid>, id: Txid)
    requires id in parents
  {
    At(parents, s, if id in done then selected + {h} else selected, considered, id)
  }

  /**
  The invariant while the selection of h is being announced: the transactions in done have heard
  of it.  The keys of parents are the eligible transactions.
  */
  ghost predicate Partial(parents: map<Txid, set<Txid>>, s: Sched, selected: set<Txid>, considered: set<Txid>, h: Txid, done: set<Txid>) {
    && NoDuplicates(s.queue)
    && (forall id :: id in s.queue ==> id in parents && id !in considered)
    && considered <= parents.Keys
    && Linked(parents, s)
    && (forall id {:trigger Heard(parents, s, selected, considered, h, done, id)} ::
          id in parents ==> Heard(parents, s, selected, considered, h, done, id))
  }

  ghost predicate Ok(parents: map<Txid, set<Txid>>, s: Sched, selected: set<Txid>, considered: set<Txid>) {
    Partial(parents, s, selected, considered, 0, {})
  }

  //
  // Taking a transaction off the queue.
  //

  function Without(q: seq<Txid>, i: nat): seq<Txid>
    requires i < |q|
  {
    q[..i] + q[i + 1..]
  }

  lemma WithoutMembers(q: seq<Txid>, i: nat)
    requires i < |q| && NoDuplicates(q)
    ensures NoDuplicates(Without(q, i))
    ensures forall id :: id in Without(q, i) <==> id in q && id != q[i]
  {
    var r := Without(q, i);
    forall id | id in q && id != q[i] ensures id in r {
      var j :| 0 <= j < |q| && q[j] == id;
      if j < i {
        assert r[j] == id;
      } else {
        assert r[j - 1] == id;
      }
    }
  }

  lemma PopKeeps(parents: map<Txid, set<Txid>>, s: Sched, selected: set<Txid>, considered: set<Txid>, i: nat)
    requires Ok(parents, s, selected, considered) && i < |s.queue|
    ensures Ok(parents, s.(queue := Without(s.queue, i)), selected, considered + {s.queue[i]})
  {
    hide Linked;
    WithoutMembers(s.queue, i);
    var t, more := s.(queue := Without(s.queue, i)), considered + {s.queue[i]};
    SameLinks(parents, s, t);
    assert s.queue[i] in s.queue;
    forall id | id in parents ensures Heard(parents, t, selected, more, 0, {}, id) {
      assert Heard(parents, s, selected, considered, 0, {}, id);
    }
  }

  lemma SameLinks(parents: map<Txid, set<Txid>>, s: Sched, t: Sched)
    requires Linked(parents, s) && t.dependsOn.Keys == s.dependsOn.Keys && t.dependers == s.dependers
    ensures Linked(parents, t)
  {
    forall id ensures id in t.dependsOn <==> id in parents && parents[id] != {} {
      assert id in s.dependsOn.Keys <==> id in t.dependsOn.Keys;
    }
    forall h, o ensures o in DependersOf(t, h) <==> o in parents && h in parents[o] {
      assert DependersOf(t, h) == DependersOf(s, h);
    }
  }

  //
  // Announcing a selected transaction to those that wait for it (lines 471-482).
  //

  function Announce(s: Sched, h: Txid, o: Txid): Sched {
    if o in s.dependsOn && s.dependsOn[o] != {} then
      var left := s.dependsOn[o] - {h};
      Sched(if left == {} then s.queue + [o] else s.queue, s.dependsOn[o := left], s.dependers)
    else s
  }

  lemma AnnounceKeeps(parents: map<Txid, set<Txid>>, s: Sched, selected: set<Txid>, considered: set<Txid>, h: Txid, done: set<Txid>, o: Txid)
    requires Partial(parents, s, selected, considered, h, done) && o in DependersOf(s, h)
    ensures Partial(parents, Announce(s, h, o), selected, considered, h, done + {o})
    ensures Announce(s, h, o).dependers == s.dependers
  {
    assert o in parents && h in parents[o] && o in s.dependsOn;
    assert Heard(parents, s, selected, considered, h, done, o);
    var t := Announce(s, h, o);
    assert t.dependsOn.Keys == s.dependsOn.Keys;
    hide Linked;
    SameLinks(parents, s, t);
    AnnouncedItself(parents, s, selected, considered, h, done, o);
    forall id | id in parents ensures Heard(parents, t, selected, considered, h, done + {o}, id) {
      assert Heard(parents, s, selected, considered, h, done, id);
    }
  }

  /** A transaction that hears of its last parent is queued, once. */
  lemma AnnouncedItself(parents: map<Txid, set<Txid>>, s: Sched, selected: set<Txid>, considered: set<Txid>, h: Txid, done: set<Txid>, o: Txid)
    requires o in parents && h in parents[o] && o in s.dependsOn && Heard(parents, s, selected, considered, h, done, o)
    requires NoDuplicates(s.queue)
    ensures Heard(parents, Announce(s, h, o), selected, considered, h, done + {o}, o)
    ensures NoDuplicates(Announce(s, h, o).queue)
    ensures forall id :: id in Announce(s, h, o).queue ==> id in s.queue || (id == o && o !in considered)
    ensures forall id :: id in s.queue ==> id in Announce(s, h, o).queue
  {
    var t := Announce(s, h, o);
    var d := s.dependsOn[o];
    if d != {} {
      assert d - {h} == parents[o] - (selected + {h});
      assert t.queue == s.queue || t.queue == s.queue + [o];
    } else {
      assert parents[o] <= selected + {h};
      assert parents[o] - (selected + {h}) == {};
    }
  }

  /** Once all that wait for h have heard, its selection is complete. */
  lemma AnnounceDone(parents: map<Txid, set<Txid>>, s: Sched, selected: set<Txid>, considered: set<Txid>, h: Txid, done: set<Txid>)
    requires Partial(parents, s, selected, considered, h, done) && forall o :: o in DependersOf(s, h) ==> o in done
    ensures Ok(parents, s, selected + {h}, considered)
  {
    forall id | id in parents ensures Heard(parents, s, selected + {h}, considered, 0, {}, id) {
      assert Heard(parents, s, selected, considered, h, done, id);
      if id !in done {
        assert id !in DependersOf(s, h);
        assert parents[id] - selected == parents[id] - (selected + {h});
      }
    }
  }

  lemma AnnounceStart(parents: map<Txid, set<Txid>>, s: Sched, selected: set<Txid>, considered: set<Txid>, h: Txid)
    requires Ok(parents, s, selected, considered)
    ensures Partial(parents, s, selected, considered, h, {})
  {
    forall id | id in parents ensures Heard(parents, s, selected, considered, h, {}, id) {
      assert Heard(parents, s, selected, considered, 0, {}, id);
    }
  }

  //
  // Entering a transaction with its missing parents (lines 273-336).
  //

  function AddParent(s: Sched, id: Txid, h: Txid): Sched {
    var set_ := if id in s.dependsOn then s.dependsOn[id] else {};
    Sched(s.queue, s.dependsOn[id := set_ + {h}], s.dependers[h := DependersOf(s, h) + [id]])
  }

  function AddParents(s: Sched, id: Txid, ps: seq<Txid>): Sched {
    if ps == [] then s else AddParent(AddParents(s, id, ps[..|ps| - 1]), id, ps[|ps| - 1])
  }

  function SetOf(ps: seq<Txid>): set<Txid> { set i | 0 <= i < |ps| :: ps[i] }

  function Enter(s: Sched, id: Txid, ps: seq<Txid>): Sched {
    if ps == [] then s.(queue := s.queue + [id]) else AddParents(s, id, ps)
  }

  lemma {:induction false} AddParentsFacts(s: Sched, id: Txid, ps: seq<Txid>)
    requires id !in s.dependsOn
    ensures var t := AddParents(s, id, ps);
            && t.queue == s.queue
            && t.dependsOn == (if ps == [] then s.dependsOn else s.dependsOn[id := SetOf(ps)])
            && (forall h, o {:trigger o in DependersOf(t, h)} :: o in DependersOf(t, h) <==> o in DependersOf(s, h) || (o == id && h in ps))
    decreases |ps|
  {
    if ps != [] {
      var init, h0 := ps[..|ps| - 1], ps[|ps| - 1];
      AddParentsFacts(s, id, init);
      assert SetOf(ps) == SetOf(init) + {h0};
      var t0, t := AddParents(s, id, init), AddParents(s, id, ps);
      assert SetOf([]) == {};
      forall h, o ensures o in DependersOf(t, h) <==> o in DependersOf(s, h) || (o == id && h in ps) {
        assert h in ps <==> h in init || h == h0;
        assert DependersOf(t, h) == DependersOf(t0, h) + if h == h0 then [id] else [];
      }
    }
  }

  lemma EnterKeeps(parents: map<Txid, set<Txid>>, s: Sched, id: Txid, ps: seq<Txid>)
    requires Ok(parents, s, {}, {}) && id !in parents
    ensures Ok(parents[id := SetOf(ps)], Enter(s, id, ps), {}, {})
  {
    var more, t := parents[id := SetOf(ps)], Enter(s, id, ps);
    assert id !in s.dependsOn && id !in s.queue;
    AddParentsFacts(s, id, ps);
    EnterLinks(parents, s, id, ps);
    forall o | o in more ensures Heard(more, t, {}, {}, 0, {}, o) {
      if o != id {
        assert Heard(parents, s, {}, {}, 0, {}, o);
      } else {
        assert ps != [] ==> ps[0] in SetOf(ps);
        assert SetOf(ps) - {} == SetOf(ps);
      }
    }
  }

  lemma EnterLinks(parents: map<Txid, set<Txid>>, s: Sched, id: Txid, ps: seq<Txid>)
    requires Linked(parents, s) && id !in parents && id !in s.dependsOn
    ensures Linked(parents[id := SetOf(ps)], Enter(s, id, ps))
  {
    var more, t := parents[id := SetOf(ps)], Enter(s, id, ps);
    AddParentsFacts(s, id, ps);
    assert ps != [] ==> ps[0] in SetOf(ps);
    assert ps == [] ==> SetOf(ps) == {};
    forall o ensures o in t.dependsOn <==> o in more && more[o] != {} {
      if o != id {
        assert o in t.dependsOn <==> o in s.dependsOn;
      }
    }
    forall h, o ensures o in DependersOf(t, h) <==> o in more && h in more[o] {
      assert o in DependersOf(t, h) <==> o in DependersOf(s, h) || (o == id && h in ps);
      assert o in DependersOf(s, h) <==> o in parents && h in parents[o];
      assert h in ps <==> h in SetOf(ps);
    }
  }

  lemma EmptyOk()
    ensures Ok(map[], Sched([], map[], map[]), {}, {})
  {
  }

  /**
  When the queue is empty, exactly the transactions whose unconfirmed parents were all selected
  have been considered: none is starved, and none came too early.
  */
  lemma NoneStarved(parents: map<Txid, set<Txid>>, s: Sched, selected: set<Txid>, considered: set<Txid>)
    requires Ok(parents, s, selected, considered) && s.queue == []
    ensures forall id :: id in parents ==> (id in considered <==> parents[id] <= selected)
  {
    forall id | id in parents ensures id in considered <==> parents[id] <= selected {
      assert Heard(parents, s, selected, considered, 0, {}, id);
    }
  }
}
