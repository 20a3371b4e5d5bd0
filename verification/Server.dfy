/** The handlers of subnets.go and peers.go as far as they touch trees and rows. Each is an
    action with a rollback, run as `Transactional.Do` (tx/transaction.go) runs them. */
module Servers {
  import opened Powers
  import opened Tries
  import opened Prefixes
  import opened Nets
  import opened Allocators
  import opened LeaseRuns
  import opened Requests
  import opened Systems
  import opened SystemRuns
  import opened Tables
  import opened IPTrees
  import opened Services

  datatype Outcome = Done | Refused(error: Error) | NotStored | NotFound | HostBitsSet | Panicked

  /** An entry of a request, with the tree that took it, if any did. */
  datatype ParsedSubnet = ParsedSubnet(prefix: Prefix, mayOverlap: bool, tree: IPTree?)

  /** The answer to adding a peer: what fails first. */
  function PeerAnswer(y: System, reqs: seq<Row>, fault: Fault): (r: Outcome)
    ensures r.Done? <==> !Stops(fault, |reqs|) && ReserveList(y.trees, reqs).2.None?
  {
    var e := ReserveList(y.trees, reqs).2;
    if Early(fault) then NotStored
    else if e.Some? then Refused(e.value)
    else StoredAnswer(fault, |reqs|)
  }

  /** The answer once `n` prefixes are reserved. */
  function StoredAnswer(fault: Fault, n: nat): Outcome {
    if !Stops(fault, n) then Done else if fault.Panics? then Panicked else NotStored
  }

  /** The answer to reserving a subnet. */
  function SubnetAnswer(y: System, row: Row, stored: bool): (r: Outcome)
    ensures r.Done? <==> IsMasked(row.prefix) && stored && ReserveList(y.trees, [row]).2.None?
  {
    if !IsMasked(row.prefix) then HostBitsSet
    else
      match ReserveList(y.trees, [row]).2
      case Some(e) => Refused(e)
      case None => if stored then Done else NotStored
  }

  class Server {
    const service: Service
    var db: Db

    ghost predicate Valid()
      reads this, service, service.Trees(), service.nodes
    {
      service.Valid()
    }

    ghost function View(): System
      reads this, service.Trees()
    {
      System(service.View(), db)
    }

    constructor (service: Service, db: Db)
      requires service.Valid()
      ensures this.service == service && Valid() && View() == System(service.View(), db)
    {
      this.service, this.db := service, db;
      new;
      forall i ensures service.TreeOk(i) { assert old(service.TreeOk(i)); }
    }

    /** A server started again, for the nets of a system that ran before and from its tables, always
        comes up: with just the rows leased, and so as the very same system if nothing else was. */
    static method Restarted(allocNets: seq<Prefix>, db: Db, ghost y: System) returns (server: Server)
      requires Agree(y) && allocNets == NetsOf(y.trees) && db == y.db
      ensures fresh(server) && server.Valid()
      ensures server.View().db == db && Agree(server.View()) && Exact(server.View())
      ensures server.View() == y <==> Exact(y)
    {
      ghost var u := RestartAgrees(y);
      var r := Service.NewService(allocNets, Rows(db.table));
      server := new Server(r.value, db);
      assert server.View() == u;
    }

    /** `AddSubnet`: a new row with the next id. */
    method Store(row: Row, peer: Option<nat>)
      modifies this`db
      ensures db == AddRows(old(db), peer, [row])
    {
      db := db.(table := db.table + [Stored(db.nextId, peer, row)], nextId := db.nextId + 1);
    }

    // ---------- Several prefixes, all or none ----------

    /** Entry `k` remembers the tree that took it; entries `taken` does not speak of were not taken. */
    ghost predicate Remembers(parsed: seq<ParsedSubnet>, reqs: seq<Row>, taken: seq<Option<nat>>, k: int)
      requires |parsed| == |reqs| >= |taken|
    {
      0 <= k < |parsed| ==>
        var t := if k < |taken| then taken[k] else None;
        && parsed[k].prefix == reqs[k].prefix && parsed[k].mayOverlap == reqs[k].mayOverlap
        && (t.None? <==> parsed[k].tree == null)
        && (t.Some? ==> t.value < |service.netTrees| && parsed[k].tree == service.netTrees[t.value])
    }

    ghost predicate AllRemembered(parsed: seq<ParsedSubnet>, reqs: seq<Row>, taken: seq<Option<nat>>) {
      && |parsed| == |reqs| >= |taken|
      && forall k {:trigger Remembers(parsed, reqs, taken, k)} :: Remembers(parsed, reqs, taken, k)
    }

    /** The trees' part of the `Action` of `apiAddPeer`. */
    method ReserveAll(reqs: seq<Row>)
      returns (parsed: seq<ParsedSubnet>, e: Option<Error>, ghost taken: seq<Option<nat>>)
      requires Valid() && ValidRows(reqs)
      modifies service`nodes, service.Trees(), service.nodes
      ensures Valid() && fresh(service.nodes - old(service.nodes))
      ensures (service.View(), taken, e) == ReserveList(old(service.View()), reqs)
      ensures AllRemembered(parsed, reqs, taken) && |taken| == |reqs|
    {
      ghost var s := service.View();
      ghost var head: seq<Option<nat>> := [];
      parsed := seq(|reqs|, k requires 0 <= k < |reqs| => ParsedSubnet(reqs[k].prefix, reqs[k].mayOverlap, null));
      assert reqs[0..] == reqs && [] + ReserveList(s, reqs).1 == ReserveList(s, reqs).1;
      for i := 0 to |reqs|
        invariant Valid() && fresh(service.nodes - old(service.nodes))
        invariant |head| == i && AllRemembered(parsed, reqs, head)
        invariant ReserveList(s, reqs) == Prepend(head, ReserveList(service.View(), reqs[i..]))
      {
        ReserveListStep(service.View(), reqs, i, head);
        if reqs[i].mayOverlap {
          MoreRemembered(parsed, reqs, head, None, parsed);
          head := head + [None];
          continue;
        }
        assert reqs[i] in reqs;
        var r, n := service.Reserve(reqs[i].prefix);
        if r.Err? {
          taken := head + Nones(|reqs| - i);
          NothingElse(parsed, reqs, head, taken);
          return parsed, Some(r.error), taken;
        }
        ghost var parsed0 := parsed;
        parsed := parsed[i := parsed[i].(tree := r.value)];
        MoreRemembered(parsed0, reqs, head, Some(n), parsed);
        head := head + [Some(n)];
      }
      assert reqs[|reqs|..] == [] && head + [] == head;
      return parsed, None, head;
    }

    lemma MoreRemembered(parsed: seq<ParsedSubnet>, reqs: seq<Row>, head: seq<Option<nat>>, t: Option<nat>,
                         parsed': seq<ParsedSubnet>)
      requires |head| < |reqs| && AllRemembered(parsed, reqs, head)
      requires t.None? ==> parsed' == parsed
      requires t.Some? ==> t.value < |service.netTrees|
      requires t.Some? ==> parsed' == parsed[|head| := parsed[|head|].(tree := service.netTrees[t.value])]
      ensures AllRemembered(parsed', reqs, head + [t])
    {
      var head' := head + [t];
      forall k ensures Remembers(parsed', reqs, head', k) {
        assert Remembers(parsed, reqs, head, k);
      }
    }

    lemma NothingElse(parsed: seq<ParsedSubnet>, reqs: seq<Row>, head: seq<Option<nat>>, taken: seq<Option<nat>>)
      requires AllRemembered(parsed, reqs, head) && taken == head + Nones(|reqs| - |head|)
      ensures AllRemembered(parsed, reqs, taken) && |taken| == |reqs|
    {
      forall k ensures Remembers(parsed, reqs, taken, k) {
        assert Remembers(parsed, reqs, head, k);
      }
    }

    /** The trees' part of the `Rollback` of `apiAddPeer`. */
    method RollbackAll(parsed: seq<ParsedSubnet>, ghost reqs: seq<Row>, ghost taken: seq<Option<nat>>)
      requires Valid() && ValidRows(reqs) && AllRemembered(parsed, reqs, taken) && |taken| == |reqs|
      modifies service`nodes, service.Trees(), service.nodes
      ensures Valid() && fresh(service.nodes - old(service.nodes))
      ensures service.View() == Rollback(old(service.View()), reqs, taken)
    {
      ghost var s := service.View();
      assert reqs[0..] == reqs && taken[0..] == taken;
      for i := 0 to |parsed|
        invariant Valid() && fresh(service.nodes - old(service.nodes))
        invariant Rollback(service.View(), reqs[i..], taken[i..]) == Rollback(s, reqs, taken)
      {
        assert Remembers(parsed, reqs, taken, i) && reqs[i] in reqs;
        assert reqs[i..][0] == reqs[i] && reqs[i..][1..] == reqs[i + 1..];
        assert taken[i..][0] == taken[i] && taken[i..][1..] == taken[i + 1..];
        if parsed[i].tree != null {
          var ok := service.DeleteIn(parsed[i].tree, taken[i].value, parsed[i].prefix);
        }
      }
    }

    // ---------- Rows ----------

    lemma StoredAll(db: Db, peer: Option<nat>, rows: seq<Row>, i: nat)
      requires i < |rows|
      ensures AddRows(AddRows(db, peer, rows[..i]), peer, [rows[i]]) == AddRows(db, peer, rows[..i + 1])
    {
    }

    /** Stores the rows of a peer, up to the one that fails. */
    method StoreRows(rows: seq<Row>, peer: nat, fault: Fault) returns (ok: bool)
      modifies this`db
      ensures ok <==> !(fault.AtRow? && fault.k < |rows|)
      ensures ok ==> db == AddRows(old(db), Some(peer), rows)
      ensures !ok ==> db == AddRows(old(db), Some(peer), rows[..fault.k])
    {
      assert db.table + NewRows([], Some(peer), db.nextId) == db.table;
      for i := 0 to |rows|
        invariant db == AddRows(old(db), Some(peer), rows[..i])
        invariant fault.AtRow? ==> fault.k >= i
      {
        if fault == AtRow(i) {
          return false;
        }
        StoredAll(old(db), Some(peer), rows, i);
        Store(rows[i], Some(peer));
      }
      assert rows[..|rows|] == rows;
      return true;
    }

    /** The rest of `apiAddPeer` once the prefixes are reserved: the rows, what follows them and the
        commit, or the rollback of tables and trees. */
    method Finish(rows: seq<Row>, parsed: seq<ParsedSubnet>, snapshot: Db, peer: nat, fault: Fault,
                  ghost taken: seq<Option<nat>>)
      returns (r: Outcome)
      requires Valid() && !Early(fault)
      requires ValidRows(rows) && AllRemembered(parsed, rows, taken) && |taken| == |rows|
      modifies this`db, service`nodes, service.Trees(), service.nodes
      ensures Valid() && fresh(service.nodes - old(service.nodes))
      ensures r == StoredAnswer(fault, |rows|)
      ensures r.Done? ==> View() == System(old(service.View()), AddRows(old(db), Some(peer), rows))
      ensures !r.Done? ==> View() == System(Rollback(old(service.View()), rows, taken), snapshot)
    {
      var ok := StoreRows(rows, peer, fault);
      if ok && !fault.AtWg? && !fault.Panics? && !fault.AtCommit? {
        return Done;
      }
      db := snapshot;
      RollbackAll(parsed, rows, taken);
      return if fault.Panics? then Panicked else NotStored;
    }

    // ---------- Requests ----------

    /** `apiAddPeer` with prefixes: its action, and its rollback where the action fails. */
    method AddPeer(reqs: seq<Row>, fault: Fault) returns (r: Outcome)
      requires Valid() && ValidRows(reqs) && reqs != []
      modifies this`db, service`nodes, service.Trees(), service.nodes
      ensures Valid() && fresh(service.nodes - old(service.nodes))
      ensures View() == Step(old(View()), Call.AddPeer(reqs, fault))
      ensures r == PeerAnswer(old(View()), reqs, fault)
      ensures r.Done? && Numbered(old(db)) ==> exists id :: PeerAdded(old(db), db, reqs, id)
      ensures !r.Done? ==> db == old(db)
    {
      if fault.AtBegin? {
        return NotStored;
      }
      ghost var y := View();
      var snapshot := db;
      if fault.AtPeer? {
        db := snapshot;
        return NotStored;
      }
      var peer := db.nextPeer;
      db := AddPeerRow(db);
      var parsed, e, taken := ReserveAll(reqs);
      StorePeerIs(y, reqs, fault, service.View(), taken, e);
      if e.Some? {
        db := snapshot;
        RollbackAll(parsed, reqs, taken);
        return Refused(e.value);
      }
      r := Finish(reqs, parsed, snapshot, peer, fault, taken);
      if r.Done? && Numbered(y.db) {
        ghost var id := PeerStored(y, reqs, fault);
      }
    }

    /** The entries for random addresses: each remembers the tree of its net. */
    method HostEntries(addrs: seq<Addr>) returns (parsed: seq<ParsedSubnet>)
      requires |addrs| == |service.netTrees|
      ensures AllRemembered(parsed, HostRows(addrs), InOrder(|addrs|))
    {
      parsed := seq(|addrs|, i requires 0 <= i < |addrs| =>
        ParsedSubnet(HostPrefix(addrs[i]), false, service.netTrees[i]));
    }

    /** `apiAddPeer` without prefixes: one random address of each net. */
    method AddPeerRandom(fault: Fault) returns (r: Outcome, ghost c: Option<Call>)
      requires Valid()
      modifies this`db, service`nodes, service.Trees(), service.nodes
      ensures Valid() && fresh(service.nodes - old(service.nodes))
      ensures Early(fault) ==> r == NotStored
      ensures r.Refused? <==> !Early(fault) && SomeBarren(old(View()).trees)
      ensures r.Refused? ==> r.error == ErrNoFreeAddr
      ensures Early(fault) || r.Refused? ==> c.None? && View() == old(View())
      ensures !Early(fault) && !r.Refused? ==>
                && c.Some? && c.value.AddPeerRandom? && c.value.fault == fault && CallOk(old(View()), c.value)
                && View() == Step(old(View()), c.value) && r == StoredAnswer(fault, |service.netTrees|)
      ensures r.Done? && Numbered(old(db)) ==>
                c.Some? && c.value.AddPeerRandom? && exists id :: PeerAdded(old(db), db, HostRows(c.value.addrs), id)
      ensures !r.Done? ==> db == old(db)
    {
      c := None;
      if fault.AtBegin? {
        return NotStored, c;
      }
      ghost var y := View();
      var snapshot := db;
      if fault.AtPeer? {
        db := snapshot;
        return NotStored, c;
      }
      var peer := db.nextPeer;
      db := AddPeerRow(db);
      var a, ks := service.AssignRandomInEachNet();
      if a.Err? {
        db := snapshot;
        return Refused(a.error), c;
      }
      c := Some(Call.AddPeerRandom(ks, service.View(), a.value, fault));
      HostRowsValid(y.trees, ks, service.View(), a.value);
      var parsed := HostEntries(a.value);
      r := Finish(HostRows(a.value), parsed, snapshot, peer, fault, InOrder(|a.value|));
      if r.Done? && Numbered(y.db) {
        ghost var id := RandomPeerStored(y, c.value);
      }
    }

    /** `apiReserveSubnet`, which wants the host bits clear. */
    method ReserveSubnet(row: Row, stored: bool) returns (r: Outcome)
      requires Valid() && ValidPrefix(row.prefix)
      modifies this`db, service`nodes, service.Trees(), service.nodes
      ensures Valid() && fresh(service.nodes - old(service.nodes))
      ensures View() == Step(old(View()), Call.ReserveSubnet(row, stored))
      ensures r == SubnetAnswer(old(View()), row, stored)
      ensures r.Done? && Numbered(old(db)) ==> db.peers == old(db).peers && RowsAdded(old(db), db, [row], None)
      ensures !r.Done? ==> db == old(db)
    {
      ghost var y := View();
      WrapBound(row.prefix.addr.value, HostBits(row.prefix));
      if Masked(row.prefix).addr != row.prefix.addr {
        return HostBitsSet;
      }
      OneReserved(y, row, stored);
      var tree: IPTree? := null;
      ghost var i := 0;
      if !row.mayOverlap {
        var t;
        t, i := service.Reserve(row.prefix);
        if t.Err? {
          return Refused(t.error);
        }
        tree := t.value;
      }
      if stored {
        Store(row, None);
        if Numbered(y.db) {
          RowsAddedBy(y.db, y.db, [row], None);
        }
        return Done;
      }
      if tree != null {
        var ok := service.DeleteIn(tree, i, row.prefix);
      }
      return NotStored;
    }

    /** `apiDeleteSubnet`: the tree entry first, then the row. With `lookup` or `removed` false the
        database fails to find or to remove the row. */
    method DeleteSubnet(id: nat, lookup: bool, removed: bool) returns (r: Outcome)
      requires Valid() && ValidRows(Rows(db.table))
      modifies this`db, service`nodes, service.Trees(), service.nodes
      ensures Valid() && fresh(service.nodes - old(service.nodes))
      ensures View() == Step(old(View()), Call.DeleteSubnet(id, lookup, removed))
      ensures r.NotFound? <==> lookup && forall k :: 0 <= k < |old(db).table| ==> old(db).table[k].id != id
      ensures !r.NotFound? ==> r == if lookup && removed then Done else NotStored
      ensures r.Done? && Numbered(old(db)) ==> RowGone(old(db), db, id)
      ensures !r.Done? ==> db == old(db)
    {
      ghost var before := db;
      if !lookup {
        return NotStored;
      }
      var k := IndexOf(db.table, id);
      if k == |db.table| {
        return NotFound;
      }
      var row := db.table[k].row;
      assert Rows(db.table)[k] == row;
      if !row.mayOverlap {
        var ok := service.Delete(row.prefix);
      }
      if removed {
        db := db.(table := Without(db.table, k));
        assert Numbered(before) ==> RowGone(before, db, id) by {
          if Numbered(before) {
            RowGoneBy(before, id);
          }
        }
      }
      return if removed then Done else NotStored;
    }

    /** The tables' part of `apiDeletePeer`, which does not touch the trees. With `removed` false the
        database refuses, as it does where it enforces foreign keys and the peer has a history. */
    method DeletePeer(peer: nat, cascade: bool, removed: bool) returns (r: Outcome)
      requires Valid()
      modifies this`db
      ensures Valid() && View() == Step(old(View()), Call.DeletePeer(peer, cascade, removed))
      ensures r == if !removed then NotStored else if peer in old(db).peers then Done else NotFound
      ensures r.Done? ==> PeerGone(old(db), db, peer, cascade)
      ensures !r.Done? ==> db == old(db)
    {
      ghost var before := db.table;
      if !removed {
        return NotStored;
      }
      if peer !in db.peers {
        return NotFound;
      }
      db := db.(peers := db.peers - {peer}, table := if cascade then WithoutPeer(db.table, peer) else db.table);
      forall i ensures service.TreeOk(i) { assert old(service.TreeOk(i)); }
      ghost var f := WithoutPeerFiltered(before, peer);
      return Done;
    }
  }

  // ---------- What the answers mean ----------

  /** What adding a peer answers: nothing is stored if the database fails early; else the first entry that
      cannot be placed is named, as overlapping if some net contains it and as out of net if none does;
      else what fails behind the reservations. */
  lemma PeerAnswers(y: System, reqs: seq<Row>, fault: Fault)
    requires Loose(y.trees) && ValidRows(reqs)
    ensures var r := PeerAnswer(y, reqs, fault);
            && (fault in {AtBegin, AtPeer} ==> r == NotStored)
            && (forall i :: fault !in {AtBegin, AtPeer} && FirstBad(y.trees, reqs, i) ==>
                  r == Refused(if exists k :: 0 <= k < |y.trees| && Within(reqs[i].prefix, y.trees[k].prefix)
                               then ErrOverlaps else ErrOutOfNet))
            && (r.Refused? ==> exists i :: FirstBad(y.trees, reqs, i))
            && (Placeable(y.trees, reqs) ==>
                  && (fault in {AtWg, AtCommit} || (fault.AtRow? && fault.k < |reqs|) ==> r == NotStored)
                  && (fault == Panics ==> r == Panicked)
                  && (fault == NoFault || (fault.AtRow? && fault.k >= |reqs|) ==> r == Done))
  {
    ListErrors(y.trees, reqs);
    ListOkIff(y.trees, reqs);
    forall i | FirstBad(y.trees, reqs, i)
      ensures Housed(y.trees, reqs[i].prefix) <==>
                exists k :: 0 <= k < |y.trees| && Within(reqs[i].prefix, y.trees[k].prefix)
    {}
  }

  /** What reserving a subnet answers. */
  lemma SubnetAnswers(y: System, row: Row, stored: bool)
    requires Loose(y.trees) && ValidPrefix(row.prefix)
    ensures var r := SubnetAnswer(y, row, stored);
            var masked := Masked(row.prefix) == row.prefix;
            var housed := exists k :: 0 <= k < |y.trees| && Within(row.prefix, y.trees[k].prefix);
            var meets := exists q :: q in HeldAll(y.trees) && Share(row.prefix, q);
            && (r == HostBitsSet <==> !masked)
            && (r == Refused(ErrOutOfNet) <==> masked && !row.mayOverlap && !housed)
            && (r == Refused(ErrOverlaps) <==> masked && !row.mayOverlap && housed && meets)
            && (r == Done <==> masked && stored && (row.mayOverlap || (housed && !meets)))
            && (r == NotStored <==> masked && !stored && (row.mayOverlap || (housed && !meets)))
  {
    MaskedIsRemainder(row.prefix);
    OneReserved(y, row, stored);
    ReserveErrors(y.trees, row.prefix);
    ReserveErrorKinds(y.trees, row.prefix, 0);
  }

  // ---------- Steps written out ----------

  lemma StorePeerIs(y: System, reqs: seq<Row>, fault: Fault, u: State, taken: seq<Option<nat>>, e: Option<Error>)
    requires (u, taken, e) == ReserveList(y.trees, reqs) && !Early(fault)
    ensures StorePeer(y, reqs, fault)
         == if e.None? && !Stops(fault, |reqs|)
            then System(u, AddRows(AddPeerRow(y.db), Some(y.db.nextPeer), reqs))
            else System(Rollback(u, reqs, taken), y.db)
  {
  }

  lemma HostRowsValid(s: State, ks: seq<nat>, t: State, addrs: seq<Addr>)
    requires Taken(s, ks, t, addrs)
    ensures ValidRows(HostRows(addrs))
  {
    forall i | 0 <= i < |addrs| ensures ValidAddr(addrs[i]) {
      assert TakenAt(s, ks, t, addrs, i);
      NetTakeHolds(s[i], ks[i]);
    }
  }

  lemma OneReserved(y: System, row: Row, stored: bool)
    ensures ReserveList(y.trees, [row]).2
         == if row.mayOverlap || Reserve(y.trees, row.prefix).1.Ok? then None
            else Some(Reserve(y.trees, row.prefix).1.error)
    ensures Reserve(y.trees, row.prefix).1.Err? ==> Reserve(y.trees, row.prefix).0 == y.trees
    ensures StoreSubnet(y, row, stored) == OneStored(y, row, stored)
  {
    assert [row][1..] == [];
    ReserveErrorKinds(y.trees, row.prefix, 0);
    if row.mayOverlap {
      var none: seq<Option<nat>> := [None];
      assert none + [] == none && ReserveList(y.trees, [row]) == (y.trees, none, None);
      RollbackOne(y.trees, row, None);
    } else if Reserve(y.trees, row.prefix).1.Err? {
      assert Nones(1) == [None];
      RollbackOne(y.trees, row, None);
    } else {
      var (u, i) := (Reserve(y.trees, row.prefix).0, Reserve(y.trees, row.prefix).1.value);
      assert [Some(i)] + [] == [Some(i)] && ReserveList(y.trees, [row]) == (u, [Some(i)], None);
      RollbackOne(u, row, Some(i));
    }
  }

  function OneStored(y: System, row: Row, stored: bool): System {
    var (u, r) := Reserve(y.trees, row.prefix);
    if row.mayOverlap then (if stored then y.(db := AddRows(y.db, None, [row])) else y)
    else if r.Err? then y
    else if stored then System(u, AddRows(y.db, None, [row]))
    else if r.value < |u| then System(u[r.value := NetDelete(u[r.value], row.prefix).0], y.db)
    else System(u, y.db)
  }

  lemma RollbackOne(s: State, row: Row, t: Option<nat>)
    ensures Rollback(s, [row], [t])
         == if t.Some? && t.value < |s| then s[t.value := NetDelete(s[t.value], row.prefix).0] else s
  {
    assert [row][1..] == [] && [t][1..] == [];
  }

  type Reserved = (State, seq<Option<nat>>, Option<Error>)

  function Prepend(head: seq<Option<nat>>, r: Reserved): Reserved {
    (r.0, head + r.1, r.2)
  }

  /** One round of reserving a list. */
  lemma ReserveListStep(s: State, reqs: seq<Row>, i: nat, head: seq<Option<nat>>)
    requires i < |reqs|
    ensures reqs[i].mayOverlap ==>
              Prepend(head, ReserveList(s, reqs[i..])) == Prepend(head + [None], ReserveList(s, reqs[i + 1..]))
    ensures !reqs[i].mayOverlap && Reserve(s, reqs[i].prefix).1.Err? ==>
              Reserve(s, reqs[i].prefix).0 == s
              && ReserveList(s, reqs[i..]) == (s, Nones(|reqs| - i), Some(Reserve(s, reqs[i].prefix).1.error))
    ensures !reqs[i].mayOverlap && Reserve(s, reqs[i].prefix).1.Ok? ==>
              var (u, r) := Reserve(s, reqs[i].prefix);
              Prepend(head, ReserveList(s, reqs[i..])) == Prepend(head + [Some(r.value)], ReserveList(u, reqs[i + 1..]))
  {
    assert reqs[i..][0] == reqs[i] && reqs[i..][1..] == reqs[i + 1..];
    ReserveErrorKinds(s, reqs[i].prefix, 0);
    if reqs[i].mayOverlap {
      PrependTwice(head, None, ReserveList(s, reqs[i + 1..]));
    } else if Reserve(s, reqs[i].prefix).1.Ok? {
      var (u, r) := Reserve(s, reqs[i].prefix);
      PrependTwice(head, Some(r.value), ReserveList(u, reqs[i + 1..]));
    }
  }

  lemma PrependTwice(head: seq<Option<nat>>, t: Option<nat>, r: Reserved)
    ensures Prepend(head + [t], r) == Prepend(head, Prepend([t], r))
  {
    assert head + [t] + r.1 == head + ([t] + r.1);
  }
}
