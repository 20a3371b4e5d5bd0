/** The server's trees together with its tables, request by request (subnets.go, peers.go).

    What the database and the `wg` tool answer is not modelled: each request carries where
    they fail. */
module Systems {
  import opened Tries
  import opened Prefixes
  import opened Nets
  import opened Allocators
  import opened LeaseRuns
  import opened Requests

  /** Where adding a peer fails: at the start of the database transaction, at the row of the peer, at
      the `k`-th row of its subnets, behind them, with an error or a panic, or at the commit. */
  datatype Fault = NoFault | AtBegin | AtPeer | AtRow(k: nat) | AtWg | Panics | AtCommit

  /** The fault comes before the trees are touched. */
  predicate Early(fault: Fault) {
    fault.AtBegin? || fault.AtPeer?
  }

  /** The fault stops a request with `n` rows. */
  predicate Stops(fault: Fault, n: nat) {
    !fault.NoFault? && (fault.AtRow? ==> fault.k < n)
  }

  datatype Call =
    | ReserveSubnet(row: Row, stored: bool)
    | DeleteSubnet(id: nat, lookup: bool, removed: bool)
    | AddPeer(reqs: seq<Row>, fault: Fault)
    | AddPeerRandom(ks: seq<nat>, t: State, addrs: seq<Addr>, fault: Fault)
    | DeletePeer(peer: nat, cascade: bool, removed: bool)

  function HostRows(addrs: seq<Addr>): seq<Row> {
    seq(|addrs|, i requires 0 <= i < |addrs| => Row(HostPrefix(addrs[i]), false))
  }

  /** Net `i` took entry `i`. */
  function InOrder(n: nat): seq<Option<nat>> {
    seq(n, i => Some(i))
  }

  ghost predicate CallOk(y: System, c: Call) {
    match c
    case ReserveSubnet(row, _) => ValidPrefix(row.prefix)
    case DeleteSubnet(_, _, _) => true
    case AddPeer(reqs, _) => reqs != [] && ValidRows(reqs)
    case AddPeerRandom(ks, t, addrs, _) => |ks| == |y.trees| && Taken(y.trees, ks, t, addrs)
    case DeletePeer(_, _, _) => true
  }

  /** A new peer with its rows. */
  function WithPeer(y: System, trees: State, rows: seq<Row>): System {
    System(trees, AddRows(AddPeerRow(y.db), Some(y.db.nextPeer), rows))
  }

  /** Reserving the entries of a peer and storing it: all of it, or nothing after a rollback. This is the
      specification of the request; the server's method and the transaction are proved against it. */
  function StorePeer(y: System, reqs: seq<Row>, fault: Fault): System {
    var (u, taken, e) := ReserveList(y.trees, reqs);
    if Early(fault) then y
    else if e.None? && !Stops(fault, |reqs|) then WithPeer(y, u, reqs)
    else y.(trees := Rollback(u, reqs, taken))
  }

  /** The same for a reserved subnet, which belongs to no peer. */
  function StoreSubnet(y: System, row: Row, stored: bool): System {
    var (u, taken, e) := ReserveList(y.trees, [row]);
    if e.None? && stored then System(u, AddRows(y.db, None, [row])) else y.(trees := Rollback(u, [row], taken))
  }

  /** The trees after a row's entry is deleted. */
  function Deleted(trees: State, row: Row): State {
    if row.mayOverlap then trees else Release(trees, row.prefix).0
  }

  ghost function Step(y: System, c: Call): System
    requires CallOk(y, c)
  {
    match c
    case ReserveSubnet(row, stored) => if IsMasked(row.prefix) then StoreSubnet(y, row, stored) else y
    case AddPeer(reqs, fault) => StorePeer(y, reqs, fault)
    case AddPeerRandom(ks, t, addrs, fault) =>
      if Early(fault) then y
      else if Stops(fault, |addrs|) then y.(trees := Rollback(t, HostRows(addrs), InOrder(|addrs|)))
      else WithPeer(y, t, HostRows(addrs))
    case DeleteSubnet(id, lookup, removed) =>
      var k := IndexOf(y.db.table, id);
      if !lookup || k == |y.db.table| then y
      else
        var row := y.db.table[k].row;
        System(Deleted(y.trees, row), if removed then y.db.(table := Without(y.db.table, k)) else y.db)
    case DeletePeer(peer, cascade, removed) =>
      if !removed || peer !in y.db.peers then y
      else y.(db := y.db.(peers := y.db.peers - {peer},
                          table := if cascade then WithoutPeer(y.db.table, peer) else y.db.table))
  }

  /** Whether the request goes through. */
  ghost predicate Succeeds(y: System, c: Call)
    requires CallOk(y, c)
  {
    match c
    case ReserveSubnet(row, stored) => IsMasked(row.prefix) && stored && ReserveList(y.trees, [row]).2.None?
    case AddPeer(reqs, fault) => !Stops(fault, |reqs|) && ReserveList(y.trees, reqs).2.None?
    case AddPeerRandom(_, _, addrs, fault) => !Stops(fault, |addrs|)
    case DeleteSubnet(id, lookup, removed) => lookup && removed && IndexOf(y.db.table, id) < |y.db.table|
    case DeletePeer(peer, _, removed) => removed && peer in y.db.peers
  }

  /** The one failure that is not undone: the tree entry of an exclusive row is deleted, and then the
      row stays. */
  predicate Unhinges(y: System, c: Call) {
    c.DeleteSubnet? && c.lookup && !c.removed &&
    var k := IndexOf(y.db.table, c.id);
    k < |y.db.table| && !y.db.table[k].row.mayOverlap
  }

  /** The one success that leaves leases behind: the exclusive rows of a peer go with it. */
  predicate Strands(y: System, c: Call) {
    && c.DeletePeer? && c.cascade && c.removed && c.peer in y.db.peers
    && exists k :: 0 <= k < |y.db.table| && y.db.table[k].peer == Some(c.peer) && !y.db.table[k].row.mayOverlap
  }

  // ---------- Appending and removing rows ----------

  lemma RowsOfAdd(db: Db, peer: Option<nat>, rows: seq<Row>)
    ensures Rows(AddRows(db, peer, rows).table) == Rows(db.table) + rows
  {
  }

  lemma {:induction false} ExclusiveAppend(a: seq<Row>, b: seq<Row>)
    ensures Exclusive(a + b) == Exclusive(a) + Exclusive(b)
    ensures Distinct(a + b) <==> Distinct(a) && Distinct(b) && Exclusive(a) !! Exclusive(b)
    decreases |a|
  {
    if a == [] {
      assert a + b == b;
    } else {
      var r, rest := a[0], a[1..];
      assert a == [r] + rest && a + b == [r] + (rest + b);
      ExclusiveCons(r, rest);
      ExclusiveCons(r, rest + b);
      ExclusiveAppend(rest, b);
    }
  }

  /** Rows added together with their leases keep trees and rows in agreement, and exactly so. */
  lemma AddAgrees(y: System, trees: State, db: Db, peer: Option<nat>, rows: seq<Row>)
    requires Agree(y) && Inv(trees) && ValidRows(rows) && Distinct(rows)
    requires db.table == y.db.table && db.nextId == y.db.nextId
    requires Leases(trees) == Leases(y.trees) + Exclusive(rows) && Leases(y.trees) !! Exclusive(rows)
    ensures Agree(System(trees, AddRows(db, peer, rows)))
    ensures Exact(System(trees, AddRows(db, peer, rows))) <==> Exact(y)
  {
    RowsOfAdd(db, peer, rows);
    ExclusiveAppend(Rows(y.db.table), rows);
  }

  lemma ExclusiveWithout(rows: seq<Row>, k: nat)
    requires k < |rows| && Distinct(rows)
    ensures Distinct(rows[..k] + rows[k + 1..])
    ensures Exclusive(rows[..k] + rows[k + 1..])
         == Exclusive(rows) - if rows[k].mayOverlap then {} else {Masked(rows[k].prefix)}
  {
    var a, r, b := rows[..k], rows[k], rows[k + 1..];
    assert rows == a + ([r] + b);
    ExclusiveAppend(a, [r] + b);
    ExclusiveAppend(a, b);
    ExclusiveCons(r, b);
  }

  // ---------- Adding ----------

  /** A list of reservations that went through takes new leases, one for each exclusive entry. */
  lemma ListLeases(s: State, reqs: seq<Row>)
    requires Inv(s) && ValidRows(reqs) && ReserveList(s, reqs).2.None?
    ensures var u := ReserveList(s, reqs).0;
            && Inv(u) && Distinct(reqs)
            && Leases(u) == Leases(s) + Exclusive(reqs) && Leases(s) !! Exclusive(reqs)
  {
    var u := ReserveList(s, reqs).0;
    InvIff(s);
    ReserveListMeaning(s, reqs);
    ReserveListTakesAll(s, reqs);
    ReservedOfSameNets(s, u);
    InvIff(u);
  }

  lemma PeerGoesThrough(y: System, reqs: seq<Row>, fault: Fault)
    requires Agree(y) && ValidRows(reqs) && !Stops(fault, |reqs|) && ReserveList(y.trees, reqs).2.None?
    ensures Agree(StorePeer(y, reqs, fault)) && (Exact(StorePeer(y, reqs, fault)) <==> Exact(y))
  {
    var u := ReserveList(y.trees, reqs).0;
    ListLeases(y.trees, reqs);
    AddAgrees(y, u, AddPeerRow(y.db), Some(y.db.nextPeer), reqs);
    StorePeerAdds(y, reqs, fault);
  }

  lemma StorePeerAdds(y: System, reqs: seq<Row>, fault: Fault)
    requires !Stops(fault, |reqs|) && ReserveList(y.trees, reqs).2.None?
    ensures StorePeer(y, reqs, fault)
         == System(ReserveList(y.trees, reqs).0, AddRows(AddPeerRow(y.db), Some(y.db.nextPeer), reqs))
  {
  }

  lemma PeerRolledBack(y: System, reqs: seq<Row>, fault: Fault)
    requires Loose(y.trees) && ValidRows(reqs) && (Stops(fault, |reqs|) || ReserveList(y.trees, reqs).2.Some?)
    ensures StorePeer(y, reqs, fault) == y
  {
    RollbackRestores(y.trees, reqs);
  }

  /** Adding a peer keeps the agreement; a failure anywhere leaves everything as it was. */
  lemma StorePeerAtomic(y: System, reqs: seq<Row>, fault: Fault)
    requires Agree(y) && ValidRows(reqs)
    ensures Agree(StorePeer(y, reqs, fault)) && (Exact(StorePeer(y, reqs, fault)) <==> Exact(y))
    ensures Stops(fault, |reqs|) || ReserveList(y.trees, reqs).2.Some? ==> StorePeer(y, reqs, fault) == y
  {
    if Stops(fault, |reqs|) || ReserveList(y.trees, reqs).2.Some? {
      InvIff(y.trees);
      PeerRolledBack(y, reqs, fault);
    } else {
      PeerGoesThrough(y, reqs, fault);
    }
  }

  lemma StoreSubnetAtomic(y: System, row: Row, stored: bool)
    requires Agree(y) && ValidPrefix(row.prefix)
    ensures Agree(StoreSubnet(y, row, stored)) && (Exact(StoreSubnet(y, row, stored)) <==> Exact(y))
    ensures !stored || ReserveList(y.trees, [row]).2.Some? ==> StoreSubnet(y, row, stored) == y
  {
    InvIff(y.trees);
    RollbackRestores(y.trees, [row]);
    if ReserveList(y.trees, [row]).2.None? {
      ListLeases(y.trees, [row]);
      AddAgrees(y, ReserveList(y.trees, [row]).0, y.db, None, [row]);
    }
  }

  lemma {:induction false} HostRowsExclusive(addrs: seq<Addr>)
    ensures Exclusive(HostRows(addrs)) == HostPrefixes(addrs)
  {
    forall q ensures q in Exclusive(HostRows(addrs)) <==> q in HostPrefixes(addrs) {
      if q in Exclusive(HostRows(addrs)) {
        var r :| r in HostRows(addrs) && !r.mayOverlap && Masked(r.prefix) == q;
        var i :| 0 <= i < |addrs| && HostRows(addrs)[i] == r;
        HostIsMasked(addrs[i]);
        assert addrs[i] in addrs;
      }
      if q in HostPrefixes(addrs) {
        var a :| a in addrs && q == HostPrefix(a);
        var i :| 0 <= i < |addrs| && addrs[i] == a;
        HostIsMasked(a);
        assert HostRows(addrs)[i] in HostRows(addrs);
      }
    }
  }

  /** The addresses of different nets are different. */
  lemma TakenDistinct(s: State, ks: seq<nat>, t: State, addrs: seq<Addr>)
    requires Loose(s) && Taken(s, ks, t, addrs)
    ensures ValidRows(HostRows(addrs)) && Distinct(HostRows(addrs))
    ensures forall i :: 0 <= i < |addrs| ==> Within(HostPrefix(addrs[i]), s[i].prefix)
  {
    forall i | 0 <= i < |addrs|
      ensures ValidPrefix(HostPrefix(addrs[i])) && Contains(s[i].prefix, addrs[i])
      ensures Within(HostPrefix(addrs[i]), s[i].prefix)
    {
      assert TakenAt(s, ks, t, addrs, i);
      NetTakeHolds(s[i], ks[i]);
    }
    forall i, j | 0 <= i < j < |addrs| ensures Masked(HostPrefix(addrs[i])) != Masked(HostPrefix(addrs[j])) {
      HostIsMasked(addrs[i]);
      HostIsMasked(addrs[j]);
      if addrs[i] == addrs[j] {
        OneHome(s, HostPrefix(addrs[i]), i, j);
      }
    }
  }

  lemma TakenPrefixesOfHosts(addrs: seq<Addr>)
    ensures TakenPrefixes(HostRows(addrs), InOrder(|addrs|)) == HostPrefixes(addrs)
  {
    var rows, taken := HostRows(addrs), InOrder(|addrs|);
    forall q ensures q in TakenPrefixes(rows, taken) <==> q in HostPrefixes(addrs) {
      if q in TakenPrefixes(rows, taken) {
        var k :| 0 <= k < |rows| && taken[k].Some? && q == Masked(rows[k].prefix);
        HostIsMasked(addrs[k]);
        assert addrs[k] in addrs;
      }
      if q in HostPrefixes(addrs) {
        var a :| a in addrs && q == HostPrefix(a);
        var k :| 0 <= k < |addrs| && addrs[k] == a;
        HostIsMasked(a);
        assert taken[k].Some? && q == Masked(rows[k].prefix);
      }
    }
  }

  /** Rolling random addresses back restores the trees. */
  lemma RandomUndone(s: State, ks: seq<nat>, t: State, addrs: seq<Addr>)
    requires Loose(s) && Taken(s, ks, t, addrs)
    ensures Rollback(t, HostRows(addrs), InOrder(|addrs|)) == s
  {
    TakenMeaning(s, ks, t, addrs);
    TakenDistinct(s, ks, t, addrs);
    RollbackMeaning(t, HostRows(addrs), InOrder(|addrs|));
    TakenPrefixesOfHosts(addrs);
    SameHeldSameState(Rollback(t, HostRows(addrs), InOrder(|addrs|)), s);
  }

  /** A peer with random addresses keeps the agreement, and rolling the addresses back restores the trees. */
  lemma RandomAtomic(y: System, ks: seq<nat>, t: State, addrs: seq<Addr>)
    requires Agree(y) && |ks| == |y.trees| && Taken(y.trees, ks, t, addrs)
    ensures Agree(WithPeer(y, t, HostRows(addrs))) && ValidRows(HostRows(addrs))
    ensures Exact(WithPeer(y, t, HostRows(addrs))) <==> Exact(y)
    ensures Rollback(t, HostRows(addrs), InOrder(|addrs|)) == y.trees
  {
    InvIff(y.trees);
    RandomUndone(y.trees, ks, t, addrs);
    AssigningKeepsInv(y.trees, ks, t, addrs);
    TakenMeaning(y.trees, ks, t, addrs);
    TakenDistinct(y.trees, ks, t, addrs);
    HostRowsExclusive(addrs);
    AddAgrees(y, t, AddPeerRow(y.db), Some(y.db.nextPeer), HostRows(addrs));
  }

  // ---------- Deleting ----------

  lemma WithoutIds(table: seq<Stored>, nextId: nat, k: nat)
    requires UniqueIds(table, nextId) && k < |table|
    ensures UniqueIds(Without(table, k), nextId)
  {
    var stay := Without(table, k);
    forall i | 0 <= i < |stay| ensures stay[i] == table[if i < k then i else i + 1] {}
  }

  lemma WithoutConsistent(db: Db, k: nat)
    requires Consistent(db) && k < |db.table|
    ensures Consistent(db.(table := Without(db.table, k)))
    ensures Exclusive(Rows(Without(db.table, k)))
         == Exclusive(Rows(db.table)) - if db.table[k].row.mayOverlap then {} else {Masked(db.table[k].row.prefix)}
  {
    var rows := Rows(db.table);
    WithoutIds(db.table, db.nextId, k);
    ExclusiveWithout(rows, k);
    assert Rows(Without(db.table, k)) == rows[..k] + rows[k + 1..];
  }

  /** An exclusive row is leased, and deleting its entry ends just that lease. */
  lemma DeletedLeases(y: System, k: nat)
    requires Agree(y) && k < |y.db.table|
    ensures var row := y.db.table[k].row; var own := if row.mayOverlap then {} else {Masked(row.prefix)};
            && ValidPrefix(row.prefix) && own <= Exclusive(Rows(y.db.table)) && SameNets(y.trees, Deleted(y.trees, row))
            && Inv(Deleted(y.trees, row)) && Leases(Deleted(y.trees, row)) == Leases(y.trees) - own
  {
    var row, rows := y.db.table[k].row, Rows(y.db.table);
    assert rows[k] == row && row in rows;
    if !row.mayOverlap {
      assert Masked(row.prefix) in Exclusive(rows);
      ReleaseKeepsInv(y.trees, row.prefix);
    }
  }

  lemma BothLess<T>(rows: set<T>, leases: set<T>, own: set<T>)
    requires own <= rows <= leases
    ensures rows - own <= leases - own
    ensures leases - own <= rows - own <==> leases <= rows
  {
    if leases - own <= rows - own {
      forall p | p in leases ensures p in rows {
        assert p !in own ==> p in leases - own;
      }
    }
  }

  /** Row and entry go together. */
  lemma DeleteBoth(y: System, k: nat)
    requires Agree(y) && k < |y.db.table|
    ensures var z := System(Deleted(y.trees, y.db.table[k].row), y.db.(table := Without(y.db.table, k)));
            Agree(z) && (Exact(z) <==> Exact(y))
  {
    var row := y.db.table[k].row;
    DeletedLeases(y, k);
    WithoutConsistent(y.db, k);
    BothLess(Exclusive(Rows(y.db.table)), Leases(y.trees), if row.mayOverlap then {} else {Masked(row.prefix)});
  }

  /** The entry goes and the row stays. */
  lemma DeleteEntryOnly(y: System, k: nat)
    requires Agree(y) && k < |y.db.table|
    ensures var z := System(Deleted(y.trees, y.db.table[k].row), y.db);
            (Agree(z) <==> y.db.table[k].row.mayOverlap) && (z == y <==> y.db.table[k].row.mayOverlap)
  {
    DeletedLeases(y, k);
  }

  /** Deleting a subnet keeps the agreement, unless just the row of an exclusive one stays. */
  lemma DeleteAgreesIff(y: System, id: nat, lookup: bool, removed: bool)
    requires Agree(y)
    ensures var c := DeleteSubnet(id, lookup, removed);
            && (Agree(Step(y, c)) <==> !Unhinges(y, c))
            && (Agree(Step(y, c)) ==> (Exact(Step(y, c)) <==> Exact(y)))
            && (!Succeeds(y, c) ==> (Step(y, c) == y <==> !Unhinges(y, c)))
  {
    var k, c := IndexOf(y.db.table, id), DeleteSubnet(id, lookup, removed);
    if !lookup || k == |y.db.table| {
      assert Step(y, c) == y;
    } else if removed {
      DeleteBoth(y, k);
      assert Step(y, c) == System(Deleted(y.trees, y.db.table[k].row), y.db.(table := Without(y.db.table, k)));
    } else {
      DeleteEntryOnly(y, k);
      assert Step(y, c) == System(Deleted(y.trees, y.db.table[k].row), y.db);
    }
  }

  /** The rows that stay when a peer goes are those of others. */
  lemma {:induction false} WithoutPeerRows(table: seq<Stored>, peer: nat)
    ensures forall r :: r in WithoutPeer(table, peer) <==> r in table && r.peer != Some(peer)
    decreases |table|
  {
    if table == [] {
    } else {
      WithoutPeerRows(table[1..], peer);
      assert table == [table[0]] + table[1..];
    }
  }

  lemma {:induction false} WithoutPeerIds(table: seq<Stored>, nextId: nat, peer: nat)
    requires UniqueIds(table, nextId)
    ensures UniqueIds(WithoutPeer(table, peer), nextId)
    decreases |table|
  {
    if table == [] {
    } else {
      assert forall i :: 0 <= i < |table[1..]| ==> table[1..][i] == table[i + 1];
      WithoutPeerIds(table[1..], nextId, peer);
      WithoutPeerRows(table[1..], peer);
      var stay := WithoutPeer(table[1..], peer);
      forall i | 0 <= i < |stay| ensures stay[i].id != table[0].id {
        assert stay[i] in table[1..];
      }
    }
  }

  lemma {:induction false} WithoutPeerExclusive(table: seq<Stored>, peer: nat)
    requires Distinct(Rows(table))
    ensures Distinct(Rows(WithoutPeer(table, peer)))
    ensures Exclusive(Rows(WithoutPeer(table, peer))) <= Exclusive(Rows(table))
    decreases |table|
  {
    if table == [] {
    } else {
      var r, rest := table[0], table[1..];
      var stay := WithoutPeer(rest, peer);
      assert Rows(table) == [r.row] + Rows(rest) && Rows([r] + stay) == [r.row] + Rows(stay);
      ExclusiveCons(r.row, Rows(rest));
      ExclusiveCons(r.row, Rows(stay));
      WithoutPeerExclusive(rest, peer);
      assert WithoutPeer(table, peer) == if r.peer == Some(peer) then stay else [r] + stay;
    }
  }

  lemma RowsIn(table: seq<Stored>)
    ensures forall r :: r in Rows(table) <==> exists x :: x in table && x.row == r
  {
    forall k | 0 <= k < |table| ensures Rows(table)[k] == table[k].row && table[k] in table {}
    forall x | x in table ensures x.row in Rows(table) {
      var k :| 0 <= k < |table| && table[k] == x;
      assert Rows(table)[k] == x.row;
    }
  }

  /** Dropping the rows of a peer keeps the table consistent. */
  lemma WithoutPeerConsistent(db: Db, peer: nat)
    requires Consistent(db)
    ensures Consistent(db.(table := WithoutPeer(db.table, peer)))
    ensures Exclusive(Rows(WithoutPeer(db.table, peer))) <= Exclusive(Rows(db.table))
  {
    WithoutPeerIds(db.table, db.nextId, peer);
    WithoutPeerExclusive(db.table, peer);
    WithoutPeerRows(db.table, peer);
    RowsIn(db.table);
    RowsIn(WithoutPeer(db.table, peer));
  }

  /** Leaving out a peer's rows drops an exclusive prefix iff the peer has one. */
  lemma DroppedIff(db: Db, peer: nat)
    requires Consistent(db)
    ensures Exclusive(Rows(db.table)) <= Exclusive(Rows(WithoutPeer(db.table, peer))) <==>
              forall k :: 0 <= k < |db.table| && db.table[k].peer == Some(peer) ==> db.table[k].row.mayOverlap
  {
    var stay := WithoutPeer(db.table, peer);
    WithoutPeerRows(db.table, peer);
    RowsIn(db.table);
    RowsIn(stay);
    forall k | 0 <= k < |db.table| && db.table[k].peer == Some(peer) && !db.table[k].row.mayOverlap
      ensures Masked(db.table[k].row.prefix) in Exclusive(Rows(db.table)) - Exclusive(Rows(stay))
    {
      OnlyRow(db, k);
      assert db.table[k] in db.table;
    }
    if forall k :: 0 <= k < |db.table| && db.table[k].peer == Some(peer) ==> db.table[k].row.mayOverlap {
      forall r | r in Rows(db.table) && !r.mayOverlap ensures r in Rows(stay) {
        var x :| x in db.table && x.row == r;
        assert x in stay;
      }
    }
  }

  /** No other row has the prefix of an exclusive one. */
  lemma OnlyRow(db: Db, k: nat)
    requires Consistent(db) && k < |db.table| && !db.table[k].row.mayOverlap
    ensures forall x :: x in db.table && !x.row.mayOverlap && Masked(x.row.prefix) == Masked(db.table[k].row.prefix) ==>
              x == db.table[k]
  {
    var rows := Rows(db.table);
    forall x | x in db.table && !x.row.mayOverlap && Masked(x.row.prefix) == Masked(db.table[k].row.prefix)
      ensures x == db.table[k]
    {
      var j :| 0 <= j < |db.table| && db.table[j] == x;
      assert rows[j] == x.row && rows[k] == db.table[k].row;
    }
  }

  /** Deleting a peer keeps the agreement; leases are left behind iff it has exclusive rows that go with it. */
  lemma DeletePeerAgrees(y: System, peer: nat, cascade: bool, removed: bool)
    requires Agree(y)
    ensures var c := DeletePeer(peer, cascade, removed);
            && Agree(Step(y, c)) && (Exact(Step(y, c)) <==> Exact(y) && !Strands(y, c))
            && (!Succeeds(y, c) ==> Step(y, c) == y)
  {
    if removed && peer in y.db.peers && cascade {
      WithoutPeerConsistent(y.db, peer);
      DroppedIff(y.db, peer);
    }
  }

  // ---------- Every request ----------

  /** A request keeps trees and rows in agreement iff it is not a deletion that leaves its row; and a
      request that fails changes nothing, on the same condition. */
  lemma StepKeepsAgreement(y: System, c: Call)
    requires Agree(y) && CallOk(y, c)
    ensures Agree(Step(y, c)) <==> !Unhinges(y, c)
    ensures !Succeeds(y, c) ==> (Step(y, c) == y <==> !Unhinges(y, c))
  {
    match c
    case ReserveSubnet(row, stored) => StoreSubnetAtomic(y, row, stored);
    case AddPeer(reqs, fault) => StorePeerAtomic(y, reqs, fault);
    case AddPeerRandom(ks, t, addrs, fault) => RandomAtomic(y, ks, t, addrs);
    case DeleteSubnet(id, lookup, removed) => DeleteAgreesIff(y, id, lookup, removed);
    case DeletePeer(peer, cascade, removed) => DeletePeerAgrees(y, peer, cascade, removed);
  }

  /** Nothing is leased without a row after a request iff that was so before, and it is not a peer's
      deletion that takes exclusive rows along. */
  lemma StepStaysExact(y: System, c: Call)
    requires Agree(y) && CallOk(y, c) && !Unhinges(y, c)
    ensures Exact(Step(y, c)) <==> Exact(y) && !Strands(y, c)
  {
    match c
    case ReserveSubnet(row, stored) => StoreSubnetAtomic(y, row, stored);
    case AddPeer(reqs, fault) => StorePeerAtomic(y, reqs, fault);
    case AddPeerRandom(ks, t, addrs, fault) => RandomAtomic(y, ks, t, addrs);
    case DeleteSubnet(id, lookup, removed) => DeleteAgreesIff(y, id, lookup, removed);
    case DeletePeer(peer, cascade, removed) => DeletePeerAgrees(y, peer, cascade, removed);
  }
}
