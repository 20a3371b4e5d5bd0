/** Runs of requests, and what a restart from the tables makes of the state they lead to. */
module SystemRuns {
  import opened Tries
  import opened Prefixes
  import opened Nets
  import opened Allocators
  import opened LeaseRuns
  import opened Requests
  import opened Systems

  // ---------- What every request keeps ----------

  /** A row that may not overlap lies in a net and is clear of the reserved hosts. */
  ghost predicate GoodRow(s: State, r: Row) {
    && ValidPrefix(r.prefix)
    && (!r.mayOverlap ==> Housed(s, r.prefix) && forall q :: q in ReservedAll(s) ==> !Share(r.prefix, q))
  }

  ghost predicate GoodRows(s: State, rows: seq<Row>) {
    forall r {:trigger GoodRow(s, r)} :: r in rows ==> GoodRow(s, r)
  }

  /** The trees are sound and the rows good, whether the rows are leased or not. */
  ghost predicate Sane(y: System) {
    Inv(y.trees) && GoodRows(y.trees, Rows(y.db.table))
  }

  lemma GoodInSameNets(s: State, u: State, rows: seq<Row>)
    requires SameNets(s, u) && GoodRows(s, rows)
    ensures GoodRows(u, rows)
  {
    ReservedOfSameNets(s, u);
    forall r | r in rows ensures GoodRow(u, r) {
      assert GoodRow(s, r);
      HousedInSameNets(s, u, r.prefix);
    }
  }

  /** What is leased is good. */
  lemma LeaseIsGood(s: State, r: Row)
    requires Inv(s) && ValidPrefix(r.prefix) && Masked(r.prefix) in Leases(s)
    ensures GoodRow(s, r)
  {
    var p := r.prefix;
    InvIff(s);
    var i := HeldHome(s, Masked(p));
    WithinMasked(p, s[i].prefix);
    forall q | q in ReservedAll(s) ensures !Share(p, q) {
      if Share(p, q) {
        ShareMasked(p, q);
        HeldDisjoint(s, Masked(p), q);
      }
    }
  }

  lemma LeasedAreGood(s: State, rows: seq<Row>)
    requires Inv(s) && ValidRows(rows) && Exclusive(rows) <= Leases(s)
    ensures GoodRows(s, rows)
  {
    forall r | r in rows ensures GoodRow(s, r) {
      if !r.mayOverlap {
        assert Masked(r.prefix) in Exclusive(rows);
        LeaseIsGood(s, r);
      }
    }
  }

  /** Adding leased rows keeps a system sane. */
  lemma AddStaysSane(y: System, u: State, db: Db, peer: Option<nat>, rows: seq<Row>)
    requires Sane(y) && Inv(u) && SameNets(y.trees, u) && db.table == y.db.table
    requires ValidRows(rows) && Exclusive(rows) <= Leases(u)
    ensures Sane(System(u, AddRows(db, peer, rows)))
  {
    RowsOfAdd(db, peer, rows);
    GoodInSameNets(y.trees, u, Rows(y.db.table));
    LeasedAreGood(u, rows);
  }

  lemma LessStaysSane(y: System, u: State, db: Db)
    requires Sane(y) && Inv(u) && SameNets(y.trees, u)
    requires forall x :: x in db.table ==> x in y.db.table
    ensures Sane(System(u, db))
  {
    GoodInSameNets(y.trees, u, Rows(y.db.table));
    RowsIn(y.db.table);
    RowsIn(db.table);
  }

  lemma PeerStaysSane(y: System, reqs: seq<Row>, fault: Fault)
    requires Sane(y) && ValidRows(reqs)
    ensures Sane(StorePeer(y, reqs, fault))
  {
    InvIff(y.trees);
    if Stops(fault, |reqs|) || ReserveList(y.trees, reqs).2.Some? {
      PeerRolledBack(y, reqs, fault);
    } else {
      ListLeases(y.trees, reqs);
      ReserveListMeaning(y.trees, reqs);
      AddStaysSane(y, ReserveList(y.trees, reqs).0, AddPeerRow(y.db), Some(y.db.nextPeer), reqs);
      StorePeerAdds(y, reqs, fault);
    }
  }

  lemma SubnetStaysSane(y: System, row: Row, stored: bool)
    requires Sane(y) && ValidPrefix(row.prefix)
    ensures Sane(StoreSubnet(y, row, stored))
  {
    InvIff(y.trees);
    if !stored || ReserveList(y.trees, [row]).2.Some? {
      RollbackRestores(y.trees, [row]);
      assert StoreSubnet(y, row, stored) == y;
    } else {
      ListLeases(y.trees, [row]);
      ReserveListMeaning(y.trees, [row]);
      AddStaysSane(y, ReserveList(y.trees, [row]).0, y.db, None, [row]);
    }
  }

  lemma RandomStaysSane(y: System, ks: seq<nat>, t: State, addrs: seq<Addr>)
    requires Sane(y) && Taken(y.trees, ks, t, addrs)
    ensures Sane(WithPeer(y, t, HostRows(addrs)))
    ensures Rollback(t, HostRows(addrs), InOrder(|addrs|)) == y.trees
  {
    InvIff(y.trees);
    RandomUndone(y.trees, ks, t, addrs);
    AssigningKeepsInv(y.trees, ks, t, addrs);
    TakenDistinct(y.trees, ks, t, addrs);
    HostRowsExclusive(addrs);
    AddStaysSane(y, t, AddPeerRow(y.db), Some(y.db.nextPeer), HostRows(addrs));
  }

  /** Deleting the entry of a good row leaves the reserved hosts alone, also if the entry is another's. */
  lemma DeletedKeepsInv(s: State, r: Row)
    requires Inv(s) && GoodRow(s, r)
    ensures Inv(Deleted(s, r)) && SameNets(s, Deleted(s, r))
  {
    if !r.mayOverlap {
      InvIff(s);
      SharesWithMasked(r.prefix);
      ReleaseMeaning(s, r.prefix);
      ReservedOfSameNets(s, Deleted(s, r));
      InvIff(Deleted(s, r));
    }
  }

  lemma DeleteStaysSane(y: System, id: nat, lookup: bool, removed: bool)
    requires Sane(y)
    ensures Sane(Step(y, DeleteSubnet(id, lookup, removed)))
  {
    var k := IndexOf(y.db.table, id);
    if lookup && k < |y.db.table| {
      var row := y.db.table[k].row;
      assert Rows(y.db.table)[k] == row && row in Rows(y.db.table);
      DeletedKeepsInv(y.trees, row);
      LessStaysSane(y, Deleted(y.trees, row), if removed then y.db.(table := Without(y.db.table, k)) else y.db);
    }
  }

  lemma DeletePeerStaysSane(y: System, peer: nat, cascade: bool, removed: bool)
    requires Sane(y)
    ensures Sane(Step(y, DeletePeer(peer, cascade, removed)))
  {
    WithoutPeerRows(y.db.table, peer);
    LessStaysSane(y, y.trees, Step(y, DeletePeer(peer, cascade, removed)).db);
  }

  /** Every request, also a deletion that leaves its row, keeps trees sound and rows good. */
  lemma StepStaysSane(y: System, c: Call)
    requires Sane(y) && CallOk(y, c)
    ensures Sane(Step(y, c))
  {
    match c
    case ReserveSubnet(row, stored) => SubnetStaysSane(y, row, stored);
    case AddPeer(reqs, fault) => PeerStaysSane(y, reqs, fault);
    case AddPeerRandom(ks, t, addrs, fault) => RandomStaysSane(y, ks, t, addrs);
    case DeleteSubnet(id, lookup, removed) => DeleteStaysSane(y, id, lookup, removed);
    case DeletePeer(peer, cascade, removed) => DeletePeerStaysSane(y, peer, cascade, removed);
  }

  /** Where every exclusive row is leased, the system is sane and its exclusive rows share no address. */
  lemma AgreeingIsSane(y: System)
    requires Agree(y)
    ensures Sane(y) && Apart(Rows(y.db.table))
  {
    var rows := Rows(y.db.table);
    LeasedAreGood(y.trees, rows);
    forall i, j | 0 <= i < j < |rows| && !rows[i].mayOverlap && !rows[j].mayOverlap
      ensures !Share(rows[i].prefix, rows[j].prefix)
    {
      RowsApart(y.trees, rows, i, j);
    }
  }

  // ---------- Restart ----------

  /** A restart from the tables succeeds iff no two exclusive rows share an address. It then leases just
      what the rows say, and rebuilds the very trees iff just that was leased. */
  lemma RestartOfSystem(y: System)
    requires Sane(y)
    ensures Restart(NetsOf(y.trees), Rows(y.db.table)).Ok? <==> Apart(Rows(y.db.table))
    ensures Restart(NetsOf(y.trees), Rows(y.db.table)).Ok? ==>
              var u := Restart(NetsOf(y.trees), Rows(y.db.table)).value;
              && Inv(u) && SameNets(y.trees, u) && Leases(u) == Exclusive(Rows(y.db.table))
              && (u == y.trees <==> Leases(y.trees) == Exclusive(Rows(y.db.table)))
  {
    var s, rows := y.trees, Rows(y.db.table);
    InvIff(s);
    MadeAgain(s);
    var made := CreateAll(NetsOf(s)).value;
    GoodAtStart(s, made, rows);
    ReplayOkIff(made, rows);
    if Replay(made, rows).Ok? {
      ReplayMeaning(made, rows);
      RestartLeases(s, made, rows, Replay(made, rows).value);
    }
  }

  /** From agreeing tables a restart comes up, leases just what they say, and is the very system iff just
      that was leased. */
  lemma RestartAgrees(y: System) returns (u: System)
    requires Agree(y)
    ensures DisjointNets(NetsOf(y.trees)) && ValidRows(Rows(y.db.table))
    ensures Restart(NetsOf(y.trees), Rows(y.db.table)) == Ok(u.trees) && u.db == y.db
    ensures Agree(u) && Exact(u)
    ensures u == y <==> Exact(y)
  {
    AgreeingIsSane(y);
    RestartOfSystem(y);
    InvIff(y.trees);
    LooseNets(y.trees);
    u := System(Restart(NetsOf(y.trees), Rows(y.db.table)).value, y.db);
  }

  lemma GoodAtStart(s: State, made: State, rows: seq<Row>)
    requires SameNets(made, s) && HeldAll(made) == ReservedAll(s) && GoodRows(s, rows)
    ensures ValidRows(rows) && AllHoused(made, rows) && AllClear(rows, HeldAll(made))
  {
    forall r | r in rows ensures ValidPrefix(r.prefix) && (!r.mayOverlap ==> Housed(made, r.prefix)) {
      assert GoodRow(s, r);
      HousedInSameNets(made, s, r.prefix);
    }
    forall r, q | r in rows && !r.mayOverlap && q in HeldAll(made) ensures !Share(r.prefix, q) {
      assert GoodRow(s, r);
    }
  }

  lemma RestartLeases(s: State, made: State, rows: seq<Row>, u: State)
    requires Inv(s) && SameNets(made, s) && HeldAll(made) == ReservedAll(s)
    requires Loose(u) && SameNets(made, u) && HeldAll(u) == HeldAll(made) + Exclusive(rows)
    requires HeldAll(made) !! Exclusive(rows)
    ensures Inv(u) && SameNets(s, u) && Leases(u) == Exclusive(rows) && (u == s <==> Leases(s) == Exclusive(rows))
  {
    InvIff(s);
    ReservedOfSameNets(s, u);
    InvIff(u);
    if Leases(s) == Exclusive(rows) {
      assert HeldAll(s) == Leases(s) + ReservedAll(s);
      SameHeldSameState(u, s);
    }
  }

  // ---------- What a row without its entry leads to ----------

  /** A prefix that some state of the same nets holds, and this one not, can be taken as a new lease. */
  lemma TakenAgain(s: State, goal: State, p: Prefix)
    requires Inv(s) && Inv(goal) && SameNets(s, goal) && Leases(s) <= Leases(goal)
    requires ValidPrefix(p) && Masked(p) in Leases(goal) && Masked(p) !in Leases(s)
    ensures Reserve(s, p).1.Ok?
  {
    InvIff(s);
    InvIff(goal);
    ReservedOfSameNets(s, goal);
    assert HeldAll(s) == Leases(s) + ReservedAll(s) && HeldAll(goal) == Leases(goal) + ReservedAll(goal);
    ReserveTowards(s, goal, p);
  }

  lemma StoreSubnetAdds(y: System, row: Row)
    requires !row.mayOverlap && Reserve(y.trees, row.prefix).1.Ok?
    ensures ReserveList(y.trees, [row]).2.None?
    ensures StoreSubnet(y, row, true) == System(Reserve(y.trees, row.prefix).0, AddRows(y.db, None, [row]))
  {
    assert [row][1..] == [];
  }

  /** Prefixes that are the same but for host bits share an address. */
  lemma SamePrefixShares(p: Prefix, q: Prefix)
    requires ValidPrefix(p) && ValidPrefix(q) && Masked(p) == Masked(q)
    ensures Share(p, q)
  {
    SharesWithMasked(q);
    ShareMaskedIff(p, q);
  }

  /** With a row that stays behind its deleted entry: its prefix can be reserved once more, and in the
      state that this leads to a restart fails. */
  lemma UnhingedBlocksRestart(y: System, id: nat, row: Row)
    requires Agree(y) && Unhinges(y, DeleteSubnet(id, true, false))
    requires ValidPrefix(row.prefix) && IsMasked(row.prefix) && !row.mayOverlap
    requires Masked(row.prefix) == Masked(y.db.table[IndexOf(y.db.table, id)].row.prefix)
    ensures var z := Step(y, DeleteSubnet(id, true, false));
            && Succeeds(z, ReserveSubnet(row, true))
            && var z' := Step(z, ReserveSubnet(row, true)); Restart(NetsOf(z'.trees), Rows(z'.db.table)).Err?
  {
    var k := IndexOf(y.db.table, id);
    var z := System(Deleted(y.trees, y.db.table[k].row), y.db);
    assert Step(y, DeleteSubnet(id, true, false)) == z;
    DeletedLeases(y, k);
    TakenAgain(z.trees, y.trees, row.prefix);
    StoreSubnetAdds(z, row);
    AgreeingIsSane(y);
    LessStaysSane(y, z.trees, y.db);
    SecondRow(z, k, row);
  }

  lemma SecondRow(z: System, k: nat, row: Row)
    requires Sane(z) && k < |z.db.table| && ValidPrefix(row.prefix)
    requires !z.db.table[k].row.mayOverlap && !row.mayOverlap && ValidPrefix(z.db.table[k].row.prefix)
    requires Masked(row.prefix) == Masked(z.db.table[k].row.prefix)
    ensures var z' := StoreSubnet(z, row, true);
            ReserveList(z.trees, [row]).2.None? ==> Restart(NetsOf(z'.trees), Rows(z'.db.table)).Err?
  {
    if ReserveList(z.trees, [row]).2.None? {
      var z' := StoreSubnet(z, row, true);
      SubnetStaysSane(z, row, true);
      RowsOfAdd(z.db, None, [row]);
      var rows := Rows(z'.db.table);
      assert rows[k] == z.db.table[k].row && rows[|z.db.table|] == row;
      SamePrefixShares(rows[k].prefix, row.prefix);
      RestartOfSystem(z');
    }
  }

  // ---------- Rows that share no address ----------

  lemma ApartAppend(a: seq<Row>, b: seq<Row>)
    ensures Apart(a + b) <==>
              Apart(a) && Apart(b) && forall x :: x in b && !x.mayOverlap ==> NoneShares(x.prefix, a)
    decreases |b|
  {
    var all := a + b;
    assert forall i :: 0 <= i < |a| ==> all[i] == a[i];
    assert forall i :: 0 <= i < |b| ==> all[|a| + i] == b[i];
    if Apart(all) {
      forall x, z | x in b && !x.mayOverlap && z in a && !z.mayOverlap ensures !Share(x.prefix, z.prefix) {
        var i :| 0 <= i < |a| && a[i] == z;
        var j :| 0 <= j < |b| && b[j] == x;
        assert all[i] == z && all[|a| + j] == x;
        ShareSymmetric(x.prefix, z.prefix);
      }
      forall i, j | 0 <= i < j < |b| && !b[i].mayOverlap && !b[j].mayOverlap ensures !Share(b[i].prefix, b[j].prefix) {
        assert all[|a| + i] == b[i] && all[|a| + j] == b[j];
      }
    }
    if Apart(a) && Apart(b) && forall x :: x in b && !x.mayOverlap ==> NoneShares(x.prefix, a) {
      forall i, j | 0 <= i < j < |all| && !all[i].mayOverlap && !all[j].mayOverlap
        ensures !Share(all[i].prefix, all[j].prefix)
      {
        if i < |a| <= j {
          assert all[j] in b && all[i] in a;
          ShareSymmetric(all[j].prefix, all[i].prefix);
        }
      }
    }
  }

  /** Leaving out rows leaves the others apart. */
  lemma {:induction false} WithoutPeerApart(table: seq<Stored>, peer: nat)
    requires Apart(Rows(table))
    ensures Apart(Rows(WithoutPeer(table, peer)))
    decreases |table|
  {
    if table == [] {
    } else {
      var r, rest := table[0], table[1..];
      var stay := WithoutPeer(rest, peer);
      assert Rows(table) == [r.row] + Rows(rest) && Rows([r] + stay) == [r.row] + Rows(stay);
      ApartCons(r.row, Rows(rest));
      ApartCons(r.row, Rows(stay));
      WithoutPeerApart(rest, peer);
      WithoutPeerRows(rest, peer);
      RowsIn(rest);
      RowsIn(stay);
      assert WithoutPeer(table, peer) == if r.peer == Some(peer) then stay else [r] + stay;
    }
  }

  lemma WithoutApart(table: seq<Stored>, k: nat)
    requires Apart(Rows(table)) && k < |table|
    ensures Apart(Rows(Without(table, k)))
  {
    var rows, stay := Rows(table), Rows(Without(table, k));
    forall i | 0 <= i < |stay| ensures stay[i] == rows[if i < k then i else i + 1] {}
  }

  /** The rows a request adds when it goes through. */
  function Added(c: Call): seq<Row> {
    match c
    case ReserveSubnet(row, _) => [row]
    case AddPeer(reqs, _) => reqs
    case AddPeerRandom(_, _, addrs, _) => HostRows(addrs)
    case _ => []
  }

  /** The request adds an exclusive row that shares an address with an exclusive row in the table. */
  ghost predicate Clashes(y: System, c: Call)
    requires CallOk(y, c)
  {
    Succeeds(y, c) && exists r :: r in Added(c) && !r.mayOverlap && !NoneShares(r.prefix, Rows(y.db.table))
  }

  /** New leases with rows of their own: the rows stay apart iff none shares an address with an old row. */
  lemma AddedApart(u: State, before: seq<Row>, added: seq<Row>)
    requires Inv(u) && Apart(before) && ValidRows(added) && Distinct(added) && Exclusive(added) <= Leases(u)
    ensures Apart(before + added) <==> forall r :: r in added && !r.mayOverlap ==> NoneShares(r.prefix, before)
  {
    forall i, j | 0 <= i < j < |added| && !added[i].mayOverlap && !added[j].mayOverlap
      ensures !Share(added[i].prefix, added[j].prefix)
    {
      RowsApart(u, added, i, j);
    }
    ApartAppend(before, added);
  }

  lemma PeerApart(y: System, reqs: seq<Row>, fault: Fault)
    requires Sane(y) && Apart(Rows(y.db.table)) && ValidRows(reqs) && reqs != []
    ensures Apart(Rows(Step(y, AddPeer(reqs, fault)).db.table)) <==> !Clashes(y, AddPeer(reqs, fault))
  {
    InvIff(y.trees);
    if Succeeds(y, AddPeer(reqs, fault)) {
      ListLeases(y.trees, reqs);
      AddedApart(ReserveList(y.trees, reqs).0, Rows(y.db.table), reqs);
      StorePeerAdds(y, reqs, fault);
      RowsOfAdd(AddPeerRow(y.db), Some(y.db.nextPeer), reqs);
    } else {
      PeerRolledBack(y, reqs, fault);
    }
  }

  lemma SubnetApart(y: System, row: Row, stored: bool)
    requires Sane(y) && Apart(Rows(y.db.table)) && ValidPrefix(row.prefix)
    ensures Apart(Rows(Step(y, ReserveSubnet(row, stored)).db.table)) <==> !Clashes(y, ReserveSubnet(row, stored))
  {
    InvIff(y.trees);
    if Succeeds(y, ReserveSubnet(row, stored)) {
      ListLeases(y.trees, [row]);
      AddedApart(ReserveList(y.trees, [row]).0, Rows(y.db.table), [row]);
      RowsOfAdd(y.db, None, [row]);
    }
  }

  lemma RandomApart(y: System, c: Call)
    requires Sane(y) && Apart(Rows(y.db.table)) && c.AddPeerRandom? && CallOk(y, c)
    ensures Apart(Rows(Step(y, c).db.table)) <==> !Clashes(y, c)
  {
    InvIff(y.trees);
    if Succeeds(y, c) {
      AssigningKeepsInv(y.trees, c.ks, c.t, c.addrs);
      TakenDistinct(y.trees, c.ks, c.t, c.addrs);
      HostRowsExclusive(c.addrs);
      AddedApart(c.t, Rows(y.db.table), HostRows(c.addrs));
      RowsOfAdd(AddPeerRow(y.db), Some(y.db.nextPeer), HostRows(c.addrs));
    }
  }

  /** The exclusive rows still share no address after a request iff it does not clash with one of them. */
  lemma StepStaysApart(y: System, c: Call)
    requires Sane(y) && CallOk(y, c) && Apart(Rows(y.db.table))
    ensures Apart(Rows(Step(y, c).db.table)) <==> !Clashes(y, c)
  {
    match c
    case ReserveSubnet(row, stored) => SubnetApart(y, row, stored);
    case AddPeer(reqs, fault) => PeerApart(y, reqs, fault);
    case AddPeerRandom(_, _, _, _) => RandomApart(y, c);
    case DeleteSubnet(id, _, _) =>
      var k := IndexOf(y.db.table, id);
      if k < |y.db.table| {
        WithoutApart(y.db.table, k);
      }
    case DeletePeer(peer, _, _) => WithoutPeerApart(y.db.table, peer);
  }

  // ---------- Runs ----------

  ghost predicate CallsOk(y: System, cs: seq<Call>)
    decreases |cs|
  {
    cs == [] || (CallOk(y, cs[0]) && CallsOk(Step(y, cs[0]), cs[1..]))
  }

  ghost function RunCalls(y: System, cs: seq<Call>): System
    requires CallsOk(y, cs)
    decreases |cs|
  {
    if cs == [] then y else RunCalls(Step(y, cs[0]), cs[1..])
  }

  /** No deletion in the run leaves an exclusive row behind its entry. */
  ghost predicate NeverUnhinges(y: System, cs: seq<Call>)
    requires CallsOk(y, cs)
    decreases |cs|
  {
    cs == [] || (!Unhinges(y, cs[0]) && NeverUnhinges(Step(y, cs[0]), cs[1..]))
  }

  /** No peer's deletion in the run takes exclusive rows along. */
  ghost predicate NeverStrands(y: System, cs: seq<Call>)
    requires CallsOk(y, cs)
    decreases |cs|
  {
    cs == [] || (!Strands(y, cs[0]) && NeverStrands(Step(y, cs[0]), cs[1..]))
  }

  ghost predicate NeverClashes(y: System, cs: seq<Call>)
    requires CallsOk(y, cs)
    decreases |cs|
  {
    cs == [] || (!Clashes(y, cs[0]) && NeverClashes(Step(y, cs[0]), cs[1..]))
  }

  /** At every moment of the run no two exclusive rows share an address. */
  ghost predicate AlwaysApart(y: System, cs: seq<Call>)
    requires CallsOk(y, cs)
    decreases |cs|
  {
    Apart(Rows(y.db.table)) && (cs == [] || AlwaysApart(Step(y, cs[0]), cs[1..]))
  }

  lemma {:induction false} RunStaysSane(y: System, cs: seq<Call>)
    requires Sane(y) && CallsOk(y, cs)
    ensures Sane(RunCalls(y, cs))
    decreases |cs|
  {
    if cs == [] {
    } else {
      StepStaysSane(y, cs[0]);
      RunStaysSane(Step(y, cs[0]), cs[1..]);
    }
  }

  /** After every run of requests, whatever fails in it, a restart from the tables succeeds iff no two
      exclusive rows share an address. */
  lemma RestartAfterRun(y: System, cs: seq<Call>)
    requires Sane(y) && CallsOk(y, cs)
    ensures var z := RunCalls(y, cs);
            Restart(NetsOf(z.trees), Rows(z.db.table)).Ok? <==> Apart(Rows(z.db.table))
  {
    RunStaysSane(y, cs);
    RestartOfSystem(RunCalls(y, cs));
  }

  lemma {:induction false} RunAgrees(y: System, cs: seq<Call>)
    requires Agree(y) && CallsOk(y, cs) && NeverUnhinges(y, cs)
    ensures Agree(RunCalls(y, cs))
    ensures Exact(RunCalls(y, cs)) <==> Exact(y) && NeverStrands(y, cs)
    decreases |cs|
  {
    if cs == [] {
    } else {
      StepKeepsAgreement(y, cs[0]);
      StepStaysExact(y, cs[0]);
      RunAgrees(Step(y, cs[0]), cs[1..]);
    }
  }

  /** After a run in which no row stays behind its entry a restart succeeds; it rebuilds the live trees
      iff nothing was leased without a row at first, and no peer's deletion took exclusive rows along. */
  lemma RestartRebuildsIff(y: System, cs: seq<Call>)
    requires Agree(y) && CallsOk(y, cs) && NeverUnhinges(y, cs)
    ensures var z := RunCalls(y, cs);
            && Agree(z) && Restart(NetsOf(z.trees), Rows(z.db.table)).Ok?
            && (Restart(NetsOf(z.trees), Rows(z.db.table)) == Ok(z.trees) <==> Exact(y) && NeverStrands(y, cs))
  {
    RunAgrees(y, cs);
    AgreeingIsSane(RunCalls(y, cs));
    RestartOfSystem(RunCalls(y, cs));
  }

  /** At every moment of a run no two exclusive rows share an address, iff no request clashes. */
  lemma {:induction false} RowsStayApartIff(y: System, cs: seq<Call>)
    requires Sane(y) && CallsOk(y, cs) && Apart(Rows(y.db.table))
    ensures AlwaysApart(y, cs) <==> NeverClashes(y, cs)
    decreases |cs|
  {
    if cs == [] {
    } else {
      var z := Step(y, cs[0]);
      StepStaysSane(y, cs[0]);
      StepStaysApart(y, cs[0]);
      if Apart(Rows(z.db.table)) {
        RowsStayApartIff(z, cs[1..]);
      } else {
        NotApartNow(z, cs[1..]);
      }
    }
  }

  lemma NotApartNow(y: System, cs: seq<Call>)
    requires CallsOk(y, cs) && !Apart(Rows(y.db.table))
    ensures !AlwaysApart(y, cs)
  {
  }

  function NewSystem(trees: State): System {
    System(trees, Db([], 0, {}, 0))
  }

  /** A new service agrees with empty tables, exactly. */
  lemma StartAgrees(nets: seq<Prefix>)
    requires DisjointNets(nets) && CreateAll(nets).Ok?
    ensures Agree(NewSystem(CreateAll(nets).value)) && Exact(NewSystem(CreateAll(nets).value))
  {
    CreateAllInv(nets);
    assert Rows([]) == [];
  }

  lemma {:induction false} AgreeingRunApart(y: System, cs: seq<Call>)
    requires Agree(y) && CallsOk(y, cs) && NeverUnhinges(y, cs)
    ensures AlwaysApart(y, cs)
    decreases |cs|
  {
    AgreeingIsSane(y);
    if cs != [] {
      StepKeepsAgreement(y, cs[0]);
      AgreeingRunApart(Step(y, cs[0]), cs[1..]);
    }
  }

  /** From the start on, rows that may not overlap share no address at any moment iff no request clashes;
      and none does as long as no row stays behind its entry. */
  lemma RowsNeverOverlapIff(nets: seq<Prefix>, cs: seq<Call>)
    requires DisjointNets(nets) && CreateAll(nets).Ok? && CallsOk(NewSystem(CreateAll(nets).value), cs)
    ensures var y := NewSystem(CreateAll(nets).value);
            && (AlwaysApart(y, cs) <==> NeverClashes(y, cs))
            && (NeverUnhinges(y, cs) ==> AlwaysApart(y, cs))
  {
    var y := NewSystem(CreateAll(nets).value);
    StartAgrees(nets);
    AgreeingIsSane(y);
    RowsStayApartIff(y, cs);
    if NeverUnhinges(y, cs) {
      AgreeingRunApart(y, cs);
    }
  }
}
