/** Requests for several prefixes at once, and the rows stored with them (peers.go, subnets.go). */
module Requests {
  import opened Tries
  import opened Prefixes
  import opened Nets
  import opened Allocators
  import opened LeaseRuns

  // ---------- Reserving a list ----------

  function Nones(n: int): (r: seq<Option<nat>>)
    ensures |r| == if n < 0 then 0 else n
  {
    if n < 0 then [] else seq(n, _ => None)
  }

  /** What `Action` does with the trees: reserves the exclusive entries in order up to the first
      failure, and remembers for each entry the net that took it. */
  function ReserveList(s: State, reqs: seq<Row>): (r: (State, seq<Option<nat>>, Option<Error>))
    ensures |r.1| == |reqs|
    decreases |reqs|
  {
    if reqs == [] then (s, [], None)
    else if reqs[0].mayOverlap then
      var (u, taken, e) := ReserveList(s, reqs[1..]);
      (u, [None] + taken, e)
    else
      match Reserve(s, reqs[0].prefix)
      case (_, Err(e)) => (s, Nones(|reqs|), Some(e))
      case (t, Ok(i)) =>
        var (u, taken, e) := ReserveList(t, reqs[1..]);
        (u, [Some(i)] + taken, e)
  }

  /** What `Rollback` does with the trees: deletes in the order of the list, each entry at the net that took it. */
  function Rollback(s: State, reqs: seq<Row>, taken: seq<Option<nat>>): State
    requires |taken| == |reqs|
    decreases |reqs|
  {
    if reqs == [] then s
    else
      var u := if taken[0].Some? && taken[0].value < |s|
               then s[taken[0].value := NetDelete(s[taken[0].value], reqs[0].prefix).0] else s;
      Rollback(u, reqs[1..], taken[1..])
  }

  /** The prefixes taken, host bits cleared. */
  function TakenPrefixes(reqs: seq<Row>, taken: seq<Option<nat>>): set<Prefix>
    requires |taken| == |reqs|
  {
    set k | 0 <= k < |reqs| && taken[k].Some? :: Masked(reqs[k].prefix)
  }

  /** Each entry taken lies in the net that took it. */
  ghost predicate TakenWithin(s: State, reqs: seq<Row>, taken: seq<Option<nat>>)
    requires |taken| == |reqs|
  {
    forall k :: 0 <= k < |reqs| && taken[k].Some? ==>
      ValidPrefix(reqs[k].prefix) && taken[k].value < |s| && Within(reqs[k].prefix, s[taken[k].value].prefix)
  }

  lemma TakenCons(r: Row, reqs: seq<Row>, t: Option<nat>, taken: seq<Option<nat>>)
    requires |taken| == |reqs|
    ensures TakenPrefixes([r] + reqs, [t] + taken)
         == (if t.Some? then {Masked(r.prefix)} else {}) + TakenPrefixes(reqs, taken)
  {
    var all, ts, first := [r] + reqs, [t] + taken, if t.Some? then {Masked(r.prefix)} else {};
    forall q ensures q in TakenPrefixes(all, ts) <==> q in first + TakenPrefixes(reqs, taken) {
      if q in TakenPrefixes(all, ts) {
        var k :| 0 <= k < |all| && ts[k].Some? && q == Masked(all[k].prefix);
        if k > 0 { assert taken[k - 1].Some? && q == Masked(reqs[k - 1].prefix); }
      }
      if q in TakenPrefixes(reqs, taken) {
        var k :| 0 <= k < |reqs| && taken[k].Some? && q == Masked(reqs[k].prefix);
        assert ts[k + 1].Some? && q == Masked(all[k + 1].prefix);
      }
      if t.Some? { assert ts[0].Some? && Masked(all[0].prefix) == Masked(r.prefix); }
    }
  }

  lemma TakenWithinCons(s: State, r: Row, reqs: seq<Row>, t: Option<nat>, taken: seq<Option<nat>>)
    requires |taken| == |reqs| && TakenWithin(s, reqs, taken)
    requires t.Some? ==> ValidPrefix(r.prefix) && t.value < |s| && Within(r.prefix, s[t.value].prefix)
    ensures TakenWithin(s, [r] + reqs, [t] + taken)
  {
    var all, ts := [r] + reqs, [t] + taken;
    forall k | 0 <= k < |all| && ts[k].Some?
      ensures ValidPrefix(all[k].prefix) && ts[k].value < |s| && Within(all[k].prefix, s[ts[k].value].prefix)
    {
      if k > 0 { assert taken[k - 1] == ts[k] && reqs[k - 1] == all[k]; }
    }
  }

  /** From `s` to `u` just the entries taken came to be held, each by the net it lies in. */
  ghost predicate Holds(s: State, u: State, reqs: seq<Row>, taken: seq<Option<nat>>)
    requires |taken| == |reqs|
  {
    && Loose(u) && SameNets(s, u) && TakenWithin(u, reqs, taken)
    && HeldAll(u) == HeldAll(s) + TakenPrefixes(reqs, taken)
    && HeldAll(s) !! TakenPrefixes(reqs, taken)
  }

  lemma HoldsMore(s: State, r: Row, t: State, u: State, reqs: seq<Row>, taken: seq<Option<nat>>)
    requires Loose(s) && ValidPrefix(r.prefix) && Reserve(s, r.prefix).1.Ok? && Reserve(s, r.prefix).0 == t
    requires |taken| == |reqs| && Holds(t, u, reqs, taken)
    ensures Holds(s, u, [r] + reqs, [Some(Reserve(s, r.prefix).1.value)] + taken)
  {
    ReserveMeaning(s, r.prefix);
    ReservePlace(s, r.prefix);
    TakenCons(r, reqs, Some(Reserve(s, r.prefix).1.value), taken);
    TakenWithinCons(u, r, reqs, Some(Reserve(s, r.prefix).1.value), taken);
  }

  /** Reserving a list holds the entries taken, all new and all different, and nothing else. */
  lemma {:induction false} ReserveListMeaning(s: State, reqs: seq<Row>)
    requires Loose(s) && ValidRows(reqs)
    ensures Holds(s, ReserveList(s, reqs).0, reqs, ReserveList(s, reqs).1)
    decreases |reqs|
  {
    if reqs != [] {
      var r, rest := reqs[0], reqs[1..];
      assert reqs == [r] + rest;
      if r.mayOverlap {
        ReserveListMeaning(s, rest);
        TakenCons(r, rest, None, ReserveList(s, rest).1);
        TakenWithinCons(ReserveList(s, rest).0, r, rest, None, ReserveList(s, rest).1);
      } else if Reserve(s, r.prefix).1.Ok? {
        var t := Reserve(s, r.prefix).0;
        ReserveMeaning(s, r.prefix);
        ReserveListMeaning(t, rest);
        HoldsMore(s, r, t, ReserveList(t, rest).0, rest, ReserveList(t, rest).1);
      }
    }
  }

  /** Without an error all exclusive entries are taken, and no two of them are the same. */
  lemma {:induction false} ReserveListTakesAll(s: State, reqs: seq<Row>)
    requires Loose(s) && ValidRows(reqs) && ReserveList(s, reqs).2.None?
    ensures TakenPrefixes(reqs, ReserveList(s, reqs).1) == Exclusive(reqs) && Distinct(reqs)
    decreases |reqs|
  {
    if reqs != [] {
      var r, rest := reqs[0], reqs[1..];
      assert reqs == [r] + rest;
      ExclusiveCons(r, rest);
      if r.mayOverlap {
        ReserveListTakesAll(s, rest);
        TakenCons(r, rest, None, ReserveList(s, rest).1);
      } else {
        var t, i := Reserve(s, r.prefix).0, Reserve(s, r.prefix).1.value;
        ReserveMeaning(s, r.prefix);
        ReserveListMeaning(t, rest);
        ReserveListTakesAll(t, rest);
        TakenCons(r, rest, Some(i), ReserveList(t, rest).1);
      }
    }
  }

  lemma {:induction false} RollbackMeaning(s: State, reqs: seq<Row>, taken: seq<Option<nat>>)
    requires Loose(s) && |taken| == |reqs| && TakenWithin(s, reqs, taken)
    ensures Loose(Rollback(s, reqs, taken)) && SameNets(s, Rollback(s, reqs, taken))
    ensures HeldAll(Rollback(s, reqs, taken)) == HeldAll(s) - TakenPrefixes(reqs, taken)
    decreases |reqs|
  {
    if reqs != [] {
      var r, rest, t, ts := reqs[0], reqs[1..], taken[0], taken[1..];
      assert reqs == [r] + rest && taken == [t] + ts;
      TakenCons(r, rest, t, ts);
      var u := s;
      if t.Some? {
        DeleteAt(s, t.value, r.prefix);
        u := s[t.value := NetDelete(s[t.value], r.prefix).0];
      }
      forall k | 0 <= k < |rest| && ts[k].Some?
        ensures ValidPrefix(rest[k].prefix) && ts[k].value < |u| && Within(rest[k].prefix, u[ts[k].value].prefix)
      {
        assert taken[k + 1] == ts[k] && reqs[k + 1] == rest[k];
      }
      RollbackMeaning(u, rest, ts);
    }
  }

  /** Wherever a list reservation stops, and also if it does not, rolling it back in list order
      gives back exactly the trees from before. */
  lemma RollbackRestores(s: State, reqs: seq<Row>)
    requires Loose(s) && ValidRows(reqs)
    ensures Rollback(ReserveList(s, reqs).0, reqs, ReserveList(s, reqs).1) == s
  {
    var (u, taken, e) := ReserveList(s, reqs);
    ReserveListMeaning(s, reqs);
    RollbackMeaning(u, reqs, taken);
    SameHeldSameState(Rollback(u, reqs, taken), s);
  }

  // ---------- Which entry is refused ----------

  /** A list is reserved as its rows are replayed at a restart. */
  lemma {:induction false} ReplayIsList(s: State, rows: seq<Row>)
    ensures var (u, _, e) := ReserveList(s, rows);
            Replay(s, rows) == if e.Some? then Err(e.value) else Ok(u)
    decreases |rows|
  {
    if rows == [] {
    } else if rows[0].mayOverlap {
      ReplayIsList(s, rows[1..]);
    } else if Reserve(s, rows[0].prefix).1.Ok? {
      ReplayIsList(Reserve(s, rows[0].prefix).0, rows[1..]);
    }
  }

  /** Every exclusive entry lies in a net, clear of what is held and of the other exclusive entries. */
  ghost predicate Placeable(s: State, reqs: seq<Row>) {
    AllHoused(s, reqs) && AllClear(reqs, HeldAll(s)) && Apart(reqs)
  }

  lemma ListOkIff(s: State, reqs: seq<Row>)
    requires Loose(s) && ValidRows(reqs)
    ensures ReserveList(s, reqs).2.None? <==> Placeable(s, reqs)
  {
    ReplayIsList(s, reqs);
    ReplayOkIff(s, reqs);
  }

  /** The first entry that cannot be placed behind those before it. */
  ghost predicate FirstBad(s: State, reqs: seq<Row>, i: int) {
    0 <= i < |reqs| && !reqs[i].mayOverlap && Placeable(s, reqs[..i]) && !Placeable(s, reqs[..i + 1])
  }

  lemma {:induction false} ListSnoc(s: State, reqs: seq<Row>, r: Row)
    ensures ReserveList(s, reqs).2.Some? ==> ReserveList(s, reqs + [r]).2 == ReserveList(s, reqs).2
    ensures ReserveList(s, reqs).2.None? ==>
              ReserveList(s, reqs + [r]).2
              == if r.mayOverlap || Reserve(ReserveList(s, reqs).0, r.prefix).1.Ok? then None
                 else Some(Reserve(ReserveList(s, reqs).0, r.prefix).1.error)
    decreases |reqs|
  {
    if reqs == [] {
      assert [] + [r] == [r] && [r][1..] == [];
    } else {
      assert (reqs + [r])[0] == reqs[0] && (reqs + [r])[1..] == reqs[1..] + [r];
      if reqs[0].mayOverlap {
        ListSnoc(s, reqs[1..], r);
      } else if Reserve(s, reqs[0].prefix).1.Ok? {
        ListSnoc(Reserve(s, reqs[0].prefix).0, reqs[1..], r);
      }
    }
  }

  lemma FirstBadInit(s: State, reqs: seq<Row>, r: Row, i: int)
    requires i < |reqs|
    ensures FirstBad(s, reqs + [r], i) <==> FirstBad(s, reqs, i)
  {
    if i >= 0 {
      assert (reqs + [r])[..i] == reqs[..i] && (reqs + [r])[..i + 1] == reqs[..i + 1];
    }
  }

  /** A list is refused for its first bad entry: as out of net iff no net contains that, and as overlapping
      iff one does. */
  lemma {:induction false} ListErrors(s: State, reqs: seq<Row>)
    requires Loose(s) && ValidRows(reqs)
    ensures forall i :: FirstBad(s, reqs, i) ==>
              ReserveList(s, reqs).2 == Some(if Housed(s, reqs[i].prefix) then ErrOverlaps else ErrOutOfNet)
    ensures ReserveList(s, reqs).2.Some? ==> exists i :: FirstBad(s, reqs, i)
    decreases |reqs|
  {
    if reqs == [] {
    } else {
      var n := |reqs| - 1;
      var init, r := reqs[..n], reqs[n];
      assert reqs == init + [r];
      ListErrors(s, init);
      ListOkIff(s, init);
      ListOkIff(s, reqs);
      ListSnoc(s, init, r);
      if ReserveList(s, init).2.None? {
        LastEntryError(s, init, r);
      }
      forall i | FirstBad(s, reqs, i)
        ensures ReserveList(s, reqs).2 == Some(if Housed(s, reqs[i].prefix) then ErrOverlaps else ErrOutOfNet)
      {
        if i < n {
          FirstBadInit(s, init, r, i);
          assert FirstBad(s, init, i);
        } else {
          assert reqs[..n] == init && reqs[..n + 1] == reqs;
        }
      }
      if ReserveList(s, init).2.Some? {
        var i :| FirstBad(s, init, i);
        FirstBadInit(s, init, r, i);
      } else if ReserveList(s, reqs).2.Some? {
        assert reqs[..n] == init && reqs[..n + 1] == reqs;
        assert FirstBad(s, reqs, n);
      }
    }
  }

  lemma LastEntryError(s: State, init: seq<Row>, r: Row)
    requires Loose(s) && ValidRows(init) && ValidPrefix(r.prefix) && ReserveList(s, init).2.None?
    ensures var u := ReserveList(s, init).0;
            Reserve(u, r.prefix).1.Err? ==>
              Reserve(u, r.prefix).1.error == if Housed(s, r.prefix) then ErrOverlaps else ErrOutOfNet
  {
    var u := ReserveList(s, init).0;
    ReserveListMeaning(s, init);
    ReserveErrors(u, r.prefix);
    ReserveErrorKinds(u, r.prefix, 0);
    HousedInSameNets(s, u, r.prefix);
  }

  // ---------- Trees and rows ----------

  /** A row of the table of subnets, and the peer it belongs to, if any. */
  datatype Stored = Stored(id: nat, peer: Option<nat>, row: Row)

  /** The tables of subnets and peers; ids grow. */
  datatype Db = Db(table: seq<Stored>, nextId: nat, peers: set<nat>, nextPeer: nat)

  datatype System = System(trees: State, db: Db)

  function Rows(table: seq<Stored>): seq<Row> {
    seq(|table|, k requires 0 <= k < |table| => table[k].row)
  }

  ghost predicate UniqueIds(table: seq<Stored>, nextId: nat) {
    && (forall i, j :: 0 <= i < j < |table| ==> table[i].id != table[j].id)
    && (forall i :: 0 <= i < |table| ==> table[i].id < nextId)
  }

  /** Ids are unique, and so are the prefixes of the rows that may not overlap. */
  ghost predicate Consistent(db: Db) {
    ValidRows(Rows(db.table)) && Distinct(Rows(db.table)) && UniqueIds(db.table, db.nextId)
  }

  /** Every row that may not overlap is leased. */
  ghost predicate Agree(y: System) {
    Inv(y.trees) && Consistent(y.db) && Exclusive(Rows(y.db.table)) <= Leases(y.trees)
  }

  /** Nothing is leased without such a row. */
  ghost predicate Exact(y: System) {
    Leases(y.trees) <= Exclusive(Rows(y.db.table))
  }

  /** The rows of a request, with ids given in order. */
  function NewRows(rows: seq<Row>, peer: Option<nat>, first: nat): seq<Stored> {
    seq(|rows|, k requires 0 <= k < |rows| => Stored(first + k, peer, rows[k]))
  }

  /** `AddSubnet` for each row. */
  function AddRows(db: Db, peer: Option<nat>, rows: seq<Row>): Db {
    db.(table := db.table + NewRows(rows, peer, db.nextId), nextId := db.nextId + |rows|)
  }

  /** `AddPeer` of the database. */
  function AddPeerRow(db: Db): Db {
    db.(peers := db.peers + {db.nextPeer}, nextPeer := db.nextPeer + 1)
  }

  function IndexOf(table: seq<Stored>, id: nat): (k: nat)
    ensures k <= |table| && (k < |table| ==> table[k].id == id)
    ensures forall j :: 0 <= j < k ==> table[j].id != id
  {
    if table == [] then 0
    else if table[0].id == id then 0
    else
      var k := 1 + IndexOf(table[1..], id);
      assert forall j :: 1 <= j < k ==> table[j] == table[1..][j - 1];
      k
  }

  function Without(table: seq<Stored>, k: nat): seq<Stored>
    requires k < |table|
  {
    table[..k] + table[k + 1..]
  }

  /** The rows that do not belong to the peer. */
  function WithoutPeer(table: seq<Stored>, peer: nat): seq<Stored> {
    if table == [] then []
    else (if table[0].peer == Some(peer) then [] else [table[0]]) + WithoutPeer(table[1..], peer)
  }
}
