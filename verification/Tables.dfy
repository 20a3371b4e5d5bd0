/** What requests do to the tables of subnets and peers, said of the tables alone (subnets.go, peers.go). */
module Tables {
  import opened Tries
  import opened Prefixes
  import opened LeaseRuns
  import opened Requests
  import opened Systems
  import opened SystemRuns

  /** Ids are unique, and no id was given out yet that is still to come. */
  ghost predicate Numbered(db: Db) {
    && (forall p :: p in db.peers ==> p < db.nextPeer)
    && (forall i :: 0 <= i < |db.table| ==> db.table[i].id < db.nextId)
    && (forall i :: 0 <= i < |db.table| && db.table[i].peer.Some? ==> db.table[i].peer.value < db.nextPeer)
    && (forall i, j :: 0 <= i < j < |db.table| ==> db.table[i].id != db.table[j].id)
  }

  /** The rows stand behind the old ones in their order, each with the owner and an id of its own. */
  ghost predicate RowsAdded(before: Db, after: Db, rows: seq<Row>, owner: Option<nat>) {
    var n := |before.table|;
    && |after.table| == n + |rows|
    && (forall k :: 0 <= k < n ==> after.table[k] == before.table[k])
    && (forall k :: 0 <= k < |rows| ==> after.table[n + k].row == rows[k] && after.table[n + k].peer == owner)
    && (forall j, k :: 0 <= j < k < n + |rows| && n <= k ==> after.table[j].id != after.table[k].id)
  }

  /** One peer more, with an id that nobody and no row had, and its rows. */
  ghost predicate PeerAdded(before: Db, after: Db, rows: seq<Row>, id: nat) {
    && id !in before.peers && after.peers == before.peers + {id}
    && (forall k :: 0 <= k < |before.table| ==> before.table[k].peer != Some(id))
    && RowsAdded(before, after, rows, Some(id))
  }

  /** Which rows go. */
  datatype Goes = WithId(id: nat) | OfPeer(peer: nat) {
    predicate Has(x: Stored) {
      match this
      case WithId(id) => x.id == id
      case OfPeer(peer) => x.peer == Some(peer)
    }
  }

  /** `b` is what is left of `a`, in order, when those rows go; `f` says where the others were. */
  ghost predicate Filtered(a: seq<Stored>, b: seq<Stored>, f: seq<nat>, goes: Goes) {
    && |f| == |b|
    && (forall k :: 0 <= k < |f| ==> f[k] < |a| && b[k] == a[f[k]])
    && (forall j, k :: 0 <= j < k < |f| ==> f[j] < f[k])
    && (forall i :: 0 <= i < |a| ==> (i in f <==> !goes.Has(a[i])))
  }

  ghost predicate RowGone(before: Db, after: Db, id: nat) {
    && after.peers == before.peers
    && (forall x :: x in after.table <==> x in before.table && x.id != id)
    && exists f :: Filtered(before.table, after.table, f, WithId(id))
  }

  ghost predicate PeerGone(before: Db, after: Db, peer: nat, cascade: bool) {
    && (forall q :: q in after.peers <==> q in before.peers && q != peer)
    && (!cascade ==> after.table == before.table)
    && (cascade ==> exists f :: Filtered(before.table, after.table, f, OfPeer(peer)))
  }

  // ---------- Adding ----------

  lemma RowsAddedBy(db: Db, base: Db, rows: seq<Row>, owner: Option<nat>)
    requires Numbered(db) && base.table == db.table && base.nextId == db.nextId
    ensures RowsAdded(db, AddRows(base, owner, rows), rows, owner)
  {
  }

  /** A peer that is added gets a fresh id, and its rows in the order of the request. */
  lemma PeerStored(y: System, reqs: seq<Row>, fault: Fault) returns (id: nat)
    requires Numbered(y.db) && CallOk(y, AddPeer(reqs, fault)) && Succeeds(y, AddPeer(reqs, fault))
    ensures PeerAdded(y.db, Step(y, AddPeer(reqs, fault)).db, reqs, id)
  {
    id := y.db.nextPeer;
    StorePeerAdds(y, reqs, fault);
    RowsAddedBy(y.db, AddPeerRow(y.db), reqs, Some(id));
  }

  /** The rows for random addresses: exclusive, each address alone, in the order of the nets. */
  lemma HostRowsAre(addrs: seq<Addr>)
    ensures |HostRows(addrs)| == |addrs|
    ensures forall k :: 0 <= k < |addrs| ==>
              HostRows(addrs)[k] == Row(Prefix(addrs[k], if addrs[k].family.V4? then 32 else 128), false)
  {
  }

  lemma RandomPeerStored(y: System, c: Call) returns (id: nat)
    requires Numbered(y.db) && c.AddPeerRandom? && CallOk(y, c) && Succeeds(y, c)
    ensures PeerAdded(y.db, Step(y, c).db, HostRows(c.addrs), id)
  {
    id := y.db.nextPeer;
    RowsAddedBy(y.db, AddPeerRow(y.db), HostRows(c.addrs), Some(id));
  }

  /** A reserved subnet is stored as it is, with no owner. */
  lemma SubnetStored(y: System, row: Row, stored: bool)
    requires Numbered(y.db) && CallOk(y, ReserveSubnet(row, stored)) && Succeeds(y, ReserveSubnet(row, stored))
    ensures var z := Step(y, ReserveSubnet(row, stored));
            z.db.peers == y.db.peers && RowsAdded(y.db, z.db, [row], None)
  {
    RowsAddedBy(y.db, y.db, [row], None);
  }

  // ---------- Deleting ----------

  lemma WithoutFiltered(table: seq<Stored>, k: nat, id: nat) returns (f: seq<nat>)
    requires k < |table| && forall i :: 0 <= i < |table| ==> (table[i].id == id <==> i == k)
    ensures Filtered(table, Without(table, k), f, WithId(id))
  {
    f := seq(|table| - 1, i requires 0 <= i < |table| - 1 => if i < k then i else i + 1);
    forall i | 0 <= i < |table| ensures i in f <==> i != k {
      if i < k {
        assert f[i] == i;
      } else if i > k {
        assert f[i - 1] == i;
      }
    }
  }

  function Shifted(f: seq<nat>): seq<nat> {
    seq(|f|, k requires 0 <= k < |f| => f[k] + 1)
  }

  lemma ShiftedIn(f: seq<nat>, i: nat)
    ensures i in Shifted(f) <==> i > 0 && i - 1 in f
  {
    if i in Shifted(f) {
      var k :| 0 <= k < |f| && Shifted(f)[k] == i;
      assert f[k] == i - 1;
    }
    if i > 0 && i - 1 in f {
      var k :| 0 <= k < |f| && f[k] == i - 1;
      assert Shifted(f)[k] == i;
    }
  }

  /** One more row in front that goes: the others move on. */
  lemma FilteredDrop(x: Stored, a: seq<Stored>, b: seq<Stored>, f: seq<nat>, goes: Goes)
    requires Filtered(a, b, f, goes) && goes.Has(x)
    ensures Filtered([x] + a, b, Shifted(f), goes)
  {
    forall i | 0 <= i < |[x] + a| ensures i in Shifted(f) <==> !goes.Has(([x] + a)[i]) {
      ShiftedIn(f, i);
    }
  }

  lemma KeptIn(f: seq<nat>, i: nat)
    ensures i in [0] + Shifted(f) <==> i == 0 || i - 1 in f
  {
    ShiftedIn(f, i);
  }

  lemma KeptOrder(f: seq<nat>)
    requires forall j, k :: 0 <= j < k < |f| ==> f[j] < f[k]
    ensures var f' := [0] + Shifted(f); forall j, k :: 0 <= j < k < |f'| ==> f'[j] < f'[k]
  {
    var f' := [0] + Shifted(f);
    forall k | 0 < k < |f'| ensures f'[k] == f[k - 1] + 1 {}
  }

  /** One more row in front that stays. */
  lemma FilteredKeep(x: Stored, a: seq<Stored>, b: seq<Stored>, f: seq<nat>, goes: Goes)
    requires Filtered(a, b, f, goes) && !goes.Has(x)
    ensures Filtered([x] + a, [x] + b, [0] + Shifted(f), goes)
  {
    var f' := [0] + Shifted(f);
    KeptOrder(f);
    forall i | 0 <= i < |[x] + a| ensures i in f' <==> !goes.Has(([x] + a)[i]) {
      KeptIn(f, i);
    }
    forall k | 0 <= k < |f'| ensures f'[k] < |[x] + a| && ([x] + b)[k] == ([x] + a)[f'[k]] {
      assert k > 0 ==> f'[k] == f[k - 1] + 1;
    }
  }

  lemma {:induction false} WithoutPeerFiltered(table: seq<Stored>, peer: nat) returns (f: seq<nat>)
    ensures Filtered(table, WithoutPeer(table, peer), f, OfPeer(peer))
    decreases |table|
  {
    if table == [] {
      f := [];
    } else {
      f := WithoutPeerFiltered(table[1..], peer);
      var stay := WithoutPeer(table[1..], peer);
      assert table == [table[0]] + table[1..];
      if table[0].peer == Some(peer) {
        FilteredDrop(table[0], table[1..], stay, f, OfPeer(peer));
        f := Shifted(f);
        assert [] + stay == stay;
      } else {
        FilteredKeep(table[0], table[1..], stay, f, OfPeer(peer));
        f := [0] + Shifted(f);
      }
    }
  }

  /** A deleted peer is gone, and with the cascade just its rows are; it cannot be deleted again. */
  lemma PeerDeleted(y: System, peer: nat, cascade: bool, removed: bool)
    requires Succeeds(y, DeletePeer(peer, cascade, removed))
    ensures var z := Step(y, DeletePeer(peer, cascade, removed));
            && PeerGone(y.db, z.db, peer, cascade)
            && forall c, r :: !Succeeds(z, DeletePeer(peer, c, r))
  {
    var f := WithoutPeerFiltered(y.db.table, peer);
  }

  lemma FilteredRows(a: seq<Stored>, b: seq<Stored>, f: seq<nat>, goes: Goes)
    requires Filtered(a, b, f, goes)
    ensures forall x :: x in b <==> x in a && !goes.Has(x)
  {
    forall x | x in a && !goes.Has(x) ensures x in b {
      var i :| 0 <= i < |a| && a[i] == x;
      var k :| 0 <= k < |f| && f[k] == i;
      assert b[k] == x;
    }
    forall x | x in b ensures x in a && !goes.Has(x) {
      var k :| 0 <= k < |b| && b[k] == x;
      assert f[k] in f;
    }
  }

  lemma RowGoneBy(db: Db, id: nat)
    requires Numbered(db) && IndexOf(db.table, id) < |db.table|
    ensures var after := db.(table := Without(db.table, IndexOf(db.table, id)));
            RowGone(db, after, id)
  {
    var k := IndexOf(db.table, id);
    var f := WithoutFiltered(db.table, k, id);
    FilteredRows(db.table, Without(db.table, k), f, WithId(id));
  }

  lemma NotFoundIff(table: seq<Stored>, id: nat)
    ensures IndexOf(table, id) == |table| <==> forall x :: x in table ==> x.id != id
  {
    if IndexOf(table, id) < |table| {
      assert table[IndexOf(table, id)] in table;
    }
  }

  /** A deleted subnet's row is gone, exclusive or not, and no other; it cannot be deleted again. */
  lemma SubnetDeleted(y: System, id: nat, lookup: bool, removed: bool)
    requires Numbered(y.db) && Succeeds(y, DeleteSubnet(id, lookup, removed))
    ensures var z := Step(y, DeleteSubnet(id, lookup, removed));
            && RowGone(y.db, z.db, id)
            && forall l, r :: !Succeeds(z, DeleteSubnet(id, l, r))
  {
    RowGoneBy(y.db, id);
    var z := Step(y, DeleteSubnet(id, lookup, removed));
    assert z.db == y.db.(table := Without(y.db.table, IndexOf(y.db.table, id)));
    NotFoundIff(z.db.table, id);
  }

  // ---------- One after the other ----------

  lemma {:induction false} NoneOfPeer(table: seq<Stored>, peer: nat)
    requires forall x :: x in table ==> x.peer != Some(peer)
    ensures WithoutPeer(table, peer) == table
    decreases |table|
  {
    if table == [] {
    } else {
      NoneOfPeer(table[1..], peer);
      assert table == [table[0]] + table[1..];
    }
  }

  lemma {:induction false} OthersThenPeer(a: seq<Stored>, b: seq<Stored>, peer: nat)
    requires (forall x :: x in a ==> x.peer != Some(peer)) && forall x :: x in b ==> x.peer == Some(peer)
    ensures WithoutPeer(a + b, peer) == a
    decreases |a| + |b|
  {
    if a != [] {
      assert (a + b)[0] == a[0] && (a + b)[1..] == a[1..] + b;
      OthersThenPeer(a[1..], b, peer);
      assert a == [a[0]] + a[1..];
    } else {
      assert a + b == b;
      if b != [] {
        assert [] + b[1..] == b[1..];
        OthersThenPeer([], b[1..], peer);
      }
    }
  }

  /** Deleting a peer that was just added, rows and all, gives back the tables from before. */
  lemma AddThenDelete(before: System, after: System, rows: seq<Row>, id: nat)
    requires PeerAdded(before.db, after.db, rows, id)
    ensures var z := Step(after, DeletePeer(id, true, true));
            z.db.table == before.db.table && z.db.peers == before.db.peers
  {
    var a, n := after.db.table, |before.db.table|;
    assert a == a[..n] + a[n..] && a[..n] == before.db.table;
    forall x | x in a[n..] ensures x.peer == Some(id) {
      var k :| 0 <= k < |a[n..]| && a[n..][k] == x;
      assert a[n + k] == x && rows[k] == x.row;
    }
    OthersThenPeer(a[..n], a[n..], id);
  }

  // ---------- Every request, and runs ----------

  /** A request that does not go through leaves the tables alone, whatever state it finds. */
  lemma FailedKeepsTables(y: System, c: Call)
    requires CallOk(y, c) && !Succeeds(y, c)
    ensures Step(y, c).db == y.db
  {
  }

  lemma AddRowsNumbered(db: Db, owner: Option<nat>, rows: seq<Row>)
    requires Numbered(db) && (owner.Some? ==> owner.value < db.nextPeer)
    ensures Numbered(AddRows(db, owner, rows))
  {
  }

  lemma FilteredNumbered(db: Db, table: seq<Stored>, f: seq<nat>, goes: Goes, peers: set<nat>)
    requires Numbered(db) && Filtered(db.table, table, f, goes) && peers <= db.peers
    ensures Numbered(db.(table := table, peers := peers))
  {
  }

  /** Every request keeps ids unique and fresh, and never turns a number back. */
  lemma StepStaysNumbered(y: System, c: Call)
    requires Numbered(y.db) && CallOk(y, c)
    ensures var db := Step(y, c).db; Numbered(db) && db.nextId >= y.db.nextId && db.nextPeer >= y.db.nextPeer
  {
    if !Succeeds(y, c) {
      FailedKeepsTables(y, c);
    } else {
      match c
      case ReserveSubnet(row, _) => AddRowsNumbered(y.db, None, [row]);
      case AddPeer(reqs, fault) =>
        StorePeerAdds(y, reqs, fault);
        AddRowsNumbered(AddPeerRow(y.db), Some(y.db.nextPeer), reqs);
      case AddPeerRandom(_, _, addrs, _) => AddRowsNumbered(AddPeerRow(y.db), Some(y.db.nextPeer), HostRows(addrs));
      case DeleteSubnet(id, _, _) =>
        var k := IndexOf(y.db.table, id);
        var f := WithoutFiltered(y.db.table, k, id);
        FilteredNumbered(y.db, Without(y.db.table, k), f, WithId(id), y.db.peers);
      case DeletePeer(peer, _, _) =>
        var f := WithoutPeerFiltered(y.db.table, peer);
        FilteredNumbered(y.db, WithoutPeer(y.db.table, peer), f, OfPeer(peer), y.db.peers - {peer});
    }
  }

  lemma {:induction false} RunStaysNumbered(y: System, cs: seq<Call>)
    requires Numbered(y.db) && CallsOk(y, cs)
    ensures Numbered(RunCalls(y, cs).db)
    decreases |cs|
  {
    if cs == [] {
    } else {
      StepStaysNumbered(y, cs[0]);
      RunStaysNumbered(Step(y, cs[0]), cs[1..]);
    }
  }

  lemma StartNumbered(y: System)
    requires y == NewSystem(y.trees)
    ensures Numbered(y.db)
  {
  }
}
