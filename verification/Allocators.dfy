/** The allocator of subnets/subnets.go as a value: one net after the other, searched in order. */
module Allocators {
  import opened Powers
  import opened Tries
  import opened Prefixes
  import opened Nets

  type State = seq<Net>

  /** Every net is sound, and no two nets share an address; reserved hosts may be gone. */
  ghost predicate Loose(s: State) {
    && (forall i :: 0 <= i < |s| ==> Sound(s[i]))
    && (forall i, j :: 0 <= i < j < |s| ==> !Share(s[i].prefix, s[j].prefix))
  }

  /** Every net still holds its reserved hosts. */
  ghost predicate Inv(s: State) {
    Loose(s) && forall i :: 0 <= i < |s| ==> ReservedPrefixes(s[i].prefix) <= HeldPrefixes(s[i])
  }

  ghost predicate SameNets(s: State, u: State) {
    |s| == |u| && forall i :: 0 <= i < |s| ==> s[i].prefix == u[i].prefix
  }

  function HeldAll(s: State): set<Prefix> {
    set i, q | 0 <= i < |s| && q in HeldPrefixes(s[i]) :: q
  }

  function ReservedAll(s: State): set<Prefix> {
    set i, q | 0 <= i < |s| && q in ReservedPrefixes(s[i].prefix) :: q
  }

  /** What callers hold: everything held but the constructor's hosts. */
  function Leases(s: State): set<Prefix> {
    HeldAll(s) - ReservedAll(s)
  }

  // ---------- Operations ----------

  function ReserveFrom(s: State, p: Prefix, i: nat): (State, Result<nat>)
    requires i <= |s|
    decreases |s| - i
  {
    if i == |s| then (s, Err(ErrOutOfNet))
    else if s[i].prefix.addr.family != p.addr.family then ReserveFrom(s, p, i + 1)
    else
      match NetPut(s[i], p)
      case (n, None) => (s[i := n], Ok(i))
      case (_, Some(e)) => if e == ErrOutOfNet then ReserveFrom(s, p, i + 1) else (s, Err(e))
  }

  /** `Service.Reserve`: the state after it, and the net that took the prefix. */
  function Reserve(s: State, p: Prefix): (State, Result<nat>) {
    ReserveFrom(s, p, 0)
  }

  function DeleteFrom(s: State, p: Prefix, i: nat): (State, bool)
    requires i <= |s|
    decreases |s| - i
  {
    if i == |s| then (s, false)
    else
      var (n, ok) := NetDelete(s[i], p);
      if ok then (s[i := n], true) else DeleteFrom(s, p, i + 1)
  }

  /** `Service.Delete`. */
  function Release(s: State, p: Prefix): (State, bool) {
    DeleteFrom(s, p, 0)
  }

  // ---------- One home for each prefix ----------

  lemma OneHome(s: State, p: Prefix, i: nat, j: nat)
    requires Loose(s) && ValidPrefix(p) && i < |s| && j < |s| && Within(p, s[i].prefix) && Within(p, s[j].prefix)
    ensures i == j
  {
    assert ValidAddr(p.addr) && Contains(s[i].prefix, p.addr) && Contains(s[j].prefix, p.addr);
    if i < j {
      assert Share(s[i].prefix, s[j].prefix);
    } else if j < i {
      assert Share(s[j].prefix, s[i].prefix);
    }
  }

  lemma HeldHome(s: State, q: Prefix) returns (i: nat)
    requires Loose(s) && q in HeldAll(s)
    ensures i < |s| && q in HeldPrefixes(s[i]) && ValidPrefix(q) && Masked(q) == q && Within(q, s[i].prefix)
  {
    i :| 0 <= i < |s| && q in HeldPrefixes(s[i]);
    var path := HeldPath(s[i], q);
  }

  /** What a net holds is what the service holds inside that net. */
  lemma HeldOfNet(s: State, i: nat, q: Prefix)
    requires Loose(s) && i < |s|
    ensures q in HeldPrefixes(s[i]) <==> q in HeldAll(s) && Within(q, s[i].prefix)
  {
    if q in HeldPrefixes(s[i]) {
      var path := HeldPath(s[i], q);
    }
    if q in HeldAll(s) && Within(q, s[i].prefix) {
      var j := HeldHome(s, q);
      OneHome(s, q, i, j);
    }
  }

  /** The state is decided by the nets and what is held: neither order nor history matter. */
  lemma SameHeldSameState(s: State, u: State)
    requires Loose(s) && Loose(u) && SameNets(s, u) && HeldAll(s) == HeldAll(u)
    ensures s == u
  {
    forall i | 0 <= i < |s| ensures s[i] == u[i] {
      forall q ensures q in HeldPrefixes(s[i]) <==> q in HeldPrefixes(u[i]) {
        HeldOfNet(s, i, q);
        HeldOfNet(u, i, q);
      }
      SamePrefixesSameNet(s[i], u[i]);
    }
  }

  /** Prefixes sharing an address with a prefix inside a net are held, if at all, by that net. */
  lemma ShareHome(s: State, i: nat, p: Prefix, q: Prefix)
    requires Loose(s) && i < |s| && ValidPrefix(p) && Within(p, s[i].prefix) && q in HeldAll(s) && Share(p, q)
    ensures q in HeldPrefixes(s[i])
  {
    var j := HeldHome(s, q);
    var a :| ValidAddr(a) && Contains(p, a) && Contains(q, a);
    WithinContains(p, s[i].prefix, a);
    WithinContains(q, s[j].prefix, a);
    if i < j {
      assert Share(s[i].prefix, s[j].prefix);
    } else if j < i {
      assert Share(s[j].prefix, s[i].prefix);
    }
  }

  // ---------- What the operations mean ----------

  lemma HeldAfterUpdate(s: State, i: nat, n: Net, added: set<Prefix>, removed: set<Prefix>)
    requires Loose(s) && i < |s| && Sound(n) && n.prefix == s[i].prefix
    requires HeldPrefixes(n) == HeldPrefixes(s[i]) + added - removed
    requires forall q :: q in removed ==> q in HeldPrefixes(s[i])
    ensures Loose(s[i := n]) && SameNets(s, s[i := n])
    ensures HeldAll(s[i := n]) == HeldAll(s) + added - removed
  {
    var u := s[i := n];
    forall q ensures q in HeldAll(u) <==> q in HeldAll(s) + added - removed {
      if q in HeldAll(u) {
        var j :| 0 <= j < |u| && q in HeldPrefixes(u[j]);
        if j != i && q in removed {
          HeldOfNet(s, i, q);
          HeldOfNet(s, j, q);
          OneHomeOfHeld(s, q, i, j);
        }
      }
      if q in HeldAll(s) && q !in removed {
        var j :| 0 <= j < |s| && q in HeldPrefixes(s[j]);
        assert q in HeldPrefixes(u[j]);
      }
      if q in added && q !in removed {
        assert q in HeldPrefixes(u[i]);
      }
    }
  }

  lemma OneHomeOfHeld(s: State, q: Prefix, i: nat, j: nat)
    requires Loose(s) && i < |s| && j < |s| && q in HeldPrefixes(s[i]) && q in HeldPrefixes(s[j])
    ensures i == j
  {
    var path := HeldPath(s[i], q);
    path := HeldPath(s[j], q);
    OneHome(s, q, i, j);
  }

  /** No net before `i` is a home for `p`. */
  ghost predicate NoHomeBefore(s: State, p: Prefix, i: nat) {
    forall j :: 0 <= j < i && j < |s| ==> !Within(p, s[j].prefix)
  }

  lemma {:induction false} ReserveFromHome(s: State, p: Prefix, i: nat)
    requires Loose(s) && ValidPrefix(p) && i <= |s| && NoHomeBefore(s, p, i)
    ensures ReserveFrom(s, p, i).1 == Err(ErrOutOfNet) <==> NoHomeBefore(s, p, |s|)
    ensures ReserveFrom(s, p, i).1.Err? ==> ReserveFrom(s, p, i).0 == s
    ensures forall j :: i <= j < |s| && Within(p, s[j].prefix) ==>
              ReserveFrom(s, p, i) == match NetPut(s[j], p)
                                      case (n, None) => (s[j := n], Ok(j))
                                      case (_, Some(e)) => (s, Err(e))
    decreases |s| - i
  {
    if i < |s| {
      NetPutHolds(s[i], p);
      if Within(p, s[i].prefix) {
        forall j | i <= j < |s| && Within(p, s[j].prefix) ensures j == i { OneHome(s, p, i, j); }
      } else {
        ReserveFromHome(s, p, i + 1);
      }
    }
  }

  /** `Reserve` fails as out of net iff no net contains the prefix, and as overlapping iff one
      does and something held, in any net, shares an address with the prefix. */
  lemma ReserveErrors(s: State, p: Prefix)
    requires Loose(s) && ValidPrefix(p)
    ensures Reserve(s, p).1 == Err(ErrOutOfNet) <==> forall i :: 0 <= i < |s| ==> !Within(p, s[i].prefix)
    ensures Reserve(s, p).1 == Err(ErrOverlaps) <==>
              (exists i :: 0 <= i < |s| && Within(p, s[i].prefix)) && (exists q :: q in HeldAll(s) && Share(p, q))
    ensures Reserve(s, p).1.Err? ==> Reserve(s, p).0 == s
  {
    ReserveFromHome(s, p, 0);
    if i :| 0 <= i < |s| && Within(p, s[i].prefix) {
      NetPutHolds(s[i], p);
      forall q | q in HeldAll(s) && Share(p, q) ensures q in HeldPrefixes(s[i]) {
        ShareHome(s, i, p, q);
      }
      forall q | q in HeldPrefixes(s[i]) ensures q in HeldAll(s) {}
    }
  }

  lemma {:induction false} ReserveErrorKinds(s: State, p: Prefix, i: nat)
    requires i <= |s|
    ensures var r := ReserveFrom(s, p, i);
            r.1.Err? ==> r.1.error in {ErrOutOfNet, ErrOverlaps} && r.0 == s
    decreases |s| - i
  {
    if i < |s| {
      ReserveErrorKinds(s, p, i + 1);
    }
  }

  lemma ReservePlace(s: State, p: Prefix)
    requires Loose(s) && ValidPrefix(p) && Reserve(s, p).1.Ok?
    ensures var i := Reserve(s, p).1.value;
            i < |s| && Within(p, s[i].prefix) && NetPut(s[i], p).1.None? && Reserve(s, p).0 == s[i := NetPut(s[i], p).0]
  {
    ReserveFromHome(s, p, 0);
    var i :| 0 <= i < |s| && Within(p, s[i].prefix);
    assert NetPut(s[i], p).1.None?;
  }

  /** A reservation that succeeds holds exactly the prefix more. */
  lemma ReserveMeaning(s: State, p: Prefix)
    requires Loose(s) && ValidPrefix(p) && Reserve(s, p).1.Ok?
    ensures Loose(Reserve(s, p).0) && SameNets(s, Reserve(s, p).0)
    ensures Masked(p) !in HeldAll(s) && HeldAll(Reserve(s, p).0) == HeldAll(s) + {Masked(p)}
  {
    assert Masked(p) !in HeldAll(s) by {
      ReserveErrors(s, p);
      SharesWithMasked(p);
    }
    ReservePlace(s, p);
    var i := Reserve(s, p).1.value;
    NetPutHolds(s[i], p);
    HeldAfterUpdate(s, i, NetPut(s[i], p).0, {Masked(p)}, {});
  }

  lemma SharesWithMasked(p: Prefix)
    requires ValidPrefix(p)
    ensures Share(p, Masked(p))
  {
    ClearLow(p.addr.value, HostBits(p));
    assert ValidAddr(p.addr) && Contains(p, p.addr) && Contains(Masked(p), p.addr);
  }

  lemma {:induction false} DeleteFromHome(s: State, p: Prefix, i: nat)
    requires Loose(s) && ValidPrefix(p) && i <= |s|
    ensures DeleteFrom(s, p, i).1 <==>
              exists j :: i <= j < |s| && Within(p, s[j].prefix) && Masked(p) in HeldPrefixes(s[j])
    ensures !DeleteFrom(s, p, i).1 ==> DeleteFrom(s, p, i).0 == s
    ensures forall j :: i <= j < |s| && Within(p, s[j].prefix) && Masked(p) in HeldPrefixes(s[j]) ==>
              DeleteFrom(s, p, i).0 == s[j := NetDelete(s[j], p).0]
    decreases |s| - i
  {
    if i < |s| {
      NetDeleteHolds(s[i], p);
      DeleteFromHome(s, p, i + 1);
      forall j | i <= j < |s| && Within(p, s[j].prefix) && Within(p, s[i].prefix) ensures j == i {
        OneHome(s, p, i, j);
      }
    }
  }

  lemma WithinMasked(p: Prefix, net: Prefix)
    requires ValidPrefix(p) && ValidPrefix(net) && Within(Masked(p), net)
    ensures Within(p, net)
  {
    ClearLow(p.addr.value, HostBits(p));
    ShrAgree(p.addr.value, Masked(p).addr.value, HostBits(p), HostBits(net));
  }

  /** Deleting at the net that took the prefix. */
  lemma DeleteAt(s: State, i: nat, p: Prefix)
    requires Loose(s) && ValidPrefix(p) && i < |s| && Within(p, s[i].prefix)
    ensures Loose(s[i := NetDelete(s[i], p).0]) && SameNets(s, s[i := NetDelete(s[i], p).0])
    ensures HeldAll(s[i := NetDelete(s[i], p).0]) == HeldAll(s) - {Masked(p)}
  {
    NetDeleteHolds(s[i], p);
    if Masked(p) in HeldPrefixes(s[i]) {
      HeldAfterUpdate(s, i, NetDelete(s[i], p).0, {}, {Masked(p)});
    } else {
      assert s[i := s[i]] == s;
      if Masked(p) in HeldAll(s) {
        var j := HeldHome(s, Masked(p));
        WithinMasked(p, s[j].prefix);
        OneHome(s, p, i, j);
      }
    }
  }

  /** `Delete` succeeds iff exactly the prefix, its host bits ignored, is held, and then lets just it go. */
  lemma ReleaseMeaning(s: State, p: Prefix)
    requires Loose(s) && ValidPrefix(p)
    ensures Release(s, p).1 <==> Masked(p) in HeldAll(s)
    ensures !Release(s, p).1 ==> Release(s, p).0 == s
    ensures Loose(Release(s, p).0) && SameNets(s, Release(s, p).0)
    ensures HeldAll(Release(s, p).0) == HeldAll(s) - {Masked(p)}
  {
    DeleteFromHome(s, p, 0);
    if Masked(p) in HeldAll(s) {
      var i := HeldHome(s, Masked(p));
      WithinMasked(p, s[i].prefix);
      DeleteAt(s, i, p);
    }
  }

  // ---------- The invariant ----------

  /** Everything held is pairwise disjoint. */
  lemma HeldDisjoint(s: State, p: Prefix, q: Prefix)
    requires Loose(s) && p in HeldAll(s) && q in HeldAll(s) && Share(p, q)
    ensures p == q
  {
    var i := HeldHome(s, p);
    ShareHome(s, i, p, q);
    var r := HeldPath(s[i], p);
    var t := HeldPath(s[i], q);
    ShareIffComparable(s[i].prefix, p, q);
    HeldIff(s[i].trie, r);
    HeldIff(s[i].trie, t);
    LeavesApart(s[i].trie, r, t);
  }

  lemma ReservedOfSameNets(s: State, u: State)
    requires SameNets(s, u)
    ensures ReservedAll(s) == ReservedAll(u)
  {
    forall q ensures q in ReservedAll(s) <==> q in ReservedAll(u) {
      if q in ReservedAll(s) {
        var i :| 0 <= i < |s| && q in ReservedPrefixes(s[i].prefix);
        assert q in ReservedPrefixes(u[i].prefix);
      }
      if q in ReservedAll(u) {
        var i :| 0 <= i < |u| && q in ReservedPrefixes(u[i].prefix);
        assert q in ReservedPrefixes(s[i].prefix);
      }
    }
  }

  lemma ReservedWithin(net: Prefix, q: Prefix)
    requires Usable(net) && q in ReservedPrefixes(net)
    ensures Within(q, net) && ValidPrefix(q) && Masked(q) == q
  {
    var path :| path in ReservedPaths(net) && |path| <= HostBits(net) && q == PrefixAt(net, path);
    PathOfPrefixAt(net, path);
    PrefixAtValid(net, path);
  }

  /** The invariant says: loose, and all reserved hosts are held. */
  lemma InvIff(s: State)
    ensures Inv(s) <==> Loose(s) && ReservedAll(s) <= HeldAll(s)
  {
    if Inv(s) {
      forall q | q in ReservedAll(s) ensures q in HeldAll(s) {
        var i :| 0 <= i < |s| && q in ReservedPrefixes(s[i].prefix);
        assert q in HeldPrefixes(s[i]);
      }
    }
    if Loose(s) && ReservedAll(s) <= HeldAll(s) {
      forall i, q | 0 <= i < |s| && q in ReservedPrefixes(s[i].prefix) ensures q in HeldPrefixes(s[i]) {
        ReservedWithin(s[i].prefix, q);
        assert q in ReservedAll(s);
        HeldOfNet(s, i, q);
      }
    }
  }

  /** Reserving keeps the invariant and adds exactly one lease. */
  lemma ReserveKeepsInv(s: State, p: Prefix)
    requires Inv(s) && ValidPrefix(p)
    ensures Inv(Reserve(s, p).0) && SameNets(s, Reserve(s, p).0)
    ensures Leases(Reserve(s, p).0) == if Reserve(s, p).1.Ok? then Leases(s) + {Masked(p)} else Leases(s)
  {
    if Reserve(s, p).1.Ok? {
      InvIff(s);
      ReserveMeaning(s, p);
      ReservedOfSameNets(s, Reserve(s, p).0);
      InvIff(Reserve(s, p).0);
    } else {
      ReserveErrors(s, p);
    }
  }

  /** Giving a lease back keeps the invariant and removes exactly that lease. */
  lemma ReleaseKeepsInv(s: State, p: Prefix)
    requires Inv(s) && ValidPrefix(p) && Masked(p) in Leases(s)
    ensures Release(s, p).1 && Inv(Release(s, p).0) && SameNets(s, Release(s, p).0)
    ensures Leases(Release(s, p).0) == Leases(s) - {Masked(p)}
  {
    InvIff(s);
    ReleaseMeaning(s, p);
    ReservedOfSameNets(s, Release(s, p).0);
    InvIff(Release(s, p).0);
  }
}
