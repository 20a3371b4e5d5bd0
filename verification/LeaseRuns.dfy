/** Runs of the allocator: which prefixes are leased, and what survives failure and restart. */
module LeaseRuns {
  import opened Powers
  import opened Paths
  import opened Tries
  import opened Prefixes
  import opened Nets
  import opened Allocators

  // ---------- One random address in each net ----------

  /** Net `j` of `s` gave its `ks[j]`-th free address `addrs[j]` and became `t[j]`; nets from `|ks|` on gave nothing. */
  ghost predicate TakenAt(s: State, ks: seq<nat>, t: State, addrs: seq<Addr>, j: int)
    requires |ks| == |addrs| <= |s| == |t|
  {
    && (0 <= j < |ks| ==> Sound(s[j]) && ks[j] < FreeCount(s[j]) && (t[j], addrs[j]) == NetTake(s[j], ks[j]))
    && (|ks| <= j < |s| ==> t[j] == s[j])
  }

  ghost predicate Taken(s: State, ks: seq<nat>, t: State, addrs: seq<Addr>) {
    |ks| == |addrs| <= |s| == |t| && forall j {:trigger TakenAt(s, ks, t, addrs, j)} :: TakenAt(s, ks, t, addrs, j)
  }

  lemma TakenNothing(s: State)
    ensures Taken(s, [], s, [])
  {
  }

  lemma TakenMore(s: State, ks: seq<nat>, t: State, addrs: seq<Addr>, n: nat)
    requires Taken(s, ks, t, addrs) && |ks| < |s| && Sound(s[|ks|]) && n < FreeCount(s[|ks|])
    ensures Taken(s, ks + [n], t[|ks| := NetTake(s[|ks|], n).0], addrs + [NetTake(s[|ks|], n).1])
  {
    var ks', t', addrs' := ks + [n], t[|ks| := NetTake(s[|ks|], n).0], addrs + [NetTake(s[|ks|], n).1];
    forall j ensures TakenAt(s, ks', t', addrs', j) {
      assert TakenAt(s, ks, t, addrs, j);
    }
  }

  lemma TakenLess(s: State, ks: seq<nat>, t: State, addrs: seq<Addr>)
    requires Taken(s, ks, t, addrs) && ks != []
    ensures var i := |ks| - 1; Taken(s, ks[..i], t[i := s[i]], addrs[..i])
  {
    var i := |ks| - 1;
    var ks', t', addrs' := ks[..i], t[i := s[i]], addrs[..i];
    forall j ensures TakenAt(s, ks', t', addrs', j) {
      assert TakenAt(s, ks, t, addrs, j);
    }
  }

  function HostPrefixes(addrs: seq<Addr>): set<Prefix> {
    set a | a in addrs :: HostPrefix(a)
  }

  /** Taking a free address of one net: nobody held it, and just it is held more. */
  lemma TakeOne(s: State, i: nat, k: nat)
    requires Loose(s) && i < |s| && k < FreeCount(s[i])
    ensures Loose(s[i := NetTake(s[i], k).0]) && SameNets(s, s[i := NetTake(s[i], k).0])
    ensures HeldAll(s[i := NetTake(s[i], k).0]) == HeldAll(s) + {HostPrefix(NetTake(s[i], k).1)}
    ensures HostPrefix(NetTake(s[i], k).1) !in HeldAll(s)
  {
    var (n, a) := NetTake(s[i], k);
    NetTakeHolds(s[i], k);
    NetPutHolds(s[i], HostPrefix(a));
    HostIsMasked(a);
    HeldAfterUpdate(s, i, n, {HostPrefix(a)}, {});
    if HostPrefix(a) in HeldAll(s) {
      HeldOfNet(s, i, HostPrefix(a));
      ContainsOwn(HostPrefix(a));
    }
  }

  /** Every address given out was held by nobody, and just those addresses are held more. */
  lemma {:induction false} TakenMeaning(s: State, ks: seq<nat>, t: State, addrs: seq<Addr>)
    requires Loose(s) && Taken(s, ks, t, addrs)
    ensures Loose(t) && SameNets(s, t)
    ensures HeldAll(t) == HeldAll(s) + HostPrefixes(addrs) && HeldAll(s) !! HostPrefixes(addrs)
    decreases |ks|
  {
    if ks == [] {
      forall j | 0 <= j < |s| ensures t[j] == s[j] { assert TakenAt(s, ks, t, addrs, j); }
      assert t == s;
    } else {
      var i := |ks| - 1;
      var u := t[i := s[i]];
      TakenLess(s, ks, t, addrs);
      TakenMeaning(s, ks[..i], u, addrs[..i]);
      assert TakenAt(s, ks, t, addrs, i);
      TakeOne(u, i, ks[i]);
      assert t == u[i := t[i]];
      HostPrefixesSnoc(addrs[..i], addrs[i]);
      assert addrs == addrs[..i] + [addrs[i]];
    }
  }

  lemma HostPrefixesSnoc(addrs: seq<Addr>, a: Addr)
    ensures HostPrefixes(addrs + [a]) == HostPrefixes(addrs) + {HostPrefix(a)}
  {
  }

  lemma HostIsMasked(a: Addr)
    ensures Masked(HostPrefix(a)) == HostPrefix(a)
  {
  }

  /** Deleting the address given out restores the net. */
  lemma TakeUndone(n: Net, k: nat)
    requires Sound(n) && k < FreeCount(n)
    ensures NetDelete(NetTake(n, k).0, HostPrefix(NetTake(n, k).1)) == (n, true)
  {
    var (m, a) := NetTake(n, k);
    NetTakeHolds(n, k);
    PutThenDelete(n.trie, HostBits(n.prefix), PathIn(n.prefix, HostPrefix(a)));
  }

  // ---------- Runs ----------

  datatype Event =
    | Reserving(p: Prefix)                                   // an attempt; it may fail
    | Assigning(ks: seq<nat>, t: State, addrs: seq<Addr>)    // one free address of every net, the `ks[i]`-th of net `i`
    | Releasing(p: Prefix)                                   // of a lease

  ghost predicate EventOk(s: State, e: Event) {
    match e
    case Reserving(p) => ValidPrefix(p)
    case Assigning(ks, t, addrs) => |ks| == |s| && Taken(s, ks, t, addrs)
    case Releasing(p) => ValidPrefix(p) && Masked(p) in Leases(s)
  }

  ghost function Next(s: State, e: Event): State
    requires EventOk(s, e)
  {
    match e
    case Reserving(p) => Reserve(s, p).0
    case Assigning(_, t, _) => t
    case Releasing(p) => Release(s, p).0
  }

  /** The leases a client counts from the answers alone. */
  ghost function Ledger(l: set<Prefix>, s: State, e: Event): set<Prefix>
    requires EventOk(s, e)
  {
    match e
    case Reserving(p) => if Reserve(s, p).1.Ok? then l + {Masked(p)} else l
    case Assigning(_, _, addrs) => l + HostPrefixes(addrs)
    case Releasing(p) => l - {Masked(p)}
  }

  ghost predicate RunOk(s: State, es: seq<Event>)
    decreases |es|
  {
    es == [] || (EventOk(s, es[0]) && RunOk(Next(s, es[0]), es[1..]))
  }

  ghost function Run(l: set<Prefix>, s: State, es: seq<Event>): (set<Prefix>, State)
    requires RunOk(s, es)
    decreases |es|
  {
    if es == [] then (l, s) else Run(Ledger(l, s, es[0]), Next(s, es[0]), es[1..])
  }

  lemma AssigningKeepsInv(s: State, ks: seq<nat>, t: State, addrs: seq<Addr>)
    requires Inv(s) && Taken(s, ks, t, addrs)
    ensures Inv(t) && SameNets(s, t) && Leases(t) == Leases(s) + HostPrefixes(addrs)
  {
    InvIff(s);
    TakenMeaning(s, ks, t, addrs);
    ReservedOfSameNets(s, t);
    InvIff(t);
  }

  lemma StepKeepsLedger(s: State, e: Event)
    requires Inv(s) && EventOk(s, e)
    ensures Inv(Next(s, e)) && SameNets(s, Next(s, e)) && Ledger(Leases(s), s, e) == Leases(Next(s, e))
  {
    match e
    case Reserving(p) => ReserveKeepsInv(s, p);
    case Assigning(ks, t, addrs) => AssigningKeepsInv(s, ks, t, addrs);
    case Releasing(p) => ReleaseKeepsInv(s, p);
  }

  /** Over every run the counted leases are exactly the held prefixes that are not reserved. */
  lemma {:induction false} RunKeepsLedger(l: set<Prefix>, s: State, es: seq<Event>)
    requires Inv(s) && l == Leases(s) && RunOk(s, es)
    ensures Inv(Run(l, s, es).1) && SameNets(s, Run(l, s, es).1) && Run(l, s, es).0 == Leases(Run(l, s, es).1)
    decreases |es|
  {
    if es != [] {
      StepKeepsLedger(s, es[0]);
      RunKeepsLedger(Leases(Next(s, es[0])), Next(s, es[0]), es[1..]);
    }
  }

  /** The last address of a net. */
  function LastAddr(net: Prefix): Addr {
    Addr(net.addr.family, net.addr.value + (Pow2(HostBits(net)) - 1))
  }

  /** The address at an offset is the prefix at the offset's bits. */
  lemma OffsetPrefix(net: Prefix, x: nat)
    requires net.bits <= Len(net.addr.family) && x < Pow2(HostBits(net))
    ensures PrefixAt(net, Bits(x, HostBits(net), HostBits(net)))
         == HostPrefix(Addr(net.addr.family, net.addr.value + x))
  {
    var h := HostBits(net);
    WrapSmall(x, h);
    StartOfBits(x, h, h);
  }

  /** The reserved hosts of a net are host 0 and, for IPv4, the last host, and no others. */
  lemma ReservedAddrs(net: Prefix)
    requires Usable(net)
    ensures ReservedPrefixes(net)
         == {HostPrefix(net.addr)} + if net.addr.family.V4? then {HostPrefix(LastAddr(net))} else {}
  {
    var h := HostBits(net);
    OffsetPrefix(net, 0);
    OffsetPrefix(net, Pow2(h) - 1);
    assert Bits(0, h, h) in ReservedPaths(net);
    assert net.addr.family.V4? ==> Bits(Pow2(h) - 1, h, h) in ReservedPaths(net);
  }

  /** The last address is the greatest one of the net. */
  lemma LastAddrIsLast(net: Prefix)
    requires Usable(net)
    ensures ValidAddr(LastAddr(net)) && Contains(net, LastAddr(net))
    ensures forall a :: Contains(net, a) ==> a.value <= LastAddr(net).value
  {
    AlignedBound(net.addr.value, HostBits(net), Len(net.addr.family));
    MaskedIsRemainder(net);
    ContainsIsRange(net, LastAddr(net));
    forall a | Contains(net, a) ensures a.value <= LastAddr(net).value {
      ContainsIsRange(net, a);
    }
  }

  /** Leases are safe: each lies in one of the nets, no two share an address, and none
      contains host 0 of a net or the last host of an IPv4 net. */
  lemma LeasesAreSafe(s: State, p: Prefix)
    requires Inv(s) && p in Leases(s)
    ensures exists i :: 0 <= i < |s| && Within(p, s[i].prefix)
    ensures forall q :: q in Leases(s) && Share(p, q) ==> p == q
    ensures forall i :: 0 <= i < |s| ==>
              !Contains(p, s[i].prefix.addr) && (s[i].prefix.addr.family.V4? ==> !Contains(p, LastAddr(s[i].prefix)))
  {
    InvIff(s);
    var h := HeldHome(s, p);
    forall q | q in Leases(s) && Share(p, q) ensures p == q {
      HeldDisjoint(s, p, q);
    }
    forall i | 0 <= i < |s|
      ensures !Contains(p, s[i].prefix.addr)
      ensures s[i].prefix.addr.family.V4? ==> !Contains(p, LastAddr(s[i].prefix))
    {
      var net := s[i].prefix;
      ReservedAddrs(net);
      NotInLease(s, p, i, net.addr);
      if net.addr.family.V4? {
        NotInLease(s, p, i, LastAddr(net));
      }
    }
  }

  lemma NotInLease(s: State, p: Prefix, i: nat, a: Addr)
    requires Inv(s) && p in Leases(s) && i < |s| && HostPrefix(a) in ReservedPrefixes(s[i].prefix)
    ensures !Contains(p, a)
  {
    InvIff(s);
    ReservedWithin(s[i].prefix, HostPrefix(a));
    assert HostPrefix(a) in ReservedAll(s);
    if Contains(p, a) {
      ContainsOwn(HostPrefix(a));
      assert Share(p, HostPrefix(a));
      HeldDisjoint(s, p, HostPrefix(a));
    }
  }

  // ---------- Start and restart ----------

  datatype Row = Row(prefix: Prefix, mayOverlap: bool)

  function CreateAll(nets: seq<Prefix>): Result<State>
  {
    if nets == [] then Ok([]) else
      match CreateAll(nets[..|nets| - 1])
      case Err(e) => Err(e)
      case Ok(s) =>
        match NewNet(nets[|nets| - 1])
        case Err(e) => Err(e)
        case Ok(n) => Ok(s + [n])
  }

  /** Reserves the rows that may not overlap, one after the other. */
  function Replay(s: State, rows: seq<Row>): Result<State>
    decreases |rows|
  {
    if rows == [] then Ok(s)
    else if rows[0].mayOverlap then Replay(s, rows[1..])
    else
      match Reserve(s, rows[0].prefix)
      case (u, Ok(_)) => Replay(u, rows[1..])
      case (_, Err(e)) => Err(e)
  }

  /** `NewService` for given nets and stored rows. */
  function Restart(nets: seq<Prefix>, rows: seq<Row>): Result<State> {
    match CreateAll(nets)
    case Err(e) => Err(e)
    case Ok(s) => Replay(s, rows)
  }

  ghost predicate DisjointNets(nets: seq<Prefix>) {
    && (forall i :: 0 <= i < |nets| ==> ValidPrefix(nets[i]) && IsMasked(nets[i]))
    && (forall i, j :: 0 <= i < j < |nets| ==> !Share(nets[i], nets[j]))
  }

  ghost predicate AllUsable(nets: seq<Prefix>) {
    forall i :: 0 <= i < |nets| ==> Usable(nets[i])
  }

  /** One net for each prefix, holding its reserved hosts only. */
  ghost predicate AllNew(nets: seq<Prefix>, s: State) {
    |s| == |nets| && forall i :: 0 <= i < |s| ==>
      s[i].prefix == nets[i] && Sound(s[i]) && Held(s[i].trie) == ReservedPaths(nets[i])
  }

  lemma AllUsableSnoc(nets: seq<Prefix>, p: Prefix)
    ensures AllUsable(nets + [p]) <==> AllUsable(nets) && Usable(p)
  {
    if AllUsable(nets + [p]) {
      forall i | 0 <= i < |nets| ensures Usable(nets[i]) { assert (nets + [p])[i] == nets[i]; }
      assert (nets + [p])[|nets|] == p;
    }
  }

  lemma AllNewSnoc(nets: seq<Prefix>, s: State, n: Net)
    requires AllNew(nets, s) && Sound(n) && Held(n.trie) == ReservedPaths(n.prefix)
    ensures AllNew(nets + [n.prefix], s + [n])
  {
  }

  /** Trees can be made iff every net is usable, and then hold the reserved hosts only. */
  lemma {:induction false} CreateAllMeaning(nets: seq<Prefix>)
    requires forall i :: 0 <= i < |nets| ==> ValidPrefix(nets[i]) && IsMasked(nets[i])
    ensures CreateAll(nets).Ok? <==> AllUsable(nets)
    ensures CreateAll(nets).Ok? ==> AllNew(nets, CreateAll(nets).value)
    decreases |nets|
  {
    if nets != [] {
      var init, p := nets[..|nets| - 1], nets[|nets| - 1];
      CreateAllMeaning(init);
      NewNetHolds(p);
      AllUsableSnoc(init, p);
      assert nets == init + [p];
      if AllUsable(nets) {
        AllNewSnoc(init, CreateAll(init).value, NewNet(p).value);
      }
    }
  }

  /** Where trees cannot be made, the error is that of the first net no tree can be made for. */
  lemma {:induction false} CreateAllErrors(nets: seq<Prefix>)
    requires forall i :: 0 <= i < |nets| ==> ValidPrefix(nets[i]) && IsMasked(nets[i])
    ensures CreateAll(nets).Err? ==>
              exists k :: 0 <= k < |nets| && AllUsable(nets[..k]) && NewNet(nets[k]) == Err(CreateAll(nets).error)
    decreases |nets|
  {
    if nets != [] {
      var n := |nets| - 1;
      CreateAllMeaning(nets[..n]);
      if CreateAll(nets[..n]).Err? {
        CreateAllErrors(nets[..n]);
        var e := CreateAll(nets).error;
        var k :| 0 <= k < n && AllUsable(nets[..n][..k]) && NewNet(nets[..n][k]) == Err(e);
        assert nets[..n][..k] == nets[..k];
        assert AllUsable(nets[..k]) && NewNet(nets[k]) == Err(e);
      } else if CreateAll(nets).Err? {
        assert AllUsable(nets[..n]) && NewNet(nets[n]) == Err(CreateAll(nets).error);
      }
    }
  }

  lemma CreateAllInv(nets: seq<Prefix>)
    requires DisjointNets(nets) && CreateAll(nets).Ok?
    ensures Inv(CreateAll(nets).value) && HeldAll(CreateAll(nets).value) == ReservedAll(CreateAll(nets).value)
    ensures Leases(CreateAll(nets).value) == {}
  {
    CreateAllMeaning(nets);
    var s := CreateAll(nets).value;
    forall i | 0 <= i < |s| ensures HeldPrefixes(s[i]) == ReservedPrefixes(s[i].prefix) {}
    assert Loose(s);
    forall q ensures q in HeldAll(s) <==> q in ReservedAll(s) {}
    InvIff(s);
  }

  /** The lease lies in a net, shares no address with another, and leaves out the reserved hosts. */
  ghost predicate SafeIn(nets: seq<Prefix>, leases: set<Prefix>, p: Prefix) {
    && (exists i :: 0 <= i < |nets| && Within(p, nets[i]))
    && (forall q :: q in leases && Share(p, q) ==> p == q)
    && (forall i :: 0 <= i < |nets| ==>
          !Contains(p, nets[i].addr) && (nets[i].addr.family.V4? ==> !Contains(p, LastAddr(nets[i]))))
  }

  lemma SafeInNets(s: State, nets: seq<Prefix>, leases: set<Prefix>, p: Prefix)
    requires |s| == |nets| && forall i :: 0 <= i < |nets| ==> s[i].prefix == nets[i]
    requires exists i :: 0 <= i < |s| && Within(p, s[i].prefix)
    requires forall q :: q in leases && Share(p, q) ==> p == q
    requires forall i :: 0 <= i < |s| ==>
               !Contains(p, s[i].prefix.addr) && (s[i].prefix.addr.family.V4? ==> !Contains(p, LastAddr(s[i].prefix)))
    ensures SafeIn(nets, leases, p)
  {
    var i :| 0 <= i < |s| && Within(p, s[i].prefix);
    assert Within(p, nets[i]);
  }

  /** From new trees for disjoint nets, whatever callers reserve, assign and give back: the leases they
      count lie in the configured nets, share no address and leave out the reserved hosts. */
  lemma EveryRunIsSafe(nets: seq<Prefix>, es: seq<Event>)
    requires DisjointNets(nets) && CreateAll(nets).Ok? && RunOk(CreateAll(nets).value, es)
    ensures var leases := Run({}, CreateAll(nets).value, es).0;
            forall p :: p in leases ==> SafeIn(nets, leases, p)
  {
    var s := CreateAll(nets).value;
    CreateAllMeaning(nets);
    CreateAllInv(nets);
    RunKeepsLedger({}, s, es);
    var (leases, u) := Run({}, s, es);
    assert |u| == |nets| && forall i :: 0 <= i < |nets| ==> u[i].prefix == nets[i];
    forall p | p in leases ensures SafeIn(nets, leases, p) {
      LeasesAreSafe(u, p);
      SafeInNets(u, nets, leases, p);
    }
  }

  /** The prefixes of the rows that may not overlap, host bits cleared. */
  function Exclusive(rows: seq<Row>): set<Prefix> {
    set r | r in rows && !r.mayOverlap :: Masked(r.prefix)
  }

  /** No two of the rows that may not overlap have the same prefix. */
  ghost predicate Distinct(rows: seq<Row>) {
    forall i, j :: 0 <= i < j < |rows| && !rows[i].mayOverlap && !rows[j].mayOverlap ==>
      Masked(rows[i].prefix) != Masked(rows[j].prefix)
  }

  ghost predicate ValidRows(rows: seq<Row>) {
    forall r :: r in rows ==> ValidPrefix(r.prefix)
  }

  lemma ExclusiveCons(r: Row, rows: seq<Row>)
    ensures Exclusive([r] + rows) == (if r.mayOverlap then {} else {Masked(r.prefix)}) + Exclusive(rows)
    ensures Distinct([r] + rows) <==> Distinct(rows) && (r.mayOverlap || Masked(r.prefix) !in Exclusive(rows))
  {
    var all := [r] + rows;
    forall i | 0 <= i < |rows| ensures all[i + 1] == rows[i] {}
    assert forall x :: x in all <==> x == r || x in rows;
    if Distinct(all) {
      forall x | x in rows && !x.mayOverlap && !r.mayOverlap ensures Masked(x.prefix) != Masked(r.prefix) {
        var i :| 0 <= i < |rows| && rows[i] == x;
        assert all[0] == r && all[i + 1] == x;
      }
      forall i, j | 0 <= i < j < |rows| && !rows[i].mayOverlap && !rows[j].mayOverlap
        ensures Masked(rows[i].prefix) != Masked(rows[j].prefix)
      {
        assert all[i + 1] == rows[i] && all[j + 1] == rows[j];
      }
    }
  }

  /** A prefix held by `goal` can be reserved in any state of the same nets holding less. */
  lemma ReserveTowards(s: State, goal: State, p: Prefix)
    requires Loose(s) && Loose(goal) && SameNets(s, goal) && HeldAll(s) <= HeldAll(goal)
    requires ValidPrefix(p) && Masked(p) in HeldAll(goal) && Masked(p) !in HeldAll(s)
    ensures Reserve(s, p).1.Ok?
  {
    ReserveErrors(s, p);
    ReserveErrorKinds(s, p, 0);
    var i := HeldHome(goal, Masked(p));
    WithinMasked(p, goal[i].prefix);
    assert Within(p, s[i].prefix);
    forall q | q in HeldAll(s) && Share(p, q) ensures false {
      var j := HeldHome(goal, q);
      ShareMasked(p, q);
      HeldDisjoint(goal, Masked(p), q);
    }
  }

  lemma ShareMasked(p: Prefix, q: Prefix)
    requires ValidPrefix(p) && Share(p, q)
    ensures Share(Masked(p), q)
  {
    ClearLow(p.addr.value, HostBits(p));
    var a :| ValidAddr(a) && Contains(p, a) && Contains(q, a);
    assert Contains(Masked(p), a);
  }

  /** Replaying rows that some state of the same nets can hold besides never fails, and holds just them more. */
  lemma {:induction false} ReplayHolds(s: State, goal: State, rows: seq<Row>)
    requires Loose(s) && Loose(goal) && SameNets(s, goal) && ValidRows(rows) && Distinct(rows)
    requires HeldAll(s) + Exclusive(rows) <= HeldAll(goal) && HeldAll(s) !! Exclusive(rows)
    ensures Replay(s, rows).Ok?
    ensures var u := Replay(s, rows).value;
            Loose(u) && SameNets(s, u) && HeldAll(u) == HeldAll(s) + Exclusive(rows)
    decreases |rows|
  {
    if rows == [] {
    } else {
      var r, rest := rows[0], rows[1..];
      assert rows == [r] + rest;
      ExclusiveCons(r, rest);
      if r.mayOverlap {
        ReplayHolds(s, goal, rest);
      } else {
        ReserveTowards(s, goal, r.prefix);
        ReserveMeaning(s, r.prefix);
        ReplayHolds(Reserve(s, r.prefix).0, goal, rest);
      }
    }
  }

  /** Rows that were replayed are all different, and just they are held more. */
  lemma {:induction false} ReplayMeaning(s: State, rows: seq<Row>)
    requires Loose(s) && ValidRows(rows) && Replay(s, rows).Ok?
    ensures Distinct(rows) && HeldAll(s) !! Exclusive(rows)
    ensures var u := Replay(s, rows).value;
            Loose(u) && SameNets(s, u) && HeldAll(u) == HeldAll(s) + Exclusive(rows)
    decreases |rows|
  {
    if rows == [] {
    } else {
      var r, rest := rows[0], rows[1..];
      assert rows == [r] + rest;
      ExclusiveCons(r, rest);
      if r.mayOverlap {
        ReplayMeaning(s, rest);
      } else {
        ReserveMeaning(s, r.prefix);
        ReplayMeaning(Reserve(s, r.prefix).0, rest);
      }
    }
  }

  /** Some net contains the prefix. */
  ghost predicate Housed(s: State, p: Prefix) {
    exists i :: 0 <= i < |s| && Within(p, s[i].prefix)
  }

  ghost predicate AllHoused(s: State, rows: seq<Row>) {
    forall r :: r in rows && !r.mayOverlap ==> Housed(s, r.prefix)
  }

  /** No exclusive row shares an address with one of the prefixes. */
  ghost predicate AllClear(rows: seq<Row>, held: set<Prefix>) {
    forall r, q :: r in rows && !r.mayOverlap && q in held ==> !Share(r.prefix, q)
  }

  /** No two exclusive rows share an address. */
  ghost predicate Apart(rows: seq<Row>) {
    forall i, j :: 0 <= i < j < |rows| && !rows[i].mayOverlap && !rows[j].mayOverlap ==>
      !Share(rows[i].prefix, rows[j].prefix)
  }

  ghost predicate NoneShares(p: Prefix, rows: seq<Row>) {
    forall x :: x in rows && !x.mayOverlap ==> !Share(p, x.prefix)
  }

  lemma ApartCons(r: Row, rows: seq<Row>)
    ensures Apart([r] + rows) <==> Apart(rows) && (r.mayOverlap || NoneShares(r.prefix, rows))
  {
    var all := [r] + rows;
    assert forall i :: 0 <= i < |rows| ==> all[i + 1] == rows[i];
    if Apart(all) {
      forall x | x in rows && !x.mayOverlap && !r.mayOverlap ensures !Share(r.prefix, x.prefix) {
        var i :| 0 <= i < |rows| && rows[i] == x;
        assert all[0] == r && all[i + 1] == x;
      }
      forall i, j | 0 <= i < j < |rows| && !rows[i].mayOverlap && !rows[j].mayOverlap
        ensures !Share(rows[i].prefix, rows[j].prefix)
      {
        assert all[i + 1] == rows[i] && all[j + 1] == rows[j];
      }
    }
  }

  lemma ReserveOkIff(s: State, p: Prefix)
    requires Loose(s) && ValidPrefix(p)
    ensures Reserve(s, p).1.Ok? <==> Housed(s, p) && forall q :: q in HeldAll(s) ==> !Share(p, q)
  {
    ReserveErrors(s, p);
    ReserveErrorKinds(s, p, 0);
  }

  lemma ShareMaskedIff(p: Prefix, q: Prefix)
    requires ValidPrefix(p)
    ensures Share(q, Masked(p)) <==> Share(p, q)
  {
    ClearLow(p.addr.value, HostBits(p));
    forall a | ValidAddr(a) ensures Contains(Masked(p), a) <==> Contains(p, a) {}
    if Share(q, Masked(p)) {
      var a :| ValidAddr(a) && Contains(q, a) && Contains(Masked(p), a);
      assert Contains(p, a);
    }
    if Share(p, q) {
      var a :| ValidAddr(a) && Contains(p, a) && Contains(q, a);
      assert Contains(Masked(p), a);
    }
  }

  /** One more held prefix, and what it takes for the rest of the rows. */
  lemma ClearOfOneMore(rows: seq<Row>, held: set<Prefix>, p: Prefix)
    requires ValidPrefix(p)
    ensures AllClear(rows, held + {Masked(p)}) <==> AllClear(rows, held) && NoneShares(p, rows)
  {
    forall r | r in rows ensures Share(r.prefix, Masked(p)) <==> Share(p, r.prefix) {
      ShareMaskedIff(p, r.prefix);
    }
    if AllClear(rows, held + {Masked(p)}) {
      forall x | x in rows && !x.mayOverlap ensures !Share(p, x.prefix) {
        assert Masked(p) in held + {Masked(p)};
      }
    }
  }

  lemma HousedInSameNets(s: State, u: State, p: Prefix)
    requires SameNets(s, u)
    ensures Housed(s, p) <==> Housed(u, p)
  {
    if Housed(s, p) {
      var i :| 0 <= i < |s| && Within(p, s[i].prefix);
      assert Within(p, u[i].prefix);
    }
    if Housed(u, p) {
      var i :| 0 <= i < |u| && Within(p, u[i].prefix);
      assert Within(p, s[i].prefix);
    }
  }

  /** A replay succeeds iff every exclusive row lies in a net and shares no address with what is held, nor
      with another exclusive row; the order of the rows does not matter. */
  lemma {:induction false} ReplayOkIff(s: State, rows: seq<Row>)
    requires Loose(s) && ValidRows(rows)
    ensures Replay(s, rows).Ok? <==> AllHoused(s, rows) && AllClear(rows, HeldAll(s)) && Apart(rows)
    decreases |rows|
  {
    if rows == [] {
    } else {
      var r, rest := rows[0], rows[1..];
      assert rows == [r] + rest;
      ApartCons(r, rest);
      if r.mayOverlap {
        ReplayOkIff(s, rest);
      } else {
        ReserveOkIff(s, r.prefix);
        if Reserve(s, r.prefix).1.Ok? {
          var u := Reserve(s, r.prefix).0;
          ReserveMeaning(s, r.prefix);
          ReplayOkIff(u, rest);
          ClearOfOneMore(rest, HeldAll(s), r.prefix);
          forall x | x in rest ensures Housed(s, x.prefix) <==> Housed(u, x.prefix) {
            HousedInSameNets(s, u, x.prefix);
          }
        }
      }
    }
  }

  /** Replaying what `goal` holds more leads to `goal`, in whatever order the rows come. */
  lemma ReplayReaches(s: State, goal: State, rows: seq<Row>)
    requires Loose(s) && Loose(goal) && SameNets(s, goal) && ValidRows(rows) && Distinct(rows)
    requires HeldAll(goal) == HeldAll(s) + Exclusive(rows) && HeldAll(s) !! Exclusive(rows)
    ensures Replay(s, rows) == Ok(goal)
  {
    ReplayHolds(s, goal, rows);
    SameHeldSameState(Replay(s, rows).value, goal);
  }

  function NetsOf(s: State): seq<Prefix> {
    seq(|s|, i requires 0 <= i < |s| => s[i].prefix)
  }

  lemma LooseNets(s: State)
    requires Loose(s)
    ensures DisjointNets(NetsOf(s)) && AllUsable(NetsOf(s))
  {
  }

  /** New trees for the nets of a service hold its reserved hosts. */
  lemma MadeAgain(s: State)
    requires Inv(s)
    ensures CreateAll(NetsOf(s)).Ok?
    ensures var made := CreateAll(NetsOf(s)).value;
            Loose(made) && SameNets(made, s) && HeldAll(made) == ReservedAll(s) <= HeldAll(s)
  {
    InvIff(s);
    LooseNets(s);
    CreateAllMeaning(NetsOf(s));
    CreateAllInv(NetsOf(s));
    ReservedOfSameNets(s, CreateAll(NetsOf(s)).value);
  }

  /** A restart from rows that are all leased never fails and leases just the rows; it rebuilds the
      very same trees iff nothing else was leased. */
  lemma RestartHolds(s: State, rows: seq<Row>)
    requires Inv(s) && ValidRows(rows) && Distinct(rows) && Exclusive(rows) <= Leases(s)
    ensures Restart(NetsOf(s), rows).Ok?
    ensures var u := Restart(NetsOf(s), rows).value;
            && Inv(u) && SameNets(s, u) && Leases(u) == Exclusive(rows)
            && (u == s <==> Exclusive(rows) == Leases(s))
  {
    InvIff(s);
    MadeAgain(s);
    var made := CreateAll(NetsOf(s)).value;
    ReplayHolds(made, s, rows);
    var u := Replay(made, rows).value;
    assert Restart(NetsOf(s), rows) == Ok(u);
    ReservedOfSameNets(s, u);
    InvIff(u);
    if Exclusive(rows) == Leases(s) {
      SameHeldSameState(u, s);
    }
  }

  /** A restart from all that is leased rebuilds the trees. */
  lemma RestartRestores(s: State, rows: seq<Row>)
    requires Inv(s) && ValidRows(rows) && Distinct(rows) && Exclusive(rows) == Leases(s)
    ensures Restart(NetsOf(s), rows) == Ok(s)
  {
    RestartHolds(s, rows);
  }

  /** Exclusive rows that are leased share no address. */
  lemma RowsApart(s: State, rows: seq<Row>, i: nat, j: nat)
    requires Inv(s) && ValidRows(rows) && Distinct(rows) && Exclusive(rows) <= Leases(s)
    requires i < j < |rows| && !rows[i].mayOverlap && !rows[j].mayOverlap
    ensures !Share(rows[i].prefix, rows[j].prefix)
  {
    var p, q := rows[i].prefix, rows[j].prefix;
    assert rows[i] in rows && rows[j] in rows;
    assert Masked(p) in Exclusive(rows) && Masked(q) in Exclusive(rows);
    if Share(p, q) {
      ShareMasked(p, q);
      ShareSymmetric(Masked(p), q);
      ShareMasked(q, Masked(p));
      ShareSymmetric(Masked(q), Masked(p));
      HeldDisjoint(s, Masked(p), Masked(q));
    }
  }

  lemma ShareSymmetric(p: Prefix, q: Prefix)
    ensures Share(p, q) <==> Share(q, p)
  {
  }
}
