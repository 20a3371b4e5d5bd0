/** The traffic history: the table `peer_stats` (sql/queries.sql), period queries (stats.go)
    and the rollup of old rows (stats_cache.go).

    A table is the sequence of its rows in the order of insertion. Among rows of one peer
    with the same timestamp `GetLastPeerStat` is taken to give the one inserted last. */
module History {
  import opened Tries

  /** A value of Go type `int64`: 2^64 too much or too little is dropped. */
  function Int64(x: int): (r: int)
    decreases if IsInt64(x) then 0 else if x < 0 then -x else x
  {
    if x >= 0x8000_0000_0000_0000 then Int64(x - 0x1_0000_0000_0000_0000)
    else if x < -0x8000_0000_0000_0000 then Int64(x + 0x1_0000_0000_0000_0000)
    else x
  }

  lemma OneMoreWord(x: int, r: int)
    requires (x - r) % 0x1_0000_0000_0000_0000 == 0
    ensures (x + 0x1_0000_0000_0000_0000 - r) % 0x1_0000_0000_0000_0000 == 0
    ensures (x - 0x1_0000_0000_0000_0000 - r) % 0x1_0000_0000_0000_0000 == 0
  {
  }

  lemma {:induction false} Int64Meaning(x: int)
    ensures IsInt64(Int64(x)) && (x - Int64(x)) % 0x1_0000_0000_0000_0000 == 0
    decreases if IsInt64(x) then 0 else if x < 0 then -x else x
  {
    if x >= 0x8000_0000_0000_0000 {
      Int64Meaning(x - 0x1_0000_0000_0000_0000);
      OneMoreWord(x - 0x1_0000_0000_0000_0000, Int64(x));
    } else if x < -0x8000_0000_0000_0000 {
      Int64Meaning(x + 0x1_0000_0000_0000_0000);
      OneMoreWord(x + 0x1_0000_0000_0000_0000, Int64(x));
    }
  }

  predicate IsInt64(x: int) {
    -0x8000_0000_0000_0000 <= x < 0x8000_0000_0000_0000
  }

  datatype Stat = Stat(ts: int, peer: int, rx: int, tx: int)

  type Table = seq<Stat>

  // ---------- The queries ----------

  /** `coalesce(timestamp_ms <= until, TRUE)`: without a bound every row is early enough. */
  predicate Until(ts: int, until: Option<int>) {
    until.None? || ts <= until.value
  }

  predicate Matches(r: Stat, peer: int, until: Option<int>) {
    r.peer == peer && Until(r.ts, until)
  }

  /** The later of two answers; of equally late ones the second. */
  function Later(a: Option<Stat>, b: Option<Stat>): Option<Stat> {
    if a.None? then b else if b.None? then a else if b.value.ts >= a.value.ts then b else a
  }

  /** `GetLastPeerStat`. */
  function LastPeerStat(t: Table, peer: int, until: Option<int>): Option<Stat> {
    if t == [] then None else
      var r := t[|t| - 1];
      Later(LastPeerStat(t[..|t| - 1], peer, until), if Matches(r, peer, until) then Some(r) else None)
  }

  /** `RemoveOldStats`: the rows that stay. */
  function Younger(t: Table, oldest: int): Table {
    if t == [] then [] else
      Younger(t[..|t| - 1], oldest) + if t[|t| - 1].ts > oldest then [t[|t| - 1]] else []
  }

  lemma {:induction false} LastIsLatest(t: Table, peer: int, until: Option<int>)
    ensures LastPeerStat(t, peer, until).None? <==> forall r :: r in t ==> !Matches(r, peer, until)
    ensures LastPeerStat(t, peer, until).Some? ==>
              var l := LastPeerStat(t, peer, until).value;
              && l in t && Matches(l, peer, until)
              && forall r :: r in t && Matches(r, peer, until) ==> r.ts <= l.ts
  {
    if t != [] {
      LastIsLatest(t[..|t| - 1], peer, until);
      assert t == t[..|t| - 1] + [t[|t| - 1]];
    }
  }

  lemma {:induction false} LastOfAppend(a: Table, b: Table, peer: int, until: Option<int>)
    ensures LastPeerStat(a + b, peer, until) == Later(LastPeerStat(a, peer, until), LastPeerStat(b, peer, until))
    decreases |b|
  {
    if b == [] {
      assert a + b == a;
    } else {
      assert (a + b)[..|a + b| - 1] == a + b[..|b| - 1];
      LastOfAppend(a, b[..|b| - 1], peer, until);
    }
  }

  // ---------- Rollup ----------

  /** The totals an answer stands for; a missing row reads as zero. */
  function TotalsOf(l: Option<Stat>): (int, int) {
    if l.Some? then (l.value.tx, l.value.rx) else (0, 0)
  }

  /** The totals at a bound. */
  function Totals(t: Table, peer: int, until: Option<int>): (int, int) {
    TotalsOf(LastPeerStat(t, peer, until))
  }

  /** The row that stands for everything a peer had up to `oldest`. */
  function Summary(t: Table, peer: int, oldest: int): Stat {
    var (tx, rx) := Totals(t, peer, Some(oldest));
    Stat(oldest, peer, rx, tx)
  }

  function Summaries(t: Table, peers: seq<int>, oldest: int): Table {
    seq(|peers|, i requires 0 <= i < |peers| => Summary(t, peers[i], oldest))
  }

  /** The table after `rollupOldStats`. */
  function Rolled(t: Table, peers: seq<int>, oldest: int): Table {
    Younger(t, oldest) + Summaries(t, peers, oldest)
  }

  /** A bound at or after the cut. */
  predicate Covers(until: Option<int>, oldest: int) {
    until.None? || until.value >= oldest
  }

  lemma {:induction false} YoungerRows(t: Table, oldest: int)
    ensures forall r :: r in Younger(t, oldest) <==> r in t && r.ts > oldest
  {
    if t != [] {
      YoungerRows(t[..|t| - 1], oldest);
      assert t == t[..|t| - 1] + [t[|t| - 1]];
    }
  }

  /** The last row under a bound after the cut is the last younger row, or else the last row up to the cut. */
  lemma {:induction false} LastSplits(t: Table, peer: int, until: Option<int>, oldest: int)
    requires Covers(until, oldest)
    ensures LastPeerStat(t, peer, until)
         == Later(LastPeerStat(t, peer, Some(oldest)), LastPeerStat(Younger(t, oldest), peer, until))
  {
    if t != [] {
      var r, init := t[|t| - 1], t[..|t| - 1];
      LastSplits(init, peer, until, oldest);
      LastOfAppend(Younger(init, oldest), if r.ts > oldest then [r] else [], peer, until);
      LastOfOne(r, peer, until);
      LastInTable(init, peer, Some(oldest));
      LastInTable(Younger(init, oldest), peer, until);
      YoungerRows(init, oldest);
    }
  }

  lemma LastOfOne(r: Stat, peer: int, until: Option<int>)
    ensures LastPeerStat([r], peer, until) == if Matches(r, peer, until) then Some(r) else None
  {
    assert [r][..0] == [];
  }

  lemma LastInTable(t: Table, peer: int, until: Option<int>)
    ensures LastPeerStat(t, peer, until).Some? ==>
              LastPeerStat(t, peer, until).value in t && Matches(LastPeerStat(t, peer, until).value, peer, until)
  {
    LastIsLatest(t, peer, until);
  }

  /** The last of rows that all equal `s` or do not match is `s`. */
  lemma LastOfCopies(t: Table, peer: int, until: Option<int>, s: Stat)
    requires s in t && Matches(s, peer, until) && forall r :: r in t && r.peer == peer ==> r == s
    ensures LastPeerStat(t, peer, until) == Some(s)
  {
    LastIsLatest(t, peer, until);
  }

  predicate UpTo(l: Option<Stat>, cut: int) {
    l.Some? ==> l.value.ts <= cut
  }

  /** The same answer, or two answers up to the cut with the same totals. */
  predicate Alike(a: Option<Stat>, b: Option<Stat>, cut: int) {
    a == b || (UpTo(a, cut) && UpTo(b, cut) && TotalsOf(a) == TotalsOf(b))
  }

  /** What a rollup leaves to be found: the last younger row, or else the summary of a listed peer. */
  lemma RolledLast(t: Table, peers: seq<int>, oldest: int, peer: int, until: Option<int>)
    requires Covers(until, oldest)
    ensures LastPeerStat(Rolled(t, peers, oldest), peer, until)
         == var young := LastPeerStat(Younger(t, oldest), peer, until);
            if young.Some? then young else if peer in peers then Some(Summary(t, peer, oldest)) else None
  {
    var young, sums := Younger(t, oldest), Summaries(t, peers, oldest);
    LastOfAppend(young, sums, peer, until);
    YoungerRows(t, oldest);
    LastInTable(young, peer, until);
    LastInTable(sums, peer, until);
    forall s | s in sums ensures s == Summary(t, s.peer, oldest) && s.peer in peers {}
    if peer in peers {
      var i :| 0 <= i < |peers| && peers[i] == peer;
      assert sums[i] == Summary(t, peer, oldest);
      LastOfCopies(sums, peer, until, Summary(t, peer, oldest));
    }
  }

  lemma RolledAlike(t: Table, peers: seq<int>, oldest: int, peer: int, until: Option<int>)
    requires peer in peers && Covers(until, oldest)
    ensures Alike(LastPeerStat(Rolled(t, peers, oldest), peer, until), LastPeerStat(t, peer, until), oldest)
  {
    RolledLast(t, peers, oldest, peer, until);
    LastSplits(t, peer, until, oldest);
    LastInTable(t, peer, Some(oldest));
    LastInTable(Younger(t, oldest), peer, until);
    YoungerRows(t, oldest);
  }

  /** After a rollup a listed peer's totals are as before at every bound from the cut on, and zero before it. */
  lemma RolledTotals(t: Table, peers: seq<int>, oldest: int, peer: int, until: Option<int>)
    requires peer in peers
    ensures Totals(Rolled(t, peers, oldest), peer, until)
         == if Covers(until, oldest) then Totals(t, peer, until) else (0, 0)
  {
    if Covers(until, oldest) {
      RolledAlike(t, peers, oldest, peer, until);
    } else {
      YoungerRows(t, oldest);
      LastInTable(Rolled(t, peers, oldest), peer, until);
    }
  }

  /** Rows not older than the cut are found alike behind alike answers. */
  lemma AlikeThenMore(a: Table, b: Table, more: Table, peer: int, until: Option<int>, cut: int)
    requires Alike(LastPeerStat(a, peer, until), LastPeerStat(b, peer, until), cut)
    requires forall r :: r in more ==> r.ts >= cut
    ensures Alike(LastPeerStat(a + more, peer, until), LastPeerStat(b + more, peer, until), cut)
  {
    LastOfAppend(a, more, peer, until);
    LastOfAppend(b, more, peer, until);
    LastInTable(more, peer, until);
  }

  /** Rolling up, storing later rows and rolling up again is rolling up once, at the later cut. */
  lemma RollupsCollapse(t: Table, peers: seq<int>, t1: int, more: Table, t2: int)
    requires t1 <= t2 && forall r :: r in more ==> r.ts >= t1
    ensures Rolled(Rolled(t, peers, t1) + more, peers, t2) == Rolled(t + more, peers, t2)
  {
    var once, never := Rolled(t, peers, t1) + more, t + more;
    YoungerAppend(Rolled(t, peers, t1), more, t2);
    YoungerOfRolled(t, peers, t1, t2);
    YoungerAppend(t, more, t2);
    forall i | 0 <= i < |peers| ensures Summary(once, peers[i], t2) == Summary(never, peers[i], t2) {
      RolledAlike(t, peers, t1, peers[i], Some(t2));
      AlikeThenMore(Rolled(t, peers, t1), t, more, peers[i], Some(t2), t1);
    }
    assert Summaries(once, peers, t2) == Summaries(never, peers, t2);
  }

  lemma YoungerOfRolled(t: Table, peers: seq<int>, t1: int, t2: int)
    requires t1 <= t2
    ensures Younger(Rolled(t, peers, t1), t2) == Younger(t, t2)
  {
    YoungerAppend(Younger(t, t1), Summaries(t, peers, t1), t2);
    YoungerTwice(t, t1, t2);
    NoneYounger(Summaries(t, peers, t1), t2);
  }

  lemma {:induction false} YoungerAppend(a: Table, b: Table, oldest: int)
    ensures Younger(a + b, oldest) == Younger(a, oldest) + Younger(b, oldest)
    decreases |b|
  {
    if b == [] {
      assert a + b == a;
    } else {
      assert (a + b)[..|a + b| - 1] == a + b[..|b| - 1];
      YoungerAppend(a, b[..|b| - 1], oldest);
    }
  }

  lemma {:induction false} YoungerTwice(t: Table, t1: int, t2: int)
    requires t1 <= t2
    ensures Younger(Younger(t, t1), t2) == Younger(t, t2)
  {
    if t != [] {
      var r, init := t[|t| - 1], t[..|t| - 1];
      YoungerTwice(init, t1, t2);
      YoungerAppend(Younger(init, t1), if r.ts > t1 then [r] else [], t2);
      assert [r][..0] == [];
    }
  }

  lemma {:induction false} NoneYounger(t: Table, oldest: int)
    requires forall r :: r in t ==> r.ts <= oldest
    ensures Younger(t, oldest) == []
  {
    if t != [] {
      NoneYounger(t[..|t| - 1], oldest);
    }
  }

  /** After a rollup each listed peer has exactly one row up to the cut. */
  lemma OneRowEach(t: Table, peers: seq<int>, oldest: int, i: nat)
    requires i < |peers| && forall a, b :: 0 <= a < b < |peers| ==> peers[a] != peers[b]
    ensures exists k :: 0 <= k < |Rolled(t, peers, oldest)|
                     && Rolled(t, peers, oldest)[k] == Summary(t, peers[i], oldest)
                     && forall m :: 0 <= m < |Rolled(t, peers, oldest)| && m != k ==>
                          !Matches(Rolled(t, peers, oldest)[m], peers[i], Some(oldest))
  {
    var young, sums, all := Younger(t, oldest), Summaries(t, peers, oldest), Rolled(t, peers, oldest);
    var k := |young| + i;
    assert all[k] == sums[i];
    YoungerRows(t, oldest);
    forall m | 0 <= m < |all| && m != k ensures !Matches(all[m], peers[i], Some(oldest)) {
      if m < |young| {
        assert all[m] in young;
      } else {
        assert all[m] == sums[m - |young|];
      }
    }
  }

  // ---------- Period queries ----------

  /** `getPeerStats`: traffic between two bounds, both included; `to == 0` means no upper bound. */
  function PeerStats(t: Table, peer: int, from: int, to: int): (int, int) {
    var (tx1, rx1) := Totals(t, peer, Some(Int64(from - 1)));
    var (tx2, rx2) := Totals(t, peer, if to == 0 then None else Some(to));
    (Int64(tx2 - tx1), Int64(rx2 - rx1))
  }

  /** The row at index `k` is the peer's latest under the bound: of equally late ones the one stored last. */
  ghost predicate Latest(t: Table, peer: int, until: Option<int>, k: int) {
    && 0 <= k < |t| && t[k].peer == peer && (until.Some? ==> t[k].ts <= until.value)
    && forall j :: 0 <= j < |t| && j != k && t[j].peer == peer && (until.Some? ==> t[j].ts <= until.value) ==>
         t[j].ts < t[k].ts || (t[j].ts == t[k].ts && j < k)
  }

  /** The totals that can be read under the bound: those of the latest row, or zero if there is none. */
  ghost predicate Reads(t: Table, peer: int, until: Option<int>, tx: int, rx: int) {
    || (exists k :: Latest(t, peer, until, k) && t[k].tx == tx && t[k].rx == rx)
    || ((forall r :: r in t && r.peer == peer ==> until.Some? && r.ts > until.value) && tx == 0 && rx == 0)
  }

  lemma {:induction false} LatestFound(t: Table, peer: int, until: Option<int>) returns (k: nat)
    requires LastPeerStat(t, peer, until).Some?
    ensures Latest(t, peer, until, k) && t[k] == LastPeerStat(t, peer, until).value
    decreases |t|
  {
    var init, r := t[..|t| - 1], t[|t| - 1];
    assert forall j :: 0 <= j < |init| ==> t[j] == init[j] && t[j] in init;
    LastIsLatest(init, peer, until);
    if LastPeerStat(init, peer, until).Some? {
      var j := LatestFound(init, peer, until);
      k := if Matches(r, peer, until) && r.ts >= init[j].ts then |t| - 1 else j;
    } else {
      k := |t| - 1;
    }
  }

  /** `GetLastPeerStat` gives what can be read, and nothing else can. */
  lemma ReadsIffTotals(t: Table, peer: int, until: Option<int>, tx: int, rx: int)
    ensures Reads(t, peer, until, tx, rx) <==>
              var l := LastPeerStat(t, peer, until);
              if l.Some? then (l.value.tx, l.value.rx) == (tx, rx) else tx == rx == 0
  {
    LastIsLatest(t, peer, until);
    if LastPeerStat(t, peer, until).Some? {
      var k := LatestFound(t, peer, until);
      forall j | Latest(t, peer, until, j) ensures j == k {}
      assert t[k] in t;
    }
  }

  /** The answer about a period: what can be read at its end less what can be read before it, the first
      component in `tx` and the second in `rx`. */
  lemma PeerStatsRead(t: Table, peer: int, from: int, to: int, before: Stat, end: Stat)
    requires Reads(t, peer, Some(Int64(from - 1)), before.tx, before.rx)
    requires Reads(t, peer, if to == 0 then None else Some(to), end.tx, end.rx)
    ensures PeerStats(t, peer, from, to) == (Int64(end.tx - before.tx), Int64(end.rx - before.rx))
  {
    ReadsIffTotals(t, peer, Some(Int64(from - 1)), before.tx, before.rx);
    ReadsIffTotals(t, peer, if to == 0 then None else Some(to), end.tx, end.rx);
  }

  // ---------- Traffic as growth ----------

  ghost predicate TimeOrdered(t: Table) {
    forall i, j :: 0 <= i < j < |t| ==> t[i].ts <= t[j].ts
  }

  /** The row of the peer that was stored last; before the first one everything is zero. */
  function LastStored(t: Table, peer: int): Stat {
    if t == [] then Stat(0, peer, 0, 0)
    else if t[|t| - 1].peer == peer then t[|t| - 1]
    else LastStored(t[..|t| - 1], peer)
  }

  /** How much each row of the peer in the period grew over the one stored before it, summed up. */
  function Grown(t: Table, peer: int, after: int, until: Option<int>): (int, int) {
    if t == [] then (0, 0) else
      var init, r := t[..|t| - 1], t[|t| - 1];
      var (tx, rx) := Grown(init, peer, after, until);
      var last := LastStored(init, peer);
      if r.peer == peer && after < r.ts && (until.Some? ==> r.ts <= until.value)
      then (tx + (r.tx - last.tx), rx + (r.rx - last.rx))
      else (tx, rx)
  }

  /** In time order the row stored last wins if it matches. */
  lemma LastInOrder(t: Table, peer: int, until: Option<int>)
    requires TimeOrdered(t) && t != []
    ensures var init, r := t[..|t| - 1], t[|t| - 1];
            && TimeOrdered(init)
            && LastPeerStat(t, peer, until)
               == if Matches(r, peer, until) then Some(r) else LastPeerStat(init, peer, until)
  {
    LastInTable(t[..|t| - 1], peer, until);
  }

  /** Under a bound that all rows keep that is the one stored last. */
  lemma {:induction false} LastIsStored(t: Table, peer: int, until: Option<int>)
    requires TimeOrdered(t) && (t != [] && until.Some? ==> t[|t| - 1].ts <= until.value)
    ensures Totals(t, peer, until) == (LastStored(t, peer).tx, LastStored(t, peer).rx)
    decreases |t|
  {
    if t == [] {
    } else {
      LastInOrder(t, peer, until);
      LastIsStored(t[..|t| - 1], peer, until);
    }
  }

  lemma {:induction false} TotalsAreGrowth(t: Table, peer: int, after: int, until: Option<int>)
    requires TimeOrdered(t) && Before(Some(after), until)
    ensures var ((tx1, rx1), (tx2, rx2)) := (Totals(t, peer, Some(after)), Totals(t, peer, until));
            Grown(t, peer, after, until) == (tx2 - tx1, rx2 - rx1)
    decreases |t|
  {
    if t == [] {
    } else {
      var init, r := t[..|t| - 1], t[|t| - 1];
      LastInOrder(t, peer, Some(after));
      LastInOrder(t, peer, until);
      TotalsAreGrowth(init, peer, after, until);
      if r.ts <= after {
        LastIsStored(init, peer, Some(after));
        LastIsStored(init, peer, until);
      } else if Until(r.ts, until) {
        LastIsStored(init, peer, until);
      }
    }
  }

  /** For rows stored in time order the answer about a period that does not end before it begins is the
      growth, in `tx` and in `rx`, of the peer's rows in it. */
  lemma PeerStatsGrow(t: Table, peer: int, from: int, to: int)
    requires TimeOrdered(t) && (to == 0 || Int64(from - 1) <= to)
    ensures var (tx, rx) := Grown(t, peer, Int64(from - 1), if to == 0 then None else Some(to));
            PeerStats(t, peer, from, to) == (Int64(tx), Int64(rx))
  {
    TotalsAreGrowth(t, peer, Int64(from - 1), if to == 0 then None else Some(to));
  }

  /** The periods a rollup at `oldest` leaves alone: those with both bounds from the cut on,
      and the empty ones. */
  predicate KeptPeriod(from: int, to: int, oldest: int) {
    || (Int64(from - 1) >= oldest && (to == 0 || to >= oldest))
    || (to != 0 && to == Int64(from - 1))
  }

  /** A rollup changes no answer about such a period. */
  lemma RollupKeepsPeriods(t: Table, peers: seq<int>, oldest: int, peer: int, from: int, to: int)
    requires peer in peers && KeptPeriod(from, to, oldest)
    ensures PeerStats(Rolled(t, peers, oldest), peer, from, to) == PeerStats(t, peer, from, to)
  {
    RolledTotals(t, peers, oldest, peer, Some(Int64(from - 1)));
    RolledTotals(t, peers, oldest, peer, if to == 0 then None else Some(to));
  }

  /** Of every other period some history gets a different answer. */
  lemma RollupLosesOthers(peers: seq<int>, oldest: int, peer: int, from: int, to: int) returns (t: Table)
    requires peer in peers && IsInt64(to) && !KeptPeriod(from, to, oldest)
    ensures PeerStats(Rolled(t, peers, oldest), peer, from, to) != PeerStats(t, peer, from, to)
  {
    var start := Int64(from - 1);
    // one row of traffic 1, at the bound that the rollup forgets
    var at := if start < oldest && !(to != 0 && start < to < oldest) then start else to;
    var r := Stat(at, peer, 1, 1);
    t := [r];
    RolledTotals(t, peers, oldest, peer, Some(start));
    RolledTotals(t, peers, oldest, peer, if to == 0 then None else Some(to));
    LastOfOne(r, peer, Some(start));
    LastOfOne(r, peer, if to == 0 then None else Some(to));
  }

  /** A rollup keeps the answers of a period for every history iff the period is one of those. */
  lemma RollupKeepsIff(peers: seq<int>, oldest: int, peer: int, from: int, to: int)
    requires peer in peers && IsInt64(to)
    ensures KeptPeriod(from, to, oldest) <==>
              forall t :: PeerStats(Rolled(t, peers, oldest), peer, from, to) == PeerStats(t, peer, from, to)
  {
    if KeptPeriod(from, to, oldest) {
      forall t ensures PeerStats(Rolled(t, peers, oldest), peer, from, to) == PeerStats(t, peer, from, to) {
        RollupKeepsPeriods(t, peers, oldest, peer, from, to);
      }
    } else {
      var t := RollupLosesOthers(peers, oldest, peer, from, to);
    }
  }

  /** Two adjacent periods, the second from `mid + 1`, add up to the whole. */
  ghost predicate Telescopes(t: Table, peer: int, from: int, mid: int, to: int) {
    var (tx1, rx1) := PeerStats(t, peer, from, mid);
    var (tx2, rx2) := PeerStats(t, peer, Int64(mid + 1), to);
    PeerStats(t, peer, from, to) == (Int64(tx1 + tx2), Int64(rx1 + rx2))
  }

  lemma Int64Period(x: int)
    ensures Int64(x + 0x1_0000_0000_0000_0000) == Int64(x)
  {
  }

  lemma {:induction false} Int64Add(a: int, b: int)
    ensures Int64(Int64(a) + b) == Int64(a + b)
    decreases if IsInt64(a) then 0 else if a < 0 then -a else a
  {
    if a >= 0x8000_0000_0000_0000 {
      Int64Add(a - 0x1_0000_0000_0000_0000, b);
      Int64Period(a - 0x1_0000_0000_0000_0000 + b);
    } else if a < -0x8000_0000_0000_0000 {
      Int64Add(a + 0x1_0000_0000_0000_0000, b);
      Int64Period(a + b);
    }
  }

  lemma Int64Sum(a: int, b: int)
    ensures Int64(Int64(a) + Int64(b)) == Int64(a + b)
  {
    Int64Add(a, Int64(b));
    Int64Add(b, a);
  }

  lemma Int64Back(x: int)
    requires IsInt64(x)
    ensures Int64(Int64(x + 1) - 1) == x
  {
    Int64Add(x + 1, -1);
  }

  lemma PeriodsAddUp(t: Table, peer: int, from: int, mid: int, to: int)
    requires IsInt64(mid) && mid != 0
    ensures Telescopes(t, peer, from, mid, to)
  {
    Int64Back(mid);
    var (tx0, rx0) := Totals(t, peer, Some(Int64(from - 1)));
    var (tx1, rx1) := Totals(t, peer, Some(mid));
    var (tx2, rx2) := Totals(t, peer, if to == 0 then None else Some(to));
    Int64Sum(tx1 - tx0, tx2 - tx1);
    Int64Sum(rx1 - rx0, rx2 - rx1);
  }

  /** With 0 as the inner bound the first part counts everything, and one later row is counted twice. */
  lemma ZeroBoundDoubles(peer: int, from: int, to: int)
    requires IsInt64(from) && IsInt64(to)
    ensures !Telescopes([Stat(1, peer, 1, 1)], peer, from, 0, to)
  {
    var r := Stat(1, peer, 1, 1);
    LastOfOne(r, peer, None);
    LastOfOne(r, peer, Some(0));
    LastOfOne(r, peer, Some(to));
    LastOfOne(r, peer, Some(Int64(from - 1)));
  }

  /** For every history periods add up iff the inner bound is not the 0 that means "no bound". */
  lemma TelescopesIff(peer: int, from: int, mid: int, to: int)
    requires IsInt64(from) && IsInt64(mid) && IsInt64(to)
    ensures mid != 0 <==> forall t :: Telescopes(t, peer, from, mid, to)
  {
    if mid != 0 {
      forall t ensures Telescopes(t, peer, from, mid, to) {
        PeriodsAddUp(t, peer, from, mid, to);
      }
    } else {
      ZeroBoundDoubles(peer, from, to);
    }
  }

  /** A row with totals that can be: not negative, and in words. */
  predicate Countable(r: Stat) {
    0 <= r.tx && 0 <= r.rx && IsInt64(r.tx) && IsInt64(r.rx)
  }

  predicate AtMost(a: Stat, b: Stat) {
    a.tx <= b.tx && a.rx <= b.rx
  }

  /** The row stored next has totals no smaller than the peer's rows up to its time, and no greater than
      those after it. */
  ghost predicate Continues(t: Table, r: Stat) {
    forall x :: x in t && x.peer == r.peer ==> (x.ts <= r.ts ==> AtMost(x, r)) && (r.ts < x.ts ==> AtMost(r, x))
  }

  /** Stored totals never fall over time; of rows with one timestamp the last is the greatest. */
  ghost predicate Monotone(t: Table) {
    t == [] ||
    var init, r := t[..|t| - 1], t[|t| - 1];
    Monotone(init) && Countable(r) && Continues(init, r)
  }

  lemma MonotoneSnoc(t: Table, r: Stat)
    ensures Monotone(t + [r]) <==> Monotone(t) && Countable(r) && Continues(t, r)
  {
    assert (t + [r])[..|t + [r]| - 1] == t;
  }

  lemma {:induction false} AllCountable(t: Table)
    requires Monotone(t)
    ensures forall r :: r in t ==> Countable(r)
  {
    if t == [] {
    } else {
      AllCountable(t[..|t| - 1]);
      assert t == t[..|t| - 1] + [t[|t| - 1]];
    }
  }

  /** Of two rows of a peer the earlier one has the smaller totals. */
  lemma {:induction false} EarlierIsLess(t: Table, a: Stat, b: Stat)
    requires Monotone(t) && a in t && b in t && a.peer == b.peer && a.ts < b.ts
    ensures AtMost(a, b)
    decreases |t|
  {
    var init, r := t[..|t| - 1], t[|t| - 1];
    assert t == init + [r];
    if a in init && b in init {
      EarlierIsLess(init, a, b);
    }
  }

  /** The first bound is not after the second. */
  predicate Before(a: Option<int>, b: Option<int>) {
    b.None? || (a.Some? && a.value <= b.value)
  }

  /** Totals only grow with the bound. */
  lemma {:induction false} TotalsGrow(t: Table, peer: int, a: Option<int>, b: Option<int>)
    requires Monotone(t) && Before(a, b)
    ensures var (x, y) := (LastPeerStat(t, peer, a), LastPeerStat(t, peer, b));
            && (x.Some? ==> y.Some? && AtMost(x.value, y.value) && x.value.ts <= y.value.ts)
    decreases |t|
  {
    if t == [] {
    } else {
      var init, r := t[..|t| - 1], t[|t| - 1];
      TotalsGrow(init, peer, a, b);
      LastInTable(init, peer, a);
      LastInTable(init, peer, b);
    }
  }

  lemma TrafficNotNegative(t: Table, peer: int, from: int, to: int)
    requires Monotone(t) && (to == 0 || Int64(from - 1) <= to)
    ensures PeerStats(t, peer, from, to).0 >= 0 && PeerStats(t, peer, from, to).1 >= 0
  {
    var a, b := Some(Int64(from - 1)), if to == 0 then None else Some(to);
    TotalsGrow(t, peer, a, b);
    LastInTable(t, peer, a);
    LastInTable(t, peer, b);
    AllCountable(t);
  }

  /** On every such history a period has no negative traffic, iff it does not end before it begins. */
  lemma TrafficNotNegativeIff(peer: int, from: int, to: int)
    ensures to == 0 || Int64(from - 1) <= to <==>
              forall t :: Monotone(t) ==> PeerStats(t, peer, from, to).0 >= 0 && PeerStats(t, peer, from, to).1 >= 0
  {
    if to == 0 || Int64(from - 1) <= to {
      forall t | Monotone(t) ensures PeerStats(t, peer, from, to).0 >= 0 && PeerStats(t, peer, from, to).1 >= 0 {
        TrafficNotNegative(t, peer, from, to);
      }
    } else {
      var start := Int64(from - 1);
      var r := Stat(start, peer, 1, 1);
      LastOfOne(r, peer, Some(start));
      LastOfOne(r, peer, Some(to));
      MonotoneSnoc([], r);
      assert [] + [r] == [r] && Monotone([r]);
      assert PeerStats([r], peer, from, to).0 == -1;
    }
  }

  // ---------- Whole runs ----------

  datatype Change = Insert(row: Stat) | Rollup(peers: seq<int>, oldest: int)

  /** The table after storing rows and rolling up, in order. */
  function After(t: Table, cs: seq<Change>): Table {
    if cs == [] then t else
      var init := After(t, cs[..|cs| - 1]);
      match cs[|cs| - 1]
      case Insert(r) => init + [r]
      case Rollup(peers, oldest) => Rolled(init, peers, oldest)
  }

  /** The table as it would be without rollups. */
  function Logged(t: Table, cs: seq<Change>): Table {
    if cs == [] then t else
      var init := Logged(t, cs[..|cs| - 1]);
      match cs[|cs| - 1]
      case Insert(r) => init + [r]
      case Rollup(_, _) => init
  }

  /** The cut of the last rollup, or `first` if there was none. */
  function LastCut(first: int, cs: seq<Change>): int {
    if cs == [] then first else
      match cs[|cs| - 1]
      case Insert(_) => LastCut(first, cs[..|cs| - 1])
      case Rollup(_, oldest) => oldest
  }

  /** Time runs forward: neither rows nor cuts are older than the last cut, the first one being `first`. */
  predicate InTime(first: int, cs: seq<Change>) {
    cs == [] ||
    var cut := LastCut(first, cs[..|cs| - 1]);
    && InTime(first, cs[..|cs| - 1])
    && (match cs[|cs| - 1]
        case Insert(r) => r.ts >= cut
        case Rollup(_, oldest) => oldest >= cut)
  }

  /** Every rollup lists the peer, unless it has no rows up to the cut. */
  ghost predicate AlwaysListed(t: Table, cs: seq<Change>, peer: int) {
    cs == [] ||
    (&& AlwaysListed(t, cs[..|cs| - 1], peer)
     && (cs[|cs| - 1].Rollup? ==>
           || peer in cs[|cs| - 1].peers
           || forall r :: r in Logged(t, cs[..|cs| - 1]) && r.peer == peer ==> r.ts > cs[|cs| - 1].oldest))
  }

  /** One more rollup, of tables that answer alike so far. */
  lemma RollupStaysAlike(a: Table, b: Table, peers: seq<int>, cut: int, oldest: int, peer: int, until: Option<int>)
    requires cut <= oldest && Covers(until, oldest)
    requires Alike(LastPeerStat(a, peer, until), LastPeerStat(b, peer, until), cut)
    requires peer in peers || forall r :: r in b && r.peer == peer ==> r.ts > oldest
    ensures Alike(LastPeerStat(Rolled(a, peers, oldest), peer, until), LastPeerStat(b, peer, until), oldest)
  {
    RolledLast(a, peers, oldest, peer, until);
    LastSplits(a, peer, until, oldest);
    LastInTable(a, peer, Some(oldest));
    LastInTable(Younger(a, oldest), peer, until);
    YoungerRows(a, oldest);
    LastInTable(b, peer, until);
  }

  lemma {:induction false} RunStaysAlike(t: Table, first: int, cs: seq<Change>, peer: int, until: Option<int>)
    requires InTime(first, cs) && AlwaysListed(t, cs, peer) && Covers(until, LastCut(first, cs))
    ensures Alike(LastPeerStat(After(t, cs), peer, until), LastPeerStat(Logged(t, cs), peer, until), LastCut(first, cs))
    decreases |cs|
  {
    if cs == [] {
    } else {
      var init := cs[..|cs| - 1];
      RunStaysAlike(t, first, init, peer, until);
      match cs[|cs| - 1]
      case Insert(r) => AlikeThenMore(After(t, init), Logged(t, init), [r], peer, until, LastCut(first, init));
      case Rollup(peers, oldest) =>
        RollupStaysAlike(After(t, init), Logged(t, init), peers, LastCut(first, init), oldest, peer, until);
    }
  }

  /** After any run of stored rows and rollups a period from the last cut on, or an empty one, is
      answered as if there had been no rollup. */
  lemma RunKeepsPeriods(t: Table, first: int, cs: seq<Change>, peer: int, from: int, to: int)
    requires InTime(first, cs) && AlwaysListed(t, cs, peer) && KeptPeriod(from, to, LastCut(first, cs))
    ensures PeerStats(After(t, cs), peer, from, to) == PeerStats(Logged(t, cs), peer, from, to)
  {
    if to == 0 || to != Int64(from - 1) {
      RunStaysAlike(t, first, cs, peer, Some(Int64(from - 1)));
      RunStaysAlike(t, first, cs, peer, if to == 0 then None else Some(to));
    }
  }

  lemma {:induction false} YoungerOfRun(t: Table, first: int, cs: seq<Change>, cut: int)
    requires InTime(first, cs) && LastCut(first, cs) <= cut
    ensures Younger(After(t, cs), cut) == Younger(Logged(t, cs), cut)
    decreases |cs|
  {
    if cs == [] {
    } else {
      var init := cs[..|cs| - 1];
      YoungerOfRun(t, first, init, cut);
      match cs[|cs| - 1]
      case Insert(r) =>
        YoungerAppend(After(t, init), [r], cut);
        YoungerAppend(Logged(t, init), [r], cut);
      case Rollup(peers, oldest) =>
        YoungerOfRolled(After(t, init), peers, oldest, cut);
    }
  }

  /** All rollups of a run collapse into the last one: it leaves the table that a single rollup
      of all rows ever stored leaves. */
  lemma RunCollapses(t: Table, first: int, cs: seq<Change>, peers: seq<int>, oldest: int)
    requires InTime(first, cs) && LastCut(first, cs) <= oldest
    requires forall p :: p in peers ==> AlwaysListed(t, cs, p)
    ensures Rolled(After(t, cs), peers, oldest) == Rolled(Logged(t, cs), peers, oldest)
  {
    YoungerOfRun(t, first, cs, oldest);
    forall i | 0 <= i < |peers|
      ensures Summary(After(t, cs), peers[i], oldest) == Summary(Logged(t, cs), peers[i], oldest)
    {
      RunStaysAlike(t, first, cs, peers[i], Some(oldest));
    }
    assert Summaries(After(t, cs), peers, oldest) == Summaries(Logged(t, cs), peers, oldest);
  }

  // ---------- Rollups keep totals growing ----------

  lemma {:induction false} YoungerMonotone(t: Table, oldest: int)
    requires Monotone(t)
    ensures Monotone(Younger(t, oldest))
  {
    if t == [] {
    } else {
      var init, r := t[..|t| - 1], t[|t| - 1];
      YoungerMonotone(init, oldest);
      YoungerRows(init, oldest);
      MonotoneSnoc(Younger(init, oldest), r);
      assert Younger(t, oldest) == if r.ts > oldest then Younger(init, oldest) + [r] else Younger(init, oldest) + [];
      assert Younger(init, oldest) + [] == Younger(init, oldest);
    }
  }

  /** A summary is no greater than any younger row of its peer. */
  lemma SummaryBelow(t: Table, peer: int, oldest: int, x: Stat)
    requires Monotone(t) && x in t && x.peer == peer && x.ts > oldest
    ensures Countable(Summary(t, peer, oldest)) && AtMost(Summary(t, peer, oldest), x)
  {
    AllCountable(t);
    LastInTable(t, peer, Some(oldest));
    var l := LastPeerStat(t, peer, Some(oldest));
    if l.Some? {
      EarlierIsLess(t, l.value, x);
    }
  }

  /** A summary continues the younger rows and summaries before it. */
  lemma SummaryContinues(t: Table, peers: seq<int>, oldest: int, peer: int)
    requires Monotone(t)
    ensures Countable(Summary(t, peer, oldest))
    ensures Continues(Younger(t, oldest) + Summaries(t, peers, oldest), Summary(t, peer, oldest))
  {
    var young, sums, s := Younger(t, oldest), Summaries(t, peers, oldest), Summary(t, peer, oldest);
    YoungerRows(t, oldest);
    AllCountable(t);
    LastInTable(t, peer, Some(oldest));
    forall x | x in young && x.peer == peer ensures s.ts < x.ts && AtMost(s, x) {
      SummaryBelow(t, peer, oldest, x);
    }
    forall x | x in sums && x.peer == peer ensures x == s {}
  }

  lemma SummariesSnoc(t: Table, init: seq<int>, peer: int, oldest: int)
    ensures Summaries(t, init + [peer], oldest) == Summaries(t, init, oldest) + [Summary(t, peer, oldest)]
  {
  }

  lemma {:induction false} SummariesContinue(t: Table, peers: seq<int>, oldest: int)
    requires Monotone(t)
    ensures Monotone(Younger(t, oldest) + Summaries(t, peers, oldest))
    decreases |peers|
  {
    var young := Younger(t, oldest);
    if peers == [] {
      YoungerMonotone(t, oldest);
      assert young + Summaries(t, peers, oldest) == young;
    } else {
      var init, peer := peers[..|peers| - 1], peers[|peers| - 1];
      SummariesContinue(t, init, oldest);
      SummaryContinues(t, init, oldest, peer);
      var rows, s := young + Summaries(t, init, oldest), Summary(t, peer, oldest);
      assert young + Summaries(t, peers, oldest) == rows + [s] by {
        assert peers == init + [peer];
        SummariesSnoc(t, init, peer, oldest);
      }
      MonotoneSnoc(rows, s);
    }
  }

  lemma RolledMonotone(t: Table, peers: seq<int>, oldest: int)
    requires Monotone(t)
    ensures Monotone(Rolled(t, peers, oldest))
  {
    SummariesContinue(t, peers, oldest);
  }

  /** Where a row of the rolled-up table comes from: it is one that was stored, or a summary up to the
      last cut; and its totals are zero or those of a stored row no later than it. */
  ghost predicate Stems(log: Table, cut: int, x: Stat) {
    && (x in log || x.ts <= cut)
    && ((x.tx == 0 && x.rx == 0)
        || exists o :: o in log && o.peer == x.peer && o.ts <= x.ts && o.tx == x.tx && o.rx == x.rx)
  }

  lemma StemsLater(log: Table, more: Table, cut: int, next: int, x: Stat)
    requires Stems(log, cut, x) && cut <= next
    ensures Stems(log + more, next, x)
  {
  }

  lemma {:induction false} RowsStem(t: Table, first: int, cs: seq<Change>, x: Stat)
    requires InTime(first, cs) && x in After(t, cs)
    ensures Stems(Logged(t, cs), LastCut(first, cs), x)
    decreases |cs|
  {
    if cs == [] {
    } else {
      var init := cs[..|cs| - 1];
      var log, cut := Logged(t, init), LastCut(first, init);
      match cs[|cs| - 1]
      case Insert(r) =>
        if x in After(t, init) {
          RowsStem(t, first, init, x);
          StemsLater(log, [r], cut, cut, x);
        }
      case Rollup(peers, oldest) =>
        YoungerRows(After(t, init), oldest);
        if x in Younger(After(t, init), oldest) {
          RowsStem(t, first, init, x);
          assert log + [] == log;
          StemsLater(log, [], cut, oldest, x);
        } else {
          forall l | l in After(t, init) ensures Stems(log, cut, l) {
            RowsStem(t, first, init, l);
          }
          SummaryStems(t, first, init, oldest, x.peer);
        }
    }
  }

  lemma SummaryStems(t: Table, first: int, init: seq<Change>, oldest: int, peer: int)
    requires InTime(first, init)
    requires forall l :: l in After(t, init) ==> Stems(Logged(t, init), LastCut(first, init), l)
    ensures Stems(Logged(t, init), oldest, Summary(After(t, init), peer, oldest))
  {
    LastInTable(After(t, init), peer, Some(oldest));
  }

  /** If the rows ever stored have growing totals, so has the table after any run of rollups. */
  lemma {:induction false} RunMonotone(t: Table, first: int, cs: seq<Change>)
    requires InTime(first, cs) && Monotone(Logged(t, cs))
    ensures Monotone(After(t, cs))
    decreases |cs|
  {
    if cs == [] {
    } else {
      var init := cs[..|cs| - 1];
      match cs[|cs| - 1]
      case Insert(r) =>
        MonotoneSnoc(Logged(t, init), r);
        RunMonotone(t, first, init);
        forall x | x in After(t, init) && x.peer == r.peer
          ensures (x.ts <= r.ts ==> AtMost(x, r)) && (r.ts < x.ts ==> AtMost(r, x))
        {
          RowsStem(t, first, init, x);
        }
        MonotoneSnoc(After(t, init), r);
      case Rollup(peers, oldest) =>
        RunMonotone(t, first, init);
        RolledMonotone(After(t, init), peers, oldest);
    }
  }

  /** After any run of stored rows and rollups no period has negative traffic, if totals only ever grew
      and the period does not end before it begins. */
  lemma RunTrafficNotNegative(t: Table, first: int, cs: seq<Change>, peer: int, from: int, to: int)
    requires InTime(first, cs) && Monotone(Logged(t, cs)) && (to == 0 || Int64(from - 1) <= to)
    ensures PeerStats(After(t, cs), peer, from, to).0 >= 0 && PeerStats(After(t, cs), peer, from, to).1 >= 0
  {
    RunMonotone(t, first, cs);
    TrafficNotNegative(After(t, cs), peer, from, to);
  }

  // ---------- The table in place ----------

  class StatsTable {
    var rows: Table

    constructor ()
      ensures rows == []
    {
      rows := [];
    }

    method PutPeerStat(r: Stat)
      modifies this
      ensures rows == old(rows) + [r]
    {
      rows := rows + [r];
    }

    method RemoveOldStats(oldest: int)
      modifies this
      ensures rows == Younger(old(rows), oldest)
    {
      rows := Younger(rows, oldest);
    }

    /** `rollupOldStats`: looks up every listed peer, removes the old rows, stores the summaries. With
        `fault` the database fails at that step, counted over all three and the commit behind them, and
        the rows are rolled back. */
    method RollupOldStats(peers: seq<int>, oldest: int, fault: Option<nat>) returns (ok: bool)
      modifies this
      ensures ok <==> fault.None? || fault.value > 2 * |peers| + 1
      ensures rows == if ok then Rolled(old(rows), peers, oldest) else old(rows)
    {
      var snapshot := rows;
      var stats: Table := [];
      for i := 0 to |peers|
        invariant rows == old(rows) && stats == Summaries(old(rows), peers[..i], oldest)
        invariant fault.Some? ==> fault.value >= i
      {
        if fault == Some(i) {
          rows := snapshot;
          return false;
        }
        var stat := LastPeerStat(rows, peers[i], Some(oldest));
        var (tx, rx) := if stat.Some? then (stat.value.tx, stat.value.rx) else (0, 0);
        stats := stats + [Stat(oldest, peers[i], rx, tx)];
      }
      if fault == Some(|peers|) {
        rows := snapshot;
        return false;
      }
      RemoveOldStats(oldest);
      ghost var kept := rows;
      for i := 0 to |stats|
        invariant rows == kept + stats[..i]
        invariant fault.Some? ==> fault.value > |peers| + i
      {
        if fault == Some(|peers| + 1 + i) {
          rows := snapshot;
          return false;
        }
        PutPeerStat(Stat(oldest, stats[i].peer, stats[i].rx, stats[i].tx));
      }
      assert peers[..|peers|] == peers && stats[..|stats|] == stats;
      if fault == Some(2 * |peers| + 1) {
        rows := snapshot;
        return false;
      }
      return true;
    }
  }
}
