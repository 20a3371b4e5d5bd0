/** The check of the configured nets in `parseAllocNets` (main.go), behind the parsing of the text. */
module AllocNets {
  import opened Powers
  import opened Tries
  import opened Prefixes

  datatype ParseResult =
    | Nets(nets: seq<Prefix>)
    | NotAPrefix(index: nat)
    | HostBitsSet(index: nat)
    | NetsOverlap(first: nat, second: nat)

  ghost predicate AllDisjoint(nets: seq<Prefix>) {
    forall i, j :: 0 <= i < j < |nets| ==> !Share(nets[i], nets[j])
  }

  /** Asking each net for the other's own address decides whether they meet at all. */
  lemma OverlapTest(p: Prefix, q: Prefix)
    requires ValidPrefix(p) && ValidPrefix(q)
    ensures Contains(p, q.addr) || Contains(q, p.addr) <==> Share(p, q)
  {
    if Contains(p, q.addr) {
      assert Contains(q, q.addr);
    }
    if Contains(q, p.addr) {
      assert Contains(p, p.addr);
    }
    forall a | ValidAddr(a) && Contains(p, a) && Contains(q, a)
      ensures Contains(p, q.addr) || Contains(q, p.addr)
    {
      if p.bits <= q.bits {
        ShrAgree(a.value, q.addr.value, HostBits(q), HostBits(p));
      } else {
        ShrAgree(a.value, p.addr.value, HostBits(p), HostBits(q));
      }
    }
  }

  /** The entry is a prefix without host bits. */
  predicate Good(p: Option<Prefix>) {
    p.Some? && IsMasked(p.value)
  }

  /** The first `k` entries are good. */
  predicate GoodUpTo(parsed: seq<Option<Prefix>>, k: nat) {
    forall i :: 0 <= i < k && i < |parsed| ==> Good(parsed[i])
  }

  /** No pair of nets before the pair `(i, j)`, in the order of the loops, meets. */
  ghost predicate ApartUpTo(nets: seq<Prefix>, i: nat, j: nat) {
    forall a, b :: 0 <= a < b < |nets| && (a < i || (a == i && b < j)) ==> !Share(nets[a], nets[b])
  }

  /** Asks every pair of nets; finds the first two that meet, if there are any. */
  method FindOverlap(nets: seq<Prefix>) returns (pair: Option<(nat, nat)>)
    requires forall i :: 0 <= i < |nets| ==> ValidPrefix(nets[i])
    ensures pair.None? <==> AllDisjoint(nets)
    ensures pair.Some? ==> pair.value.0 < pair.value.1 < |nets| && Share(nets[pair.value.0], nets[pair.value.1])
    ensures pair.Some? ==> ApartUpTo(nets, pair.value.0, pair.value.1)
  {
    for i := 0 to |nets|
      invariant forall a, b :: 0 <= a < i && a < b < |nets| ==> !Share(nets[a], nets[b])
    {
      for j := i + 1 to |nets|
        invariant forall b :: i < b < j ==> !Share(nets[i], nets[b])
      {
        OverlapTest(nets[i], nets[j]);
        if Contains(nets[i], nets[j].addr) || Contains(nets[j], nets[i].addr) {
          return Some((i, j));
        }
      }
    }
    return None;
  }

  /** Accepts exactly the lists of masked prefixes that are pairwise disjoint as sets of addresses. */
  method ParseAllocNets(parsed: seq<Option<Prefix>>) returns (r: ParseResult)
    requires forall i :: 0 <= i < |parsed| && parsed[i].Some? ==> ValidPrefix(parsed[i].value)
    ensures r.Nets? ==> |r.nets| == |parsed| && AllDisjoint(r.nets)
    ensures r.Nets? ==> forall i :: 0 <= i < |parsed| ==> parsed[i] == Some(r.nets[i]) && IsMasked(r.nets[i])
    ensures r.NotAPrefix? ==> r.index < |parsed| && parsed[r.index].None? && GoodUpTo(parsed, r.index)
    ensures r.HostBitsSet? ==>
              r.index < |parsed| && parsed[r.index].Some? && !Good(parsed[r.index]) && GoodUpTo(parsed, r.index)
    ensures r.NetsOverlap? ==>
              && GoodUpTo(parsed, |parsed|)
              && r.first < r.second < |parsed| && Share(parsed[r.first].value, parsed[r.second].value)
    ensures r.NetsOverlap? ==>
              forall a, b :: 0 <= a < b < |parsed| && (a < r.first || (a == r.first && b < r.second)) ==>
                !Share(parsed[a].value, parsed[b].value)
  {
    var nets: seq<Prefix> := [];
    for k := 0 to |parsed|
      invariant |nets| == k
      invariant forall i :: 0 <= i < k ==> parsed[i] == Some(nets[i]) && IsMasked(nets[i]) && ValidPrefix(nets[i])
    {
      if parsed[k].None? {
        return NotAPrefix(k);
      }
      var net := parsed[k].value;
      WrapBound(net.addr.value, HostBits(net));
      if Masked(net).addr != net.addr {
        return HostBitsSet(k);
      }
      nets := nets + [net];
    }
    var pair := FindOverlap(nets);
    match pair
    case None => return Nets(nets);
    case Some((i, j)) => return NetsOverlap(i, j);
  }
}
