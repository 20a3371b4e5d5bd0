/** The address trees of nettree/ip.go. The source has one type per family behind the
    interface `IPTree`; here the family of the net chooses the branch. */
module IPTrees {
  import opened Powers
  import opened Paths
  import opened Tries
  import opened Counting
  import opened UintTrees
  import opened Prefixes
  import opened Nets

  class IPTree {
    const net: Prefix
    const tree: UintTree

    ghost predicate Valid()
      reads tree, tree.nodes.Values
    {
      && Fits(net) && tree.Valid()
      && tree.width == WordLen(net.addr.family) && tree.maxPrefBits == HostBits(net)
    }

    /** What the tree stands for. */
    ghost function View(): Net
      reads tree
    {
      Net(net, tree.trie)
    }

    constructor (net: Prefix, tree: UintTree)
      ensures this.net == net && this.tree == tree
    {
      this.net, this.tree := net, tree;
    }

    /** Puts a single address; whether it was free is not asked. */
    static method PutHost(tree: UintTree, addr: nat)
      requires tree.Valid() && addr < Pow2(tree.width)
      modifies tree, tree.nodes.Values
      ensures tree.Valid() && fresh(tree.nodes.Values - old(tree.nodes.Values))
      ensures tree.trie == PutAnyway(old(tree.trie), Bits(addr, tree.maxPrefBits, tree.maxPrefBits))
    {
      var ok := tree.Put(addr, tree.maxPrefBits);
    }

    /** A tree of words of `w` bits for the net, that holds host 0 and, for IPv4, the last host. */
    static method NewTree(net: Prefix, w: nat, h: nat) returns (tree: UintTree)
      requires h == HostBits(net) && 1 <= h <= w
      ensures fresh(tree) && fresh(tree.nodes.Values)
      ensures tree.Valid() && tree.width == w && tree.maxPrefBits == h
      ensures tree.trie == NewTrie(net)
    {
      Pow2Monotone(h, w);
      tree := new UintTree(w, Pow2(h - 1), Pow2(h) - 1, h);
      PutHost(tree, 0);
      if net.addr.family.V4? {
        PutHost(tree, Pow2(h) - 1);
      }
    }

    /** `NewAddrTree4` and `NewAddrTree6`: a tree with its reserved hosts, for a net of a size they can handle. */
    static method New(net: Prefix) returns (r: Result<IPTree>)
      requires ValidPrefix(net)
      ensures r.Ok? <==> NewNet(net).Ok?
      ensures r.Err? ==> NewNet(net) == Err(r.error)
      ensures r.Ok? ==> fresh(r.value) && fresh(r.value.tree) && fresh(r.value.tree.nodes.Values)
      ensures r.Ok? ==> r.value.Valid() && NewNet(net) == Ok(r.value.View())
      ensures r.Ok? ==> r.value.tree.width == if net.addr.family.V4? then 32 else 64
    {
      var h := Len(net.addr.family) - net.bits;
      if h < 2 {
        return Err(ErrNetTooSmall);
      }
      if net.addr.family.V6? && h > 64 {
        return Err(ErrBigNet6NotSupported);
      }
      var tree := NewTree(net, WordLen(net.addr.family), h);
      var t := new IPTree(net, tree);
      return Ok(t);
    }

    /** The walk of a prefix through the tree, read from the low word of its address. */
    lemma LowWord(a: Addr, k: nat)
      requires Fits(net) && a.family == net.addr.family && k <= HostBits(net)
      ensures Wrap(Low(a), HostBits(net)) < Pow2(HostBits(net)) <= Pow2(WordLen(a.family))
      ensures Bits(Wrap(Low(a), HostBits(net)), HostBits(net), k) == Bits(a.value, HostBits(net), k)
    {
      var h, w := HostBits(net), WordLen(a.family);
      WrapWrap(a.value, h, w);
      WrapBound(Low(a), h);
      Pow2Monotone(h, w);
      BitsOfWrap(a.value, h, h, k);
    }

    /** Holds the prefix, or says why not. */
    method Put(pref: Prefix) returns (r: Option<Error>)
      requires Valid() && ValidPrefix(pref) && pref.addr.family == net.addr.family
      modifies tree, tree.nodes.Values
      ensures Valid() && fresh(tree.nodes.Values - old(tree.nodes.Values))
      ensures (View(), r) == NetPut(old(View()), pref)
    {
      if !Contains(net, pref.addr) || net.bits > pref.bits {
        return Some(ErrOutOfNet);
      }
      LowWord(pref.addr, pref.bits - net.bits);
      // `x & tree.maxUint` keeps the low `maxPrefBits` bits
      var ok := tree.Put(Wrap(Low(pref.addr), tree.maxPrefBits), pref.bits - net.bits);
      if ok {
        return None;
      } else {
        return Some(ErrOverlaps);
      }
    }

    /** Lets the prefix go if exactly it is held. */
    method Delete(pref: Prefix) returns (ok: bool)
      requires Valid() && ValidPrefix(pref)
      modifies tree, tree.nodes.Values
      ensures Valid() && tree.nodes.Values <= old(tree.nodes.Values)
      ensures (View(), ok) == NetDelete(old(View()), pref)
    {
      if !Contains(net, pref.addr) || net.bits > pref.bits {
        return false;
      }
      LowWord(pref.addr, pref.bits - net.bits);
      ok := tree.Delete(Wrap(Low(pref.addr), tree.maxPrefBits), pref.bits - net.bits);
    }

    /** The number of free addresses as `AllocateRandom` computes it: right for every tree but an
        empty one with 64 host bits, for which it is zero. */
    method FreeSpace() returns (free: nat)
      requires Valid()
      ensures Sized(View())
      ensures free == FreeCount(View()) || (free == 0 && HostBits(net) == 64 && View().trie == Empty)
      ensures HostBits(net) == 64 && View().trie == Empty ==> free == 0
    {
      var size := tree.Size();
      CountBound(tree.trie, tree.maxPrefBits);
      FreeExprIsFree(tree.maxPrefBits, size, 64);
      free := FreeExpr(tree.maxUint, size, 64);
    }

    /** Takes the `k`-th free address: the net's low word plus the offset found, under the net's high bits. */
    method TakeNth(k: nat) returns (a: Addr)
      requires Valid() && Sized(View()) && k < FreeCount(View())
      modifies tree, tree.nodes.Values
      ensures Valid() && fresh(tree.nodes.Values - old(tree.nodes.Values))
      ensures (View(), a) == NetTake(old(View()), k)
    {
      var offset := tree.PutNthFree(k);
      var low := Wrap(Low(net.addr) + offset, WordLen(net.addr.family));
      a := Addr(net.addr.family, net.addr.value - Low(net.addr) + low);
    }

    /** Picks any free address: `n` stands for the result of `rand.Int`, of which only the bound is known.
        An empty net with 64 host bits is taken for a full one. */
    method AllocateRandom() returns (r: Result<Addr>, ghost n: nat)
      requires Valid()
      modifies tree, tree.nodes.Values
      ensures Valid() && fresh(tree.nodes.Values - old(tree.nodes.Values))
      ensures Sized(old(View()))
      ensures r == Err(ErrNoFreeAddr) || r.Ok?
      ensures r.Err? <==> Barren(old(View()))
      ensures r.Err? ==> unchanged(tree) && unchanged(tree.nodes.Values)
      ensures r.Ok? ==> n < FreeCount(old(View())) && (View(), r.value) == NetTake(old(View()), n)
    {
      n := 0;
      var free := FreeSpace();
      if free == 0 {
        return Err(ErrNoFreeAddr), n;
      }
      var k: nat :| k < free;
      n := k;
      var a := TakeNth(k);
      r := Ok(a);
    }
  }
}
