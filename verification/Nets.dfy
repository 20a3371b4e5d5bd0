/** The trees of nettree/ip.go as values: a net with the trie of its held blocks. */
module Nets {
  import opened Powers
  import opened Paths
  import opened Tries
  import opened Counting
  import opened Prefixes

  datatype Error = ErrOutOfNet | ErrOverlaps | ErrNetTooSmall | ErrBigNet6NotSupported | ErrNoFreeAddr

  datatype Result<+T> = Ok(value: T) | Err(error: Error)

  datatype Net = Net(prefix: Prefix, trie: Trie)

  /** The nets a tree can be made for: at least two host bits, and no more than a word. */
  predicate Fits(p: Prefix) {
    ValidPrefix(p) && 2 <= HostBits(p) <= WordLen(p.addr.family)
  }

  /** The nets that also pass `parseAllocNets`: their host bits are clear. */
  predicate Usable(p: Prefix) {
    Fits(p) && IsMasked(p)
  }

  ghost predicate Sized(n: Net) {
    Fits(n.prefix) && WellFormed(n.trie, HostBits(n.prefix))
  }

  ghost predicate Sound(n: Net) {
    Sized(n) && IsMasked(n.prefix)
  }

  // ---------- Creation ----------

  /** Host 0 of every net, and the last host of an IPv4 net. */
  function ReservedPaths(p: Prefix): set<Path> {
    var h := HostBits(p);
    {Bits(0, h, h)} + if p.addr.family.V4? then {Bits(Pow2(h) - 1, h, h)} else {}
  }

  /** `Put` with its answer ignored. */
  function PutAnyway(t: Trie, path: Path): Trie {
    var r := Put(t, path);
    if r.Some? then r.value else t
  }

  function NewTrie(p: Prefix): Trie {
    var h := HostBits(p);
    var t := PutAnyway(Empty, Bits(0, h, h));
    if p.addr.family.V4? then PutAnyway(t, Bits(Pow2(h) - 1, h, h)) else t
  }

  function NewNet(p: Prefix): Result<Net> {
    if HostBits(p) < 2 then Err(ErrNetTooSmall)
    else if HostBits(p) > WordLen(p.addr.family) then Err(ErrBigNet6NotSupported)
    else Ok(Net(p, NewTrie(p)))
  }

  lemma FirstAndLastDiffer(h: nat)
    requires h > 0
    ensures Bits(0, h, h) != Bits(Pow2(h) - 1, h, h)
  {
    WrapSmall(0, h);
    WrapSmall(Pow2(h) - 1, h);
    StartOfBits(0, h, h);
    StartOfBits(Pow2(h) - 1, h, h);
  }

  lemma PutAnywayHolds(t: Trie, h: nat, path: Path)
    requires WellFormed(t, h) && |path| == h && forall q :: q in Held(t) ==> |q| == h && q != path
    ensures WellFormed(PutAnyway(t, path), h) && Held(PutAnyway(t, path)) == Held(t) + {path}
  {
    forall q | q in Held(t) ensures Comparable(path, q) ==> path == q { }
    PutHeld(t, h, path);
    PutWellFormed(t, h, path);
  }

  /** A new net holds its reserved hosts and nothing else. */
  lemma NewNetHolds(p: Prefix)
    requires ValidPrefix(p)
    ensures NewNet(p).Ok? <==> Fits(p)
    ensures NewNet(p) == Err(ErrNetTooSmall) <==> p.bits > if p.addr.family.V4? then 30 else 126
    ensures NewNet(p) == Err(ErrBigNet6NotSupported) <==> p.addr.family.V6? && p.bits < 64
    ensures NewNet(p).Ok? <==> if p.addr.family.V4? then p.bits <= 30 else 64 <= p.bits <= 126
    ensures NewNet(p).Ok? ==> NewNet(p).value.prefix == p
    ensures NewNet(p).Ok? ==> Sized(NewNet(p).value) && Held(NewNet(p).value.trie) == ReservedPaths(p)
  {
    if Fits(p) {
      var h := HostBits(p);
      var first, last := Bits(0, h, h), Bits(Pow2(h) - 1, h, h);
      PutAnywayHolds(Empty, h, first);
      if p.addr.family.V4? {
        FirstAndLastDiffer(h);
        PutAnywayHolds(PutAnyway(Empty, first), h, last);
      }
    }
  }

  // ---------- Operations ----------

  function NetPut(n: Net, p: Prefix): (Net, Option<Error>) {
    if !Within(p, n.prefix) then (n, Some(ErrOutOfNet))
    else
      match Put(n.trie, PathIn(n.prefix, p))
      case None => (n, Some(ErrOverlaps))
      case Some(t) => (n.(trie := t), None)
  }

  function NetDelete(n: Net, p: Prefix): (Net, bool) {
    if !Within(p, n.prefix) then (n, false)
    else
      match Delete(n.trie, PathIn(n.prefix, p))
      case None => (n, false)
      case Some(t) => (n.(trie := t), true)
  }

  function FreeCount(n: Net): nat
    requires Sized(n)
  {
    CountBound(n.trie, HostBits(n.prefix));
    Pow2(HostBits(n.prefix)) - Count(n.trie, HostBits(n.prefix))
  }

  /** The nets `AllocateRandom` finds no address in. */
  ghost predicate Barren(n: Net) {
    Sized(n) && (FreeCount(n) == 0 || (HostBits(n.prefix) == 64 && n.trie == Empty))
  }

  /** The bits of a word read from an address: all 32, or the low 64 of 128. */
  function Low(a: Addr): (low: nat)
    ensures low <= a.value
  {
    WrapBound(a.value, WordLen(a.family));
    Wrap(a.value, WordLen(a.family))
  }

  /** `a` with the offset added to its low word; the high bits stay. */
  function Plus(a: Addr, offset: nat): Addr {
    Addr(a.family, a.value - Low(a) + Wrap(Low(a) + offset, WordLen(a.family)))
  }

  /** Takes the `k`-th free address of the net. */
  function NetTake(n: Net, k: nat): (Net, Addr)
    requires Sized(n) && k < FreeCount(n)
  {
    var h := HostBits(n.prefix);
    var x := NthFree(n.trie, h, k);
    (n.(trie := PutAnyway(n.trie, Bits(x, h, h))), Plus(n.prefix.addr, x))
  }

  /** Adding below the clear low bits never carries out of the word. */
  lemma NoCarryWord(v: nat, x: nat, h: nat, w: nat)
    requires h <= w && Wrap(v, h) == 0 && x < Pow2(h)
    ensures Wrap(Wrap(v, w) + x, w) == Wrap(v, w) + x
  {
    WrapWrap(v, h, w);
    WrapBound(v, w);
    AlignedBound(Wrap(v, w), h, w);
    WrapSmall(Wrap(v, w) + x, w);
  }

  lemma PlusInWord(a: Addr, offset: nat, h: nat)
    requires h <= WordLen(a.family) && Wrap(a.value, h) == 0 && offset < Pow2(h)
    ensures Plus(a, offset) == Addr(a.family, a.value + offset)
  {
    NoCarryWord(a.value, offset, h, WordLen(a.family));
  }

  /** From the address of a masked net the addition never leaves the low word. */
  lemma NoCarry(net: Prefix, offset: nat)
    requires Usable(net) && offset < Pow2(HostBits(net))
    ensures Plus(net.addr, offset) == Addr(net.addr.family, net.addr.value + offset)
  {
    PlusInWord(net.addr, offset, HostBits(net));
  }

  // ---------- What is held, as prefixes ----------

  function HeldPrefixes(n: Net): set<Prefix> {
    set q | q in Held(n.trie) && |q| <= HostBits(n.prefix) :: PrefixAt(n.prefix, q)
  }

  function ReservedPrefixes(p: Prefix): set<Prefix> {
    set q | q in ReservedPaths(p) && |q| <= HostBits(p) :: PrefixAt(p, q)
  }

  lemma InHeld(n: Net, path: Path)
    requires Sound(n) && |path| <= HostBits(n.prefix)
    ensures PrefixAt(n.prefix, path) in HeldPrefixes(n) <==> path in Held(n.trie)
  {
    PathOfPrefixAt(n.prefix, path);
    if PrefixAt(n.prefix, path) in HeldPrefixes(n) {
      var q :| q in Held(n.trie) && |q| <= HostBits(n.prefix) && PrefixAt(n.prefix, q) == PrefixAt(n.prefix, path);
      PathOfPrefixAt(n.prefix, q);
    }
  }

  lemma HeldPath(n: Net, q: Prefix) returns (path: Path)
    requires Sound(n) && q in HeldPrefixes(n)
    ensures path in Held(n.trie) && |path| <= HostBits(n.prefix) && q == PrefixAt(n.prefix, path)
    ensures ValidPrefix(q) && Masked(q) == q && Within(q, n.prefix) && PathIn(n.prefix, q) == path
  {
    path :| path in Held(n.trie) && |path| <= HostBits(n.prefix) && q == PrefixAt(n.prefix, path);
    PrefixAtValid(n.prefix, path);
    PathOfPrefixAt(n.prefix, path);
  }

  /** What is held of a masked net decides the net. */
  lemma SamePrefixesSameNet(n: Net, m: Net)
    requires Sound(n) && Sound(m) && n.prefix == m.prefix && HeldPrefixes(n) == HeldPrefixes(m)
    ensures n == m
  {
    var h := HostBits(n.prefix);
    HeldShort(n.trie, h);
    HeldShort(m.trie, h);
    forall path ensures path in Held(n.trie) <==> path in Held(m.trie) {
      if |path| <= h {
        InHeld(n, path);
        InHeld(m, path);
      }
    }
    Canonical(n.trie, m.trie, h);
  }

  lemma HeldAfter(n: Net, t: Trie, added: set<Path>, removed: set<Path>)
    requires Sound(n) && WellFormed(t, HostBits(n.prefix)) && Held(t) == Held(n.trie) + added - removed
    requires forall q :: q in added + removed ==> |q| <= HostBits(n.prefix)
    ensures HeldPrefixes(n.(trie := t))
         == HeldPrefixes(n) + (set q | q in added :: PrefixAt(n.prefix, q))
            - (set q | q in removed :: PrefixAt(n.prefix, q))
  {
    var m := n.(trie := t);
    forall q | q in Held(n.trie) + added + removed && |q| <= HostBits(n.prefix)
      ensures PathIn(n.prefix, PrefixAt(n.prefix, q)) == q
    {
      PathOfPrefixAt(n.prefix, q);
    }
  }

  /** `Put` refuses prefixes out of the net, then those sharing an address with a held one, and holds all others. */
  lemma NetPutHolds(n: Net, p: Prefix)
    requires Sound(n) && ValidPrefix(p)
    ensures NetPut(n, p).1 == Some(ErrOutOfNet) <==> !Within(p, n.prefix)
    ensures NetPut(n, p).1 == Some(ErrOverlaps) <==>
              Within(p, n.prefix) && exists q :: q in HeldPrefixes(n) && Share(p, q)
    ensures NetPut(n, p).1.Some? ==> NetPut(n, p).0 == n
    ensures NetPut(n, p).1.None? ==>
              Sound(NetPut(n, p).0) && HeldPrefixes(NetPut(n, p).0) == HeldPrefixes(n) + {Masked(p)}
  {
    if Within(p, n.prefix) {
      var h, path := HostBits(n.prefix), PathIn(n.prefix, p);
      PutHeld(n.trie, h, path);
      HeldShort(n.trie, h);
      forall q | q in Held(n.trie) && Comparable(path, q)
        ensures PrefixAt(n.prefix, q) in HeldPrefixes(n) && Share(p, PrefixAt(n.prefix, q))
      {
        PrefixAtValid(n.prefix, q);
        PathOfPrefixAt(n.prefix, q);
        ShareIffComparable(n.prefix, p, PrefixAt(n.prefix, q));
      }
      forall q | q in HeldPrefixes(n) && Share(p, q) ensures exists s :: s in Held(n.trie) && Comparable(path, s) {
        var s := HeldPath(n, q);
        ShareIffComparable(n.prefix, p, q);
      }
      if Put(n.trie, path).Some? {
        PutWellFormed(n.trie, h, path);
        PrefixAtPath(n.prefix, p);
        HeldAfter(n, Put(n.trie, path).value, {path}, {});
      }
    }
  }

  /** `Delete` removes the prefix if exactly it is held, whatever its host bits, and changes nothing otherwise. */
  lemma NetDeleteHolds(n: Net, p: Prefix)
    requires Sound(n) && ValidPrefix(p)
    ensures NetDelete(n, p).1 <==> Within(p, n.prefix) && Masked(p) in HeldPrefixes(n)
    ensures !NetDelete(n, p).1 ==> NetDelete(n, p).0 == n
    ensures NetDelete(n, p).1 ==>
              Sound(NetDelete(n, p).0) && HeldPrefixes(NetDelete(n, p).0) == HeldPrefixes(n) - {Masked(p)}
  {
    if Within(p, n.prefix) {
      var h, path := HostBits(n.prefix), PathIn(n.prefix, p);
      DeleteHeld(n.trie, path);
      PrefixAtPath(n.prefix, p);
      InHeld(n, path);
      if Delete(n.trie, path).Some? {
        DeleteWellFormed(n.trie, h, path);
        HeldAfter(n, Delete(n.trie, path).value, {}, {path});
      }
    }
  }

  /** An offset of a masked net is an address of the net, and the offset's bits are its position. */
  lemma OffsetPlace(net: Prefix, x: nat)
    requires Usable(net) && x < Pow2(HostBits(net))
    ensures var a := Addr(net.addr.family, net.addr.value + x);
            && Plus(net.addr, x) == a && ValidAddr(a) && Contains(net, a) && Within(HostPrefix(a), net)
            && PathIn(net, HostPrefix(a)) == Bits(x, HostBits(net), HostBits(net))
  {
    var h, v := HostBits(net), net.addr.value;
    NoCarry(net, x);
    PathOfHost(net, Addr(net.addr.family, v + x));
    AddLow(v, x, h);
    assert v + x < Pow2(Len(net.addr.family)) by {
      AlignedBound(v, h, Len(net.addr.family));
    }
    assert Bits(v + x, h, h) == Bits(x, h, h) by {
      BitsOfWrap(v + x, h, h, h);
    }
  }

  /** The address taken was free: it lies in the net and in no held prefix, and only it is held now. */
  lemma NetTakeHolds(n: Net, k: nat)
    requires Sound(n) && k < FreeCount(n)
    ensures var (n', a) := NetTake(n, k);
            && ValidAddr(a) && Contains(n.prefix, a) && Within(HostPrefix(a), n.prefix)
            && (forall q :: q in HeldPrefixes(n) ==> !Contains(q, a))
            && NetPut(n, HostPrefix(a)) == (n', None)
  {
    var h, a := HostBits(n.prefix), NetTake(n, k).1;
    NthFreeIsSelect(n.trie, h, k);
    NthFreeCanBePut(n.trie, h, k);
    OffsetPlace(n.prefix, NthFree(n.trie, h, k));
    NetPutHolds(n, HostPrefix(a));
    ContainsOwn(HostPrefix(a));
    forall q | q in HeldPrefixes(n) ensures Contains(q, a) ==> Share(HostPrefix(a), q) { }
  }

  /** Every free address of the net is the choice for some `k`. */
  lemma EveryFreeAddress(n: Net, a: Addr)
    requires Sound(n) && ValidAddr(a) && Contains(n.prefix, a) && forall q :: q in HeldPrefixes(n) ==> !Contains(q, a)
    ensures exists k :: 0 <= k < FreeCount(n) && NetTake(n, k).1 == a
  {
    var h := HostBits(n.prefix);
    var x := Wrap(a.value, h);
    WrapBound(a.value, h);
    SameHigh(a.value, n.prefix.addr.value, h);
    assert x !in Addrs(n.trie, h) by {
      CoversIff(n.trie, h, x);
      BitsOfWrap(a.value, h, h, h);
      forall q | q in Held(n.trie) && InBlock(x, q, h) ensures false {
        InBlockIffPrefix(x, q, h);
        BitsTake(a.value, h, h, |q|);
        PathOfPrefixAt(n.prefix, q);
        PrefixAtValid(n.prefix, q);
        InHeld(n, q);
        ContainsIffPath(n.prefix, PrefixAt(n.prefix, q), a);
      }
    }
    var k := FreeBelow(Addrs(n.trie, h), x);
    RankMonotone(Addrs(n.trie, h), x, Pow2(h));
    CountIsRank(n.trie, h);
    assert k < FreeCount(n);
    NthFreeIsSelect(n.trie, h, k);
    SelectUnique(Addrs(n.trie, h), x, NthFree(n.trie, h, k));
    NoCarry(n.prefix, x);
    assert NetTake(n, k).1 == a;
  }

  /** Adding an offset below `2^h` leaves just the offset in the low `h` bits iff they were clear. */
  lemma OffsetKept(v: nat, x: nat, h: nat)
    requires x < Pow2(h)
    ensures Wrap(v + x, h) == x <==> Wrap(v, h) == 0
  {
    WrapBound(v, h);
    var y := Wrap(v, h) + x;
    WrapAdd(v, x, h);
    WrapSmall(x, h);
    // `y` is below two full words, so it loses at most one of them
    WrapSmall(y, h + 1);
    TopBit(y, h);
    WrapBound(y, h);
    assert Wrap(y, h) == y || Wrap(y, h) == y - Pow2(h);
  }

  lemma WrapSame(x: nat, y: nat, c: nat, h: nat)
    requires Wrap(x, h) == Wrap(y, h)
    ensures Wrap(x + c, h) == Wrap(y + c, h)
  {
    WrapAdd(x, c, h);
    WrapAdd(y, c, h);
  }

  lemma LowBitsOnly(high: nat, z: nat, h: nat, w: nat)
    requires h <= w && Wrap(high, w) == 0 && z < Pow2(w)
    ensures Wrap(high + z, h) == Wrap(z, h)
  {
    AddLow(high, z, w);
    WrapWrap(high + z, h, w);
  }

  /** Adding to the low word adds to the low bits of the number. */
  lemma PlusLow(v: nat, x: nat, h: nat, w: nat)
    requires h <= w
    ensures Wrap(v, w) <= v && Wrap(v - Wrap(v, w) + Wrap(Wrap(v, w) + x, w), h) == Wrap(v + x, h)
  {
    ClearLow(v, w);
    var low, high := Wrap(v, w), v - Wrap(v, w);
    var z := Wrap(low + x, w);
    WrapBound(low + x, w);
    LowBitsOnly(high, z, h, w);
    WrapWrap(low + x, h, w);
    WrapWrap(v, h, w);
    WrapSame(low, v, x, h);
  }

  lemma BitsDiffer(g: nat, x: nat, h: nat)
    requires x < Pow2(h) && Wrap(g, h) != x
    ensures Bits(g, h, h) != Bits(x, h, h)
  {
    StartOfBits(g, h, h);
    StartOfBits(x, h, h);
    WrapSmall(x, h);
  }

  /** Added to the low word of a number whose low bits are not clear, an offset ends at another position. */
  lemma OffsetElsewhere(v: nat, x: nat, h: nat, w: nat)
    requires h <= w && x < Pow2(h) && Wrap(v, h) != 0
    ensures Wrap(v, w) <= v
    ensures Bits(v - Wrap(v, w) + Wrap(Wrap(v, w) + x, w), h, h) != Bits(x, h, h)
  {
    PlusLow(v, x, h, w);
    OffsetKept(v, x, h);
    BitsDiffer(v - Wrap(v, w) + Wrap(Wrap(v, w) + x, w), x, h);
  }

  /** In a net with host bits set an offset becomes an address at another position. */
  lemma GivenElsewhere(a: Addr, x: nat, h: nat)
    requires h <= WordLen(a.family) && x < Pow2(h) && Wrap(a.value, h) != 0
    ensures Bits(Plus(a, x).value, h, h) != Bits(x, h, h)
  {
    OffsetElsewhere(a.value, x, h, WordLen(a.family));
  }

  /** Storing one block or another leaves different tries. */
  lemma OtherBlock(t: Trie, h: nat, p: Path, q: Path)
    requires WellFormed(t, h) && Put(t, p).Some? && p != q
    ensures Put(t, p) != Put(t, q)
  {
    PutHeld(t, h, p);
    PutHeld(t, h, q);
  }

  /** The address given out is the one taken, for every tree and choice, iff the net has no host bits
      set: what `parseAllocNets` checks. */
  lemma GivenIsTakenIff(n: Net, k: nat)
    requires Sized(n) && k < FreeCount(n)
    ensures NetPut(n, HostPrefix(NetTake(n, k).1)) == (NetTake(n, k).0, None) <==> IsMasked(n.prefix)
  {
    if IsMasked(n.prefix) {
      NetTakeHolds(n, k);
    } else {
      var h, a := HostBits(n.prefix), NetTake(n, k).1;
      var x := NthFree(n.trie, h, k);
      NthFreeIsSelect(n.trie, h, k);
      NthFreeCanBePut(n.trie, h, k);
      GivenElsewhere(n.prefix.addr, x, h);
      PathOfHost(n.prefix, a);
      OtherBlock(n.trie, h, Bits(x, h, h), Bits(a.value, h, h));
    }
  }

  /** Different choices take different addresses, so drawing one is a bijection onto the free addresses. */
  lemma ChoiceIsUnique(n: Net, j: nat, k: nat)
    requires Sound(n) && j < FreeCount(n) && k < FreeCount(n) && NetTake(n, j).1 == NetTake(n, k).1
    ensures j == k
  {
    var h := HostBits(n.prefix);
    NthFreeIsSelect(n.trie, h, j);
    NthFreeIsSelect(n.trie, h, k);
    NoCarry(n.prefix, NthFree(n.trie, h, j));
    NoCarry(n.prefix, NthFree(n.trie, h, k));
  }

  // ---------- The number of free addresses, as computed ----------

  /** The expression `maxUint - size + 1` of `AllocateRandom` in words of width `w` (64 in the
      source), reading the low `w` bits of the size. */
  function FreeExpr(maxUint: nat, size: nat, w: nat): nat {
    WrapBound(size, w);
    Wrap(maxUint + (Pow2(w) - Wrap(size, w)) + 1, w)
  }

  /** It is the number of free addresses of every net except an empty one with as many host
      bits as the word, where it reads zero; host 0 keeps a tree from ever being that net. */
  lemma FreeExprIsFree(h: nat, size: nat, w: nat)
    requires h <= w && size <= Pow2(h)
    ensures FreeExpr(Pow2(h) - 1, size, w) == Pow2(h) - size <==> !(h == w && size == 0)
    ensures h == w && size == 0 ==> FreeExpr(Pow2(h) - 1, size, w) == 0
  {
    var free := Pow2(h) - size;
    WrapBound(size, w);
    assert FreeExpr(Pow2(h) - 1, size, w) == Wrap(free, w) by {
      WrapBorrow(Pow2(h), size, w);
    }
    Pow2Monotone(h, w);
    if h < w {
      Pow2Monotone(h, w - 1);
    }
    if free < Pow2(w) {
      WrapSmall(free, w);
    } else {
      WrapFull(w);
    }
  }
}
