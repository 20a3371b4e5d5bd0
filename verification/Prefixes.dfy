/** IP addresses and CIDR prefixes, as far as the allocator uses `net/netip`. */
module Prefixes {
  import opened Powers
  import opened Paths

  datatype Family = V4 | V6

  datatype Addr = Addr(family: Family, value: nat)

  datatype Prefix = Prefix(addr: Addr, bits: nat)

  /** Length of an address in bits. */
  function Len(f: Family): nat {
    if f.V4? then 32 else 128
  }

  /** Width of the machine word a tree of this family works with. */
  function WordLen(f: Family): nat {
    if f.V4? then 32 else 64
  }

  predicate ValidAddr(a: Addr) {
    a.value < Pow2(Len(a.family))
  }

  predicate ValidPrefix(p: Prefix) {
    ValidAddr(p.addr) && p.bits <= Len(p.addr.family)
  }

  function HostBits(p: Prefix): nat {
    if p.bits <= Len(p.addr.family) then Len(p.addr.family) - p.bits else 0
  }

  /** `netip.Prefix.Contains`: same family, and equal leading bits. */
  predicate Contains(p: Prefix, a: Addr) {
    p.addr.family == a.family && Shr(a.value, HostBits(p)) == Shr(p.addr.value, HostBits(p))
  }

  /** `netip.Prefix.Masked`: the host bits cleared. */
  function Masked(p: Prefix): Prefix {
    WrapBound(p.addr.value, HostBits(p));
    Prefix(Addr(p.addr.family, p.addr.value - Wrap(p.addr.value, HostBits(p))), p.bits)
  }

  predicate IsMasked(p: Prefix) {
    Wrap(p.addr.value, HostBits(p)) == 0
  }

  /** `utils.MakePrefixFromAddr`: the address alone. */
  function HostPrefix(a: Addr): Prefix {
    Prefix(a, Len(a.family))
  }

  /** The two prefixes have an address in common. */
  ghost predicate Share(p: Prefix, q: Prefix) {
    exists a :: ValidAddr(a) && Contains(p, a) && Contains(q, a)
  }

  /** The test of the IP trees for "in the net": the address is inside and the prefix is no shorter. */
  predicate Within(p: Prefix, net: Prefix) {
    Contains(net, p.addr) && net.bits <= p.bits
  }

  // ---------- Leading bits ----------

  /** Equal leading bits down to bit `h - j` means: equal above bit `h`, and the next `j` bits equal. */
  lemma {:induction false} SameLeadingBits(x: nat, y: nat, h: nat, j: nat)
    requires j <= h
    ensures Shr(x, h - j) == Shr(y, h - j) <==> Shr(x, h) == Shr(y, h) && Bits(x, h, j) == Bits(y, h, j)
    decreases j
  {
    if j != 0 {
      SameLeadingBits(x, y, h, j - 1);
      ShrBit(x, h - j);
      ShrBit(y, h - j);
      BitsStep(x, h, j - 1);
      BitsStep(y, h, j - 1);
      SnocEqual(Bits(x, h, j - 1), Bit(x, h - j), Bits(y, h, j - 1), Bit(y, h - j));
    }
  }

  lemma SnocEqual(p: Path, b: bool, q: Path, c: bool)
    requires |p| == |q|
    ensures p + [b] == q + [c] <==> p == q && b == c
  {
    assert (p + [b])[..|p|] == p && (q + [c])[..|q|] == q;
    assert (p + [b])[|p|] == b && (q + [c])[|q|] == c;
  }

  // ---------- Positions in a net ----------

  /** The position of a prefix in the trie of its net. */
  function PathIn(net: Prefix, p: Prefix): (path: Path)
    ensures |path| <= HostBits(net)
  {
    if net.bits <= p.bits <= net.bits + HostBits(net) then Bits(p.addr.value, HostBits(net), p.bits - net.bits) else []
  }

  /** A single address stands at full depth. */
  lemma PathOfHost(net: Prefix, a: Addr)
    requires net.bits <= Len(a.family) && a.family == net.addr.family
    ensures PathIn(net, HostPrefix(a)) == Bits(a.value, HostBits(net), HostBits(net))
  {
  }

  /** The prefix that a position of the trie of `net` stands for. */
  function PrefixAt(net: Prefix, path: Path): Prefix
    requires |path| <= HostBits(net)
  {
    Prefix(Addr(net.addr.family, net.addr.value + Start(path, HostBits(net))), net.bits + |path|)
  }

  /** An address belongs to a prefix of a net iff it belongs to the net and its next bits are the prefix's path. */
  lemma ContainsIffPath(net: Prefix, p: Prefix, a: Addr)
    requires ValidPrefix(net) && ValidPrefix(p) && Within(p, net)
    ensures Contains(p, a) <==> Contains(net, a) && PathIn(net, p) == Bits(a.value, HostBits(net), |PathIn(net, p)|)
  {
    SameLeadingBits(a.value, p.addr.value, HostBits(net), p.bits - net.bits);
  }

  lemma StartBelow(path: Path, h: nat)
    requires |path| <= h
    ensures Start(path, h) < Pow2(h)
  {
    StartBound(path, h);
  }

  /** `PathIn` undoes `PrefixAt`, and the prefix lies in the net. */
  lemma PathOfPrefixAt(net: Prefix, path: Path)
    requires ValidPrefix(net) && IsMasked(net) && |path| <= HostBits(net)
    ensures PathIn(net, PrefixAt(net, path)) == path
    ensures Within(PrefixAt(net, path), net)
  {
    var h := HostBits(net);
    StartBelow(path, h);
    AddLow(net.addr.value, Start(path, h), h);
    BitsOfWrap(net.addr.value + Start(path, h), h, h, |path|);
    BitsOfStart(path, h);
  }

  /** `PrefixAt` undoes `PathIn`, up to host bits. */
  lemma PrefixAtPath(net: Prefix, p: Prefix)
    requires ValidPrefix(net) && IsMasked(net) && ValidPrefix(p) && Within(p, net)
    ensures PrefixAt(net, PathIn(net, p)) == Masked(p)
  {
    var h, v := HostBits(net), p.addr.value;
    StartOfBits(v, h, p.bits - net.bits);
    SameHigh(v, net.addr.value, h);
  }

  lemma PrefixAtValid(net: Prefix, path: Path)
    requires ValidPrefix(net) && IsMasked(net) && |path| <= HostBits(net)
    ensures ValidPrefix(PrefixAt(net, path))
    ensures Masked(PrefixAt(net, path)) == PrefixAt(net, path)
  {
    AlignedBound(net.addr.value, HostBits(net), Len(net.addr.family));
    StartBelow(path, HostBits(net));
    PathOfPrefixAt(net, path);
    PrefixAtPath(net, PrefixAt(net, path));
  }

  /** Every prefix contains its own address. */
  lemma ContainsOwn(p: Prefix)
    ensures Contains(p, p.addr)
  {
  }

  /** Two prefixes of one net share an address iff their paths are comparable. */
  lemma ShareIffComparable(net: Prefix, p: Prefix, q: Prefix)
    requires ValidPrefix(net) && ValidPrefix(p) && ValidPrefix(q) && Within(p, net) && Within(q, net)
    ensures Share(p, q) <==> Comparable(PathIn(net, p), PathIn(net, q))
  {
    var h, s, t := HostBits(net), PathIn(net, p), PathIn(net, q);
    forall a | ValidAddr(a) && Contains(p, a) && Contains(q, a) ensures Comparable(s, t) {
      ContainsIffPath(net, p, a);
      ContainsIffPath(net, q, a);
      var m := if |s| < |t| then |t| else |s|;
      BitsTake(a.value, h, m, |s|);
      BitsTake(a.value, h, m, |t|);
    }
    if Comparable(s, t) {
      var a := if s <= t then q.addr else p.addr;
      ContainsIffPath(net, p, a);
      ContainsIffPath(net, q, a);
      BitsTake(a.value, h, if s <= t then |t| else |s|, if s <= t then |s| else |t|);
      assert Contains(p, a) && Contains(q, a);
    }
  }

  /** An address of a prefix inside a net is an address of the net. */
  lemma WithinContains(p: Prefix, net: Prefix, a: Addr)
    requires ValidPrefix(net) && ValidPrefix(p) && Within(p, net) && Contains(p, a)
    ensures Contains(net, a)
  {
    ContainsIffPath(net, p, a);
  }

  /** The tree's test for "in the net" is containment of address sets. */
  lemma WithinIffSubset(p: Prefix, net: Prefix)
    requires ValidPrefix(net) && ValidPrefix(p)
    ensures Within(p, net) <==> forall a :: ValidAddr(a) && Contains(p, a) ==> Contains(net, a)
  {
    if Within(p, net) {
      forall a | ValidAddr(a) && Contains(p, a) ensures Contains(net, a) {
        WithinContains(p, net, a);
      }
    } else if p.addr.family == net.addr.family && p.bits < net.bits {
      // flip a bit that `net` fixes and `p` leaves free
      var a := FlippedAddr(p, net);
      assert ValidAddr(a) && Contains(p, a) && !Contains(net, a);
    } else {
      ContainsOwn(p);
      assert ValidAddr(p.addr);
    }
  }

  /** Setting bit `k` of a number with its low `h` bits clear keeps the bits from `h` on and changes those
      from `k` on. */
  lemma FlippedBit(base: nat, h: nat, k: nat)
    requires k < h && Wrap(base, h) == 0
    ensures Shr(base + Pow2(k), h) == Shr(base, h) && Shr(base + Pow2(k), k) != Shr(base, k)
    ensures Pow2(k) < Pow2(h)
  {
    Pow2Monotone(k, h - 1);
    AddLow(base, Pow2(k), h);
    AddBlock(base, k);
  }

  /** An address of `p` that `net` does not contain, when `net` fixes more bits than `p`. */
  lemma FlippedAddr(p: Prefix, net: Prefix) returns (a: Addr)
    requires ValidPrefix(net) && ValidPrefix(p) && p.addr.family == net.addr.family && p.bits < net.bits
    ensures ValidAddr(a) && Contains(p, a) && !Contains(net, a)
  {
    var base, h, k := Masked(p).addr.value, HostBits(p), HostBits(net);
    ClearLow(p.addr.value, h);
    FlippedBit(base, h, k);
    AlignedBound(base, h, Len(p.addr.family));
    a := if Contains(net, Masked(p).addr) then Addr(p.addr.family, base + Pow2(k)) else Masked(p).addr;
  }

  // ---------- Prefixes as ranges ----------

  /** Masking takes the remainder away that the host bits are. */
  lemma MaskedIsRemainder(p: Prefix)
    ensures Masked(p).addr.value + p.addr.value % Pow2(HostBits(p)) == p.addr.value
    ensures Masked(p).addr.family == p.addr.family && Masked(p).bits == p.bits
    ensures IsMasked(p) <==> Masked(p) == p
    ensures IsMasked(Masked(p))
  {
    WrapIsRemainder(p.addr.value, HostBits(p));
    ClearLow(p.addr.value, HostBits(p));
  }

  /** A prefix contains the addresses of its family from its masked address on, one for each value of
      the host bits. */
  lemma ContainsIsRange(p: Prefix, a: Addr)
    requires ValidPrefix(p)
    ensures Contains(p, a) <==>
              var start := Masked(p).addr.value;
              a.family == p.addr.family && start <= a.value < start + Pow2(HostBits(p))
  {
    var h, start := HostBits(p), Masked(p).addr.value;
    ClearLow(p.addr.value, h);
    if Shr(a.value, h) == Shr(start, h) {
      SameHigh(a.value, start, h);
      WrapBound(a.value, h);
    }
    if start <= a.value < start + Pow2(h) {
      AddLow(start, a.value - start, h);
    }
  }

  lemma HostPrefixIsOne(a: Addr, b: Addr)
    requires ValidAddr(a)
    ensures ValidPrefix(HostPrefix(a)) && (Contains(HostPrefix(a), b) <==> a == b)
  {
  }
}
