/** The flat model of a tree, as in the repository's own `dumbUintTree`
    (nettree/tree_test.go): a set of address ranges, searched address by address. */
module FlatModel {
  import opened Powers
  import opened Paths
  import opened Tries
  import opened Counting

  /** The range of `2^(h - bits)` addresses from `start`, in a net with `h` host bits. */
  datatype Block = Block(start: nat, bits: nat)

  function Hosts(b: Block, h: nat): nat {
    if b.bits <= h then Pow2(h - b.bits) else 0
  }

  predicate Contains(b: Block, h: nat, x: nat) {
    b.start <= x < b.start + Hosts(b, h)
  }

  /** The block of the first `bits` bits of `addr`, the bits above `h` ignored. */
  function Requested(addr: nat, h: nat, bits: nat): Block
    requires bits <= h
  {
    StartOfBits(addr, h, bits);
    Block(Wrap(addr, h) - Wrap(addr, h - bits), bits)
  }

  /** The two ranges have an address in common. */
  ghost predicate Share(b: Block, c: Block, h: nat) {
    exists x: nat :: Contains(b, h, x) && Contains(c, h, x)
  }

  ghost predicate Overlaps(s: set<Block>, h: nat, b: Block) {
    exists c :: c in s && Share(b, c, h)
  }

  predicate InSome(s: set<Block>, h: nat, x: nat) {
    exists c :: c in s && Contains(c, h, x)
  }

  function Covered(s: set<Block>, h: nat): set<nat> {
    set x: nat | x < Pow2(h) && InSome(s, h, x)
  }

  /** Looks at the addresses from `x` on, skipping `n` free ones; `top` if there are too few. */
  function Scan(a: set<nat>, x: nat, n: nat, top: nat): nat
    decreases top - x
  {
    if x >= top then top
    else if x in a then Scan(a, x + 1, n, top)
    else if n == 0 then x
    else Scan(a, x + 1, n - 1, top)
  }

  // ---------- Blocks of a trie ----------

  function BlockOf(p: Path, h: nat): Block
    requires |p| <= h
  {
    Block(Start(p, h), |p|)
  }

  function Blocks(t: Trie, h: nat): set<Block> {
    set p | p in Held(t) && |p| <= h :: BlockOf(p, h)
  }

  lemma RequestedIsPath(addr: nat, h: nat, bits: nat)
    requires bits <= h
    ensures Requested(addr, h, bits) == BlockOf(Bits(addr, h, bits), h)
  {
    StartOfBits(addr, h, bits);
  }

  lemma BlockOfInjective(p: Path, q: Path, h: nat)
    requires |p| <= h && |q| <= h && BlockOf(p, h) == BlockOf(q, h)
    ensures p == q
  {
    BitsOfStart(p, h);
    BitsOfStart(q, h);
  }

  lemma InBlocks(t: Trie, h: nat, p: Path)
    requires |p| <= h
    ensures BlockOf(p, h) in Blocks(t, h) <==> p in Held(t)
  {
    if BlockOf(p, h) in Blocks(t, h) {
      var q :| q in Held(t) && |q| <= h && BlockOf(q, h) == BlockOf(p, h);
      BlockOfInjective(p, q, h);
    }
  }

  /** Two blocks share an address iff their paths are comparable. */
  lemma ShareIffComparable(p: Path, q: Path, h: nat)
    requires |p| <= h && |q| <= h
    ensures Comparable(p, q) <==> Share(BlockOf(p, h), BlockOf(q, h), h)
  {
    ComparableIffMeet(p, q, h);
    if Comparable(p, q) {
      var x: nat :| InBlock(x, p, h) && InBlock(x, q, h);
      assert Contains(BlockOf(p, h), h, x) && Contains(BlockOf(q, h), h, x);
    }
    forall x: nat | Contains(BlockOf(p, h), h, x) && Contains(BlockOf(q, h), h, x) ensures Comparable(p, q) {
      assert InBlock(x, p, h) && InBlock(x, q, h);
    }
  }

  lemma BlockIsHeld(t: Trie, h: nat, b: Block) returns (p: Path)
    requires b in Blocks(t, h)
    ensures p in Held(t) && |p| <= h && b == BlockOf(p, h)
  {
    p :| p in Held(t) && |p| <= h && b == BlockOf(p, h);
  }

  /** The stored blocks of a trie are pairwise disjoint ranges inside the net. */
  lemma BlocksDisjoint(t: Trie, h: nat, b: Block, c: Block)
    requires WellFormed(t, h) && b in Blocks(t, h) && c in Blocks(t, h) && b != c
    ensures b.bits <= h && b.start + Hosts(b, h) <= Pow2(h)
    ensures !Share(b, c, h)
  {
    var p := BlockIsHeld(t, h, b);
    var q := BlockIsHeld(t, h, c);
    StartBound(p, h);
    HeldIff(t, p);
    HeldIff(t, q);
    assert !Comparable(p, q) by {
      if Comparable(p, q) {
        LeavesApart(t, p, q);
      }
    }
    ShareIffComparable(p, q, h);
  }

  // ---------- Each operation agrees with the flat model ----------

  lemma OverlapsRefines(t: Trie, h: nat, addr: nat, bits: nat)
    requires WellFormed(t, h) && bits <= h
    ensures Tries.Overlaps(t, Bits(addr, h, bits)) <==> Overlaps(Blocks(t, h), h, Requested(addr, h, bits))
  {
    var p := Bits(addr, h, bits);
    RequestedIsPath(addr, h, bits);
    OverlapsIff(t, h, p);
    HeldShort(t, h);
    if Tries.Overlaps(t, p) {
      var q :| Sub(t, q).Leaf? && Comparable(p, q);
      HeldIff(t, q);
      InBlocks(t, h, q);
      ShareIffComparable(p, q, h);
    }
    forall c | c in Blocks(t, h) && Share(BlockOf(p, h), c, h)
      ensures Tries.Overlaps(t, p)
    {
      var q :| q in Held(t) && |q| <= h && c == BlockOf(q, h);
      HeldIff(t, q);
      ShareIffComparable(p, q, h);
    }
  }

  /** `Put` succeeds iff no stored range meets the requested one, and then adds just that range. */
  lemma PutRefines(t: Trie, h: nat, addr: nat, bits: nat)
    requires WellFormed(t, h) && bits <= h
    ensures Put(t, Bits(addr, h, bits)).Some? <==> !Overlaps(Blocks(t, h), h, Requested(addr, h, bits))
    ensures Put(t, Bits(addr, h, bits)).Some? ==>
              Blocks(Put(t, Bits(addr, h, bits)).value, h) == Blocks(t, h) + {Requested(addr, h, bits)}
  {
    var p := Bits(addr, h, bits);
    OverlapsRefines(t, h, addr, bits);
    PutIffFree(t, p);
    RequestedIsPath(addr, h, bits);
    PutHeld(t, h, p);
  }

  /** `Delete` succeeds iff exactly the requested range is stored, and then removes just that range. */
  lemma DeleteRefines(t: Trie, h: nat, addr: nat, bits: nat)
    requires WellFormed(t, h) && bits <= h
    ensures Delete(t, Bits(addr, h, bits)).Some? <==> Requested(addr, h, bits) in Blocks(t, h)
    ensures Delete(t, Bits(addr, h, bits)).Some? ==>
              Blocks(Delete(t, Bits(addr, h, bits)).value, h) == Blocks(t, h) - {Requested(addr, h, bits)}
  {
    var p := Bits(addr, h, bits);
    RequestedIsPath(addr, h, bits);
    DeleteHeld(t, p);
    InBlocks(t, h, p);
    if Delete(t, p).Some? {
      var t' := Delete(t, p).value;
      forall q | q in Held(t) && |q| <= h && BlockOf(q, h) == BlockOf(p, h) ensures q == p {
        BlockOfInjective(p, q, h);
      }
      assert Blocks(t', h) == Blocks(t, h) - {BlockOf(p, h)};
    }
  }

  lemma ContainsIffInBlock(p: Path, h: nat, x: nat)
    requires |p| <= h
    ensures Contains(BlockOf(p, h), h, x) <==> InBlock(x, p, h)
  {
  }

  lemma InSomeIffCovers(t: Trie, h: nat, x: nat)
    requires WellFormed(t, h) && x < Pow2(h)
    ensures InSome(Blocks(t, h), h, x) <==> Covers(t, h, x)
  {
    CoversIff(t, h, x);
    if Covers(t, h, x) {
      var p :| p in Held(t) && InBlock(x, p, h);
      InBlocks(t, h, p);
      ContainsIffInBlock(p, h, x);
      assert Contains(BlockOf(p, h), h, x);
    }
    if InSome(Blocks(t, h), h, x) {
      var c :| c in Blocks(t, h) && Contains(c, h, x);
      var p := BlockIsHeld(t, h, c);
      ContainsIffInBlock(p, h, x);
    }
  }

  lemma CoveredIsAddrs(t: Trie, h: nat)
    requires WellFormed(t, h)
    ensures Covered(Blocks(t, h), h) == Addrs(t, h)
  {
    forall x: nat | x < Pow2(h) ensures x in Covered(Blocks(t, h), h) <==> x in Addrs(t, h) {
      InSomeIffCovers(t, h, x);
    }
  }

  /** The counter is the number of covered addresses of the flat model. */
  lemma SizeRefines(t: Trie, h: nat)
    requires WellFormed(t, h)
    ensures Count(t, h) == |Covered(Blocks(t, h), h)|
  {
    CoveredIsAddrs(t, h);
    CountIsCardinality(t, h);
  }

  /** Scanning finds the free address `y` if it has `n` more free addresses below it than the start. */
  lemma {:induction false} ScanFinds(a: set<nat>, x: nat, n: nat, y: nat, top: nat)
    requires x <= y < top && y !in a && FreeBelow(a, y) == FreeBelow(a, x) + n
    ensures Scan(a, x, n, top) == y
    decreases y - x
  {
    if x == y {
    } else if x in a {
      ScanFinds(a, x + 1, n, y, top);
    } else {
      RankMonotone(a, x + 1, y);
      ScanFinds(a, x + 1, n - 1, y, top);
    }
  }

  /** Walking down by counters finds the address that scanning finds. */
  lemma NthFreeRefines(t: Trie, h: nat, n: nat)
    requires WellFormed(t, h) && n < Pow2(h) - |Covered(Blocks(t, h), h)|
    ensures Count(t, h) == |Covered(Blocks(t, h), h)|
    ensures NthFree(t, h, n) == Scan(Covered(Blocks(t, h), h), 0, n, Pow2(h)) < Pow2(h)
    ensures NthFree(t, h, n) !in Covered(Blocks(t, h), h)
    ensures Requested(NthFree(t, h, n), h, h) == Block(NthFree(t, h, n), h)
  {
    SizeRefines(t, h);
    CoveredIsAddrs(t, h);
    NthFreeIsSelect(t, h, n);
    ScanFinds(Addrs(t, h), 0, n, NthFree(t, h, n), Pow2(h));
    WrapSmall(NthFree(t, h, n), h);
  }
}
