/** Rank and select on tries: how many addresses are covered, and which address
    is the n-th free one. */
module Counting {
  import opened Powers
  import opened Paths
  import opened Tries

  /** Number of addresses covered by a trie of height `h`: the value that
      `childrenCnt` keeps modulo the word size. */
  function Count(t: Trie, h: nat): nat
    requires WellFormed(t, h)
  {
    match t
    case Empty => 0
    case Leaf => Pow2(h)
    case Branch(l, r) => Count(l, h - 1) + Count(r, h - 1)
  }

  lemma {:induction false} CountBound(t: Trie, h: nat)
    requires WellFormed(t, h)
    ensures Count(t, h) <= Pow2(h)
    ensures t.Empty? <==> Count(t, h) == 0
    decreases t
  {
    if t.Branch? {
      CountBound(t.left, h - 1);
      CountBound(t.right, h - 1);
    }
  }

  lemma {:induction false} PutCount(t: Trie, h: nat, p: Path)
    requires WellFormed(t, h) && |p| <= h && Put(t, p).Some?
    ensures WellFormed(Put(t, p).value, h)
    ensures Count(Put(t, p).value, h) == Count(t, h) + BlockSize(p, h)
    decreases p
  {
    PutWellFormed(t, h, p);
    if p != [] {
      PutCount(Child(t, p[0]), h - 1, p[1..]);
    }
  }

  lemma DeleteCount(t: Trie, h: nat, p: Path)
    requires WellFormed(t, h) && |p| <= h && Delete(t, p).Some?
    ensures WellFormed(Delete(t, p).value, h)
    ensures Count(Delete(t, p).value, h) + BlockSize(p, h) == Count(t, h)
  {
    DeleteWellFormed(t, h, p);
    DeleteThenPut(t, h, p);
    PutCount(Delete(t, p).value, h, p);
  }

  // ---------- Covered addresses ----------

  predicate Covers(t: Trie, h: nat, x: nat) {
    Overlaps(t, Bits(x, h, h))
  }

  function Addrs(t: Trie, h: nat): set<nat> {
    set x: nat | x < Pow2(h) && Covers(t, h, x)
  }

  /** An address is covered iff it lies in a stored block. */
  lemma CoversIff(t: Trie, h: nat, x: nat)
    requires WellFormed(t, h) && x < Pow2(h)
    ensures forall p :: p in Held(t) ==> |p| <= h
    ensures Covers(t, h, x) <==> exists p :: p in Held(t) && InBlock(x, p, h)
  {
    HeldShort(t, h);
    var q := Bits(x, h, h);
    OverlapsIff(t, h, q);
    if Covers(t, h, x) {
      var p :| Sub(t, p).Leaf? && Comparable(q, p);
      HeldIff(t, p);
      PrefixOfAddress(x, p, h);
      assert p in Held(t) && InBlock(x, p, h);
    }
    forall p | p in Held(t) && InBlock(x, p, h) ensures Covers(t, h, x) {
      HeldIff(t, p);
      PrefixOfAddress(x, p, h);
    }
  }

  lemma PrefixOfAddress(x: nat, p: Path, h: nat)
    requires |p| <= h && x < Pow2(h)
    ensures InBlock(x, p, h) <==> Comparable(Bits(x, h, h), p)
  {
    InBlockIffPrefix(x, p, h);
    if Bits(x, h, h) <= p {
      assert p == Bits(x, h, h);
    }
  }

  lemma BitsOfHalves(y: nat, h: nat)
    requires h > 0 && y < Pow2(h - 1)
    ensures Bits(y, h, h) == [false] + Bits(y, h - 1, h - 1)
    ensures Bits(Pow2(h - 1) + y, h, h) == [true] + Bits(y, h - 1, h - 1)
  {
    var half := Pow2(h - 1);
    TopBit(y, h - 1);
    WrapSmall(y, h - 1);
    WrapSmall(y, h);
    TopBit(half + y, h - 1);
    WrapSmall(half + y, h);
    WrapBound(half + y, h - 1);
    BitsOfWrap(half + y, h - 1, h - 1, h - 1);
  }

  /** Covered addresses of a branch: those of the left half, then those of the right half. */
  lemma CoversHalf(t: Trie, h: nat, y: nat)
    requires h > 0 && !t.Leaf? && y < Pow2(h - 1)
    ensures Covers(t, h, y) <==> Covers(Child(t, false), h - 1, y)
    ensures Covers(t, h, Pow2(h - 1) + y) <==> Covers(Child(t, true), h - 1, y)
  {
    BitsOfHalves(y, h);
    var q := Bits(y, h - 1, h - 1);
    assert ([false] + q)[1..] == q == ([true] + q)[1..];
  }

  /** Number of members of `a` below `x`. */
  function Rank(a: set<nat>, x: nat): (r: nat)
    ensures r <= x
  {
    if x == 0 then 0 else Rank(a, x - 1) + (if x - 1 in a then 1 else 0)
  }

  /** Number of non-members of `a` below `x`. */
  function FreeBelow(a: set<nat>, x: nat): nat {
    x - Rank(a, x)
  }

  lemma {:induction false} RankAgree(a: set<nat>, b: set<nat>, x: nat)
    requires forall y: nat :: y < x ==> (y in a <==> y in b)
    ensures Rank(a, x) == Rank(b, x)
  {
    if x != 0 {
      RankAgree(a, b, x - 1);
    }
  }

  lemma {:induction false} RankShift(a: set<nat>, b: set<nat>, m: nat, x: nat)
    requires forall y: nat :: y < x ==> (m + y in a <==> y in b)
    ensures Rank(a, m + x) == Rank(a, m) + Rank(b, x)
    decreases x
  {
    if x != 0 {
      RankShift(a, b, m, x - 1);
    }
  }

  lemma {:induction false} RankIsCardinality(a: set<nat>, x: nat)
    requires forall y :: y in a ==> y < x
    ensures Rank(a, x) == |a|
    decreases x
  {
    if x == 0 {
      assert a == {};
    } else {
      RankIsCardinality(a - {x - 1}, x - 1);
      RankAgree(a, a - {x - 1}, x - 1);
    }
  }

  lemma {:induction false} RankMonotone(a: set<nat>, x: nat, y: nat)
    requires x <= y
    ensures Rank(a, x) <= Rank(a, y) <= Rank(a, x) + (y - x)
    ensures (exists z: nat :: x <= z < y && z !in a) ==> FreeBelow(a, x) < FreeBelow(a, y)
    decreases y
  {
    if x < y {
      RankMonotone(a, x, y - 1);
    }
  }

  /** Rank in the left half of a branch. */
  lemma RankLeft(t: Trie, h: nat, x: nat)
    requires h > 0 && !t.Leaf? && x <= Pow2(h - 1)
    ensures Rank(Addrs(t, h), x) == Rank(Addrs(Child(t, false), h - 1), x)
  {
    var a, b := Addrs(t, h), Addrs(Child(t, false), h - 1);
    assert Rank(a, x) == Rank(b, x) by {
      forall y: nat | y < x ensures y in a <==> y in b {
        CoversHalf(t, h, y);
      }
      RankAgree(a, b, x);
    }
  }

  lemma RankFromHalf(t: Trie, h: nat, x: nat)
    requires h > 0 && !t.Leaf? && x <= Pow2(h - 1)
    ensures Rank(Addrs(t, h), Pow2(h - 1) + x)
         == Rank(Addrs(t, h), Pow2(h - 1)) + Rank(Addrs(Child(t, true), h - 1), x)
  {
    var a, b, m := Addrs(t, h), Addrs(Child(t, true), h - 1), Pow2(h - 1);
    forall y: nat | y < x ensures m + y in a <==> y in b {
      CoversHalf(t, h, y);
    }
    RankShift(a, b, m, x);
  }

  /** Rank in the right half of a branch: the whole left half comes before. */
  lemma RankRight(t: Trie, h: nat, x: nat)
    requires h > 0 && !t.Leaf? && x <= Pow2(h - 1)
    ensures Rank(Addrs(t, h), Pow2(h - 1) + x)
         == Rank(Addrs(Child(t, false), h - 1), Pow2(h - 1)) + Rank(Addrs(Child(t, true), h - 1), x)
  {
    RankLeft(t, h, Pow2(h - 1));
    RankFromHalf(t, h, x);
  }

  lemma {:induction false} RankFull(a: set<nat>, x: nat)
    requires forall y: nat :: y < x ==> y in a
    ensures Rank(a, x) == x
  {
    if x != 0 {
      RankFull(a, x - 1);
    }
  }

  lemma {:induction false} RankNone(a: set<nat>, x: nat)
    requires forall y: nat :: y < x ==> y !in a
    ensures Rank(a, x) == 0
  {
    if x != 0 {
      RankNone(a, x - 1);
    }
  }

  lemma RankOfEmpty(h: nat, x: nat)
    ensures Rank(Addrs(Empty, h), x) == 0
  {
    RankNone(Addrs(Empty, h), x);
  }

  lemma RankOfLeaf(h: nat)
    ensures Rank(Addrs(Leaf, h), Pow2(h)) == Pow2(h)
  {
    RankFull(Addrs(Leaf, h), Pow2(h));
  }

  lemma {:induction false} CountIsRank(t: Trie, h: nat)
    requires WellFormed(t, h)
    ensures Count(t, h) == Rank(Addrs(t, h), Pow2(h))
    decreases h
  {
    match t
    case Empty => RankOfEmpty(h, Pow2(h));
    case Leaf => RankOfLeaf(h);
    case Branch(l, r) =>
      CountIsRank(l, h - 1);
      CountIsRank(r, h - 1);
      RankRight(t, h, Pow2(h - 1));
  }

  /** The counter of a trie is the number of addresses it covers. */
  lemma CountIsCardinality(t: Trie, h: nat)
    requires WellFormed(t, h)
    ensures Count(t, h) == |Addrs(t, h)|
  {
    CountIsRank(t, h);
    RankIsCardinality(Addrs(t, h), Pow2(h));
  }

  // ---------- Select ----------

  /** The address found by walking down and skipping the free addresses of left subtries. */
  function NthFree(t: Trie, h: nat, n: nat): nat
    requires WellFormed(t, h) && n < Pow2(h) - Count(t, h)
    decreases h
  {
    if t.Empty? then n
    else
      var half := Pow2(h - 1);
      CountBound(Child(t, false), h - 1);
      var leftFree := half - Count(Child(t, false), h - 1);
      if n < leftFree then NthFree(Child(t, false), h - 1, n)
      else half + NthFree(Child(t, true), h - 1, n - leftFree)
  }

  lemma NthFreeUnfolds(t: Trie, h: nat, n: nat)
    requires WellFormed(t, h) && n < Pow2(h) - Count(t, h) && !t.Empty?
    ensures h > 0 && t.Branch? && Count(t.left, h - 1) <= Pow2(h - 1)
    ensures var leftFree := Pow2(h - 1) - Count(t.left, h - 1);
            && (n < leftFree ==> NthFree(t, h, n) == NthFree(t.left, h - 1, n))
            && (n >= leftFree ==>
                  && n - leftFree < Pow2(h - 1) - Count(t.right, h - 1)
                  && NthFree(t, h, n) == Pow2(h - 1) + NthFree(t.right, h - 1, n - leftFree))
  {
    CountBound(t, h);
    CountBound(t.left, h - 1);
  }

  ghost predicate IsNthFree(t: Trie, h: nat, n: nat, x: nat) {
    x < Pow2(h) && x !in Addrs(t, h) && FreeBelow(Addrs(t, h), x) == n
  }

  /** `NthFree(n)` is the free address with exactly `n` free addresses below it. */
  lemma {:induction false} NthFreeIsSelect(t: Trie, h: nat, n: nat)
    requires WellFormed(t, h) && n < Pow2(h) - Count(t, h)
    ensures IsNthFree(t, h, n, NthFree(t, h, n))
    decreases h
  {
    if t.Empty? {
      RankOfEmpty(h, n);
    } else {
      NthFreeUnfolds(t, h, n);
      var leftFree := Pow2(h - 1) - Count(t.left, h - 1);
      if n < leftFree {
        NthFreeIsSelect(t.left, h - 1, n);
        SelectLeft(t, h, n, NthFree(t.left, h - 1, n));
      } else {
        NthFreeIsSelect(t.right, h - 1, n - leftFree);
        SelectRight(t, h, n - leftFree, NthFree(t.right, h - 1, n - leftFree));
      }
    }
  }

  lemma SelectLeft(t: Trie, h: nat, n: nat, y: nat)
    requires h > 0 && t.Branch? && IsNthFree(t.left, h - 1, n, y)
    ensures IsNthFree(t, h, n, y)
  {
    CoversHalf(t, h, y);
    RankLeft(t, h, y);
  }

  lemma SelectRight(t: Trie, h: nat, n: nat, y: nat)
    requires t.Branch? && WellFormed(t, h) && IsNthFree(t.right, h - 1, n, y)
    ensures Count(t.left, h - 1) <= Pow2(h - 1)
    ensures IsNthFree(t, h, Pow2(h - 1) - Count(t.left, h - 1) + n, Pow2(h - 1) + y)
  {
    CountBound(t.left, h - 1);
    CoversHalf(t, h, y);
    RankRight(t, h, y);
    CountIsRank(t.left, h - 1);
  }

  /** At most one address is the n-th free one. */
  lemma SelectUnique(a: set<nat>, x: nat, y: nat)
    requires x !in a && y !in a && FreeBelow(a, x) == FreeBelow(a, y)
    ensures x == y
  {
    var lo, hi := if x < y then x else y, if x < y then y else x;
    RankMonotone(a, lo, hi);
  }

  /** Taking the n-th free address is a single-address `Put` that cannot fail. */
  lemma NthFreeCanBePut(t: Trie, h: nat, n: nat)
    requires WellFormed(t, h) && n < Pow2(h) - Count(t, h)
    ensures Put(t, Bits(NthFree(t, h, n), h, h)).Some?
  {
    NthFreeIsSelect(t, h, n);
    PutIffFree(t, Bits(NthFree(t, h, n), h, h));
  }
}
