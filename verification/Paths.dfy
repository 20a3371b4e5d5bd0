/** Bit strings as positions in a binary trie, and the address blocks they name.

    In a net with `h` host bits a CIDR block (RFC 4632, section 3.1) is a bit
    string of length at most `h`: the leading bits shared by its addresses. */
module Paths {
  import opened Powers

  type Path = seq<bool>

  /** The `k` bits of `a` from bit `h - 1` downwards: the walk the source makes
      by testing `addr & msBit` and shifting `addr` left. */
  function Bits(a: nat, h: nat, k: nat): (p: Path)
    requires k <= h
    ensures |p| == k
  {
    if k == 0 then [] else [Bit(a, h - 1)] + Bits(a, h - 1, k - 1)
  }

  /** The lowest address below position `p` of a trie of height `h`. */
  function Start(p: Path, h: nat): nat
    requires |p| <= h
  {
    if p == [] then 0 else (if p[0] then Pow2(h - 1) else 0) + Start(p[1..], h - 1)
  }

  /** Number of addresses below position `p`. */
  function BlockSize(p: Path, h: nat): nat
    requires |p| <= h
  {
    Pow2(h - |p|)
  }

  predicate InBlock(x: nat, p: Path, h: nat)
    requires |p| <= h
  {
    Start(p, h) <= x < Start(p, h) + BlockSize(p, h)
  }

  predicate Comparable(p: Path, q: Path) {
    p <= q || q <= p
  }

  lemma {:induction false} BitsTake(a: nat, h: nat, k: nat, j: nat)
    requires j <= k <= h
    ensures Bits(a, h, k)[..j] == Bits(a, h, j)
  {
    if j != 0 {
      BitsTake(a, h - 1, k - 1, j - 1);
    }
  }

  lemma BitsStep(a: nat, h: nat, j: nat)
    requires j < h
    ensures Bits(a, h, j + 1) == Bits(a, h, j) + [Bit(a, h - 1 - j)]
  {
    if j != 0 {
      BitsStep(a, h - 1, j - 1);
    }
  }

  lemma {:induction false} BitsOfShift(a: nat, w: nat, h: nat, k: nat)
    requires k < h <= w
    ensures Bits(Wrap(2 * a, w), h, k) == Bits(a, h - 1, k)
  {
    if k != 0 {
      BitOfShift(a, w, h - 1);
      BitsOfShift(a, w, h - 1, k - 1);
    }
  }

  lemma {:induction false} BitsOfWrap(a: nat, m: nat, h: nat, k: nat)
    requires k <= h <= m
    ensures Bits(Wrap(a, m), h, k) == Bits(a, h, k)
    decreases k
  {
    if k != 0 {
      BitOfWrap(a, m, h - 1);
      BitsOfWrap(a, m, h - 1, k - 1);
    }
  }

  /** A block lies inside its net. */
  lemma {:induction false} StartBound(p: Path, h: nat)
    requires |p| <= h
    ensures Start(p, h) + BlockSize(p, h) <= Pow2(h)
  {
    if p != [] {
      StartBound(p[1..], h - 1);
    }
  }

  /** One step further down: the right half starts half a block later. */
  lemma {:induction false} StartStep(p: Path, b: bool, h: nat)
    requires |p| < h
    ensures Start(p + [b], h) == Start(p, h) + if b then Pow2(h - 1 - |p|) else 0
    decreases p
  {
    if p == [] {
      assert Start([b][1..], h - 1) == 0;
    } else {
      assert (p + [b])[1..] == p[1..] + [b];
      StartStep(p[1..], b, h - 1);
    }
  }

  /** The start of a block has none of the low bits set. */
  lemma StartAligned(p: Path, h: nat)
    requires |p| < h
    ensures Start(p, h) / Pow2(h - 1 - |p|) % 2 == 0
  {
    var d := h - 1 - |p|;
    BitsOfStart(p, h);
    StartOfBits(Start(p, h), h, |p|);
    StartBound(p, h);
    WrapSmall(Start(p, h), h);
    TopBit(Start(p, h), d);
    BitIsQuotient(Start(p, h), d);
  }

  /** The block named by the first `k` bits of `a` starts at `a` with its other bits cleared. */
  lemma {:induction false} StartOfBits(a: nat, h: nat, k: nat)
    requires k <= h
    ensures Start(Bits(a, h, k), h) == Wrap(a, h) - Wrap(a, h - k)
  {
    if k != 0 {
      StartOfBits(a, h - 1, k - 1);
      TopBit(a, h - 1);
      assert Bits(a, h, k)[1..] == Bits(a, h - 1, k - 1);
    }
  }

  /** One level down: an address is in a block iff it is in the half the block's first bit
      names, and its offset there is in the rest of the block. */
  lemma InBlockStep(x: nat, p: Path, h: nat, y: nat)
    requires p != [] && |p| <= h && y < Pow2(h - 1)
    requires x == (if Bit(x, h - 1) then Pow2(h - 1) else 0) + y
    ensures InBlock(x, p, h) <==> p[0] == Bit(x, h - 1) && InBlock(y, p[1..], h - 1)
  {
    StartBound(p[1..], h - 1);
    var half, start := Pow2(h - 1), Start(p[1..], h - 1);
    assert Start(p, h) == (if p[0] then half else 0) + start;
    assert BlockSize(p, h) == BlockSize(p[1..], h - 1);
  }

  /** The same for its bits. */
  lemma PrefixStep(x: nat, p: Path, h: nat, y: nat)
    requires p != [] && |p| <= h && y == Wrap(x, h - 1)
    ensures p <= Bits(x, h, h) <==> p[0] == Bit(x, h - 1) && p[1..] <= Bits(y, h - 1, h - 1)
  {
    BitsOfWrap(x, h - 1, h - 1, h - 1);
    PrefixCons(p, Bit(x, h - 1), Bits(y, h - 1, h - 1));
  }

  /** An address is in a block iff the block's bits are its leading bits. */
  lemma {:induction false} InBlockIffPrefix(x: nat, p: Path, h: nat)
    requires |p| <= h && x < Pow2(h)
    ensures InBlock(x, p, h) <==> p <= Bits(x, h, h)
    decreases p
  {
    if p == [] {
    } else {
      var y := Wrap(x, h - 1);
      assert y < Pow2(h - 1) && x == (if Bit(x, h - 1) then Pow2(h - 1) else 0) + y by {
        WrapBound(x, h - 1);
        TopBit(x, h - 1);
        WrapSmall(x, h);
      }
      InBlockStep(x, p, h, y);
      InBlockIffPrefix(y, p[1..], h - 1);
      PrefixStep(x, p, h, y);
    }
  }

  lemma PrefixCons(p: Path, b: bool, q: Path)
    requires p != []
    ensures p <= [b] + q <==> p[0] == b && p[1..] <= q
  {
    assert p == [p[0]] + p[1..];
  }

  lemma {:induction false} BitsOfStart(p: Path, h: nat)
    requires |p| <= h
    ensures Bits(Start(p, h), h, |p|) == p
  {
    StartBound(p, h);
    InBlockIffPrefix(Start(p, h), p, h);
    BitsTake(Start(p, h), h, h, |p|);
  }

  /** Two blocks of one net share an address iff one lies inside the other. */
  lemma ComparableIffMeet(p: Path, q: Path, h: nat)
    requires |p| <= h && |q| <= h
    ensures Comparable(p, q) <==> exists x: nat :: InBlock(x, p, h) && InBlock(x, q, h)
    ensures Comparable(p, q) <==>
              Start(p, h) < Start(q, h) + BlockSize(q, h) && Start(q, h) < Start(p, h) + BlockSize(p, h)
  {
    StartBound(p, h);
    StartBound(q, h);
    if Comparable(p, q) {
      var x := if p <= q then Start(q, h) else Start(p, h);
      InBlockIffPrefix(x, p, h);
      InBlockIffPrefix(x, q, h);
      assert InBlock(x, p, h) && InBlock(x, q, h);
    }
    if Start(p, h) < Start(q, h) + BlockSize(q, h) && Start(q, h) < Start(p, h) + BlockSize(p, h) {
      var x := if Start(p, h) < Start(q, h) then Start(q, h) else Start(p, h);
      assert InBlock(x, p, h) && InBlock(x, q, h);
    }
    forall x: nat | InBlock(x, p, h) && InBlock(x, q, h)
      ensures Comparable(p, q)
    {
      InBlockIffPrefix(x, p, h);
      InBlockIffPrefix(x, q, h);
    }
  }
}
