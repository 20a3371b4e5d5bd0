/** Powers of two, single bits, and machine words.

    A word of Go type `uintN` is a natural number below `Pow2(N)`. What a word
    keeps of a number is `Wrap`, what a right shift leaves is `Shr`; both halve
    the number bit by bit, which keeps the arithmetic linear. */
module Powers {

  function Pow2(n: nat): (r: nat)
    ensures r >= 1
  {
    if n == 0 then 1 else 2 * Pow2(n - 1)
  }

  lemma {:induction false} Pow2Monotone(a: nat, b: nat)
    requires a <= b
    ensures Pow2(a) <= Pow2(b)
    decreases b
  {
    if a < b {
      Pow2Monotone(a, b - 1);
    }
  }

  /** Bit `i` of `x`, counted from the least significant one. */
  predicate Bit(x: nat, i: nat) {
    if i == 0 then x % 2 == 1 else Bit(x / 2, i - 1)
  }

  /** The low `w` bits of `x`: what a Go word of width `w` keeps of it. */
  function Wrap(x: nat, w: nat): nat {
    if w == 0 then 0 else x % 2 + 2 * Wrap(x / 2, w - 1)
  }

  /** `x >> k`. */
  function Shr(x: nat, k: nat): nat {
    if k == 0 then x else Shr(x / 2, k - 1)
  }

  // ---------- The same as quotients and remainders ----------

  lemma MulOrder(p: nat, q: nat, d: nat)
    requires p < q
    ensures p * d + d <= q * d
  {
    var r := q - p - 1;
    assert r * d >= 0;
    assert q * d == (p + 1 + r) * d == p * d + d + r * d;
  }

  lemma DivUnique(x: nat, d: nat, q: nat, r: nat)
    requires d > 0 && r < d && x == q * d + r
    ensures x / d == q && x % d == r
  {
    var p := x / d;
    if p < q {
      MulOrder(p, q, d);
    } else if q < p {
      MulOrder(q, p, d);
    }
  }

  lemma Halving(x: nat, d: nat)
    requires d > 0
    ensures x / (2 * d) == x / 2 / d && x % (2 * d) == 2 * (x / 2 % d) + x % 2
  {
    var q, r := x / 2 / d, x / 2 % d;
    assert x / 2 == q * d + r;
    assert x == q * (2 * d) + (2 * r + x % 2);
    DivUnique(x, 2 * d, q, 2 * r + x % 2);
  }

  lemma {:induction false} ShrIsQuotient(x: nat, k: nat)
    ensures Shr(x, k) == x / Pow2(k)
  {
    if k != 0 {
      ShrIsQuotient(x / 2, k - 1);
      Halving(x, Pow2(k - 1));
    }
  }

  lemma {:induction false} WrapIsRemainder(x: nat, w: nat)
    ensures Wrap(x, w) == x % Pow2(w)
  {
    if w != 0 {
      WrapIsRemainder(x / 2, w - 1);
      Halving(x, Pow2(w - 1));
    }
  }

  /** The test `x & (1 << i) != 0` of the source, as a quotient. */
  lemma {:induction false} BitIsQuotient(x: nat, i: nat)
    ensures Bit(x, i) <==> x / Pow2(i) % 2 == 1
  {
    if i != 0 {
      BitIsQuotient(x / 2, i - 1);
      Halving(x, Pow2(i - 1));
    }
  }

  // ---------- Bits of words ----------

  lemma {:induction false} WrapBound(x: nat, w: nat)
    ensures Wrap(x, w) < Pow2(w) && Wrap(x, w) <= x
  {
    if w != 0 {
      WrapBound(x / 2, w - 1);
    }
  }

  lemma {:induction false} WrapSmall(x: nat, w: nat)
    requires x < Pow2(w)
    ensures Wrap(x, w) == x && Shr(x, w) == 0
  {
    if w != 0 {
      WrapSmall(x / 2, w - 1);
    }
  }

  lemma {:induction false} WrapFull(w: nat)
    ensures Wrap(Pow2(w), w) == 0
  {
    if w != 0 {
      WrapFull(w - 1);
    }
  }

  lemma {:induction false} WrapWrap(x: nat, a: nat, b: nat)
    requires a <= b
    ensures Wrap(Wrap(x, b), a) == Wrap(x, a)
    decreases a
  {
    if a != 0 {
      WrapWrap(x / 2, a - 1, b - 1);
    }
  }

  lemma {:induction false} BitOfWrap(x: nat, w: nat, i: nat)
    requires i < w
    ensures Bit(Wrap(x, w), i) == Bit(x, i)
    decreases i
  {
    assert Wrap(x, w) / 2 == Wrap(x / 2, w - 1) && Wrap(x, w) % 2 == x % 2;
    if i != 0 {
      BitOfWrap(x / 2, w - 1, i - 1);
    }
  }

  /** Shifting a `w`-bit word left by one moves every bit that stays inside up by one. */
  lemma {:induction false} BitOfShift(x: nat, w: nat, i: nat)
    requires 0 < i < w
    ensures Bit(Wrap(2 * x, w), i) == Bit(x, i - 1)
  {
    BitOfWrap(2 * x, w, i);
    assert 2 * x / 2 == x;
  }

  /** The low `m + 1` bits are the top one of them plus the low `m` bits. */
  lemma {:induction false} TopBit(x: nat, m: nat)
    ensures Wrap(x, m + 1) == (if Bit(x, m) then Pow2(m) else 0) + Wrap(x, m)
    decreases m
  {
    if m != 0 {
      TopBit(x / 2, m - 1);
    }
  }

  lemma {:induction false} ShrBit(x: nat, m: nat)
    ensures Shr(x, m) == 2 * Shr(x, m + 1) + if Bit(x, m) then 1 else 0
    decreases m
  {
    if m != 0 {
      ShrBit(x / 2, m - 1);
    }
  }

  /** Numbers that agree above bit `k` agree above every higher bit. */
  lemma {:induction false} ShrAgree(x: nat, y: nat, k: nat, m: nat)
    requires k <= m && Shr(x, k) == Shr(y, k)
    ensures Shr(x, m) == Shr(y, m)
    decreases k
  {
    if k != 0 {
      ShrAgree(x / 2, y / 2, k - 1, m - 1);
    }
  }

  // ---------- Numbers with their low bits clear ----------

  lemma {:induction false} AddLow(x: nat, s: nat, h: nat)
    requires Wrap(x, h) == 0 && s < Pow2(h)
    ensures Shr(x + s, h) == Shr(x, h) && Wrap(x + s, h) == s
    decreases h
  {
    if h != 0 {
      assert (x + s) / 2 == x / 2 + s / 2;
      AddLow(x / 2, s / 2, h - 1);
    }
  }

  lemma {:induction false} AddBlock(x: nat, k: nat)
    ensures Shr(x + Pow2(k), k) == Shr(x, k) + 1
  {
    if k != 0 {
      assert (x + Pow2(k)) / 2 == x / 2 + Pow2(k - 1);
      AddBlock(x / 2, k - 1);
    }
  }

  lemma {:induction false} AlignedBound(x: nat, h: nat, w: nat)
    requires h <= w && x < Pow2(w) && Wrap(x, h) == 0
    ensures x + Pow2(h) <= Pow2(w)
    decreases h
  {
    if h != 0 {
      AlignedBound(x / 2, h - 1, w - 1);
    }
  }

  /** A number is the aligned number with the same leading bits plus its low bits. */
  lemma {:induction false} SameHigh(x: nat, n: nat, h: nat)
    requires Shr(x, h) == Shr(n, h) && Wrap(n, h) == 0
    ensures x == n + Wrap(x, h)
    decreases h
  {
    if h != 0 {
      SameHigh(x / 2, n / 2, h - 1);
    }
  }

  lemma {:induction false} ClearLow(x: nat, h: nat)
    ensures Wrap(x, h) <= x
    ensures Shr(x - Wrap(x, h), h) == Shr(x, h) && Wrap(x - Wrap(x, h), h) == 0
  {
    WrapBound(x, h);
    if h != 0 {
      ClearLow(x / 2, h - 1);
      assert (x - Wrap(x, h)) / 2 == x / 2 - Wrap(x / 2, h - 1);
    }
  }

  // ---------- Sums and differences of words ----------

  lemma {:induction false} WrapCarry(x: nat, y: nat, c: nat, w: nat)
    ensures Wrap(Wrap(x, w) + Wrap(y, w) + c, w) == Wrap(x + y + c, w)
    decreases w
  {
    if w != 0 {
      var carry := (x % 2 + y % 2 + c) / 2;
      assert (x + y + c) / 2 == x / 2 + y / 2 + carry;
      assert (Wrap(x, w) + Wrap(y, w) + c) / 2 == Wrap(x / 2, w - 1) + Wrap(y / 2, w - 1) + carry;
      WrapCarry(x / 2, y / 2, carry, w - 1);
    }
  }

  /** A counter kept in a word follows additions and subtractions. */
  lemma WrapAdd(x: nat, y: nat, w: nat)
    ensures Wrap(Wrap(x, w) + Wrap(y, w), w) == Wrap(x + y, w)
  {
    WrapCarry(x, y, 0, w);
  }

  /** Halving a sum with a word-sized complement: the parities cancel. */
  lemma BorrowHalves(x: nat, y: nat, w: nat)
    requires y <= x && w > 0
    ensures Wrap(y, w) <= Pow2(w) && Wrap(y / 2, w - 1) <= Pow2(w - 1)
    ensures var e, z, d := x + (Pow2(w) - Wrap(y, w)), x - y % 2, Pow2(w - 1) - Wrap(y / 2, w - 1);
            e == z + 2 * d
  {
    WrapBound(y, w);
    WrapBound(y / 2, w - 1);
  }

  lemma {:induction false} WrapBorrow(x: nat, y: nat, w: nat)
    requires y <= x
    ensures Wrap(y, w) <= Pow2(w)
    ensures Wrap(x + (Pow2(w) - Wrap(y, w)), w) == Wrap(x - y, w)
    decreases w
  {
    WrapBound(y, w);
    if w != 0 {
      BorrowHalves(x, y, w);
      var z, d := x - y % 2, Pow2(w - 1) - Wrap(y / 2, w - 1);
      var e := x + (Pow2(w) - Wrap(y, w));
      assert e / 2 == z / 2 + d && e % 2 == z % 2 by {
        assert e == z + 2 * d;
      }
      assert (x - y) / 2 == z / 2 - y / 2 && (x - y) % 2 == z % 2;
      WrapBorrow(z / 2, y / 2, w - 1);
    }
  }

  lemma WrapSub(x: nat, y: nat, w: nat)
    requires y <= x
    ensures Wrap(y, w) <= Pow2(w)
    ensures Wrap(Wrap(x, w) + (Pow2(w) - Wrap(y, w)), w) == Wrap(x - y, w)
  {
    WrapBorrow(x, y, w);
    WrapSmall(0, w);
    WrapCarry(x, 0, Pow2(w) - Wrap(y, w), w);
  }
}
