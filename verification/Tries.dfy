/** Pure binary tries: the value that the pointer tree of nettree/tree.go stands for.

    `Empty` is a nil pointer, `Leaf` a node without children (a stored block)
    and `Branch` any other node. */
module Tries {
  import opened Paths

  datatype Option<+T> = None | Some(value: T)

  datatype Trie = Empty | Leaf | Branch(left: Trie, right: Trie)

  /** At most `h` levels below the root, and no node that merely looks like a branch. */
  ghost predicate WellFormed(t: Trie, h: nat) {
    match t
    case Branch(l, r) =>
      h > 0 && !(l.Empty? && r.Empty?) && WellFormed(l, h - 1) && WellFormed(r, h - 1)
    case _ => true
  }

  function Child(t: Trie, b: bool): Trie {
    if t.Branch? then (if b then t.right else t.left) else Empty
  }

  /** The subtrie at position `p`. */
  function Sub(t: Trie, p: Path): Trie
    decreases p
  {
    if p == [] then t else Sub(Child(t, p[0]), p[1..])
  }

  function Put(t: Trie, p: Path): Option<Trie>
    decreases p
  {
    if p == [] then (if t.Empty? then Some(Leaf) else None)
    else if t.Leaf? then None
    else
      match Put(Child(t, p[0]), p[1..])
      case None => None
      case Some(c) => Some(if p[0] then Branch(Child(t, false), c) else Branch(c, Child(t, true)))
  }

  /** A branch, or nothing when both children are gone. */
  function Join(l: Trie, r: Trie): Trie {
    if l.Empty? && r.Empty? then Empty else Branch(l, r)
  }

  function Delete(t: Trie, p: Path): Option<Trie>
    decreases p
  {
    if p == [] then (if t.Leaf? then Some(Empty) else None)
    else
      match Delete(Child(t, p[0]), p[1..])
      case None => None
      case Some(c) => Some(if p[0] then Join(Child(t, false), c) else Join(c, Child(t, true)))
  }

  predicate Overlaps(t: Trie, p: Path)
    decreases p
  {
    if t.Empty? then false
    else if p == [] || t.Leaf? then true
    else Overlaps(Child(t, p[0]), p[1..])
  }

  // ---------- Positions ----------

  lemma {:induction false} SubAppend(t: Trie, p: Path, q: Path)
    ensures Sub(t, p + q) == Sub(Sub(t, p), q)
    decreases p
  {
    if p == [] {
      assert p + q == q;
    } else {
      assert (p + q)[1..] == p[1..] + q;
      SubAppend(Child(t, p[0]), p[1..], q);
    }
  }

  lemma SubChild(t: Trie, p: Path, b: bool)
    ensures Sub(t, p + [b]) == Child(Sub(t, p), b)
  {
    SubAppend(t, p, [b]);
    assert Sub(Sub(t, p), [b]) == Sub(Child(Sub(t, p), b), [b][1..]);
  }

  lemma {:induction false} SubOfEmpty(t: Trie, p: Path)
    requires t.Empty? || (t.Leaf? && p != [])
    ensures Sub(t, p).Empty?
    decreases p
  {
    if p != [] {
      SubOfEmpty(Child(t, p[0]), p[1..]);
    }
  }

  lemma {:induction false} SubWellFormed(t: Trie, h: nat, p: Path)
    requires WellFormed(t, h)
    ensures !Sub(t, p).Empty? ==> |p| <= h && WellFormed(Sub(t, p), h - |p|)
    decreases p
  {
    if p != [] {
      if t.Branch? {
        SubWellFormed(Child(t, p[0]), h - 1, p[1..]);
      } else {
        SubOfEmpty(t, p);
      }
    }
  }

  /** A well-formed trie that is not empty holds some block. */
  lemma {:induction false} SomeLeaf(t: Trie, h: nat) returns (p: Path)
    requires WellFormed(t, h) && !t.Empty?
    ensures Sub(t, p).Leaf?
    decreases t
  {
    if t.Leaf? {
      p := [];
    } else {
      var b := t.left.Empty?;
      var q := SomeLeaf(Child(t, b), h - 1);
      p := [b] + q;
      assert p[1..] == q;
    }
  }

  /** Two leaves are never above one another. */
  lemma LeavesApart(t: Trie, p: Path, q: Path)
    requires Sub(t, p).Leaf? && Sub(t, q).Leaf? && Comparable(p, q)
    ensures p == q
  {
    var (s, l) := if p <= q then (p, q) else (q, p);
    assert l == s + l[|s|..];
    SubAppend(t, s, l[|s|..]);
    if l[|s|..] != [] {
      SubOfEmpty(Leaf, l[|s|..]);
    }
  }

  // ---------- What the operations mean ----------

  /** `Overlaps` answers whether some stored block is comparable with the given one. */
  lemma {:induction false} OverlapsIff(t: Trie, h: nat, p: Path)
    requires WellFormed(t, h)
    ensures Overlaps(t, p) <==> exists q :: Sub(t, q).Leaf? && Comparable(p, q)
    decreases p
  {
    if t.Empty? {
      forall q ensures !Sub(t, q).Leaf? { SubOfEmpty(t, q); }
    } else if t.Leaf? {
      assert Sub(t, []).Leaf? && Comparable(p, []);
    } else if p == [] {
      var q := SomeLeaf(t, h);
      assert Comparable(p, q);
    } else {
      var c := Child(t, p[0]);
      OverlapsIff(c, h - 1, p[1..]);
      if Overlaps(t, p) {
        var q :| Sub(c, q).Leaf? && Comparable(p[1..], q);
        assert ([p[0]] + q)[1..] == q;
        assert p == [p[0]] + p[1..];
        assert Sub(t, [p[0]] + q).Leaf? && Comparable(p, [p[0]] + q);
      }
      forall q | Sub(t, q).Leaf? && Comparable(p, q)
        ensures Overlaps(t, p)
      {
        assert q != [];
        assert q[0] == p[0];
        assert Sub(c, q[1..]).Leaf?;
        assert Comparable(p[1..], q[1..]);
      }
    }
  }

  lemma {:induction false} PutIffFree(t: Trie, p: Path)
    ensures Put(t, p).Some? <==> !Overlaps(t, p)
    decreases p
  {
    if p != [] && !t.Leaf? {
      PutIffFree(Child(t, p[0]), p[1..]);
      if t.Empty? {
        assert Child(t, p[0]).Empty?;
      }
    }
  }

  /** Below the walked path `Put` acts on subtries, elsewhere it changes nothing. */
  lemma {:induction false} PutSub(t: Trie, p: Path, q: Path)
    requires Put(t, p).Some?
    ensures q <= p ==> Put(Sub(t, q), p[|q|..]) == Some(Sub(Put(t, p).value, q))
    ensures q <= p ==> !Sub(Put(t, p).value, q).Empty?
    ensures !(q <= p) ==> Sub(Put(t, p).value, q) == Sub(t, q)
    decreases p
  {
    if q == [] {
      assert p[|q|..] == p;
    } else if p == [] {
      SubOfEmpty(Leaf, q);
      SubOfEmpty(Empty, q);
    } else {
      PrefixTail(q, p);
      if q[0] == p[0] {
        PutSub(Child(t, p[0]), p[1..], q[1..]);
      } else {
        assert Child(Put(t, p).value, q[0]) == Child(t, q[0]);
      }
    }
  }

  /** The first `d` steps of `path` meet no stored block. */
  ghost predicate Clear(t: Trie, path: Path, d: nat)
    requires d <= |path|
    decreases d
  {
    d == 0 || (!t.Leaf? && Clear(Child(t, path[0]), path[1..], d - 1))
  }

  lemma {:induction false} ClearStep(t: Trie, path: Path, d: nat)
    requires d < |path| && Clear(t, path, d) && !Sub(t, path[..d]).Leaf?
    ensures Clear(t, path, d + 1)
    decreases d
  {
    if d > 0 {
      assert path[..d][1..] == path[1..][..d - 1];
      ClearStep(Child(t, path[0]), path[1..], d - 1);
    }
  }

  /** After a clear walk `Overlaps` is decided by the subtrie that is reached. */
  lemma {:induction false} OverlapsAfter(t: Trie, path: Path, d: nat)
    requires d <= |path| && Clear(t, path, d)
    ensures Overlaps(t, path) == Overlaps(Sub(t, path[..d]), path[d..])
    decreases d
  {
    if d == 0 {
      assert path[d..] == path;
    } else {
      assert path[..d][1..] == path[1..][..d - 1];
      assert path[1..][d - 1..] == path[d..];
      OverlapsAfter(Child(t, path[0]), path[1..], d - 1);
    }
  }

  /** After a clear walk the rest of `Put` is decided by what stands there. */
  lemma {:induction false} PutAfter(t: Trie, path: Path, d: nat)
    requires d <= |path| && Clear(t, path, d)
    ensures Sub(t, path[..d]).Leaf? ==> Put(t, path).None?
    ensures d == |path| ==> (Put(t, path).Some? <==> Sub(t, path[..d]).Empty?)
    decreases d
  {
    if d > 0 {
      assert path[..d][1..] == path[1..][..d - 1];
      PutAfter(Child(t, path[0]), path[1..], d - 1);
    }
  }

  lemma {:induction false} PutWellFormed(t: Trie, h: nat, p: Path)
    requires WellFormed(t, h) && |p| <= h && Put(t, p).Some?
    ensures WellFormed(Put(t, p).value, h)
    ensures !Put(t, p).value.Empty?
    decreases p
  {
    if p != [] {
      PutWellFormed(Child(t, p[0]), h - 1, p[1..]);
    }
  }

  /** `Delete` succeeds exactly on stored blocks. */
  lemma {:induction false} DeleteIffLeaf(t: Trie, p: Path)
    ensures Delete(t, p).Some? <==> Sub(t, p).Leaf?
    decreases p
  {
    if p != [] {
      DeleteIffLeaf(Child(t, p[0]), p[1..]);
    }
  }

  lemma DeleteChild(t: Trie, p: Path, b: bool)
    requires p != [] && Delete(t, p).Some?
    ensures t.Branch? && Delete(Child(t, p[0]), p[1..]).Some?
    ensures Child(Delete(t, p).value, b) == if b == p[0] then Delete(Child(t, p[0]), p[1..]).value else Child(t, b)
  {
    if !t.Branch? {
      DeleteIffLeaf(t, p);
      SubOfEmpty(t, p);
    }
  }

  lemma {:induction false} DeleteSub(t: Trie, p: Path, q: Path)
    requires Delete(t, p).Some?
    ensures q <= p ==> Delete(Sub(t, q), p[|q|..]) == Some(Sub(Delete(t, p).value, q))
    ensures q <= p ==> !Sub(Delete(t, p).value, q).Leaf?
    ensures !(q <= p) ==> Sub(Delete(t, p).value, q) == Sub(t, q)
    decreases p
  {
    if q == [] {
      assert p[|q|..] == p;
    } else if p == [] {
      SubOfEmpty(Leaf, q);
      SubOfEmpty(Empty, q);
    } else {
      DeleteChild(t, p, q[0]);
      PrefixTail(q, p);
      if q[0] == p[0] {
        DeleteSub(Child(t, p[0]), p[1..], q[1..]);
      }
    }
  }

  lemma PrefixTail(q: Path, p: Path)
    requires q != [] && p != []
    ensures q <= p <==> q[0] == p[0] && q[1..] <= p[1..]
    ensures q <= p ==> p[1..][|q[1..]|..] == p[|q|..]
  {
    assert q == [q[0]] + q[1..];
    assert p == [p[0]] + p[1..];
  }

  lemma {:induction false} DeleteWellFormed(t: Trie, h: nat, p: Path)
    requires WellFormed(t, h) && Delete(t, p).Some?
    ensures WellFormed(Delete(t, p).value, h)
    decreases p
  {
    if p != [] {
      DeleteIffLeaf(t, p);
      if !t.Branch? {
        SubOfEmpty(t, p);
      }
      DeleteWellFormed(Child(t, p[0]), h - 1, p[1..]);
    }
  }

  // ---------- The set of stored blocks ----------

  /** The positions of all leaves. */
  function Held(t: Trie): set<Path> {
    match t
    case Empty => {}
    case Leaf => {[]}
    case Branch(l, r) => (set p | p in Held(l) :: [false] + p) + (set p | p in Held(r) :: [true] + p)
  }

  lemma {:induction false} HeldIff(t: Trie, p: Path)
    ensures p in Held(t) <==> Sub(t, p).Leaf?
    decreases t
  {
    match t
    case Empty => SubOfEmpty(t, p);
    case Leaf => if p != [] { SubOfEmpty(t, p); }
    case Branch(l, r) =>
      if p != [] {
        HeldIff(Child(t, p[0]), p[1..]);
        assert p == [p[0]] + p[1..];
        forall q: Path, b: bool | p == [b] + q ensures b == p[0] && q == p[1..] {}
      }
  }

  lemma HeldShort(t: Trie, h: nat)
    requires WellFormed(t, h)
    ensures forall p :: p in Held(t) ==> |p| <= h
  {
    forall p | p in Held(t) ensures |p| <= h {
      HeldIff(t, p);
      SubWellFormed(t, h, p);
    }
  }

  /** `Put` adds exactly the given block, and only when no stored block is comparable with it. */
  lemma PutHeld(t: Trie, h: nat, p: Path)
    requires WellFormed(t, h)
    ensures Put(t, p).Some? <==> forall q :: q in Held(t) ==> !Comparable(p, q)
    ensures Put(t, p).Some? ==> p !in Held(t) && Held(Put(t, p).value) == Held(t) + {p}
  {
    PutIffFree(t, p);
    OverlapsIff(t, h, p);
    forall q ensures q in Held(t) <==> Sub(t, q).Leaf? { HeldIff(t, q); }
    if Put(t, p).Some? {
      var t' := Put(t, p).value;
      forall q ensures q in Held(t') <==> q in Held(t) || q == p {
        HeldIff(t', q);
        PutSub(t, p, q);
        if q <= p && q != p {
          assert Comparable(p, q);
          assert p[|q|..] != [];
        }
      }
    }
  }

  /** `Delete` removes exactly the given block, and only when it is stored. */
  lemma DeleteHeld(t: Trie, p: Path)
    ensures Delete(t, p).Some? <==> p in Held(t)
    ensures Delete(t, p).Some? ==> Held(Delete(t, p).value) == Held(t) - {p}
  {
    DeleteIffLeaf(t, p);
    HeldIff(t, p);
    if Delete(t, p).Some? {
      var t' := Delete(t, p).value;
      forall q ensures q in Held(t') <==> q in Held(t) && q != p {
        HeldIff(t', q);
        HeldIff(t, q);
        DeleteSub(t, p, q);
        if q <= p && q in Held(t) {
          LeavesApart(t, p, q);
        }
      }
    }
  }

  /** The shape of a trie is fixed by the blocks it stores. */
  lemma {:induction false} Canonical(t: Trie, u: Trie, h: nat)
    requires WellFormed(t, h) && WellFormed(u, h)
    requires Held(t) == Held(u)
    ensures t == u
    decreases t
  {
    forall q ensures Sub(t, q).Leaf? <==> Sub(u, q).Leaf? {
      HeldIff(t, q);
      HeldIff(u, q);
    }
    assert Sub(t, []).Leaf? <==> Sub(u, []).Leaf?;
    if !t.Empty? {
      var p := SomeLeaf(t, h);
      if u.Empty? { SubOfEmpty(u, p); }
    }
    if !u.Empty? {
      var p := SomeLeaf(u, h);
      if t.Empty? { SubOfEmpty(t, p); }
    }
    if t.Branch? {
      assert u.Branch?;
      CanonicalChild(t, u, false);
      CanonicalChild(t, u, true);
      Canonical(t.left, u.left, h - 1);
      Canonical(t.right, u.right, h - 1);
    }
  }

  lemma CanonicalChild(t: Trie, u: Trie, b: bool)
    requires t.Branch? && u.Branch?
    requires forall q :: Sub(t, q).Leaf? <==> Sub(u, q).Leaf?
    ensures Held(Child(t, b)) == Held(Child(u, b))
  {
    forall q ensures q in Held(Child(t, b)) <==> q in Held(Child(u, b)) {
      HeldIff(Child(t, b), q);
      HeldIff(Child(u, b), q);
      assert ([b] + q)[1..] == q;
      assert Sub(t, [b] + q).Leaf? <==> Sub(u, [b] + q).Leaf?;
    }
  }

  // ---------- One operation undoes the other ----------

  lemma {:induction false} PutThenDelete(t: Trie, h: nat, p: Path)
    requires WellFormed(t, h) && |p| <= h && Put(t, p).Some?
    ensures Delete(Put(t, p).value, p) == Some(t)
  {
    PutHeld(t, h, p);
    PutWellFormed(t, h, p);
    var t' := Put(t, p).value;
    DeleteHeld(t', p);
    DeleteWellFormed(t', h, p);
    assert Held(t') - {p} == Held(t);
    Canonical(Delete(t', p).value, t, h);
  }

  lemma DeleteThenPut(t: Trie, h: nat, p: Path)
    requires WellFormed(t, h) && Delete(t, p).Some?
    ensures Put(Delete(t, p).value, p) == Some(t)
  {
    DeleteHeld(t, p);
    HeldShort(t, h);
    DeleteWellFormed(t, h, p);
    var t' := Delete(t, p).value;
    forall q | q in Held(t') ensures !Comparable(p, q) {
      HeldIff(t, p);
      HeldIff(t, q);
      if Comparable(p, q) { LeavesApart(t, p, q); }
    }
    PutHeld(t', h, p);
    PutWellFormed(t', h, p);
    assert Held(t') + {p} == Held(t);
    Canonical(Put(t', p).value, t, h);
  }
}
