/** The pointer tree of nettree/tree.go.

    `UintTree` keeps the fields of the source. Two ghost fields say what the
    heap means: `nodes` gives the node at each position, and `trie` is the pure
    trie the nodes stand for. Every clause of the invariant speaks about one
    position, so a proof looks only at the positions an operation touches. */
module UintTrees {
  import opened Powers
  import opened Paths
  import opened Tries
  import opened Counting

  class Node {
    var parent: Node?
    var left: Node?
    var right: Node?
    var childrenCnt: nat
    ghost const owner: UintTree
    ghost const path: Path

    constructor (ghost owner: UintTree, ghost path: Path)
      ensures this.owner == owner && this.path == path
      ensures parent == null && left == null && right == null && childrenCnt == 0
    {
      this.owner, this.path := owner, path;
      parent, left, right, childrenCnt := null, null, null, 0;
    }
  }

  /** Covered addresses below `p`; zero for positions outside the trie. */
  ghost function CountAt(t: Trie, h: nat, p: Path): nat {
    if |p| <= h && WellFormed(Sub(t, p), h - |p|) then Count(Sub(t, p), h - |p|) else 0
  }

  lemma PutCountAt(t: Trie, h: nat, p: Path, q: Path)
    requires WellFormed(t, h) && |p| <= h && Put(t, p).Some?
    ensures CountAt(Put(t, p).value, h, q) == CountAt(t, h, q) + if q <= p then BlockSize(p, h) else 0
  {
    PutSub(t, p, q);
    if q <= p {
      SubWellFormed(t, h, q);
      PutCount(Sub(t, q), h - |q|, p[|q|..]);
    }
  }

  lemma DeleteCountAt(t: Trie, h: nat, p: Path, q: Path)
    requires WellFormed(t, h) && |p| <= h && Delete(t, p).Some?
    ensures CountAt(t, h, q) == CountAt(Delete(t, p).value, h, q) + if q <= p then BlockSize(p, h) else 0
  {
    DeleteSub(t, p, q);
    if q <= p {
      SubWellFormed(t, h, q);
      DeleteCount(Sub(t, q), h - |q|, p[|q|..]);
    }
  }

  /** The child at `p + [b]` lies on `path` exactly when `p` does and `b` is the next step. */
  lemma NextStep(p: Path, b: bool, path: Path, d: nat)
    requires d <= |path|
    ensures p + [b] == path[..d] <==> d > 0 && p == path[..d - 1] && b == path[d - 1]
  {
  }

  lemma ChildOf(q: Path, p: Path)
    ensures q != [] && q[..|q| - 1] == p ==> q == p + [false] || q == p + [true]
  {
    if q != [] && q[..|q| - 1] == p {
      assert q == p + [q[|q| - 1]];
      if q[|q| - 1] {
        assert q == p + [true];
      } else {
        assert q == p + [false];
      }
    }
  }

  /** `x |= b` for a power of two `b`. */
  function OrBit(x: nat, b: nat): nat
    requires b > 0
  {
    if x / b % 2 == 1 then x else x + b
  }

  /** It sets that bit and leaves all others alone. */
  lemma {:induction false} OrBitSets(x: nat, i: nat, j: nat)
    ensures Bit(OrBit(x, Pow2(i)), j) <==> j == i || Bit(x, j)
    decreases i
  {
    BitIsQuotient(x, i);
    if !Bit(x, i) {
      if i == 0 {
        assert (x + 1) / 2 == x / 2;
      } else {
        assert (x + Pow2(i)) / 2 == x / 2 + Pow2(i - 1) && (x + Pow2(i)) % 2 == x % 2;
        if j > 0 {
          OrBitSets(x / 2, i - 1, j - 1);
          BitIsQuotient(x / 2, i - 1);
        }
      }
    }
  }

  lemma OrIsStep(p: Path, h: nat)
    requires |p| < h
    ensures OrBit(Start(p, h), Pow2(h - 1 - |p|)) == Start(p + [true], h)
    ensures Start(p, h) == Start(p + [false], h)
  {
    StartStep(p, false, h);
    StartAligned(p, h);
    StartStep(p, true, h);
  }

  lemma HalfOf(k: nat)
    ensures Pow2(k) / 2 == if k > 0 then Pow2(k - 1) else 0
  {
  }

  /** A counter of a word reads zero for a covered count only if everything is covered. */
  lemma WordCount(count: nat, h: nat, w: nat)
    requires 0 < count <= Pow2(h) && h <= w
    ensures Wrap(count, w) == if count == Pow2(w) then 0 else count
    ensures count == Pow2(w) ==> h == w
  {
    Pow2Monotone(h, w);
    if h < w {
      Pow2Monotone(h, w - 1);
    }
    if count == Pow2(w) {
      WrapFull(w);
    } else {
      WrapSmall(count, w);
    }
  }

  lemma HalfFits(count: nat, k: nat, w: nat)
    requires count <= Pow2(k) && k < w
    ensures Wrap(count, w) == count
  {
    Pow2Monotone(k, w - 1);
    WrapSmall(count, w);
  }

  /** The walk of `PutNthFree` at position `p`, with `m` free addresses still to skip below it. */
  ghost predicate Selecting(t: Trie, h: nat, n: nat, p: Path, m: nat) {
    && WellFormed(t, h) && n < Pow2(h) - Count(t, h)
    && |p| <= h && WellFormed(Sub(t, p), h - |p|)
    && m < Pow2(h - |p|) - Count(Sub(t, p), h - |p|)
    && Start(p, h) + NthFree(Sub(t, p), h - |p|, m) == NthFree(t, h, n)
  }

  /** Free addresses in the left half below `p`. */
  ghost function LeftFree(t: Trie, h: nat, p: Path): int
    requires |p| < h
  {
    Pow2(h - 1 - |p|) - CountAt(t, h, p + [false])
  }

  lemma SelectGo(t: Trie, h: nat, n: nat, p: Path, m: nat, b: bool, m': nat)
    requires Selecting(t, h, n, p, m) && |p| < h && Sub(t, p).Branch?
    requires m' < Pow2(h - 1 - |p|) - Count(Child(Sub(t, p), b), h - 1 - |p|)
    requires NthFree(Sub(t, p), h - |p|, m)
          == (if b then Pow2(h - 1 - |p|) else 0) + NthFree(Child(Sub(t, p), b), h - 1 - |p|, m')
    ensures Selecting(t, h, n, p + [b], m')
  {
    SubChild(t, p, b);
    StartStep(p, b, h);
  }

  /** Free addresses in the left half, read from the subtrie. */
  lemma LeftFreeIs(t: Trie, h: nat, p: Path)
    requires |p| < h && Sub(t, p).Branch? && WellFormed(Sub(t, p).left, h - 1 - |p|)
    ensures LeftFree(t, h, p) == Pow2(h - 1 - |p|) - Count(Sub(t, p).left, h - 1 - |p|)
  {
    SubChild(t, p, false);
  }

  /** Where there is a node, the walk goes on in the half that holds the address sought. */
  lemma {:induction false} SelectStep(t: Trie, h: nat, n: nat, p: Path, m: nat)
    requires Selecting(t, h, n, p, m) && !Sub(t, p).Empty?
    ensures |p| < h && LeftFree(t, h, p) >= 0
    ensures var right := m >= LeftFree(t, h, p);
            Selecting(t, h, n, p + [right], if right then m - LeftFree(t, h, p) else m)
  {
    NthFreeUnfolds(Sub(t, p), h - |p|, m);
    LeftFreeIs(t, h, p);
    var right := m >= LeftFree(t, h, p);
    SelectGo(t, h, n, p, m, right, if right then m - LeftFree(t, h, p) else m);
  }

  class UintTree {
    const width: nat
    const msBit: nat
    const maxUint: nat
    const maxPrefBits: nat
    var root: Node?

    ghost var nodes: map<Path, Node>
    ghost var trie: Trie

    // ---------- Invariant ----------

    ghost predicate Params() {
      1 <= maxPrefBits <= width && msBit == Pow2(maxPrefBits - 1) && maxUint == Pow2(maxPrefBits) - 1
    }

    ghost function At(p: Path): Node?
      reads this`nodes
    {
      if p in nodes then nodes[p] else null
    }

    /** The node at `p` points at the nodes one step below and above it, and at nothing else. */
    ghost predicate Linked(p: Path)
      reads this`nodes, nodes.Values`parent, nodes.Values`left, nodes.Values`right
    {
      p in nodes ==>
        var n := nodes[p];
        && n.owner == this && n.path == p
        && n.left == At(p + [false])
        && n.right == At(p + [true])
        && (p == [] ==> n.parent == null)
        && (p != [] ==> p[..|p| - 1] in nodes && n.parent == nodes[p[..|p| - 1]])
    }

    ghost predicate Shape()
      reads this`root, this`nodes, nodes.Values`parent, nodes.Values`left, nodes.Values`right
    {
      && root == At([])
      && forall p {:trigger Linked(p)} :: Linked(p)
    }

    /** The counter at `p` is the number of covered addresses below it, cut to a word. */
    ghost predicate Counted(p: Path, t: Trie)
      reads this`nodes, nodes.Values`childrenCnt
    {
      p in nodes ==> nodes[p].childrenCnt == Wrap(CountAt(t, maxPrefBits, p), width)
    }

    /** There is a node at `p` iff `t` has something there, or `p` is one of the first `d` positions on `path`. */
    ghost predicate Placed(p: Path, t: Trie, path: Path, d: int)
      reads this`nodes
    {
      p in nodes <==> !Sub(t, p).Empty? || (p <= path && |p| < d)
    }

    ghost predicate AllPlaced(t: Trie, path: Path, d: int)
      reads this`nodes
    {
      forall p {:trigger Placed(p, t, path, d)} :: Placed(p, t, path, d)
    }

    ghost predicate AllCounted(t: Trie)
      reads this`nodes, nodes.Values`childrenCnt
    {
      forall p {:trigger Counted(p, t)} :: Counted(p, t)
    }

    /** The tree in the middle of `Put` (`path` not empty): the first `d` nodes on
        `path` exist, those new to the tree still with counter zero. */
    ghost predicate Growing(path: Path, d: nat)
      reads this, nodes.Values
    {
      && Params() && WellFormed(trie, maxPrefBits) && Shape()
      && AllPlaced(trie, path, d) && AllCounted(trie)
    }

    ghost predicate Valid()
      reads this, nodes.Values
    {
      Growing([], 0)
    }

    constructor (width: nat, msBit: nat, maxUint: nat, maxPrefBits: nat)
      requires 1 <= maxPrefBits <= width && msBit == Pow2(maxPrefBits - 1) && maxUint == Pow2(maxPrefBits) - 1
      ensures Valid() && trie == Empty && nodes == map[]
      ensures this.width == width && this.maxPrefBits == maxPrefBits
    {
      this.width, this.msBit, this.maxUint, this.maxPrefBits := width, msBit, maxUint, maxPrefBits;
      root, nodes, trie := null, map[], Empty;
      new;
      forall p ensures Placed(p, trie, [], 0) { SubOfEmpty(trie, p); }
    }

    /** The nodes of a tree belong to no other tree. */
    lemma Owned()
      requires Valid()
      ensures forall n: Node :: n in nodes.Values ==> n.owner == this
    {
      forall n: Node | n in nodes.Values ensures n.owner == this {
        var p :| p in nodes && nodes[p] == n;
        assert Linked(p);
      }
    }

    lemma Located()
      requires Shape()
      ensures forall p :: p in nodes ==> nodes[p].path == p
    {
      forall p | p in nodes ensures nodes[p].path == p {
        assert Linked(p);
      }
    }

    lemma OneMore(path: Path, d: nat)
      requires Growing(path, d) && d <= |path| && path[..d] in nodes
      ensures Growing(path, d + 1)
    {
      var e := d + 1;
      forall p ensures Placed(p, trie, path, e) {
        assert Placed(p, trie, path, d);
        assert p <= path && |p| == d ==> p == path[..d];
      }
    }

    lemma NothingGrown(path: Path)
      ensures Valid() <==> Growing(path, 0)
    {
      if Valid() {
        forall p ensures Placed(p, trie, path, 0) { assert Placed(p, trie, [], 0); }
      }
      if Growing(path, 0) {
        forall p ensures Placed(p, trie, [], 0) { assert Placed(p, trie, path, 0); }
      }
    }

    // ---------- Walking down ----------

    /** A walk along `path` that has made `d` steps: `node` is where it stands, the
        leading bits of the shifted word `a` are the steps still to make. */
    ghost predicate Position(path: Path, d: nat, node: Node?, a: nat, prefbits: int)
      reads this`nodes
    {
      && d <= |path| <= maxPrefBits && prefbits == |path| - d
      && a < Pow2(width) && Bits(a, maxPrefBits, |path| - d) == path[d..]
      && node == At(path[..d])
    }

    /** The same, with the node one step back and the direction taken from it. */
    ghost predicate Walk(path: Path, d: nat, prev: Node?, wentRight: bool, node: Node?, a: nat, prefbits: int)
      reads this`nodes
    {
      && Position(path, d, node, a, prefbits)
      && (d == 0 ==> prev == null)
      && (d > 0 ==> prev != null && prev == At(path[..d - 1]) && wentRight == path[d - 1])
    }

    lemma AtTop(addr: nat, prefbits: nat)
      requires Shape() && addr < Pow2(width) && prefbits <= maxPrefBits
      ensures Walk(Bits(addr, maxPrefBits, prefbits), 0, null, false, root, addr, prefbits)
      ensures Bits(addr, maxPrefBits, prefbits)[..0] == []
      ensures Bits(addr, maxPrefBits, prefbits)[0..] == Bits(addr, maxPrefBits, prefbits)
    {
    }

    /** One step down: test the top bit, choose the child, shift the word. */
    method StepDown(node: Node, addr: nat, prefbits: nat, ghost path: Path, ghost d: nat)
      returns (next: Node?, right: bool, addr': nat, prefbits': nat)
      requires Params() && Shape() && Position(path, d, node, addr, prefbits) && prefbits > 0
      ensures Walk(path, d + 1, node, right, next, addr', prefbits')
    {
      assert Linked(path[..d]);
      NextStep(path[..d], path[d], path, d + 1);
      BitIsQuotient(addr, maxPrefBits - 1);
      BitsOfShift(addr, width, maxPrefBits, prefbits - 1);
      if addr / msBit % 2 == 0 {
        next, right := node.left, false;
      } else {
        next, right := node.right, true;
      }
      WrapBound(2 * addr, width);
      addr', prefbits' := Wrap(2 * addr, width), prefbits - 1;
    }

    /** A node of the tree has no children iff it is a stored block. */
    lemma LeafTest(p: Path, path: Path, d: nat)
      requires Growing(path, d) && d <= |p| + 1 && p in nodes && !Sub(trie, p).Empty?
      ensures nodes[p].left == null && nodes[p].right == null <==> Sub(trie, p).Leaf?
    {
      assert Linked(p);
      assert Placed(p + [false], trie, path, d) && Placed(p + [true], trie, path, d);
      SubChild(trie, p, false);
      SubChild(trie, p, true);
      SubWellFormed(trie, maxPrefBits, p);
    }

    /** What the nodes met on a walk say about overlapping, the last one but one not being a stored block before. */
    lemma OverlapsTest(path: Path, d: nat)
      requires Valid() && d <= |path| && (d > 0 ==> Clear(trie, path, d - 1) && path[..d - 1] in nodes)
      ensures d > 0 && path[..d] !in nodes ==>
                var up := nodes[path[..d - 1]]; Tries.Overlaps(trie, path) == (up.left == null && up.right == null)
      ensures d == 0 && path[..d] !in nodes ==> !Tries.Overlaps(trie, path)
      ensures path[..d] in nodes ==> Clear(trie, path, d) && (d == |path| ==> Tries.Overlaps(trie, path))
    {
      assert Placed(path[..d], trie, [], 0);
      if d > 0 {
        assert Placed(path[..d - 1], trie, [], 0);
        NextStep(path[..d - 1], path[d - 1], path, d);
        SubChild(trie, path[..d - 1], path[d - 1]);
        OverlapsAfter(trie, path, d - 1);
        LeafTest(path[..d - 1], [], 0);
        assert path[d - 1..][0] == path[d - 1] && path[d - 1..][1..] == path[d..];
      } else {
        assert path[..0] == [];
      }
      if path[..d] in nodes {
        if d > 0 {
          ClearStep(trie, path, d - 1);
        }
        OverlapsAfter(trie, path, d);
      }
    }

    /** Whether some stored block shares an address with the given one. */
    method Overlaps(addr: nat, prefbits: nat) returns (r: bool)
      requires Valid() && addr < Pow2(width) && prefbits <= maxPrefBits
      ensures r == Tries.Overlaps(trie, Bits(addr, maxPrefBits, prefbits))
    {
      var prev: Node?, wentRight := null, false;
      var node := root;
      var a, pb := addr, prefbits;
      ghost var path := Bits(addr, maxPrefBits, prefbits);
      ghost var d: nat := 0;
      AtTop(addr, prefbits);
      while true
        invariant Walk(path, d, prev, wentRight, node, a, pb)
        invariant d > 0 ==> Clear(trie, path, d - 1)
        decreases pb
      {
        OverlapsTest(path, d);
        if node == null {
          if prev != null {
            return prev.left == null && prev.right == null;
          } else {
            return false;
          }
        }
        if pb == 0 {
          return true;
        }
        prev := node;
        node, wentRight, a, pb := StepDown(node, a, pb, path, d);
        d := d + 1;
      }
    }

    // ---------- Put ----------

    /** Allocates the node at `path[..d]` and hangs it below `prev`, or makes it the root. */
    method Grow(prev: Node?, wentRight: bool, ghost path: Path, ghost d: nat) returns (node: Node)
      requires Shape() && d <= |path|
      requires path[..d] !in nodes && path[..d] + [false] !in nodes && path[..d] + [true] !in nodes
      requires prev == if d == 0 then null else At(path[..d - 1])
      requires d > 0 ==> prev != null && wentRight == path[d - 1]
      modifies this`root, this`nodes, if prev == null then {} else {prev}
      ensures fresh(node) && node.childrenCnt == 0
      ensures nodes == old(nodes)[path[..d] := node] && Shape()
      ensures prev != null ==> prev.childrenCnt == old(prev.childrenCnt)
    {
      node := new Node(this, path[..d]);
      if prev != null {
        assert Linked(path[..d - 1]);
        if wentRight {
          prev.right := node;
        } else {
          prev.left := node;
        }
        node.parent := prev;
      } else {
        root := node;
      }
      nodes := nodes[path[..d] := node];
      assert d > 0 ==> path[..d][..d - 1] == path[..d - 1];
      forall p ensures Linked(p) {
        assert old(Linked(p));
        NextStep(p, false, path, d);
        NextStep(p, true, path, d);
      }
    }

    lemma RoomToGrow(path: Path, d: nat)
      requires Growing(path, d) && d <= |path| && path[..d] !in nodes
      ensures Sub(trie, path[..d]).Empty?
      ensures path[..d] + [false] !in nodes && path[..d] + [true] !in nodes
    {
      var p := path[..d];
      assert Placed(p, trie, path, d) && Placed(p + [false], trie, path, d) && Placed(p + [true], trie, path, d);
      SubChild(trie, p, false);
      SubChild(trie, p, true);
    }

    twostate lemma Grown(new path: Path, new d: nat, new node: Node)
      requires old(Growing(path, d)) && d <= |path| && trie == old(trie)
      requires Sub(trie, path[..d]).Empty? && path[..d] !in old(nodes)
      requires nodes == old(nodes)[path[..d] := node] && node.childrenCnt == 0 && Shape()
      requires forall p :: p in old(nodes) ==> nodes[p].childrenCnt == old(nodes[p].childrenCnt)
      ensures Growing(path, d + 1)
    {
      WrapSmall(0, width);
      forall p ensures Counted(p, trie) {
        assert old(Counted(p, trie));
      }
      var e := d + 1;
      forall p ensures Placed(p, trie, path, e) {
        assert old(Placed(p, trie, path, d));
        assert p <= path && |p| == d ==> p == path[..d];
      }
    }

    /** The top of a round of `Put`: grow the tree where it ends, or look at the node
        that is there, which blocks the way if it is a stored block or the walk ends at it. */
    method Enter(prev: Node?, wentRight: bool, at: Node?, ghost a: nat, prefbits: nat, ghost path: Path, ghost d: nat)
      returns (node: Node, blocked: bool)
      requires Growing(path, d) && Walk(path, d, prev, wentRight, at, a, prefbits) && Clear(trie, path, d)
      modifies this`root, this`nodes, nodes.Values
      ensures Growing(path, d + 1) && node == At(path[..d])
      ensures nodes.Values <= old(nodes.Values) + {node}
      ensures blocked ==> Tries.Put(trie, path).None?
      ensures !blocked && prefbits == 0 ==> Tries.Put(trie, path).Some?
      ensures !blocked && prefbits > 0 ==> Clear(trie, path, d + 1)
      ensures at == null ==> fresh(node) && !blocked && (prefbits > 0 ==> path[..d + 1] !in nodes)
      ensures at != null ==> node == at && unchanged(this) && unchanged(nodes.Values)
    {
      PutAfter(trie, path, d);
      if at == null {
        RoomToGrow(path, d);
        node := Grow(prev, wentRight, path, d);
        Grown(path, d, node);
        blocked := false;
        if prefbits > 0 {
          NextStep(path[..d], path[d], path, d + 1);
        }
      } else {
        assert Placed(path[..d], trie, path, d);
        LeafTest(path[..d], path, d);
        OneMore(path, d);
        node, blocked := at, (at.left == null && at.right == null) || prefbits == 0;
      }
      if !blocked && prefbits > 0 {
        ClearStep(trie, path, d);
      }
    }

    /** The walk down of `Put`, ending at the new leaf, or nowhere if the way is blocked. */
    method PutWalk(addr: nat, prefbits: nat) returns (leaf: Node?)
      requires Valid() && addr < Pow2(width) && prefbits <= maxPrefBits
      modifies this`root, this`nodes, nodes.Values
      ensures fresh(nodes.Values - old(nodes.Values))
      ensures leaf != null <==> Tries.Put(trie, Bits(addr, maxPrefBits, prefbits)).Some?
      ensures leaf != null ==> leaf == At(Bits(addr, maxPrefBits, prefbits))
      ensures leaf != null ==> Growing(Bits(addr, maxPrefBits, prefbits), prefbits + 1)
      ensures leaf == null ==> unchanged(this) && unchanged(nodes.Values)
    {
      var prev: Node?, wentRight := null, false;
      var node := root;
      var a: nat, pb: nat := addr, prefbits;
      ghost var path := Bits(addr, maxPrefBits, prefbits);
      ghost var d: nat := 0;
      AtTop(addr, prefbits);
      NothingGrown(path);
      while true
        invariant Walk(path, d, prev, wentRight, node, a, pb)
        invariant Growing(path, d) && Clear(trie, path, d)
        invariant fresh(nodes.Values - old(nodes.Values))
        invariant node != null ==> unchanged(this) && unchanged(nodes.Values)
        decreases pb
      {
        var here, blocked := Enter(prev, wentRight, node, a, pb, path, d);
        if blocked {
          return null;
        }
        if pb == 0 {
          assert path[..d] == path;
          return here;
        }
        prev := here;
        node, wentRight, a, pb := StepDown(here, a, pb, path, d);
        d := d + 1;
      }
    }

    /** Given the counters `cnt` before the way up along `path`: those deeper than `e` are moved by
        `delta`, the others not yet. */
    ghost predicate Moved(p: Path, cnt: map<Path, nat>, path: Path, e: int, delta: nat)
      reads this`nodes, nodes.Values`childrenCnt
    {
      p in nodes ==>
        && p in cnt
        && nodes[p].childrenCnt == if p <= path && |p| > e then Wrap(cnt[p] + delta, width) else cnt[p]
    }

    ghost predicate AllMoved(cnt: map<Path, nat>, path: Path, e: int, delta: nat)
      reads this`nodes, nodes.Values`childrenCnt
    {
      forall p {:trigger Moved(p, cnt, path, e, delta)} :: Moved(p, cnt, path, e, delta)
    }

    /** The way up of `Put`: adds `diff` to every counter from `start` to the root. */
    method AddUpwards(start: Node, diff: nat, ghost path: Path, ghost cnt: map<Path, nat>)
      requires Shape() && start == At(path)
      requires AllMoved(cnt, path, |path|, diff)
      modifies nodes.Values`childrenCnt
      ensures AllMoved(cnt, path, -1, diff)
    {
      var node: Node? := start;
      ghost var e: int := |path|;
      assert path[..|path|] == path;
      Located();
      while node != null
        invariant -1 <= e <= |path|
        invariant node == if e < 0 then null else At(path[..e])
        invariant e >= 0 ==> node != null
        invariant AllMoved(cnt, path, e, diff)
        decreases e
      {
        ghost var here := path[..e];
        assert Linked(here) && Moved(here, cnt, path, e, diff) && (e > 0 ==> here[..e - 1] == path[..e - 1]);
        label Before:
        node.childrenCnt := Wrap(node.childrenCnt + diff, width);
        node := node.parent;
        e := e - 1;
        forall p ensures Moved(p, cnt, path, e, diff) {
          assert old@Before(Moved(p, cnt, path, e + 1, diff));
          assert p <= path && |p| == e + 1 ==> p == here;
        }
      }
    }

    /** A counter of the old trie, moved if it is on the path, is that of the new one. */
    lemma WordAfterPut(t: Trie, t': Trie, path: Path, p: Path, diff: nat)
      requires WellFormed(t, maxPrefBits) && |path| <= maxPrefBits && Tries.Put(t, path) == Some(t')
      requires diff == Wrap(BlockSize(path, maxPrefBits), width)
      ensures Wrap(CountAt(t', maxPrefBits, p), width)
           == var before := Wrap(CountAt(t, maxPrefBits, p), width);
              if p <= path then Wrap(before + diff, width) else before
    {
      PutCountAt(t, maxPrefBits, path, p);
      WrapAdd(CountAt(t, maxPrefBits, p), BlockSize(path, maxPrefBits), width);
    }

    /** Adding the size of the new block on its path turns the counters of the old trie into those of the new one. */
    lemma CountersAfterPut(path: Path, diff: nat, t: Trie, t': Trie, cnt: map<Path, nat>)
      requires forall p {:trigger p in cnt} :: p in cnt ==> cnt[p] == Wrap(CountAt(t, maxPrefBits, p), width)
      requires WellFormed(t, maxPrefBits) && |path| <= maxPrefBits && Tries.Put(t, path) == Some(t')
      requires diff == Wrap(BlockSize(path, maxPrefBits), width)
      requires AllMoved(cnt, path, -1, diff)
      ensures AllCounted(t')
    {
      forall p ensures Counted(p, t') {
        assert Moved(p, cnt, path, -1, diff);
        WordAfterPut(t, t', path, p, diff);
      }
    }

    /** The counters as they are, as a value. */
    ghost function Counters(): (cnt: map<Path, nat>)
      reads this`nodes, nodes.Values`childrenCnt
    {
      map p | p in nodes :: nodes[p].childrenCnt
    }

    lemma StartMoving(path: Path, diff: nat, t: Trie)
      requires AllCounted(t)
      ensures forall p {:trigger p in Counters()} :: p in Counters() ==>
                Counters()[p] == Wrap(CountAt(t, maxPrefBits, p), width)
      ensures AllMoved(Counters(), path, |path|, diff)
    {
      forall p | p in Counters() ensures Counters()[p] == Wrap(CountAt(t, maxPrefBits, p), width) {
        assert Counted(p, t);
      }
      var cnt := Counters();
      forall p ensures Moved(p, cnt, path, |path|, diff) {
        assert p <= path ==> |p| <= |path|;
      }
    }

    lemma NodesAfterPut(path: Path, t': Trie)
      requires Growing(path, |path| + 1) && Tries.Put(trie, path) == Some(t')
      ensures AllPlaced(t', [], 0)
    {
      forall p ensures Placed(p, t', [], 0) {
        assert Placed(p, trie, path, |path| + 1);
        PutSub(trie, path, p);
      }
    }

    /** The part of `Put` behind the label updateParents. */
    method UpdateParents(node: Node, childrenCntDiff: nat, ghost path: Path)
      requires Growing(path, |path| + 1) && node == At(path) && |path| <= maxPrefBits
      requires childrenCntDiff == Wrap(BlockSize(path, maxPrefBits), width)
      requires Tries.Put(trie, path).Some?
      modifies this`trie, nodes.Values`childrenCnt
      ensures Valid() && Some(trie) == Tries.Put(old(trie), path)
    {
      ghost var t' := Tries.Put(trie, path).value;
      ghost var cnt := Counters();
      NodesAfterPut(path, t');
      StartMoving(path, childrenCntDiff, trie);
      AddUpwards(node, childrenCntDiff, path, cnt);
      CountersAfterPut(path, childrenCntDiff, trie, t', cnt);
      PutWellFormed(trie, maxPrefBits, path);
      trie := t';
    }

    /** Returns true iff the block shares no address with the stored ones; then it is stored. */
    method Put(addr: nat, prefbits: nat) returns (ok: bool)
      requires Valid() && addr < Pow2(width) && prefbits <= maxPrefBits
      modifies this, nodes.Values
      ensures Valid() && fresh(nodes.Values - old(nodes.Values))
      ensures ok <==> Tries.Put(old(trie), Bits(addr, maxPrefBits, prefbits)).Some?
      ensures ok ==> Some(trie) == Tries.Put(old(trie), Bits(addr, maxPrefBits, prefbits))
      ensures !ok ==> unchanged(this) && unchanged(nodes.Values)
    {
      ghost var path := Bits(addr, maxPrefBits, prefbits);
      var childrenCntDiff := Wrap(Pow2(maxPrefBits - prefbits), width);
      assert childrenCntDiff == Wrap(BlockSize(path, maxPrefBits), width);
      var node := PutWalk(addr, prefbits);
      if node == null {
        return false;
      }
      UpdateParents(node, childrenCntDiff, path);
      return true;
    }

    // ---------- Delete ----------

    /** The walk down of `Delete`, ending at the stored block if there is one. */
    method FindLeaf(addr: nat, prefbits: nat) returns (leaf: Node?)
      requires Valid() && addr < Pow2(width) && prefbits <= maxPrefBits
      ensures leaf != null <==> Tries.Delete(trie, Bits(addr, maxPrefBits, prefbits)).Some?
      ensures leaf != null ==> leaf == At(Bits(addr, maxPrefBits, prefbits))
    {
      var node := root;
      var a: nat, pb: nat := addr, prefbits;
      ghost var path := Bits(addr, maxPrefBits, prefbits);
      ghost var d: nat := 0;
      AtTop(addr, prefbits);
      DeleteIffLeaf(trie, path);
      while true
        invariant Position(path, d, node, a, pb)
        decreases pb
      {
        assert Placed(path[..d], trie, [], 0);
        if node == null {
          assert path == path[..d] + path[d..];
          SubAppend(trie, path[..d], path[d..]);
          SubOfEmpty(Empty, path[d..]);
          return null;
        }
        if pb == 0 {
          assert path[..d] == path;
          LeafTest(path, [], 0);
          if node.left == null && node.right == null {
            return node;
          } else {
            return null;
          }
        }
        var right;
        node, right, a, pb := StepDown(node, a, pb, path, d);
        d := d + 1;
      }
    }

    /** The position above `p`. */
    ghost function Up(p: Path): Path {
      if p == [] then [] else p[..|p| - 1]
    }

    /** Only the node above `p` has changed, by losing its child at `p`. */
    twostate predicate CutAt(new p: Path, new q: Path)
      reads this`nodes, nodes.Values`parent, nodes.Values`left, nodes.Values`right
    {
      q in nodes && q in old(nodes) && nodes[q] == old(nodes[q]) ==>
        var n := nodes[q];
        && n.parent == old(n.parent)
        && n.left == (if p != [] && q + [false] == p then null else old(n.left))
        && n.right == (if p != [] && q + [true] == p then null else old(n.right))
    }

    /** Where a childless node went and the one above lost it, all links are right again. */
    twostate lemma LinkedAfterCut(new p: Path, new q: Path)
      requires old(Linked(q)) && nodes == old(nodes) - {p} && CutAt(p, q)
      requires p + [false] !in old(nodes) && p + [true] !in old(nodes)
      ensures Linked(q)
    {
      ChildOf(q, p);
    }

    /** Cuts the childless node at `p` off its parent, or off the tree if it is the root. */
    method Unlink(node: Node, ghost p: Path)
      requires Shape() && p in nodes && node == nodes[p] && node.left == null && node.right == null
      modifies this`root, this`nodes, nodes.Values`left, nodes.Values`right
      ensures Shape() && nodes == old(nodes) - {p}
    {
      Located();
      assert Linked(p) && p + [false] !in nodes && p + [true] !in nodes;
      ghost var up := Up(p);
      if node.parent != null {
        assert Linked(up) && p == up + [p[|p| - 1]];
        if node.parent.left == node {
          node.parent.left := null;
        } else {
          node.parent.right := null;
        }
      } else {
        root := null;
      }
      nodes := nodes - {p};
      forall q ensures Linked(q) {
        assert old(Linked(q));
        NextStep(q, false, p, |p|);
        NextStep(q, true, p, |p|);
        assert p[..|p|] == p;
        LinkedAfterCut(p, q);
      }
    }

    /** Whether the node at `p` goes too when everything below it is gone. */
    lemma PruneTest(p: Path, t': Trie, path: Path)
      requires Shape() && WellFormed(t', maxPrefBits) && p in nodes
      requires AllPlaced(t', path, |p| + 1)
      requires !Sub(t', p).Leaf?
      ensures nodes[p].left == null && nodes[p].right == null <==> Sub(t', p).Empty?
    {
      assert Linked(p);
      assert Placed(p + [false], t', path, |p| + 1) && Placed(p + [true], t', path, |p| + 1);
      SubChild(t', p, false);
      SubChild(t', p, true);
      SubWellFormed(t', maxPrefBits, p);
    }

    /** One round of the way up of `Delete`: lower the counter, and drop the node if it has no children. */
    method RemoveStep(node: Node, diff: nat, ghost p: Path, ghost path: Path, ghost t': Trie)
      requires Shape() && WellFormed(t', maxPrefBits) && node == At(p) && diff <= Pow2(width)
      requires |p| <= |path| && p == path[..|p|] && !Sub(t', p).Leaf?
      requires AllPlaced(t', path, |p| + 1)
      modifies this`root, this`nodes, nodes.Values`left, nodes.Values`right, node`childrenCnt
      ensures Shape() && AllPlaced(t', path, |p|)
      ensures nodes == if Sub(t', p).Empty? then old(nodes) - {p} else old(nodes)
      ensures node.childrenCnt == Wrap(old(node.childrenCnt) + (Pow2(width) - diff), width)
    {
      PruneTest(p, t', path);
      node.childrenCnt := Wrap(node.childrenCnt + (Pow2(width) - diff), width);
      if node.left == null && node.right == null {
        Unlink(node, p);
      }
      forall q ensures Placed(q, t', path, |p|) {
        assert old(Placed(q, t', path, |p| + 1));
        assert q <= path && |q| == |p| ==> q == path[..|p|];
      }
    }

    /** The way up of `Delete`: lowers the counters and drops every node left without children. */
    method RemoveUpwards(start: Node, diff: nat, ghost path: Path, ghost t': Trie, ghost cnt: map<Path, nat>)
      requires Shape() && WellFormed(t', maxPrefBits) && start == At(path) && diff <= Pow2(width)
      requires AllPlaced(t', path, |path| + 1)
      requires forall d {:trigger path[..d]} :: 0 <= d <= |path| ==> !Sub(t', path[..d]).Leaf?
      requires AllMoved(cnt, path, |path|, Pow2(width) - diff)
      modifies this`root, this`nodes, nodes.Values`left, nodes.Values`right, nodes.Values`childrenCnt
      ensures nodes.Values <= old(nodes.Values)
      ensures Shape() && AllPlaced(t', path, 0)
      ensures AllMoved(cnt, path, -1, Pow2(width) - diff)
    {
      var node: Node? := start;
      ghost var e: int := |path|;
      ghost var delta := Pow2(width) - diff;
      assert path[..|path|] == path;
      Located();
      while node != null
        invariant -1 <= e <= |path|
        invariant node == if e < 0 then null else At(path[..e])
        invariant e >= 0 ==> node != null
        invariant Shape() && nodes.Values <= old(nodes.Values)
        invariant AllMoved(cnt, path, e, delta)
        invariant AllPlaced(t', path, e + 1)
        decreases e
      {
        ghost var here := path[..e];
        Located();
        assert Linked(here) && Moved(here, cnt, path, e, delta) && (e > 0 ==> here[..e - 1] == path[..e - 1]);
        label Before:
        RemoveStep(node, diff, here, path, t');
        node := node.parent;
        e := e - 1;
        forall p ensures Moved(p, cnt, path, e, delta) {
          assert old@Before(Moved(p, cnt, path, e + 1, delta));
          assert p <= path && |p| == e + 1 ==> p == here;
        }
      }
    }

    lemma CountersAfterDelete(path: Path, diff: nat, t: Trie, t': Trie, cnt: map<Path, nat>)
      requires forall p {:trigger p in cnt} :: p in cnt ==> cnt[p] == Wrap(CountAt(t, maxPrefBits, p), width)
      requires WellFormed(t, maxPrefBits) && |path| <= maxPrefBits && Tries.Delete(t, path) == Some(t')
      requires diff == Wrap(BlockSize(path, maxPrefBits), width) <= Pow2(width)
      requires AllMoved(cnt, path, -1, Pow2(width) - diff)
      ensures AllCounted(t')
    {
      forall p ensures Counted(p, t') {
        assert Moved(p, cnt, path, -1, Pow2(width) - diff);
        DeleteCountAt(t, maxPrefBits, path, p);
        if p <= path {
          WrapSub(CountAt(t, maxPrefBits, p), BlockSize(path, maxPrefBits), width);
        }
      }
    }

    lemma BeforeRemoval(path: Path, t': Trie)
      requires Valid() && Tries.Delete(trie, path) == Some(t') && |path| <= maxPrefBits
      ensures AllPlaced(t', path, |path| + 1)
      ensures forall d {:trigger path[..d]} :: 0 <= d <= |path| ==> !Sub(t', path[..d]).Leaf?
    {
      var e := |path| + 1;
      forall q ensures Placed(q, t', path, e) {
        assert Placed(q, trie, [], 0);
        DeleteSub(trie, path, q);
        if q <= path {
          DeleteIffLeaf(trie, path);
          assert path == q + path[|q|..];
          SubAppend(trie, q, path[|q|..]);
          if Sub(trie, q).Empty? { SubOfEmpty(Empty, path[|q|..]); }
        }
      }
      forall d {:trigger path[..d]} | 0 <= d <= |path| ensures !Sub(t', path[..d]).Leaf? {
        DeleteSub(trie, path, path[..d]);
      }
    }

    /** Returns true iff exactly this block was stored; then it is gone. */
    method Delete(addr: nat, prefbits: nat) returns (ok: bool)
      requires Valid() && addr < Pow2(width) && prefbits <= maxPrefBits
      modifies this, nodes.Values
      ensures Valid() && nodes.Values <= old(nodes.Values)
      ensures ok <==> Tries.Delete(old(trie), Bits(addr, maxPrefBits, prefbits)).Some?
      ensures ok ==> Some(trie) == Tries.Delete(old(trie), Bits(addr, maxPrefBits, prefbits))
      ensures !ok ==> unchanged(this) && unchanged(nodes.Values)
    {
      ghost var path := Bits(addr, maxPrefBits, prefbits);
      var childrenCntDiff := Wrap(Pow2(maxPrefBits - prefbits), width);
      assert childrenCntDiff == Wrap(BlockSize(path, maxPrefBits), width);
      WrapBound(BlockSize(path, maxPrefBits), width);
      var node := FindLeaf(addr, prefbits);
      if node == null {
        return false;
      }
      ghost var t, t', cnt := trie, Tries.Delete(trie, path).value, Counters();
      DeleteWellFormed(trie, maxPrefBits, path);
      BeforeRemoval(path, t');
      StartMoving(path, Pow2(width) - childrenCntDiff, trie);
      RemoveUpwards(node, childrenCntDiff, path, t', cnt);
      CountersAfterDelete(path, childrenCntDiff, t, t', cnt);
      trie := t';
      forall q ensures Placed(q, t', [], 0) { assert Placed(q, t', path, 0); }
      return true;
    }

    // ---------- The n-th free address ----------

    /** The counter of a child, read as the source reads it: nil counts as nothing. */
    lemma ChildCounter(p: Path)
      requires Valid() && Wrap(CountAt(trie, maxPrefBits, p), width) == CountAt(trie, maxPrefBits, p)
      ensures (if At(p) == null then 0 else At(p).childrenCnt) == CountAt(trie, maxPrefBits, p)
    {
      assert Placed(p, trie, [], 0) && Counted(p, trie);
    }

    /** The mask of `PutNthFree` at `p`: half the addresses below, zero at full depth. */
    ghost function HalfSize(p: Path): nat {
      if |p| < maxPrefBits then Pow2(maxPrefBits - 1 - |p|) else 0
    }

    /** Shifting the mask follows a step down. */
    lemma MaskHalves(p: Path, b: bool)
      requires |p| < maxPrefBits
      ensures HalfSize(p) > 0 && HalfSize(p) / 2 == HalfSize(p + [b])
    {
      HalfOf(maxPrefBits - 1 - |p|);
    }

    /** Setting the bit of the mask is a step to the right. */
    lemma MaskStep(p: Path, b: bool)
      requires |p| < maxPrefBits && HalfSize(p) > 0
      ensures (if b then OrBit(Start(p, maxPrefBits), HalfSize(p)) else Start(p, maxPrefBits))
           == Start(p + [b], maxPrefBits)
    {
      assert HalfSize(p) == Pow2(maxPrefBits - 1 - |p|);
      OrIsStep(p, maxPrefBits);
    }

    /** The mask less the counter of the left child: the free addresses in the left half. */
    lemma LeftCounter(p: Path)
      requires Valid() && |p| < maxPrefBits && LeftFree(trie, maxPrefBits, p) >= 0
      ensures HalfSize(p) - (if At(p + [false]) == null then 0 else At(p + [false]).childrenCnt)
           == LeftFree(trie, maxPrefBits, p)
    {
      HalfFits(CountAt(trie, maxPrefBits, p + [false]), maxPrefBits - 1 - |p|, width);
      ChildCounter(p + [false]);
    }

    /** One round of `PutNthFree`: how many free addresses the left half has decides where to go. */
    method SelectHalf(node: Node, m: nat, netStart: nat, bit: nat, ghost n: nat, ghost p: Path)
      returns (next: Node?, m': nat, netStart': nat, bit': nat)
      requires Valid() && Selecting(trie, maxPrefBits, n, p, m) && node == At(p)
      requires netStart == Start(p, maxPrefBits) && bit == HalfSize(p)
      ensures |p| < maxPrefBits
      ensures var p' := p + [m >= LeftFree(trie, maxPrefBits, p)];
              && Selecting(trie, maxPrefBits, n, p', m') && next == At(p')
              && netStart' == Start(p', maxPrefBits) && bit' == HalfSize(p')
    {
      assert Placed(p, trie, [], 0) && Linked(p);
      SelectStep(trie, maxPrefBits, n, p, m);
      LeftCounter(p);
      MaskHalves(p, m >= LeftFree(trie, maxPrefBits, p));
      MaskStep(p, m >= LeftFree(trie, maxPrefBits, p));
      var leftFreeElsCnt := bit;
      if node.left != null {
        leftFreeElsCnt := leftFreeElsCnt - node.left.childrenCnt;
      }
      if m < leftFreeElsCnt {
        next, m', netStart' := node.left, m, netStart;
      } else {
        next, m', netStart' := node.right, m - leftFreeElsCnt, OrBit(netStart, bit);
      }
      bit' := bit / 2;
    }

    /** The walk of `PutNthFree` ends at the address sought, which is free. */
    lemma SelectEnd(n: nat, p: Path, m: nat)
      requires Params() && Selecting(trie, maxPrefBits, n, p, m) && Sub(trie, p).Empty?
      ensures Start(p, maxPrefBits) + m == NthFree(trie, maxPrefBits, n) < Pow2(maxPrefBits) <= Pow2(width)
      ensures Wrap(Start(p, maxPrefBits) + m, width) == Start(p, maxPrefBits) + m
      ensures Tries.Put(trie, Bits(NthFree(trie, maxPrefBits, n), maxPrefBits, maxPrefBits)).Some?
    {
      NthFreeIsSelect(trie, maxPrefBits, n);
      NthFreeCanBePut(trie, maxPrefBits, n);
      Pow2Monotone(maxPrefBits, width);
      WrapSmall(Start(p, maxPrefBits) + m, width);
    }

    /** Stores the n-th free address and returns it; the inner `Put` cannot fail. */
    method PutNthFree(n: nat) returns (addr: nat)
      requires Valid() && n < Pow2(maxPrefBits) - Count(trie, maxPrefBits)
      modifies this, nodes.Values
      ensures Valid() && fresh(nodes.Values - old(nodes.Values))
      ensures addr == NthFree(old(trie), maxPrefBits, n) < Pow2(maxPrefBits)
      ensures Some(trie) == Tries.Put(old(trie), Bits(addr, maxPrefBits, maxPrefBits))
    {
      var netStart, node, bit := 0, root, msBit;
      var m: nat := n;
      ghost var p: Path := [];
      while node != null
        invariant Selecting(trie, maxPrefBits, n, p, m) && node == At(p)
        invariant netStart == Start(p, maxPrefBits) && bit == HalfSize(p)
        modifies {}
        decreases maxPrefBits - |p|
      {
        ghost var skip := m;
        node, m, netStart, bit := SelectHalf(node, m, netStart, bit, n, p);
        p := p + [skip >= LeftFree(trie, maxPrefBits, p)];
      }
      assert Placed(p, trie, [], 0);
      SelectEnd(n, p, m);
      addr := Wrap(netStart + m, width);
      var ok := Put(addr, maxPrefBits);
      assert ok;
    }

    /** The number of covered addresses; a root counter of zero means a full tree. */
    method Size() returns (size: nat)
      requires Valid()
      ensures size == Count(trie, maxPrefBits)
    {
      assert Placed([], trie, [], 0) && Counted([], trie);
      CountBound(trie, maxPrefBits);
      if root == null {
        return 0;
      }
      WordCount(Count(trie, maxPrefBits), maxPrefBits, width);
      size := root.childrenCnt;
      if root.childrenCnt == 0 {
        size := maxUint + 1;
      }
    }
  }
}
