/** Whole runs of tree operations, against the flat model; and the canonical form of the heap. */
module TreeRuns {
  import opened Powers
  import opened Paths
  import opened Tries
  import opened Counting
  import opened UintTrees
  import F = FlatModel

  datatype Op =
    | PutOp(addr: nat, bits: nat)
    | OverlapsOp(addr: nat, bits: nat)
    | DeleteOp(addr: nat, bits: nat)
    | PutNthFreeOp(n: nat)
    | SizeOp

  datatype Answer = Flag(ok: bool) | Number(value: nat)

  /** What a caller must respect: words of width `w`, at most `h` prefix bits, and enough free addresses. */
  predicate OpOk(s: set<F.Block>, h: nat, w: nat, op: Op) {
    match op
    case PutNthFreeOp(n) => n < Pow2(h) - |F.Covered(s, h)|
    case SizeOp => true
    case _ => op.addr < Pow2(w) && op.bits <= h
  }

  ghost function FlatStep(s: set<F.Block>, h: nat, w: nat, op: Op): (set<F.Block>, Answer)
    requires OpOk(s, h, w, op)
  {
    match op
    case PutOp(addr, bits) =>
      var b := F.Requested(addr, h, bits);
      if F.Overlaps(s, h, b) then (s, Flag(false)) else (s + {b}, Flag(true))
    case OverlapsOp(addr, bits) =>
      (s, Flag(F.Overlaps(s, h, F.Requested(addr, h, bits))))
    case DeleteOp(addr, bits) =>
      var b := F.Requested(addr, h, bits);
      (s - {b}, Flag(b in s))
    case PutNthFreeOp(n) =>
      var x := F.Scan(F.Covered(s, h), 0, n, Pow2(h));
      (s + {F.Block(x, h)}, Number(x))
    case SizeOp =>
      (s, Number(|F.Covered(s, h)|))
  }

  ghost predicate RunOk(s: set<F.Block>, h: nat, w: nat, ops: seq<Op>)
    decreases |ops|
  {
    ops == [] || (OpOk(s, h, w, ops[0]) && RunOk(FlatStep(s, h, w, ops[0]).0, h, w, ops[1..]))
  }

  ghost function FlatRun(s: set<F.Block>, h: nat, w: nat, ops: seq<Op>): (set<F.Block>, seq<Answer>)
    requires RunOk(s, h, w, ops)
    decreases |ops|
  {
    if ops == [] then (s, []) else
      var (s', a) := FlatStep(s, h, w, ops[0]);
      var (s'', rest) := FlatRun(s', h, w, ops[1..]);
      (s'', [a] + rest)
  }

  /** One operation on the pointer tree answers like the flat model and leaves it with the same blocks. */
  method Step(tree: UintTree, op: Op) returns (a: Answer)
    requires tree.Valid() && OpOk(F.Blocks(tree.trie, tree.maxPrefBits), tree.maxPrefBits, tree.width, op)
    modifies tree, tree.nodes.Values
    ensures tree.Valid() && fresh(tree.nodes.Values - old(tree.nodes.Values))
    ensures (F.Blocks(tree.trie, tree.maxPrefBits), a)
         == FlatStep(old(F.Blocks(tree.trie, tree.maxPrefBits)), tree.maxPrefBits, tree.width, op)
  {
    ghost var t, h := tree.trie, tree.maxPrefBits;
    match op
    case PutOp(addr, bits) =>
      PutRefined(t, h, tree.width, op);
      var ok := tree.Put(addr, bits);
      a := Flag(ok);
    case OverlapsOp(addr, bits) =>
      F.OverlapsRefines(t, h, addr, bits);
      var ok := tree.Overlaps(addr, bits);
      a := Flag(ok);
    case DeleteOp(addr, bits) =>
      DeleteRefined(t, h, tree.width, op);
      var ok := tree.Delete(addr, bits);
      a := Flag(ok);
    case PutNthFreeOp(n) =>
      NthFreeRefined(t, h, tree.width, op);
      var x := tree.PutNthFree(n);
      a := Number(x);
    case SizeOp =>
      F.SizeRefines(t, h);
      var size := tree.Size();
      a := Number(size);
  }

  lemma PutRefined(t: Trie, h: nat, w: nat, op: Op)
    requires WellFormed(t, h) && op.PutOp? && OpOk(F.Blocks(t, h), h, w, op)
    ensures var r := Put(t, Bits(op.addr, h, op.bits));
            FlatStep(F.Blocks(t, h), h, w, op) == (F.Blocks(if r.Some? then r.value else t, h), Flag(r.Some?))
  {
    F.PutRefines(t, h, op.addr, op.bits);
  }

  lemma DeleteRefined(t: Trie, h: nat, w: nat, op: Op)
    requires WellFormed(t, h) && op.DeleteOp? && OpOk(F.Blocks(t, h), h, w, op)
    ensures var r := Delete(t, Bits(op.addr, h, op.bits));
            FlatStep(F.Blocks(t, h), h, w, op) == (F.Blocks(if r.Some? then r.value else t, h), Flag(r.Some?))
  {
    F.DeleteRefines(t, h, op.addr, op.bits);
    var s, b := F.Blocks(t, h), F.Requested(op.addr, h, op.bits);
    assert b !in s ==> s - {b} == s;
  }

  lemma NthFreeRefined(t: Trie, h: nat, w: nat, op: Op)
    requires WellFormed(t, h) && op.PutNthFreeOp? && OpOk(F.Blocks(t, h), h, w, op)
    ensures op.n < Pow2(h) - Count(t, h)
    ensures Put(t, Bits(NthFree(t, h, op.n), h, h)).Some?
    ensures FlatStep(F.Blocks(t, h), h, w, op)
         == (F.Blocks(Put(t, Bits(NthFree(t, h, op.n), h, h)).value, h), Number(NthFree(t, h, op.n)))
  {
    F.NthFreeRefines(t, h, op.n);
    NthFreeCanBePut(t, h, op.n);
    F.PutRefines(t, h, NthFree(t, h, op.n), h);
  }

  function Joined(answers: seq<Answer>, r: (set<F.Block>, seq<Answer>)): (set<F.Block>, seq<Answer>) {
    (r.0, answers + r.1)
  }

  /** One operation of a run, after those with the given answers. */
  lemma RunUnfolds(s: set<F.Block>, h: nat, w: nat, ops: seq<Op>, i: nat, answers: seq<Answer>)
    requires i < |ops| && RunOk(s, h, w, ops[i..])
    ensures OpOk(s, h, w, ops[i])
    ensures var (s', a) := FlatStep(s, h, w, ops[i]);
            && RunOk(s', h, w, ops[i + 1..])
            && Joined(answers, FlatRun(s, h, w, ops[i..])) == Joined(answers + [a], FlatRun(s', h, w, ops[i + 1..]))
  {
    assert ops[i..][1..] == ops[i + 1..] && ops[i..][0] == ops[i];
    var (s', a) := FlatStep(s, h, w, ops[i]);
    var rest := FlatRun(s', h, w, ops[i + 1..]).1;
    assert answers + ([a] + rest) == answers + [a] + rest;
  }

  lemma RunEnds(s: set<F.Block>, h: nat, w: nat, ops: seq<Op>, answers: seq<Answer>)
    ensures ops[|ops|..] == [] && Joined(answers, FlatRun(s, h, w, ops[|ops|..])) == (s, answers)
  {
    assert ops[|ops|..] == [] && answers + [] == answers;
  }

  /** A run on the pointer tree gives the answers of the run on the flat model. */
  method Run(tree: UintTree, ops: seq<Op>) returns (answers: seq<Answer>)
    requires tree.Valid() && RunOk(F.Blocks(tree.trie, tree.maxPrefBits), tree.maxPrefBits, tree.width, ops)
    modifies tree, tree.nodes.Values
    ensures tree.Valid() && fresh(tree.nodes.Values - old(tree.nodes.Values))
    ensures (F.Blocks(tree.trie, tree.maxPrefBits), answers)
         == FlatRun(old(F.Blocks(tree.trie, tree.maxPrefBits)), tree.maxPrefBits, tree.width, ops)
  {
    answers := [];
    ghost var h, w := tree.maxPrefBits, tree.width;
    ghost var s := F.Blocks(tree.trie, h);
    ghost var all := FlatRun(s, h, w, ops);
    assert ops[0..] == ops && [] + all.1 == all.1;
    for i := 0 to |ops|
      invariant tree.Valid() && fresh(tree.nodes.Values - old(tree.nodes.Values))
      invariant s == F.Blocks(tree.trie, h) && RunOk(s, h, w, ops[i..])
      invariant Joined(answers, FlatRun(s, h, w, ops[i..])) == all
    {
      RunUnfolds(s, h, w, ops, i, answers);
      var a := Step(tree, ops[i]);
      s := FlatStep(s, h, w, ops[i]).0;
      answers := answers + [a];
    }
    RunEnds(s, h, w, ops, answers);
  }

  /** Two valid trees of one size that hold the same blocks have nodes at the same
      positions with the same counters: the state forgets the history. */
  lemma SameBlocksSameTree(a: UintTree, b: UintTree)
    requires a.Valid() && b.Valid() && a.width == b.width && a.maxPrefBits == b.maxPrefBits
    requires Held(a.trie) == Held(b.trie)
    ensures a.trie == b.trie && a.nodes.Keys == b.nodes.Keys
    ensures forall p :: p in a.nodes ==> a.nodes[p].childrenCnt == b.nodes[p].childrenCnt
    ensures forall p :: p in a.nodes ==> (a.nodes[p].left == null <==> b.nodes[p].left == null)
    ensures forall p :: p in a.nodes ==> (a.nodes[p].right == null <==> b.nodes[p].right == null)
  {
    Canonical(a.trie, b.trie, a.maxPrefBits);
    forall p ensures p in a.nodes <==> p in b.nodes {
      assert a.Placed(p, a.trie, [], 0) && b.Placed(p, b.trie, [], 0);
    }
    forall p | p in a.nodes
      ensures a.nodes[p].childrenCnt == b.nodes[p].childrenCnt
      ensures a.nodes[p].left == null <==> b.nodes[p].left == null
      ensures a.nodes[p].right == null <==> b.nodes[p].right == null
    {
      assert a.Counted(p, a.trie) && b.Counted(p, b.trie) && a.Linked(p) && b.Linked(p);
    }
  }
}
