/** The allocator service of subnets/subnets.go over the address trees. */
module Services {
  import opened Tries
  import opened UintTrees
  import opened Prefixes
  import opened Nets
  import opened Allocators
  import opened LeaseRuns
  import opened IPTrees

  class Service {
    const netTrees: seq<IPTree>

    ghost var nodes: set<Node>   // every node of every tree

    ghost function Trees(): set<UintTree> {
      set i | 0 <= i < |netTrees| :: netTrees[i].tree
    }

    ghost predicate TreeOk(i: int)
      reads this, Trees(), nodes
    {
      0 <= i < |netTrees| ==>
        netTrees[i].tree.nodes.Values <= nodes && netTrees[i].Valid() && IsMasked(netTrees[i].net)
    }

    ghost predicate Apart() {
      forall i, j :: 0 <= i < j < |netTrees| ==> netTrees[i].tree != netTrees[j].tree
    }

    /** Every tree is valid, its net without host bits, and no two are the same object. */
    ghost predicate Valid()
      reads this, Trees(), nodes
    {
      Apart() && forall i {:trigger TreeOk(i)} :: TreeOk(i)
    }

    /** What the service stands for. */
    ghost function View(): (s: State)
      reads Trees()
      ensures |s| == |netTrees|
    {
      seq(|netTrees|, i requires 0 <= i < |netTrees| reads Trees() => netTrees[i].View())
    }

    /** The `i`-th tree stands for the `i`-th net, and is one of `born` with its nodes among `nodes`. */
    static ghost predicate MadeAt(trees: seq<IPTree>, s: State, born: set<UintTree>, nodes: set<Node>, i: int)
      reads born, nodes
    {
      0 <= i < |trees| == |s| ==>
        && trees[i].tree in born && trees[i].tree.nodes.Values <= nodes
        && trees[i].Valid() && IsMasked(trees[i].net) && trees[i].View() == s[i]
    }

    static ghost predicate Made(trees: seq<IPTree>, s: State, born: set<UintTree>, nodes: set<Node>)
      reads born, nodes
    {
      && |trees| == |s| && (forall i, j :: 0 <= i < j < |trees| ==> trees[i].tree != trees[j].tree)
      && forall i {:trigger MadeAt(trees, s, born, nodes, i)} :: MadeAt(trees, s, born, nodes, i)
    }

    constructor (netTrees: seq<IPTree>, ghost s: State, ghost born: set<UintTree>, ghost nodes: set<Node>)
      requires Made(netTrees, s, born, nodes)
      ensures this.netTrees == netTrees && this.nodes == nodes && Trees() <= born
      ensures Valid() && View() == s
    {
      this.netTrees, this.nodes := netTrees, nodes;
      new;
      forall i ensures TreeOk(i) && (0 <= i < |s| ==> netTrees[i].tree in born && netTrees[i].View() == s[i]) {
        assert MadeAt(netTrees, s, born, nodes, i);
      }
    }

    // ---------- One tree at a time ----------

    /** A change of one tree and its nodes leaves the other trees valid. */
    twostate lemma OthersKept(new i: nat)
      requires old(Valid()) && i < |netTrees|
      requires nodes == old(nodes) + netTrees[i].tree.nodes.Values && netTrees[i].Valid()
      requires forall u :: u in Trees() && u != netTrees[i].tree ==> unchanged(u)
      requires forall n :: n in old(nodes) && n.owner != netTrees[i].tree ==> unchanged(n)
      requires forall j, n: Node {:trigger n in old(netTrees[j].tree.nodes).Values} ::
                 0 <= j < |netTrees| && n in old(netTrees[j].tree.nodes).Values ==> n.owner == netTrees[j].tree
      ensures Valid()
    {
      forall j ensures TreeOk(j) {
        assert old(TreeOk(j));
        if 0 <= j < |netTrees| && j != i {
          var u := netTrees[j].tree;
          assert u in Trees() && u != netTrees[i].tree;
        }
      }
    }

    method PutAt(i: nat, pref: Prefix) returns (r: Option<Error>)
      requires Valid() && i < |netTrees| && ValidPrefix(pref) && pref.addr.family == netTrees[i].net.addr.family
      modifies this`nodes, Trees(), nodes
      ensures Valid() && fresh(nodes - old(nodes))
      ensures View() == old(View())[i := NetPut(old(View())[i], pref).0]
      ensures r == NetPut(old(View())[i], pref).1
    {
      assert TreeOk(i);
      Owners();
      label Before:
      r := netTrees[i].Put(pref);
      nodes := nodes + netTrees[i].tree.nodes.Values;
      OthersKept@Before(i);
    }

    /** Nodes of a tree are owned by it. */
    lemma Owners()
      requires Valid()
      ensures forall i, n: Node {:trigger n in netTrees[i].tree.nodes.Values} ::
                0 <= i < |netTrees| && n in netTrees[i].tree.nodes.Values ==> n.owner == netTrees[i].tree
    {
      forall i | 0 <= i < |netTrees|
        ensures forall n: Node :: n in netTrees[i].tree.nodes.Values ==> n.owner == netTrees[i].tree
      {
        assert TreeOk(i);
        netTrees[i].tree.Owned();
      }
    }

    /** Deletes at the given tree of the service. */
    method DeleteIn(tree: IPTree, ghost i: nat, pref: Prefix) returns (ok: bool)
      requires Valid() && i < |netTrees| && tree == netTrees[i] && ValidPrefix(pref)
      modifies this`nodes, Trees(), nodes
      ensures Valid() && fresh(nodes - old(nodes))
      ensures View() == old(View())[i := NetDelete(old(View())[i], pref).0]
      ensures ok == NetDelete(old(View())[i], pref).1
    {
      assert TreeOk(i);
      Owners();
      label Before:
      ok := tree.Delete(pref);
      nodes := nodes + netTrees[i].tree.nodes.Values;
      OthersKept@Before(i);
    }

    method DeleteAt(i: nat, pref: Prefix) returns (ok: bool)
      requires Valid() && i < |netTrees| && ValidPrefix(pref)
      modifies this`nodes, Trees(), nodes
      ensures Valid() && fresh(nodes - old(nodes))
      ensures View() == old(View())[i := NetDelete(old(View())[i], pref).0]
      ensures ok == NetDelete(old(View())[i], pref).1
    {
      ok := DeleteIn(netTrees[i], i, pref);
    }

    method AllocateAt(i: nat) returns (r: Result<Addr>, ghost k: nat)
      requires Valid() && i < |netTrees|
      modifies this`nodes, Trees(), nodes
      ensures Valid() && fresh(nodes - old(nodes))
      ensures Sound(old(View())[i]) && (r == Err(ErrNoFreeAddr) || r.Ok?)
      ensures r.Err? <==> Barren(old(View())[i])
      ensures r.Err? ==> View() == old(View())
      ensures r.Ok? ==> k < FreeCount(old(View())[i])
      ensures r.Ok? ==> r.value == NetTake(old(View())[i], k).1
      ensures r.Ok? ==> View() == old(View())[i := NetTake(old(View())[i], k).0]
    {
      assert TreeOk(i);
      Owners();
      label Before:
      r, k := netTrees[i].AllocateRandom();
      nodes := nodes + netTrees[i].tree.nodes.Values;
      OthersKept@Before(i);
    }

    // ---------- The service's own operations ----------

    /** Holds the prefix in the net it lies in; returns that net's tree. */
    method Reserve(pref: Prefix) returns (r: Result<IPTree>, ghost i: nat)
      requires Valid() && ValidPrefix(pref)
      modifies this`nodes, Trees(), nodes
      ensures Valid() && fresh(nodes - old(nodes))
      ensures View() == Allocators.Reserve(old(View()), pref).0
      ensures r.Err? ==> Allocators.Reserve(old(View()), pref).1 == Err(r.error)
      ensures r.Ok? ==> Allocators.Reserve(old(View()), pref).1 == Ok(i) && i < |netTrees| && r.value == netTrees[i]
    {
      i := 0;
      for k := 0 to |netTrees|
        invariant Valid() && fresh(nodes - old(nodes))
        invariant View() == old(View())
        invariant ReserveFrom(View(), pref, k) == Allocators.Reserve(View(), pref)
      {
        if netTrees[k].net.addr.family != pref.addr.family {
          continue;
        }
        var e := PutAt(k, pref);
        i := k;
        if e.None? {
          return Ok(netTrees[k]), i;
        }
        if e != Some(ErrOutOfNet) {
          return Err(e.value), i;
        }
      }
      return Err(ErrOutOfNet), i;
    }

    /** Lets the prefix go in the first net that holds exactly it. */
    method Delete(pref: Prefix) returns (ok: bool)
      requires Valid() && ValidPrefix(pref)
      modifies this`nodes, Trees(), nodes
      ensures Valid() && fresh(nodes - old(nodes))
      ensures (View(), ok) == Release(old(View()), pref)
    {
      for k := 0 to |netTrees|
        invariant Valid() && fresh(nodes - old(nodes))
        invariant View() == old(View())
        invariant DeleteFrom(View(), pref, k) == Release(View(), pref)
      {
        ok := DeleteAt(k, pref);
        if ok {
          return true;
        }
      }
      return false;
    }

    /** Takes a free address in every net, or in none: on failure what was taken is given back. */
    method AssignRandomInEachNet() returns (r: Result<seq<Addr>>, ghost ks: seq<nat>)
      requires Valid()
      modifies this`nodes, Trees(), nodes
      ensures Valid() && fresh(nodes - old(nodes))
      ensures r.Ok? ==> |ks| == |netTrees| && Taken(old(View()), ks, View(), r.value)
      ensures r.Err? <==> SomeBarren(old(View()))
      ensures r.Err? ==> r.error == ErrNoFreeAddr && View() == old(View())
    {
      var addrs: seq<Addr> := [];
      ks := [];
      ghost var s := View();
      TakenNothing(s);
      for k := 0 to |netTrees|
        invariant Valid() && fresh(nodes - old(nodes))
        invariant |ks| == k && Taken(s, ks, View(), addrs)
        invariant forall i :: 0 <= i < k ==> !Barren(s[i])
      {
        assert TakenAt(s, ks, View(), addrs, k);
        ghost var t := View();
        var a, n := AllocateAt(k);
        if a.Err? {
          Undo(addrs, s, ks);
          return Err(ErrNoFreeAddr), ks;
        }
        TakenMore(s, ks, t, addrs, n);
        ks, addrs := ks + [n], addrs + [a.value];
      }
      return Ok(addrs), ks;
    }

    /** The part of `AssignRandomInEachNet` behind the label error. */
    method Undo(addrs: seq<Addr>, ghost s: State, ghost ks: seq<nat>)
      requires Valid() && Taken(s, ks, View(), addrs)
      modifies this`nodes, Trees(), nodes
      ensures Valid() && fresh(nodes - old(nodes))
      ensures View() == s
    {
      ghost var t := View();
      for i := 0 to |addrs|
        invariant Valid() && fresh(nodes - old(nodes))
        invariant View() == Undone(s, t, i)
      {
        UndoneAt(s, t, i, i);
        UndoOne(s, ks, t, addrs, i);
        var ok := DeleteAt(i, HostPrefix(addrs[i]));
      }
      AllUndone(s, ks, t, addrs);
    }

    // ---------- Start ----------

    /** One more tree, made after the others. */
    static lemma MadeMore(trees: seq<IPTree>, s: State, born: set<UintTree>, nodes: set<Node>, t: IPTree)
      requires Made(trees, s, born, nodes) && t.tree !in born && t.Valid() && IsMasked(t.net)
      ensures Made(trees + [t], s + [t.View()], born + {t.tree}, nodes + t.tree.nodes.Values)
    {
      forall i ensures MadeAt(trees + [t], s + [t.View()], born + {t.tree}, nodes + t.tree.nodes.Values, i) {
        assert MadeAt(trees, s, born, nodes, i);
      }
      forall i | 0 <= i < |trees| ensures trees[i].tree != t.tree {
        assert MadeAt(trees, s, born, nodes, i);
      }
    }

    /** A tree for every configured net, the first failure reported. */
    static method CreateTrees(allocNets: seq<Prefix>)
      returns (r: Result<seq<IPTree>>, ghost s: State, ghost born: set<UintTree>, ghost nodes: set<Node>)
      requires forall i :: 0 <= i < |allocNets| ==> ValidPrefix(allocNets[i]) && IsMasked(allocNets[i])
      ensures r.Err? ==> CreateAll(allocNets) == Err(r.error)
      ensures r.Ok? ==> CreateAll(allocNets) == Ok(s) && Made(r.value, s, born, nodes)
      ensures fresh(born) && fresh(nodes)
    {
      var trees: seq<IPTree> := [];
      s, born, nodes := [], {}, {};
      for k := 0 to |allocNets|
        invariant CreateAll(allocNets[..k]) == Ok(s) && Made(trees, s, born, nodes)
        invariant fresh(born) && fresh(nodes)
      {
        assert allocNets[..k + 1][..k] == allocNets[..k];
        var t := IPTree.New(allocNets[k]);
        if t.Err? {
          CreateAllStops(allocNets, k + 1, t.error);
          return Err(t.error), s, born, nodes;
        }
        MadeMore(trees, s, born, nodes, t.value);
        trees, s := trees + [t.value], s + [t.value.View()];
        born, nodes := born + {t.value.tree}, nodes + t.value.tree.nodes.Values;
      }
      assert allocNets[..|allocNets|] == allocNets;
      return Ok(trees), s, born, nodes;
    }

    /** A service for the configured nets that holds the stored rows again. */
    static method NewService(allocNets: seq<Prefix>, rows: seq<Row>) returns (r: Result<Service>)
      requires forall i :: 0 <= i < |allocNets| ==> ValidPrefix(allocNets[i]) && IsMasked(allocNets[i])
      requires ValidRows(rows)
      ensures r.Err? ==> Restart(allocNets, rows) == Err(r.error)
      ensures r.Ok? ==> fresh(r.value) && fresh(r.value.Trees()) && fresh(r.value.nodes)
      ensures r.Ok? ==> r.value.Valid() && Restart(allocNets, rows) == Ok(r.value.View())
    {
      var trees, s, born, nodes := CreateTrees(allocNets);
      if trees.Err? {
        return Err(trees.error);
      }
      var service := new Service(trees.value, s, born, nodes);
      assert rows[0..] == rows;
      for k := 0 to |rows|
        invariant service.Valid() && fresh(service) && fresh(service.Trees()) && fresh(service.nodes)
        invariant Replay(service.View(), rows[k..]) == Replay(s, rows)
      {
        assert rows[k..][0] == rows[k] && rows[k..][1..] == rows[k + 1..];
        if rows[k].mayOverlap {
          continue;
        }
        var e, i := service.Reserve(rows[k].prefix);
        if e.Err? {
          return Err(e.error);
        }
      }
      return Ok(service);
    }
  }

  lemma {:induction false} CreateAllStops(nets: seq<Prefix>, k: nat, e: Error)
    requires 0 < k <= |nets| && CreateAll(nets[..k]) == Err(e)
    ensures CreateAll(nets) == Err(e)
    decreases |nets|
  {
    if k < |nets| {
      assert nets[..|nets| - 1][..k] == nets[..k];
      CreateAllStops(nets[..|nets| - 1], k, e);
    } else {
      assert nets[..k] == nets;
    }
  }

  /** The first `i` nets of `t` as they were in `s`. */
  ghost function Undone(s: State, t: State, i: nat): (u: State)
    requires i <= |s| == |t|
    ensures |u| == |s|
  {
    if i == 0 then t else Undone(s, t, i - 1)[i - 1 := s[i - 1]]
  }

  lemma {:induction false} UndoneAt(s: State, t: State, i: nat, j: nat)
    requires i <= |s| == |t| && j < |s|
    ensures Undone(s, t, i)[j] == if j < i then s[j] else t[j]
  {
    if i != 0 {
      UndoneAt(s, t, i - 1, j);
    }
  }

  lemma AllUndone(s: State, ks: seq<nat>, t: State, addrs: seq<Addr>)
    requires Taken(s, ks, t, addrs)
    ensures Undone(s, t, |addrs|) == s
  {
    forall j | 0 <= j < |s| ensures Undone(s, t, |addrs|)[j] == s[j] {
      UndoneAt(s, t, |addrs|, j);
      assert TakenAt(s, ks, t, addrs, j);
    }
  }

  lemma UndoOne(s: State, ks: seq<nat>, t: State, addrs: seq<Addr>, i: nat)
    requires Taken(s, ks, t, addrs) && i < |ks|
    ensures ValidPrefix(HostPrefix(addrs[i])) && NetDelete(t[i], HostPrefix(addrs[i])).0 == s[i]
  {
    assert TakenAt(s, ks, t, addrs, i);
    TakeUndone(s[i], ks[i]);
    NetTakeHolds(s[i], ks[i]);
  }

  ghost predicate SomeBarren(s: State) {
    exists i :: 0 <= i < |s| && Barren(s[i])
  }

  /** While nets hold their reserved hosts none is empty: a random assignment fails iff some net is full. */
  lemma BarrenIffFull(s: State)
    requires Inv(s)
    ensures SomeBarren(s) <==> exists i :: 0 <= i < |s| && FreeCount(s[i]) == 0
  {
    forall i | 0 <= i < |s| ensures Barren(s[i]) <==> FreeCount(s[i]) == 0 {
      ReservedAddrs(s[i].prefix);
      var path := HeldPath(s[i], HostPrefix(s[i].prefix.addr));
    }
  }
}
