/** Callers of the list, iterator and pool, written against their
    contracts only: the FIFO order of the list, the removal pass of the
    demonstration program, and what the iterator's removal does when run
    exactly as its body is written. */
module SllClients {
  import opened Sll
  import opened SllIter
  import opened SllPool
  import IterModel

  /** Appending distinct, clear nodes one by one: the list ends with them,
      in the order given. */
  method PushAll(l: SList, nodes: seq<Node>)
    requires l.Valid() && Distinct(nodes)
    requires forall i :: 0 <= i < |nodes| ==> nodes[i].next == null && nodes[i] !in l.Repr
    modifies l.Repr, nodes
    ensures l.Valid() && l.elems == old(l.elems) + nodes
    ensures l.Size() == old(l.Size()) + |nodes|
    ensures l.Repr <= old(l.Repr) + set j | 0 <= j < |nodes| :: nodes[j]
  {
    var i := 0;
    while i < |nodes|
      invariant i <= |nodes|
      invariant l.Valid() && l.elems == old(l.elems) + nodes[..i]
      invariant l.Repr <= old(l.Repr) + set j | 0 <= j < i :: nodes[j]
      invariant forall j :: i <= j < |nodes| ==> nodes[j].next == null && nodes[j] !in l.Repr
    {
      l.PushBack(nodes[i]);
      assert nodes[..i + 1] == nodes[..i] + [nodes[i]];
      i := i + 1;
    }
    assert nodes[..i] == nodes;
  }

  /** Popping from the front until the list is empty returns its nodes in
      list order, each with its link cleared. */
  method PopAll(l: SList) returns (out: seq<Node>)
    requires l.Valid()
    modifies l.Repr
    ensures l.Valid() && l.elems == [] && l.first == null && l.last == null && l.Size() == 0
    ensures out == old(l.elems)
    ensures forall i :: 0 <= i < |out| ==> out[i].next == null
  {
    ghost var s := l.elems;
    out := [];
    while l.Size() != 0
      invariant l.Valid() && |out| <= |s|
      invariant out == s[..|out|] && l.elems == s[|out|..]
      invariant l.Repr <= old(l.Repr)
      invariant forall j :: 0 <= j < |out| ==> out[j].next == null
      invariant forall j :: 0 <= j < |out| ==> out[j] !in l.Repr
      decreases |l.elems|
    {
      var x := l.PopFront();
      assert s[..|out| + 1] == out + [x];
      out := out + [x];
    }
    assert s[..|out|] == s;
  }

  /** FIFO order: pushing distinct, clear nodes onto an empty list and
      popping it empty returns them in push order. */
  method PushAllPopAll(l: SList, nodes: seq<Node>) returns (out: seq<Node>)
    requires l.Valid() && l.elems == [] && Distinct(nodes)
    requires forall i :: 0 <= i < |nodes| ==> nodes[i].next == null && nodes[i] !in l.Repr
    modifies l.Repr, nodes
    ensures l.Valid() && l.elems == [] && l.Size() == 0
    ensures out == nodes
    ensures forall i :: 0 <= i < |nodes| ==> nodes[i].next == null
  {
    PushAll(l, nodes);
    out := PopAll(l);
  }

  /** Removes the node the iterator designates and returns it to `pool`,
      the body of the removal branch in the demonstration program. */
  method PopToPool(it: Iterator, pool: Pool)
    requires it.Valid() && pool.Valid() && it.current != null
    requires it.list.Repr !! pool.free.Repr && it !in pool.free.Repr
    modifies it, it.list.Repr, pool.free.Repr
    ensures it.Valid() && pool.Valid()
    ensures it.list.Repr !! pool.free.Repr && it !in pool.free.Repr
    ensures it.list.Repr <= old(it.list.Repr)
    ensures pool.free.Repr <= old(pool.free.Repr) + old(it.list.Repr)
    ensures it.Abs() == IterModel.Pop(old(it.Abs())).0
    ensures pool.free.elems == old(pool.free.elems) + [old(it.current)]
    ensures forall m: Node | m in old(it.list.Repr) || m in old(pool.free.Repr) :: m.id == old(m.id)
  {
    var r := it.Pop();
    pool.Return(r);
  }

  /** One round of the removal pass of the demonstration program: the node
      the iterator designates is popped and returned to `pool` when it is in
      `drop`, then the iterator steps forward. */
  method SweepRound(it: Iterator, pool: Pool, drop: set<Node>)
    requires it.Valid() && pool.Valid() && !it.gap && !it.IsEnd()
    requires it.list.Repr !! pool.free.Repr && it !in pool.free.Repr
    modifies it, it.list.Repr, pool.free.Repr
    ensures it.Valid() && pool.Valid() && !it.gap
    ensures it.list.Repr !! pool.free.Repr && it !in pool.free.Repr
    ensures it.list.Repr <= old(it.list.Repr)
    ensures pool.free.Repr <= old(pool.free.Repr) + old(it.list.Repr)
    ensures it.Abs() == IterModel.Round(old(it.Abs()), drop)
    ensures var x := old(it.list.elems[it.pos]);
            pool.free.elems == old(pool.free.elems) + if x in drop then [x] else []
    ensures forall m: Node | m in old(it.list.Repr) || m in old(pool.free.Repr) :: m.id == old(m.id)
  {
    var x := it.Get();
    if x in drop {
      PopToPool(it, pool);
    }
    it.Next();
  }

  /** The whole removal pass: walking the list from its head, every node in
      `drop` is removed and returned to `pool`. The list keeps the other
      nodes in order; the pool receives the removed ones at its tail, in
      list order. */
  method SweepToPool(l: SList, pool: Pool, drop: set<Node>)
    requires l.Valid() && pool.Valid() && l.Repr !! pool.free.Repr
    modifies l.Repr, pool.free.Repr
    ensures l.Valid() && pool.Valid() && l.Repr !! pool.free.Repr
    ensures l.elems == IterModel.Keep(old(l.elems), drop)
    ensures pool.free.elems == old(pool.free.elems) + IterModel.Picked(old(l.elems), drop)
    // payloads travel with their nodes, so `drop` may be chosen by payload
    ensures forall m: Node | m in old(l.Repr) || m in old(pool.free.Repr) :: m.id == old(m.id)
  {
    ghost var s, q := l.elems, pool.free.elems;
    var it := new Iterator.Start(l);
    ghost var c, k := it.Abs(), 0;
    IterModel.PassStart(s, drop);
    while !it.IsEnd()
      invariant it.Valid() && it.list == l && !it.gap && pool.Valid()
      invariant l.Repr !! pool.free.Repr && it !in pool.free.Repr
      invariant l.Repr <= old(l.Repr) && pool.free.Repr <= old(pool.free.Repr) + old(l.Repr)
      invariant it.Abs() == c && IterModel.Pass(s, drop, c, k)
      invariant pool.free.elems == q + IterModel.Picked(s[..k], drop)
      invariant forall m: Node | m in old(l.Repr) || m in old(pool.free.Repr) :: m.id == old(m.id)
      decreases |c.elems| - c.pos
    {
      IterModel.PassRound(s, drop, c, k, q);
      SweepRound(it, pool, drop);
      c, k := IterModel.Round(c, drop), k + 1;
    }
    IterModel.PassEnd(s, drop, c, k);
  }

  /** The body of the demonstration's loop that moves list heads to the
      pool: the list's first node, if any, becomes the pool's last. */
  method HeadToPool(l: SList, pool: Pool) returns (node: Node?)
    requires l.Valid() && pool.Valid() && l.Repr !! pool.free.Repr
    modifies l.Repr, pool.free.Repr
    ensures l.Valid() && pool.Valid() && l.Repr !! pool.free.Repr
    ensures old(l.elems) == [] ==> node == null && l.elems == [] && pool.free.elems == old(pool.free.elems)
    ensures old(l.elems) != [] ==>
              node == old(l.elems)[0] && l.elems == old(l.elems)[1..] &&
              pool.free.elems == old(pool.free.elems) + [node]
    ensures forall m: Node | m in old(l.Repr) || m in old(pool.free.Repr) :: m.id == old(m.id)
  {
    node := l.PopFront();
    if node != null {
      pool.Return(node);
    }
  }

  /** The body of the demonstration's loop that fills the list from the
      pool: the pool's first node is reused when there is one, otherwise a
      fresh zeroed node is made; either way it becomes the list's last. */
  method PoolToTail(l: SList, pool: Pool) returns (node: Node)
    requires l.Valid() && pool.Valid() && l.Repr !! pool.free.Repr
    modifies l.Repr, pool.free.Repr
    ensures l.Valid() && pool.Valid() && l.Repr !! pool.free.Repr
    ensures l.elems == old(l.elems) + [node]
    ensures old(pool.free.elems) != [] ==>
              node == old(pool.free.elems)[0] && pool.free.elems == old(pool.free.elems)[1..]
    ensures old(pool.free.elems) == [] ==>
              fresh(node) && node.id == 0 && pool.free.elems == []
    ensures forall m: Node | m in old(l.Repr) || m in old(pool.free.Repr) :: m.id == old(m.id)
  {
    node := pool.Get();
    l.PushBack(node);
  }

  /** Returning a node to an empty pool and getting one back yields that
      same node, clear, and leaves the pool empty again. */
  method ReturnThenGet(pool: Pool, node: Node) returns (got: Node)
    requires pool.Valid() && pool.free.elems == []
    requires node.next == null && node !in pool.free.Repr
    modifies pool.free.Repr, node
    ensures pool.Valid() && pool.free.elems == []
    ensures got == node && got.next == null
  {
    pool.Return(node);
    got := pool.Get();
  }

  /** The counterexample for the removal as written: in a list of three
      nodes a, b, c, removing b through the iterator drops the count to two,
      yet a still links to b and b to c, so three nodes stay reachable from
      `first`, and the iterator still designates b. */
  method PopAsWrittenCounterexample(l: SList) returns (it: Iterator, r: Node?)
    requires l.Valid() && |l.elems| == 3
    modifies l
    ensures fresh(it) && it.list == l
    ensures r == old(l.elems[1]) && it.current == r
    ensures l.n == 2 && l.first == old(l.elems[0]) && l.last == old(l.elems[2])
    ensures l.first.next == r && r.next == l.last && l.last.next == null
  {
    assert l.elems[0].next == l.elems[1] && l.elems[1].next == l.elems[2];
    it := new Iterator.Start(l);
    it.Next();
    r := it.PopAsWritten();
  }
}
