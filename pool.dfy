/** The node pool: a list of nodes not currently in use. Getting a node
    reuses the pool's first node, or allocates a fresh zeroed one when the
    pool is empty; returning a node appends it to the pool. */
module SllPool {
  import opened Sll

  class Pool {
    /** The reservoir, a list of the same shape as any other. */
    const free: SList

    ghost predicate Valid()
      reads free, free.Repr
    {
      free.Valid()
    }

    /** An empty pool, as a zero-initialised pool record is. */
    constructor ()
      ensures Valid() && fresh(free) && fresh(free.Repr)
      ensures free.elems == []
    {
      free := new SList();
    }

    /** `pool_get`: never null. */
    method Get() returns (node: Node)
      requires Valid()
      modifies free.Repr
      ensures Valid()
      ensures node.next == null && node !in free.Repr
      ensures old(free.elems) != [] ==>
                node == old(free.elems)[0] && free.elems == old(free.elems)[1..] &&
                free.Repr == old(free.Repr) - {node}
      ensures old(free.elems) == [] ==>
                fresh(node) && node.id == 0 && free.elems == [] && free.Repr == old(free.Repr)
      // a reused node keeps its stale payload; no other payload is written
      ensures forall m: Node | m in old(free.Repr) :: m.id == old(m.id)
    {
      var r := free.PopFront();
      if r == null {
        node := new Node();
      } else {
        node := r;
      }
    }

    /** `pool_return`: the node becomes the pool's last. */
    method Return(node: Node)
      requires Valid()
      requires node.next == null && node !in free.elems
      modifies free.Repr
      ensures Valid()
      ensures free.elems == old(free.elems) + [node] && free.Repr == old(free.Repr) + {node}
      ensures free.last == node && free.Size() == old(free.Size()) + 1
      ensures node.id == old(node.id)
      ensures forall m: Node | m in old(free.Repr) :: m.id == old(m.id)
    {
      free.PushBack(node);
    }
  }
}
