/** The intrusive singly-linked list: a head/tail/count record over nodes
    that the caller owns. The only field the list touches in a node is its
    link to the next node. */
module Sll {

  class Node {
    var next: Node?
    /** Placeholder for the caller's payload; the list never reads it. */
    var id: int

    /** A zero-filled node, as freshly `calloc`ed memory is. */
    constructor ()
      ensures next == null && id == 0
    {
      next := null;
      id := 0;
    }
  }

  /** `s` holds every node at most once. */
  ghost predicate Distinct(s: seq<Node>) {
    forall i, j :: 0 <= i < j < |s| ==> s[i] != s[j]
  }

  /** Each node of `s` but the last links to the one after it. */
  ghost predicate Linked(s: seq<Node>)
    reads s
  {
    forall i {:trigger s[i].next} :: 0 <= i < |s| - 1 ==> s[i].next == s[i + 1]
  }

  /** `s` without its element at index `p`. */
  function Without(s: seq<Node>, p: nat): (r: seq<Node>)
    requires p < |s|
    ensures |r| == |s| - 1
    ensures forall i {:trigger r[i]} :: 0 <= i < |r| ==> r[i] == if i < p then s[i] else s[i + 1]
  {
    s[..p] + s[p + 1..]
  }

  lemma DistinctWithout(s: seq<Node>, p: nat)
    requires p < |s| && Distinct(s)
    ensures Distinct(Without(s, p)) && s[p] !in Without(s, p)
  {
    var r := Without(s, p);
    forall i, j | 0 <= i < j < |r| ensures r[i] != r[j] {
      var i', j' := if i < p then i else i + 1, if j < p then j else j + 1;
      assert r[i] == s[i'] && r[j] == s[j'];
    }
    forall i | 0 <= i < |r| ensures r[i] != s[p] {
      var i' := if i < p then i else i + 1;
      assert r[i] == s[i'];
    }
  }

  /** After the node at `p` is unlinked (its predecessor now links past it)
      the remaining nodes form a chain. */
  lemma LinkedWithout(s: seq<Node>, p: nat)
    requires p < |s|
    requires forall i :: 0 <= i < |s| - 1 && i + 1 != p && i != p ==> s[i].next == s[i + 1]
    requires 0 < p < |s| - 1 ==> s[p - 1].next == s[p + 1]
    ensures Linked(Without(s, p))
  {
    var r := Without(s, p);
    forall i | 0 <= i < |r| - 1 ensures r[i].next == r[i + 1] {
      if i >= p {
        assert r[i] == s[i + 1] && r[i + 1] == s[i + 2];
      }
    }
  }

  /** Resets a node's link (`list_node_clear`); the payload is untouched. */
  method ClearNode(node: Node)
    modifies node
    ensures node.next == null && node.id == old(node.id)
  {
    node.next := null;
  }

  class SList {
    var first: Node?
    var last: Node?
    var n: nat
    /** The linked nodes, from `first` to `last`. */
    ghost var elems: seq<Node>
    ghost var Repr: set<object>

    ghost predicate Valid()
      reads this, Repr
      ensures Valid() ==> this in Repr
    {
      this in Repr &&
      (forall i :: 0 <= i < |elems| ==> elems[i] in Repr) &&
      n == |elems| &&
      (elems == [] ==> first == null && last == null) &&
      (elems != [] ==> first == elems[0] && last == elems[|elems| - 1] && last.next == null) &&
      Linked(elems) && Distinct(elems)
    }

    /** The node at index `i`, or null outside the list. */
    ghost function At(i: int): Node?
      reads this
    {
      if 0 <= i < |elems| then elems[i] else null
    }

    /** An empty list, as a zero-initialised list record is. */
    constructor ()
      ensures Valid() && fresh(Repr - {this})
      ensures elems == [] && first == null && last == null && n == 0
    {
      first, last, n := null, null, 0;
      elems := [];
      Repr := {this};
    }

    /** `list_clear`: forgets every node without touching any of them. */
    method Clear()
      modifies this
      ensures Valid() && Repr == {this}
      ensures elems == [] && first == null && last == null && n == 0
    {
      first, last, n := null, null, 0;
      elems := [];
      Repr := {this};
    }

    /** `list_size`: the number of linked nodes. */
    function Size(): (r: nat)
      reads this, Repr
      requires Valid()
      ensures r == |elems|
      ensures r == 0 <==> first == null
    {
      n
    }

    /** `list_pushback`: appends `node` as the new tail. The node's own link
        is not reset, so it must already be clear. */
    method PushBack(node: Node)
      requires Valid()
      requires node.next == null && node !in elems
      modifies Repr
      ensures Valid()
      ensures elems == old(elems) + [node] && Repr == old(Repr) + {node}
      ensures last == node && n == old(n) + 1
      ensures old(n) == 0 ==> first == node
      ensures old(n) != 0 ==> first == old(first) && old(last).next == node
      // no payload is written, the new node's included
      ensures node.id == old(node.id)
      ensures forall m: Node | m in old(Repr) :: m.id == old(m.id)
    {
      if n == 0 {
        first := node;
        last := node;
        n := 1;
      } else {
        last.next := node;
        last := node;
        n := n + 1;
      }
      elems := elems + [node];
      Repr := Repr + {node};
    }

    /** `list_popfront`: detaches and returns the head, or null when empty. */
    method PopFront() returns (x: Node?)
      requires Valid()
      modifies Repr
      ensures Valid()
      ensures old(elems) == [] ==> x == null && elems == [] && Repr == old(Repr) && unchanged(Repr)
      ensures old(elems) != [] ==>
                x == old(elems)[0] && elems == old(elems)[1..] && x.next == null &&
                Repr == old(Repr) - {x} && n == old(n) - 1
      ensures last == null <==> elems == []
      // no payload is written, the returned node's included
      ensures forall m: Node | m in old(Repr) :: m.id == old(m.id)
    {
      if n == 0 {
        return null;
      }
      x := first;
      first := x.next;
      n := n - 1;
      if first == null {
        last := null;
      }
      x.next := null;
      elems := elems[1..];
      Repr := Repr - {x};
    }

    /** The list side of removing the node `x` at index `p` whose neighbours
        are `prev` and `succ`, as the iterator's removal does it: `first`
        moves to the successor if `x` was the head, `last` to `prev` if `x`
        was the tail, the count drops by one; then (steps `iter_pop`
        omits) `prev` is relinked to `succ` and `x`'s link is
        cleared. */
    method Unlink(ghost p: nat, prev: Node?, x: Node, succ: Node?)
      requires Valid()
      requires p < |elems| && x == elems[p] && prev == At(p - 1) && succ == At(p + 1)
      modifies this, Repr
      ensures Valid()
      ensures elems == Without(old(elems), p) && Repr == old(Repr) - {x}
      ensures x.next == null && n == old(n) - 1
      ensures first == (if x == old(first) then succ else old(first))
      ensures last == (if x == old(last) then prev else old(last))
      ensures forall m: Node | m in old(Repr) :: m.id == old(m.id)
    {
      ghost var e := elems;
      if x == first {
        first := x.next;
      }
      if x == last {
        last := prev;
      }
      n := n - 1;
      // added: relink the predecessor past the removed node
      if prev != null {
        prev.next := succ;
      }
      // added: detach the removed node
      x.next := null;
      elems := Without(e, p);
      Repr := Repr - {x};
      forall i | 0 <= i < |e| - 1 && i + 1 != p && i != p ensures e[i].next == e[i + 1] {
        assert e[i] != x && e[i] != prev;
      }
      DistinctWithout(e, p);
      LinkedWithout(e, p);
    }
  }
}
