/** The forward iterator over an intrusive list, with removal of the node
    it currently visits. Besides the list, `prev` and `current` of the
    header's iterator record, the model keeps `succ`, the successor of the
    visited node saved before a removal, so that traversal can continue
    after `Pop`. Steps that the model adds to the bodies of the
    `iter_*` functions are marked "added:". */
module SllIter {
  import opened Sll
  import IterModel

  /** A nullable node as an optional one. */
  function Opt(x: Node?): IterModel.Option<Node> {
    if x == null then IterModel.None else IterModel.Some(x as Node)
  }

  /** The model's removal at a designated node `e[p]` is `Without` at `p`,
      and leaves a gap there. */
  lemma PopAt(e: seq<Node>, p: nat)
    requires p < |e|
    ensures IterModel.Pop(IterModel.Cursor(e, p, false)) == (IterModel.Cursor(Without(e, p), p, true), IterModel.Some(e[p]))
  {
  }

  class Iterator {
    const list: SList
    var prev: Node?
    var current: Node?
    var succ: Node?
    /** Index of `current` in `list.elems`; after a removal, the index of
        the node that followed the removed one. */
    ghost var pos: nat
    /** Set by `Pop`: nothing is visited at `pos` until the next step. */
    ghost var gap: bool

    ghost predicate Valid()
      reads this, list, list.Repr
    {
      list.Valid() && this !in list.Repr && pos <= |list.elems| &&
      current == (if gap then null else list.At(pos)) &&
      succ == list.At(if gap then pos else pos + 1) &&
      (gap || pos < |list.elems| ==> prev == list.At(pos - 1))
    }

    /** The abstract position of the iterator. */
    ghost function Abs(): (c: IterModel.Cursor<Node>)
      reads this, list
    {
      IterModel.Cursor(list.elems, pos, gap)
    }

    /** `iter_start`: binds the iterator to `l`, at its head. */
    constructor Start(l: SList)
      requires l.Valid()
      ensures Valid() && list == l
      ensures prev == null && current == l.first
      ensures Abs() == IterModel.Start(l.elems)
    {
      list := l;
      prev := null;
      current := l.first;
      // added: save the successor of the first node
      succ := if l.first != null then l.first.next else null;
      pos, gap := 0, false;
    }

    /** `iter_get`: the node currently visited, or null. */
    function Get(): (r: Node?)
      reads this, list, list.Repr
      requires Valid()
      ensures Opt(r) == IterModel.Get(Abs())
      ensures r != null ==> r in list.elems
    {
      current
    }

    /** `iter_isend`: traversal is over. `iter_isend` tests only `current`;
        the model also tests `succ`, which after a removal still holds the
        node to resume at. The two tests agree outside that gap. */
    function IsEnd(): (r: bool)
      reads this, list, list.Repr
      requires Valid()
      ensures r <==> IterModel.IsEnd(Abs())
      ensures !gap ==> (r <==> current == null)
    {
      // added: `&& succ == null`
      current == null && succ == null
    }

    /** `iter_next`: steps to the successor of the visited node. */
    method Next()
      requires Valid()
      modifies this
      ensures Valid()
      ensures Abs() == IterModel.Next(old(Abs()))
      ensures old(current) != null ==> prev == old(current) && current == old(current.next)
      ensures old(current) == null && old(succ) == null ==> prev == null && current == null
      ensures old(current) == null && old(succ) != null ==> prev == old(prev) && current == old(succ)
    {
      if current != null {
        prev := current;
        current := current.next;
        // added: keep the saved successor up to date
        succ := if current != null then current.next else null;
        pos := pos + 1;
      } else if succ != null {
        // added: resume after a removal, at the saved successor
        current := succ;
        succ := current.next;
        gap := false;
      } else {
        prev := null;
        gap := false;
      }
    }

    /** `iter_pop`: removes the visited node from the list and returns it,
        or returns null when no node is visited. */
    method Pop() returns (x: Node?)
      requires Valid()
      modifies this, list.Repr
      ensures Valid()
      ensures x == old(current)
      ensures x == null ==> unchanged(this, list) && unchanged(list.Repr)
      ensures x != null ==>
                x.next == null && current == null && prev == old(prev) && succ == old(succ) &&
                list.Repr == old(list.Repr) - {x} && list.n == old(list.n) - 1 &&
                list.first == (if x == old(list.first) then old(succ) else old(list.first)) &&
                list.last == (if x == old(list.last) then old(prev) else old(list.last))
      ensures IterModel.Pop(old(Abs())) == (Abs(), Opt(x))
      // no payload is written, the removed node's included
      ensures forall m: Node | m in old(list.Repr) :: m.id == old(m.id)
    {
      x := current;
      if x != null {
        ghost var e, p := list.elems, pos;
        Remove();
        PopAt(e, p);
      }
    }

    /** The removal branch of `iter_pop`, at a visited node. */
    method Remove()
      requires Valid() && current != null
      modifies this, list.Repr
      ensures Valid()
      ensures old(current).next == null && current == null && prev == old(prev) && succ == old(succ)
      ensures list.Repr == old(list.Repr) - {old(current)} && list.n == old(list.n) - 1
      ensures list.first == (if old(current) == old(list.first) then old(succ) else old(list.first))
      ensures list.last == (if old(current) == old(list.last) then old(prev) else old(list.last))
      ensures list.elems == Without(old(list.elems), old(pos)) && pos == old(pos) && gap
      ensures forall m: Node | m in old(list.Repr) :: m.id == old(m.id)
    {
      ghost var p := pos;
      var x := current;
      // added: report nothing at this position
      current := null;
      gap := true;
      // the list-side writes of `iter_pop`'s body, plus the added relink
      // and detach; see SList.Unlink
      list.Unlink(p, prev, x, succ);
    }

    /** `iter_pop` exactly as its body reads (taking `iter->list.n` to mean
        the bound list's count): only the list's `first`, `last` and `n` are
        written; the predecessor is not relinked, the removed node keeps
        its link and the iterator still designates it. */
    method PopAsWritten() returns (x: Node?)
      requires Valid()
      modifies list
      ensures x == old(current) && unchanged(this)
      ensures x == null ==> unchanged(list)
      ensures x != null ==>
                list.n == old(list.n) - 1 && list.elems == old(list.elems) &&
                list.first == (if x == old(list.first) then old(x.next) else old(list.first)) &&
                list.last == (if x == old(list.last) then prev else old(list.last))
    {
      if current != null {
        if current == list.first {
          list.first := current.next;
        }
        if current == list.last {
          list.last := prev;
        }
        list.n := list.n - 1;
      }
      x := current;
    }
  }

}
