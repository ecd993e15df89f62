/** Abstract semantics of the forward iterator of the intrusive list.

    A list is seen as the sequence of its nodes. An iterator is a position
    `pos` in that sequence plus a flag `gap`: `gap` is set right after the
    node at `pos` was removed by `Pop`, when there is nothing to report at
    this position but the node now at `pos` (the successor of the removed
    one) is still to be visited. */
module IterModel {

  datatype Option<T> = None | Some(value: T)

  datatype Cursor<T> = Cursor(elems: seq<T>, pos: nat, gap: bool)

  ghost predicate Wf<T>(c: Cursor<T>) {
    c.pos <= |c.elems|
  }

  /** The node the iterator currently designates, if any. */
  function Get<T>(c: Cursor<T>): (r: Option<T>)
    ensures r.Some? ==> c.pos < |c.elems| && r.value == c.elems[c.pos]
    ensures r.None? <==> c.gap || |c.elems| <= c.pos
  {
    if !c.gap && c.pos < |c.elems| then Some(c.elems[c.pos]) else None
  }

  /** A fresh iterator designates the head of the list. */
  function Start<T>(s: seq<T>): (c: Cursor<T>)
    ensures Wf(c) && c.elems == s && !c.gap
    ensures Get(c) == if s == [] then None else Some(s[0])
  {
    Cursor(s, 0, false)
  }

  /** Traversal is over when no node remains to be visited: nothing is
      designated now and nothing would be after one more step. Outside the
      gap left by a removal, this is just "nothing is designated". */
  function IsEnd<T>(c: Cursor<T>): (r: bool)
    requires Wf(c)
    ensures r <==> Get(c) == None && Get(Next(c)) == None
    ensures !c.gap ==> (r <==> Get(c) == None)
  {
    c.pos == |c.elems|
  }

  /** One forward step: from a designated node to its successor, from a
      gap to the node that followed the removed one; no-op at the end. */
  function Next<T>(c: Cursor<T>): (r: Cursor<T>)
    requires Wf(c)
    ensures Wf(r) && r.elems == c.elems && !r.gap
    // past the last node, stepping changes nothing
    ensures !c.gap && Get(c) == None ==> r == c
  {
    if c.gap then Cursor(c.elems, c.pos, false)
    else if c.pos < |c.elems| then Cursor(c.elems, c.pos + 1, false)
    else c
  }

  /** Removes the designated node, if any, and returns it. */
  function Pop<T>(c: Cursor<T>): (r: (Cursor<T>, Option<T>))
    requires Wf(c)
    ensures Wf(r.0) && r.1 == Get(c)
    ensures r.1 == None ==> r.0 == c
    ensures r.1 != None ==>
              |r.0.elems| == |c.elems| - 1 &&
              multiset(r.0.elems) + multiset{r.1.value} == multiset(c.elems)
    // all other nodes keep their relative order
    ensures r.1 != None ==>
              r.0.elems[..c.pos] == c.elems[..c.pos] &&
              r.0.elems[c.pos..] == c.elems[c.pos + 1..]
    // the following step resumes at the node after the removed one
    ensures r.1 != None ==>
              Get(Next(r.0)) == if c.pos + 1 < |c.elems| then Some(c.elems[c.pos + 1]) else None
  {
    if c.gap || c.pos == |c.elems| then (c, None)
    else
      assert c.elems == c.elems[..c.pos] + [c.elems[c.pos]] + c.elems[c.pos + 1..];
      (Cursor(c.elems[..c.pos] + c.elems[c.pos + 1..], c.pos, true), Some(c.elems[c.pos]))
  }

  /** Reference definition: the elements of `s` not in `drop`, in order. */
  function Keep<T>(s: seq<T>, drop: set<T>): seq<T> {
    if s == [] then [] else (if s[0] in drop then [] else [s[0]]) + Keep(s[1..], drop)
  }

  lemma {:induction false} KeepAppend<T>(s: seq<T>, t: seq<T>, drop: set<T>)
    ensures Keep(s + t, drop) == Keep(s, drop) + Keep(t, drop)
  {
    if s == [] {
      assert s + t == t;
    } else {
      var h := if s[0] in drop then [] else [s[0]];
      assert (s + t)[0] == s[0] && (s + t)[1..] == s[1..] + t;
      assert Keep(s + t, drop) == h + Keep(s[1..] + t, drop);
      KeepAppend(s[1..], t, drop);
      assert Keep(s, drop) == h + Keep(s[1..], drop);
    }
  }

  /** Filtering the suffix from `i` looks at `s[i]`, then filters the rest. */
  lemma KeepStep<T>(s: seq<T>, i: nat, drop: set<T>)
    requires i < |s|
    ensures Keep(s[i..], drop) == (if s[i] in drop then [] else [s[i]]) + Keep(s[i + 1..], drop)
  {
    assert s[i..] == [s[i]] + s[i + 1..];
    KeepAppend([s[i]], s[i + 1..], drop);
    assert [s[i]][1..] == [];
  }

  /** The elements of `s` that are in `drop`, in order. */
  function Picked<T>(s: seq<T>, drop: set<T>): seq<T> {
    if s == [] then [] else (if s[0] in drop then [s[0]] else []) + Picked(s[1..], drop)
  }

  lemma {:induction false} PickedAppend<T>(s: seq<T>, t: seq<T>, drop: set<T>)
    ensures Picked(s + t, drop) == Picked(s, drop) + Picked(t, drop)
  {
    if s == [] {
      assert s + t == t;
    } else {
      var h := if s[0] in drop then [s[0]] else [];
      assert (s + t)[0] == s[0] && (s + t)[1..] == s[1..] + t;
      assert Picked(s + t, drop) == h + Picked(s[1..] + t, drop);
      PickedAppend(s[1..], t, drop);
      assert Picked(s, drop) == h + Picked(s[1..], drop);
    }
  }

  /** Every element goes to exactly one of the two sides. */
  lemma {:induction false} KeepPickedSplit<T>(s: seq<T>, drop: set<T>)
    ensures multiset(Keep(s, drop)) + multiset(Picked(s, drop)) == multiset(s)
  {
    if s != [] {
      KeepPickedSplit(s[1..], drop);
      assert s == [s[0]] + s[1..];
    }
  }

  lemma {:induction false} KeepSubset<T>(s: seq<T>, drop: set<T>)
    ensures forall x :: x in Keep(s, drop) ==> x in s && x !in drop
  {
    if s != [] {
      KeepSubset(s[1..], drop);
    }
  }

  /** One round of the removal loop below, at a cursor that designates a
      node: pop it if it is in `drop`, then step forward. */
  function Round<T>(c: Cursor<T>, drop: set<T>): (r: Cursor<T>)
    requires Wf(c) && !c.gap && !IsEnd(c)
    ensures Wf(r) && !r.gap
    // one node fewer is left to visit, and none is added
    ensures |r.elems| - r.pos == |c.elems| - c.pos - 1 && |r.elems| <= |c.elems|
  {
    if c.elems[c.pos] in drop then Next(Pop(c).0) else Next(c)
  }

  /** The traversal loop a client writes to remove every node in `drop`:
      start; while not at the end, look at the current node, pop it if it is
      in `drop`, and step forward. Returns the final list and the nodes the
      loop saw, in order. */
  function Sweep<T>(c: Cursor<T>, drop: set<T>): (r: (seq<T>, seq<T>))
    requires Wf(c) && !c.gap
    // every node after the cursor is seen once, and the list never grows
    ensures |r.1| == |c.elems| - c.pos && |r.0| <= |c.elems|
    decreases |c.elems| - c.pos
  {
    if IsEnd(c) then (c.elems, [])
    else
      var r' := Sweep(Round(c, drop), drop);
      (r'.0, [c.elems[c.pos]] + r'.1)
  }

  /** What holds of the removal pass over the list `s` after `k` rounds,
      at cursor `c`: `c` still holds the unvisited suffix `s[k..]`, and the
      rest of the pass from `c` ends with the nodes of `s` not in `drop`. */
  ghost predicate Pass<T>(s: seq<T>, drop: set<T>, c: Cursor<T>, k: nat) {
    Wf(c) && !c.gap && k <= |s| && c.elems[c.pos..] == s[k..] &&
    Sweep(c, drop).0 == Keep(s, drop)
  }

  lemma PassStart<T>(s: seq<T>, drop: set<T>)
    ensures Pass(s, drop, Start(s), 0) && Picked(s[..0], drop) == []
  {
    SweepFromStart(s, drop);
    assert s[0..] == s && s[..0] == [];
  }

  /** One round: the node `s[k]` is designated, and the nodes picked so far,
      appended to any list `q`, grow by `s[k]` exactly when it is in `drop`. */
  lemma PassRound<T>(s: seq<T>, drop: set<T>, c: Cursor<T>, k: nat, q: seq<T>)
    requires Pass(s, drop, c, k) && !IsEnd(c)
    ensures k < |s| && c.elems[c.pos] == s[k]
    ensures Pass(s, drop, Round(c, drop), k + 1)
    ensures q + Picked(s[..k + 1], drop) == (q + Picked(s[..k], drop)) + if s[k] in drop then [s[k]] else []
  {
    assert c.elems[c.pos..][0] == c.elems[c.pos];
    var c' := Round(c, drop);
    assert c'.elems[c'.pos..] == c.elems[c.pos + 1..];
    assert c.elems[c.pos + 1..] == c.elems[c.pos..][1..];
    assert s[k + 1..] == s[k..][1..];
    assert s[..k + 1] == s[..k] + [s[k]];
    PickedAppend(s[..k], [s[k]], drop);
    var x := if s[k] in drop then [s[k]] else [];
    assert Picked([s[k]], drop) == x by { assert [s[k]][1..] == []; }
    assert q + (Picked(s[..k], drop) + x) == (q + Picked(s[..k], drop)) + x;
  }

  /** At the end of the pass the cursor holds the filtered list and every
      node of `s` has been visited. */
  lemma PassEnd<T>(s: seq<T>, drop: set<T>, c: Cursor<T>, k: nat)
    requires Pass(s, drop, c, k) && IsEnd(c)
    ensures c.elems == Keep(s, drop) && s[..k] == s
  {
    assert s[k..] == c.elems[c.pos..] == [];
  }

  /** From a cursor at index `p` of `e`, the pass keeps the prefix before
      `p`, filters the suffix from `p`, and sees that suffix. */
  lemma {:induction false} SweepFrom<T>(e: seq<T>, p: nat, drop: set<T>)
    requires p <= |e|
    ensures Sweep(Cursor(e, p, false), drop) == (e[..p] + Keep(e[p..], drop), e[p..])
    decreases |e| - p, 1
  {
    if p == |e| {
      assert e[..p] == e && e[p..] == [];
      assert Sweep(Cursor(e, p, false), drop) == (e, []);
      assert e[..p] + Keep(e[p..], drop) == e;
    } else if e[p] in drop {
      SweepFromDrop(e, p, drop);
    } else {
      SweepFromKeep(e, p, drop);
    }
  }

  /** The round at `p` pops `e[p]`. */
  lemma {:induction false} SweepFromDrop<T>(e: seq<T>, p: nat, drop: set<T>)
    requires p < |e| && e[p] in drop
    ensures Sweep(Cursor(e, p, false), drop) == (e[..p] + Keep(e[p..], drop), e[p..])
    decreases |e| - p, 0
  {
    var c, c', e' := Cursor(e, p, false), Cursor(e[..p] + e[p + 1..], p, false), e[..p] + e[p + 1..];
    Slices(e, p);
    assert Round(c, drop) == c';
    assert Sweep(c, drop) == (Sweep(c', drop).0, [e[p]] + Sweep(c', drop).1);
    SweepFrom(e', p, drop);
    var k := Keep(e[p + 1..], drop);
    KeepStep(e, p, drop);
    assert [] + k == k;
  }

  /** The round at `p` keeps `e[p]` and steps past it. */
  lemma {:induction false} SweepFromKeep<T>(e: seq<T>, p: nat, drop: set<T>)
    requires p < |e| && e[p] !in drop
    ensures Sweep(Cursor(e, p, false), drop) == (e[..p] + Keep(e[p..], drop), e[p..])
    decreases |e| - p, 0
  {
    var c, c', x := Cursor(e, p, false), Cursor(e, p + 1, false), e[p];
    var k := Keep(e[p + 1..], drop);
    assert Sweep(c, drop) == (e[..p + 1] + k, [x] + e[p + 1..]) by {
      assert Round(c, drop) == c';
      SweepFrom(e, p + 1, drop);
    }
    assert Keep(e[p..], drop) == [x] + k by {
      KeepStep(e, p, drop);
    }
    Slices(e, p);
    assert (e[..p] + [x]) + k == e[..p] + ([x] + k);
  }

  /** How `e` splits around position `p`, with and without `e[p]`. */
  lemma Slices<T>(e: seq<T>, p: nat)
    requires p < |e|
    ensures e[p..] == [e[p]] + e[p + 1..] && e[..p + 1] == e[..p] + [e[p]]
    ensures (e[..p] + e[p + 1..])[..p] == e[..p]
    ensures (e[..p] + e[p + 1..])[p..] == e[p + 1..]
  {
  }

  /** A removal pass over the whole list leaves exactly the nodes not in
      `drop`, in their original order, and visits every node of the
      original list exactly once, in list order. */
  lemma SweepFromStart<T>(s: seq<T>, drop: set<T>)
    ensures Sweep(Start(s), drop) == (Keep(s, drop), s)
  {
    SweepFrom(s, 0, drop);
    assert Start(s) == Cursor(s, 0, false);
    assert s[..0] == [] && s[0..] == s;
    assert s[..0] + Keep(s[0..], drop) == Keep(s, drop);
  }

  /** The demonstration scenario: nodes with ids 1..10; removing ids 1, 5,
      6 and 10 during one pass leaves 2, 3, 4, 7, 8, 9 and visits all ten
      ids in order; three pops from the front then return 2, 3 and 4 and
      leave 7, 8, 9. */
  lemma ExampleSweep(s: seq<int>, d: set<int>)
    requires |s| == 10 && forall i :: 0 <= i < |s| ==> s[i] == i + 1
    requires d == {1, 5, 6, 10}
    ensures Sweep(Start(s), d) == ([2, 3, 4, 7, 8, 9], s)
    ensures Sweep(Start(s), d).0[..3] == [2, 3, 4] && Sweep(Start(s), d).0[3..] == [7, 8, 9]
  {
    SweepFromStart(s, d);
    ExampleKeep(s, d);
    var kept: seq<int> := [2, 3, 4, 7, 8, 9];
    assert kept[..3] == [2, 3, 4] && kept[3..] == [7, 8, 9];
  }

  lemma ExampleKeep(s: seq<int>, d: set<int>)
    requires |s| == 10 && forall i :: 0 <= i < |s| ==> s[i] == i + 1
    requires d == {1, 5, 6, 10}
    ensures Keep(s, d) == [2, 3, 4, 7, 8, 9]
  {
    // Keep evaluated suffix by suffix, from the tail
    assert s[10..] == [];
    KeepStep(s, 9, d);
    KeepStep(s, 8, d);
    KeepStep(s, 7, d);
    KeepStep(s, 6, d);
    KeepStep(s, 5, d);
    KeepStep(s, 4, d);
    KeepStep(s, 3, d);
    KeepStep(s, 2, d);
    KeepStep(s, 1, d);
    KeepStep(s, 0, d);
    assert s[0..] == s;
  }
}
