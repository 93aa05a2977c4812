/** lib/kernel/list.c: intrusive doubly linked lists with two header elements,
    and the natural merge sort that works on them in place.

    The links are the C ones; `nodes` is the sequence they spell out, from the
    head to the tail.  Ghost indices say where in that sequence an element is. */
module Lists {
  import Bits
  import opened Sorting

  class Elem {
    var prev: Elem?
    var next: Elem?

    constructor ()
      ensures prev == null && next == null
    {
      prev, next := null, null;
    }
  }

  ghost predicate Linked(a: Elem, b: Elem)
    reads a, b
  {
    a.next == b && b.prev == a
  }

  // Both link directions spell out s, which names no element twice.
  ghost predicate Chain(s: seq<Elem>)
    reads s
  {
    && |s| >= 2
    && (forall i, j :: 0 <= i < j < |s| ==> s[i] != s[j])
    && (forall i, j {:trigger Linked(s[i], s[j])} :: 0 <= i < |s| && j == i + 1 && j < |s| ==> Linked(s[i], s[j]))
    && s[0].prev == null && s[|s| - 1].next == null
  }

  // s with the elements at f..l moved to just before the one at p.
  ghost function Spliced(s: seq<Elem>, p: nat, f: nat, l: nat): seq<Elem>
    requires f <= l <= |s| && p <= |s| && (p < f || l <= p)
  {
    if p < f then s[..p] + s[f..l] + s[p..f] + s[l..] else s[..f] + s[l..p] + s[f..l] + s[p..]
  }

  // Where the element at index i of a splice to an earlier place (p < f) was.
  function SpliceOrigin(p: nat, f: nat, l: nat, i: nat): int {
    if i < p || l <= i then i else if i < p + (l - f) then f + (i - p) else i - (l - f)
  }

  lemma SplicedAt(s: seq<Elem>, p: nat, f: nat, l: nat)
    requires p < f <= l <= |s|
    ensures |Spliced(s, p, f, l)| == |s|
    ensures forall i :: 0 <= i < |s| ==>
              0 <= SpliceOrigin(p, f, l, i) < |s| && Spliced(s, p, f, l)[i] == s[SpliceOrigin(p, f, l, i)]
  {}

  /** Relinking the three places where a splice cuts makes the new chain. */
  lemma SplicedChain(s: seq<Elem>, p: nat, f: nat, l: nat)
    requires 1 <= p < f < l < |s|
    requires forall i, j :: 0 <= i < j < |s| ==> s[i] != s[j]
    requires forall i, j {:trigger Linked(s[i], s[j])} ::
               0 <= i < |s| && j == i + 1 && j < |s| && i != p - 1 && i != f - 1 && i != l - 1 ==> Linked(s[i], s[j])
    requires Linked(s[p - 1], s[f]) && Linked(s[l - 1], s[p]) && Linked(s[f - 1], s[l])
    requires s[0].prev == null && s[|s| - 1].next == null
    ensures var r := Spliced(s, p, f, l); Chain(r) && |r| == |s| && r[0] == s[0] && r[|r| - 1] == s[|s| - 1]
  {
    var r := Spliced(s, p, f, l);
    SplicedAt(s, p, f, l);
    assert SpliceOrigin(p, f, l, 0) == 0 && SpliceOrigin(p, f, l, |s| - 1) == |s| - 1;
    forall i, j | 0 <= i < j < |r| ensures r[i] != r[j] {
      assert SpliceOrigin(p, f, l, i) != SpliceOrigin(p, f, l, j);
    }
    forall i, j | 0 <= i < |r| && j == i + 1 && j < |r| ensures Linked(r[i], r[j]) {
      var a, b := SpliceOrigin(p, f, l, i), SpliceOrigin(p, f, l, j);
      assert Linked(s[a], s[b]);
    }
  }

  // What list_splice()'s assignments leave behind, wherever `before` is.
  lemma SpliceResult(s: seq<Elem>, p: nat, f: nat, l: nat)
    requires 1 <= f < l < |s| && 1 <= p < |s| && (p < f || l <= p)
    requires forall i, j :: 0 <= i < j < |s| ==> s[i] != s[j]
    requires forall i, j {:trigger Linked(s[i], s[j])} ::
               0 <= i < |s| && j == i + 1 && j < |s| && i != p - 1 && i != f - 1 && i != l - 1 ==> Linked(s[i], s[j])
    requires l != p ==> Linked(s[p - 1], s[f]) && Linked(s[l - 1], s[p]) && Linked(s[f - 1], s[l])
    requires l == p ==> Linked(s[f - 1], s[f]) && Linked(s[l - 1], s[l])
    requires s[0].prev == null && s[|s| - 1].next == null
    ensures var r := Spliced(s, p, f, l); Chain(r) && |r| == |s| && r[0] == s[0] && r[|r| - 1] == s[|s| - 1]
  {
    if p < f {
      SplicedChain(s, p, f, l);
    } else if l < p {
      SplicedSwap(s, p, f, l);
      SplicedChain(s, f, l, p);
    } else {
      SplicedSwap(s, p, f, l);
      StillChain(s, f - 1, l - 1);
    }
  }

  lemma StillChain(s: seq<Elem>, m: int, n: int)
    requires |s| >= 2 && Distinct(s) && LinkedBut(s, m, n) && s[0].prev == null && s[|s| - 1].next == null
    requires 0 <= m < |s| - 1 && Linked(s[m], s[m + 1]) && 0 <= n < |s| - 1 && Linked(s[n], s[n + 1])
    ensures Chain(s)
  {
    forall i, j | 0 <= i < |s| && j == i + 1 && j < |s| ensures Linked(s[i], s[j]) {}
  }

  // Moving f..l back to p is moving l..p forward to f.
  lemma SplicedSwap(s: seq<Elem>, p: nat, f: nat, l: nat)
    requires f < l <= p <= |s|
    ensures l < p ==> Spliced(s, p, f, l) == Spliced(s, f, l, p)
    ensures l == p ==> Spliced(s, p, f, l) == s
  {}

  lemma SplicedNothing(s: seq<Elem>, p: nat, f: nat)
    requires f <= |s| && p <= |s|
    ensures Spliced(s, p, f, f) == s
  {}

  // Two chains have no element in common.
  ghost predicate Apart(s: seq<Elem>, t: seq<Elem>) {
    forall i, j :: 0 <= i < |s| && 0 <= j < |t| ==> s[i] != t[j]
  }

  // Everything in s is linked to the next but, perhaps, at m and at n.
  ghost predicate LinkedBut(s: seq<Elem>, m: int, n: int)
    reads s
  {
    forall i, j {:trigger Linked(s[i], s[j])} ::
      0 <= i < |s| && j == i + 1 && j < |s| && i != m && i != n ==> Linked(s[i], s[j])
  }

  ghost predicate Distinct(s: seq<Elem>) {
    forall i, j :: 0 <= i < j < |s| ==> s[i] != s[j]
  }

  lemma InsertedChain(s: seq<Elem>, t: seq<Elem>, p: nat, f: nat, l: nat)
    requires Distinct(s) && Distinct(t) && Apart(s, t) && 1 <= p < |s| && 1 <= f < l < |t|
    requires LinkedBut(s, p - 1, p - 1) && LinkedBut(t, f - 1, l - 1)
    requires Linked(s[p - 1], t[f]) && Linked(t[l - 1], s[p])
    requires s[0].prev == null && s[|s| - 1].next == null
    ensures var r := s[..p] + t[f..l] + s[p..]; Chain(r) && r[0] == s[0] && r[|r| - 1] == s[|s| - 1]
  {
    var r, n := s[..p] + t[f..l] + s[p..], l - f;
    forall i, j | 0 <= i < |r| && j == i + 1 && j < |r| ensures Linked(r[i], r[j]) {
      if j < p {
        assert Linked(s[i], s[j]);
      } else if p <= i && j < p + n {
        assert Linked(t[i - p + f], t[j - p + f]);
      } else if p + n <= i {
        assert Linked(s[i - n], s[j - n]);
      }
    }
  }

  lemma CutChain(t: seq<Elem>, f: nat, l: nat)
    requires Distinct(t) && 1 <= f < l < |t| && LinkedBut(t, f - 1, l - 1) && Linked(t[f - 1], t[l])
    requires t[0].prev == null && t[|t| - 1].next == null
    ensures var r := t[..f] + t[l..]; Chain(r) && r[0] == t[0] && r[|r| - 1] == t[|t| - 1]
  {
    var r, n := t[..f] + t[l..], l - f;
    forall i, j | 0 <= i < |r| && j == i + 1 && j < |r| ensures Linked(r[i], r[j]) {
      if j < f {
        assert Linked(t[i], t[j]);
      } else if f <= i {
        assert Linked(t[i + n], t[j + n]);
      }
    }
  }

  lemma ApartMoved(s: seq<Elem>, t: seq<Elem>, p: nat, f: nat, l: nat)
    requires Distinct(t) && Apart(s, t) && p <= |s| && f <= l <= |t|
    ensures Apart(s[..p] + t[f..l] + s[p..], t[..f] + t[l..])
  {}

  class List {
    const head: Elem
    const tail: Elem
    ghost var nodes: seq<Elem>

    ghost predicate Valid()
      reads this, nodes
    {
      Chain(nodes) && nodes[0] == head && nodes[|nodes| - 1] == tail
    }

    // The interior elements, front to back.
    ghost function Elems(): seq<Elem>
      reads this
      requires |nodes| >= 2
    {
      nodes[1..|nodes| - 1]
    }

    constructor ()
      ensures Valid() && Elems() == [] && fresh(nodes)
    {
      head := new Elem();
      tail := new Elem();
      nodes := [];
      new;
      head.next := tail;
      tail.prev := head;
      nodes := [head, tail];
    }

    /** list_insert(): put elem just before the node at index k. */
    method Insert(before: Elem, elem: Elem, ghost k: nat)
      requires Valid() && 1 <= k < |nodes| && nodes[k] == before && elem !in nodes
      modifies this`nodes, nodes[k - 1], before, elem
      ensures Valid()
      ensures nodes == old(nodes)[..k] + [elem] + old(nodes)[k..]
    {
      ghost var s := nodes;
      assert Linked(s[k - 1], s[k]);
      elem.prev := before.prev;
      elem.next := before;
      before.prev.next := elem;
      before.prev := elem;
      nodes := s[..k] + [elem] + s[k..];
      forall i, j | 0 <= i < |nodes| && j == i + 1 && j < |nodes| ensures Linked(nodes[i], nodes[j]) {
        if j < k { assert old(Linked(s[i], s[j])); }
        if k < i { assert old(Linked(s[i - 1], s[j - 1])); }
      }
    }

    /** list_remove(): take out the node at index k and return its successor. */
    method Remove(elem: Elem, ghost k: nat) returns (after: Elem)
      requires Valid() && 0 < k < |nodes| - 1 && nodes[k] == elem
      modifies this`nodes, nodes[k - 1], nodes[k + 1]
      ensures Valid() && after == old(nodes)[k + 1]
      ensures nodes == old(nodes)[..k] + old(nodes)[k + 1..]
      ensures elem.prev == old(elem.prev) && elem.next == old(elem.next)
    {
      ghost var s := nodes;
      assert Linked(s[k - 1], s[k]) && Linked(s[k], s[k + 1]);
      elem.prev.next := elem.next;
      elem.next.prev := elem.prev;
      nodes := s[..k] + s[k + 1..];
      after := elem.next;
      forall i, j | 0 <= i < |nodes| && j == i + 1 && j < |nodes| ensures Linked(nodes[i], nodes[j]) {
        if j < k { assert old(Linked(s[i], s[j])); }
        if k <= i { assert old(Linked(s[i + 1], s[j + 1])); }
      }
    }

    /** list_splice() within one list: move first..last (exclusive) to before. */
    method Splice(before: Elem, first: Elem, last: Elem, ghost p: nat, ghost f: nat, ghost l: nat)
      requires Valid() && 1 <= f <= l < |nodes| && 1 <= p < |nodes| && (p < f || l <= p)
      requires nodes[p] == before && nodes[f] == first && nodes[l] == last
      modifies this`nodes, nodes[f - 1], first, nodes[l - 1], last, nodes[p - 1], before
      ensures Valid()
      ensures nodes == Spliced(old(nodes), p, f, l)
    {
      ghost var s := nodes;
      if first == last {
        SplicedNothing(s, p, f);
        return;
      }
      Relink(before, first, last, p, f, l);
      SpliceResult(s, p, f, l);
      nodes := Spliced(s, p, f, l);
    }

    /** list_splice() from another list: first..last (exclusive) leaves it and
        comes to stand just before `before` in this one. */
    method SpliceFrom(other: List, before: Elem, first: Elem, last: Elem, ghost p: nat, ghost f: nat, ghost l: nat)
      requires Valid() && other.Valid() && this != other && Apart(nodes, other.nodes)
      requires 1 <= p < |nodes| && nodes[p] == before
      requires 1 <= f <= l < |other.nodes| && other.nodes[f] == first && other.nodes[l] == last
      modifies this`nodes, other`nodes, nodes[p - 1], before
      modifies other.nodes[f - 1], first, other.nodes[l - 1], last
      ensures Valid() && other.Valid() && Apart(nodes, other.nodes)
      ensures nodes == old(nodes)[..p] + old(other.nodes)[f..l] + old(nodes)[p..]
      ensures other.nodes == old(other.nodes)[..f] + old(other.nodes)[l..]
    {
      ghost var s, t := nodes, other.nodes;
      if first == last {
        assert s == s[..p] + t[f..l] + s[p..] && t == t[..f] + t[l..];
        return;
      }
      RelinkFrom(other, before, first, last, p, f, l);
      InsertedChain(s, t, p, f, l);
      CutChain(t, f, l);
      ApartMoved(s, t, p, f, l);
      nodes := s[..p] + t[f..l] + s[p..];
      other.nodes := t[..f] + t[l..];
    }

    method RelinkFrom(other: List, before: Elem, first: Elem, last: Elem, ghost p: nat, ghost f: nat, ghost l: nat)
      requires Valid() && other.Valid() && this != other && Apart(nodes, other.nodes)
      requires 1 <= p < |nodes| && nodes[p] == before
      requires 1 <= f < l < |other.nodes| && other.nodes[f] == first && other.nodes[l] == last
      modifies nodes[p - 1], before, other.nodes[f - 1], first, other.nodes[l - 1], last
      ensures Linked(nodes[p - 1], first) && Linked(other.nodes[l - 1], before) && Linked(other.nodes[f - 1], last)
      ensures LinkedBut(nodes, p - 1, p - 1) && LinkedBut(other.nodes, f - 1, l - 1)
      ensures nodes[0].prev == null && nodes[|nodes| - 1].next == null
      ensures other.nodes[0].prev == null && other.nodes[|other.nodes| - 1].next == null
    {
      ghost var s, t := nodes, other.nodes;
      assert Linked(t[f - 1], t[f]) && Linked(t[l - 1], t[l]) && Linked(s[p - 1], s[p]);
      var end := last.prev;
      first.prev.next := end.next;
      end.next.prev := first.prev;
      first.prev := before.prev;
      end.next := before;
      before.prev.next := first;
      before.prev := end;
      forall i, j | 0 <= i < |s| && j == i + 1 && j < |s| && i != p - 1 ensures Linked(s[i], s[j]) {
        assert old(Linked(s[i], s[j]));
      }
      forall i, j | 0 <= i < |t| && j == i + 1 && j < |t| && i != f - 1 && i != l - 1 ensures Linked(t[i], t[j]) {
        assert old(Linked(t[i], t[j]));
      }
    }

    // The pointer assignments of list_splice().
    method Relink(before: Elem, first: Elem, last: Elem, ghost p: nat, ghost f: nat, ghost l: nat)
      requires Valid() && 1 <= f < l < |nodes| && 1 <= p < |nodes| && (p < f || l <= p)
      requires nodes[p] == before && nodes[f] == first && nodes[l] == last
      modifies nodes[f - 1], first, nodes[l - 1], last, nodes[p - 1], before
      ensures l != p ==> Linked(nodes[p - 1], first) && Linked(nodes[l - 1], before) && Linked(nodes[f - 1], last)
      ensures l == p ==> Linked(nodes[f - 1], first) && Linked(nodes[l - 1], last)
      ensures forall i, j {:trigger Linked(nodes[i], nodes[j])} ::
                0 <= i < |nodes| && j == i + 1 && j < |nodes| && i != p - 1 && i != f - 1 && i != l - 1 ==>
                  Linked(nodes[i], nodes[j])
      ensures nodes[0].prev == null && nodes[|nodes| - 1].next == null
    {
      assert Linked(nodes[f - 1], nodes[f]) && Linked(nodes[l - 1], nodes[l]) && Linked(nodes[p - 1], nodes[p]);
      var end := last.prev;
      // Cleanly remove first..end from its current place.
      first.prev.next := end.next;
      end.next.prev := first.prev;
      // Splice first..end into its new place.
      first.prev := before.prev;
      end.next := before;
      before.prev.next := first;
      before.prev := end;
      forall i, j | 0 <= i < |nodes| && j == i + 1 && j < |nodes| && i != p - 1 && i != f - 1 && i != l - 1
        ensures Linked(nodes[i], nodes[j])
      {
        assert old(Linked(nodes[i], nodes[j]));
      }
    }

    // ---------- Sorting ----------

    /** find_end_of_run(): the end of the run that starts at index i. */
    method FindEndOfRun(a: Elem, b: Elem, less: (Elem, Elem) -> bool, ghost i: nat, ghost j: nat, ghost u: set<Elem>)
      returns (e: Elem, ghost k: nat)
      requires Valid() && 0 < i < j < |nodes| && nodes[i] == a && nodes[j] == b
      requires StrictWeak(less, u) && Within(nodes[i..j], u)
      ensures i < k <= j && e == nodes[k]
      ensures Sorted(less, nodes[i..k])
      ensures k < j ==> less(nodes[k], nodes[k - 1])
    {
      assert Linked(nodes[i], nodes[i + 1]);
      e, k := a.next, i + 1;
      while e != b && !less(e, e.prev)
        invariant i < k <= j && e == nodes[k] && e.prev == nodes[k - 1]
        invariant Sorted(less, nodes[i..k])
        decreases j - k
      {
        assert nodes[i..k + 1] <= nodes[i..j];
        SortedExtend(less, nodes, i, k, u);
        assert Linked(nodes[k], nodes[k + 1]);
        e, k := e.next, k + 1;
      }
    }

    /** inplace_merge(): merge the runs at i..m and m..hi. */
    method InplaceMerge(x: Elem, y: Elem, b1: Elem, less: (Elem, Elem) -> bool,
                        ghost lo: nat, ghost mid: nat, ghost hi: nat, ghost u: set<Elem>, ghost orig: seq<Elem>)
      requires Valid() && 0 < lo < mid < hi < |nodes| && nodes[lo] == x && nodes[mid] == y && nodes[hi] == b1
      requires StrictWeak(less, u) && Within(nodes[lo..hi], u)
      requires Sorted(less, nodes[lo..mid]) && Sorted(less, nodes[mid..hi])
      requires Stable(less, orig, nodes)
      modifies this`nodes, nodes
      ensures Valid() && |nodes| == |old(nodes)|
      ensures nodes[..lo] == old(nodes)[..lo] && nodes[hi..] == old(nodes)[hi..]
      ensures Sorted(less, nodes[lo..hi])
      ensures Stable(less, orig, nodes)
    {
      ghost var s0 := nodes;
      MergeStart(less, nodes, lo, mid, hi);
      ghost var i, m := MergeLoop(x, y, b1, less, s0, lo, mid, hi, u, orig);
      MergeDone(less, nodes, lo, i, m, hi);
    }

    // A merge under way, with the C function's three pointers into it.
    ghost predicate AtMerge(less: (Elem, Elem) -> bool, s0: seq<Elem>, lo: nat, i: nat, m: nat, hi: nat, u: set<Elem>,
                            orig: seq<Elem>, a0: Elem, a1b0: Elem, b1: Elem)
      reads this, nodes
    {
      && Valid() && 0 < lo && MergeState(less, s0, nodes, lo, i, m, hi, u, orig)
      && nodes[i] == a0 && nodes[m] == a1b0 && nodes[hi] == b1
    }

    method MergeLoop(x: Elem, y: Elem, b1: Elem, less: (Elem, Elem) -> bool, ghost s0: seq<Elem>,
                     ghost lo: nat, ghost mid: nat, ghost hi: nat, ghost u: set<Elem>, ghost orig: seq<Elem>)
      returns (ghost i: nat, ghost m: nat)
      requires StrictWeak(less, u) && AtMerge(less, s0, lo, lo, mid, hi, u, orig, x, y, b1)
      modifies this`nodes, s0
      ensures Valid() && MergeState(less, s0, nodes, lo, i, m, hi, u, orig) && (i == m || m == hi)
    {
      var a0, a1b0 := x, y;
      i, m := lo, mid;
      while a0 != a1b0 && a1b0 != b1
        invariant AtMerge(less, s0, lo, i, m, hi, u, orig, a0, a1b0, b1)
        decreases hi - i
      {
        a0, a1b0, m := MergeTurn(a0, a1b0, b1, less, s0, lo, i, m, hi, u, orig);
        i := i + 1;
      }
    }

    // One turn of the loop.
    method MergeTurn(a0: Elem, a1b0: Elem, b1: Elem, less: (Elem, Elem) -> bool, ghost s0: seq<Elem>,
                     ghost lo: nat, ghost i: nat, ghost m: nat, ghost hi: nat, ghost u: set<Elem>,
                       ghost orig: seq<Elem>)
      returns (p: Elem, q: Elem, ghost m': nat)
      requires StrictWeak(less, u) && AtMerge(less, s0, lo, i, m, hi, u, orig, a0, a1b0, b1)
      requires a0 != a1b0 && a1b0 != b1
      modifies this`nodes, s0
      ensures AtMerge(less, s0, lo, i + 1, m', hi, u, orig, p, q, b1) && i < hi
    {
      if !less(a1b0, a0) {
        q, m' := a1b0, m;
        p := SkipOne(a0, a1b0, b1, less, s0, lo, i, m, hi, u, orig);
        return;
      } else {
        p, m' := a0, m + 1;
        q := MergeOne(a0, a1b0, b1, less, s0, lo, i, m, hi, u, orig);
        return;
      }
    }

    // The branch of the merge that leaves an element of the first run in place.
    method SkipOne(a0: Elem, a1b0: Elem, b1: Elem, less: (Elem, Elem) -> bool, ghost s0: seq<Elem>,
                   ghost lo: nat, ghost i: nat, ghost m: nat, ghost hi: nat, ghost u: set<Elem>, ghost orig: seq<Elem>)
      returns (n: Elem)
      requires StrictWeak(less, u) && AtMerge(less, s0, lo, i, m, hi, u, orig, a0, a1b0, b1)
      requires a0 != a1b0 && a1b0 != b1 && !less(a1b0, a0)
      ensures AtMerge(less, s0, lo, i + 1, m, hi, u, orig, n, a1b0, b1) && i < hi
    {
      SkipKeeps(less, s0, nodes, lo, i, m, hi, u, orig);
      n := Next(a0, i);
    }

    // The branch of the merge that takes an element of the second run.
    method MergeOne(a0: Elem, a1b0: Elem, b1: Elem, less: (Elem, Elem) -> bool, ghost s0: seq<Elem>,
                    ghost lo: nat, ghost i: nat, ghost m: nat, ghost hi: nat, ghost u: set<Elem>, ghost orig: seq<Elem>)
      returns (n: Elem)
      requires StrictWeak(less, u) && AtMerge(less, s0, lo, i, m, hi, u, orig, a0, a1b0, b1)
      requires a0 != a1b0 && a1b0 != b1 && less(a1b0, a0)
      modifies this`nodes, s0
      ensures AtMerge(less, s0, lo, i + 1, m + 1, hi, u, orig, a0, n, b1) && i < hi
    {
      ghost var s := nodes;
      MoveKeeps(less, s0, s, lo, i, m, hi, u, orig);
      n := MoveBefore(a0, a1b0, i, m);
    }

    // list_next()
    method Next(e: Elem, ghost k: nat) returns (n: Elem)
      requires Valid() && k < |nodes| - 1 && nodes[k] == e
      ensures n == nodes[k + 1]
    {
      assert Linked(nodes[k], nodes[k + 1]);
      n := e.next;
    }

    // list_prev()
    method Prev(e: Elem, ghost k: nat) returns (p: Elem)
      requires Valid() && 0 < k < |nodes| && nodes[k] == e
      ensures p == nodes[k - 1]
    {
      assert Linked(nodes[k - 1], nodes[k]);
      p := e.prev;
    }

    // Splice the element b, at index m, in front of a, at index i.
    method MoveBefore(a: Elem, b: Elem, ghost i: nat, ghost m: nat) returns (n: Elem)
      requires Valid() && 0 < i < m < |nodes| - 1 && nodes[i] == a && nodes[m] == b
      modifies this`nodes, nodes[m - 1], b, nodes[m + 1], nodes[i - 1], a
      ensures Valid() && nodes == Spliced(old(nodes), i, m, m + 1) && n == old(nodes)[m + 1]
    {
      n := Next(b, m);
      var first := Prev(n, m + 1);
      Splice(a, first, n, i, m, m + 1);
    }

    /** list_sort(): whatever the strict weak order, the result is a stable
        rearrangement of the same elements in nondecreasing order. There is one
        pass over the list, or fewer than 1 + lg k passes for k runs. */
    method Sort(less: (Elem, Elem) -> bool) returns (ghost passes: nat)
      requires Valid() && StrictWeak(less, set e | e in Elems())
      modifies this`nodes, nodes
      ensures Valid()
      ensures Sorted(less, Elems())
      ensures Stable(less, old(Elems()), Elems())
      ensures FewPasses(passes, Runs(less, old(Elems())))
    {
      ghost var elems := Elems();
      ghost var counts := SortCounted(less, elems);
      passes := |counts| - 1;
      HalvedOften(counts);
    }

    method SortCounted(less: (Elem, Elem) -> bool, ghost elems: seq<Elem>) returns (ghost counts: seq<nat>)
      requires Valid() && elems == Elems() && StrictWeak(less, set e | e in elems)
      modifies this`nodes, nodes
      ensures Valid() && Sorted(less, Elems()) && Stable(less, elems, Elems())
      ensures |counts| > 1 && counts[0] == Runs(less, elems) && Halved(counts)
    {
      ghost var s0, u := nodes, set e | e in elems;
      SortStarts(less, elems);
      counts := SortPasses(less, s0, elems, u);
      SortDone(less, s0, elems, u);
    }

    // Passes over the list until one writes a single run; the result is the
    // number of runs before the first pass and the number each pass wrote.
    method SortPasses(less: (Elem, Elem) -> bool, ghost s0: seq<Elem>, ghost elems: seq<Elem>, ghost u: set<Elem>)
      returns (ghost counts: seq<nat>)
      requires StrictWeak(less, u) && AtSort(less, s0, u) && elems == Elems()
      modifies this`nodes, s0
      ensures AtSort(less, s0, u) && Runs(less, Elems()) <= 1
      ensures |counts| > 1 && counts[0] == Runs(less, elems) && Halved(counts)
    {
      counts := [Runs(less, elems)];
      while true
        invariant AtSort(less, s0, u) && |counts| > 0 && counts[0] == Runs(less, elems)
        invariant Runs(less, Elems()) <= counts[|counts| - 1]
        invariant Halved(counts) && (|counts| > 1 ==> counts[|counts| - 1] > 1)
        decreases Runs(less, Elems())
      {
        ghost var before := Runs(less, Elems());
        var outputRunCnt := SortPass(less, s0, u);
        HalvedMore(counts, before, outputRunCnt);
        counts := counts + [outputRunCnt];
        if outputRunCnt <= 1 {
          break;
        }
      }
    }

    ghost predicate AtSort(less: (Elem, Elem) -> bool, s0: seq<Elem>, u: set<Elem>)
      reads this, nodes
    {
      && Valid() && |nodes| == |s0| && Within(Elems(), u) && Stable(less, s0, nodes)
      && nodes[0] == s0[0] && nodes[|s0| - 1] == s0[|s0| - 1]
      && (forall k :: 0 <= k < |nodes| ==> nodes[k] in s0)
    }

    method SortPass(less: (Elem, Elem) -> bool, ghost s0: seq<Elem>, ghost u: set<Elem>) returns (outputRunCnt: nat)
      requires StrictWeak(less, u) && AtSort(less, s0, u)
      modifies this`nodes, s0
      ensures AtSort(less, s0, u)
      ensures Runs(less, Elems()) <= outputRunCnt
      ensures outputRunCnt == Half(Runs(less, old(Elems())))
    {
      outputRunCnt := MergePass(less, u, s0);
    }

    lemma SortStarts(less: (Elem, Elem) -> bool, elems: seq<Elem>)
      requires Valid() && elems == Elems()
      ensures AtSort(less, nodes, set e | e in elems)
    {
      StableRefl(less, nodes);
    }

    lemma SortDone(less: (Elem, Elem) -> bool, s0: seq<Elem>, elems: seq<Elem>, u: set<Elem>)
      requires StrictWeak(less, u) && AtSort(less, s0, u) && Runs(less, Elems()) <= 1 && elems == s0[1..|s0| - 1]
      ensures Sorted(less, Elems()) && Stable(less, elems, Elems())
    {
      OneRunSorted(less, Elems(), u);
      StableInterior(less, s0, nodes);
    }

    /** list_insert_ordered(): after every element that is not greater. */
    method InsertOrdered(elem: Elem, less: (Elem, Elem) -> bool) returns (ghost k: nat)
      requires Valid() && elem !in nodes
      modifies this`nodes, nodes, elem
      ensures Valid() && k <= |old(Elems())|
      ensures Elems() == old(Elems())[..k] + [elem] + old(Elems())[k..]
      ensures forall i :: 0 <= i < k ==> !less(elem, old(Elems())[i])
      ensures k < |old(Elems())| ==> less(elem, old(Elems())[k])
    {
      ghost var s := nodes;
      k := 0;
      var e := Next(head, 0);
      while e != tail
        invariant Valid() && nodes == s && k + 1 < |s| && e == s[k + 1]
        invariant forall i :: 1 <= i <= k ==> !less(elem, s[i])
        decreases |s| - k
      {
        if less(elem, e) {
          break;
        }
        e := Next(e, k + 1);
        k := k + 1;
      }
      Insert(e, elem, k + 1);
      InsertedInterior(s, elem, k);
    }

    /** list_reverse(): swap the links of every element, then the headers'. */
    method Reverse()
      requires Valid()
      modifies this`nodes, nodes
      ensures Valid() && |nodes| == |old(nodes)|
      ensures forall i :: 0 <= i < |Elems()| ==> Elems()[i] == old(Elems())[|Elems()| - 1 - i]
    {
      ghost var s := nodes;
      var first := Next(head, 0);
      if first != tail {
        SwapLinks(first);
        var t := head.next;
        head.next := tail.prev;
        tail.prev := t;
        var p := head.next.prev;
        head.next.prev := tail.prev.next;
        tail.prev.next := p;
        nodes := Mirrored(s);
        MirroredChain(s);
      }
    }

    // The loop of list_reverse(): every element's two links change places.
    method SwapLinks(first: Elem)
      requires Valid() && |nodes| > 2 && nodes[1] == first
      modifies nodes
      ensures forall i, j :: 0 < i < |nodes| - 2 && j == i + 1 ==> Linked(nodes[j], nodes[i])
      ensures nodes[1].next == head && nodes[|nodes| - 2].prev == tail
      ensures head.next == nodes[1] && tail.prev == nodes[|nodes| - 2] && head.prev == null && tail.next == null
    {
      ghost var k := 1;
      ghost var n := |nodes| - 1;
      assert Linked(nodes[0], nodes[1]) && Linked(nodes[n - 1], nodes[n]);
      var e := first;
      while e != tail
        invariant 1 <= k <= n && e == nodes[k]
        invariant forall i :: 0 < i < k ==> nodes[i].prev == old(nodes[i].next) && nodes[i].next == old(nodes[i].prev)
        invariant forall i :: k <= i < n ==> nodes[i].prev == old(nodes[i].prev) && nodes[i].next == old(nodes[i].next)
        invariant head.next == nodes[1] && tail.prev == nodes[n - 1] && head.prev == null && tail.next == null
        decreases n - k
      {
        assert old(Linked(nodes[k], nodes[k + 1]));
        var t := e.prev;
        e.prev := e.next;
        e.next := t;
        e := e.prev;
        k := k + 1;
      }
      forall i, j | 0 < i < n - 1 && j == i + 1 ensures Linked(nodes[j], nodes[i]) {
        assert old(Linked(nodes[i], nodes[j]));
      }
    }

    /** One pass of list_sort(): merge the runs two by two.  Of k runs it leaves
        at most half, rounded up, and returns how many it wrote. */
    method MergePass(less: (Elem, Elem) -> bool, ghost u: set<Elem>, ghost orig: seq<Elem>) returns (outputRunCnt: nat)
      requires Valid() && StrictWeak(less, u) && Within(Elems(), u) && Stable(less, orig, nodes)
      modifies this`nodes, nodes
      ensures Valid() && |nodes| == |old(nodes)| && Within(Elems(), u) && Stable(less, orig, nodes)
      ensures forall k :: 0 <= k < |nodes| ==> nodes[k] in old(nodes)
      ensures outputRunCnt == Half(Runs(less, old(Elems())))
      ensures Runs(less, Elems()) <= outputRunCnt
    {
      ghost var s0, elems, i := nodes, Elems(), 1;
      PassStart(less, nodes, u, orig);
      var a0 := Next(head, 0);
      outputRunCnt, i := PassTurns(a0, less, s0, u, orig);
      AtEnd(less, s0, elems, i, outputRunCnt, u, orig);
    }

    // The loop of a pass.
    method PassTurns(first: Elem, less: (Elem, Elem) -> bool, ghost s0: seq<Elem>, ghost u: set<Elem>,
                     ghost orig: seq<Elem>)
      returns (outputRunCnt: nat, ghost i: nat)
      requires StrictWeak(less, u) && AtPass(less, s0, 1, 0, u, orig, first)
      modifies this`nodes, s0
      ensures AtPass(less, s0, i, outputRunCnt, u, orig, tail)
    {
      var a0 := first;
      outputRunCnt, i := 0, 1;
      while a0 != tail
        invariant AtPass(less, s0, i, outputRunCnt, u, orig, a0)
        decreases |s0| - i
      {
        outputRunCnt := outputRunCnt + 1;
        var done;
        a0, done, i := PassTurn(a0, less, s0, i, outputRunCnt - 1, u, orig);
        if done {
          break;
        }
      }
    }

    lemma AtEnd(less: (Elem, Elem) -> bool, s0: seq<Elem>, elems: seq<Elem>, i: nat, cnt: nat, u: set<Elem>,
                orig: seq<Elem>)
      requires AtPass(less, s0, i, cnt, u, orig, tail) && |s0| >= 2 && elems == s0[1..|s0| - 1]
      ensures |nodes| >= 2 && |nodes| == |s0| && cnt == Half(Runs(less, elems)) && Runs(less, Elems()) <= cnt
      ensures Within(Elems(), u) && Stable(less, orig, nodes) && forall k :: 0 <= k < |nodes| ==> nodes[k] in s0
    {
      assert i == |nodes| - 1;
      PassEnd(less, s0, nodes, cnt, u, orig);
    }

    ghost predicate AtPass(less: (Elem, Elem) -> bool, s0: seq<Elem>, i: nat, cnt: nat, u: set<Elem>, orig: seq<Elem>,
                           a0: Elem)
      reads this, nodes
    {
      Valid() && PassState(less, s0, nodes, i, cnt, u, orig) && nodes[i] == a0
    }

    // One turn of the pass: find two adjacent runs and merge them.
    method PassTurn(a0: Elem, less: (Elem, Elem) -> bool, ghost s0: seq<Elem>, ghost i: nat, ghost cnt: nat,
                    ghost u: set<Elem>, ghost orig: seq<Elem>)
      returns (next: Elem, done: bool, ghost i': nat)
      requires StrictWeak(less, u) && AtPass(less, s0, i, cnt, u, orig, a0) && a0 != tail
      modifies this`nodes, s0
      ensures AtPass(less, s0, i', cnt + 1, u, orig, next) && i < i' < |s0|
      ensures done ==> next == tail
    {
      ghost var m;
      var a1b0;
      a1b0, m := RunFrom(a0, less, i, u);
      if a1b0 == tail {
        LastTurn(a0, less, s0, i, cnt, u, orig);
        next, done, i' := tail, true, |nodes| - 1;
        return;
      } else {
        done := false;
        next, i' := PassSecond(a0, a1b0, less, s0, i, m, cnt, u, orig);
        return;
      }
    }

    lemma LastTurn(a0: Elem, less: (Elem, Elem) -> bool, s0: seq<Elem>, i: nat, cnt: nat, u: set<Elem>, orig: seq<Elem>)
      requires AtPass(less, s0, i, cnt, u, orig, a0) && a0 != tail && Sorted(less, nodes[i..|nodes| - 1])
      ensures AtPass(less, s0, |nodes| - 1, cnt + 1, u, orig, tail) && i < |nodes| - 1 && |nodes| == |s0|
    {
      PassLast(less, s0, nodes, i, cnt, u, orig);
    }

    method PassSecond(a0: Elem, a1b0: Elem, less: (Elem, Elem) -> bool, ghost s0: seq<Elem>, ghost i: nat, ghost m: nat,
                      ghost cnt: nat, ghost u: set<Elem>, ghost orig: seq<Elem>)
      returns (b1: Elem, ghost e: nat)
      requires StrictWeak(less, u) && AtPass(less, s0, i, cnt, u, orig, a0)
      requires i < m < |nodes| && nodes[m] == a1b0 != tail && Sorted(less, nodes[i..m]) && less(nodes[m], nodes[m - 1])
      modifies this`nodes, s0
      ensures AtPass(less, s0, e, cnt + 1, u, orig, b1) && i < e < |s0|
    {
      b1, e := RunFrom(a1b0, less, m, u);
      PassMerge(a0, a1b0, b1, less, s0, i, m, e, cnt, u, orig);
    }

    // find_end_of_run() with the end of the list as the limit.
    method RunFrom(a: Elem, less: (Elem, Elem) -> bool, ghost i: nat, ghost u: set<Elem>)
        returns (e: Elem, ghost k: nat)
      requires Valid() && StrictWeak(less, u) && Within(Elems(), u)
      requires 1 <= i < |nodes| && nodes[i] == a != tail
      ensures i < k < |nodes| && e == nodes[k] && (e == tail <==> k == |nodes| - 1)
      ensures Sorted(less, nodes[i..k])
      ensures k < |nodes| - 1 ==> less(nodes[k], nodes[k - 1])
    {
      WithinPart(nodes, 1, i, |nodes| - 1, u);
      e, k := FindEndOfRun(a, tail, less, i, |nodes| - 1, u);
    }

    // The merge of a pass, and what it does to the count of runs.
    method PassMerge(a0: Elem, a1b0: Elem, b1: Elem, less: (Elem, Elem) -> bool, ghost s0: seq<Elem>,
                     ghost i: nat, ghost m: nat, ghost e: nat, ghost cnt: nat, ghost u: set<Elem>,
                       ghost orig: seq<Elem>)
      requires StrictWeak(less, u) && AtPass(less, s0, i, cnt, u, orig, a0)
      requires i < m < e < |nodes| && nodes[m] == a1b0 && nodes[e] == b1
      requires Sorted(less, nodes[i..m]) && Sorted(less, nodes[m..e]) && less(nodes[m], nodes[m - 1])
      requires e < |nodes| - 1 ==> less(nodes[e], nodes[e - 1])
      modifies this`nodes, s0
      ensures AtPass(less, s0, e, cnt + 1, u, orig, b1)
    {
      ghost var s := nodes;
      WithinPart(nodes, 1, i, |nodes| - 1, u);
      WithinPart(nodes, i, i, e, u);
      InplaceMerge(a0, a1b0, b1, less, i, m, e, u, orig);
      PassMerged(less, s0, s, nodes, i, m, e, cnt, u, orig);
    }
  }

  lemma InsertedInterior(s: seq<Elem>, e: Elem, k: nat)
    requires k + 1 < |s|
    ensures (s[..k + 1] + [e] + s[k + 1..])[1..|s|] == s[1..|s| - 1][..k] + [e] + s[1..|s| - 1][k..]
  {}

  // The chain with its interior back to front.
  ghost function Mirrored(s: seq<Elem>): (r: seq<Elem>)
    requires |s| >= 2
  {
    seq(|s|, i requires 0 <= i < |s| => if i == 0 || i == |s| - 1 then s[i] else s[|s| - 1 - i])
  }

  lemma MirroredChain(s: seq<Elem>)
    requires |s| > 2 && forall i, j :: 0 <= i < j < |s| ==> s[i] != s[j]
    requires forall i, j {:trigger Linked(s[j], s[i])} :: 0 < i < |s| - 2 && j == i + 1 ==> Linked(s[j], s[i])
    requires Linked(s[0], s[|s| - 2]) && Linked(s[1], s[|s| - 1]) && s[0].prev == null && s[|s| - 1].next == null
    ensures Chain(Mirrored(s))
  {
    var r, n := Mirrored(s), |s| - 1;
    forall i, j | 0 <= i < |r| && j == i + 1 && j < |r| ensures Linked(r[i], r[j]) {
      if 0 < i && j < n { assert Linked(s[n - i], s[n - j]); }
    }
  }

  ghost function Half(k: nat): nat { (k + 1) / 2 }

  // x doubled n times.
  ghost function Doubled(x: int, n: nat): int
    decreases n
  {
    if n == 0 then x else Doubled(2 * x, n - 1)
  }

  lemma {:induction false} DoubledMono(x: int, y: int, n: nat)
    requires x <= y
    ensures Doubled(x, n) <= Doubled(y, n)
    decreases n
  {
    if n > 0 { DoubledMono(2 * x, 2 * y, n - 1); }
  }

  lemma {:induction false} DoubledPow2(x: int, n: nat)
    ensures Doubled(x, n) == x * Bits.Pow2(n)
    decreases n
  {
    if n > 0 { DoubledPow2(2 * x, n - 1); }
  }

  // Each count is at most half the one before, rounded up, and all but the
  // first and the last are above one.
  ghost predicate Halved(counts: seq<nat>) {
    && (forall i, j {:trigger counts[i], counts[j]} :: 0 <= i < |counts| && j == i + 1 && j < |counts| ==>
          counts[j] <= Half(counts[i]))
    && (forall i :: 0 < i < |counts| - 1 ==> counts[i] > 1)
  }

  // One pass, or fewer than 1 + lg runs.
  ghost predicate FewPasses(passes: nat, runs: nat) {
    passes == 1 || (passes > 1 && Bits.Pow2(passes - 1) < runs)
  }

  lemma {:induction false} HalvedTo(counts: seq<nat>, n: nat)
    requires Halved(counts) && n < |counts| && counts[n] > 1
    ensures Doubled(counts[n] - 1, n) < counts[0]
    decreases n
  {
    if n > 0 {
      assert counts[n] <= Half(counts[n - 1]);
      HalvedTo(counts, n - 1);
      DoubledMono(2 * (counts[n] - 1), counts[n - 1] - 1, n - 1);
    }
  }

  lemma HalvedMore(counts: seq<nat>, k: nat, n: nat)
    requires Halved(counts) && |counts| > 0 && k <= counts[|counts| - 1] && n == Half(k)
    requires |counts| > 1 ==> counts[|counts| - 1] > 1
    ensures Halved(counts + [n])
  {}

  lemma HalvedOften(counts: seq<nat>)
    requires Halved(counts) && |counts| > 1
    ensures FewPasses(|counts| - 1, counts[0])
  {
    var n := |counts| - 2;
    if n > 0 {
      HalvedTo(counts, n);
      DoubledMono(1, counts[n] - 1, n);
      DoubledPow2(1, n);
    }
  }

  // A pass under way: everything before i has been written as cnt runs, what
  // follows is as it was, and the total will be half the runs, rounded up.
  ghost predicate PassState(less: (Elem, Elem) -> bool, s0: seq<Elem>, s: seq<Elem>, i: nat, cnt: nat, u: set<Elem>,
                            orig: seq<Elem>) {
    var last := |s| - 1;
    && 1 <= i <= last && |s| == |s0|
    && s[i..] == s0[i..]
    && Runs(less, s[1..i]) <= cnt
    && cnt + Half(Runs(less, s[i..last])) == Half(Runs(less, s0[1..last]))
    && Within(s[1..last], u) && (forall k :: 0 <= k < |s| ==> s[k] in s0)
    && Stable(less, orig, s)
  }

  lemma PassStart(less: (Elem, Elem) -> bool, s: seq<Elem>, u: set<Elem>, orig: seq<Elem>)
    requires |s| >= 2 && Within(s[1..|s| - 1], u) && Stable(less, orig, s)
    ensures PassState(less, s, s, 1, 0, u, orig)
  {}

  lemma WithinPart(s: seq<Elem>, a: nat, i: nat, j: nat, u: set<Elem>)
    requires a <= i <= j <= |s|
    requires exists b :: j <= b <= |s| && Within(s[a..b], u)
    ensures Within(s[i..j], u)
  {
    var b :| j <= b <= |s| && Within(s[a..b], u);
    forall k | 0 <= k < j - i ensures s[i..j][k] in u {
      assert s[i..j][k] == s[a..b][i + k - a];
    }
  }

  // The last run of an odd number stays as it is.
  lemma PassLast(less: (Elem, Elem) -> bool, s0: seq<Elem>, s: seq<Elem>, i: nat, cnt: nat, u: set<Elem>,
                 orig: seq<Elem>)
    requires PassState(less, s0, s, i, cnt, u, orig) && i < |s| - 1 && Sorted(less, s[i..|s| - 1])
    ensures PassState(less, s0, s, |s| - 1, cnt + 1, u, orig)
  {
    var last := |s| - 1;
    var t := s[i..last];
    RunAt(less, s, i, last);
    Cut(s, 1, i, last);
    RunsAppend(less, s[1..i], t);
    assert s[last..] == s[i..][last - i..] && s0[last..] == s0[i..][last - i..];
  }

  lemma Cut(s: seq<Elem>, a: nat, i: nat, b: nat)
    requires a <= i <= b <= |s|
    ensures s[a..b] == s[a..i] + s[i..b] && s[b..b] == []
  {}

  lemma PassEnd(less: (Elem, Elem) -> bool, s0: seq<Elem>, s: seq<Elem>, cnt: nat, u: set<Elem>, orig: seq<Elem>)
    requires |s| >= 2 && PassState(less, s0, s, |s| - 1, cnt, u, orig)
    ensures cnt == Half(Runs(less, s0[1..|s| - 1])) && Runs(less, s[1..|s| - 1]) <= cnt
  {
    assert s[|s| - 1..|s| - 1] == [];
  }

  // Two runs are merged into one.
  lemma PassMerged(less: (Elem, Elem) -> bool, s0: seq<Elem>, s: seq<Elem>, r: seq<Elem>,
                   i: nat, m: nat, e: nat, cnt: nat, u: set<Elem>, orig: seq<Elem>)
    requires PassState(less, s0, s, i, cnt, u, orig) && i < m < e < |s| == |r|
    requires Sorted(less, s[i..m]) && Sorted(less, s[m..e])
    requires less(s[m], s[m - 1]) && (e < |s| - 1 ==> less(s[e], s[e - 1]))
    requires r[..i] == s[..i] && r[e..] == s[e..] && Sorted(less, r[i..e]) && Stable(less, orig, r)
    requires multiset(r) == multiset(s)
    ensures PassState(less, s0, r, e, cnt + 1, u, orig)
  {
    MergedRuns(less, s0, s, r, i, m, e, cnt);
    MergedSlices(s0, s, r, i, e);
    SameElements(s, r, s0, u);
  }

  lemma MergedRuns(less: (Elem, Elem) -> bool, s0: seq<Elem>, s: seq<Elem>, r: seq<Elem>, i: nat, m: nat, e: nat,
                   cnt: nat)
    requires 1 <= i < m < e < |s| == |r| == |s0| && s[i..] == s0[i..] && Runs(less, s[1..i]) <= cnt
    requires cnt + Half(Runs(less, s[i..|s| - 1])) == Half(Runs(less, s0[1..|s| - 1]))
    requires Sorted(less, s[i..m]) && Sorted(less, s[m..e])
    requires less(s[m], s[m - 1]) && (e < |s| - 1 ==> less(s[e], s[e - 1]))
    requires r[..i] == s[..i] && r[e..] == s[e..] && Sorted(less, r[i..e])
    ensures Runs(less, r[1..e]) <= cnt + 1
    ensures cnt + 1 + Half(Runs(less, r[e..|s| - 1])) == Half(Runs(less, s0[1..|s| - 1]))
  {
    TwoRuns(less, s, i, m, e);
    MergedSlices(s0, s, r, i, e);
    RunsAppend(less, s[1..i], r[i..e]);
  }

  lemma MergedSlices(s0: seq<Elem>, s: seq<Elem>, r: seq<Elem>, i: nat, e: nat)
    requires 1 <= i < e < |s| == |r| == |s0| && s[i..] == s0[i..] && r[..i] == s[..i] && r[e..] == s[e..]
    ensures r[e..] == s0[e..] && r[e..|s| - 1] == s[e..|s| - 1] && r[1..e] == s[1..i] + r[i..e]
    ensures r[0] == s[0] && r[|s| - 1] == s[|s| - 1]
  {
    assert s[e..] == s[i..][e - i..] && s0[e..] == s0[i..][e - i..];
    assert r[e..|s| - 1] == r[e..][..|s| - 1 - e] && s[e..|s| - 1] == s[e..][..|s| - 1 - e];
    assert r[1..i] == r[..i][1..] && s[1..i] == s[..i][1..];
    assert r[..i][0] == r[0] && s[..i][0] == s[0] && r[e..][|s| - 1 - e] == r[|s| - 1]
      && s[e..][|s| - 1 - e] == s[|s| - 1];
  }

  lemma TwoRuns(less: (Elem, Elem) -> bool, s: seq<Elem>, i: nat, m: nat, e: nat)
    requires i < m < e < |s|
    requires Sorted(less, s[i..m]) && Sorted(less, s[m..e])
    requires less(s[m], s[m - 1]) && (e < |s| - 1 ==> less(s[e], s[e - 1]))
    ensures Runs(less, s[i..|s| - 1]) == 2 + Runs(less, s[e..|s| - 1])
  {
    RunAt(less, s, i, m);
    RunAt(less, s, m, e);
  }

  lemma RunAt(less: (Elem, Elem) -> bool, s: seq<Elem>, i: nat, m: nat)
    requires i < m < |s| && Sorted(less, s[i..m]) && (m < |s| - 1 ==> less(s[m], s[m - 1]))
    ensures Runs(less, s[i..|s| - 1]) == 1 + Runs(less, s[m..|s| - 1])
  {
    var a := s[i..|s| - 1];
    assert a[..m - i] == s[i..m];
    assert a[m - i..] == s[m..|s| - 1];
    RunSplits(less, a, m - i);
  }

  // A rearrangement with the same ends has the same interior elements.
  lemma SameElements(s: seq<Elem>, r: seq<Elem>, s0: seq<Elem>, u: set<Elem>)
    requires |s| == |r| == |s0| >= 2 && multiset(r) == multiset(s) && r[0] == s[0] && r[|s| - 1] == s[|s| - 1]
    requires Within(s[1..|s| - 1], u) && (forall k :: 0 <= k < |s| ==> s[k] in s0)
    ensures Within(r[1..|s| - 1], u) && (forall k :: 0 <= k < |r| ==> r[k] in s0)
  {
    var n := |s| - 1;
    InteriorMultiset(s);
    InteriorMultiset(r);
    var ms, mr := multiset(s[1..n]), multiset(r[1..n]);
    assert mr == multiset(r) - multiset{r[0], r[n]};
    assert ms == multiset(s) - multiset{s[0], s[n]};
    forall k | 0 <= k < n - 1 ensures r[1..n][k] in u {
      assert r[1..n][k] in mr;
      assert r[1..n][k] in s[1..n];
    }
    forall k | 0 <= k < |r| ensures r[k] in s0 {
      assert r[k] in multiset(r);
      assert r[k] in s;
    }
  }

  // A merge of s0[lo..hi] under way: it touches nothing outside, brings in no
  // element, and keeps equal elements in order.
  ghost predicate MergeState(less: (Elem, Elem) -> bool, s0: seq<Elem>, s: seq<Elem>,
                             lo: nat, i: nat, m: nat, hi: nat, u: set<Elem>, orig: seq<Elem>) {
    && lo < hi < |s| == |s0|
    && s[..lo] == s0[..lo] && s[hi..] == s0[hi..]
    && Within(s[lo..hi], u) && (forall k :: 0 <= k < |s| ==> s[k] in s0)
    && Merging(less, s, lo, i, m, hi)
    && Stable(less, orig, s)
  }

  lemma SkipKeeps(less: (Elem, Elem) -> bool, s0: seq<Elem>, s: seq<Elem>,
                  lo: nat, i: nat, m: nat, hi: nat, u: set<Elem>, orig: seq<Elem>)
    requires StrictWeak(less, u) && MergeState(less, s0, s, lo, i, m, hi, u, orig) && i < m < hi && !less(s[m], s[i])
    ensures MergeState(less, s0, s, lo, i + 1, m, hi, u, orig)
  {
    MergeSkip(less, s, lo, i, m, hi, u);
  }

  lemma MoveKeeps(less: (Elem, Elem) -> bool, s0: seq<Elem>, s: seq<Elem>,
                  lo: nat, i: nat, m: nat, hi: nat, u: set<Elem>, orig: seq<Elem>)
    requires StrictWeak(less, u) && MergeState(less, s0, s, lo, i, m, hi, u, orig) && i < m < hi && less(s[m], s[i])
    ensures var r := Spliced(s, i, m, m + 1);
            MergeState(less, s0, r, lo, i + 1, m + 1, hi, u, orig)
            && r[i + 1] == s[i] && r[m + 1] == s[m + 1] && r[hi] == s[hi]
  {
    MergeMove(less, s, lo, i, m, hi, u);
    MoveStable(less, orig, s, m, i);
    MoveFrame(s0, s, lo, i, m, hi, u);
  }

  // Splicing out one element and putting it in front is MoveTo.
  lemma SplicedOne(s: seq<Elem>, i: nat, m: nat)
    requires i < m < |s|
    ensures Spliced(s, i, m, m + 1) == MoveTo(s, m, i)
  {
    assert s[m..m + 1] == [s[m]];
  }

  lemma MoveFrame(s0: seq<Elem>, s: seq<Elem>, lo: nat, i: nat, m: nat, hi: nat, u: set<Elem>)
    requires lo <= i < m < hi < |s| == |s0| && s[..lo] == s0[..lo] && s[hi..] == s0[hi..]
    requires Within(s[lo..hi], u) && (forall k :: 0 <= k < |s| ==> s[k] in s0)
    ensures var r := Spliced(s, i, m, m + 1);
            && r == MoveTo(s, m, i) && |r| == |s|
            && r[..lo] == s0[..lo] && r[hi..] == s0[hi..] && Within(r[lo..hi], u)
              && (forall k :: 0 <= k < |r| ==> r[k] in s0)
            && r[i + 1] == s[i] && r[m + 1] == s[m + 1] && r[hi] == s[hi]
  {
    SplicedOne(s, i, m);
    MoveToAt(s, m, i);
    MoveOutside(s, lo, i, m, hi);
    MoveWithin(s, lo, i, m, hi, u);
  }

  lemma MoveOutside(s: seq<Elem>, lo: nat, i: nat, m: nat, hi: nat)
    requires lo <= i < m < hi < |s|
    ensures MoveTo(s, m, i)[..lo] == s[..lo] && MoveTo(s, m, i)[hi..] == s[hi..]
  {
    MoveToAt(s, m, i);
  }

  lemma MoveWithin(s: seq<Elem>, lo: nat, i: nat, m: nat, hi: nat, u: set<Elem>)
    requires lo <= i < m < hi < |s| && Within(s[lo..hi], u)
    ensures |MoveTo(s, m, i)| == |s| && Within(MoveTo(s, m, i)[lo..hi], u)
  {
    var r := MoveTo(s, m, i);
    MoveToAt(s, m, i);
    forall k | 0 <= k < hi - lo ensures r[lo..hi][k] in u {
      assert r[lo..hi][k] == r[lo + k] == s[lo..hi][Origin(m, i, lo + k) - lo];
    }
  }
}
