/** lib/stdlib.c: the heap sort behind sort() and qsort().

    Elements are numbered from 1, as the C code numbers them. */
module Heapsort {

  /** What sort() is promised: a strcmp()-type comparison by a total preorder. */
  ghost predicate Preorder<T(!new)>(cmp: (T, T) -> int) {
    && (forall x, y :: cmp(x, y) > 0 <==> cmp(y, x) < 0)
    && (forall x, y, z :: cmp(x, y) <= 0 && cmp(y, z) <= 0 ==> cmp(x, z) <= 0)
  }

  // Element number k.
  function At<T>(s: seq<T>, k: nat): T
    requires 1 <= k <= |s|
  {
    s[k - 1]
  }

  // Child c, of a parent from lo on, is not greater than it.
  ghost predicate Under<T>(cmp: (T, T) -> int, s: seq<T>, c: nat)
    requires 2 <= c <= |s|
  {
    cmp(At(s, c), At(s, c / 2)) <= 0
  }

  /** The elements lo..cnt form a heap, as far as parents from lo on go. */
  ghost predicate Heap<T>(cmp: (T, T) -> int, s: seq<T>, lo: nat, cnt: nat)
    requires cnt <= |s| && 1 <= lo
  {
    forall c :: 2 * lo <= c <= cnt ==> Under(cmp, s, c)
  }

  // A heap but for the element at `hole`, which may be too small; its children
  // are not greater than its parent.
  ghost predicate HeapBut<T>(cmp: (T, T) -> int, s: seq<T>, lo: nat, hole: nat, cnt: nat)
    requires cnt <= |s| && 1 <= lo <= hole
  {
    && (forall c :: 2 * lo <= c <= cnt && c / 2 != hole ==> Under(cmp, s, c))
    && (hole >= 2 * lo ==> forall c :: 2 <= c <= cnt && c / 2 == hole ==> cmp(At(s, c), At(s, hole / 2)) <= 0)
  }

  // i times two to the k
  ghost function Doubled(i: nat, k: nat): nat {
    if k == 0 then i else 2 * Doubled(i, k - 1)
  }

  ghost function Swapped<T>(s: seq<T>, i: nat, j: nat): (r: seq<T>)
    requires 1 <= i <= |s| && 1 <= j <= |s|
    ensures |r| == |s|
  {
    s[i - 1 := s[j - 1]][j - 1 := s[i - 1]]
  }

  lemma SwapKeeps<T>(s: seq<T>, i: nat, j: nat, n: nat)
    requires 1 <= i <= n <= |s| && 1 <= j <= n
    ensures multiset(Swapped(s, i, j)[..n]) == multiset(s[..n])
    ensures Swapped(s, i, j)[n..] == s[n..]
  {
    var p := s[..n];
    assert Swapped(s, i, j)[..n] == p[i - 1 := p[j - 1]][j - 1 := p[i - 1]];
  }

  /** Letting the hole sink into its greatest child moves the hole there. */
  lemma Sink<T(!new)>(cmp: (T, T) -> int, s: seq<T>, lo: nat, hole: nat, max: nat, cnt: nat)
    requires Preorder(cmp) && cnt <= |s| && 1 <= lo <= hole && HeapBut(cmp, s, lo, hole, cnt)
    requires 2 <= max <= cnt && max / 2 == hole && cmp(At(s, max), At(s, hole)) > 0
    requires forall c :: 2 <= c <= cnt && c / 2 == hole ==> cmp(At(s, c), At(s, max)) <= 0
    ensures HeapBut(cmp, Swapped(s, hole, max), lo, max, cnt)
  {
    var r := Swapped(s, hole, max);
    assert At(r, hole) == At(s, max) && At(r, max) == At(s, hole);
    assert forall k :: 1 <= k <= |s| && k != hole && k != max ==> At(r, k) == At(s, k);
    forall c | 2 * lo <= c <= cnt && c / 2 != max ensures Under(cmp, r, c) {
      if c / 2 == hole {
        if c != max { assert cmp(At(s, c), At(s, max)) <= 0; }
      } else if c == hole {
        assert cmp(At(s, max), At(s, hole / 2)) <= 0;
      } else {
        assert Under(cmp, s, c);
      }
    }
    forall c | 2 <= c <= cnt && c / 2 == max ensures cmp(At(r, c), At(r, max / 2)) <= 0 {
      assert Under(cmp, s, c);
    }
  }

  /** heapify(): float the element numbered `start` down.  It descends at most
      log2(cnt / start) levels. */
  method Heapify<T(!new)>(a: array<T>, start: nat, cnt: nat, cmp: (T, T) -> int) returns (ghost descents: nat)
    requires Preorder(cmp) && 1 <= start <= cnt <= a.Length
    requires HeapBut(cmp, a[..], start, start, cnt)
    modifies a
    ensures Heap(cmp, a[..], start, cnt)
    ensures multiset(a[..cnt]) == multiset(old(a[..cnt])) && a[cnt..] == old(a[cnt..])
    ensures a[..start - 1] == old(a[..start - 1])
    ensures Doubled(start, descents) <= cnt
  {
    var i := start;
    descents := 0;
    while true
      invariant start <= i <= cnt && HeapBut(cmp, a[..], start, i, cnt)
      invariant multiset(a[..cnt]) == multiset(old(a[..cnt])) && a[cnt..] == old(a[cnt..])
      invariant a[..start - 1] == old(a[..start - 1])
      invariant Doubled(start, descents) <= i
      decreases cnt - i
    {
      var max := GreatestOf(a, i, cnt, cmp);
      if max == i {
        break;
      }
      Descend(a, start, i, max, cnt, cmp);
      i := max;
      descents := descents + 1;
    }
  }

  // The index of the greatest among element i and its children.
  method GreatestOf<T(!new)>(a: array<T>, i: nat, cnt: nat, cmp: (T, T) -> int) returns (max: nat)
    requires Preorder(cmp) && 1 <= i <= cnt <= a.Length
    ensures max == i || (max / 2 == i && max <= cnt && cmp(At(a[..], max), At(a[..], i)) > 0)
    ensures forall c :: 2 <= c <= cnt && c / 2 == i ==> cmp(At(a[..], c), At(a[..], max)) <= 0
  {
    var left, right := 2 * i, 2 * i + 1;
    max := i;
    if left <= cnt && cmp(a[left - 1], a[max - 1]) > 0 {
      max := left;
    }
    if right <= cnt && cmp(a[right - 1], a[max - 1]) > 0 {
      max := right;
    }
  }

  // do_swap() inside heapify().
  method Descend<T(!new)>(a: array<T>, ghost start: nat, i: nat, max: nat, ghost cnt: nat, ghost cmp: (T, T) -> int)
    requires Preorder(cmp) && 1 <= start <= i && 2 <= max <= cnt <= a.Length && max / 2 == i
    requires HeapBut(cmp, a[..], start, i, cnt) && cmp(At(a[..], max), At(a[..], i)) > 0
    requires forall c :: 2 <= c <= cnt && c / 2 == i ==> cmp(At(a[..], c), At(a[..], max)) <= 0
    modifies a
    ensures HeapBut(cmp, a[..], start, max, cnt)
    ensures multiset(a[..cnt]) == multiset(old(a[..cnt])) && a[cnt..] == old(a[cnt..])
    ensures a[..start - 1] == old(a[..start - 1])
  {
    ghost var s := a[..];
    Sink(cmp, s, start, i, max, cnt);
    SwapKeeps(s, i, max, cnt);
    DoSwap(a, i, max);
    assert a[..cnt] == a[..][..cnt] && a[cnt..] == a[..][cnt..] && s[..cnt] == old(a[..cnt])
      && s[cnt..] == old(a[cnt..]);
  }

  method DoSwap<T>(a: array<T>, i: nat, j: nat)
    requires 1 <= i <= a.Length && 1 <= j <= a.Length
    modifies a
    ensures a[..] == Swapped(old(a[..]), i, j)
  {
    var t := a[i - 1];
    a[i - 1] := a[j - 1];
    a[j - 1] := t;
  }

  // The root of a heap is its greatest element.
  lemma {:induction false} RootGreatest<T(!new)>(cmp: (T, T) -> int, s: seq<T>, cnt: nat, k: nat)
    requires Preorder(cmp) && 1 <= k <= cnt <= |s| && Heap(cmp, s, 1, cnt)
    ensures cmp(At(s, k), At(s, 1)) <= 0
  {
    if k == 1 {
      assert cmp(At(s, 1), At(s, 1)) > 0 <==> cmp(At(s, 1), At(s, 1)) < 0;
    } else {
      assert Under(cmp, s, k);
      RootGreatest(cmp, s, cnt, k / 2);
    }
  }

  // The elements after i are sorted and not less than those up to i.
  ghost predicate SortedFrom<T>(cmp: (T, T) -> int, s: seq<T>, i: nat)
    requires i <= |s|
  {
    && (forall j, k :: i <= j < k < |s| ==> cmp(s[j], s[k]) <= 0)
    && (forall j, k :: 0 <= j < i <= k < |s| ==> cmp(s[j], s[k]) <= 0)
  }

  /** Taking the root to the end of the heap extends the sorted part. */
  lemma TakeRoot<T(!new)>(cmp: (T, T) -> int, s: seq<T>, i: nat)
    requires Preorder(cmp) && 1 < i <= |s| && Heap(cmp, s, 1, i) && SortedFrom(cmp, s, i)
    ensures SortedFrom(cmp, Swapped(s, 1, i), i - 1)
    ensures HeapBut(cmp, Swapped(s, 1, i), 1, 1, i - 1)
  {
    var r := Swapped(s, 1, i);
    forall j | 0 <= j < i ensures cmp(r[j], r[i - 1]) <= 0 {
      RootGreatest(cmp, s, i, if j == 0 then i else j + 1);
    }
    forall c | 2 <= c <= i - 1 && c / 2 != 1 ensures Under(cmp, r, c) {
      assert Under(cmp, s, c);
    }
  }

  // A rearrangement of the first i elements leaves the rest where it belongs.
  lemma RearrangeKeeps<T>(cmp: (T, T) -> int, s: seq<T>, r: seq<T>, i: nat)
    requires i <= |s| == |r| && SortedFrom(cmp, s, i)
    requires multiset(r[..i]) == multiset(s[..i]) && r[i..] == s[i..]
    ensures SortedFrom(cmp, r, i)
  {
    forall j, k | i <= j < k < |r| ensures cmp(r[j], r[k]) <= 0 {
      assert r[j] == r[i..][j - i] == s[j] && r[k] == r[i..][k - i] == s[k];
    }
    forall j, k | 0 <= j < i <= k < |r| ensures cmp(r[j], r[k]) <= 0 {
      assert r[..i][j] in multiset(s[..i]);
      var m :| 0 <= m < i && s[..i][m] == r[j];
      assert r[k] == r[i..][k - i] == s[k] && s[m] == r[j];
    }
  }

  /** sort(): the array becomes a nondecreasing rearrangement of what it was. */
  method Sort<T(!new)>(a: array<T>, cmp: (T, T) -> int)
    requires Preorder(cmp)
    modifies a
    ensures forall j, k :: 0 <= j < k < a.Length ==> cmp(a[j], a[k]) <= 0
    ensures multiset(a[..]) == multiset(old(a[..]))
  {
    var cnt := a.Length;
    BuildHeap(a, cmp);
    var i := cnt;
    while i > 1
      invariant 0 <= i <= cnt && (cnt > 0 ==> i >= 1)
      invariant Heap(cmp, a[..], 1, i) && SortedFrom(cmp, a[..], i)
      invariant multiset(a[..]) == multiset(old(a[..]))
    {
      TakeOne(a, i, cmp);
      i := i - 1;
    }
    assert forall j, k :: 0 <= j < k < cnt ==> cmp(a[..][j], a[..][k]) <= 0;
  }

  method BuildHeap<T(!new)>(a: array<T>, cmp: (T, T) -> int)
    requires Preorder(cmp)
    modifies a
    ensures Heap(cmp, a[..], 1, a.Length) && multiset(a[..]) == multiset(old(a[..]))
  {
    var i := a.Length / 2;
    while i > 0
      invariant 0 <= i <= a.Length / 2
      invariant Heap(cmp, a[..], i + 1, a.Length)
      invariant multiset(a[..]) == multiset(old(a[..]))
    {
      assert a[..a.Length] == a[..];
      ghost var before := a[..];
      assert before[..a.Length] == before;
      ghost var _ := Heapify(a, i, a.Length, cmp);
      assert a[..a.Length] == a[..];
      i := i - 1;
    }
  }

  // One turn of the second loop: the greatest element goes to its place.
  method TakeOne<T(!new)>(a: array<T>, i: nat, cmp: (T, T) -> int)
    requires Preorder(cmp) && 1 < i <= a.Length && Heap(cmp, a[..], 1, i) && SortedFrom(cmp, a[..], i)
    modifies a
    ensures Heap(cmp, a[..], 1, i - 1) && SortedFrom(cmp, a[..], i - 1)
    ensures multiset(a[..]) == multiset(old(a[..]))
  {
    ghost var s := a[..];
    TakeRoot(cmp, s, i);
    SwapKeeps(s, 1, i, |s|);
    assert s[..|s|] == s && Swapped(s, 1, i)[..|s|] == Swapped(s, 1, i);
    DoSwap(a, 1, i);
    Restore(a, i - 1, cmp);
  }

  // heapify() from the root of the shrunken heap.
  method Restore<T(!new)>(a: array<T>, n: nat, cmp: (T, T) -> int)
    requires Preorder(cmp) && 1 <= n <= a.Length && HeapBut(cmp, a[..], 1, 1, n) && SortedFrom(cmp, a[..], n)
    modifies a
    ensures Heap(cmp, a[..], 1, n) && SortedFrom(cmp, a[..], n)
    ensures multiset(a[..]) == multiset(old(a[..]))
  {
    ghost var r := a[..];
    assert a[..n] == r[..n] && a[n..] == r[n..];
    ghost var _ := Heapify(a, 1, n, cmp);
    ghost var s := a[..];
    assert a[..n] == s[..n] && a[n..] == s[n..];
    RearrangeKeeps(cmp, r, s, n);
    assert s == s[..n] + s[n..] && r == r[..n] + r[n..];
  }
}
