/** What it means to sort stably, and how runs of a sequence combine: the facts
    that list_sort()'s passes rest on, about sequences of any kind. */
module Sorting {

  /** A strict weak order on the elements of u: what list_sort() is promised. */
  ghost predicate StrictWeak<T>(less: (T, T) -> bool, u: set<T>) {
    && (forall a, b :: a in u && b in u && less(a, b) ==> !less(b, a))
    && (forall a, b, c :: a in u && b in u && c in u && !less(a, b) && !less(b, c) ==> !less(a, c))
  }

  ghost predicate Within<T>(s: seq<T>, u: set<T>) {
    forall i :: 0 <= i < |s| ==> s[i] in u
  }

  ghost predicate Sorted<T>(less: (T, T) -> bool, s: seq<T>) {
    forall i, j :: 0 <= i < j < |s| ==> !less(s[j], s[i])
  }

  // a comes before b in s
  ghost predicate Before<T>(s: seq<T>, a: T, b: T) {
    exists i, j :: 0 <= i < j < |s| && s[i] == a && s[j] == b
  }

  ghost predicate Equal<T>(less: (T, T) -> bool, a: T, b: T) {
    !less(a, b) && !less(b, a)
  }

  /** s rearranges orig and keeps equal elements in their order. */
  ghost predicate Stable<T>(less: (T, T) -> bool, orig: seq<T>, s: seq<T>) {
    && multiset(s) == multiset(orig)
    && forall i, j {:trigger Equal(less, s[i], s[j])} ::
         0 <= i < j < |s| && Equal(less, s[i], s[j]) ==> Before(orig, s[i], s[j])
  }

  lemma StableRefl<T>(less: (T, T) -> bool, s: seq<T>)
    ensures Stable(less, s, s)
  {}

  // ---------- Runs ----------

  // Number of maximal nondecreasing runs.
  ghost function Runs<T>(less: (T, T) -> bool, s: seq<T>): nat {
    if |s| == 0 then 0
    else if |s| == 1 then 1
    else Runs(less, s[1..]) + if less(s[1], s[0]) then 1 else 0
  }

  lemma {:induction false} RunsPositive<T>(less: (T, T) -> bool, s: seq<T>)
    ensures Runs(less, s) == 0 <==> s == []
  {
    if |s| > 1 { RunsPositive(less, s[1..]); }
  }

  // A sorted stretch that ends the sequence, or at a descent, is one run.
  lemma {:induction false} RunSplits<T>(less: (T, T) -> bool, s: seq<T>, k: nat)
    requires 0 < k <= |s| && Sorted(less, s[..k])
    requires k < |s| ==> less(s[k], s[k - 1])
    ensures Runs(less, s) == 1 + Runs(less, s[k..])
  {
    if k == 1 {
    } else {
      assert s[..k][0] == s[0] && s[..k][1] == s[1];
      var t := s[1..];
      var front := t[..k - 1];
      forall i, j | 0 <= i < j < |front| ensures !less(front[j], front[i]) {
        assert front[i] == s[..k][i + 1] && front[j] == s[..k][j + 1];
      }
      RunSplits(less, t, k - 1);
      assert t[k - 1..] == s[k..];
    }
  }

  // Appending a sorted stretch adds at most one run.
  lemma {:induction false} RunsAppend<T>(less: (T, T) -> bool, p: seq<T>, q: seq<T>)
    requires Sorted(less, q)
    ensures Runs(less, p + q) <= Runs(less, p) + 1
  {
    if |p| == 0 {
      assert p + q == q;
      RunsSorted(less, q);
    } else if |p| == 1 {
      RunsSorted(less, q);
      assert (p + q)[1..] == q;
    } else {
      assert (p + q)[1..] == p[1..] + q;
      RunsAppend(less, p[1..], q);
    }
  }

  lemma {:induction false} RunsSorted<T>(less: (T, T) -> bool, q: seq<T>)
    requires Sorted(less, q)
    ensures Runs(less, q) <= 1
  {
    if |q| > 1 {
      forall i, j | 0 <= i < j < |q[1..]| ensures !less(q[1..][j], q[1..][i]) {
        assert q[1..][i] == q[i + 1] && q[1..][j] == q[j + 1];
      }
      RunsSorted(less, q[1..]);
    }
  }

  // One run only: the sequence is sorted.
  lemma {:induction false} OneRunSorted<T>(less: (T, T) -> bool, s: seq<T>, u: set<T>)
    requires StrictWeak(less, u) && Within(s, u) && Runs(less, s) <= 1
    ensures Sorted(less, s)
  {
    if |s| > 1 {
      RunsPositive(less, s[1..]);
      assert Within(s[1..], u);
      OneRunSorted(less, s[1..], u);
      forall i, j | 0 <= i < j < |s| ensures !less(s[j], s[i]) {
        if i > 0 {
          assert s[1..][i - 1] == s[i] && s[1..][j - 1] == s[j];
        } else if j > 1 {
          assert s[1..][0] == s[1] && s[1..][j - 1] == s[j];
        }
      }
    }
  }

  lemma SortedExtend<T>(less: (T, T) -> bool, s: seq<T>, i: nat, k: nat, u: set<T>)
    requires StrictWeak(less, u) && i < k < |s| && Within(s[i..k + 1], u)
    requires Sorted(less, s[i..k]) && !less(s[k], s[k - 1])
    ensures Sorted(less, s[i..k + 1])
  {
    var t := s[i..k + 1];
    forall a, b | 0 <= a < b < |t| ensures !less(t[b], t[a]) {
      if b < k - i {
        assert s[i..k][a] == t[a] && s[i..k][b] == t[b];
      } else if a < k - i - 1 {
        assert s[i..k][a] == t[a] && s[i..k][k - i - 1] == t[k - i - 1] == s[k - 1];
      }
    }
  }

  /** An element put before the first greater one, as list_insert_ordered() does,
      leaves a sorted list sorted, and comes after all its equals. */
  lemma InsertedSorted<T>(less: (T, T) -> bool, s: seq<T>, k: nat, e: T, u: set<T>)
    requires StrictWeak(less, u) && Within(s, u) && e in u && k <= |s| && Sorted(less, s)
    requires (forall i :: 0 <= i < k ==> !less(e, s[i])) && (k < |s| ==> less(e, s[k]))
    ensures Sorted(less, s[..k] + [e] + s[k..])
    ensures forall j :: k <= j < |s| ==> less(e, s[j])
  {
    forall j | k <= j < |s| ensures less(e, s[j]) && !less(s[j], e) {
      assert j == k || !less(s[j], s[k]);
    }
  }

  // ---------- Moving one element forward ----------

  function MoveTo<T>(s: seq<T>, m: nat, p: nat): seq<T>
    requires p <= m < |s|
  {
    s[..p] + [s[m]] + s[p..m] + s[m + 1..]
  }

  // Where the element at index i of MoveTo(s, m, p) was.
  function Origin(m: nat, p: nat, i: nat): nat {
    if i < p || i > m then i else if i == p then m else i - 1
  }

  lemma MoveToAt<T>(s: seq<T>, m: nat, p: nat)
    requires p <= m < |s|
    ensures |MoveTo(s, m, p)| == |s|
    ensures forall i :: 0 <= i < |s| ==> 0 <= Origin(m, p, i) < |s| && MoveTo(s, m, p)[i] == s[Origin(m, p, i)]
    ensures multiset(MoveTo(s, m, p)) == multiset(s)
  {
    assert s == s[..p] + s[p..m] + [s[m]] + s[m + 1..];
  }

  /** Moving an element in front of elements it is strictly less than keeps
      equal elements in order. */
  lemma MoveStable<T>(less: (T, T) -> bool, orig: seq<T>, s: seq<T>, m: nat, p: nat)
    requires Stable(less, orig, s) && p <= m < |s|
    requires forall k :: p <= k < m ==> less(s[m], s[k])
    ensures Stable(less, orig, MoveTo(s, m, p))
  {
    MoveToAt(s, m, p);
    var r := MoveTo(s, m, p);
    forall i, j | 0 <= i < j < |r| && Equal(less, r[i], r[j]) ensures Before(orig, r[i], r[j]) {
      var i0, j0 := Origin(m, p, i), Origin(m, p, j);
      assert r[i] == s[i0] && r[j] == s[j0];
      assert i0 < j0;
    }
  }

  // ---------- Merging ----------

  /** The state of an in-place merge of s[lo..hi]: the part before i is done,
      s[i..m] and s[m..hi] are sorted, and nothing left goes before the part done. */
  ghost predicate Merging<T>(less: (T, T) -> bool, s: seq<T>, lo: nat, i: nat, m: nat, hi: nat) {
    && lo <= i <= m <= hi <= |s|
    && (forall j, k :: lo <= j < k < i ==> !less(s[k], s[j]))
    && (forall j, k :: lo <= j < i <= k < hi ==> !less(s[k], s[j]))
    && (forall j, k :: i <= j < k < m ==> !less(s[k], s[j]))
    && (forall j, k :: m <= j < k < hi ==> !less(s[k], s[j]))
  }

  lemma MergeSkip<T>(less: (T, T) -> bool, s: seq<T>, lo: nat, i: nat, m: nat, hi: nat, u: set<T>)
    requires StrictWeak(less, u) && lo <= hi <= |s| && Within(s[lo..hi], u)
    requires Merging(less, s, lo, i, m, hi) && i < m < hi && !less(s[m], s[i])
    ensures Merging(less, s, lo, i + 1, m, hi)
  {
    assert s[lo..hi][i - lo] == s[i] && s[lo..hi][m - lo] == s[m];
    forall k | m < k < hi ensures !less(s[k], s[i]) {
      assert s[lo..hi][k - lo] == s[k];
      assert !less(s[k], s[m]);
    }
  }

  lemma MergeMove<T>(less: (T, T) -> bool, s: seq<T>, lo: nat, i: nat, m: nat, hi: nat, u: set<T>)
    requires StrictWeak(less, u) && lo <= hi <= |s| && Within(s[lo..hi], u)
    requires Merging(less, s, lo, i, m, hi) && i < m < hi && less(s[m], s[i])
    ensures Merging(less, MoveTo(s, m, i), lo, i + 1, m + 1, hi)
    ensures forall k :: i <= k < m ==> less(s[m], s[k])
  {
    var r := MoveTo(s, m, i);
    MoveToAt(s, m, i);
    assert s[lo..hi][i - lo] == s[i] && s[lo..hi][m - lo] == s[m];
    forall k | i <= k < m ensures less(s[m], s[k]) && !less(s[k], s[m]) {
      assert s[lo..hi][k - lo] == s[k];
      assert k == i || !less(s[k], s[i]);
    }
    forall j, k | lo <= j < k < i + 1 ensures !less(r[k], r[j]) {
      assert r[j] == s[j] && r[k] == s[Origin(m, i, k)];
    }
    forall j, k | lo <= j < i + 1 <= k < hi ensures !less(r[k], r[j]) {
      var k0 := Origin(m, i, k);
      assert r[j] == s[if j == i then m else j] && r[k] == s[k0] && i <= k0 < hi && k0 != m;
      assert k0 > m ==> !less(s[k0], s[m]);
    }
    forall j, k | i + 1 <= j < k < m + 1 ensures !less(r[k], r[j]) {
      assert r[j] == s[j - 1] && r[k] == s[k - 1];
    }
    forall j, k | m + 1 <= j < k < hi ensures !less(r[k], r[j]) {
      assert r[j] == s[j] && r[k] == s[k];
    }
  }

  lemma MergeDone<T>(less: (T, T) -> bool, s: seq<T>, lo: nat, i: nat, m: nat, hi: nat)
    requires Merging(less, s, lo, i, m, hi) && (i == m || m == hi)
    ensures Sorted(less, s[lo..hi])
  {
    forall a, b | 0 <= a < b < hi - lo ensures !less(s[lo..hi][b], s[lo..hi][a]) {
      assert s[lo..hi][a] == s[lo + a] && s[lo..hi][b] == s[lo + b];
    }
  }

  lemma MergeStart<T>(less: (T, T) -> bool, s: seq<T>, lo: nat, m: nat, hi: nat)
    requires lo <= m <= hi <= |s| && Sorted(less, s[lo..m]) && Sorted(less, s[m..hi])
    ensures Merging(less, s, lo, lo, m, hi)
  {
    forall j, k | lo <= j < k < m ensures !less(s[k], s[j]) {
      assert s[lo..m][j - lo] == s[j] && s[lo..m][k - lo] == s[k];
    }
    forall j, k | m <= j < k < hi ensures !less(s[k], s[j]) {
      assert s[m..hi][j - m] == s[j] && s[m..hi][k - m] == s[k];
    }
  }

  lemma InteriorMultiset<T>(s: seq<T>)
    requires |s| >= 2
    ensures multiset(s) == multiset(s[1..|s| - 1]) + multiset{s[0], s[|s| - 1]}
  {
    assert s == [s[0]] + s[1..|s| - 1] + [s[|s| - 1]];
  }

  // A pair inside s that is in order in orig is in order inside orig.
  lemma BeforeInterior<T>(orig: seq<T>, a: T, b: T)
    requires Before(orig, a, b) && |orig| >= 2 && a != orig[0] && b != orig[|orig| - 1]
    ensures Before(orig[1..|orig| - 1], a, b)
  {
    var n := |orig| - 1;
    var i, j :| 0 <= i < j < |orig| && orig[i] == a && orig[j] == b;
    assert orig[1..n][i - 1] == orig[i] && orig[1..n][j - 1] == orig[j];
  }

  /** Dropping the same first and last element leaves a stable rearrangement. */
  lemma StableInterior<T>(less: (T, T) -> bool, orig: seq<T>, s: seq<T>)
    requires Stable(less, orig, s) && |orig| == |s| >= 2
    requires orig[0] == s[0] && orig[|s| - 1] == s[|s| - 1]
    requires forall i, j :: 0 <= i < j < |s| ==> s[i] != s[j]
    ensures Stable(less, orig[1..|s| - 1], s[1..|s| - 1])
  {
    var n := |s| - 1;
    InteriorMultiset(orig);
    InteriorMultiset(s);
    assert multiset(s[1..n]) == multiset(s) - multiset{s[0], s[n]};
    assert multiset(orig[1..n]) == multiset(orig) - multiset{orig[0], orig[n]};
    forall i, j | 0 <= i < j < n - 1 && Equal(less, s[1..n][i], s[1..n][j])
      ensures Before(orig[1..n], s[1..n][i], s[1..n][j])
    {
      assert s[1..n][i] == s[i + 1] && s[1..n][j] == s[j + 1];
      assert Before(orig, s[i + 1], s[j + 1]);
      BeforeInterior(orig, s[i + 1], s[j + 1]);
    }
  }
}
