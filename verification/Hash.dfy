/** lib/kernel/hash.c: a chained hash table that changes its number of buckets
    as it grows and shrinks. */
module Hash {
  import opened Bits
  import opened Sequences

  predicate Equal<T>(less: (T, T) -> bool, x: T, y: T) { !less(x, y) && !less(y, x) }

  // What the table asks of its client: a strict weak order, and one hash value
  // for elements that are equal in it.
  ghost predicate GoodClient<T(!new)>(hash: T -> nat, less: (T, T) -> bool) {
    && (forall x, y :: less(x, y) ==> !less(y, x))
    && (forall x, y, z :: !less(x, y) && !less(y, z) ==> !less(x, z))
    && (forall x, y :: Equal(less, x, y) ==> hash(x) == hash(y))
  }

  // x is in the bucket its hash value selects among n.
  predicate InBucket<T(==)>(hash: T -> nat, b: seq<seq<T>>, x: T)
    requires |b| > 0
  {
    x in b[hash(x) % |b|]
  }

  // The buckets hold exactly the given elements, each once and in its place.
  ghost predicate Holds<T(!new)>(hash: T -> nat, b: seq<seq<T>>, elems: set<T>)
    requires |b| > 0
  {
    && (forall x :: x in elems <==> InBucket(hash, b, x))
    && (forall i :: 0 <= i < |b| ==> NoDup(b[i]))
    && (forall i, x :: 0 <= i < |b| && x in b[i] ==> hash(x) % |b| == i)
  }

  // No two elements are equal.
  ghost predicate Distinct<T>(less: (T, T) -> bool, elems: set<T>) {
    forall x, y :: x in elems && y in elems && Equal(less, x, y) ==> x == y
  }

  lemma DistinctMore<T>(less: (T, T) -> bool, elems: set<T>, e: T)
    requires Distinct(less, elems) && forall x :: x in elems ==> !Equal(less, x, e)
    ensures Distinct(less, elems + {e})
  {
    forall x, y | x in elems + {e} && y in elems + {e} && Equal(less, x, y) ensures x == y {
      assert Equal(less, y, x);
    }
  }

  // ---------- The number of buckets ----------

  // The largest power of two that is at most x.
  ghost predicate Floor2(p: nat, x: nat) { IsPow2(p) && p <= x < 2 * p }

  lemma {:induction false} HasFloor2(x: nat) returns (p: nat)
    requires x > 0
    ensures Floor2(p, x)
  {
    if x == 1 {
      assert Pow2(0) == 1;
      p := 1;
    } else {
      p := HasFloor2(x / 2);
      Pow2Twice(p);
      p := 2 * p;
    }
  }

  function Ideal(elemCnt: nat): nat { if elemCnt / 2 < 4 then 4 else elemCnt / 2 }

  /** The loop of rehash(): turning off low bits leaves the largest power of two
      that is at most half the number of elements, and at least four. */
  method NewBucketCnt(elemCnt: nat) returns (n: nat)
    ensures Floor2(n, Ideal(elemCnt)) && n >= 4
    ensures elemCnt >= 8 ==> 2 * n <= elemCnt < 4 * n
    ensures elemCnt < 16 ==> n == 4
  {
    n := Ideal(elemCnt);
    ghost var p := HasFloor2(n);
    FourIsPow2();
    while !(n != 0 && And(n, n - 1) == 0)
      invariant 0 < p <= n <= Ideal(elemCnt) < 2 * p && IsPow2(p)
      decreases n
    {
      LowestBitOff(n);
      n := And(n, n - 1);
    }
    LowestBitOff(n);
    Pow2Below(p, n);
    Pow2Below(4, n);
  }

  lemma FourIsPow2()
    ensures IsPow2(4)
  {
    assert Pow2(2) == 4;
  }

  // Between p and twice p there is no other power of two.
  lemma Pow2Below(p: nat, q: nat)
    requires IsPow2(p) && IsPow2(q)
    ensures p <= q < 2 * p ==> p == q
    ensures q < p ==> 2 * q <= p
  {
    var i: nat :| p == Pow2(i);
    var j: nat :| q == Pow2(j);
    if i < j { Pow2Monotone(i, j); }
    if j < i { Pow2Monotone(j, i); }
  }

  // ---------- Moving one element ----------

  lemma Pushed<T(!new)>(hash: T -> nat, b: seq<seq<T>>, elems: set<T>, x: T)
    requires |b| > 0 && Holds(hash, b, elems) && x !in elems
    ensures var i := hash(x) % |b|; Holds(hash, b[i := [x] + b[i]], elems + {x})
  {
    var i := hash(x) % |b|;
    var b' := b[i := [x] + b[i]];
    assert x !in b[i] by { assert !InBucket(hash, b, x); }
    forall y ensures y in elems + {x} <==> InBucket(hash, b', y) {
      assert InBucket(hash, b, y) <==> y in elems;
    }
  }

  lemma Pulled<T(!new)>(hash: T -> nat, b: seq<seq<T>>, elems: set<T>, i: nat, k: nat)
    requires |b| > 0 && Holds(hash, b, elems) && i < |b| && k < |b[i]|
    ensures b[i][k] in elems
    ensures Holds(hash, b[i := Without(b[i], k)], elems - {b[i][k]})
  {
    var x := b[i][k];
    var b' := b[i := Without(b[i], k)];
    WithoutHas(b[i], k);
    assert x in b[i];
    assert InBucket(hash, b, x);
    forall y ensures y in elems - {x} <==> InBucket(hash, b', y) {
      assert InBucket(hash, b, y) <==> y in elems;
    }
  }

  // Part of the elements are still in the old buckets, the others already in
  // the new ones.
  ghost predicate Moving<T(!new)>(hash: T -> nat, from: seq<seq<T>>, dest: seq<seq<T>>, elems: set<T>, rest: set<T>)
    requires |from| > 0 && |dest| > 0
  {
    rest <= elems && Holds(hash, from, rest) && Holds(hash, dest, elems - rest)
  }

  lemma MoveOne<T(!new)>(hash: T -> nat, from: seq<seq<T>>, dest: seq<seq<T>>, elems: set<T>, rest: set<T>, i: nat)
    requires |from| > 0 && |dest| > 0 && Moving(hash, from, dest, elems, rest) && i < |from| && from[i] != []
    ensures var x := from[i][0]; var k := hash(x) % |dest|;
            Moving(hash, from[i := from[i][1..]], dest[k := [x] + dest[k]], elems, rest - {x})
  {
    var x := from[i][0];
    Pulled(hash, from, rest, i, 0);
    assert Without(from[i], 0) == from[i][1..];
    Pushed(hash, dest, elems - rest, x);
    assert elems - rest + {x} == elems - (rest - {x});
  }

  lemma NothingLeft<T(!new)>(hash: T -> nat, from: seq<seq<T>>, rest: set<T>)
    requires |from| > 0 && Holds(hash, from, rest) && forall i :: 0 <= i < |from| ==> from[i] == []
    ensures rest == {}
  {
    forall x ensures x !in rest { assert !InBucket(hash, from, x); }
  }

  datatype Op<T> = DoInsert(e: T, allocOk: bool) | DoReplace(e: T, allocOk: bool) | DoDelete(e: T, allocOk: bool)

  // What a call may do to the set of elements: all of them equal e.
  ghost predicate Effect<T>(less: (T, T) -> bool, op: Op<T>, before: set<T>, after: set<T>) {
    if exists x :: x in before && Equal(less, x, op.e) then
      match op
      case DoInsert(e, _) => after == before
      case DoReplace(e, _) => exists x :: x in before && Equal(less, x, e) && after == before - {x} + {e}
      case DoDelete(e, _) => exists x :: x in before && Equal(less, x, e) && after == before - {x}
    else
      after == if op.DoDelete? then before else before + {op.e}
  }

  // The first n calls lead from each set of elements to the next.
  ghost predicate Traced<T(!new)>(less: (T, T) -> bool, ops: seq<Op<T>>, trace: seq<set<T>>, n: nat)
    requires n <= |ops| && n < |trace|
  {
    forall i :: 0 <= i < n ==> Effect(less, ops[i], trace[i], trace[i + 1])
  }

  lemma TracedMore<T(!new)>(less: (T, T) -> bool, ops: seq<Op<T>>, trace: seq<set<T>>, n: nat, now: set<T>)
    requires n < |ops| && n + 1 == |trace| && Traced(less, ops, trace, n) && Effect(less, ops[n], trace[n], now)
    ensures Traced(less, ops, trace + [now], n + 1)
  {
    var trace' := trace + [now];
    forall i | 0 <= i < n + 1 ensures Effect(less, ops[i], trace'[i], trace'[i + 1]) {}
  }

  class HashTable<T(==, !new)> {
    const hash: T -> nat
    const less: (T, T) -> bool
    var elemCnt: nat
    var buckets: seq<seq<T>>
    ghost var elems: set<T>

    ghost predicate Valid()
      reads this
    {
      && GoodClient(hash, less)
      && |buckets| >= 4 && IsPow2(|buckets|)
      && Holds(hash, buckets, elems) && Distinct(less, elems)
      && elemCnt == |elems|
    }

    // The number of buckets suits the number of elements.
    ghost predicate Balanced()
      reads this
    {
      if elemCnt >= 8 then 2 * |buckets| <= elemCnt < 4 * |buckets| else |buckets| == 4
    }

    constructor (hash: T -> nat, less: (T, T) -> bool)
      requires GoodClient(hash, less)
      ensures Valid() && elems == {} && this.hash == hash && this.less == less && Balanced()
    {
      this.hash, this.less, elemCnt, elems := hash, less, 0, {};
      buckets := [[], [], [], []];
      new;
      FourIsPow2();
      forall x ensures !InBucket(hash, buckets, x) {}
    }

    /** find_bucket(): masking the hash value selects its bucket. */
    method FindBucket(e: T) returns (i: nat)
      requires |buckets| > 0 && IsPow2(|buckets|)
      ensures i == hash(e) % |buckets|
    {
      ghost var k: nat :| |buckets| == Pow2(k);
      MaskIsMod(hash(e), k);
      i := And(hash(e), |buckets| - 1);
    }

    /** find_elem(): the position of the only equal element, if there is one. */
    method FindElem(i: nat, e: T) returns (k: Option<nat>)
      requires Valid() && i == hash(e) % |buckets|
      ensures k.Some? ==> k.value < |buckets[i]| && buckets[i][k.value] in elems && Equal(less, buckets[i][k.value], e)
      ensures k.None? ==> forall x :: x in elems ==> !Equal(less, x, e)
    {
      var j := 0;
      while j < |buckets[i]|
        invariant j <= |buckets[i]| && forall m :: 0 <= m < j ==> !Equal(less, buckets[i][m], e)
      {
        if !less(buckets[i][j], e) && !less(e, buckets[i][j]) {
          assert buckets[i][j] in buckets[i];
          assert InBucket(hash, buckets, buckets[i][j]);
          return Some(j);
        }
        j := j + 1;
      }
      forall x | x in elems ensures !Equal(less, x, e) {
        assert InBucket(hash, buckets, x);
      }
      k := None;
    }

    /** hash_find() */
    method Find(e: T) returns (r: Option<T>)
      requires Valid()
      ensures r.Some? ==> r.value in elems && Equal(less, r.value, e)
      ensures r.None? ==> forall x :: x in elems ==> !Equal(less, x, e)
    {
      var i := FindBucket(e);
      var k := FindElem(i, e);
      r := if k.Some? then Some(buckets[i][k.value]) else None;
    }

    method InsertElem(i: nat, e: T)
      requires Valid() && i == hash(e) % |buckets| && forall x :: x in elems ==> !Equal(less, x, e)
      modifies this
      ensures Valid() && elems == old(elems) + {e} && |buckets| == |old(buckets)|
    {
      assert Equal(less, e, e);
      DistinctMore(less, elems, e);
      Pushed(hash, buckets, elems, e);
      elemCnt := elemCnt + 1;
      buckets := buckets[i := [e] + buckets[i]];
      elems := elems + {e};
    }

    method RemoveElem(i: nat, k: nat)
      requires Valid() && i < |buckets| && k < |buckets[i]|
      modifies this
      ensures Valid() && elems == old(elems) - {old(buckets)[i][k]} && |buckets| == |old(buckets)|
    {
      Pulled(hash, buckets, elems, i, k);
      elemCnt := elemCnt - 1;
      elems := elems - {buckets[i][k]};
      buckets := buckets[i := Without(buckets[i], k)];
    }

    // Moves the elements of one old bucket.
    method EmptyBucket(from: seq<seq<T>>, i: nat, ghost rest0: set<T>) returns (ghost rest: set<T>)
      requires i < |from| && |buckets| >= 4 && IsPow2(|buckets|) && GoodClient(hash, less)
      requires Moving(hash, from, buckets, elems, rest0)
      modifies this`buckets
      ensures |buckets| == |old(buckets)| && Moving(hash, from[i := []], buckets, elems, rest)
    {
      var left := from[i];
      rest := rest0;
      assert from[i := left] == from;
      while |left| > 0
        invariant |buckets| == |old(buckets)| && Moving(hash, from[i := left], buckets, elems, rest)
        decreases |left|
      {
        var x := left[0];
        MoveOne(hash, from[i := left], buckets, elems, rest, i);
        var k := FindBucket(x);
        assert from[i := left][i := left[1..]] == from[i := left[1..]];
        left := left[1..];
        buckets := buckets[k := [x] + buckets[k]];
        rest := rest - {x};
      }
    }

    // Moves every element into the appropriate one of n new buckets.
    method MoveAll(n: nat)
      requires Valid() && n >= 4 && IsPow2(n)
      modifies this`buckets
      ensures Valid() && |buckets| == n
    {
      var oldBuckets := buckets;
      ghost var rest := elems;
      buckets := seq(n, _ => []);
      assert forall x :: !InBucket(hash, buckets, x);
      for i := 0 to |oldBuckets|
        invariant |oldBuckets| == |old(buckets)| && |buckets| == n && Moving(hash, oldBuckets, buckets, elems, rest)
        invariant forall j :: 0 <= j < i ==> oldBuckets[j] == []
      {
        rest := EmptyBucket(oldBuckets, i, rest);
        oldBuckets := oldBuckets[i := []];
      }
      NothingLeft(hash, oldBuckets, rest);
      assert elems - rest == elems;
    }

    /** rehash(): the elements are the same; and unless there is no memory, the
        number of buckets suits them. */
    method Rehash(allocOk: bool)
      requires Valid()
      modifies this`buckets
      ensures Valid() && (allocOk ==> Balanced())
      ensures !allocOk ==> buckets == old(buckets)
    {
      var n := NewBucketCnt(elemCnt);
      if n == |buckets| {
        return;
      }
      if !allocOk {
        return;
      }
      MoveAll(n);
    }

    /** hash_insert(): an equal element is returned and nothing inserted. */
    method Insert(e: T, allocOk: bool) returns (r: Option<T>)
      requires Valid()
      modifies this
      ensures Valid() && (allocOk ==> Balanced())
      ensures r.Some? ==> r.value in old(elems) && Equal(less, r.value, e) && elems == old(elems)
      ensures r.None? ==> (forall x :: x in old(elems) ==> !Equal(less, x, e)) && elems == old(elems) + {e}
    {
      var i := FindBucket(e);
      var k := FindElem(i, e);
      r := if k.Some? then Some(buckets[i][k.value]) else None;
      if k.None? {
        InsertElem(i, e);
      }
      Rehash(allocOk);
    }

    /** hash_replace(): the new element takes the place of an equal one. */
    method Replace(e: T, allocOk: bool) returns (r: Option<T>)
      requires Valid()
      modifies this
      ensures Valid() && (allocOk ==> Balanced())
      ensures r.Some? ==> r.value in old(elems) && Equal(less, r.value, e) && elems == old(elems) - {r.value} + {e}
      ensures r.None? ==> (forall x :: x in old(elems) ==> !Equal(less, x, e)) && elems == old(elems) + {e}
    {
      var i := FindBucket(e);
      var k := FindElem(i, e);
      r := if k.Some? then Some(buckets[i][k.value]) else None;
      if k.Some? {
        OnlyEqual(r.value, e);
        RemoveElem(i, k.value);
      }
      InsertElem(i, e);
      Rehash(allocOk);
    }

    // An element equal to e is the only one.
    lemma OnlyEqual(y: T, e: T)
      requires Valid() && y in elems && Equal(less, y, e)
      ensures forall x :: x in elems - {y} ==> !Equal(less, x, e)
    {
      forall x | x in elems - {y} ensures !Equal(less, x, e) {
        assert Equal(less, x, e) ==> Equal(less, x, y);
      }
    }

    /** hash_delete() */
    method Delete(e: T, allocOk: bool) returns (r: Option<T>)
      requires Valid()
      modifies this
      ensures Valid() && (allocOk && (old(Balanced()) || r.Some?) ==> Balanced())
      ensures r.Some? ==> r.value in old(elems) && Equal(less, r.value, e) && elems == old(elems) - {r.value}
      ensures r.None? ==> (forall x :: x in old(elems) ==> !Equal(less, x, e)) && elems == old(elems)
    {
      var i := FindBucket(e);
      var k := FindElem(i, e);
      r := if k.Some? then Some(buckets[i][k.value]) else None;
      if k.Some? {
        RemoveElem(i, k.value);
        Rehash(allocOk);
      }
    }

    /** Over every sequence of calls the table agrees with a set in which equal
        elements are the same; and when memory never runs out the number of
        buckets suits the number of elements throughout. */
    method Run(ops: seq<Op<T>>) returns (ghost trace: seq<set<T>>)
      requires Valid()
      modifies this
      ensures Valid() && |trace| == |ops| + 1 && trace[0] == old(elems) && trace[|ops|] == elems
      ensures Traced(less, ops, trace, |ops|)
      ensures old(Balanced()) && (forall i :: 0 <= i < |ops| ==> ops[i].allocOk) ==> Balanced()
    {
      trace := [elems];
      for i := 0 to |ops|
        invariant Valid() && |trace| == i + 1 && trace[0] == old(elems) && trace[i] == elems
        invariant Traced(less, ops, trace, i)
        invariant old(Balanced()) && (forall j :: 0 <= j < i ==> ops[j].allocOk) ==> Balanced()
      {
        Do(ops[i]);
        TracedMore(less, ops, trace, i, elems);
        trace := trace + [elems];
      }
    }

    method Do(op: Op<T>)
      requires Valid()
      modifies this
      ensures Valid() && Effect(less, op, old(elems), elems)
      ensures op.allocOk && old(Balanced()) ==> Balanced()
    {
      match op
      case DoInsert(e, allocOk) => var r := Insert(e, allocOk);
      case DoReplace(e, allocOk) => var r := Replace(e, allocOk);
      case DoDelete(e, allocOk) => var r := Delete(e, allocOk);
    }

    // ---------- Iteration ----------

    /** hash_first() and hash_next(), until they are through: every element
        comes up exactly once. */
    method Iterate() returns (out: seq<T>)
      requires Valid()
      ensures NoDup(out) && forall x :: x in out <==> x in elems
    {
      out := [];
      var i, j := 0, 0;
      while i < |buckets|
        invariant i <= |buckets| && (if i < |buckets| then j <= |buckets[i]| else j == 0)
        invariant NoDup(out)
        invariant forall x :: x in out <==> Passed(x, i, j)
        decreases |buckets| - i, if i < |buckets| then |buckets[i]| - j else 0
      {
        if j == |buckets[i]| {
          i, j := i + 1, 0;
        } else {
          ghost var x := buckets[i][j];
          assert x in buckets[i] && x !in buckets[i][..j];
          assert !Passed(x, i, j);
          assert buckets[i][..j + 1] == buckets[i][..j] + [x];
          out := out + [buckets[i][j]];
          j := j + 1;
        }
      }
      forall x ensures x in out <==> x in elems {
        assert x in elems <==> InBucket(hash, buckets, x);
      }
    }

    // The iteration is past x when it is at position j of bucket i.
    ghost predicate Passed(x: T, i: nat, j: nat)
      requires |buckets| > 0 && i <= |buckets| && (if i < |buckets| then j <= |buckets[i]| else j == 0)
      reads this
    {
      var h := hash(x) % |buckets|;
      x in buckets[h] && (h < i || (h == i && x in buckets[i][..j]))
    }
  }

  /** hash_init(): an empty table, unless there is no memory for its buckets. */
  method Init<T(==, !new)>(hash: T -> nat, less: (T, T) -> bool, allocOk: bool) returns (h: HashTable?<T>)
    requires GoodClient(hash, less)
    ensures h == null <==> !allocOk
    ensures h != null ==> fresh(h) && h.Valid() && h.elems == {} && h.hash == hash && h.less == less && h.Balanced()
  {
    if !allocOk {
      return null;
    }
    h := new HashTable(hash, less);
  }
}
