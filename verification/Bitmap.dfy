/** lib/kernel/bitmap.c: a bitmap packed into 32-bit words, with a first-fit
    scan for runs of equal bits. */
module Bitmap {
  import opened Bits
  import opened Sequences

  type Word = w: nat | w < 0x1_0000_0000

  const ELEM_BITS := 32

  // ---------- First fit, on plain sequences of bits ----------

  // The cnt bits from i on all have the given value.
  predicate RunAt(s: seq<bool>, i: nat, cnt: nat, value: bool) {
    i + cnt <= |s| && forall k :: i <= k < i + cnt ==> s[k] == value
  }

  /** The lowest place at or after `start` where cnt bits all have the value. */
  function FirstFit(s: seq<bool>, start: nat, cnt: nat, value: bool): (r: Option<nat>)
    decreases |s| - start
  {
    if start + cnt > |s| then None
    else if RunAt(s, start, cnt, value) then Some(start)
    else if start == |s| then None
    else FirstFit(s, start + 1, cnt, value)
  }

  /** First fit finds a run whenever there is one, and the lowest one. */
  lemma {:induction false} FirstFitLowest(s: seq<bool>, start: nat, cnt: nat, value: bool)
    ensures match FirstFit(s, start, cnt, value)
            case Some(i) => start <= i && RunAt(s, i, cnt, value)
                            && forall j :: start <= j < i ==> !RunAt(s, j, cnt, value)
            case None => forall j :: start <= j ==> !RunAt(s, j, cnt, value)
    decreases |s| - start
  {
    if start + cnt <= |s| && !RunAt(s, start, cnt, value) && start != |s| {
      FirstFitLowest(s, start + 1, cnt, value);
    }
  }

  /** A run of no bits is found where the search starts. */
  lemma FirstFitNothing(s: seq<bool>, start: nat, value: bool)
    requires start <= |s|
    ensures FirstFit(s, start, 0, value) == Some(start)
  {}

  function Filled(s: seq<bool>, start: nat, cnt: nat, value: bool): (r: seq<bool>)
    requires start + cnt <= |s|
    ensures |r| == |s|
    ensures forall k :: 0 <= k < |s| ==> r[k] == if start <= k < start + cnt then value else s[k]
  {
    s[..start] + seq(cnt, _ => value) + s[start + cnt..]
  }

  lemma FilledStep(s: seq<bool>, start: nat, cnt: nat, value: bool)
    requires start + cnt < |s|
    ensures Filled(s, start, cnt, value)[start + cnt := value] == Filled(s, start, cnt + 1, value)
  {}

  lemma FillUndone(s: seq<bool>, i: nat, cnt: nat, value: bool)
    requires RunAt(s, i, cnt, value)
    ensures RunAt(Filled(s, i, cnt, !value), i, cnt, !value)
    ensures Filled(Filled(s, i, cnt, !value), i, cnt, value) == s
  {}

  // ---------- The packed form ----------

  lemma Pow2Of32()
    ensures Pow2(32) == 0x1_0000_0000
  {
    Pow2Sum(4, 4);
    Pow2Sum(8, 8);
    Pow2Sum(16, 16);
  }

  lemma {:induction false} Pow2Sum(a: nat, b: nat)
    ensures Pow2(a + b) == Pow2(a) * Pow2(b)
  {
    if a > 0 { Pow2Sum(a - 1, b); }
  }

  lemma MaskFits(k: nat)
    requires k < 32
    ensures Pow2(k) < 0x1_0000_0000
  {
    Pow2Of32();
    Pow2Monotone(k, 32);
  }

  // bit_mask(): a word with only the bit that stands for bitIdx.
  function BitMask(bitIdx: nat): Word {
    MaskFits(bitIdx % ELEM_BITS);
    Pow2(bitIdx % ELEM_BITS)
  }

  lemma SameBit(i: nat, j: nat)
    ensures i / ELEM_BITS == j / ELEM_BITS && i % ELEM_BITS == j % ELEM_BITS <==> i == j
  {}

  class BitArray {
    const bitCnt: nat
    const bits: array<Word>

    ghost predicate Valid()
      reads this
    {
      bits.Length == (bitCnt + 31) / ELEM_BITS
    }

    // The bits the words stand for.
    ghost function View(): (s: seq<bool>)
      requires Valid()
      reads this, bits
      ensures |s| == bitCnt
    {
      seq(bitCnt, i requires 0 <= i < bitCnt reads this, bits requires Valid() =>
            Bit(bits[i / ELEM_BITS], i % ELEM_BITS))
    }

    constructor (n: nat)
      ensures Valid() && bitCnt == n && fresh(bits)
      ensures View() == seq(n, _ => false)
    {
      bitCnt := n;
      bits := new Word[(n + 31) / ELEM_BITS](_ => 0);
      new;
      forall i | 0 <= i < n ensures !Bit(bits[i / ELEM_BITS], i % ELEM_BITS) { BitZero(i % ELEM_BITS); }
    }

    /** bitmap_mark(): one OR into one word. */
    method Mark(bitIdx: nat)
      requires Valid() && bitIdx < bitCnt
      modifies bits
      ensures View() == old(View())[bitIdx := true]
    {
      var idx, mask := bitIdx / ELEM_BITS, BitMask(bitIdx);
      ghost var w := bits[idx];
      Pow2Of32();
      OrBound(w, mask, 32);
      bits[idx] := Or(bits[idx], mask);
      forall i | 0 <= i < bitCnt ensures View()[i] == if i == bitIdx then true else old(View())[i] {
        SameBit(i, bitIdx);
        BitOr(w, mask, i % ELEM_BITS);
        BitPow2(bitIdx % ELEM_BITS, i % ELEM_BITS);
      }
    }

    /** bitmap_reset(): one AND with the complement of the mask. */
    method Reset(bitIdx: nat)
      requires Valid() && bitIdx < bitCnt
      modifies bits
      ensures View() == old(View())[bitIdx := false]
    {
      var idx, mask := bitIdx / ELEM_BITS, BitMask(bitIdx);
      ghost var w := bits[idx];
      AndNotBound(w, mask);
      bits[idx] := AndNot(bits[idx], mask);
      forall i | 0 <= i < bitCnt ensures View()[i] == if i == bitIdx then false else old(View())[i] {
        SameBit(i, bitIdx);
        BitAndNot(w, mask, i % ELEM_BITS);
        BitPow2(bitIdx % ELEM_BITS, i % ELEM_BITS);
      }
    }

    method Test(idx: nat) returns (b: bool)
      requires Valid() && idx < bitCnt
      ensures b == View()[idx]
    {
      MaskTests(bits[idx / ELEM_BITS], idx % ELEM_BITS);
      b := And(bits[idx / ELEM_BITS], BitMask(idx)) != 0;
    }

    method SetMultiple(start: nat, cnt: nat, value: bool)
      requires Valid() && start + cnt <= bitCnt
      modifies bits
      ensures View() == Filled(old(View()), start, cnt, value)
    {
      ghost var s := View();
      assert Filled(s, start, 0, value) == s;
      for i := 0 to cnt
        invariant View() == Filled(s, start, i, value)
      {
        FilledStep(s, start, i, value);
        if value {
          Mark(start + i);
        } else {
          Reset(start + i);
        }
      }
    }

    method Contains(start: nat, cnt: nat, value: bool) returns (b: bool)
      requires Valid() && start + cnt <= bitCnt
      ensures b <==> !RunAt(View(), start, cnt, !value)
    {
      for i := 0 to cnt
        invariant RunAt(View(), start, i, !value)
      {
        var t := Test(start + i);
        if t == value {
          assert View()[start + i] == value;
          return true;
        }
      }
      return false;
    }

    /** bitmap_scan() */
    method Scan(start: nat, cnt: nat, value: bool) returns (r: Option<nat>)
      requires Valid() && start <= bitCnt
      ensures r == FirstFit(View(), start, cnt, value)
    {
      if cnt <= bitCnt {
        var last := bitCnt - cnt;
        var i := start;
        while i <= last
          invariant start <= i
          invariant FirstFit(View(), i, cnt, value) == FirstFit(View(), start, cnt, value)
          decreases last + 1 - i
        {
          var found := Contains(i, cnt, !value);
          if !found {
            return Some(i);
          }
          i := i + 1;
        }
      }
      return None;
    }

    /** bitmap_scan_and_flip(): the lowest run of cnt bits with the value, if
        there is one, is flipped; nothing else changes. */
    method ScanAndFlip(start: nat, cnt: nat, value: bool) returns (r: Option<nat>)
      requires Valid() && start <= bitCnt
      modifies bits
      ensures r == FirstFit(old(View()), start, cnt, value)
      ensures r.Some? ==> r.value + cnt <= bitCnt && View() == Filled(old(View()), r.value, cnt, !value)
      ensures r.None? ==> View() == old(View())
    {
      r := Scan(start, cnt, value);
      if r.Some? {
        FirstFitLowest(View(), start, cnt, value);
        SetMultiple(r.value, cnt, !value);
      }
    }
  }
}
