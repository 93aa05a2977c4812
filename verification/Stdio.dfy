/** lib/stdio.c: how an integer is formatted, and how formatted output is cut to
    fit a buffer. Characters are ASCII codes. */
module Stdio {
  import opened InodeIO
  import opened Numbers

  datatype Flags = Flags(minus: bool, plus: bool, space: bool, pound: bool, zero: bool, group: bool)

  datatype Base = Base(base: nat, digits: seq<Byte>, x: Byte, group: nat)

  // The characters of "0123456789", with the first 6 letters after them or not.
  function DigitChars(n: nat, letter: Byte): (r: seq<Byte>)
    requires n <= 16 && letter <= 200
    ensures |r| == n
  {
    seq<Byte>(n, i requires 0 <= i < 16 => if i < 10 then 48 + i else letter + i - 10)
  }

  const BASE_D := Base(10, DigitChars(10, 97), 0, 3)
  const BASE_O := Base(8, DigitChars(8, 97), 0, 3)
  const BASE_X := Base(16, DigitChars(16, 97), 120, 4)
  const BASE_UPPER_X := Base(16, DigitChars(16, 65), 88, 4)

  predicate GoodBase(b: Base) { 8 <= b.base == |b.digits| && b.group > 0 }

  function Fill(c: Byte, n: int): seq<Byte> { seq<Byte>(if n < 0 then 0 else n, _ => c) }

  function Reversed(s: seq<Byte>): (r: seq<Byte>)
    ensures |r| == |s|
  {
    if s == [] then [] else Reversed(s[1..]) + [s[0]]
  }

  // ---------- What is to be printed ----------

  // The digits of the value, least significant first, after cnt others; commas
  // stand between groups.
  function LowFirst(value: nat, b: Base, group: bool, cnt: nat): seq<Byte>
    requires GoodBase(b)
  {
    if value == 0 then [] else LowDigit(value, b, group, cnt) + LowFirst(value / b.base, b, group, cnt + 1)
  }

  function LowDigit(value: nat, b: Base, group: bool, cnt: nat): (r: seq<Byte>)
    requires GoodBase(b)
    ensures 1 <= |r| <= 2
  {
    (if group && cnt > 0 && cnt % b.group == 0 then [44] else []) + [b.digits[value % b.base]]
  }

  // Zeros up to the precision, as far as the buffer goes, and the zero that #
  // asks for in base 8.
  function Body(value: nat, b: Base, flags: Flags, precision: int): seq<Byte>
    requires GoodBase(b)
  {
    var r := LowFirst(value, b, flags.group, 0);
    var p := if precision < 0 then 1 else if precision > 63 then 63 else precision;
    var r' := r + Fill(48, p - |r|);
    if flags.pound && b.base == 8 && (r' == [] || r'[|r'| - 1] != 48) then r' + [48] else r'
  }

  function Sign(isSigned: bool, negative: bool, flags: Flags): seq<Byte> {
    if !isSigned then []
    else if flags.plus then [if negative then 45 else 43]
    else if flags.space then [if negative then 45 else 32]
    else if negative then [45] else []
  }

  function Prefix(value: nat, b: Base, flags: Flags): seq<Byte> {
    if flags.pound && value > 0 && b.x != 0 then [48, b.x] else []
  }

  // What comes before the digits: padding, sign, prefix, or zeros as padding.
  function Front(sign: seq<Byte>, x: seq<Byte>, flags: Flags, pad: int): seq<Byte> {
    var start := if flags.minus || flags.zero then [] else Fill(32, pad);
    if flags.zero then start + sign + x + Fill(48, pad) else start + sign + x
  }

  // The whole field.
  function Field(value: nat, isSigned: bool, negative: bool, b: Base, flags: Flags, width: nat,
                 precision: int): seq<Byte>
    requires GoodBase(b)
  {
    var sign, x, body := Sign(isSigned, negative, flags), Prefix(value, b, flags), Body(value, b, flags, precision);
    var pad := width - |body| - |x| - |sign|;
    var field := Front(sign, x, flags, pad) + Reversed(body);
    if flags.minus then field + Fill(32, pad) else field
  }

  // ---------- What a field means ----------

  // The value of a digit.
  function DigitValue(digits: seq<Byte>, c: Byte): nat {
    if digits == [] || digits[0] == c then 0 else 1 + DigitValue(digits[1..], c)
  }

  lemma {:induction false} DigitAt(digits: seq<Byte>, i: nat)
    requires i < |digits| && forall j, k :: 0 <= j < k < |digits| ==> digits[j] != digits[k]
    ensures DigitValue(digits, digits[i]) == i
  {
    if i > 0 { DigitAt(digits[1..], i - 1); }
  }

  // A base whose digits can be told from each other and from everything else in
  // a field.
  predicate Readable(b: Base) {
    && GoodBase(b) && b.digits[0] == 48 && (forall j, k :: 0 <= j < k < |b.digits| ==> b.digits[j] != b.digits[k])
    && 32 !in b.digits && 43 !in b.digits && 44 !in b.digits && 45 !in b.digits && b.x !in b.digits && b.x != 45
  }

  lemma BasesReadable()
    ensures Readable(BASE_D) && Readable(BASE_O) && Readable(BASE_X) && Readable(BASE_UPPER_X)
  {}

  /** The number that a text stands for, read from left to right, passing over
      everything that is not a digit of the base. */
  function Reading(s: seq<Byte>, b: Base): nat {
    if s == [] then 0
    else
      var c, front := s[|s| - 1], Reading(s[..|s| - 1], b);
      if c in b.digits then front * b.base + DigitValue(b.digits, c) else front
  }

  // Characters that do not change what is read after them.
  predicate Blank(s: seq<Byte>, b: Base) { forall i :: 0 <= i < |s| ==> s[i] == 48 || s[i] !in b.digits }

  lemma ReadingMore(s: seq<Byte>, c: Byte, b: Base)
    ensures Reading(s + [c], b) == if c in b.digits then Reading(s, b) * b.base + DigitValue(b.digits, c)
              else Reading(s, b)
  {
    assert (s + [c])[..|s|] == s;
  }

  lemma {:induction false} ReadingBlank(s: seq<Byte>, t: seq<Byte>, b: Base)
    requires Readable(b) && Blank(s, b)
    ensures Reading(s + t, b) == Reading(t, b)
    decreases |s| + |t|
  {
    if t != [] {
      var n := |t| - 1;
      ReadingBlank(s, t[..n], b);
      ReadingMore(s + t[..n], t[n], b);
      assert s + t == (s + t[..n]) + [t[n]];
    } else if s != [] {
      var n := |s| - 1;
      ReadingBlank(s[..n], [], b);
      assert s[..n] + [] == s[..n] && s + [] == s;
    }
  }

  lemma {:induction false} ReadingSpaces(s: seq<Byte>, n: int, b: Base)
    requires Readable(b)
    ensures Reading(s + Fill(32, n), b) == Reading(s, b)
    decreases n
  {
    if n > 0 {
      ReadingSpaces(s, n - 1, b);
      ReadingMore(s + Fill(32, n - 1), 32, b);
      assert s + Fill(32, n) == (s + Fill(32, n - 1)) + [32];
    } else {
      assert s + Fill(32, n) == s;
    }
  }

  lemma {:induction false} ReversedJoin(s: seq<Byte>, t: seq<Byte>)
    ensures Reversed(s + t) == Reversed(t) + Reversed(s)
  {
    if s == [] {
      assert s + t == t;
    } else {
      assert (s + t)[1..] == s[1..] + t;
      ReversedJoin(s[1..], t);
    }
  }

  lemma {:induction false} ReversedHas(s: seq<Byte>, c: Byte)
    ensures c in Reversed(s) <==> c in s
  {
    if s != [] {
      ReversedHas(s[1..], c);
      assert s == [s[0]] + s[1..];
    }
  }

  lemma Divided(v: nat, base: nat)
    requires v > 0 && base >= 8
    ensures 0 <= v / base < v && v == (v / base) * base + v % base && 0 <= v % base < base
  {
    QuotientBounds(v, base);
    MulMono(8, base, v / base);
  }

  // One digit, with the comma before it or without, as it is output.
  lemma DigitRead(s: seq<Byte>, value: nat, b: Base, group: bool, cnt: nat)
    requires Readable(b)
    ensures Reading(s + Reversed(LowDigit(value, b, group, cnt)), b) == Reading(s, b) * b.base + value % b.base
  {
    var c := b.digits[value % b.base];
    DigitAt(b.digits, value % b.base);
    ReadingMore(s, c, b);
    ReadingMore(s + [c], 44, b);
    if group && cnt > 0 && cnt % b.group == 0 {
      assert LowDigit(value, b, group, cnt) == [44] + [c];
      ReversedJoin([44], [c]);
      assert s + Reversed([44] + [c]) == (s + [c]) + [44];
    }
  }

  /** Reading the digits back, whatever the grouping, gives the value. */
  lemma {:induction false} DigitsMean(value: nat, b: Base, group: bool, cnt: nat)
    requires Readable(b)
    ensures Reading(Reversed(LowFirst(value, b, group, cnt)), b) == value
    decreases value
  {
    if value > 0 {
      Divided(value, b.base);
      DigitsMean(value / b.base, b, group, cnt + 1);
      var rest := LowFirst(value / b.base, b, group, cnt + 1);
      ReversedJoin(LowDigit(value, b, group, cnt), rest);
      DigitRead(Reversed(rest), value, b, group, cnt);
    }
  }

  lemma {:induction false} ReversedZeros(n: nat)
    ensures Reversed(Fill(48, n)) == Fill(48, n)
  {
    if n > 0 {
      assert Fill(48, n)[1..] == Fill(48, n - 1);
      ReversedZeros(n - 1);
    }
  }

  // The body is the digits and so many zeros.
  lemma BodyZeros(value: nat, b: Base, flags: Flags, precision: int) returns (n: nat)
    requires GoodBase(b)
    ensures Body(value, b, flags, precision) == LowFirst(value, b, flags.group, 0) + Fill(48, n)
  {
    var r := LowFirst(value, b, flags.group, 0);
    n := |Body(value, b, flags, precision)| - |r|;
  }

  lemma BodyMeans(value: nat, b: Base, flags: Flags, precision: int)
    requires Readable(b)
    ensures Reading(Reversed(Body(value, b, flags, precision)), b) == value
  {
    var r := LowFirst(value, b, flags.group, 0);
    var n := BodyZeros(value, b, flags, precision);
    var zeros := Fill(48, n);
    DigitsMean(value, b, flags.group, 0);
    ReversedJoin(r, zeros);
    ReversedZeros(n);
    ReadingBlank(zeros, Reversed(r), b);
  }

  lemma BlankJoin(s: seq<Byte>, t: seq<Byte>, b: Base)
    requires Blank(s, b) && Blank(t, b)
    ensures Blank(s + t, b)
  {}

  lemma FrontBlank(value: nat, isSigned: bool, negative: bool, b: Base, flags: Flags, pad: int)
    requires Readable(b)
    ensures Blank(Front(Sign(isSigned, negative, flags), Prefix(value, b, flags), flags, pad), b)
  {
    var sign, x := Sign(isSigned, negative, flags), Prefix(value, b, flags);
    var start := if flags.minus || flags.zero then [] else Fill(32, pad);
    BlankJoin(start, sign, b);
    BlankJoin(start + sign, x, b);
    BlankJoin(start + sign + x, Fill(48, pad), b);
  }

  /** Read as a whole, with its padding, sign, prefix and commas, a field stands
      for the value that was printed. */
  lemma FieldMeans(value: nat, isSigned: bool, negative: bool, b: Base, flags: Flags, width: nat, precision: int)
    requires Readable(b)
    ensures Reading(Field(value, isSigned, negative, b, flags, width, precision), b) == value
  {
    var sign, x, body := Sign(isSigned, negative, flags), Prefix(value, b, flags), Body(value, b, flags, precision);
    var pad := width - |body| - |x| - |sign|;
    var front := Front(sign, x, flags, pad);
    FrontBlank(value, isSigned, negative, b, flags, pad);
    BodyMeans(value, b, flags, precision);
    ReadingBlank(front, Reversed(body), b);
    ReadingSpaces(front + Reversed(body), pad, b);
  }

  // The least room a field needs.
  function Core(value: nat, isSigned: bool, negative: bool, b: Base, flags: Flags, precision: int): nat
    requires GoodBase(b)
  {
    |Sign(isSigned, negative, flags)| + |Prefix(value, b, flags)| + |Body(value, b, flags, precision)|
  }

  /** A field is as wide as asked for, or as it has to be, if and only if padding
      goes on one side only. */
  lemma FieldWidth(value: nat, isSigned: bool, negative: bool, b: Base, flags: Flags, width: nat, precision: int)
    requires GoodBase(b)
    ensures var n, out := Core(value, isSigned, negative, b, flags, precision),
                          Field(value, isSigned, negative, b, flags, width, precision);
            |out| == (if n < width then width else n) <==> !(flags.minus && flags.zero && n < width)
  {}

  lemma {:induction false} LowPlain(value: nat, b: Base, group: bool, cnt: nat)
    requires Readable(b)
    ensures 45 !in LowFirst(value, b, group, cnt)
    decreases value
  {
    if value > 0 {
      Divided(value, b.base);
      LowPlain(value / b.base, b, group, cnt + 1);
      assert b.digits[value % b.base] in b.digits;
    }
  }

  /** A field has a minus sign in it if and only if a negative number was printed. */
  lemma FieldSign(value: nat, isSigned: bool, negative: bool, b: Base, flags: Flags, width: nat, precision: int)
    requires Readable(b)
    ensures 45 in Field(value, isSigned, negative, b, flags, width, precision) <==> isSigned && negative
  {
    var sign, x, body := Sign(isSigned, negative, flags), Prefix(value, b, flags), Body(value, b, flags, precision);
    LowPlain(value, b, flags.group, 0);
    assert 45 !in body;
    ReversedHas(body, 45);
    assert 45 !in x;
    var pad := width - |body| - |x| - |sign|;
    assert 45 !in Fill(48, pad) && 45 !in Fill(32, pad);
    assert 45 in Front(sign, x, flags, pad) <==> 45 in sign;
  }

  // ---------- What a field looks like ----------

  /** From left to right: spaces, sign, prefix, zeros, digits, spaces. Padding is
      spaces on the left, or zeros, or spaces on the right, as the flags say. */
  lemma FieldShape(value: nat, isSigned: bool, negative: bool, b: Base, flags: Flags, width: nat, precision: int)
    requires GoodBase(b)
    ensures var sign, x, body := Sign(isSigned, negative, flags), Prefix(value, b, flags),
              Body(value, b, flags, precision);
            var n := |sign| + |x| + |body|;
            var pad := if width > n then width - n else 0;
            Field(value, isSigned, negative, b, flags, width, precision) ==
              Fill(32, if !flags.minus && !flags.zero then pad else 0) + sign + x
              + Fill(48, if flags.zero then pad else 0) + Reversed(body) + Fill(32, if flags.minus then pad else 0)
  {
    var sign, x, body := Sign(isSigned, negative, flags), Prefix(value, b, flags), Body(value, b, flags, precision);
    var pad := width - |body| - |x| - |sign|;
    FrontShape(sign, x, flags, pad, if pad > 0 then pad else 0);
  }

  lemma FrontShape(sign: seq<Byte>, x: seq<Byte>, flags: Flags, pad: int, n: nat)
    requires n == if pad > 0 then pad else 0
    ensures Front(sign, x, flags, pad) ==
            Fill(32, if !flags.minus && !flags.zero then n else 0) + sign + x + Fill(48, if flags.zero then n else 0)
    ensures Fill(32, pad) == Fill(32, n)
  {
    assert Fill(32, 0) == [] && Fill(48, 0) == [] && Fill(48, pad) == Fill(48, n);
  }

  /** The sign is a minus, a plus or a space, or nothing; the prefix is a zero and
      the base's letter, for a value that is not zero. */
  lemma SignAndPrefix(value: nat, isSigned: bool, negative: bool, b: Base, flags: Flags)
    ensures isSigned && negative ==> Sign(isSigned, negative, flags) == [45]
    ensures isSigned && !negative && flags.plus ==> Sign(isSigned, negative, flags) == [43]
    ensures isSigned && !negative && !flags.plus && flags.space ==> Sign(isSigned, negative, flags) == [32]
    ensures !isSigned || (!negative && !flags.plus && !flags.space) ==> Sign(isSigned, negative, flags) == []
    ensures Prefix(value, b, flags) == if flags.pound && value != 0 && b.x != 0 then [48, b.x] else []
  {}

  /** As many digits as the value has, or zeros up to the precision; with '#' an
      octal number begins with a zero. */
  lemma BodyLength(value: nat, b: Base, flags: Flags, precision: int)
    requires GoodBase(b)
    ensures var d, n := |LowFirst(value, b, flags.group, 0)|, |Body(value, b, flags, precision)|;
            var p := if precision < 0 then 1 else if precision > 63 then 63 else precision;
            && n >= d && n >= p && n <= (if d < p then p else d) + 1
            && (!(flags.pound && b.base == 8) ==> n == if d < p then p else d)
            && (flags.pound && b.base == 8 ==> n > 0 && Body(value, b, flags, precision)[n - 1] == 48)
  {}

  /** The digits of a value do not begin with a zero. */
  lemma {:induction false} NoLeadingZero(value: nat, b: Base, group: bool, cnt: nat)
    requires Readable(b) && value > 0
    ensures var r := LowFirst(value, b, group, cnt); |r| > 0 && r[|r| - 1] in b.digits && r[|r| - 1] != 48
    decreases value
  {
    Divided(value, b.base);
    var c := b.digits[value % b.base];
    assert c in b.digits;
    if value / b.base > 0 {
      NoLeadingZero(value / b.base, b, group, cnt + 1);
    } else {
      assert value % b.base == value > 0;
    }
  }

  // Digits, lowest first, with a comma after the first k and after every g more.
  function WithCommas(s: seq<Byte>, k: nat, g: nat): seq<Byte>
    requires 0 < k && 0 < g
    decreases |s|
  {
    if |s| <= k then s else s[..k] + [44] + WithCommas(s[k..], g, g)
  }

  lemma CommasNext(c: Byte, s: seq<Byte>, k: nat, g: nat)
    requires 0 < k && 0 < g
    ensures WithCommas([c] + s, k, g) == [c] + if k > 1 then WithCommas(s, k - 1, g)
                                               else if s == [] then [] else [44] + WithCommas(s, g, g)
  {
    if k > 1 && |s| > k - 1 {
      assert ([c] + s)[..k] == [c] + s[..k - 1] && ([c] + s)[k..] == s[k - 1..];
    } else if k == 1 && s != [] {
      assert ([c] + s)[..1] == [c] && ([c] + s)[1..] == s;
    }
  }

  lemma ModNext(cnt: nat, g: nat)
    requires 0 < g
    ensures (cnt + 1) % g == if cnt % g + 1 == g then 0 else cnt % g + 1
  {
    QuotientBounds(cnt, g);
    var q := cnt / g;
    if cnt % g + 1 == g {
      assert cnt + 1 == (q + 1) * g;
      ModUnique(cnt + 1, g, q + 1, 0);
    } else {
      ModUnique(cnt + 1, g, q, cnt % g + 1);
    }
  }

  /** Commas stand between groups of digits, counted from the right, and nowhere
      else. */
  lemma Commas(value: nat, b: Base)
    requires GoodBase(b)
    ensures LowFirst(value, b, true, 0) == WithCommas(LowFirst(value, b, false, 0), b.group, b.group)
  {
    ModUnique(0, b.group, 0, 0);
    CommasFrom(value, b, 0, 0);
  }

  lemma CommaStep(c: Byte, grouped: seq<Byte>, rest: seq<Byte>, r: nat, g: nat)
    requires r < g
    requires grouped == if r + 1 == g then (if rest == [] then [] else [44]) + WithCommas(rest, g, g)
                        else WithCommas(rest, g - (r + 1), g)
    ensures [c] + grouped == WithCommas([c] + rest, g - r, g)
  {
    CommasNext(c, rest, g - r, g);
  }

  // The digits from the (cnt + 1)-th on, without the comma before them.
  function After(value: nat, b: Base, cnt: nat): seq<Byte>
    requires GoodBase(b)
  {
    if value == 0 then [] else [b.digits[value % b.base]] + LowFirst(value / b.base, b, true, cnt + 1)
  }

  lemma {:induction false} CommasFrom(value: nat, b: Base, cnt: nat, r: nat)
    requires GoodBase(b) && r == cnt % b.group && r < b.group
    ensures After(value, b, cnt) == WithCommas(LowFirst(value, b, false, cnt), b.group - r, b.group)
    decreases value
  {
    if value > 0 {
      Divided(value, b.base);
      ModNext(cnt, b.group);
      var v, r' := value / b.base, (cnt + 1) % b.group;
      CommasFrom(v, b, cnt + 1, r');
      var rest := LowFirst(v, b, false, cnt + 1);
      LowEmpty(v, b, cnt + 1);
      assert LowFirst(v, b, true, cnt + 1) == (if r' == 0 && v > 0 then [44] else []) + After(v, b, cnt + 1);
      LowPlainDigit(value, b, cnt);
      CommaStep(b.digits[value % b.base], LowFirst(v, b, true, cnt + 1), rest, r, b.group);
    } else {
      assert LowFirst(value, b, false, cnt) == [];
    }
  }

  lemma LowPlainDigit(value: nat, b: Base, cnt: nat)
    requires GoodBase(b) && value > 0
    ensures LowFirst(value, b, false, cnt) == [b.digits[value % b.base]] + LowFirst(value / b.base, b, false, cnt + 1)
  {
    assert LowDigit(value, b, false, cnt) == [b.digits[value % b.base]];
  }

  lemma LowEmpty(value: nat, b: Base, cnt: nat)
    requires GoodBase(b)
    ensures LowFirst(value, b, false, cnt) == [] <==> value == 0
  {}

  // ---------- format_integer() ----------

  // The largest value left after k divisions by 8.
  function Cap(k: nat): nat { if k == 0 then 0xFFFF_FFFF_FFFF_FFFF else Cap(k - 1) / 8 }

  lemma CapShrinks(k: nat)
    requires k >= 22
    ensures Cap(k) == 0
    decreases k
  {
    if k == 22 {
      assert Cap(4) == 0xF_FFFF_FFFF_FFFF;
      assert Cap(8) == 0xFF_FFFF_FFFF;
      assert Cap(12) == 0xFFF_FFFF;
      assert Cap(16) == 0xFFFF;
      assert Cap(20) == 0xF;
    } else {
      CapShrinks(k - 1);
    }
  }

  lemma CapStep(value: nat, k: nat, base: nat)
    requires value <= Cap(k) && base >= 8
    ensures 0 <= value / base <= Cap(k + 1) && (value > 0 ==> value / base < value)
  {
    QuotientAntitone(value, 8, base);
    QuotientMono(value, Cap(k), 8);
    QuotientBounds(value, base);
  }

  lemma {:induction false} LowLength(value: nat, b: Base, group: bool, cnt: nat, k: nat)
    requires GoodBase(b) && value <= Cap(k) && k <= 22
    ensures |LowFirst(value, b, group, cnt)| <= 2 * (22 - k)
    decreases value
  {
    if value > 0 {
      if k == 22 { CapShrinks(k); }
      CapStep(value, k, b.base);
      LowLength(value / b.base, b, group, cnt + 1, k + 1);
    }
  }

  /** There are as many digits as the precision asks for if and only if it asks
      for at most 63, which is what the buffer holds. */
  lemma PrecisionMet(value: nat, b: Base, flags: Flags, precision: int)
    requires GoodBase(b) && value <= 0xFFFF_FFFF_FFFF_FFFF
    ensures |Body(value, b, flags, precision)| >= precision <==> precision <= 63
  {
    LowLength(value, b, flags.group, 0, 0);
  }

  lemma LowMore(front: seq<Byte>, v: nat, b: Base, group: bool, cnt: nat)
    requires GoodBase(b) && v > 0
    ensures front + LowFirst(v, b, group, cnt) ==
              (front + LowDigit(v, b, group, cnt)) + LowFirst(v / b.base, b, group, cnt + 1)
  {}

  method PutDigit(value: nat, b: Base, group: bool, cnt: nat, buf: array<Byte>, cp: nat) returns (next: nat)
    requires GoodBase(b) && cp + 2 <= buf.Length
    modifies buf
    ensures next == cp + |LowDigit(value, b, group, cnt)| && next <= buf.Length
    ensures buf[..next] == old(buf[..cp]) + LowDigit(value, b, group, cnt)
  {
    next := cp;
    if group && cnt > 0 && cnt % b.group == 0 {
      buf[next] := 44;
      next := next + 1;
    }
    buf[next] := b.digits[value % b.base];
    next := next + 1;
  }

  // The first loop: digits go into the buffer, which has room for them.
  method PutDigits(value: nat, b: Base, group: bool, buf: array<Byte>) returns (cp: nat)
    requires GoodBase(b) && value <= 0xFFFF_FFFF_FFFF_FFFF && buf.Length == 64
    modifies buf
    ensures cp <= 44 && buf[..cp] == LowFirst(value, b, group, 0)
  {
    cp := 0;
    var v: nat, digitCnt := value, 0;
    while v > 0
      invariant v <= Cap(digitCnt) && cp <= 2 * digitCnt && digitCnt <= 22
      invariant buf[..cp] + LowFirst(v, b, group, digitCnt) == LowFirst(value, b, group, 0)
      decreases v
    {
      if digitCnt >= 22 { CapShrinks(digitCnt); }
      CapStep(v, digitCnt, b.base);
      LowMore(buf[..cp], v, b, group, digitCnt);
      cp := PutDigit(v, b, group, digitCnt, buf, cp);
      v := v / b.base;
      digitCnt := digitCnt + 1;
    }
  }

  // The second loop and the # flag: the buffer holds the whole body, and
  // never more than its 64 characters.
  method PutBody(value: nat, b: Base, flags: Flags, precision: int, buf: array<Byte>) returns (cp: nat)
    requires GoodBase(b) && value <= 0xFFFF_FFFF_FFFF_FFFF && buf.Length == 64
    modifies buf
    ensures cp <= 64 && buf[..cp] == Body(value, b, flags, precision)
  {
    cp := PutDigits(value, b, flags.group, buf);
    ghost var r := buf[..cp];
    var p := if precision < 0 then 1 else precision;
    while cp < p && cp < 63
      invariant |r| <= cp <= 63 && (cp == |r| || cp <= p)
      invariant buf[..cp] == r + Fill(48, cp - |r|)
      decreases 63 - cp
    {
      buf[cp] := 48;
      cp := cp + 1;
    }
    if flags.pound && b.base == 8 && (cp == 0 || buf[cp - 1] != 48) {
      buf[cp] := 48;
      cp := cp + 1;
    }
  }

  /** format_integer(): what it outputs, character by character, is the field. It
      reads as the value, has a minus sign exactly for a negative number, and is
      as wide as asked for or as it has to be. The flags '-' and '0' come
      together only if the caller does not clear the second, as the parser of
      conversions does. */
  method FormatInteger(value: nat, isSigned: bool, negative: bool, b: Base, flags: Flags, width: nat, precision: int)
    returns (out: seq<Byte>)
    requires GoodBase(b) && value <= 0xFFFF_FFFF_FFFF_FFFF
    ensures out == Field(value, isSigned, negative, b, flags, width, precision)
    ensures Readable(b) ==> Reading(out, b) == value && (45 in out <==> isSigned && negative)
    ensures var n := Core(value, isSigned, negative, b, flags, precision);
            |out| == (if n < width then width else n) <==> !(flags.minus && flags.zero && n < width)
  {
    out := PutField(value, isSigned, negative, b, flags, width, precision);
    FieldWidth(value, isSigned, negative, b, flags, width, precision);
    if Readable(b) {
      FieldMeans(value, isSigned, negative, b, flags, width, precision);
      FieldSign(value, isSigned, negative, b, flags, width, precision);
    }
  }

  method PutField(value: nat, isSigned: bool, negative: bool, b: Base, flags: Flags, width: nat, precision: int)
    returns (out: seq<Byte>)
    requires GoodBase(b) && value <= 0xFFFF_FFFF_FFFF_FFFF
    ensures out == Field(value, isSigned, negative, b, flags, width, precision)
  {
    var sign := Sign(isSigned, negative, flags);
    var x := Prefix(value, b, flags);
    var buf := new Byte[64];
    var cp := PutBody(value, b, flags, precision, buf);
    var padCnt := width - cp - |x| - |sign|;
    out := if flags.minus || flags.zero then [] else Fill(32, padCnt);
    out := out + sign + x;
    if flags.zero {
      out := out + Fill(48, padCnt);
    }
    out := Emit(out, buf, cp);
    if flags.minus {
      out := out + Fill(32, padCnt);
    }
  }

  // The buffer's characters are output last first.
  method Emit(front: seq<Byte>, buf: array<Byte>, cnt: nat) returns (out: seq<Byte>)
    requires cnt <= buf.Length
    ensures out == front + Reversed(buf[..cnt])
  {
    out := front;
    ghost var body := buf[..cnt];
    var cp := cnt;
    while cp > 0
      invariant cp <= cnt
      invariant out == front + Reversed(body[cp..])
    {
      cp := cp - 1;
      ReversedMore(body, cp);
      out := out + [buf[cp]];
    }
    assert body[0..] == body;
  }

  lemma ReversedMore(s: seq<Byte>, k: nat)
    requires k < |s|
    ensures Reversed(s[k..]) == Reversed(s[k + 1..]) + [s[k]]
  {
    assert s[k..][1..] == s[k + 1..];
  }

  // ---------- vsnprintf() ----------

  /** vsnprintf(): the output, cut to leave room for the null byte, and the
      length it would have had. */
  method Vsnprintf(bufSize: nat, output: seq<Byte>) returns (buffer: seq<Byte>, length: nat)
    ensures length == |output|
    ensures bufSize == 0 ==> buffer == []
    ensures bufSize > 0 ==> buffer == (if |output| < bufSize then output else output[..bufSize - 1]) + [0]
  {
    var maxLength := if bufSize > 0 then bufSize - 1 else 0;
    buffer, length := [], 0;
    for i := 0 to |output|
      invariant length == i && buffer == output[..if i < maxLength then i else maxLength]
    {
      if length < maxLength {
        buffer := buffer + [output[i]];
      }
      length := length + 1;
    }
    if bufSize > 0 {
      buffer := buffer + [0];
    }
  }
}
