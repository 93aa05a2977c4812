/** lib/ustar.c: headers of ustar archives, as in "ustar Interchange Format" of
    the pax utility in SUSv3. */
module Ustar {
  import opened Sequences
  import opened InodeIO
  import opened FsFormat
  import opened Stdio

  // ---------- File names ----------

  predicate StartsWith(name: seq<Byte>, p: seq<Byte>) { |p| <= |name| && name[..|p|] == p }

  // "/", "./" and "../"
  predicate Antisocial(name: seq<Byte>) {
    StartsWith(name, [47]) || StartsWith(name, [46, 47]) || StartsWith(name, [46, 46, 47])
  }

  // What follows the first slash.
  function AfterSlash(name: seq<Byte>): (r: seq<Byte>)
    requires 47 in name
    ensures |r| < |name| && forall c :: c in r ==> c in name
  {
    if name[0] == 47 then name[1..] else AfterSlash(name[1..])
  }

  lemma AntisocialHasSlash(name: seq<Byte>)
    requires Antisocial(name)
    ensures 47 in name
  {
    if StartsWith(name, [47]) { assert name[..1][0] == 47; assert name[0] == 47; }
    else if StartsWith(name, [46, 47]) { assert name[..2][1] == 47; assert name[1] == 47; }
    else { assert name[..3][2] == 47; assert name[2] == 47; }
  }

  function DropPrefixes(name: seq<Byte>): (r: seq<Byte>)
    ensures !Antisocial(r) && forall c :: c in r ==> c in name
    decreases |name|
  {
    if Antisocial(name) then AntisocialHasSlash(name); DropPrefixes(AfterSlash(name)) else name
  }

  function Strip(name: seq<Byte>): seq<Byte> {
    var r := DropPrefixes(name);
    if r == [] || r == [46, 46] then [46] else r
  }

  /** strip_antisocial_prefixes() */
  method StripAntisocialPrefixes(fileName: seq<Byte>) returns (r: seq<Byte>)
    ensures r == Strip(fileName)
  {
    r := fileName;
    while Antisocial(r)
      invariant DropPrefixes(r) == DropPrefixes(fileName)
      decreases |r|
    {
      AntisocialHasSlash(r);
      r := AfterSlash(r);
    }
    if r == [] || r == [46, 46] {
      r := [46];
    }
  }

  /** A stripped name is not empty, not "..", and starts with none of the
      prefixes; stripping it again changes nothing. */
  lemma StripSafe(name: seq<Byte>)
    ensures Strip(name) != [] && Strip(name) != [46, 46] && !Antisocial(Strip(name))
    ensures Strip(Strip(name)) == Strip(name)
    ensures CString(name) ==> CString(Strip(name))
  {
    var dot: seq<Byte> := [46];
    assert dot[..1][0] != 47 && !Antisocial(dot);
    var r := DropPrefixes(name);
    if CString(name) {
      forall i | 0 <= i < |r| ensures r[i] != 0 { assert r[i] in r; }
    }
  }

  // Nothing but "/", "./" and "../".
  predicate OnlyPrefixes(p: seq<Byte>) {
    || p == []
    || (StartsWith(p, [47]) && OnlyPrefixes(p[1..]))
    || (StartsWith(p, [46, 47]) && OnlyPrefixes(p[2..]))
    || (StartsWith(p, [46, 46, 47]) && OnlyPrefixes(p[3..]))
  }

  predicate IsPrefix(p: seq<Byte>) { p == [47] || p == [46, 47] || p == [46, 46, 47] }

  // The first such prefix, and what is left without it.
  lemma FirstPrefix(name: seq<Byte>) returns (p: seq<Byte>)
    requires Antisocial(name)
    ensures IsPrefix(p) && |p| <= |name| && name[..|p|] == p && 47 in name && AfterSlash(name) == name[|p|..]
  {
    AntisocialHasSlash(name);
    if StartsWith(name, [47]) {
      p := [47];
      assert name[0] == name[..1][0];
    } else if StartsWith(name, [46, 47]) {
      p := [46, 47];
      assert name[0] == name[..2][0] && name[1] == name[..2][1];
      assert AfterSlash(name[1..]) == name[1..][1..] == name[2..];
    } else {
      p := [46, 46, 47];
      assert name[0] == name[..3][0] && name[1] == name[..3][1] && name[2] == name[..3][2];
      assert name[1..][1..] == name[2..] && name[2..][1..] == name[3..];
      assert AfterSlash(name[1..]) == AfterSlash(name[2..]);
    }
  }

  lemma OnePrefixMore(p: seq<Byte>, q: seq<Byte>)
    requires IsPrefix(p) && OnlyPrefixes(q)
    ensures OnlyPrefixes(p + q)
  {
    assert (p + q)[..|p|] == p && (p + q)[|p|..] == q;
  }

  lemma {:induction false} DropsOnlyPrefixes(name: seq<Byte>) returns (k: nat)
    ensures k <= |name| && OnlyPrefixes(name[..k]) && DropPrefixes(name) == name[k..]
    decreases |name|
  {
    k := 0;
    if Antisocial(name) {
      var p := FirstPrefix(name);
      var rest := name[|p|..];
      var j := DropsOnlyPrefixes(rest);
      k := |p| + j;
      OnePrefixMore(p, rest[..j]);
      assert name[..k] == p + rest[..j] && rest[j..] == name[k..];
    }
  }

  /** Stripping takes off nothing but such prefixes: what is left is the rest of
      the name, or "." in place of an empty rest or of "..". */
  lemma StripSuffix(name: seq<Byte>) returns (k: nat)
    ensures k <= |name| && OnlyPrefixes(name[..k]) && !Antisocial(name[k..])
    ensures Strip(name) == if name[k..] == [] || name[k..] == [46, 46] then [46] else name[k..]
  {
    k := DropsOnlyPrefixes(name);
  }

  // ---------- Octal fields ----------

  predicate IsOctal(c: Byte) { 48 <= c <= 55 }

  predicate OctalDigits(s: seq<Byte>) { forall i :: 0 <= i < |s| ==> IsOctal(s[i]) }

  // The number that octal digits stand for.
  function OctalValue(s: seq<Byte>): nat
    requires OctalDigits(s)
  {
    if s == [] then 0 else 8 * OctalValue(s[..|s| - 1]) + (s[|s| - 1] - 48)
  }

  function Pow8(k: nat): nat { if k == 0 then 1 else 8 * Pow8(k - 1) }

  // printf's "%0*o".
  function Octal(value: nat, width: nat): seq<Byte> {
    Field(value, false, false, BASE_O, ZEROS, width, -1)
  }

  lemma OctalAppend(s: seq<Byte>, c: Byte)
    requires OctalDigits(s) && IsOctal(c)
    ensures OctalDigits(s + [c]) && OctalValue(s + [c]) == 8 * OctalValue(s) + (c - 48)
  {
    assert (s + [c])[..|s|] == s;
  }

  lemma LowOctal(value: nat, cnt: nat)
    requires value > 0
    ensures value / 8 < value && value == 8 * (value / 8) + value % 8
    ensures LowFirst(value, BASE_O, false, cnt) == [48 + value % 8] + LowFirst(value / 8, BASE_O, false, cnt + 1)
  {
    assert BASE_O.digits[value % 8] == 48 + value % 8;
  }

  lemma {:induction false} DigitsOf(value: nat, cnt: nat)
    ensures var d := Reversed(LowFirst(value, BASE_O, false, cnt)); OctalDigits(d) && OctalValue(d) == value
    decreases value
  {
    if value > 0 {
      LowOctal(value, cnt);
      DigitsOf(value / 8, cnt + 1);
      var low := LowFirst(value / 8, BASE_O, false, cnt + 1);
      assert ([48 + value % 8] + low)[1..] == low;
      OctalAppend(Reversed(low), 48 + value % 8);
    }
  }

  lemma {:induction false} DigitsFit(value: nat, cnt: nat, k: nat)
    requires value < Pow8(k)
    ensures |LowFirst(value, BASE_O, false, cnt)| <= k
    decreases k
  {
    if value > 0 {
      LowOctal(value, cnt);
      DigitsFit(value / 8, cnt + 1, k - 1);
    }
  }

  lemma {:induction false} LeadingZeros(n: nat, s: seq<Byte>)
    requires OctalDigits(s)
    ensures OctalDigits(Fill(48, n) + s) && OctalValue(Fill(48, n) + s) == OctalValue(s)
    decreases |s|, n
  {
    var t := Fill(48, n) + s;
    if s != [] {
      LeadingZeros(n, s[..|s| - 1]);
      assert t[..|t| - 1] == Fill(48, n) + s[..|s| - 1];
    } else if n > 0 {
      LeadingZeros(n - 1, s);
      assert t[..|t| - 1] == Fill(48, n - 1) + s;
    }
  }

  const ZEROS := Flags(false, false, false, false, true, false)

  lemma OctalPadded(value: nat, width: nat)
    ensures var body := Body(value, BASE_O, ZEROS, -1); Octal(value, width) == Fill(48, width - |body|) + Reversed(body)
  {
    var body := Body(value, BASE_O, ZEROS, -1);
    var pad := width - |body|;
    assert Front([], [], ZEROS, pad) == Fill(48, pad);
  }

  // The digits, or a single zero.
  lemma OctalBody(value: nat)
    ensures Body(value, BASE_O, ZEROS, -1) == if value == 0 then [48] else LowFirst(value, BASE_O, false, 0)
  {
    var low := LowFirst(value, BASE_O, false, 0);
    if value == 0 {
      assert low + Fill(48, 1) == [48];
    } else {
      LowOctal(value, 0);
      assert low + Fill(48, 1 - |low|) == low;
    }
  }

  /** A number that fits is printed as exactly `width` octal digits. */
  lemma OctalPrinted(value: nat, width: nat)
    requires value < Pow8(width) && width > 0
    ensures |Octal(value, width)| == width && OctalDigits(Octal(value, width))
    ensures OctalValue(Octal(value, width)) == value
  {
    OctalPadded(value, width);
    OctalBody(value);
    var body := Body(value, BASE_O, ZEROS, -1);
    if value == 0 {
      OctalAppend([], 48);
      assert Reversed(body) == [] + [48];
    } else {
      DigitsOf(value, 0);
      DigitsFit(value, 0, width);
    }
    LeadingZeros(width - |body|, Reversed(body));
  }

  // parse_octal_field() from position ofs on, with the value so far.
  function ParseFrom(s: seq<Byte>, ofs: nat, acc: nat): Option<nat>
    requires ofs <= |s|
    decreases |s| - ofs
  {
    if ofs == |s| then None
    else if IsOctal(s[ofs]) then
      if acc > 0x1FFF_FFFF then None else ParseFrom(s, ofs + 1, (s[ofs] - 48) + acc * 8)
    else if s[ofs] == 32 || s[ofs] == 0 then
      if ofs > 0 then Some(acc) else None
    else None
  }

  /** parse_octal_field() */
  method ParseOctalField(s: seq<Byte>) returns (r: Option<nat>)
    ensures r == ParseFrom(s, 0, 0)
  {
    var value: nat := 0;
    for ofs := 0 to |s|
      invariant ParseFrom(s, ofs, value) == ParseFrom(s, 0, 0)
    {
      var c := s[ofs];
      if 48 <= c <= 55 {
        if value > 0x1FFF_FFFF {
          return None;
        }
        value := (c - 48) + value * 8;
      } else if c == 32 || c == 0 {
        return if ofs > 0 then Some(value) else None;
      } else {
        return None;
      }
    }
    return None;
  }

  // How many octal digits there are from ofs on, and where they end.
  function DigitsEnd(s: seq<Byte>, ofs: nat): (n: nat)
    requires ofs <= |s|
    ensures ofs <= n <= |s| && forall i :: ofs <= i < n ==> IsOctal(s[i])
    ensures n < |s| ==> !IsOctal(s[n])
    decreases |s| - ofs
  {
    if ofs < |s| && IsOctal(s[ofs]) then DigitsEnd(s, ofs + 1) else ofs
  }

  lemma {:induction false} ValueGrows(s: seq<Byte>, i: nat, j: nat)
    requires i <= j <= |s| && OctalDigits(s[..j])
    ensures OctalDigits(s[..i]) && OctalValue(s[..i]) <= OctalValue(s[..j])
    decreases j
  {
    if i < j {
      assert s[..j][..j - 1] == s[..j - 1];
      ValueGrows(s, i, j - 1);
    } else {
      assert s[..i] == s[..j];
    }
  }

  // What the field parses to, when its digits end at n.
  function Outcome(s: seq<Byte>, n: nat): Option<nat>
    requires n <= |s| && OctalDigits(s[..n])
  {
    if 0 < n < |s| && (s[n] == 32 || s[n] == 0) && OctalValue(s[..n]) < 0x1_0000_0000 then Some(OctalValue(s[..n]))
      else None
  }

  lemma EndDigits(s: seq<Byte>, ofs: nat)
    requires ofs <= |s| && OctalDigits(s[..ofs])
    ensures OctalDigits(s[..DigitsEnd(s, ofs)])
  {
    var n := DigitsEnd(s, ofs);
    forall i | 0 <= i < n ensures IsOctal(s[..n][i]) { assert i < ofs ==> s[..ofs][i] == s[i]; }
  }

  // One digit more than 29 bits is too many.
  lemma Overflows(s: seq<Byte>, ofs: nat, n: nat)
    requires ofs < n <= |s| && OctalDigits(s[..n]) && OctalDigits(s[..ofs]) && OctalValue(s[..ofs]) > 0x1FFF_FFFF
    ensures OctalValue(s[..n]) >= 0x1_0000_0000
  {
    var c := s[ofs];
    assert c == s[..n][ofs];
    OctalAppend(s[..ofs], c);
    assert s[..ofs + 1] == s[..ofs] + [c];
    ValueGrows(s, ofs + 1, n);
  }

  // One digit further, the value so far is still that of the digits read.
  lemma NextDigit(s: seq<Byte>, ofs: nat)
    requires ofs < |s| && IsOctal(s[ofs]) && OctalDigits(s[..ofs])
    ensures OctalDigits(s[..ofs + 1]) && OctalValue(s[..ofs + 1]) == (s[ofs] - 48) + OctalValue(s[..ofs]) * 8
    ensures DigitsEnd(s, ofs) == DigitsEnd(s, ofs + 1)
  {
    assert s[..ofs + 1] == s[..ofs] + [s[ofs]];
    OctalAppend(s[..ofs], s[ofs]);
  }

  lemma {:induction false} ParseGo(s: seq<Byte>, ofs: nat, acc: nat)
    requires ofs <= |s| && OctalDigits(s[..ofs]) && acc == OctalValue(s[..ofs]) < 0x1_0000_0000
    ensures OctalDigits(s[..DigitsEnd(s, ofs)])
    ensures ParseFrom(s, ofs, acc) == Outcome(s, DigitsEnd(s, ofs))
    decreases |s| - ofs
  {
    EndDigits(s, ofs);
    if ofs < |s| && IsOctal(s[ofs]) {
      NextDigit(s, ofs);
      if acc > 0x1FFF_FFFF {
        Overflows(s, ofs, DigitsEnd(s, ofs));
      } else {
        ParseGo(s, ofs + 1, (s[ofs] - 48) + acc * 8);
      }
    }
  }

  /** A field parses to a value exactly when it is octal digits, at least one,
      ended by a space or null byte inside the field, and the number they stand
      for fits 32 bits. */
  lemma ParseMeaning(s: seq<Byte>)
    ensures OctalDigits(s[..DigitsEnd(s, 0)]) && ParseFrom(s, 0, 0) == Outcome(s, DigitsEnd(s, 0))
  {
    assert s[..0] == [];
    ParseGo(s, 0, 0);
  }

  /** What "%0*o" prints into a field with room for the null byte parses back. */
  lemma OctalRoundTrip(value: nat, width: nat)
    requires value < Pow8(width) && width > 0 && value < 0x1_0000_0000
    ensures ParseFrom(Octal(value, width) + [0], 0, 0) == Some(value)
  {
    OctalPrinted(value, width);
    var d := Octal(value, width);
    var s := d + [0];
    ParseMeaning(s);
    EndAt(s, 0, width);
    assert s[..width] == d;
  }

  lemma {:induction false} EndAt(s: seq<Byte>, ofs: nat, n: nat)
    requires ofs <= n < |s| && !IsOctal(s[n]) && forall i :: ofs <= i < n ==> IsOctal(s[i])
    ensures DigitsEnd(s, ofs) == n
    decreases n - ofs
  {
    if ofs < n { EndAt(s, ofs + 1, n); }
  }

  // ---------- The checksum ----------

  // The sum of the first k bytes, taking the checksum field as spaces.
  function Sum(h: seq<Byte>, k: nat): nat
    requires k <= |h|
  {
    if k == 0 then 0 else Sum(h, k - 1) + if 148 <= k - 1 < 156 then 32 else h[k - 1]
  }

  /** calculate_chksum() */
  method CalculateChksum(h: seq<Byte>) returns (chksum: nat)
    requires |h| == 512
    ensures chksum == Sum(h, 512)
  {
    chksum := 0;
    for i := 0 to 512
      invariant chksum == Sum(h, i)
    {
      chksum := chksum + if 148 <= i < 156 then 32 else h[i];
    }
  }

  // The checksum does not depend on its own field, and fits seven octal digits.
  lemma {:induction false} SumSame(h: seq<Byte>, h': seq<Byte>, k: nat)
    requires k <= |h| == |h'| && forall i :: 0 <= i < |h| && !(148 <= i < 156) ==> h'[i] == h[i]
    ensures Sum(h', k) == Sum(h, k) <= 255 * k
  {
    if k > 0 { SumSame(h, h', k - 1); }
  }

  // The plain sum of bytes.
  function Total(s: seq<Byte>): nat { if s == [] then 0 else Total(s[..|s| - 1]) + s[|s| - 1] }

  /** The checksum is the sum of all bytes with spaces in its own field. */
  lemma {:induction false} SumMeaning(h: seq<Byte>, spaced: seq<Byte>, k: nat)
    requires k <= |h| == |spaced| && forall i :: 0 <= i < |h| ==> spaced[i] == if 148 <= i < 156 then 32 else h[i]
    ensures Sum(h, k) == Total(spaced[..k])
  {
    if k > 0 {
      SumMeaning(h, spaced, k - 1);
      assert spaced[..k][..k - 1] == spaced[..k - 1];
    }
  }

  // Changing one byte outside the field changes the sum by as much.
  lemma {:induction false} SumOne(h: seq<Byte>, i: nat, x: Byte, k: nat)
    requires i < |h| && k <= |h| && !(148 <= i < 156)
    ensures Sum(h[i := x], k) == Sum(h, k) + if i < k then x - h[i] else 0
  {
    if k > 0 { SumOne(h, i, x, k - 1); }
  }

  // ---------- Headers ----------

  const REGULAR: Byte := 48
  const DIRECTORY: Byte := 53

  // The fields that vary.
  datatype Fields = Fields(name: seq<Byte>, mode: seq<Byte>, size: seq<Byte>, mtime: seq<Byte>, chksum: seq<Byte>,
                           kind: Byte)

  predicate GoodFields(f: Fields) {
    |f.name| <= 99 && |f.mode| == 7 && |f.size| == 11 && |f.mtime| == 11 && |f.chksum| == 7
  }

  const USTAR: seq<Byte> := [117, 115, 116, 97, 114]
  const ROOT: seq<Byte> := [114, 111, 111, 116]

  // The layout of a header.
  function Layout(f: Fields, i: nat): Byte
    requires GoodFields(f)
  {
    if i < |f.name| then f.name[i]
    else if 100 <= i < 107 then f.mode[i - 100]
    else if 108 <= i < 115 || 116 <= i < 123 then 48
    else if 124 <= i < 135 then f.size[i - 124]
    else if 136 <= i < 147 then f.mtime[i - 136]
    else if 148 <= i < 155 then f.chksum[i - 148]
    else if i == 156 then f.kind
    else if 257 <= i < 262 then USTAR[i - 257]
    else if 263 <= i < 265 then 48
    else if 265 <= i < 269 then ROOT[i - 265]
    else if 297 <= i < 301 then ROOT[i - 297]
    else 0
  }

  ghost predicate IsHeader(h: seq<Byte>, f: Fields) {
    |h| == 512 && GoodFields(f) && forall i :: 0 <= i < 512 ==> h[i] == Layout(f, i)
  }

  // The numbers printed into the header.
  function FieldsOf(name: seq<Byte>, kind: Byte, size: nat, chksum: nat): Fields {
    Fields(name, Octal(if kind == REGULAR then 0x1A4 else 0x1ED, 7), Octal(size, 11), Octal(1136102400, 11),
           Octal(chksum, 7), kind)
  }

  lemma Pow8Values()
    ensures Pow8(7) == 0x20_0000 && Pow8(11) == 0x2_0000_0000
  {
    assert Pow8(3) == 512;
    assert Pow8(6) == 0x4_0000;
    assert Pow8(9) == 0x800_0000;
  }

  lemma FieldsGood(name: seq<Byte>, kind: Byte, size: nat, chksum: nat)
    requires |name| <= 99 && size < 0x1_0000_0000 && chksum <= 130560
    ensures GoodFields(FieldsOf(name, kind, size, chksum))
  {
    Pow8Values();
    OctalPrinted(0x1A4, 7);
    OctalPrinted(0x1ED, 7);
    OctalPrinted(size, 11);
    OctalPrinted(1136102400, 11);
    OctalPrinted(chksum, 7);
  }

  // snprintf() of an octal number that fits the field, null byte included.
  method PrintOctal(value: nat, width: nat) returns (buffer: seq<Byte>)
    requires value < Pow8(width) && width > 0 && value < 0x1_0000_0000
    ensures buffer == Octal(value, width) + [0] && |Octal(value, width)| == width
  {
    OctalPrinted(value, width);
    var out := FormatInteger(value, false, false, BASE_O, ZEROS, width, -1);
    var length;
    buffer, length := Vsnprintf(width + 1, out);
  }

  // The fields before the checksum.
  method FillFront(f: Fields) returns (h: seq<Byte>)
    requires GoodFields(f)
    ensures |h| == 512 && forall i :: 0 <= i < 512 ==> h[i] == if i < 148 then Layout(f, i) else 0
  {
    h := seq(512, _ => 0);
    h := Splice(h, 0, f.name + [0]);
    h := Splice(h, 100, f.mode + [0]);
    h := Splice(h, 108, Fill(48, 7) + [0]);
    h := Splice(h, 116, Fill(48, 7) + [0]);
    h := Splice(h, 124, f.size + [0]);
    h := Splice(h, 136, f.mtime + [0]);
  }

  // The fields after it.
  method FillBack(h0: seq<Byte>, f: Fields) returns (h: seq<Byte>)
    requires GoodFields(f) && |h0| == 512 && forall i :: 148 <= i < 512 ==> h0[i] == 0
    ensures |h| == 512
    ensures forall i :: 0 <= i < 512 ==> h[i] == if i < 148 then h0[i] else if i < 156 then 0 else Layout(f, i)
  {
    h := h0[156 := f.kind];
    h := Splice(h, 257, USTAR + [0]);
    h := h[263 := 48][264 := 48];
    h := Splice(h, 297, ROOT + [0]);
    h := Splice(h, 265, ROOT + [0]);
  }

  // The checksum of the bytes so far goes into its field.
  method FillChksum(h0: seq<Byte>, f: Fields) returns (h: seq<Byte>)
    requires GoodFields(f) && |h0| == 512
    requires forall i :: 0 <= i < 512 ==> h0[i] == if 148 <= i < 156 then 0 else Layout(f, i)
    ensures |h| == 512 && IsHeader(h, f.(chksum := Octal(Sum(h, 512), 7)))
  {
    var chksum := CalculateChksum(h0);
    SumSame(h0, h0, 512);
    Pow8Values();
    var field := PrintOctal(chksum, 7);
    h := Splice(h0, 148, field);
    SumSame(h0, h, 512);
    ghost var f' := f.(chksum := Octal(chksum, 7));
    forall i | 0 <= i < 512 ensures h[i] == Layout(f', i) {}
  }

  // What a header says: an error message, the end of the archive, or an entry.
  datatype Parsed = Error(message: string) | Eof | Entry(name: seq<Byte>, kind: Byte, size: nat)

  /** ustar_parse_header() */
  function ParseHeader(h: seq<Byte>): Parsed
    requires |h| == 512
  {
    var chksum := ParseFrom(h[148..156], 0, 0);
    var size := ParseFrom(h[124..136], 0, 0);
    if forall i :: 0 <= i < 512 ==> h[i] == 0 then Eof
    else if h[257..263] != USTAR + [0] then Error("not a ustar archive")
    else if h[263] != 48 || h[264] != 48 then Error("invalid ustar version")
    else if chksum.None? then Error("corrupt chksum field")
    else if chksum.value != Sum(h, 512) then Error("checksum mismatch")
    else if h[99] != 0 || h[345] != 0 then Error("file name too long")
    else if h[156] != REGULAR && h[156] != DIRECTORY then Error("unimplemented file type")
    else if h[156] == REGULAR && size.None? then Error("corrupt file size field")
    else if h[156] == REGULAR && size.value > 0x7FFF_FFFF then Error("file too large")
    else Entry(Strip(CStr(h[..100])), h[156], if h[156] == REGULAR then size.value else 0)
  }

  /** A header is accepted if and only if its magic, version and checksum are
      right, its name ends in its field and has no prefix, and it is of a known
      type with a size, if any, that fits; and then it says what its fields say. */
  lemma AcceptedExactly(h: seq<Byte>)
    requires |h| == 512
    ensures ParseHeader(h).Entry? <==>
            && h[257..263] == [117, 115, 116, 97, 114, 0] && h[263] == 48 && h[264] == 48
            && ParseFrom(h[148..156], 0, 0) == Some(Sum(h, 512))
            && h[99] == 0 && h[345] == 0 && (h[156] == 48 || h[156] == 53)
            && (h[156] == 48 ==>
                ParseFrom(h[124..136], 0, 0).Some? && ParseFrom(h[124..136], 0, 0).value <= 0x7FFF_FFFF)
    ensures ParseHeader(h).Entry? ==> var r := ParseHeader(h);
            r.name == Strip(CStr(h[..100])) && r.kind == h[156]
            && (if r.kind == 48 then ParseFrom(h[124..136], 0, 0) == Some(r.size) else r.size == 0)
    ensures ParseHeader(h).Eof? <==> forall i :: 0 <= i < 512 ==> h[i] == 0
  {
    assert h[257..263][0] == h[257];
  }

  /** What each message says is so. */
  lemma RefusedBecause(h: seq<Byte>, m: string)
    requires |h| == 512 && ParseHeader(h) == Error(m)
    ensures m == "not a ustar archive" ==> h[257..263] != [117, 115, 116, 97, 114, 0]
    ensures m == "invalid ustar version" ==> h[263] != 48 || h[264] != 48
    ensures m == "corrupt chksum field" ==> ParseFrom(h[148..156], 0, 0).None?
    ensures m == "checksum mismatch" ==>
              ParseFrom(h[148..156], 0, 0).Some? && ParseFrom(h[148..156], 0, 0) != Some(Sum(h, 512))
    ensures m == "file name too long" ==> h[99] != 0 || h[345] != 0
    ensures m == "unimplemented file type" ==> h[156] != 48 && h[156] != 53
    ensures m == "corrupt file size field" ==> h[156] == 48 && ParseFrom(h[124..136], 0, 0).None?
    ensures m == "file too large" ==>
              h[156] == 48 && ParseFrom(h[124..136], 0, 0).Some? && ParseFrom(h[124..136], 0, 0).value > 0x7FFF_FFFF
  {}

  /** A header that was made and then changed in one byte outside the checksum is
      never taken for an entry. */
  lemma TamperedRefused(h: seq<Byte>, name: seq<Byte>, kind: Byte, size: nat, i: nat, x: Byte)
    requires |h| == 512 && IsHeader(h, FieldsOf(name, kind, size, Sum(h, 512)))
    requires i < 512 && !(148 <= i < 156) && x != h[i]
    ensures !ParseHeader(h[i := x]).Entry?
  {
    var f := FieldsOf(name, kind, size, Sum(h, 512));
    SumSame(h, h, 512);
    Pow8Values();
    OctalRoundTrip(Sum(h, 512), 7);
    HeaderParts(h, f);
    SumOne(h, i, x, 512);
    assert h[i := x][148..156] == h[148..156];
    AcceptedExactly(h[i := x]);
  }

  /** Parsing a header that was made gives back the stripped name, the type, and
      the size, zero for a directory. A regular file of 2 GB or more is refused. */
  lemma HeaderRoundTrip(h: seq<Byte>, fileName: seq<Byte>, kind: Byte, size: nat)
    requires CString(fileName) && |Strip(fileName)| <= 99
    requires (kind == REGULAR || kind == DIRECTORY) && size < 0x1_0000_0000
    requires |h| == 512 && IsHeader(h, FieldsOf(Strip(fileName), kind, size, Sum(h, 512)))
    ensures ParseHeader(h) == ParsedSize(Strip(fileName), kind, size)
  {
    var name, chksum := Strip(fileName), Sum(h, 512);
    SumSame(h, h, 512);
    Pow8Values();
    OctalRoundTrip(chksum, 7);
    OctalRoundTrip(size, 11);
    StripSafe(fileName);
    ParseFields(h, FieldsOf(name, kind, size, chksum), size);
  }

  // An entry, unless its size does not fit a signed 32-bit integer.
  function ParsedSize(name: seq<Byte>, kind: Byte, size: int): Parsed {
    if kind == REGULAR && !(0 <= size <= 0x7FFF_FFFF) then Error("file too large")
    else Entry(name, kind, if kind == REGULAR then size else 0)
  }

  lemma SameSize(name: seq<Byte>, kind: Byte, size: int)
    requires -0x8000_0000 <= size < 0x8000_0000
    ensures ParsedSize(name, kind, size % 0x1_0000_0000) == ParsedSize(name, kind, size)
  {}

  lemma ParseFields(h: seq<Byte>, f: Fields, size: nat)
    requires IsHeader(h, f) && CString(f.name) && Strip(f.name) == f.name
    requires f.kind == REGULAR || f.kind == DIRECTORY
    requires ParseFrom(f.chksum + [0], 0, 0) == Some(Sum(h, 512)) && ParseFrom(f.size + [0], 0, 0) == Some(size)
    ensures ParseHeader(h) == ParsedSize(f.name, f.kind, size)
  {
    HeaderParts(h, f);
    CStrFront(f.name, seq(99 - |f.name|, _ => 0));
  }

  // The parts of a header that the parser looks at.
  lemma HeaderParts(h: seq<Byte>, f: Fields)
    requires IsHeader(h, f)
    ensures h[148..156] == f.chksum + [0] && h[124..136] == f.size + [0]
    ensures h[257..263] == USTAR + [0] && h[257] != 0
    ensures h[263] == 48 && h[264] == 48 && h[99] == 0 && h[345] == 0 && h[156] == f.kind
    ensures h[..100] == f.name + [0] + seq(99 - |f.name|, _ => 0)
  {}

  // All fields of a header, the checksum last.
  method FillHeader(name: seq<Byte>, kind: Byte, size: nat) returns (h: seq<Byte>)
    requires |name| <= 99 && (kind == REGULAR || kind == DIRECTORY) && size < 0x1_0000_0000
    ensures |h| == 512 && IsHeader(h, FieldsOf(name, kind, size, Sum(h, 512)))
  {
    Pow8Values();
    FieldsGood(name, kind, size, 0);
    var mode := PrintOctal(if kind == REGULAR then 0x1A4 else 0x1ED, 7);
    var sizeField := PrintOctal(size, 11);
    var mtime := PrintOctal(1136102400, 11);
    var f := Fields(name, mode[..7], sizeField[..11], mtime[..11], Octal(0, 7), kind);
    assert f == FieldsOf(name, kind, size, 0);
    h := FillFront(f);
    h := FillBack(h, f);
    h := FillChksum(h, f);
  }

  /** The other fields of a header that was made: the mode, no user and no group,
      the time, and root's names. */
  lemma OtherParts(h: seq<Byte>, name: seq<Byte>, kind: Byte, size: nat)
    requires |h| == 512 && size < 0x1_0000_0000 && IsHeader(h, FieldsOf(name, kind, size, Sum(h, 512)))
    ensures ParseFrom(h[100..108], 0, 0) == Some(if kind == 48 then 0x1A4 else 0x1ED)
    ensures h[108..116] == [48, 48, 48, 48, 48, 48, 48, 0] && h[116..124] == [48, 48, 48, 48, 48, 48, 48, 0]
    ensures ParseFrom(h[136..148], 0, 0) == Some(1136102400)
    ensures h[265..270] == [114, 111, 111, 116, 0] && h[297..302] == [114, 111, 111, 116, 0]
  {
    Pow8Values();
    var f := FieldsOf(name, kind, size, Sum(h, 512));
    HeaderRest(h, f);
    OctalParses(f.mode, if kind == REGULAR then 0x1A4 else 0x1ED, 7);
    OctalParses(f.mtime, 1136102400, 11);
  }

  lemma OctalParses(field: seq<Byte>, value: nat, width: nat)
    requires value < Pow8(width) && width > 0 && value < 0x1_0000_0000 && field == Octal(value, width)
    ensures ParseFrom(field + [0], 0, 0) == Some(value)
  {
    OctalRoundTrip(value, width);
  }

  lemma HeaderRest(h: seq<Byte>, f: Fields)
    requires IsHeader(h, f)
    ensures h[100..108] == f.mode + [0] && h[136..148] == f.mtime + [0]
    ensures h[108..116] == [48, 48, 48, 48, 48, 48, 48, 0] && h[116..124] == [48, 48, 48, 48, 48, 48, 48, 0]
    ensures h[265..270] == [114, 111, 111, 116, 0] && h[297..302] == [114, 111, 111, 116, 0]
  {}

  /** ustar_make_header(): fails exactly for a name over 99 bytes once stripped;
      otherwise the header has the layout of the format, its checksum field
      agrees with its bytes, and ustar_parse_header() reads back what it was made
      from, except that it refuses a regular file of negative size. */
  method MakeHeader(fileName: seq<Byte>, kind: Byte, size: int) returns (ok: bool, h: seq<Byte>)
    requires CString(fileName) && (kind == REGULAR || kind == DIRECTORY) && -0x8000_0000 <= size < 0x8000_0000
    ensures ok <==> |Strip(fileName)| <= 99
    ensures ok ==> |h| == 512 && IsHeader(h, FieldsOf(Strip(fileName), kind, size % 0x1_0000_0000, Sum(h, 512)))
    ensures ok ==> ParseHeader(h) == ParsedSize(Strip(fileName), kind, size)
  {
    var name := StripAntisocialPrefixes(fileName);
    if |name| > 99 {
      return false, [];
    }
    h := FillHeader(name, kind, size % 0x1_0000_0000);
    HeaderRoundTrip(h, fileName, kind, size % 0x1_0000_0000);
    SameSize(name, kind, size);
    ok := true;
  }
}
