/** base/guid: printing two 64-bit words, the version-4 masks of section 4.4 of
    RFC 4122, and the validity loop. */
module Guids {
  import opened Words

  /** A 64-bit word. */
  type Word = x: nat | x < 0x1_0000_0000_0000_0000

  // ----- hexadecimal

  function Pow16(n: nat): (r: nat)
    ensures r > 0
  {
    if n == 0 then 1 else 16 * Pow16(n - 1)
  }

  lemma Widths()
    ensures Pow16(4) == 0x1_0000 && Pow16(8) == 0x1_0000_0000 && Pow16(12) == 0x1_0000_0000_0000
  {
    assert Pow16(4) == 0x1_0000;
    assert Pow16(8) == 0x1_0000_0000;
  }

  function HexChar(d: nat): (c: char)
    requires d < 16
    ensures IsLowerHexDigit(c) && DigitOf(c) == d
  {
    if d < 10 then '0' + d as char else 'a' + (d - 10) as char
  }

  predicate IsLowerHexDigit(c: char) {
    '0' <= c <= '9' || 'a' <= c <= 'f'
  }

  predicate IsHexDigit(c: char) {
    '0' <= c <= '9' || 'A' <= c <= 'F' || 'a' <= c <= 'f'
  }

  function DigitOf(c: char): (d: nat)
    requires IsLowerHexDigit(c)
    ensures d < 16
  {
    if c <= '9' then c as int - '0' as int else c as int - 'a' as int + 10
  }

  ghost predicate AllHex(s: string) {
    forall i :: 0 <= i < |s| ==> IsLowerHexDigit(s[i])
  }

  /** The digits of %x: no leading zero, but at least one digit. */
  function ShortHex(v: nat): (s: string)
    ensures |s| >= 1
  {
    if v < 16 then [HexChar(v)] else ShortHex(v / 16) + [HexChar(v % 16)]
  }

  /** %0Nx: zeros in front up to the width, and no digit ever cut. */
  function Printf(width: nat, v: nat): string {
    Zeros(if |ShortHex(v)| < width then width - |ShortHex(v)| else 0) + ShortHex(v)
  }

  function Zeros(n: nat): (s: string)
    ensures |s| == n
  {
    if n == 0 then [] else Zeros(n - 1) + ['0']
  }

  /** The lowest `width` digits of `v`. */
  function Digits(width: nat, v: nat): (s: string)
    ensures |s| == width && AllHex(s)
  {
    if width == 0 then [] else Digits(width - 1, v / 16) + [HexChar(v % 16)]
  }

  function HexValue(s: string): nat
    requires AllHex(s)
  {
    if s == [] then 0 else HexValue(s[..|s| - 1]) * 16 + DigitOf(s[|s| - 1])
  }

  lemma {:induction false} DigitsOfZero(width: nat)
    ensures Digits(width, 0) == Zeros(width)
  {
    if width > 0 { DigitsOfZero(width - 1); }
  }

  /** A number that fits its width is printed with exactly that many digits. */
  lemma {:induction false} PrintfIsDigits(width: nat, v: nat)
    requires width >= 1 && v < Pow16(width)
    ensures Printf(width, v) == Digits(width, v) && |ShortHex(v)| <= width
  {
    if v < 16 {
      DigitsOfZero(width - 1);
    } else {
      PrintfIsDigits(width - 1, v / 16);
      assert Printf(width, v) == Printf(width - 1, v / 16) + [HexChar(v % 16)];
    }
  }

  lemma {:induction false} ValueOfDigits(width: nat, v: nat)
    requires v < Pow16(width)
    ensures HexValue(Digits(width, v)) == v
  {
    if width > 0 {
      ValueOfDigits(width - 1, v / 16);
      assert Digits(width, v)[..width - 1] == Digits(width - 1, v / 16);
    }
  }

  lemma {:induction false} DigitsOfValue(s: string)
    requires AllHex(s)
    ensures HexValue(s) < Pow16(|s|) && Digits(|s|, HexValue(s)) == s
    decreases |s|
  {
    if s != [] {
      var front, c := s[..|s| - 1], s[|s| - 1];
      DigitsOfValue(front);
      LastDigit(HexValue(front), DigitOf(c), Pow16(|front|));
      assert HexChar(DigitOf(c)) == c;
      assert s == front + [c];
    }
  }

  lemma LastDigit(rest: nat, d: nat, limit: nat)
    requires d < 16 && rest < limit
    ensures (rest * 16 + d) / 16 == rest && (rest * 16 + d) % 16 == d && rest * 16 + d < 16 * limit
  {}

  // ----- printing

  function RandomDataToGUIDString(w0: Word, w1: Word): string {
    Printf(8, w0 / 0x1_0000_0000 % 0x1_0000_0000) + "-"
    + Printf(4, And(w0 / 0x1_0000, 0xffff)) + "-"
    + Printf(4, And(w0, 0xffff)) + "-"
    + Printf(4, w1 / 0x1_0000_0000_0000 % 0x1_0000_0000) + "-"
    + Printf(12, And(w1, 0xffff_ffff_ffff))
  }

  /** The five fields of a GUID. */
  datatype Fields = Fields(a: nat, b: nat, c: nat, d: nat, e: nat)

  predicate Bounded(f: Fields) {
    f.a < 0x1_0000_0000 && f.b < 0x1_0000 && f.c < 0x1_0000 && f.d < 0x1_0000 && f.e < 0x1_0000_0000_0000
  }

  function FieldsOf(w0: Word, w1: Word): (f: Fields)
    ensures Bounded(f)
    ensures w0 == f.a * 0x1_0000_0000 + f.b * 0x1_0000 + f.c && w1 == f.d * 0x1_0000_0000_0000 + f.e
  {
    Fields(w0 / 0x1_0000_0000, w0 / 0x1_0000 % 0x1_0000, w0 % 0x1_0000,
           w1 / 0x1_0000_0000_0000, w1 % 0x1_0000_0000_0000)
  }

  function Layout(f: Fields): (s: string)
    ensures |s| == 36
  {
    Digits(8, f.a) + "-" + Digits(4, f.b) + "-" + Digits(4, f.c) + "-" + Digits(4, f.d) + "-" + Digits(12, f.e)
  }

  lemma Low16(x: nat)
    ensures And(x, 0xffff) == x % 0x1_0000
  {
    assert Pow2(8) == 0x100;
    assert Pow2(16) == 0x1_0000 by { Square(8, 0x100); }
    AndLow(x, 16, 0x1_0000, x / 0x1_0000, x % 0x1_0000);
  }

  lemma Power48()
    ensures Pow2(48) == 0x1_0000_0000_0000
  {
    assert Pow2(6) == 0x40;
    Square(6, 0x40);
    Square(12, 0x1000);
    Square(24, 0x100_0000);
  }

  lemma Low48(x: nat)
    ensures And(x, 0xffff_ffff_ffff) == x % 0x1_0000_0000_0000
  {
    Power48();
    AndLow(x, 48, 0x1_0000_0000_0000, x / 0x1_0000_0000_0000, x % 0x1_0000_0000_0000);
  }

  lemma PrintsGroups(f: Fields)
    requires Bounded(f)
    ensures Printf(8, f.a) == Digits(8, f.a) && Printf(4, f.b) == Digits(4, f.b) && Printf(4, f.c) == Digits(4, f.c)
    ensures Printf(4, f.d) == Digits(4, f.d) && Printf(12, f.e) == Digits(12, f.e)
  {
    Widths();
    PrintfIsDigits(8, f.a);
    PrintfIsDigits(4, f.b);
    PrintfIsDigits(4, f.c);
    PrintfIsDigits(4, f.d);
    PrintfIsDigits(12, f.e);
  }

  lemma FieldsByMasks(w0: Word, w1: Word)
    ensures var f := FieldsOf(w0, w1);
      && w0 / 0x1_0000_0000 % 0x1_0000_0000 == f.a && And(w0 / 0x1_0000, 0xffff) == f.b && And(w0, 0xffff) == f.c
      && w1 / 0x1_0000_0000_0000 % 0x1_0000_0000 == f.d && And(w1, 0xffff_ffff_ffff) == f.e
  {
    Low16(w0 / 0x1_0000);
    Low16(w0);
    Low48(w1);
  }

  lemma PrintsFields(w0: Word, w1: Word)
    ensures RandomDataToGUIDString(w0, w1) == Layout(FieldsOf(w0, w1))
  {
    FieldsByMasks(w0, w1);
    PrintsGroups(FieldsOf(w0, w1));
  }

  /** The five groups of a string of 36. */
  lemma LayoutGroups(f: Fields)
    ensures var s := Layout(f);
      && s[0..8] == Digits(8, f.a) && s[9..13] == Digits(4, f.b) && s[14..18] == Digits(4, f.c)
      && s[19..23] == Digits(4, f.d) && s[24..36] == Digits(12, f.e)
      && s[8] == s[13] == s[18] == s[23] == '-'
  {}

  /** The printed digits determine the fields. */
  lemma LayoutInjective(f: Fields, g: Fields)
    requires Bounded(f) && Bounded(g) && Layout(f) == Layout(g)
    ensures f == g
  {
    Widths();
    LayoutGroups(f);
    LayoutGroups(g);
    ValueOfDigits(8, f.a); ValueOfDigits(8, g.a);
    ValueOfDigits(4, f.b); ValueOfDigits(4, g.b);
    ValueOfDigits(4, f.c); ValueOfDigits(4, g.c);
    ValueOfDigits(4, f.d); ValueOfDigits(4, g.d);
    ValueOfDigits(12, f.e); ValueOfDigits(12, g.e);
  }

  /** The printed string determines both words. */
  lemma PrintingIsInjective(w0: Word, w1: Word, v0: Word, v1: Word)
    requires RandomDataToGUIDString(w0, w1) == RandomDataToGUIDString(v0, v1)
    ensures w0 == v0 && w1 == v1
  {
    PrintsFields(w0, w1);
    PrintsFields(v0, v1);
    LayoutInjective(FieldsOf(w0, w1), FieldsOf(v0, v1));
  }

  /** A digit's character: 0-9, then a-f. */
  lemma HexCharIs(d: nat)
    requires d < 16
    ensures HexChar(d) as int == if d < 10 then 48 + d else 87 + d
  {}

  lemma {:induction false} HexConcat(a: string, b: string)
    requires AllHex(a) && AllHex(b)
    ensures AllHex(a + b) && HexValue(a + b) == HexValue(a) * Pow16(|b|) + HexValue(b)
    decreases |b|
  {
    if b == [] {
      assert a + b == a;
    } else {
      var front, c := b[..|b| - 1], b[|b| - 1];
      HexConcat(a, front);
      assert (a + b)[..|a + b| - 1] == a + front && (a + b)[|a + b| - 1] == c;
      Sixteenfold(HexValue(a), Pow16(|front|));
    }
  }

  lemma Sixteenfold(x: nat, p: nat)
    ensures x * (16 * p) == 16 * (x * p)
  {}

  /** The digits without the dashes: the first sixteen are the first word in
      hexadecimal, the last sixteen the second. */
  lemma PrintedDigits(w0: Word, w1: Word)
    ensures
      var s := RandomDataToGUIDString(w0, w1);
      && |s| == 36
      && var first, second := s[0..8] + s[9..13] + s[14..18], s[19..23] + s[24..36];
      && AllHex(first) && |first| == 16 && HexValue(first) == w0
      && AllHex(second) && |second| == 16 && HexValue(second) == w1
  {
    var f := FieldsOf(w0, w1);
    PrintsFields(w0, w1);
    LayoutGroups(f);
    FirstWord(f);
    SecondWord(f);
  }

  lemma FirstWord(f: Fields)
    requires Bounded(f)
    ensures var s := Digits(8, f.a) + Digits(4, f.b) + Digits(4, f.c);
      AllHex(s) && HexValue(s) == f.a * 0x1_0000_0000 + f.b * 0x1_0000 + f.c
  {
    Widths();
    ValueOfDigits(8, f.a);
    ValueOfDigits(4, f.b);
    ValueOfDigits(4, f.c);
    HexConcat(Digits(8, f.a), Digits(4, f.b));
    HexConcat(Digits(8, f.a) + Digits(4, f.b), Digits(4, f.c));
  }

  lemma SecondWord(f: Fields)
    requires Bounded(f)
    ensures var s := Digits(4, f.d) + Digits(12, f.e);
      AllHex(s) && HexValue(s) == f.d * 0x1_0000_0000_0000 + f.e
  {
    Widths();
    ValueOfDigits(4, f.d);
    ValueOfDigits(12, f.e);
    HexConcat(Digits(4, f.d), Digits(12, f.e));
  }

  // ----- validity

  predicate IsDash(i: nat) {
    i == 8 || i == 13 || i == 18 || i == 23
  }

  predicate Accepts(c: char, i: nat, strict: bool) {
    if IsDash(i) then c == '-' else if strict then IsLowerHexDigit(c) else IsHexDigit(c)
  }

  /** IsValidGUIDInternal's loop. */
  method IsValidGUIDInternal(guid: string, strict: bool) returns (valid: bool)
    ensures valid <==> WellFormed(guid, strict)
  {
    if |guid| != 36 { return false; }
    var i := 0;
    while i < |guid|
      invariant 0 <= i <= |guid|
      invariant forall j :: 0 <= j < i ==> Accepts(guid[j], j, strict)
    {
      var current := guid[i];
      if i == 8 || i == 13 || i == 18 || i == 23 {
        if current != '-' { return false; }
      } else {
        if strict {
          if !IsLowerHexDigit(current) { return false; }
        } else {
          if !IsHexDigit(current) { return false; }
        }
      }
      i := i + 1;
    }
    return true;
  }

  ghost predicate WellFormed(guid: string, strict: bool) {
    |guid| == 36 && forall i :: 0 <= i < 36 ==> Accepts(guid[i], i, strict)
  }

  lemma LayoutIsStrict(f: Fields)
    ensures WellFormed(Layout(f), true)
  {
    LayoutGroups(f);
    var s := Layout(f);
    forall i | 0 <= i < 36 ensures Accepts(s[i], i, true) {
      if i < 8 { assert s[i] == s[0..8][i]; }
      else if 9 <= i < 13 { assert s[i] == s[9..13][i - 9]; }
      else if 14 <= i < 18 { assert s[i] == s[14..18][i - 14]; }
      else if 19 <= i < 23 { assert s[i] == s[19..23][i - 19]; }
      else if 24 <= i { assert s[i] == s[24..36][i - 24]; }
    }
  }

  lemma GroupIsHex(guid: string, lo: nat, hi: nat)
    requires WellFormed(guid, true) && lo <= hi <= 36
    requires forall i :: lo <= i < hi ==> !IsDash(i)
    ensures AllHex(guid[lo..hi])
  {
    forall i | 0 <= i < hi - lo ensures IsLowerHexDigit(guid[lo..hi][i]) {
      assert Accepts(guid[lo + i], lo + i, true);
    }
  }

  lemma Groups(guid: string)
    requires |guid| == 36 && guid[8] == guid[13] == guid[18] == guid[23] == '-'
    ensures guid == guid[0..8] + "-" + guid[9..13] + "-" + guid[14..18] + "-" + guid[19..23] + "-" + guid[24..36]
  {}

  lemma ReadGroup(guid: string, lo: nat, hi: nat) returns (value: nat)
    requires WellFormed(guid, true) && lo <= hi <= 36
    requires forall i :: lo <= i < hi ==> !IsDash(i)
    ensures value < Pow16(hi - lo) && Digits(hi - lo, value) == guid[lo..hi]
  {
    GroupIsHex(guid, lo, hi);
    DigitsOfValue(guid[lo..hi]);
    value := HexValue(guid[lo..hi]);
  }

  lemma ParseFields(guid: string) returns (f: Fields)
    requires WellFormed(guid, true)
    ensures Bounded(f) && Layout(f) == guid
  {
    var a := ReadGroup(guid, 0, 8);
    var b := ReadGroup(guid, 9, 13);
    var c := ReadGroup(guid, 14, 18);
    var d := ReadGroup(guid, 19, 23);
    var e := ReadGroup(guid, 24, 36);
    f := Fields(a, b, c, d, e);
    FitsWidths(f);
    DashesInPlace(guid);
    Groups(guid);
  }

  lemma FitsWidths(f: Fields)
    requires f.a < Pow16(8) && f.b < Pow16(4) && f.c < Pow16(4) && f.d < Pow16(4) && f.e < Pow16(12)
    ensures Bounded(f)
  {
    Widths();
  }

  lemma DashesInPlace(guid: string)
    requires WellFormed(guid, true)
    ensures guid[8] == guid[13] == guid[18] == guid[23] == '-'
  {
    assert Accepts(guid[8], 8, true) && Accepts(guid[13], 13, true) && Accepts(guid[18], 18, true) && Accepts(guid[23], 23, true);
  }

  lemma Assemble(f: Fields) returns (w0: Word, w1: Word)
    requires Bounded(f)
    ensures FieldsOf(w0, w1) == f
  {
    w0 := f.a * 0x1_0000_0000 + f.b * 0x1_0000 + f.c;
    w1 := f.d * 0x1_0000_0000_0000 + f.e;
    DivModOf(w0, 0x1_0000_0000, f.a, f.b * 0x1_0000 + f.c);
    DivModOf(w0, 0x1_0000, f.a * 0x1_0000 + f.b, f.c);
    DivModOf(f.a * 0x1_0000 + f.b, 0x1_0000, f.a, f.b);
    DivModOf(w1, 0x1_0000_0000_0000, f.d, f.e);
  }

  /** The words a strictly valid string stands for. */
  lemma ParseStrict(guid: string) returns (w0: Word, w1: Word)
    requires WellFormed(guid, true)
    ensures RandomDataToGUIDString(w0, w1) == guid
  {
    var f := ParseFields(guid);
    w0, w1 := Assemble(f);
    PrintsFields(w0, w1);
  }

  /** The strings that pass the strict check are exactly the printed ones. */
  lemma StrictIffPrinted(guid: string)
    ensures WellFormed(guid, true) <==> exists w0: Word, w1: Word :: guid == RandomDataToGUIDString(w0, w1)
  {
    if WellFormed(guid, true) {
      var w0, w1 := ParseStrict(guid);
    }
    forall w0: Word, w1: Word | guid == RandomDataToGUIDString(w0, w1) ensures WellFormed(guid, true) {
      PrintsFields(w0, w1);
      LayoutIsStrict(FieldsOf(w0, w1));
    }
  }

  // ----- version 4

  /** The masks as they are applied, to both words in place. */
  method GenerateGUID(random: array<Word>) returns (guid: string)
    requires random.Length == 2
    modifies random
    ensures random[0] == Version(old(random[0])) && random[1] == Variant(old(random[1]))
    ensures guid == RandomDataToGUIDString(random[0], random[1])
  {
    VersionMask(random[0]);
    var w := And(random[0], 0xffff_ffff_ffff_0fff);
    random[0] := Or(w, 0x4000);
    VariantMask(random[1]);
    w := And(random[1], 0x3fff_ffff_ffff_ffff);
    random[1] := Or(w, 0x8000_0000_0000_0000);
    guid := RandomDataToGUIDString(random[0], random[1]);
  }

  /** The word with its four version bits replaced by 4. */
  function Version(w: Word): Word {
    w / 0x1_0000 * 0x1_0000 + 0x4000 + w % 0x1000
  }

  /** The word with its two highest bits replaced by 10. */
  function Variant(w: Word): Word {
    0x8000_0000_0000_0000 + w % 0x4000_0000_0000_0000
  }

  lemma Power12()
    ensures Pow2(12) == 0x1000
  {
    assert Pow2(6) == 0x40;
    Square(6, 0x40);
  }

  /** Clearing the version bits `v` of a word. */
  lemma ClearVersion(h: nat, v: nat, l: nat)
    requires h < 0x1_0000_0000_0000 && v < 16 && l < 0x1000
    ensures And((h * 16 + v) * 0x1000 + l, 0xffff_ffff_ffff_0fff) == h * 16 * 0x1000 + l
  {
    ClearLow4(h, v);
    Power12();
    AndOnes(12, l);
    AndParts(h * 16 + v, l, 0xf_ffff_ffff_fff0, 0xfff, 12, 0x1000, h * 16, 0xffff_ffff_ffff_0fff);
  }

  /** Masking a word by its upper and its lower part, the lower one kept. */
  lemma AndParts(xh: nat, xl: nat, yh: nat, yl: nat, k: nat, m: nat, high: nat, mask: nat)
    requires m == Pow2(k) && xl < m && yl < m && And(xh, yh) == high && And(xl, yl) == xl
    requires mask == yh * m + yl
    ensures And(xh * m + xl, mask) == high * m + xl
  {
    AndSplit(xh, xl, yh, yl, k, m);
  }

  lemma ClearLow4(h: nat, v: nat)
    requires h < 0x1_0000_0000_0000 && v < 16
    ensures And(h * 16 + v, 0xf_ffff_ffff_fff0) == h * 16
  {
    Power48();
    AndOnes(48, h);
    assert Pow2(4) == 16;
    AndSplit(h, v, 0xffff_ffff_ffff, 0, 4, 16);
  }

  lemma SetVersion(h: nat, l: nat)
    requires l < 0x1000
    ensures Or(h * 16 * 0x1000 + l, 0x4000) == h * 16 * 0x1000 + 0x4000 + l
  {
    assert Pow2(4) == 16;
    OrSplit(h, 0, 0, 4, 4, 16);
    assert Or(h * 16, 4) == h * 16 + 4;
    Power12();
    OrSplit(h * 16, l, 4, 0, 12, 0x1000);
  }

  /** The parts of a word around its version bits. */
  lemma VersionParts(w: Word) returns (h: nat, v: nat, l: nat)
    ensures h < 0x1_0000_0000_0000 && v < 16 && l < 0x1000
    ensures w == (h * 16 + v) * 0x1000 + l && Version(w) == h * 16 * 0x1000 + 0x4000 + l
  {
    h, v, l := w / 0x1_0000, w / 0x1000 % 16, w % 0x1000;
  }

  lemma VersionMask(w: Word)
    ensures Or(And(w, 0xffff_ffff_ffff_0fff), 0x4000) == Version(w)
  {
    var h, v, l := VersionParts(w);
    ClearVersion(h, v, l);
    SetVersion(h, l);
  }

  lemma Power62()
    ensures Pow2(62) == 0x4000_0000_0000_0000
  {
    Power48();
    assert Pow2(6) == 0x40;
    assert Pow2(14) == 0x4000;
    Pow2Add(48, 14);
  }

  lemma VariantMask(w: Word)
    ensures Or(And(w, 0x3fff_ffff_ffff_ffff), 0x8000_0000_0000_0000) == Variant(w)
  {
    var low := w % 0x4000_0000_0000_0000;
    Power62();
    AndLow(w, 62, 0x4000_0000_0000_0000, w / 0x4000_0000_0000_0000, low);
    OrSplit(0, low, 2, 0, 62, 0x4000_0000_0000_0000);
  }

  lemma GeneratedFields(w0: Word, w1: Word)
    ensures var f := FieldsOf(Version(w0), Variant(w1)); f.c / 0x1000 == 4 && 8 <= f.d / 0x1000 < 12
  {
    assert Version(w0) % 0x1_0000 == 0x4000 + w0 % 0x1000;
  }

  /** Every generated GUID has the form xxxxxxxx-xxxx-4xxx-yxxx-xxxxxxxxxxxx. */
  lemma GeneratedForm(w0: Word, w1: Word)
    ensures var guid := RandomDataToGUIDString(Version(w0), Variant(w1));
      && WellFormed(guid, true)
      && guid[14] == '4'
      && guid[19] in {'8', '9', 'a', 'b'}
  {
    var f := FieldsOf(Version(w0), Variant(w1));
    PrintsFields(Version(w0), Variant(w1));
    LayoutIsStrict(f);
    LayoutFirsts(f);
    GeneratedFields(w0, w1);
    VariantDigit(f.d / 0x1000);
  }

  lemma VariantDigit(d: nat)
    requires 8 <= d < 12
    ensures HexChar(d) in {'8', '9', 'a', 'b'}
  {}

  lemma LayoutFirsts(f: Fields)
    requires Bounded(f)
    ensures Layout(f)[14] == HexChar(f.c / 0x1000) && Layout(f)[19] == HexChar(f.d / 0x1000)
  {
    var s := Layout(f);
    LayoutGroups(f);
    assert s[14] == s[14..18][0] && s[19] == s[19..23][0];
    FirstOfFour(f.c);
    FirstOfFour(f.d);
  }

  lemma FirstOfFour(v: nat)
    requires v < 0x1_0000
    ensures Digits(4, v)[0] == HexChar(v / 0x1000)
  {
    assert v / 16 / 16 / 16 == v / 0x1000;
    assert Digits(4, v)[0] == Digits(3, v / 16)[0] == Digits(2, v / 16 / 16)[0] == Digits(1, v / 16 / 16 / 16)[0];
  }

  /** The two words agree outside the six fixed bits. */
  predicate AgreeOutsideFixed(w0: Word, w1: Word, v0: Word, v1: Word) {
    && w0 / 0x1_0000 == v0 / 0x1_0000 && w0 % 0x1000 == v0 % 0x1000
    && w1 % 0x4000_0000_0000_0000 == v1 % 0x4000_0000_0000_0000
  }

  lemma MasksForgetSixBits(w0: Word, w1: Word, v0: Word, v1: Word)
    ensures Version(w0) == Version(v0) && Variant(w1) == Variant(v1) <==> AgreeOutsideFixed(w0, w1, v0, v1)
  {
    assert Version(w0) / 0x1_0000 == w0 / 0x1_0000 && Version(v0) / 0x1_0000 == v0 / 0x1_0000;
  }

  /** Two random inputs give the same GUID exactly when they agree outside the
      six fixed bits. */
  lemma SameGuidIff(w0: Word, w1: Word, v0: Word, v1: Word)
    ensures RandomDataToGUIDString(Version(w0), Variant(w1)) == RandomDataToGUIDString(Version(v0), Variant(v1))
            <==> AgreeOutsideFixed(w0, w1, v0, v1)
  {
    MasksForgetSixBits(w0, w1, v0, v1);
    if RandomDataToGUIDString(Version(w0), Variant(w1)) == RandomDataToGUIDString(Version(v0), Variant(v1)) {
      PrintingIsInjective(Version(w0), Variant(w1), Version(v0), Variant(v1));
    }
  }
}
