/** C strings and the number conversions of the C library that the AT and chat code rely on. */
module CText {

  datatype Option<+T> = None | Some(value: T)

  // ---------------------------------------------------------------- NUL-terminated text in memory

  predicate NoNul(s: string) {
    '\0' !in s
  }

  /** Where the string at `i` ends. */
  function NulAt(m: seq<char>, i: nat): (e: nat)
    requires i <= |m|
    ensures i <= e <= |m|
    ensures forall j :: i <= j < e ==> m[j] != '\0'
    ensures e < |m| ==> m[e] == '\0'
    decreases |m| - i
  {
    if i == |m| || m[i] == '\0' then i else NulAt(m, i + 1)
  }

  /** The C string at `i`. */
  function CStr(m: seq<char>, i: nat): (s: string)
    requires i <= |m|
    ensures NoNul(s)
  {
    m[i..NulAt(m, i)]
  }

  /** A string is known by its characters and the NUL that ends it. */
  lemma CStrIs(m: seq<char>, i: nat, s: string)
    requires i + |s| < |m| && m[i..i + |s|] == s && NoNul(s) && m[i + |s|] == '\0'
    ensures NulAt(m, i) == i + |s| && CStr(m, i) == s
  {
    forall j | i <= j < i + |s|
      ensures m[j] != '\0'
    {
      assert m[j] == m[i..i + |s|][j - i] && s[j - i] in s;
    }
  }

  /** The first character of a string. */
  lemma CStrHead(m: seq<char>, i: nat)
    requires i < |m|
    ensures if m[i] == '\0' then CStr(m, i) == ""
            else CStr(m, i) != "" && CStr(m, i)[0] == m[i] && CStr(m, i)[1..] == CStr(m, i + 1)
  {
  }

  /** The string from a later character on. */
  lemma {:induction false} CStrFrom(m: seq<char>, i: nat, k: nat)
    requires i <= |m| && k <= |CStr(m, i)|
    ensures i + k <= |m| && NulAt(m, i + k) == NulAt(m, i) && CStr(m, i + k) == CStr(m, i)[k..]
    decreases k
  {
    if k > 0 {
      CStrFrom(m, i + 1, k - 1);
    }
  }

  /** A string does not depend on memory outside it. */
  lemma CStrFrame(m: seq<char>, w: seq<char>, i: nat)
    requires i <= |m| == |w| && NulAt(m, i) < |m|
    requires forall j :: i <= j <= NulAt(m, i) ==> m[j] == w[j]
    ensures NulAt(w, i) == NulAt(m, i) && CStr(w, i) == CStr(m, i)
  {
    var e := NulAt(m, i);
    CStrIs(w, i, CStr(m, i));
  }

  // ---------------------------------------------------------------- characters

  /** isspace in the C locale. */
  predicate IsSpace(c: char) {
    c == ' ' || '\t' <= c <= '\r'
  }

  function SkipSpace(s: string): string {
    if s != "" && IsSpace(s[0]) then SkipSpace(s[1..]) else s
  }

  lemma {:induction false} SkipLead(lead: string, s: string)
    requires (forall c <- lead :: IsSpace(c)) && (s == "" || !IsSpace(s[0]))
    ensures SkipSpace(lead + s) == s
    decreases |lead|
  {
    if lead == "" {
      assert lead + s == s;
    } else {
      assert lead[0] in lead && (lead + s)[1..] == lead[1..] + s;
      SkipLead(lead[1..], s);
    }
  }

  /** Position of the first `c`, or the length. */
  function IndexOf(s: string, c: char): (i: nat)
    ensures i <= |s| && c !in s[..i] && (i < |s| ==> s[i] == c)
  {
    if s == "" || s[0] == c then 0 else 1 + IndexOf(s[1..], c)
  }

  lemma {:induction false} IndexOfIs(s: string, c: char, i: nat)
    requires i <= |s| && c !in s[..i] && (i < |s| ==> s[i] == c)
    ensures IndexOf(s, c) == i
  {
    if i > 0 {
      assert s[0] in s[..i] && s[1..][..i - 1] == s[..i][1..];
      IndexOfIs(s[1..], c, i - 1);
    }
  }

  lemma PrefixOfSlice(m: seq<char>, from: nat, i: nat, e: nat)
    requires from <= i <= e <= |m|
    ensures m[from..e][..i - from] == m[from..i]
  {
  }

  /** Where a scan for `c` over memory stops, told on the string scanned. */
  lemma ScanDone(m: seq<char>, from: nat, i: nat, c: char)
    requires from <= i < |m| && (m[i] == '\0' || m[i] == c) && c != '\0'
    requires forall j :: from <= j < i ==> m[j] != '\0' && m[j] != c
    ensures var s := CStr(m, from);
            && i - from <= |s| && m[from..i] == s[..i - from] && IndexOf(s, c) == i - from
            && (m[i] == '\0' <==> i - from == |s|)
            && (m[i] == c ==> CStr(m, i + 1) == s[i - from + 1..])
  {
    var s, e := CStr(m, from), NulAt(m, from);
    assert i <= e;
    PrefixOfSlice(m, from, i, e);
    assert i < e ==> s[i - from] == m[i];
    IndexOfIs(s, c, i - from);
    if m[i] == c {
      CStrFrom(m, from, i - from + 1);
    }
  }

  // ---------------------------------------------------------------- digits

  predicate IsBase(base: nat) {
    base == 10 || base == 16
  }

  predicate IsDigit(c: char, base: nat) {
    '0' <= c <= '9' || (base == 16 && ('a' <= c <= 'f' || 'A' <= c <= 'F'))
  }

  function DigitOf(c: char, base: nat): (d: nat)
    requires IsBase(base) && IsDigit(c, base)
    ensures d < base
  {
    if c <= '9' then c as int - '0' as int else if c <= 'F' then c as int - 'A' as int + 10 else c as int - 'a' as int + 10
  }

  function DigitChar(d: nat): char
    requires d < 16
  {
    if d < 10 then (d + '0' as int) as char else (d - 10 + 'a' as int) as char
  }

  predicate AllDigits(s: string, base: nat) {
    forall c <- s :: IsDigit(c, base)
  }

  function ValueOf(s: string, base: nat): nat
    requires IsBase(base) && AllDigits(s, base)
  {
    if s == "" then 0 else ValueOf(s[..|s| - 1], base) * base + DigitOf(s[|s| - 1], base)
  }

  /** Canonical digits: lower case, no leading zero. */
  function Digits(n: nat, base: nat): (s: string)
    requires IsBase(base)
  {
    if n < base then [DigitChar(n)] else Digits(n / base, base) + [DigitChar(n % base)]
  }

  lemma {:induction false} DigitsValue(n: nat, base: nat)
    requires IsBase(base)
    ensures Digits(n, base) != "" && AllDigits(Digits(n, base), base) && ValueOf(Digits(n, base), base) == n
  {
    var s := Digits(n, base);
    if n < base {
      assert s[..0] == "";
    } else {
      DigitsValue(n / base, base);
      assert s[..|s| - 1] == Digits(n / base, base);
    }
  }

  /** Number of leading digits. */
  function Span(s: string, base: nat): (k: nat)
    ensures k <= |s| && AllDigits(s[..k], base) && (k < |s| ==> !IsDigit(s[k], base))
  {
    if s == "" || !IsDigit(s[0], base) then 0 else
      var k := Span(s[1..], base);
      assert forall i :: 1 <= i < k + 1 ==> s[i] == s[1..][..k][i - 1];
      k + 1
  }

  // ---------------------------------------------------------------- strtol, strtoul, %d, %x

  const TWO31 := 0x8000_0000
  const TWO32 := 0x1_0000_0000

  /** `(int)` applied to a long. */
  function ToInt32(x: int): (r: int)
    ensures -TWO31 <= r < TWO31
  {
    (x + TWO31) % TWO32 - TWO31
  }

  /** Range of unsigned long: 32 or 64 bits. */
  function LongRange(wide: bool): nat {
    if wide then 0x1_0000_0000_0000_0000 else TWO32
  }

  /** The digits strtol reads, after blanks, a sign and, in base 16, an optional 0x before a hex digit. */
  function AfterSign(s: string): string {
    var t := SkipSpace(s);
    if t != "" && (t[0] == '-' || t[0] == '+') then t[1..] else t
  }

  function AfterPrefix(t: string, base: nat): string {
    if base == 16 && |t| > 2 && t[0] == '0' && (t[1] == 'x' || t[1] == 'X') && IsDigit(t[2], 16) then t[2..] else t
  }

  predicate Negative(s: string) {
    var t := SkipSpace(s);
    t != "" && t[0] == '-'
  }

  /** strtol (or strtoul), saturating; None when no digit is found (`end == ret`). */
  function StrToLong(s: string, base: nat, unsigned: bool, wide: bool): Option<int>
    requires IsBase(base)
  {
    var t := AfterPrefix(AfterSign(s), base);
    var digits := t[..Span(t, base)];
    if digits == "" then None
    else
      var v, range: int := ValueOf(digits, base), LongRange(wide);
      if unsigned then
        Some(if v >= range then range - 1 else if Negative(s) && v > 0 then range - v else v)
      else
        var x := if Negative(s) then -(v as int) else v as int;
        Some(if x >= range / 2 then range / 2 - 1 else if x < -(range / 2) then -(range / 2) else x)
  }

  /** `%d`. */
  function Decimal(v: int): string {
    if v < 0 then "-" + Digits(-v, 10) else Digits(v, 10)
  }

  /** `%x` of an int. */
  function Hex32(v: int): string {
    Digits(v % TWO32, 16)
  }

  lemma {:induction false} SpanAll(s: string, base: nat)
    requires AllDigits(s, base)
    ensures Span(s, base) == |s| && s[..Span(s, base)] == s
  {
    if s != "" {
      assert s[0] in s;
      SpanAll(s[1..], base);
    }
  }

  lemma NoPrefix(s: string, base: nat)
    requires AllDigits(s, base)
    ensures AfterPrefix(s, base) == s
  {
    if |s| > 2 { assert s[1] in s; }
  }

  lemma NoSign(s: string, base: nat)
    requires s != "" && AllDigits(s, base)
    ensures SkipSpace(s) == s && AfterSign(s) == s && !Negative(s)
  {
    assert s[0] in s;
  }

  lemma ParseWord(s: string, base: nat, unsigned: bool, wide: bool)
    requires IsBase(base) && s != "" && AllDigits(s, base)
    requires ValueOf(s, base) < TWO31 || (unsigned && ValueOf(s, base) < TWO32)
    ensures StrToLong(s, base, unsigned, wide) == Some(ValueOf(s, base))
  {
    NoSign(s, base);
    NoPrefix(s, base);
    SpanAll(s, base);
  }

  lemma MinusSign(d: string)
    ensures AfterSign("-" + d) == d && Negative("-" + d)
  {
    assert ("-" + d)[1..] == d;
  }

  /** Reading back a printed int gives it again. */
  lemma ParseDecimal(v: int, wide: bool)
    requires -TWO31 <= v < TWO31
    ensures StrToLong(Decimal(v), 10, false, wide) == Some(v)
  {
    var n := if v < 0 then -v else v;
    DigitsValue(n, 10);
    var d := Digits(n, 10);
    SpanAll(d, 10);
    NoSign(d, 10);
    if v < 0 {
      MinusSign(d);
    }
  }

  lemma Int32Trip(v: nat)
    requires v < TWO32
    ensures ToInt32(v) % TWO32 == v
  {
  }

  /** A hex word of 32 bits survives the trip through int and `%x`, up to case and leading zeros. */
  lemma HexTrip(w: string)
    requires w != "" && AllDigits(w, 16) && ValueOf(w, 16) < TWO32
    ensures Hex32(ToInt32(ValueOf(w, 16))) == Digits(ValueOf(w, 16), 16)
  {
    Int32Trip(ValueOf(w, 16));
  }

  lemma DigitsStep(n: nat, d: nat)
    requires n > 0 && d < 16
    ensures Digits(n * 16 + d, 16) == Digits(n, 16) + [DigitChar(d)]
  {
    assert (n * 16 + d) / 16 == n && (n * 16 + d) % 16 == d;
  }

  lemma DigitCharOf(c: char)
    requires IsDigit(c, 16) && !('A' <= c <= 'F')
    ensures DigitChar(DigitOf(c, 16)) == c && (c != '0' ==> DigitOf(c, 16) > 0)
  {
  }

  predicate IsLowerHex(c: char) {
    '0' <= c <= '9' || 'a' <= c <= 'f'
  }

  /** In lower case and without a leading zero. */
  predicate IsCanonical(w: string) {
    w != "" && (|w| == 1 || w[0] != '0') && forall i :: 0 <= i < |w| ==> IsLowerHex(w[i])
  }

  lemma ValueStep(front: string, last: char)
    requires AllDigits(front, 16) && IsDigit(last, 16)
    ensures AllDigits(front + [last], 16) && ValueOf(front + [last], 16) == ValueOf(front, 16) * 16 + DigitOf(last, 16)
  {
    assert (front + [last])[..|front|] == front;
  }

  /** Such a word is its own canonical form. */
  lemma {:induction false} CanonicalWord(w: string)
    requires IsCanonical(w)
    ensures AllDigits(w, 16) && Digits(ValueOf(w, 16), 16) == w && (w[0] != '0' ==> ValueOf(w, 16) > 0)
    decreases |w|
  {
    var front, last := w[..|w| - 1], w[|w| - 1];
    assert w == front + [last] && IsLowerHex(last);
    DigitCharOf(last);
    if front == "" {
      ValueStep("", last);
    } else {
      assert front[0] == w[0];
      CanonicalWord(front);
      ValueStep(front, last);
      DigitsStep(ValueOf(front, 16), DigitOf(last, 16));
    }
  }

  // ---------------------------------------------------------------- the C library by its characters

  /** Blanks are the space, tab, newline, vertical tab, form feed and return. */
  lemma SpacesAre(c: char)
    ensures IsSpace(c) <==> c as int == 32 || c as int in {9, 10, 11, 12, 13}
  {
  }

  /** Digits in both cases, and as they are printed. */
  lemma DigitsAre(d: nat)
    requires d < 16
    ensures DigitChar(d) == "0123456789abcdef"[d] && IsDigit("0123456789ABCDEF"[d], 16)
    ensures DigitOf("0123456789abcdef"[d], 16) == d == DigitOf("0123456789ABCDEF"[d], 16)
    ensures d < 10 ==> IsDigit("0123456789"[d], 10) && DigitOf("0123456789"[d], 10) == d
    ensures !IsDigit('a', 10) && !IsDigit('g', 16) && !IsDigit('G', 16)
  {
  }

  /** Numbers are printed with the most significant digit first, and read so. */
  lemma PlacesAre(a: nat, b: nat, c: nat)
    requires 0 < a < 10 && b < 10 && c < 10
    ensures Decimal(100 * a + 10 * b + c) == [(48 + a) as char, (48 + b) as char, (48 + c) as char]
    ensures Decimal(-(100 * a + 10 * b + c)) == ['-', (48 + a) as char, (48 + b) as char, (48 + c) as char]
    ensures ValueOf([(48 + a) as char, (48 + b) as char, (48 + c) as char], 10) == 100 * a + 10 * b + c
  {
    var n := 100 * a + 10 * b + c;
    assert n / 10 == 10 * a + b && n % 10 == c && (10 * a + b) / 10 == a && (10 * a + b) % 10 == b;
    assert Digits(a, 10) == [DigitChar(a)];
    assert Digits(10 * a + b, 10) == Digits(a, 10) + [DigitChar(b)];
    assert Digits(n, 10) == Digits(10 * a + b, 10) + [DigitChar(c)];
    DigitsValue(n, 10);
  }

  lemma {:induction false} SpanBefore(w: string, rest: string, base: nat)
    requires AllDigits(w, base) && (rest == "" || !IsDigit(rest[0], base))
    ensures Span(w + rest, base) == |w| && (w + rest)[..|w|] == w
    decreases |w|
  {
    if w == "" {
      assert w + rest == rest;
    } else {
      assert w[0] in w && (w + rest)[1..] == w[1..] + rest;
      assert forall c <- w[1..] :: c in w;
      SpanBefore(w[1..], rest, base);
    }
  }

  /** strtol ignores what follows the number and takes a plus sign. */
  lemma NumberEnds(w: string, rest: string, wide: bool)
    requires w != "" && AllDigits(w, 10) && ValueOf(w, 10) < TWO31 && (rest == "" || !IsDigit(rest[0], 10))
    ensures StrToLong(w + rest, 10, false, wide) == Some(ValueOf(w, 10))
    ensures StrToLong("+" + (w + rest), 10, false, wide) == Some(ValueOf(w, 10))
  {
    FrontUnsigned(w, rest);
    ReadsFront(w + rest, w, rest, wide);
    ReadsFront("+" + (w + rest), w, rest, wide);
  }

  lemma FrontUnsigned(w: string, rest: string)
    requires w != "" && AllDigits(w, 10)
    ensures AfterSign(w + rest) == w + rest == AfterSign("+" + (w + rest))
    ensures !Negative(w + rest) && !Negative("+" + (w + rest))
  {
    var s, plus := w + rest, "+" + (w + rest);
    assert w[0] in w && s[0] == w[0] && plus[1..] == s;
  }

  lemma ReadsFront(s: string, w: string, rest: string, wide: bool)
    requires w != "" && AllDigits(w, 10) && ValueOf(w, 10) < TWO31 && (rest == "" || !IsDigit(rest[0], 10))
    requires AfterSign(s) == w + rest && !Negative(s)
    ensures StrToLong(s, 10, false, wide) == Some(ValueOf(w, 10))
  {
    SpanBefore(w, rest, 10);
  }

  /** In base 16 a 0x or 0X in front of the digits is skipped. */
  lemma PrefixSkipped(w: string, x: char, wide: bool)
    requires w != "" && AllDigits(w, 16) && ValueOf(w, 16) < TWO32 && (x == 'x' || x == 'X')
    ensures StrToLong(['0', x] + w, 16, true, wide) == Some(ValueOf(w, 16))
  {
    var s := ['0', x] + w;
    assert w[0] in w && s[0] == '0' && s[2] == w[0];
    assert SkipSpace(s) == s && AfterSign(s) == s && s[2..] == w;
    assert AfterPrefix(s, 16) == w;
    SpanAll(w, 16);
  }

  /** Numbers out of the range of a 32-bit long are cut to its ends. */
  lemma NumbersSaturate(w: string)
    requires w != "" && AllDigits(w, 10) && ValueOf(w, 10) >= 0x8000_0000
    ensures StrToLong(w, 10, false, false) == Some(0x7FFF_FFFF)
    ensures StrToLong("-" + w, 10, false, false) == Some(-0x8000_0000)
    ensures ValueOf(w, 10) >= 0x1_0000_0000 ==> StrToLong(w, 10, true, false) == Some(0xFFFF_FFFF)
  {
    NoSign(w, 10);
    MinusSign(w);
    Saturates(w, w);
    Saturates("-" + w, w);
  }

  lemma Saturates(s: string, w: string)
    requires w != "" && AllDigits(w, 10) && ValueOf(w, 10) >= 0x8000_0000 && AfterSign(s) == w
    ensures StrToLong(s, 10, false, false) == Some(if Negative(s) then -0x8000_0000 else 0x7FFF_FFFF)
    ensures ValueOf(w, 10) >= 0x1_0000_0000 ==> StrToLong(s, 10, true, false) == Some(0xFFFF_FFFF)
  {
    SpanAll(w, 10);
  }

  /** An unsigned number behind a minus sign wraps. */
  lemma UnsignedWraps(w: string, base: nat, wide: bool)
    requires IsBase(base) && w != "" && AllDigits(w, base)
    requires 0 < ValueOf(w, base) < if wide then 0x1_0000_0000_0000_0000 else 0x1_0000_0000
    ensures StrToLong("-" + w, base, true, wide) ==
            Some((if wide then 0x1_0000_0000_0000_0000 else 0x1_0000_0000) - ValueOf(w, base))
  {
    var s := "-" + w;
    NoPrefix(w, base);
    SpanAll(w, base);
    MinusSign(w);
    assert AfterPrefix(AfterSign(s), base) == w && w[..Span(w, base)] == w && Negative(s);
  }
}
