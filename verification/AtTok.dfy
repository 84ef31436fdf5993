/** at_tok.c: a destructive tokenizer over one AT response line.  The cursor walks the line in memory and writes a
    NUL over each delimiter; the tokens it returns point into the same memory. */
module AtTok {
  import opened CText

  // ---------------------------------------------------------------- what the functions compute on the text left

  /** The text left to read; None is the NULL cursor. */
  type Left = Option<string>

  function Strsep(s: string, delim: char): (r: (string, Left))
  {
    var i := IndexOf(s, delim);
    if i == |s| then (s, None) else (s[..i], Some(s[i + 1..]))
  }

  function AfterComma(s: string): string {
    var i := IndexOf(s, ',');
    if i == |s| then "" else s[i + 1..]
  }

  /** nextTok once the blanks are skipped: the token and the text left. */
  function TokenAt(t: string): (string, Left) {
    if t != "" && t[0] == '"' then
      var (tok, rest) := Strsep(t[1..], '"');
      (tok, if rest.None? then None else Some(AfterComma(rest.value)))
    else Strsep(t, ',')
  }

  /** nextTok: the token (None for NULL) and the text left. */
  function NextTok(left: Left): (Option<string>, Left) {
    if left.None? then (None, None)
    else var (tok, rest) := TokenAt(SkipSpace(left.value)); (Some(tok), rest)
  }

  /** at_tok_nextint_base: None for -1, else the int stored in `*p_out`. */
  function NextNumber(left: Left, base: nat, unsigned: bool, wide: bool): (Option<int>, Left)
    requires IsBase(base)
  {
    var (tok, rest) := NextTok(left);
    if tok.None? then (None, rest)
    else
      var l := StrToLong(tok.value, base, unsigned, wide);
      (if l.None? then None else Some(ToInt32(l.value)), rest)
  }

  function NextBool(left: Left, wide: bool): (Option<bool>, Left) {
    var (v, rest) := NextNumber(left, 10, false, wide);
    (if v == Some(0) then Some(false) else if v == Some(1) then Some(true) else None, rest)
  }

  predicate HasMore(left: Left) {
    left.Some? && left.value != ""
  }

  // ---------------------------------------------------------------- the functions on memory

  /** The token at `tok` of memory `m` reads `text` and ends, NUL included, before the cursor. */
  predicate TokenSafe(m: seq<char>, cur: Option<nat>, tok: nat, text: string) {
    && tok + |text| < |m| && m[tok..tok + |text|] == text && NoNul(text) && m[tok + |text|] == '\0'
    && (cur.Some? ==> tok + |text| < cur.value)
  }

  /** A token handed out earlier survives every call that writes only at or after the cursor. */
  lemma TokenStays(m: seq<char>, cur: Option<nat>, w: seq<char>, later: Option<nat>, tok: nat, text: string)
    requires TokenSafe(m, cur, tok, text) && |w| == |m|
    requires cur.None? ==> later.None?
    requires cur.Some? && later.Some? ==> cur.value <= later.value
    requires forall i :: 0 <= i < |m| && (cur.None? || i < cur.value) ==> m[i] == w[i]
    ensures TokenSafe(w, later, tok, text) && CStr(w, tok) == text
  {
    forall i | 0 <= i < |text|
      ensures w[tok..tok + |text|][i] == text[i]
    {
      assert m[tok..tok + |text|][i] == m[tok + i];
    }
    assert w[tok..tok + |text|] == text;
    CStrIs(w, tok, text);
  }

  /** Where a scan for `delim` from `tok` stops. */
  predicate IsScan(m: seq<char>, tok: nat, i: nat, delim: char) {
    && tok <= i < |m| && i - tok == IndexOf(CStr(m, tok), delim) && i - tok <= |CStr(m, tok)|
    && m[tok..i] == CStr(m, tok)[..i - tok]
  }

  /** strsep on a line without another delimiter. */
  lemma LastToken(m: seq<char>, tok: nat, i: nat, delim: char)
    requires IsScan(m, tok, i, delim) && m[i] == '\0' && i - tok == |CStr(m, tok)|
    ensures Strsep(CStr(m, tok), delim).1 == None && TokenSafe(m, None, tok, Strsep(CStr(m, tok), delim).0)
  {
  }

  /** strsep at a delimiter, which becomes a NUL. */
  lemma CutToken(m: seq<char>, tok: nat, i: nat, delim: char)
    requires IsScan(m, tok, i, delim) && i - tok < |CStr(m, tok)| && m[|m| - 1] == '\0'
    requires i + 1 < |m| && CStr(m, i + 1) == CStr(m, tok)[i - tok + 1..]
    ensures var w, r := m[i := '\0'], Strsep(CStr(m, tok), delim);
            r.1 == Some(CStr(w, i + 1)) && TokenSafe(w, Some(i + 1), tok, r.0)
  {
    var w, text := m[i := '\0'], CStr(m, tok)[..i - tok];
    CStrFrame(m, w, i + 1);
    assert w[tok..i] == m[tok..i];
    assert forall c <- text :: c in CStr(m, tok);
  }

  class AtLine {
    const buf: array<char>
    /** Width of `long` on the target. */
    const wide: bool
    /** `*p_cur`, as an index; None is NULL. */
    var cur: Option<nat>

    ghost predicate Valid()
      reads this, buf
    {
      && buf.Length > 0 && buf[buf.Length - 1] == '\0'
      && (cur.Some? ==> cur.value < buf.Length)
    }

    function Left(): (l: Left)
      reads this, buf
      requires Valid()
    {
      if cur.None? then None else Some(CStr(buf[..], cur.value))
    }

    /** Memory below the cursor is never written again. */
    twostate predicate OnlyAheadWritten()
      reads this, buf
    {
      && (old(cur).None? ==> cur.None?)
      && (old(cur).Some? && cur.Some? ==> old(cur).value <= cur.value)
      && forall i :: 0 <= i < buf.Length && (old(cur).None? || i < old(cur).value) ==> buf[i] == old(buf[i])
    }

    /** The token at `tok` reads `text`, and no later call can touch it. */
    ghost predicate Holds(tok: nat, text: string)
      reads this, buf
    {
      TokenSafe(buf[..], cur, tok, text)
    }

    constructor (line: array<char>, wide: bool)
      requires line.Length > 0 && line[line.Length - 1] == '\0'
      ensures buf == line && this.wide == wide && cur == Some(0) && Valid()
    {
      buf, this.wide, cur := line, wide, Some(0);
    }

    /** Index of the first `c` at or after `from`, or of the NUL. */
    method Scan(from: nat, c: char) returns (i: nat)
      requires Valid() && from < buf.Length && c != '\0'
      ensures i < buf.Length && (buf[i] == c || buf[i] == '\0')
      ensures i - from == IndexOf(CStr(buf[..], from), c) && i - from <= |CStr(buf[..], from)|
      ensures buf[..][from..i] == CStr(buf[..], from)[..i - from]
      ensures buf[i] == '\0' <==> i - from == |CStr(buf[..], from)|
      ensures buf[i] == c ==> i + 1 < buf.Length && CStr(buf[..], i + 1) == CStr(buf[..], from)[i - from + 1..]
    {
      i := from;
      while buf[i] != '\0' && buf[i] != c
        invariant from <= i < buf.Length
        invariant forall j :: from <= j < i ==> buf[..][j] != '\0' && buf[..][j] != c
        decreases buf.Length - i
      {
        i := i + 1;
      }
      ScanDone(buf[..], from, i, c);
    }

    method Start() returns (rc: int)
      requires Valid()
      modifies this`cur
      ensures Valid() && OnlyAheadWritten()
      ensures old(Left()).None? || ':' !in old(Left()).value ==> rc == -1 && Left().None?
      ensures old(Left()).Some? && ':' in old(Left()).value ==>
                rc == 0 && Left() == Some(old(Left()).value[IndexOf(old(Left()).value, ':') + 1..])
    {
      if cur.None? {
        return -1;
      }
      var i := Scan(cur.value, ':');
      if buf[i] == '\0' {
        cur := None;
        return -1;
      }
      cur := Some(i + 1);
      rc := 0;
    }

    method SkipWhiteSpace()
      requires Valid()
      modifies this`cur
      ensures Valid() && OnlyAheadWritten()
      ensures Left() == if old(Left()).None? then None else Some(SkipSpace(old(Left()).value))
    {
      if cur.None? {
        return;
      }
      while buf[cur.value] != '\0' && IsSpace(buf[cur.value])
        invariant cur.Some? && old(cur).value <= cur.value && Valid()
        invariant SkipSpace(Left().value) == SkipSpace(old(Left()).value)
        decreases buf.Length - cur.value
      {
        CStrFrom(buf[..], cur.value, 1);
        cur := Some(cur.value + 1);
      }
    }

    method SkipNextComma()
      requires Valid()
      modifies this`cur
      ensures Valid() && OnlyAheadWritten()
      ensures Left() == if old(Left()).None? then None else Some(AfterComma(old(Left()).value))
    {
      if cur.None? {
        return;
      }
      var i := Scan(cur.value, ',');
      assert buf[i] == '\0' ==> CStr(buf[..], i) == "";
      cur := Some(if buf[i] == ',' then i + 1 else i);
    }

    /** strsep of the C library: the token runs to the first delimiter, which becomes a NUL. */
    method StrSep(delim: char) returns (tok: nat)
      requires Valid() && cur.Some? && delim != '\0'
      modifies this`cur, buf
      ensures Valid() && OnlyAheadWritten()
      ensures Left() == Strsep(old(Left()).value, delim).1
      ensures tok == old(cur).value && Holds(tok, Strsep(old(Left()).value, delim).0)
    {
      tok := cur.value;
      ghost var m := buf[..];
      var i := Scan(tok, delim);
      if buf[i] == '\0' {
        LastToken(m, tok, i, delim);
        cur := None;
      } else {
        CutToken(m, tok, i, delim);
        buf[i] := '\0';
        cur := Some(i + 1);
        assert buf[..] == m[i := '\0'];
      }
    }

    /** nextTok from a non-blank on. */
    method TokenHere() returns (tok: nat)
      requires Valid() && cur.Some?
      modifies this`cur, buf
      ensures Valid() && OnlyAheadWritten()
      ensures Holds(tok, TokenAt(old(Left()).value).0) && Left() == TokenAt(old(Left()).value).1
    {
      CStrHead(buf[..], cur.value);
      if buf[cur.value] == '"' {
        cur := Some(cur.value + 1);
        tok := StrSep('"');
        SkipNextComma();
      } else {
        tok := StrSep(',');
      }
    }

    /** nextTok: the token is an offset into the line, None for NULL. */
    method NextToken() returns (tok: Option<nat>)
      requires Valid()
      modifies this`cur, buf
      ensures Valid() && OnlyAheadWritten()
      ensures Left() == NextTok(old(Left())).1
      ensures tok.Some? <==> old(cur).Some?
      ensures tok.Some? ==> Holds(tok.value, NextTok(old(Left())).0.value)
    {
      SkipWhiteSpace();
      if cur.None? {
        tok := None;
      } else {
        var t := TokenHere();
        tok := Some(t);
      }
    }

    method NextIntBase(base: nat, uns: bool) returns (rc: int, out: int)
      requires Valid() && IsBase(base)
      modifies this`cur, buf
      ensures Valid() && OnlyAheadWritten()
      ensures (if rc == 0 then Some(out) else None, Left()) == NextNumber(old(Left()), base, uns, wide)
      ensures rc == 0 || rc == -1
    {
      out := 0;
      if cur.None? {
        return -1, out;
      }
      var ret := NextToken();
      if ret.None? {
        return -1, out;
      }
      CStrIs(buf[..], ret.value, NextTok(old(Left())).0.value);
      var l := StrToLong(CStr(buf[..], ret.value), base, uns, wide);
      if l.None? {
        return -1, out;
      }
      return 0, ToInt32(l.value);
    }

    method NextInt() returns (rc: int, out: int)
      requires Valid()
      modifies this`cur, buf
      ensures Valid() && OnlyAheadWritten() && (rc == 0 || rc == -1)
      ensures (if rc == 0 then Some(out) else None, Left()) == NextNumber(old(Left()), 10, false, wide)
    {
      rc, out := NextIntBase(10, false);
    }

    method NextHexInt() returns (rc: int, out: int)
      requires Valid()
      modifies this`cur, buf
      ensures Valid() && OnlyAheadWritten() && (rc == 0 || rc == -1)
      ensures (if rc == 0 then Some(out) else None, Left()) == NextNumber(old(Left()), 16, true, wide)
    {
      rc, out := NextIntBase(16, true);
    }

    method NextBoolean() returns (rc: int, out: bool)
      requires Valid()
      modifies this`cur, buf
      ensures Valid() && OnlyAheadWritten() && (rc == 0 || rc == -1)
      ensures (if rc == 0 then Some(out) else None, Left()) == NextBool(old(Left()), wide)
    {
      out := false;
      var result: int;
      rc, result := NextInt();
      if rc < 0 {
        return -1, out;
      }
      if !(result == 0 || result == 1) {
        return -1, out;
      }
      out := result == 1;
    }

    method NextStr() returns (rc: int, out: Option<nat>)
      requires Valid()
      modifies this`cur, buf
      ensures Valid() && OnlyAheadWritten()
      ensures old(cur).None? ==> rc == -1 && out.None? && Left().None?
      ensures old(cur).Some? ==> rc == 0 && out.Some? && Holds(out.value, NextTok(old(Left())).0.value)
      ensures Left() == NextTok(old(Left())).1
    {
      if cur.None? {
        return -1, None;
      }
      out := NextToken();
      rc := 0;
    }

    method HasMoreTokens() returns (more: bool)
      requires Valid()
      ensures more == HasMore(Left())
    {
      more := !(cur.None? || buf[cur.value] == '\0');
    }
  }

  // ---------------------------------------------------------------- printing lines

  datatype Body =
    | Num(v: int, quoted: bool)          // an int in decimal
    | Hex(word: string, quoted: bool)    // a 32-bit hex word
    | Flag(b: bool)                      // 0 or 1
    | Quoted(text: string)
    | Bare(text: string)

  /** A field of a line: blanks, then the body. */
  datatype Field = Field(lead: string, body: Body)

  predicate WellFormedBody(b: Body) {
    match b
    case Num(v, _) => -TWO31 <= v < TWO31
    case Hex(w, _) => w != "" && AllDigits(w, 16) && ValueOf(w, 16) < TWO32
    case Flag(_) => true
    case Quoted(t) => '"' !in t && NoNul(t)
    case Bare(t) => ',' !in t && NoNul(t) && (t == "" || (t[0] != '"' && !IsSpace(t[0])))
  }

  predicate WellFormed(f: Field) {
    (forall c <- f.lead :: IsSpace(c)) && WellFormedBody(f.body)
  }

  predicate AllWellFormed(fs: seq<Field>) {
    forall i :: 0 <= i < |fs| ==> WellFormed(fs[i])
  }

  function Word(b: Body): string {
    match b
    case Num(v, _) => Decimal(v)
    case Hex(w, _) => w
    case Flag(x) => if x then "1" else "0"
    case Quoted(t) => t
    case Bare(t) => t
  }

  predicate IsQuoted(b: Body) {
    match b
    case Num(_, q) => q
    case Hex(_, q) => q
    case Quoted(_) => true
    case _ => false
  }

  function PrintField(f: Field): string {
    f.lead + if IsQuoted(f.body) then "\"" + Word(f.body) + "\"" else Word(f.body)
  }

  function Print(fs: seq<Field>): string
    requires fs != []
  {
    if |fs| == 1 then PrintField(fs[0]) else PrintField(fs[0]) + "," + Print(fs[1..])
  }

  // ---------------------------------------------------------------- reading them back

  datatype Value = Number(n: int) | Truth(b: bool) | Text(s: string) | Failed

  /** The call that matches a field. */
  function Read(left: Left, b: Body, wide: bool): (Value, Left) {
    match b
    case Num(_, _) => var (v, rest) := NextNumber(left, 10, false, wide); (if v.Some? then Number(v.value) else Failed, rest)
    case Hex(_, _) => var (v, rest) := NextNumber(left, 16, true, wide); (if v.Some? then Number(v.value) else Failed, rest)
    case Flag(_) => var (v, rest) := NextBool(left, wide); (if v.Some? then Truth(v.value) else Failed, rest)
    case _ => var (v, rest) := NextTok(left); (if v.Some? then Text(v.value) else Failed, rest)
  }

  function Expected(b: Body): Value
    requires WellFormedBody(b)
  {
    match b
    case Num(v, _) => Number(v)
    case Hex(w, _) => Number(ToInt32(ValueOf(w, 16)))
    case Flag(x) => Truth(x)
    case Quoted(t) => Text(t)
    case Bare(t) => Text(t)
  }

  /** Values read by the calls that match `fs`, and the text left. */
  function ReadAll(left: Left, fs: seq<Field>, wide: bool): (seq<Value>, Left)
    decreases |fs|
  {
    if fs == [] then ([], left)
    else
      var (v, rest) := Read(left, fs[0].body, wide);
      var (vs, end) := ReadAll(rest, fs[1..], wide);
      ([v] + vs, end)
  }

  /** What the text left looks like after the last field (nothing) or before another one. */
  predicate IsRest(left: Left, more: Left) {
    if more.None? then !HasMore(left) else left == more
  }

  /** What follows the text of a field. */
  function Tail(more: Left): string {
    if more.None? then "" else "," + more.value
  }

  lemma DigitsShape(n: nat)
    ensures var w := Digits(n, 10); w != "" && forall i :: 0 <= i < |w| ==> '0' <= w[i] <= '9'
  {
    DigitsValue(n, 10);
    var w := Digits(n, 10);
    forall i | 0 <= i < |w|
      ensures '0' <= w[i] <= '9'
    {
      assert w[i] in w;
    }
  }

  /** The text of a number or flag: no blank, comma or quote in it. */
  lemma NumericShape(b: Body)
    requires WellFormedBody(b) && !b.Quoted? && !b.Bare?
    ensures var w := Word(b); w != "" && forall i :: 0 <= i < |w| ==> w[i] == '-' || IsDigit(w[i], 16)
  {
    var w := Word(b);
    match b
    case Num(v, _) => DigitsShape(if v < 0 then -v else v);
    case Hex(_, _) =>
      forall i | 0 <= i < |w|
        ensures IsDigit(w[i], 16)
      {
        assert w[i] in w;
      }
    case Flag(_) =>
  }

  lemma StrsepAt(s: string, tail: string, delim: char)
    requires delim !in s && (tail == "" || tail[0] == delim)
    ensures Strsep(s + tail, delim) == (s, if tail == "" then None else Some(tail[1..]))
  {
    IndexOfIs(s + tail, delim, |s|) by {
      assert (s + tail)[..|s|] == s;
    }
    assert (s + tail)[..|s|] == s;
    assert tail == "" ==> s + tail == s;
    assert tail != "" ==> (s + tail)[|s| + 1..] == tail[1..];
  }

  lemma QuotedToken(lead: string, w: string, more: Left)
    requires (forall c <- lead :: IsSpace(c)) && '"' !in w
    ensures NextTok(Some(lead + ("\"" + (w + ("\"" + Tail(more)))))) ==
            (Some(w), Some(if more.None? then "" else more.value))
  {
    var t := "\"" + (w + ("\"" + Tail(more)));
    SkipLead(lead, t);
    assert t[1..] == w + ("\"" + Tail(more));
    StrsepAt(w, "\"" + Tail(more), '"');
    assert ("\"" + Tail(more))[1..] == Tail(more);
    CommaOfTail(more);
  }

  lemma UnquotedToken(lead: string, w: string, more: Left)
    requires (forall c <- lead :: IsSpace(c)) && ',' !in w && (w == "" || (w[0] != '"' && !IsSpace(w[0])))
    ensures NextTok(Some(lead + (w + Tail(more)))) == (Some(w), more)
  {
    var t := w + Tail(more);
    assert t != "" ==> t[0] == if w == "" then ',' else w[0];
    SkipLead(lead, t);
    StrsepAt(w, Tail(more), ',');
    if more.Some? {
      assert Tail(more)[1..] == more.value;
    }
  }

  /** nextTok on a printed field returns its word and leaves the rest of the line. */
  lemma TokenOfField(f: Field, more: Left)
    requires WellFormed(f)
    ensures var (tok, rest) := NextTok(Some(PrintField(f) + Tail(more)));
            tok == Some(Word(f.body)) && IsRest(rest, more)
  {
    var w := Word(f.body);
    if !f.body.Quoted? && !f.body.Bare? {
      NumericShape(f.body);
    }
    if IsQuoted(f.body) {
      assert PrintField(f) + Tail(more) == f.lead + ("\"" + (w + ("\"" + Tail(more))));
      QuotedToken(f.lead, w, more);
    } else {
      assert PrintField(f) + Tail(more) == f.lead + (w + Tail(more));
      UnquotedToken(f.lead, w, more);
    }
  }

  lemma CommaOfTail(more: Left)
    ensures AfterComma(Tail(more)) == if more.None? then "" else more.value
  {
    if more.Some? {
      IndexOfIs(Tail(more), ',', 0);
      assert Tail(more)[1..] == more.value;
    }
  }

  lemma FlagWord(x: bool, wide: bool)
    ensures StrToLong(Word(Flag(x)), 10, false, wide) == Some(if x then 1 else 0)
  {
    ParseDecimal(1, wide);
    ParseDecimal(0, wide);
    assert Digits(0, 10) == "0" && Digits(1, 10) == "1";
  }

  lemma Int32Same(v: int)
    requires -TWO31 <= v < TWO31
    ensures ToInt32(v) == v
  {
  }

  /** The conversion on the word of a number. */
  lemma WordNumber(b: Body, wide: bool)
    requires WellFormedBody(b) && !b.Quoted? && !b.Bare?
    ensures var l := StrToLong(Word(b), if b.Hex? then 16 else 10, b.Hex?, wide);
            l.Some? && match b {
              case Num(v, _) => ToInt32(l.value) == v
              case Hex(w, _) => l.value == ValueOf(w, 16)
              case Flag(x) => ToInt32(l.value) == if x then 1 else 0
            }
  {
    match b
    case Num(v, _) => ParseDecimal(v, wide); Int32Same(v);
    case Hex(w, _) => ParseWord(w, 16, true, wide);
    case Flag(x) => FlagWord(x, wide); Int32Same(if x then 1 else 0);
  }

  /** The call that matches a field, on the token of the field. */
  lemma WordValue(left: Left, b: Body, rest: Left, wide: bool)
    requires WellFormedBody(b) && NextTok(left) == (Some(Word(b)), rest)
    ensures Read(left, b, wide) == (Expected(b), rest)
  {
    if !b.Quoted? && !b.Bare? {
      WordNumber(b, wide);
    }
  }

  /** The matching call returns the field. */
  lemma ReadField(f: Field, more: Left, wide: bool)
    requires WellFormed(f)
    ensures var (v, rest) := Read(Some(PrintField(f) + Tail(more)), f.body, wide);
            v == Expected(f.body) && IsRest(rest, more)
  {
    TokenOfField(f, more);
    var left: Left := Some(PrintField(f) + Tail(more));
    WordValue(left, f.body, NextTok(left).1, wide);
  }

  function ExpectedAll(fs: seq<Field>): seq<Value>
    requires AllWellFormed(fs)
  {
    if fs == [] then [] else [Expected(fs[0].body)] + ExpectedAll(fs[1..])
  }

  /** What follows the first field. */
  function MoreOf(fs: seq<Field>): Left
    requires fs != []
  {
    if |fs| > 1 then Some(Print(fs[1..])) else None
  }

  lemma PrintSplit(fs: seq<Field>)
    requires fs != []
    ensures Print(fs) == PrintField(fs[0]) + Tail(MoreOf(fs))
  {
    assert PrintField(fs[0]) + "" == PrintField(fs[0]);
  }

  /** Tokenizing inverts printing: the matching calls return the fields in order and then nothing is left. */
  lemma {:induction false} ReadInvertsPrint(fs: seq<Field>, wide: bool)
    requires fs != [] && AllWellFormed(fs)
    ensures var (vs, end) := ReadAll(Some(Print(fs)), fs, wide);
            vs == ExpectedAll(fs) && !HasMore(end)
    decreases |fs|
  {
    var rest := fs[1..];
    PrintSplit(fs);
    ReadField(fs[0], MoreOf(fs), wide);
    if |fs| == 1 {
      var (v, end) := Read(Some(Print(fs)), fs[0].body, wide);
      assert ReadAll(end, rest, wide) == ([], end);
      assert ExpectedAll(rest) == [];
    } else {
      ReadInvertsPrint(rest, wide);
    }
  }

  /** A loop driven by at_tok_hasmore sees every field but, when its text is empty, the last one. */
  lemma HasMoreBeforeField(fs: seq<Field>)
    requires fs != []
    ensures HasMore(Some(Print(fs))) <==> |fs| > 1 || PrintField(fs[0]) != ""
  {
  }

  /** Between a closing quote and the next comma, or the end, anything is skipped; without a closing quote the rest is the
      token. */
  lemma BehindQuote(w: string, junk: string, rest: string)
    requires '"' !in w && ',' !in junk
    ensures NextTok(Some("\"" + (w + ("\"" + (junk + ("," + rest)))))) == (Some(w), Some(rest))
    ensures NextTok(Some("\"" + (w + ("\"" + junk)))) == (Some(w), Some(""))
    ensures NextTok(Some("\"" + w)) == (Some(w), None)
  {
    CommaBehind(junk, rest);
    QuotedThen(w, junk + ("," + rest));
    QuotedThen(w, junk);
    assert ("\"" + w)[1..] == w && w + "" == w;
    StrsepAt(w, "", '"');
  }

  lemma QuotedThen(w: string, more: string)
    requires '"' !in w
    ensures NextTok(Some("\"" + (w + ("\"" + more)))) == (Some(w), Some(AfterComma(more)))
  {
    var t := "\"" + (w + ("\"" + more));
    assert t[1..] == w + ("\"" + more) && ("\"" + more)[1..] == more;
    StrsepAt(w, "\"" + more, '"');
  }

  lemma CommaBehind(junk: string, rest: string)
    requires ',' !in junk
    ensures AfterComma(junk + ("," + rest)) == rest && AfterComma(junk) == ""
  {
    var more := junk + ("," + rest);
    assert more[..|junk|] == junk && more[|junk| + 1..] == rest;
    IndexOfIs(more, ',', |junk|);
    assert junk[..|junk|] == junk;
    IndexOfIs(junk, ',', |junk|);
  }

  /** Only 0 and 1 are booleans, and nothing is left of a NULL cursor. */
  lemma BooleansAre(n: int, wide: bool)
    requires -TWO31 <= n < TWO31
    ensures NextBool(Some(Decimal(n)), wide).0 == if n == 0 then Some(false) else if n == 1 then Some(true) else None
    ensures NextBool(None, wide) == (None, None) && NextTok(None) == (None, None)
  {
    var f := Field("", Num(n, false));
    assert Print([f]) == "" + Decimal(n) == Decimal(n);
    NumberStep([f], wide);
  }

  // ---------------------------------------------------------------- whole lines

  /** A response line: prefix, colon, fields. */
  function Line(prefix: string, fs: seq<Field>): string
    requires fs != []
  {
    prefix + ":" + Print(fs)
  }

  lemma ColonOfLine(prefix: string, fs: seq<Field>)
    requires fs != [] && ':' !in prefix
    ensures var s := Line(prefix, fs); ':' in s && s[IndexOf(s, ':') + 1..] == Print(fs)
  {
    var s := Line(prefix, fs);
    assert s[..|prefix|] == prefix && s[|prefix|] == ':';
    IndexOfIs(s, ':', |prefix|);
  }

  /** The value of a numeric field. */
  function NumberOf(b: Body): int
    requires WellFormedBody(b) && (b.Num? || b.Hex?)
  {
    if b.Num? then b.v else ToInt32(ValueOf(b.word, 16))
  }

  /** nextTok on a line that goes on with a field. */
  lemma TextStep(fs: seq<Field>)
    requires fs != [] && WellFormed(fs[0])
    ensures var (tok, rest) := NextTok(Some(Print(fs)));
            tok == Some(Word(fs[0].body)) && IsRest(rest, MoreOf(fs))
  {
    PrintSplit(fs);
    TokenOfField(fs[0], MoreOf(fs));
  }

  /** at_tok_nextint or at_tok_nexthexint on a line that goes on with a field of that kind. */
  lemma NumberStep(fs: seq<Field>, wide: bool)
    requires fs != [] && WellFormed(fs[0]) && (fs[0].body.Num? || fs[0].body.Hex?)
    ensures var b := fs[0].body;
            var (v, rest) := NextNumber(Some(Print(fs)), if b.Hex? then 16 else 10, b.Hex?, wide);
            v == Some(NumberOf(b)) && IsRest(rest, MoreOf(fs))
  {
    TextStep(fs);
    WordNumber(fs[0].body, wide);
  }

  // ---------------------------------------------------------------- a caller that keeps its tokens

  lemma {:induction false} ExpectedAt(fs: seq<Field>)
    requires AllWellFormed(fs)
    ensures |ExpectedAll(fs)| == |fs|
    ensures forall k :: 0 <= k < |fs| ==> ExpectedAll(fs)[k] == Expected(fs[k].body)
    decreases |fs|
  {
    if fs != [] {
      ExpectedAt(fs[1..]);
    }
  }

  method ReadOne(line: AtLine, b: Body) returns (v: Value, tok: nat)
    requires line.Valid()
    modifies line`cur, line.buf
    ensures line.Valid() && line.OnlyAheadWritten()
    ensures (v, line.Left()) == Read(old(line.Left()), b, line.wide)
    ensures v.Text? ==> line.Holds(tok, v.s)
  {
    tok := 0;
    match b {
      case Num(_, _) =>
        var rc, n := line.NextInt();
        v := if rc == 0 then Number(n) else Failed;
      case Hex(_, _) =>
        var rc, n := line.NextHexInt();
        v := if rc == 0 then Number(n) else Failed;
      case Flag(_) =>
        var rc, x := line.NextBoolean();
        v := if rc == 0 then Truth(x) else Failed;
      case _ =>
        var rc, t := line.NextStr();
        if rc == 0 {
          CStrIs(line.buf[..], t.value, NextTok(old(line.Left())).0.value);
          tok, v := t.value, Text(CStr(line.buf[..], t.value));
        } else {
          v := Failed;
        }
    }
  }

  /** Every string token handed out so far still reads as it did. */
  ghost predicate AllHold(line: AtLine, values: seq<Value>, toks: seq<nat>)
    reads line, line.buf
  {
    |values| == |toks| && forall j :: 0 <= j < |toks| && values[j].Text? ==> line.Holds(toks[j], values[j].s)
  }

  /** One more call; the tokens already handed out are not altered. */
  method ReadNext(line: AtLine, b: Body, values: seq<Value>, toks: seq<nat>) returns (v: Value, tok: nat)
    requires line.Valid() && AllHold(line, values, toks)
    modifies line`cur, line.buf
    ensures line.Valid() && AllHold(line, values + [v], toks + [tok])
    ensures (v, line.Left()) == Read(old(line.Left()), b, line.wide)
  {
    ghost var m, cur := line.buf[..], line.cur;
    v, tok := ReadOne(line, b);
    forall j | 0 <= j < |toks| && values[j].Text?
      ensures line.Holds(toks[j], values[j].s)
    {
      TokenStays(m, cur, line.buf[..], line.cur, toks[j], values[j].s);
    }
  }

  /** Reads a whole line with the matching calls, keeping every string token as an offset until the end. */
  method ReadLine(line: AtLine, fs: seq<Field>, ghost prefix: string) returns (values: seq<Value>, toks: seq<nat>)
    requires line.Valid() && fs != [] && AllWellFormed(fs) && ':' !in prefix
    requires line.Left() == Some(Line(prefix, fs))
    modifies line`cur, line.buf
    ensures line.Valid() && values == ExpectedAll(fs) && !HasMore(line.Left())
    ensures AllHold(line, values, toks)
  {
    ColonOfLine(prefix, fs);
    ReadInvertsPrint(fs, line.wide);
    var rc := line.Start();
    values, toks := [], [];
    ghost var all := ReadAll(Some(Print(fs)), fs, line.wide);
    ghost var todo, left := fs, line.Left();
    assert fs[0..] == fs && [] + all.0 == all.0;
    for k := 0 to |fs|
      invariant line.Valid() && AllHold(line, values, toks)
      invariant todo == fs[k..] && left == line.Left()
      invariant Extend(values, ReadAll(left, todo, line.wide)) == all
    {
      ExtendStep(values, left, todo, line.wide);
      var v, tok := ReadNext(line, fs[k].body, values, toks);
      todo, left := todo[1..], line.Left();
      values, toks := values + [v], toks + [tok];
    }
    assert values + [] == values;
  }

  function Extend(vs: seq<Value>, r: (seq<Value>, Left)): (seq<Value>, Left) {
    (vs + r.0, r.1)
  }

  lemma ExtendStep(vs: seq<Value>, left: Left, fs: seq<Field>, wide: bool)
    requires fs != []
    ensures var (v, rest) := Read(left, fs[0].body, wide);
            Extend(vs, ReadAll(left, fs, wide)) == Extend(vs + [v], ReadAll(rest, fs[1..], wide))
  {
    var (v, rest) := Read(left, fs[0].body, wide);
    var later := ReadAll(rest, fs[1..], wide);
    assert vs + ([v] + later.0) == (vs + [v]) + later.0;
  }
}
