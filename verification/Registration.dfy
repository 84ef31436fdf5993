/** The registration reply of reference-ril.c: five shapes told apart by counting commas (3GPP TS 27.007
    section 7.2), parsed with the tokenizer and printed again with `%x`. */
module Registration {
  import opened CText
  import opened AtTok

  // ---------------------------------------------------------------- requestRegistrationState

  function Commas(s: string): nat {
    if s == "" then 0 else (if s[0] == ',' then 1 else 0) + Commas(s[1..])
  }

  datatype State = State(stat: int, lac: int, cid: int)

  /** The status and, when `located`, the location words after it. */
  function ReadStat(left: Left, located: bool, wide: bool): Option<State> {
    var (stat, l1) := NextNumber(left, 10, false, wide);
    if stat.None? then None
    else if !located then Some(State(stat.value, -1, -1))
    else
      var (lac, l2) := NextNumber(l1, 16, true, wide);
      if lac.None? then None else
        var (cid, _) := NextNumber(l2, 16, true, wide);
        if cid.None? then None else Some(State(stat.value, lac.value, cid.value))
  }

  /** The reply after its colon: the number of commas decides the shape. */
  function Parse(text: string, wide: bool): Option<State> {
    match Commas(text)
    case 0 => ReadStat(Some(text), false, wide)
    case 2 => ReadStat(Some(text), true, wide)
    case n =>
      if n == 1 || n == 3 || n == 4 then
        var (skip, rest) := NextNumber(Some(text), 10, false, wide);
        if skip.None? then None else ReadStat(rest, n != 1, wide)
      else None
  }

  /** The parsing part of requestRegistrationState; `response` is filled in place. */
  method RegistrationState(line: AtLine, response: array<int>) returns (ok: bool)
    requires line.Valid() && response.Length == 4
    modifies line`cur, line.buf, response
    ensures ok ==> old(line.Left()).Some? && ':' in old(line.Left()).value
    ensures old(line.Left()).Some? && ':' in old(line.Left()).value ==>
              var s := old(line.Left()).value;
              Parse(s[IndexOf(s, ':') + 1..], line.wide) ==
              if ok then Some(State(response[0], response[1], response[2])) else None
  {
    var err := line.Start();
    if err < 0 { return false; }
    ghost var text := line.Left().value;
    var commas := CountCommas(line);
    var skip: int;
    match commas {
      case 0 =>
        ok := ParseStat(line, response);
      case 1 =>
        err, skip := line.NextInt();
        if err < 0 { return false; }
        ok := ParseStat(line, response);
      case 2 =>
        ok := ParseStatAndLocation(line, response);
      case 3 =>
        err, skip := line.NextInt();
        if err < 0 { return false; }
        ok := ParseStatAndLocation(line, response);
      case 4 =>
        err, skip := line.NextInt();
        if err < 0 { return false; }
        ok := ParseStatAndLocation(line, response);
      case _ => ok := false;
    }
  }

  method CountCommas(line: AtLine) returns (commas: nat)
    requires line.Valid() && line.cur.Some?
    ensures commas == Commas(line.Left().value)
  {
    commas := 0;
    var p := line.cur.value;
    while line.buf[p] != '\0'
      invariant p < line.buf.Length
      invariant commas + Commas(CStr(line.buf[..], p)) == Commas(line.Left().value)
      decreases line.buf.Length - p
    {
      CStrHead(line.buf[..], p);
      if line.buf[p] == ',' {
        commas := commas + 1;
      }
      p := p + 1;
    }
    CStrHead(line.buf[..], p);
  }

  method ParseStat(line: AtLine, response: array<int>) returns (ok: bool)
    requires line.Valid() && response.Length == 4
    modifies line`cur, line.buf, response
    ensures ReadStat(old(line.Left()), false, line.wide) ==
            if ok then Some(State(response[0], response[1], response[2])) else None
  {
    var err, v := line.NextInt();
    if err < 0 { return false; }
    response[0] := v;
    response[1] := -1;
    response[2] := -1;
    ok := true;
  }

  method ParseStatAndLocation(line: AtLine, response: array<int>) returns (ok: bool)
    requires line.Valid() && response.Length == 4
    modifies line`cur, line.buf, response
    ensures ReadStat(old(line.Left()), true, line.wide) ==
            if ok then Some(State(response[0], response[1], response[2])) else None
  {
    var err, v := line.NextInt();
    if err < 0 { return false; }
    response[0] := v;
    err, v := line.NextHexInt();
    if err < 0 { return false; }
    response[1] := v;
    err, v := line.NextHexInt();
    if err < 0 { return false; }
    response[2] := v;
    ok := true;
  }

  // ---------------------------------------------------------------- the five shapes

  lemma {:induction false} CommasConcat(a: string, b: string)
    ensures Commas(a + b) == Commas(a) + Commas(b)
    decreases |a|
  {
    if a == "" {
      assert a + b == b;
    } else {
      assert (a + b)[1..] == a[1..] + b;
      CommasConcat(a[1..], b);
    }
  }

  lemma {:induction false} NoCommas(s: string)
    requires forall i :: 0 <= i < |s| ==> s[i] != ','
    ensures Commas(s) == 0
    decreases |s|
  {
    if s != "" {
      NoCommas(s[1..]);
    }
  }

  predicate IsNumeric(f: Field) {
    WellFormed(f) && (f.body.Num? || f.body.Hex?)
  }

  lemma NumericFieldHasNoComma(f: Field)
    requires IsNumeric(f)
    ensures Commas(PrintField(f)) == 0
  {
    NumericShape(f.body);
    var s := PrintField(f);
    forall i | 0 <= i < |s|
      ensures s[i] != ','
    {
      if i < |f.lead| {
        assert s[i] == f.lead[i] && f.lead[i] in f.lead;
      }
    }
    NoCommas(s);
  }

  lemma {:induction false} CommasOfPrint(fs: seq<Field>)
    requires fs != [] && forall i :: 0 <= i < |fs| ==> IsNumeric(fs[i])
    ensures Commas(Print(fs)) == |fs| - 1
    decreases |fs|
  {
    NumericFieldHasNoComma(fs[0]);
    if |fs| > 1 {
      CommasOfPrint(fs[1..]);
      CommasConcat(PrintField(fs[0]) + ",", Print(fs[1..]));
      CommasConcat(PrintField(fs[0]), ",");
      assert ","[1..] == "";
    }
  }

  /** A registration reply in one of the five shapes of 3GPP TS 27.007 section 7.2: `n` when solicited, the location
      words when registered, and a network type at the end of the longest. */
  datatype Reply = Reply(n: Option<Field>, stat: Field, location: Option<(Field, Field)>, netType: Option<Field>)

  predicate IsReply(r: Reply) {
    && (r.n.Some? ==> IsNumeric(r.n.value) && r.n.value.body.Num?)
    && IsNumeric(r.stat) && r.stat.body.Num?
    && (r.location.Some? ==> IsNumeric(r.location.value.0) && r.location.value.0.body.Hex? &&
                             IsNumeric(r.location.value.1) && r.location.value.1.body.Hex?)
    && (r.netType.Some? ==> IsNumeric(r.netType.value) && r.n.Some? && r.location.Some?)
  }

  function Fields(r: Reply): seq<Field> {
    (if r.n.Some? then [r.n.value] else []) + [r.stat] +
    (if r.location.Some? then [r.location.value.0, r.location.value.1] else []) +
    (if r.netType.Some? then [r.netType.value] else [])
  }

  /** What the reply says, in the ints the request handler works with. */
  function Says(r: Reply): State
    requires IsReply(r)
  {
    State(NumberOf(r.stat.body),
                 if r.location.Some? then NumberOf(r.location.value.0.body) else -1,
                 if r.location.Some? then NumberOf(r.location.value.1.body) else -1)
  }

  lemma StatOf(fs: seq<Field>, located: bool, wide: bool)
    requires |fs| >= (if located then 3 else 1) && IsNumeric(fs[0]) && fs[0].body.Num?
    requires located ==> IsNumeric(fs[1]) && fs[1].body.Hex? && IsNumeric(fs[2]) && fs[2].body.Hex?
    ensures ReadStat(Some(Print(fs)), located, wide) ==
            Some(State(NumberOf(fs[0].body), if located then NumberOf(fs[1].body) else -1,
                              if located then NumberOf(fs[2].body) else -1))
  {
    NumberStep(fs, wide);
    if located {
      NumberStep(fs[1..], wide);
      assert fs[1..][1..] == fs[2..];
      NumberStep(fs[2..], wide);
    }
  }

  /** All five shapes, solicited or not, parse to what the reply says. */
  lemma EveryShapeParses(r: Reply, wide: bool)
    requires IsReply(r)
    ensures Parse(Print(Fields(r)), wide) == Some(Says(r))
  {
    var fs := Fields(r);
    CommasOfPrint(fs);
    if r.n.Some? {
      NumberStep(fs, wide);
      StatOf(fs[1..], r.location.Some?, wide);
    } else {
      StatOf(fs, r.location.Some?, wide);
    }
  }

  /** The same from the whole line, whatever its prefix. */
  lemma WholeLineParses(r: Reply, prefix: string, wide: bool)
    requires IsReply(r) && ':' !in prefix
    ensures var s := Line(prefix, Fields(r));
            ':' in s && Parse(s[IndexOf(s, ':') + 1..], wide) == Some(Says(r))
  {
    ColonOfLine(prefix, Fields(r));
    EveryShapeParses(r, wide);
  }

  /** `%x` printing then gives back the modem's words in canonical form, and ffffffff when there were none. */
  lemma LocationPrintsCanonically(r: Reply)
    requires IsReply(r)
    ensures r.location.Some? ==>
              && Hex32(Says(r).lac) == Digits(ValueOf(r.location.value.0.body.word, 16), 16)
              && Hex32(Says(r).cid) == Digits(ValueOf(r.location.value.1.body.word, 16), 16)
    ensures r.location.None? ==> Says(r).lac == Says(r).cid == -1
  {
    if r.location.Some? {
      HexTrip(r.location.value.0.body.word);
      HexTrip(r.location.value.1.body.word);
    }
  }

  /** So words that the modem sent in canonical form are printed as it sent them. */
  lemma CanonicalLocationUnchanged(r: Reply)
    requires IsReply(r) && r.location.Some?
    ensures var lac, cid := r.location.value.0.body.word, r.location.value.1.body.word;
            (IsCanonical(lac) ==> Hex32(Says(r).lac) == lac) && (IsCanonical(cid) ==> Hex32(Says(r).cid) == cid)
  {
    LocationPrintsCanonically(r);
    var lac, cid := r.location.value.0.body.word, r.location.value.1.body.word;
    if IsCanonical(lac) { CanonicalWord(lac); }
    if IsCanonical(cid) { CanonicalWord(cid); }
  }

  /** The one ambiguity: a missing location reads like the words ffffffff, and like nothing else. */
  lemma MissingReadsAsAllOnes(r: Reply)
    requires IsReply(r)
    ensures Says(r).lac == -1 <==> r.location.None? || ValueOf(r.location.value.0.body.word, 16) == 0xFFFF_FFFF
    ensures Says(r).cid == -1 <==> r.location.None? || ValueOf(r.location.value.1.body.word, 16) == 0xFFFF_FFFF
  {
    if r.location.Some? {
      Int32Trip(ValueOf(r.location.value.0.body.word, 16));
      Int32Trip(ValueOf(r.location.value.1.body.word, 16));
    }
  }

  /** The shortest solicited reply, with its blank: the first number is skipped, the second is the status. */
  lemma BlankBeforeNumber(n: int, stat: int, wide: bool)
    requires -0x8000_0000 <= n < 0x8000_0000 && -0x8000_0000 <= stat < 0x8000_0000
    ensures Parse(" " + Decimal(n) + "," + Decimal(stat), wide) == Some(State(stat, -1, -1))
  {
    var first, second := Field(" ", Num(n, false)), Field("", Num(stat, false));
    var r := Reply(Some(first), second, None, None);
    SpacesAre(' ');
    assert Fields(r) == [first, second] && [first, second][1..] == [second];
    assert Print([second]) == "" + Decimal(stat) == Decimal(stat);
    assert Print([first, second]) == " " + Decimal(n) + "," + Decimal(stat);
    EveryShapeParses(r, wide);
  }

  /** More than five fields are no registration reply. */
  lemma TooManyFields(fs: seq<Field>, wide: bool)
    requires |fs| > 5 && forall i :: 0 <= i < |fs| ==> IsNumeric(fs[i])
    ensures Parse(Print(fs), wide) == None
  {
    CommasOfPrint(fs);
  }
}
