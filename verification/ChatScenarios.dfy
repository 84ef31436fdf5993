/** What single directives and whole short scripts of chat.c do, said with the words, codes and bytes themselves. */
module ChatScenarios {
  import opened CText
  import opened ChatControl
  import opened ChatEscapes
  import ChatAborts
  import ChatFile
  import opened ChatMatcher
  import opened ChatReports
  import opened ChatScript
  import opened ChatSplit
  import opened ChatWindow
  import opened ChatWords

  // ---------------------------------------------------------------- how a wait ends

  /** The exit codes of get_string: 3 when the input ends or falls silent with nothing heard, 4 and the number of the abort
      string when one is, 1 for a string that is too long to wait for; a match and an empty string leave the code alone. */
  lemma ExitCodes(st: Setup, w: World, s: string, v: Verdict, used: nat)
    requires var want := CleanText(s, false, st.cfg);
             IsVerdict(w.input, want, w.aborts, v, used) && !Watched(w.input, used, w.reports).overrun
    ensures var want := CleanText(s, false, st.cfg);
            var heard := w.(input := w.input[used..], reports := Watched(w.input, used, w.reports));
            GetString(st, w, s) ==
            if |want| > 1024 then (No, w.(exitCode := 1))
            else if want == "" then (Yes, w)
            else match v
                 case Matched => (Yes, heard)
                 case Aborted(n) => (No, heard.(exitCode := 4 + n))
                 case GaveUp => (No, heard.(exitCode := 3))
  {
    var want := CleanText(s, false, st.cfg);
    DecideMeaning(w.input, want, w.aborts);
    var (u, k) := Decide(w.input, 0, "", want, w.aborts);
    VerdictUnique(w.input, want, w.aborts, u, k, v, used);
  }

  // ---------------------------------------------------------------- words to send

  /** A word that is sent as it is. */
  predicate IsSent(q: string) {
    && (forall i :: 0 <= i < |q| ==> q[i] != '^' && q[i] != '\\' && q[i] != '$' && q[i] != '\0')
    && q != "EOT" && q != "BREAK" && (q != "" ==> q[0] != '@')
  }

  lemma {:induction false} PlainIsSame(q: string, useEnv: bool)
    requires forall i :: 0 <= i < |q| ==> q[i] != '^' && q[i] != '\\' && q[i] != '$'
    ensures AllSame(q, useEnv)
    decreases |q|
  {
    if q != "" {
      assert NextToken(q, useEnv) == (Plain(q[0]), 1);
      PlainIsSame(q[1..], useEnv);
    }
  }

  lemma {:induction false} CleanSame(q: string, cfg: Config)
    requires forall i :: 0 <= i < |q| ==> q[i] != '^' && q[i] != '\\' && q[i] != '$'
    ensures CleanText(q, false, cfg) == q && Body(q, true, cfg) == q
    decreases |q|
  {
    if q != "" {
      assert NextToken(q, cfg.useEnv) == (Plain(q[0]), 1) && q == [q[0]] + q[1..];
      CleanSame(q[1..], cfg);
      assert Body(q, false, cfg) == [q[0]] + Body(q[1..], false, cfg);
      assert Body(q, true, cfg) == [q[0]] + Body(q[1..], true, cfg);
    }
  }

  /** The bytes of a word and a carriage return. */
  function Line(q: string): (b: seq<Action>)
    ensures |b| == |q| + 1
  {
    Bytes(q) + [Byte(13 as char)]
  }

  /** The state in which the word and its return have been written. */
  function Sent(w: World, q: string): World
    requires w.room >= |q| + 1
  {
    w.(output := w.output + Line(q), room := w.room - (|q| + 1))
  }

  lemma SentAsIs(q: string, cfg: Config)
    requires IsSent(q)
    ensures Interpret(q, cfg) == Line(q)
  {
    PlainIsSame(q, cfg.useEnv);
    CleanSame(q, cfg);
    WaitsForWhatIsSent(q, cfg);
  }

  predicate AllBytes(b: seq<Action>) {
    forall i :: 0 <= i < |b| ==> b[i].Byte?
  }

  /** Bytes are written one after another as long as they can be. */
  lemma {:induction false} EmitBytes(b: seq<Action>, room: nat)
    requires AllBytes(b)
    ensures Emit(b, room) == if |b| <= room then (true, b, room - |b|) else (false, b[..room], 0)
    decreases |b|
  {
    if b != [] && room > 0 {
      EmitBytes(b[1..], room - 1);
      assert b == [b[0]] + b[1..];
      if |b| > room {
        assert b[..room] == [b[0]] + b[1..][..room - 1];
      }
    } else if b != [] {
      assert b[..0] == [];
    }
  }

  /** Sending a word: its bytes and a return, or status 1 when they cannot all be written. */
  lemma WordIsSent(st: Setup, w: World, q: string)
    requires IsSent(q)
    ensures PlainSend(st, w, q) ==
            if |q| + 1 <= w.room then Running(Sent(w, q))
            else Exited(Status(1), w.(output := w.output + Line(q)[..w.room], room := 0))
  {
    SentAsIs(q, st.cfg);
    EmitBytes(Line(q), w.room);
  }

  /** `@name`, with blanks between: the text of the file less a final newline is sent; a file that is not there is status
      1. */
  lemma FileIsSent(st: Setup, w: World, name: string, text: string)
    requires name != "" && name[0] != ' ' && name[0] != '\t' && IsSent(text) && |text| < 1023
    requires text != "" ==> text[|text| - 1] != '\n'
    requires name in st.files && (st.files[name] == text || st.files[name] == text + "\n")
    ensures PlainSend(st, w, "@ \t" + name) == PlainSend(st, w, text) == PlainSend(st, w, "@" + name)
  {
    var content := st.files[name];
    NameBehindAt(name);
    assert content == text + "\n" ==> content[..|content| - 1] == text;
    assert NulAt(text, 0) == |text|;
    assert FileText(content) == text;
  }

  lemma NameBehindAt(name: string)
    requires name != "" && name[0] != ' ' && name[0] != '\t'
    ensures FileName("@ \t" + name) == Some(name) == FileName("@" + name)
  {
    var a, b := "@ \t" + name, "@" + name;
    BlanksSkipped(name);
    assert a[1..] == " \t" + name && b[1..] == name;
  }

  lemma BlanksSkipped(name: string)
    requires name != "" && name[0] != ' ' && name[0] != '\t'
    ensures ChatFile.SkipBlanks(name) == name && ChatFile.SkipBlanks(" \t" + name) == name
  {
    var a, b := " \t" + name, "\t" + name;
    assert a[1..] == b && b[1..] == name;
    assert ChatFile.SkipBlanks(b) == ChatFile.SkipBlanks(b[1..]);
    assert ChatFile.SkipBlanks(a) == ChatFile.SkipBlanks(a[1..]);
  }

  lemma MissingFileFails(st: Setup, w: World, name: string)
    requires name != "" && name[0] != ' ' && name[0] != '\t' && name !in st.files
    ensures PlainSend(st, w, "@" + name) == Exited(Status(1), w)
  {
    NameBehindAt(name);
  }

  // ---------------------------------------------------------------- single directives

  /** ABORT and REPORT add their string at the end; a full table is status 2, a string of 50 characters status 1. */
  lemma StringsAreDeclared(st: Setup, w: World, p: string)
    requires forall i :: 0 <= i < |p| ==> p[i] != '^' && p[i] != '\\' && p[i] != '$'
    ensures Apply(st, w, ABORT, p) ==
            if |w.aborts| >= 50 then Exited(Status(2), w) else if |p| >= 50 then Exited(Status(1), w)
            else Running(w.(aborts := w.aborts + [p]))
    ensures Apply(st, w, REPORT, p) ==
            if |w.reports.slots| >= 50 then Exited(Status(2), w) else if |p| >= 50 then Exited(Status(1), w)
            else Running(w.(reports := w.reports.(slots := w.reports.slots + [Some(p)])))
    ensures |p| >= 50 ==> Apply(st, w, CLR_ABORT, p) == Exited(Status(1), w) == Apply(st, w, CLR_REPORT, p)
  {
    CleanSame(p, st.cfg);
  }

  /** An escaped blank in the string of ABORT is a blank. */
  lemma BlankIsDeclared(st: Setup, w: World, a: string, b: string)
    requires StandsForItself(a) && StandsForItself(b) && |a| + 1 + |b| < 50 && |w.aborts| < 50
    ensures Apply(st, w, ABORT, a + ("\\s" + b)) == Running(w.(aborts := w.aborts + [a + (" " + b)]))
  {
    BlankInside(a, b, st.cfg);
  }

  lemma BlankFirst(b: string, cfg: Config)
    requires StandsForItself(b)
    ensures CleanText("\\s" + b, false, cfg) == " " + b
  {
    var s := "\\s" + b;
    assert NextToken(s, cfg.useEnv) == (Escape('s'), 2) && s[2..] == b;
    CleanPlain(b, cfg);
    assert Body(s, false, cfg) == " " + Body(b, false, cfg);
  }

  lemma {:induction false} BlankInside(a: string, b: string, cfg: Config)
    requires StandsForItself(a) && StandsForItself(b)
    ensures CleanText(a + ("\\s" + b), false, cfg) == a + (" " + b)
    decreases |a|
  {
    var s := a + ("\\s" + b);
    if a == "" {
      assert s == "\\s" + b && a + (" " + b) == " " + b;
      BlankFirst(b, cfg);
    } else {
      assert s[1..] == a[1..] + ("\\s" + b) && a + (" " + b) == [a[0]] + (a[1..] + (" " + b));
      assert NextToken(s, cfg.useEnv) == (Plain(a[0]), 1);
      BlankInside(a[1..], b, cfg);
      assert Body(s, false, cfg) == [a[0]] + Body(s[1..], false, cfg);
    }
  }

  /** While no report has fired CLR_REPORT does to the report strings what CLR_ABORT does to the abort strings. */
  lemma ReportsAreCleared(st: Setup, w: World, p: string, t: seq<string>)
    requires StandsForItself(p) && |p| < 50 && w.reports.slots == Live(t)
    ensures Apply(st, w, CLR_REPORT, p) == Running(w.(reports := w.reports.(slots := Live(ChatAborts.Clear(t, p)))))
    ensures Apply(st, w.(aborts := t), CLR_ABORT, p) == Running(w.(aborts := ChatAborts.Clear(t, p)))
  {
    CleanPlain(p, st.cfg);
    ClearReportOfLive(t, p);
  }

  /** TIMEOUT takes a positive number, and 45 for any other. */
  lemma TimeoutIsSet(st: Setup, w: World, n: int, s: string)
    requires -0x8000_0000 <= n < 0x8000_0000
    ensures Apply(st, w, TIMEOUT, Decimal(n)) == Running(w.(timeout := if n > 0 then n else 45))
    ensures CleanText(s, false, st.cfg) == Decimal(n) ==>
              Apply(st, w, TIMEOUT, s) == Running(w.(timeout := if n > 0 then n else 45))
  {
    DecimalChars(n);
    TimeoutOf(st, w, Decimal(n));
    NewTimeoutIs(n);
  }

  lemma TimeoutOf(st: Setup, w: World, s: string)
    requires forall i :: 0 <= i < |s| ==> s[i] != '^' && s[i] != '\\' && s[i] != '$'
    ensures Apply(st, w, TIMEOUT, s) == Running(w.(timeout := NewTimeout(s)))
  {
    CleanSame(s, st.cfg);
  }

  lemma NewTimeoutIs(n: int)
    requires -0x8000_0000 <= n < 0x8000_0000
    ensures NewTimeout(Decimal(n)) == if n > 0 then n else 45
  {
    ParseDecimal(n, false);
    assert ToInt32(n) == n;
  }

  lemma DecimalChars(n: int)
    ensures forall i :: 0 <= i < |Decimal(n)| ==> Decimal(n)[i] == '-' || '0' <= Decimal(n)[i] <= '9'
  {
    var v := if n < 0 then -n else n;
    DigitsValue(v, 10);
    assert forall i :: 0 <= i < |Digits(v, 10)| ==> Digits(v, 10)[i] in Digits(v, 10);
  }

  /** A word without a number is a timeout of 45. */
  lemma NoTimeout(st: Setup, w: World)
    ensures Apply(st, w, TIMEOUT, "") == Running(w.(timeout := 45))
  {
    CleanSame("", st.cfg);
  }

  /** ECHO is on exactly for "ON", HANGUP ignores a hangup exactly for "OFF", SAY writes its word and a return. */
  lemma SwitchesAndSay(st: Setup, w: World, s: string)
    ensures Apply(st, w, ECHO, s).Running? && Apply(st, w, HANGUP, s).Running?
    ensures Apply(st, w, ECHO, s).w == w.(echo := (s == ['O', 'N']))
    ensures Apply(st, w, HANGUP, s).w == w.(hangupIgnored := (s == ['O', 'F', 'F']))
    ensures IsSent(s) ==> Apply(st, w, SAY, s) == Running(w.(console := w.console + [s + [13 as char]]))
  {
    if IsSent(s) {
      Said(s, st.cfg);
    }
  }

  lemma Said(s: string, cfg: Config)
    requires IsSent(s)
    ensures CStr(CleanText(s, true, cfg), 0) == s + [13 as char]
  {
    CleanSame(s, cfg);
    PlainIsSame(s, cfg.useEnv);
    SameBody(s, cfg);
    var text := s + "\r";
    assert CleanText(s, true, cfg) == text;
    assert forall i :: 0 <= i < |text| ==> text[i] != '\0';
    assert NulAt(text, 0) == |text| && text[0..|text|] == text;
  }

  // ---------------------------------------------------------------- a dialogue

  /** No report is declared or under way. */
  predicate NoReports(r: Reports) {
    r.slots == [] && r.gathering.None? && !r.overrun
  }

  lemma {:induction false} NothingReported(feed: seq<Event>, k: nat, r: Reports)
    requires k <= |feed| && NoReports(r)
    ensures Watched(feed, k, r) == r
  {
    if k > 0 {
      NothingReported(feed, k - 1, r);
    }
  }

  /** Silence first. */
  lemma SilenceIsTimeout(st: Setup, w: World, p: string, more: seq<Event>)
    requires IsPlainWord(p) && NoReports(w.reports) && w.input == [Silence] + more
    ensures GetString(st, w, p) == (No, w.(input := more, exitCode := 3))
  {
    CleanPlain(p, st.cfg);
    NothingReported(w.input, 1, w.reports);
    ExitCodes(st, w, p, GaveUp, 1);
    assert w.input[1..] == more;
  }

  /** The word awaited, or the only abort string. */
  lemma WordIsHeard(st: Setup, w: World, t: string, more: seq<Event>, q: string)
    requires IsPlainWord(q) && NoReports(w.reports) && Says(w.input, t, more) && t != "" && |w.aborts| <= 1
    requires EndsWith(t, q) || (|w.aborts| == 1 && EndsWith(t, w.aborts[0]))
    requires forall j :: 0 <= j < |t| ==> !EndsWith(t[..j], q) && (|w.aborts| == 1 ==> !EndsWith(t[..j], w.aborts[0]))
    ensures GetString(st, w, q) ==
            if EndsWith(t, q) then (Yes, w.(input := more)) else (No, w.(input := more, exitCode := 4))
  {
    CleanPlain(q, st.cfg);
    DecideFeed(w.input, t, more, q, w.aborts);
    NothingReported(w.input, |t|, w.reports);
    DecideMeaning(w.input, q, w.aborts);
    ExitCodes(st, w, q, if EndsWith(t, q) then Matched else Aborted(0), |t|);
    assert w.input[|t|..] == more;
  }

  lemma DashIsNoKeyword(s: string, i: nat)
    requires i < |s| && s[i] == '-'
    ensures Keyword(s).None?
  {
    forall d: Directive
      ensures Keyword(s) != Some(d)
    {
      KeywordIff(s, d);
      NamesHaveNoDash(d);
      assert s[i] in s;
    }
    NoneOf(Keyword(s));
  }

  lemma NoneOf<T>(o: Option<T>)
    requires forall v :: o != Some(v)
    ensures o.None?
  {
  }

  lemma NamesHaveNoDash(d: Directive)
    ensures '-' !in NameOf(d)
  {
  }

  lemma {:induction false} PlainIsToken(p: string)
    requires StandsForItself(p)
    ensures IsToken(p)
    decreases |p|
  {
    if p != "" {
      PlainIsToken(p[1..]);
    }
  }

  lemma ThreeTokens(p: string, q: string, r: string)
    requires StandsForItself(p) && StandsForItself(q) && StandsForItself(r) && r != ""
    ensures Split(p + "-" + (q + "-" + r)) == [p, q, r]
  {
    var ts := [p, q, r];
    PlainIsToken(p);
    PlainIsToken(q);
    PlainIsToken(r);
    assert ts[1..] == [q, r] && [q, r][1..] == [r];
    assert Join([r]) == r && Join([q, r]) == q + "-" + r && Join(ts) == p + "-" + (q + "-" + r);
    SplitInvertsJoin(ts);
  }

  /** An expect word with a reply and a second expect word, on a modem that stays silent and then answers. */
  lemma AnsweredDialogue<W>(ops: Ops<W>, w: W, p: string, q: string, r: string, x: W, y: W, z: W)
    requires ops.wait(w, p) == (false, Status(3), x) && ops.plain(x, q) == Running(y)
    requires ops.wait(y, r).0 && ops.wait(y, r).2 == z
    ensures Dialogue(ops, w, [p, q, r]) == Running(z)
  {
    assert [p, q, r][2..] == [r];
  }

  /** `p-q-r` on a modem that is silent and then says `r`: `q` is sent with a return. */
  lemma SilenceIsAnswered(st: Setup, w: World, p: string, q: string, r: string, more: seq<Event>)
    requires IsPlainWord(p) && IsPlainWord(q) && IsPlainWord(r) && IsSent(q)
    requires w.aborts == [] && NoReports(w.reports) && w.input == [Silence] + (Feed(r) + more) && w.room >= |q| + 1
    ensures Dialogue(OpsOf(st), w, [p, q, r]) ==
            Running(Sent(w.(input := Feed(r) + more, exitCode := 3), q).(input := more))
  {
    var x := w.(input := Feed(r) + more, exitCode := 3);
    var y := Sent(x, q);
    SilenceWaits(st, w, p, Feed(r) + more);
    WordGoesOut(st, x, q);
    AnswerWaits(st, y, r, more);
    AnsweredDialogue(OpsOf(st), w, p, q, r, x, y, y.(input := more));
  }

  lemma SilenceWaits(st: Setup, w: World, p: string, more: seq<Event>)
    requires IsPlainWord(p) && NoReports(w.reports) && w.input == [Silence] + more
    ensures OpsOf(st).wait(w, p) == (false, Status(3), w.(input := more, exitCode := 3))
  {
    SilenceIsTimeout(st, w, p, more);
  }

  lemma AnswerWaits(st: Setup, w: World, r: string, more: seq<Event>)
    requires IsPlainWord(r) && NoReports(w.reports) && Says(w.input, r, more) && w.aborts == []
    ensures OpsOf(st).wait(w, r).0 && OpsOf(st).wait(w, r).2 == w.(input := more)
  {
    forall j | 0 <= j < |r|
      ensures !EndsWith(r[..j], r)
    {
      ShorterPrefix(r, j);
    }
    assert r[..|r|] == r;
    WordWaits(st, w, r, r, more);
  }

  /** `p-q-r ''` on a modem that is silent and then says `r`: `q` is sent with a return, and the script goes on. */
  lemma ReplyIsSent(st: Setup, w: World, p: string, q: string, r: string, more: seq<Event>)
    requires IsPlainWord(p) && IsPlainWord(q) && IsPlainWord(r) && IsSent(q)
    requires w.aborts == [] && NoReports(w.reports) && w.input == [Silence] + (Feed(r) + more) && w.room >= |q| + 2
    ensures Interpreter(OpsOf(st), SPLIT, w, [p + "-" + (q + "-" + r), ""]) ==
            Running(w.(input := more, exitCode := 3, output := w.output + Line(q) + Line(""), room := w.room - (|q| + 2)))
  {
    var x := w.(input := Feed(r) + more, exitCode := 3);
    SilenceIsAnswered(st, w, p, q, r, more);
    DialoguePair(st, w, p, q, r, Sent(x, q).(input := more));
    SentTwice(w, x, q, more);
  }

  lemma SentTwice(w: World, x: World, q: string, more: seq<Event>)
    requires w.room >= |q| + 2 && x == w.(input := x.input, exitCode := 3)
    ensures Sent(Sent(x, q).(input := more), "") ==
            w.(input := more, exitCode := 3, output := w.output + Line(q) + Line(""), room := w.room - (|q| + 2))
  {
  }

  /** A word whose dialogue returns, and a return. */
  lemma DialoguePair(st: Setup, w: World, p: string, q: string, r: string, z: World)
    requires IsPlainWord(p) && IsPlainWord(q) && IsPlainWord(r)
    requires Dialogue(OpsOf(st), w, [p, q, r]) == Running(z) && z.room >= 1
    ensures Interpreter(OpsOf(st), SPLIT, w, [p + "-" + (q + "-" + r), ""]) == Running(Sent(z, ""))
  {
    var word := p + "-" + (q + "-" + r);
    ThreeTokens(p, q, r);
    DashIsNoKeyword(word, |p|);
    WordGoesOut(st, z, "");
    GoesOn(OpsOf(st), SPLIT, w, word, "", z);
    TwoWords(OpsOf(st), SPLIT, w, word, "");
  }

  lemma WordGoesOut(st: Setup, z: World, q: string)
    requires IsSent(q) && z.room >= |q| + 1
    ensures OpsOf(st).plain(z, q) == Running(Sent(z, q))
  {
    WordIsSent(st, z, q);
  }

  lemma TwoWords<W>(ops: Ops<W>, split: string -> seq<string>, w: W, a: string, b: string)
    ensures Interpreter(ops, split, w, [a, b]) == Pair(ops, split, w, a, b)
  {
    OnePair(ops, split, w, [a, b]);
  }

  lemma GoesOn<W>(ops: Ops<W>, split: string -> seq<string>, w: W, first: string, second: string, z: W)
    requires ops.keyword(first).None? && Dialogue(ops, w, split(first)) == Running(z)
    ensures Pair(ops, split, w, first, second) == ops.plain(z, second)
  {
  }

  // ---------------------------------------------------------------- abort strings

  /** The modem says `p`, and has not said `q` by then. */
  predicate SaysBefore(p: string, q: string) {
    forall j :: 0 <= j <= |p| ==> !EndsWith(p[..j], q)
  }

  lemma ShorterPrefix(p: string, j: nat)
    requires j < |p|
    ensures !EndsWith(p[..j], p)
  {
  }

  /** `ABORT p q ''` on a modem that says `p`: status 4. */
  lemma AbortEndsScript(st: Setup, w: World, p: string, q: string, more: seq<Event>)
    requires IsPlainWord(p) && IsPlainWord(q) && SaysBefore(p, q)
    requires w.aborts == [] && NoReports(w.reports) && Says(w.input, p, more)
    ensures var o := Interpreter(OpsOf(st), SPLIT, w, ["ABORT", p, q, ""]);
            o.Exited? && o.end == Status(4)
  {
    var x := w.(aborts := [p]);
    AbortDeclared(st, w, p);
    forall j | 0 <= j < |p|
      ensures !EndsWith(p[..j], p)
    {
      ShorterPrefix(p, j);
    }
    assert p[..|p|] == p;
    WordIsHeard(st, x, p, more, q);
    ExpectPair(st, x, q);
    FourWords(OpsOf(st), SPLIT, w, x, "ABORT", p, q, "");
  }

  lemma AbortDeclared(st: Setup, w: World, p: string)
    requires IsPlainWord(p) && w.aborts == []
    ensures Pair(OpsOf(st), SPLIT, w, "ABORT", p) == Running(w.(aborts := [p]))
  {
    StringsAreDeclared(st, w, p);
    assert [] + [p] == [p];
    DirectivePair(st, w, ABORT, p);
  }

  lemma AbortCleared(st: Setup, w: World, p: string)
    requires IsPlainWord(p) && w.aborts == [p]
    ensures Pair(OpsOf(st), SPLIT, w, "CLR_ABORT", p) == Running(w.(aborts := []))
  {
    CleanPlain(p, st.cfg);
    ChatAborts.ClearRemovesFirst([p], p, 0);
    assert [p][..0] + [p][1..] == [];
    DirectivePair(st, w, CLR_ABORT, p);
  }

  lemma FourWords<W>(ops: Ops<W>, split: string -> seq<string>, w: W, x: W, a: string, b: string, c: string, d: string)
    requires Pair(ops, split, w, a, b) == Running(x)
    ensures Interpreter(ops, split, w, [a, b, c, d]) == Pair(ops, split, x, c, d)
  {
    assert [a, b, c, d][2..] == [c, d];
    OnePair(ops, split, x, [c, d]);
  }

  /** `ABORT p CLR_ABORT p q ''` on a modem that says `t`, which ends in `q` and may well contain `p`: the script goes
      on. */
  lemma ClearedAbortIsIgnored(st: Setup, w: World, p: string, q: string, t: string, more: seq<Event>)
    requires IsPlainWord(p) && IsPlainWord(q) && EndsWith(t, q) && forall j :: 0 <= j < |t| ==> !EndsWith(t[..j], q)
    requires w.aborts == [] && NoReports(w.reports) && Says(w.input, t, more) && w.room >= 1
    ensures Interpreter(OpsOf(st), SPLIT, w, ["ABORT", p, "CLR_ABORT", p, q, ""]) ==
            Running(Sent(w.(input := more), ""))
  {
    var x := w.(aborts := [p]);
    AbortDeclared(st, w, p);
    AbortCleared(st, x, p);
    assert x.(aborts := []) == w;
    HeardPair(st, w, q, t, more);
    SixWords(OpsOf(st), SPLIT, w, x, w, "ABORT", p, "CLR_ABORT", p, q, "");
  }

  lemma WordWaits(st: Setup, w: World, q: string, t: string, more: seq<Event>)
    requires IsPlainWord(q) && EndsWith(t, q) && forall j :: 0 <= j < |t| ==> !EndsWith(t[..j], q)
    requires w.aborts == [] && NoReports(w.reports) && Says(w.input, t, more)
    ensures Wait(st, w, q).0 && Wait(st, w, q).2 == w.(input := more)
  {
    WordIsHeard(st, w, t, more, q);
  }

  lemma PairAfter(st: Setup, w: World, q: string, x: World)
    requires IsPlainWord(q) && Wait(st, w, q).0 && Wait(st, w, q).2 == x && x.room >= 1
    ensures Pair(OpsOf(st), SPLIT, w, q, "") == Running(Sent(x, ""))
  {
    ExpectPair(st, w, q);
    assert Line("") == [Byte('\r')];
  }

  lemma HeardPair(st: Setup, w: World, q: string, t: string, more: seq<Event>)
    requires IsPlainWord(q) && EndsWith(t, q) && forall j :: 0 <= j < |t| ==> !EndsWith(t[..j], q)
    requires w.aborts == [] && NoReports(w.reports) && Says(w.input, t, more) && w.room >= 1
    ensures Pair(OpsOf(st), SPLIT, w, q, "") == Running(Sent(w.(input := more), ""))
  {
    WordWaits(st, w, q, t, more);
    PairAfter(st, w, q, w.(input := more));
  }
}
