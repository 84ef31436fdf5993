/** The script engine of chat.c with its globals: the methods are get_string, put_string, chat_send, chat_expect and the
    argument loop of main, each proved against the functions of ChatScript and ChatControl. */
module ChatEngine {
  import opened CText
  import opened ChatAborts
  import opened ChatControl
  import opened ChatEscapes
  import ChatFile
  import opened ChatMatcher
  import opened ChatReports
  import opened ChatScript
  import opened ChatSplit
  import opened ChatWindow

  class Chat {
    const st: PlainSetup
    const verbose: bool
    const aborts: AbortTable
    const reports: ReportTable
    const tok: StrTok

    var flags: Flags
    var timeout: int
    var echo: bool
    var hangupIgnored: bool
    var input: seq<Event>
    var output: seq<Action>
    var console: seq<string>
    var room: nat
    var exitCode: int
    var log: seq<string>
    /** How the program has ended. */
    var exited: Option<End>

    /** Table entries are C strings that fit `fail_buffer`. */
    static predicate ShortStrings(t: seq<string>) {
      forall k :: 0 <= k < |t| ==> NoNul(t[k]) && |t[k]| < FAIL_BUFFER
    }

    ghost predicate Valid()
      reads this, aborts, aborts.slots, reports, reports.slots
    {
      && aborts.slots != reports.slots && IsShortTable(aborts) && AreShortReports(reports)
    }

    static ghost predicate IsShortTable(t: AbortTable)
      reads t, t.slots
    {
      t.Valid() && ShortStrings(t.Entries())
    }

    static ghost predicate AreShortReports(t: ReportTable)
      reads t, t.slots
    {
      t.Valid() && ShortReports(t.View().slots)
    }

    ghost function Parts(): set<object>
      reads this
    {
      {this, aborts, aborts.slots, reports, reports.slots, tok}
    }

    function Now(): World
      reads this, aborts, aborts.slots, reports, reports.slots
    {
      World(aborts.Entries(), reports.View(), timeout, echo, hangupIgnored, input, output, console, room, exitCode)
    }

    function State(): Machine<World>
      reads this, aborts, aborts.slots, reports, reports.slots
    {
      Machine(flags, if exited.Some? then Exited(exited.value, Now()) else Running(Now()))
    }

    /** The globals at program start. */
    constructor (setup: PlainSetup, verbose: bool, feed: seq<Event>, capacity: nat)
      ensures Valid() && fresh(Parts()) && fresh(tok.str.mem) && IsString(tok.str)
      ensures st == setup
      ensures Now() == World([], NO_REPORTS, DEFAULT_TIMEOUT, false, false, feed, [], [], capacity, 0)
      ensures flags == NONE && exited.None?
    {
      st, this.verbose := setup, verbose;
      aborts := new AbortTable();
      reports := new ReportTable();
      var empty := new char[1](_ => '\0');
      tok := new StrTok(empty);
      flags, timeout, echo, hangupIgnored := NONE, DEFAULT_TIMEOUT, false, false;
      input, output, console, room, exitCode, log, exited := feed, [], [], capacity, 0, [], None;
    }

    /** The text of clean(s, 0). */
    method CleanString(s: string) returns (text: string)
      requires NoNul(s)
      ensures text == CleanText(s, false, st.cfg) && NoNul(text)
    {
      var s1, p := Clean(s, false, st.cfg);
      CleanIsString(s, st.cfg);
      assert s1[..][0..p] == CleanText(s, false, st.cfg);
      CStrIs(s1[..], 0, CleanText(s, false, st.cfg));
      text := CStr(s1[..], 0);
    }

    method GetString(s: string) returns (heard: Heard)
      requires Valid() && NoNul(s)
      modifies this`input, this`exitCode, this`log, reports, reports.slots
      ensures Valid() && (heard, Now()) == ChatScript.GetString(st, old(Now()), s)
    {
      var want := CleanString(s);
      if |want| > STR_LEN {
        exitCode := 1;
        return No;
      }
      if |want| == 0 {
        return Yes;
      }
      heard := Watch(want);
    }

    /** get_string from the first read on. */
    method Watch(want: string) returns (heard: Heard)
      requires Valid() && 1 <= |want| <= STR_LEN
      modifies this`input, this`exitCode, this`log, reports, reports.slots
      ensures Valid() && (heard, Now()) == WaitFor(old(Now()), want)
    {
      var v := Receive(want);
      heard := Conclude(v);
    }

    /** The reading loop on the input of the program. */
    method Receive(want: string) returns (v: Verdict)
      requires Valid() && 1 <= |want| <= STR_LEN
      modifies this`input, this`log, reports, reports.slots
      ensures Valid() && (v, Now()) == Read(old(Now()), want)
    {
      ghost var w := Now();
      var used, spans;
      ghost var pending;
      v, used, spans, pending := ScanStream(input, want, aborts.Entries(), reports, verbose);
      log := log + spans;
      input := input[used..];
      assert Now() == w.(input := w.input[used..], reports := Watched(w.input, used, w.reports));
    }

    /** The exits of get_string; nothing is concluded when a report has outgrown its buffer. */
    method Conclude(v: Verdict) returns (heard: Heard)
      requires Valid()
      modifies this`exitCode
      ensures Valid() && (heard, Now()) == Concluded(v, old(Now()))
    {
      if reports.overrun {
        return Lost;
      }
      match v {
        case Matched => heard := Yes;
        case Aborted(n) => heard, exitCode := No, n + 4;
        case GaveUp => heard, exitCode := No, 3;
      }
    }

    method PutString(s: string) returns (ok: bool)
      requires Valid() && NoNul(s)
      modifies this`output, this`room
      ensures Valid() && (ok, Now()) == ChatScript.PutString(st, old(Now()), s)
    {
      var s1, p := Clean(s, true, st.cfg);
      PipelineOnMemory(s, st.cfg, s1[..], p);
      var sent, left;
      ok, sent, left := Transmit(s1, room);
      output := output + sent;
      room := left;
    }

    /** fatal and terminate. */
    method Exit(code: int)
      modifies this`exited
      ensures exited == Some(Status(code))
    {
      exited := Some(Status(code));
    }

    /** The string of a table directive cleaned; None when it fails the tests on its length. */
    method CleanEntry(s: string) returns (s1: Option<string>)
      requires NoNul(s)
      ensures s1 == if TooLong(CleanText(s, false, st.cfg), s) then None else Some(CleanText(s, false, st.cfg))
      ensures s1.Some? ==> NoNul(s1.value) && |s1.value| < FAIL_BUFFER
    {
      var text := CleanString(s);
      s1 := if |text| > |s| || |text| + 1 > FAIL_BUFFER then None else Some(text);
    }

    static lemma ShortAppend(t: seq<string>, s: string)
      requires ShortStrings(t) && NoNul(s) && |s| < FAIL_BUFFER
      ensures ShortStrings(t + [s])
    {
    }

    /** ABORT */
    method DeclareString(t: AbortTable, s: string)
      requires IsShortTable(t) && NoNul(s) && exited.None?
      modifies this`exited, t, t.slots
      ensures IsShortTable(t)
      ensures var (code, entries) := Declared(old(t.Entries()), CleanText(s, false, st.cfg), s);
              t.Entries() == entries && exited == if code == 0 then None else Some(Status(code))
    {
      if t.n >= MAX_ABORTS {
        Exit(2);
        return;
      }
      var s1 := CleanEntry(s);
      if s1.None? {
        Exit(1);
        return;
      }
      ShortAppend(t.Entries(), s1.value);
      var ok := t.Add(s1.value);
    }

    /** CLR_ABORT */
    method ClearString(t: AbortTable, s: string)
      requires IsShortTable(t) && NoNul(s) && exited.None?
      modifies this`exited, t, t.slots
      ensures IsShortTable(t)
      ensures var (code, entries) := Cleared(old(t.Entries()), CleanText(s, false, st.cfg), s);
              t.Entries() == entries && exited == if code == 0 then None else Some(Status(code))
    {
      var s1 := CleanEntry(s);
      if s1.None? {
        Exit(1);
        return;
      }
      SurvivorsAreEntries(t.Entries(), s1.value, 0, 0, FAIL_BUFFER);
      t.ClearAbort(s1.value);
    }

    /** REPORT */
    method DeclareReport(s: string)
      requires Valid() && NoNul(s) && exited.None?
      modifies this`exited, reports, reports.slots
      ensures Valid() && State().now == ChatScript.DeclareReport(old(Now()), CleanText(s, false, st.cfg), s)
    {
      if reports.n >= MAX_REPORTS {
        Exit(2);
        return;
      }
      var s1 := CleanEntry(s);
      if s1.None? {
        Exit(1);
        return;
      }
      var ok := reports.Add(s1.value);
    }

    /** CLR_REPORT; after a comparison with NULL nothing is known about the program. */
    method ForgetReport(s: string)
      requires Valid() && NoNul(s) && exited.None?
      modifies this`exited, reports, reports.slots
      ensures Valid() && State().now == ChatScript.ForgetReport(old(Now()), CleanText(s, false, st.cfg), s)
    {
      var s1 := CleanEntry(s);
      if s1.None? {
        Exit(1);
        return;
      }
      ghost var w := Now();
      ClearReportShort(w.reports.slots, s1.value);
      var ok := reports.Clear(s1.value);
      assert Now() == w.(reports := w.reports.(slots := ClearReport(w.reports.slots, s1.value).1));
      if !ok {
        exited := Some(Undefined);
      }
    }

    /** What follows the `@` and its blanks. */
    method FileNameOf(s: string) returns (name: Option<string>)
      ensures name == FileName(s)
    {
      name := None;
      if s != "" && s[0] == '@' {
        var i := 1;
        while i < |s| && (s[i] == ' ' || s[i] == '\t')
          invariant 1 <= i <= |s| && ChatFile.SkipBlanks(s[i..]) == ChatFile.SkipBlanks(s[1..])
        {
          assert s[i..][1..] == s[i + 1..];
          i := i + 1;
        }
        if i < |s| {
          name := Some(s[i..]);
        }
      }
    }

    /** The contents of the file through the buffer `file_data`. */
    method ReadFile(content: string) returns (text: string)
      ensures text == FileText(content)
    {
      var data := new char[STR_LEN](_ => '\0');
      var n := 0;
      while n < STR_LEN - 1 && n < |content|
        invariant n <= |content| && n < STR_LEN && data[..n] == content[..n]
      {
        data[n] := content[n];
        n := n + 1;
      }
      assert data[..n] == if |content| < STR_LEN then content else content[..STR_LEN - 1];
      if n > 0 && data[n - 1] == '\n' {
        n := n - 1;
      }
      ghost var head := data[..n];
      data[n] := '\0';
      ChatFile.SameString(data[..], n, head);
      text := CStr(data[..], 0);
    }

    /** The part of chat_send after the directives. */
    method SendWord(s0: string)
      requires Valid() && NoNul(s0) && exited.None?
      modifies this`output, this`room, this`exited
      ensures Valid() && State().now == PlainSend(st, old(Now()), s0)
    {
      var s := s0;
      var name := FileNameOf(s);
      if name.Some? {
        if name.value !in st.files {
          Exit(1);
          return;
        }
        s := ReadFile(st.files[name.value]);
      }
      if s == "EOT" {
        s := "^D\\c";
      } else if s == "BREAK" {
        s := "\\K\\c";
      }
      var ok := PutString(s);
      if !ok {
        Exit(1);
      }
    }

    /** Effect of a directive that is not about the tables. */
    method Say(s: string)
      requires Valid() && NoNul(s)
      modifies this`console
      ensures Valid() && Running(Now()) == Apply(st, old(Now()), SAY, s)
    {
      var s1, p := Clean(s, true, st.cfg);
      CleanTextOnMemory(s1[..], p, CleanText(s, true, st.cfg));
      console := console + [CStr(s1[..], 0)];
    }

    lemma CleanTextOnMemory(m: seq<char>, p: nat, text: string)
      requires p < |m| && m[..p] == text && m[p] == '\0'
      ensures CStr(m, 0) == CStr(text, 0)
    {
      var e := NulAt(text, 0);
      assert m[0..e] == text[0..e];
      assert e < p ==> m[e] == text[e];
      CStrIs(m, 0, text[0..e]);
    }

    /** The block of chat_send for one directive, behind the reset of its flag. */
    method Perform(d: Directive, s: string)
      requires Valid() && NoNul(s) && exited.None?
      modifies this`timeout, this`echo, this`hangupIgnored, this`console, this`exited
      modifies aborts, aborts.slots, reports, reports.slots
      ensures Valid() && State().now == Apply(st, old(Now()), d, s)
    {
      match d {
        case SAY => Say(s);
        case HANGUP => hangupIgnored := s == "OFF";
        case ECHO => echo := s == "ON";
        case TIMEOUT => SetTimeout(s);
        case _ => PerformOnTable(d, s);
      }
    }

    /** The four blocks about the tables. */
    method PerformOnTable(d: Directive, s: string)
      requires Valid() && NoNul(s) && exited.None? && (d.ABORT? || d.CLR_ABORT? || d.REPORT? || d.CLR_REPORT?)
      modifies this`exited, aborts, aborts.slots, reports, reports.slots
      ensures Valid() && State().now == Apply(st, old(Now()), d, s)
    {
      if d.ABORT? {
        DeclareString(aborts, s);
      } else if d.CLR_ABORT? {
        ClearString(aborts, s);
      } else if d.REPORT? {
        DeclareReport(s);
      } else {
        ForgetReport(s);
      }
    }

    method SetTimeout(s: string)
      requires Valid() && NoNul(s)
      modifies this`timeout
      ensures Valid() && timeout == NewTimeout(CleanText(s, false, st.cfg))
    {
      var text := CleanString(s);
      timeout := Atoi(text);
      if timeout <= 0 {
        timeout := DEFAULT_TIMEOUT;
      }
    }

    /** The `now` part of chat_send, as the control flow names it. */
    function After(d: Option<Directive>, w: World, s: string): Outcome<World> {
      if d.Some? then OpsOf(st).apply(w, d.value, s) else OpsOf(st).plain(w, s)
    }

    /** chat_send behind the choice of a directive. */
    method PerformOrSend(d: Option<Directive>, s: string)
      requires Valid() && NoNul(s) && exited.None?
      modifies this`timeout, this`echo, this`hangupIgnored, this`console, this`exited, this`output, this`room
      modifies aborts, aborts.slots, reports, reports.slots
      ensures Valid() && State().now == After(d, old(Now()), s)
    {
      if d.Some? {
        Perform(d.value, s);
      } else {
        SendWord(s);
      }
    }

    /** The flag tests of chat_send: the first pending directive, its flag reset. */
    method TakeDirective() returns (d: Option<Directive>)
      modifies this`flags
      ensures (d, flags) == Take(old(flags))
    {
      d := None;
      if flags.say > 0 {
        d, flags := Some(SAY), flags.(say := 0);
      } else if flags.hup > 0 {
        d, flags := Some(HANGUP), flags.(hup := 0);
      } else if flags.echo > 0 {
        d, flags := Some(ECHO), flags.(echo := 0);
      } else if flags.abort > 0 {
        d, flags := Some(ABORT), flags.(abort := 0);
      } else if flags.clearAbort > 0 {
        d, flags := Some(CLR_ABORT), flags.(clearAbort := 0);
      } else if flags.report > 0 {
        d, flags := Some(REPORT), flags.(report := 0);
      } else if flags.clearReport > 0 {
        d, flags := Some(CLR_REPORT), flags.(clearReport := 0);
      } else if flags.timeout > 0 {
        d, flags := Some(TIMEOUT), flags.(timeout := 0);
      }
    }

    /** chat_send */
    method ChatSend(s: string)
      requires Valid() && NoNul(s) && exited.None?
      modifies this`flags, this`timeout, this`echo, this`hangupIgnored, this`console, this`exited, this`output,
          this`room
      modifies aborts, aborts.slots, reports, reports.slots
      ensures Valid() && State() == Send(OpsOf(st), old(flags), old(Now()), s)
    {
      var d := TakeDirective();
      PerformOrSend(d, s);
    }

    /** What becomes of a dialogue with these tokens to come; nothing more once it is over. */
    ghost function DialogueAhead(live: bool, ts: seq<string>): Machine<World>
      reads this, aborts, aborts.slots, reports, reports.slots
    {
      if live then ExpectTokens(OpsOf(st), flags, Now(), ts) else State()
    }

    /** The loop of chat_expect on a word that is no keyword. */
    method Converse(s: Pointer)
      requires Valid() && exited.None? && IsString(s)
      modifies this, aborts, aborts.slots, reports, reports.slots, tok, s.mem
      ensures Valid() && State() == ExpectTokens(OpsOf(st), old(flags), old(Now()), Split(old(TextOf(s))))
      ensures SameOutside(old(s.mem[..]), s.mem[..], s.at, old(|TextOf(s)|))
    {
      ghost var m, len, ts := s.mem[..], |TextOf(s)|, Split(TextOf(s));
      ghost var all := DialogueAhead(true, ts);
      tok.Begin(s);
      var live := true;
      while live
        invariant Valid() && IsString(tok.str) && tok.str.mem == s.mem && DialogueAhead(live, ts) == all
        invariant s.at <= tok.str.at && tok.str.at + |TextOf(tok.str)| <= s.at + len
        invariant live ==> exited.None? && ts == Split(TextOf(tok.str))
        invariant SameOutside(m, s.mem[..], s.at, len)
        decreases live, |TextOf(tok.str)|
      {
        ghost var v, later, rest := s.mem[..], tok.str.at, |TextOf(tok.str)|;
        live := ConverseTurn(ts);
        SameOutsideBoth(m, v, s.mem[..], s.at, len, later, rest);
        ts := if live then ts[2..] else ts;
      }
    }

    /** One turn of the loop on the tokens `ts` still to be cut.  False when chat_expect is done. */
    method ConverseTurn(ghost ts: seq<string>) returns (live: bool)
      requires Valid() && exited.None? && IsString(tok.str) && ts == Split(TextOf(tok.str))
      modifies this, aborts, aborts.slots, reports, reports.slots, tok, tok.str.mem
      ensures Valid() && IsString(tok.str) && tok.str.mem == old(tok.str.mem)
      ensures live ==> exited.None? && |ts| >= 2 && Split(TextOf(tok.str)) == ts[2..]
      ensures live ==> |TextOf(tok.str)| < old(|TextOf(tok.str)|)
      ensures DialogueAhead(live, if live then ts[2..] else ts) == old(DialogueAhead(true, ts))
      ensures old(tok.str.at) <= tok.str.at && tok.str.at + |TextOf(tok.str)| <= old(tok.str.at + |TextOf(tok.str)|)
      ensures SameOutside(old(tok.str.mem[..]), tok.str.mem[..], old(tok.str.at), old(|TextOf(tok.str)|))
    {
      var want, reply := tok.NextPair(ts);
      live := false;
      if want.Some? {
        ghost var m := tok.str.mem[..];
        live := Exchange(want.value, reply, ts);
        assert tok.str.mem[..] == m;
      }
    }

    /** The wait for an expect token, and the reply after a timeout. */
    method Exchange(want: string, reply: Option<string>, ghost ts: seq<string>) returns (live: bool)
      requires Valid() && exited.None? && NoNul(want) && (reply.Some? ==> NoNul(reply.value))
      requires ts != [] && want == ts[0] && reply == if |ts| < 2 then None else Some(ts[1])
      modifies this, aborts, aborts.slots, reports, reports.slots
      ensures Valid() && (live ==> exited.None? && |ts| >= 2)
      ensures DialogueAhead(live, if live then ts[2..] else ts) == old(DialogueAhead(true, ts))
    {
      var heard := GetString(want);
      if heard.Yes? {
        return false;
      }
      if heard.Lost? {
        exited := Some(Undefined);
        return false;
      }
      if reply.None? || exitCode != 3 {
        Exit(exitCode);
        return false;
      }
      ChatSend(reply.value);
      live := exited.None?;
    }

    /** chat_expect */
    method ChatExpect(s: Pointer)
      requires Valid() && exited.None? && IsString(s)
      modifies this, aborts, aborts.slots, reports, reports.slots, tok, s.mem
      ensures Valid() && State() == Expect(OpsOf(st), SPLIT, old(flags), old(Now()), old(TextOf(s)))
      ensures SameOutside(old(s.mem[..]), s.mem[..], s.at, old(|TextOf(s)|))
    {
      var isKeyword := RaiseKeyword(TextOf(s));
      if !isKeyword {
        Converse(s);
      }
    }

    /** The keyword tests at the top of chat_expect. */
    method RaiseKeyword(word: string) returns (isKeyword: bool)
      modifies this`flags
      ensures isKeyword == Keyword(word).Some?
      ensures flags == if isKeyword then Raise(old(flags), Keyword(word).value) else old(flags)
    {
      isKeyword := true;
      if word == "HANGUP" {
        flags := flags.(hup := flags.hup + 1);
      } else if word == "ABORT" {
        flags := flags.(abort := flags.abort + 1);
      } else if word == "CLR_ABORT" {
        flags := flags.(clearAbort := flags.clearAbort + 1);
      } else if word == "REPORT" {
        flags := flags.(report := flags.report + 1);
      } else if word == "CLR_REPORT" {
        flags := flags.(clearReport := flags.clearReport + 1);
      } else if word == "TIMEOUT" {
        flags := flags.(timeout := flags.timeout + 1);
      } else if word == "ECHO" {
        flags := flags.(echo := flags.echo + 1);
      } else if word == "SAY" {
        flags := flags.(say := flags.say + 1);
      } else {
        isKeyword := false;
      }
    }

    /** One call from a script loop: chat_send or chat_expect on the string at `s`. */
    method Call(s: Pointer, sending: bool)
      requires Valid() && exited.None? && IsString(s)
      modifies this, aborts, aborts.slots, reports, reports.slots, tok, s.mem
      ensures Valid() && State() == Step(OpsOf(st), SPLIT, old(flags), old(Now()), old(TextOf(s)), sending)
      ensures SameOutside(old(s.mem[..]), s.mem[..], s.at, old(|TextOf(s)|))
    {
      if sending {
        ChatSend(TextOf(s));
      } else {
        ChatExpect(s);
      }
    }

    /** The strings of an argument vector from number `k` on. */
    ghost predicate Holds(args: seq<Pointer>, script: seq<string>, k: nat)
      reads set p <- args :: p.mem
    {
      |args| == |script| && forall i :: k <= i < |args| ==> IsString(args[i]) && TextOf(args[i]) == script[i]
    }

    /** What becomes of the program with these words to come. */
    ghost function ScriptAhead(todo: seq<string>, sending: bool): Machine<World>
      reads this, aborts, aborts.slots, reports, reports.slots
    {
      if exited.Some? then State() else Run(OpsOf(st), SPLIT, flags, Now(), todo, sending)
    }

    /** The call for argument `i`; `todo` are the words not yet used. */
    method CallWord(args: seq<Pointer>, i: nat, sending: bool, ghost script: seq<string>, ghost todo: seq<string>)
      requires Valid() && exited.None? && Holds(args, script, i) && i < |args| && todo != [] && todo[0] == script[i]
      requires forall j, k :: 0 <= j < k < |args| ==> args[j].mem != args[k].mem
      modifies this, aborts, aborts.slots, reports, reports.slots, tok, args[i].mem
      ensures Valid() && Holds(args, script, i + 1)
      ensures ScriptAhead(todo[1..], !sending) == old(ScriptAhead(todo, sending))
    {
      Call(args[i], sending);
    }

    /** The loop of main over its arguments, from a state without pending directives: the direct interpreter.  The strings
        do not share memory. */
    method RunArguments(args: seq<Pointer>, ghost script: seq<string>)
      requires Valid() && exited.None? && flags == NONE && Holds(args, script, 0)
      requires forall i, j :: 0 <= i < j < |args| ==> args[i].mem != args[j].mem
      modifies this, aborts, aborts.slots, reports, reports.slots, tok, set p <- args :: p.mem
      ensures Valid() && State().now == Interpreter(OpsOf(st), SPLIT, old(Now()), script)
    {
      RunIsInterpreter(OpsOf(st), SPLIT, Now(), script);
      ghost var todo, all := script, ScriptAhead(script, false);
      var i := 0;
      while i < |args|
        invariant i <= |args| && Valid() && exited.None? && Holds(args, script, i) && todo == script[i..]
        invariant ScriptAhead(todo, false) == all
      {
        CallWord(args, i, false, script, todo);
        i, todo := i + 1, todo[1..];
        if exited.Some? {
          return;
        }
        if i < |args| {
          CallWord(args, i, true, script, todo);
          i, todo := i + 1, todo[1..];
          if exited.Some? {
            return;
          }
        }
      }
    }

    /** What becomes of the program with these words of a file to come. */
    ghost function Ahead(words: ChatFile.Words, sending: bool): Machine<World>
      reads this, aborts, aborts.slots, reports, reports.slots
    {
      if exited.Some? then State() else ChatFile.RunWords(OpsOf(st), SPLIT, flags, Now(), words, sending)
    }

    /** do_file, from a state without pending directives: the direct interpreter on the words of the file. */
    method DoFile(content: string)
      requires Valid() && exited.None? && flags == NONE
      modifies this, aborts, aborts.slots, reports, reports.slots, tok
      ensures Valid()
      ensures State().now == ChatFile.InterpretWords(OpsOf(st), SPLIT, old(Now()), ChatFile.FileWords(content))
    {
      ChatFile.FileIsInterpreter(OpsOf(st), SPLIT, Now(), ChatFile.FileWords(content));
      var buf := new char[STR_LEN](_ => '\0');
      var pos, sendflg := 0, false;
      assert content[0..] == content;
      while pos < |content|
        invariant pos <= |content| && Valid() && exited.None? && ChatFile.IsBuffer(buf)
        invariant Ahead(ChatFile.FileWords(content[pos..]), sendflg) == old(Ahead(ChatFile.FileWords(content), false))
      {
        pos, sendflg := DoNext(content, pos, buf, sendflg);
        if exited.Some? {
          return;
        }
      }
    }

    /** One turn of the outer loop of do_file, from place `pos` in the file. */
    method DoNext(content: string, pos: nat, buf: array<char>, sending: bool) returns (next: nat, sendflg: bool)
      requires Valid() && exited.None? && ChatFile.IsBuffer(buf) && pos < |content|
      modifies this, aborts, aborts.slots, reports, reports.slots, tok, buf
      ensures Valid() && ChatFile.IsBuffer(buf) && pos < next <= |content|
      ensures Ahead(ChatFile.FileWords(content[next..]), sendflg) ==
              old(Ahead(ChatFile.FileWords(content[pos..]), sending))
    {
      next := ChatFile.ReadLine(content, pos, buf);
      ChatFile.NextLine(content, pos, next);
      sendflg := DoChunk(buf, sending, content[pos..next], ChatFile.FileWords(content[next..]));
    }

    /** What do_file does with the line in its buffer; `later` are the words of the lines after it. */
    method DoChunk(buf: array<char>, sending: bool, ghost chunk: string,
        ghost later: ChatFile.Words) returns (sendflg: bool)
      requires Valid() && exited.None? && ChatFile.IsBuffer(buf) && CStr(buf[..], 0) == ChatFile.LineText(chunk)
      modifies this, aborts, aborts.slots, reports, reports.slots, tok, buf
      ensures Valid() && ChatFile.IsBuffer(buf)
      ensures Ahead(later, sendflg) == old(Ahead(ChatFile.Append(ChatFile.ChunkWords(chunk), later), sending))
    {
      CStrHead(buf[..], 0);
      if buf[0] == '#' {
        ChatFile.RunBadQuote(OpsOf(st), SPLIT, flags, Now(), later, sending);
        sendflg := sending;
      } else {
        sendflg := DoLine(buf, sending, later);
      }
    }

    /** The inner loop of do_file; `later` are the words of the lines after this one. */
    method DoLine(buf: array<char>, sending: bool, ghost later: ChatFile.Words) returns (sendflg: bool)
      requires Valid() && exited.None? && ChatFile.IsBuffer(buf)
      modifies this, aborts, aborts.slots, reports, reports.slots, tok, buf
      ensures Valid() && ChatFile.IsBuffer(buf)
      ensures Ahead(later, sendflg) == old(Ahead(ChatFile.Append(ChatFile.LineWords(CStr(buf[..], 0)), later), sending))
    {
      sendflg := sending;
      var sp := 0;
      ghost var line := CStr(buf[..], 0);
      ghost var all := Ahead(ChatFile.Append(ChatFile.LineWords(line), later), sendflg);
      while buf[sp] != '\0'
        invariant sp < buf.Length && Valid() && exited.None? && ChatFile.IsBuffer(buf) && line == CStr(buf[..], sp)
        invariant Ahead(ChatFile.Append(ChatFile.LineWords(line), later), sendflg) == all
        decreases buf.Length - sp
      {
        sp, sendflg := DoBlankOrWord(buf, sp, sendflg, line, later);
        if exited.Some? {
          return;
        }
        line := CStr(buf[..], sp);
      }
      CStrHead(buf[..], sp);
      ChatFile.RunBadQuote(OpsOf(st), SPLIT, flags, Now(), later, sendflg);
    }

    /** One turn of the inner loop. */
    method DoBlankOrWord(buf: array<char>, at: nat, sending: bool, ghost line: string, ghost later: ChatFile.Words)
      returns (sp: nat, sendflg: bool)
      requires Valid() && exited.None? && ChatFile.IsBuffer(buf)
      requires at < buf.Length && buf[at] != '\0' && line == CStr(buf[..], at)
      modifies this, aborts, aborts.slots, reports, reports.slots, tok, buf
      ensures Valid() && ChatFile.IsBuffer(buf) && at <= sp < buf.Length && (exited.None? ==> at < sp)
      ensures Ahead(ChatFile.Append(ChatFile.LineWords(CStr(buf[..], sp)), later), sendflg) ==
              old(Ahead(ChatFile.Append(ChatFile.LineWords(line), later), sending))
    {
      CStrHead(buf[..], at);
      ChatFile.SkipBlank(line);
      if buf[at] == ' ' || buf[at] == '\t' {
        sp, sendflg := at + 1, sending;
      } else {
        sp := DoWord(buf, at, sending, line, later);
        sendflg := !sending;
      }
    }

    /** One word: find it, end it, and make the call. */
    method DoWord(buf: array<char>, at: nat, sendflg: bool, ghost line: string,
        ghost later: ChatFile.Words) returns (sp: nat)
      requires Valid() && exited.None? && ChatFile.IsBuffer(buf)
      requires at < buf.Length && buf[at] != '\0' && !ChatFile.IsBlank(buf[at]) && line == CStr(buf[..], at)
      modifies this, aborts, aborts.slots, reports, reports.slots, tok, buf
      ensures Valid() && ChatFile.IsBuffer(buf) && at <= sp < buf.Length && (exited.None? ==> at < sp)
      ensures Ahead(ChatFile.Append(ChatFile.LineWords(CStr(buf[..], sp)), later), !sendflg) ==
              old(Ahead(ChatFile.Append(ChatFile.LineWords(line), later), sendflg))
    {
      var arg;
      arg, sp := ChatFile.CutFirstWord(buf, at, line);
      if arg.None? {
        BadQuote(later, sendflg);
      } else {
        CallInLine(buf, arg.value, sp, sendflg, ChatFile.LineWords(CStr(buf[..], sp)), later);
      }
    }

    /** fatal: unterminated quote. */
    method BadQuote(ghost later: ChatFile.Words, sendflg: bool)
      requires Valid() && exited.None?
      modifies this`exited
      ensures Valid() && exited.Some?
      ensures State() == old(Ahead(ChatFile.Append(ChatFile.Words([], false), later), sendflg))
    {
      ChatFile.RunBadQuote(OpsOf(st), SPLIT, flags, Now(), later, sendflg);
      Exit(1);
    }

    /** The call for a word of the line; the text from `sp` on, behind the word, stays as it is. */
    method CallInLine(buf: array<char>, arg: nat, sp: nat, sendflg: bool, ghost rest: ChatFile.Words,
        ghost later: ChatFile.Words)
      requires Valid() && exited.None? && ChatFile.IsBuffer(buf)
      requires arg <= sp < buf.Length && arg + |CStr(buf[..], arg)| <= sp
      modifies this, aborts, aborts.slots, reports, reports.slots, tok, buf
      ensures Valid() && ChatFile.IsBuffer(buf) && CStr(buf[..], sp) == old(CStr(buf[..], sp))
      ensures Ahead(ChatFile.Append(rest, later), !sendflg) ==
              old(Ahead(ChatFile.Append(ChatFile.Cons(CStr(buf[..], arg), rest), later), sendflg))
    {
      ghost var m := buf[..];
      ChatFile.RunNextWord(OpsOf(st), SPLIT, flags, Now(), CStr(m, arg), rest, later, sendflg);
      Call(Pointer(buf, arg), sendflg);
      CStrFrame(m, buf[..], sp);
    }
  }
}
