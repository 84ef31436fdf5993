/** What the words of a chat script do (chat.c): waiting, sending and the directives, as functions on the state that a
    script acts on. */
module ChatScript {
  import opened CText
  import opened ChatAborts
  import opened ChatControl
  import opened ChatEscapes
  import ChatFile
  import opened ChatMatcher
  import opened ChatReports
  import opened ChatSplit
  import opened ChatWindow

  const DEFAULT_TIMEOUT := 45

  /** What does not change during a run: options, and the files that `@name` can read. */
  datatype Setup = Setup(cfg: Config, files: map<string, string>)

  /** A setup in which what can be substituted are C strings without backslashes. */
  type PlainSetup = st: Setup | TextsAreStrings(st.cfg) && TextsArePlain(st.cfg)
    witness Setup(Config(false, None, None, map[]), map[])

  /** What the script acts on.  `room` is the number of bytes that can still be written to the modem. */
  datatype World = World(aborts: seq<string>, reports: Reports, timeout: int, echo: bool, hangupIgnored: bool,
                         input: seq<Event>, output: seq<Action>, console: seq<string>, room: nat, exitCode: int)

  // ---------------------------------------------------------------- waiting and sending

  /** The reading loop of get_string. */
  function Read(w: World, want: string): (Verdict, World) {
    var (v, used) := Decide(w.input, 0, "", want, w.aborts);
    (v, w.(input := w.input[used..], reports := Watched(w.input, used, w.reports)))
  }

  /** How a wait ends; `Lost` when a report has outgrown its buffer. */
  datatype Heard = Yes | No | Lost

  /** Success of a wait, and its exit code. */
  function Concluded(v: Verdict, w: World): (Heard, World) {
    if w.reports.overrun then (Lost, w)
    else
      match v
      case Matched => (Yes, w)
      case Aborted(n) => (No, w.(exitCode := n + 4))
      case GaveUp => (No, w.(exitCode := 3))
  }

  /** get_string once its string is cleaned and not empty. */
  function WaitFor(w: World, want: string): (Heard, World) {
    Concluded(Read(w, want).0, Read(w, want).1)
  }

  /** get_string */
  function GetString(st: Setup, w: World, s: string): (Heard, World) {
    var want := CleanText(s, false, st.cfg);
    if |want| > STR_LEN then (No, w.(exitCode := 1)) else if want == "" then (Yes, w) else WaitFor(w, want)
  }

  /** put_string */
  function PutString(st: Setup, w: World, s: string): (bool, World) {
    var (ok, done, left) := Emit(Interpret(s, st.cfg), w.room);
    (ok, w.(output := w.output + done, room := left))
  }

  /** What `@name` sends of a file: at most STR_LEN - 1 bytes, less a final newline, up to the first NUL. */
  function FileText(content: string): (s: string)
    ensures NoNul(s)
  {
    var head := if |content| < STR_LEN then content else content[..STR_LEN - 1];
    var text := if head != "" && head[|head| - 1] == '\n' then head[..|head| - 1] else head;
    CStr(text, 0)
  }

  /** The name of the file to send instead of `s`, if any. */
  function FileName(s: string): Option<string> {
    if s != "" && s[0] == '@' && ChatFile.SkipBlanks(s[1..]) != "" then Some(ChatFile.SkipBlanks(s[1..])) else None
  }

  function Special(s: string): string {
    if s == "EOT" then "^D\\c" else if s == "BREAK" then "\\K\\c" else s
  }

  /** chat_send when no directive is pending. */
  function PlainSend(st: Setup, w: World, s: string): Outcome<World> {
    var name := FileName(s);
    if name.Some? && name.value !in st.files then Exited(Status(1), w)
    else
      var (ok, w') := PutString(st, w, Special(if name.Some? then FileText(st.files[name.value]) else s));
      if ok then Running(w') else Exited(Status(1), w')
  }

  // ---------------------------------------------------------------- directives

  function Keyword(s: string): Option<Directive> {
    if s == "HANGUP" then Some(HANGUP)
    else if s == "ABORT" then Some(ABORT)
    else if s == "CLR_ABORT" then Some(CLR_ABORT)
    else if s == "REPORT" then Some(REPORT)
    else if s == "CLR_REPORT" then Some(CLR_REPORT)
    else if s == "TIMEOUT" then Some(TIMEOUT)
    else if s == "ECHO" then Some(ECHO)
    else if s == "SAY" then Some(SAY)
    else None
  }

  function NameOf(d: Directive): string {
    match d
    case HANGUP => "HANGUP"
    case ABORT => "ABORT"
    case CLR_ABORT => "CLR_ABORT"
    case REPORT => "REPORT"
    case CLR_REPORT => "CLR_REPORT"
    case TIMEOUT => "TIMEOUT"
    case ECHO => "ECHO"
    case SAY => "SAY"
  }

  /** A word is the keyword of a directive exactly when it is its name. */
  lemma KeywordIff(s: string, d: Directive)
    ensures Keyword(s) == Some(d) <==> s == NameOf(d)
  {
    var n := NameOf(d);
    assert |n| in {3, 4, 5, 6, 7, 9, 10} && (|n| == 6 ==> n[0] in {'H', 'R'});
  }

  /** The test on a cleaned abort or report string. */
  predicate TooLong(clean: string, s: string) {
    |clean| > |s| || |clean| + 1 > FAIL_BUFFER
  }

  /** atoi, on a target with 32-bit longs. */
  function Atoi(s: string): int {
    var l := StrToLong(s, 10, false, false);
    if l.None? then 0 else ToInt32(l.value)
  }

  /** ABORT on its table: the exit code, or the new table. */
  function Declared(t: seq<string>, clean: string, s: string): (int, seq<string>) {
    if |t| >= MAX_ABORTS then (2, t) else if TooLong(clean, s) then (1, t) else (0, t + [clean])
  }

  /** CLR_ABORT on its table. */
  function Cleared(t: seq<string>, clean: string, s: string): (int, seq<string>) {
    if TooLong(clean, s) then (1, t) else (0, Clear(t, clean))
  }

  /** REPORT. */
  function DeclareReport(w: World, clean: string, s: string): Outcome<World> {
    var t := w.reports.slots;
    if |t| >= MAX_REPORTS then Exited(Status(2), w)
    else if TooLong(clean, s) then Exited(Status(1), w)
    else Running(w.(reports := w.reports.(slots := t + [Some(clean)])))
  }

  /** CLR_REPORT: undefined when the scan meets a report that has fired. */
  function ForgetReport(w: World, clean: string, s: string): Outcome<World> {
    if TooLong(clean, s) then Exited(Status(1), w)
    else
      var (ok, t) := ClearReport(w.reports.slots, clean);
      var w' := w.(reports := w.reports.(slots := t));
      if ok then Running(w') else Exited(Undefined, w')
  }

  function Unless(code: int, w: World): Outcome<World> {
    if code == 0 then Running(w) else Exited(Status(code), w)
  }

  function NewTimeout(clean: string): int {
    if Atoi(clean) <= 0 then DEFAULT_TIMEOUT else Atoi(clean)
  }

  /** A directive with its argument. */
  function Apply(st: Setup, w: World, d: Directive, s: string): Outcome<World> {
    var clean := CleanText(s, false, st.cfg);
    match d
    case SAY => Running(w.(console := w.console + [CStr(CleanText(s, true, st.cfg), 0)]))
    case HANGUP => Running(w.(hangupIgnored := s == "OFF"))
    case ECHO => Running(w.(echo := s == "ON"))
    case ABORT => var (code, t) := Declared(w.aborts, clean, s); Unless(code, w.(aborts := t))
    case CLR_ABORT => var (code, t) := Cleared(w.aborts, clean, s); Unless(code, w.(aborts := t))
    case REPORT => DeclareReport(w, clean, s)
    case CLR_REPORT => ForgetReport(w, clean, s)
    case TIMEOUT => Running(w.(timeout := NewTimeout(clean)))
  }

  /** get_string, as chat_expect takes it. */
  function Wait(st: Setup, w: World, s: string): (bool, End, World) {
    var (heard, w') := GetString(st, w, s);
    (heard.Yes?, if heard.Lost? then Undefined else Status(w'.exitCode), w')
  }

  /** The operations the control flow runs on. */
  function OpsOf(st: Setup): Ops<World> {
    Ops(s => Keyword(s), (w: World, s) => Wait(st, w, s),
        (w: World, s) => PlainSend(st, w, s), (w: World, d, s) => Apply(st, w, d, s))
  }

  const SPLIT: string -> seq<string> := s => Split(s)

  // ---------------------------------------------------------------- abort strings

  /** An exit code above 3 names the lowest live abort declaration that ends what was received. */
  lemma AbortCodeIsIndex(st: Setup, w: World, s: string)
    ensures var (heard, w') := GetString(st, w, s);
            var used := |w.input| - |w'.input|;
            heard.No? && w'.exitCode > 3 ==>
              && 0 <= w'.exitCode - 4 < |w.aborts| && 0 <= used <= |w.input|
              && EndsWith(Received(w.input, used), w.aborts[w'.exitCode - 4])
              && forall m :: 0 <= m < w'.exitCode - 4 ==> !EndsWith(Received(w.input, used), w.aborts[m])
  {
    var want := CleanText(s, false, st.cfg);
    DecideMeaning(w.input, want, w.aborts);
  }

  /** When no variable outgrows its name an abort string is accepted exactly when the table has room and it has at most
      49 characters: the test against the length of its source never decides. */
  lemma AbortAcceptedIff(st: Setup, w: World, s: string)
    requires NoNul(s) && TextsAreShort(st.cfg)
    ensures Apply(st, w, ABORT, s).Running? <==>
            |w.aborts| < 50 && |CleanText(s, false, st.cfg)| <= 49
  {
    CleanNeverLonger(s, st.cfg);
  }

  /** EOT and BREAK send one control character, or one break, and no return. */
  lemma SpecialWords(st: Setup)
    ensures Interpret(Special("EOT"), st.cfg) == [Byte(4 as char)]
    ensures Interpret(Special("BREAK"), st.cfg) == [Break]
  {
    var e, b, c := "^D\\c", "\\K\\c", "\\c";
    assert NextToken(e, st.cfg.useEnv) == (Ctrl('D'), 2) && e[2..] == c;
    assert NextToken(b, st.cfg.useEnv) == (Escape('K'), 2) && b[2..] == c;
    assert NextToken(c, st.cfg.useEnv) == (Escape('c'), 2) && c[2..] == "";
    assert Actions(c, st.cfg) == [] + Actions("", st.cfg) == [];
    assert EndsInC(c, st.cfg.useEnv) && EndsInC(e, st.cfg.useEnv) && EndsInC(b, st.cfg.useEnv);
    assert Actions(e, st.cfg) == [Byte(4 as char)] + Actions(c, st.cfg);
    assert Actions(b, st.cfg) == [Break] + Actions(c, st.cfg);
  }
}
