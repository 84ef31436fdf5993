/** The control flow of chat.c, whatever waiting and sending do: pending-directive flags, the dialogue of an expect word,
    the alternation of expect and send words, and the direct interpreter of word pairs that they amount to. */
module ChatControl {
  import opened CText

  datatype Directive = HANGUP | ABORT | CLR_ABORT | REPORT | CLR_REPORT | TIMEOUT | ECHO | SAY

  /** How the program ends: with a status, or by something C leaves undefined. */
  datatype End = Status(code: int) | Undefined

  /** A wait that has timed out. */
  const TIMED_OUT := Status(3)

  /** The program goes on, or has ended. */
  datatype Outcome<+W> = Running(w: W) | Exited(end: End, w: W)

  /** What the control flow is built on: the keyword a word is, get_string (success, how the program ends if
      that is its end, world), chat_send with no
      directive pending, and a directive with its argument. */
  datatype Ops<!W> = Ops(keyword: string -> Option<Directive>, wait: (W, string) -> (bool, End, W),
                         plain: (W, string) -> Outcome<W>, apply: (W, Directive, string) -> Outcome<W>)

  // ---------------------------------------------------------------- the engine with its flags

  /** The `*_next` globals, counted up by keywords. */
  datatype Flags = Flags(hup: nat, abort: nat, clearAbort: nat, report: nat, clearReport: nat, timeout: nat, echo: nat,
                         say: nat)

  const NONE := Flags(0, 0, 0, 0, 0, 0, 0, 0)

  function Raise(f: Flags, d: Directive): Flags {
    match d
    case HANGUP => f.(hup := f.hup + 1)
    case ABORT => f.(abort := f.abort + 1)
    case CLR_ABORT => f.(clearAbort := f.clearAbort + 1)
    case REPORT => f.(report := f.report + 1)
    case CLR_REPORT => f.(clearReport := f.clearReport + 1)
    case TIMEOUT => f.(timeout := f.timeout + 1)
    case ECHO => f.(echo := f.echo + 1)
    case SAY => f.(say := f.say + 1)
  }

  /** The pending directive that chat_send looks at first, and the flags once it is taken. */
  function Take(f: Flags): (Option<Directive>, Flags) {
    if f.say > 0 then (Some(SAY), f.(say := 0))
    else if f.hup > 0 then (Some(HANGUP), f.(hup := 0))
    else if f.echo > 0 then (Some(ECHO), f.(echo := 0))
    else if f.abort > 0 then (Some(ABORT), f.(abort := 0))
    else if f.clearAbort > 0 then (Some(CLR_ABORT), f.(clearAbort := 0))
    else if f.report > 0 then (Some(REPORT), f.(report := 0))
    else if f.clearReport > 0 then (Some(CLR_REPORT), f.(clearReport := 0))
    else if f.timeout > 0 then (Some(TIMEOUT), f.(timeout := 0))
    else (None, f)
  }

  /** How often a directive is pending. */
  function Level(f: Flags, d: Directive): nat {
    match d
    case HANGUP => f.hup
    case ABORT => f.abort
    case CLR_ABORT => f.clearAbort
    case REPORT => f.report
    case CLR_REPORT => f.clearReport
    case TIMEOUT => f.timeout
    case ECHO => f.echo
    case SAY => f.say
  }

  /** The directives in the order in which chat_send asks for them. */
  const ORDER := [SAY, HANGUP, ECHO, ABORT, CLR_ABORT, REPORT, CLR_REPORT, TIMEOUT]

  /** The directive taken is the first pending one, and it alone is reset; nothing is taken only when nothing pends. */
  lemma TakeMeaning(f: Flags, k: nat)
    requires k < |ORDER|
    ensures var (d, rest) := Take(f);
            && (d == Some(ORDER[k]) <==> Level(f, ORDER[k]) > 0 && forall j :: 0 <= j < k ==> Level(f, ORDER[j]) == 0)
            && Level(rest, ORDER[k]) == (if d == Some(ORDER[k]) then 0 else Level(f, ORDER[k]))
            && (d.None? <==> f == NONE)
  {
    assert ORDER[0] == SAY && ORDER[1] == HANGUP && ORDER[2] == ECHO && ORDER[3] == ABORT;
    assert ORDER[4] == CLR_ABORT && ORDER[5] == REPORT && ORDER[6] == CLR_REPORT && ORDER[7] == TIMEOUT;
    if forall j :: 0 <= j < k ==> Level(f, ORDER[j]) == 0 {
      assert k > 0 ==> Level(f, ORDER[0]) == 0;
      assert k > 1 ==> Level(f, ORDER[1]) == 0;
      assert k > 2 ==> Level(f, ORDER[2]) == 0;
      assert k > 3 ==> Level(f, ORDER[3]) == 0;
      assert k > 4 ==> Level(f, ORDER[4]) == 0;
      assert k > 5 ==> Level(f, ORDER[5]) == 0;
      assert k > 6 ==> Level(f, ORDER[6]) == 0;
    }
  }

  /** Flags left and what has become of the program. */
  datatype Machine<+W> = Machine(flags: Flags, now: Outcome<W>)

  /** chat_send */
  function Send<W>(ops: Ops<W>, f: Flags, w: W, s: string): Machine<W> {
    var (d, rest) := Take(f);
    Machine(rest, if d.Some? then ops.apply(w, d.value, s) else ops.plain(w, s))
  }

  /** The loop of chat_expect over expect and reply tokens. */
  function ExpectTokens<W>(ops: Ops<W>, f: Flags, w: W, ts: seq<string>): Machine<W>
    decreases |ts|
  {
    if ts == [] then Machine(f, Running(w))
    else
      var (ok, end, w1) := ops.wait(w, ts[0]);
      if ok then Machine(f, Running(w1))
      else if |ts| == 1 || end != TIMED_OUT then Machine(f, Exited(end, w1))
      else
        var m := Send(ops, f, w1, ts[1]);
        if m.now.Exited? then m else ExpectTokens(ops, m.flags, m.now.w, ts[2..])
  }

  /** chat_expect, on a word with its tokens. */
  function Expect<W>(ops: Ops<W>, split: string -> seq<string>, f: Flags, w: W, s: string): Machine<W> {
    var d := ops.keyword(s);
    if d.Some? then Machine(Raise(f, d.value), Running(w)) else ExpectTokens(ops, f, w, split(s))
  }

  /** One call: expect or send. */
  function Step<W>(ops: Ops<W>, split: string -> seq<string>, f: Flags, w: W, s: string, sending: bool): Machine<W> {
    if sending then Send(ops, f, w, s) else Expect(ops, split, f, w, s)
  }

  /** The argument loop of main, and the calls do_file makes: expect and send in turn. */
  function Run<W>(ops: Ops<W>, split: string -> seq<string>, f: Flags, w: W, script: seq<string>,
      sending: bool): Machine<W>
    decreases |script|
  {
    if script == [] then Machine(f, Running(w))
    else
      var m := Step(ops, split, f, w, script[0], sending);
      if m.now.Exited? then m else Run(ops, split, m.flags, m.now.w, script[1..], !sending)
  }

  // ---------------------------------------------------------------- the direct interpreter

  /** The expect-reply dialogue of one script word. */
  function Dialogue<W>(ops: Ops<W>, w: W, ts: seq<string>): Outcome<W>
    decreases |ts|
  {
    if ts == [] then Running(w)
    else
      var (ok, end, w1) := ops.wait(w, ts[0]);
      if ok then Running(w1)
      else if |ts| == 1 || end != TIMED_OUT then Exited(end, w1)
      else
        var sent := ops.plain(w1, ts[1]);
        if sent.Exited? then sent else Dialogue(ops, sent.w, ts[2..])
  }

  /** A pair of words: a directive with its argument, or an expect and a send. */
  function Pair<W>(ops: Ops<W>, split: string -> seq<string>, w: W, first: string, second: string): Outcome<W> {
    var d := ops.keyword(first);
    if d.Some? then ops.apply(w, d.value, second)
    else
      var said := Dialogue(ops, w, split(first));
      if said.Exited? then said else ops.plain(said.w, second)
  }

  /** A word without a second one. */
  function Single<W>(ops: Ops<W>, split: string -> seq<string>, w: W, first: string): Outcome<W> {
    if ops.keyword(first).Some? then Running(w) else Dialogue(ops, w, split(first))
  }

  /** A script as pairs of words. */
  function Interpreter<W>(ops: Ops<W>, split: string -> seq<string>, w: W, script: seq<string>): Outcome<W>
    decreases |script|
  {
    if script == [] then Running(w)
    else if |script| == 1 then Single(ops, split, w, script[0])
    else
      var o := Pair(ops, split, w, script[0], script[1]);
      if o.Exited? then o else Interpreter(ops, split, o.w, script[2..])
  }

  lemma {:induction false} DialogueHasNoFlags<W>(ops: Ops<W>, w: W, ts: seq<string>)
    ensures ExpectTokens(ops, NONE, w, ts) == Machine(NONE, Dialogue(ops, w, ts))
    decreases |ts|
  {
    if |ts| >= 2 {
      var sent := ops.plain(ops.wait(w, ts[0]).2, ts[1]);
      if sent.Running? {
        DialogueHasNoFlags(ops, sent.w, ts[2..]);
      }
    }
  }

  /** A keyword followed by its argument acts as the directive and leaves no flag behind. */
  lemma DirectiveRoundTrip<W>(ops: Ops<W>, w: W, d: Directive, s: string)
    ensures Send(ops, Raise(NONE, d), w, s) == Machine(NONE, ops.apply(w, d, s))
  {
  }

  /** The flag a word leaves pending for the next one. */
  function PendingAfter<W>(ops: Ops<W>, word: string): Flags {
    var d := ops.keyword(word);
    if d.Some? then Raise(NONE, d.value) else NONE
  }

  lemma FirstWord<W>(ops: Ops<W>, split: string -> seq<string>, w: W, first: string)
    ensures Expect(ops, split, NONE, w, first) == Machine(PendingAfter(ops, first), Single(ops, split, w, first))
  {
    DialogueHasNoFlags(ops, w, split(first));
  }

  lemma SecondWord<W>(ops: Ops<W>, split: string -> seq<string>, w: W, first: string, second: string)
    requires Single(ops, split, w, first).Running?
    ensures Send(ops, PendingAfter(ops, first), Single(ops, split, w, first).w, second) ==
            Machine(NONE, Pair(ops, split, w, first, second))
  {
    var d := ops.keyword(first);
    if d.Some? {
      DirectiveRoundTrip(ops, w, d.value, second);
    }
  }

  /** A pair of words from a state without flags. */
  lemma PairRuns<W>(ops: Ops<W>, split: string -> seq<string>, w: W, script: seq<string>)
    requires |script| >= 2
    ensures var o := Pair(ops, split, w, script[0], script[1]);
            var m := Run(ops, split, NONE, w, script, false);
            if o.Exited? then m.now == o else m == Run(ops, split, NONE, o.w, script[2..], false)
  {
    FirstWord(ops, split, w, script[0]);
    var said := Single(ops, split, w, script[0]);
    if said.Running? {
      SecondWord(ops, split, w, script[0], script[1]);
      assert script[1..][1..] == script[2..];
    }
  }

  /** A whole run with flags is the direct interpreter. */
  lemma {:induction false} RunIsInterpreter<W>(ops: Ops<W>, split: string -> seq<string>, w: W, script: seq<string>)
    ensures Run(ops, split, NONE, w, script, false).now == Interpreter(ops, split, w, script)
    decreases |script|
  {
    if |script| == 1 {
      FirstWord(ops, split, w, script[0]);
    } else if |script| >= 2 {
      PairRuns(ops, split, w, script);
      var o := Pair(ops, split, w, script[0], script[1]);
      if o.Running? {
        RunIsInterpreter(ops, split, o.w, script[2..]);
      }
    }
  }

  /** A call of chat_expect or chat_send and the flags pending at its entry. */
  datatype Call = Call(sending: bool, pending: Flags, word: string)

  function Calls<W>(ops: Ops<W>, split: string -> seq<string>, f: Flags, w: W, script: seq<string>,
      sending: bool): seq<Call>
    decreases |script|
  {
    if script == [] then []
    else
      var m := Step(ops, split, f, w, script[0], sending);
      [Call(sending, f, script[0])] +
      if m.now.Exited? then [] else Calls(ops, split, m.flags, m.now.w, script[1..], !sending)
  }

  /** What the flags must be at call `k`. */
  predicate IsDisciplined<W>(ops: Ops<W>, script: seq<string>, k: nat, c: Call) {
    && k < |script| && c.word == script[k] && c.sending == (k % 2 == 1)
    && c.pending == if k % 2 == 0 then NONE else PendingAfter(ops, script[k - 1])
  }

  lemma CallsOfPair<W>(ops: Ops<W>, split: string -> seq<string>, w: W, script: seq<string>)
    requires script != []
    ensures var cs := Calls(ops, split, NONE, w, script, false);
            var said := Single(ops, split, w, script[0]);
            && cs[0] == Call(false, NONE, script[0])
            && (|cs| > 1 ==> |script| > 1 && said.Running? && cs[1] == Call(true, PendingAfter(ops, script[0]), script[1]))
            && (|cs| > 2 ==> var o := Pair(ops, split, w, script[0], script[1]);
                             o.Running? && cs[2..] == Calls(ops, split, NONE, o.w, script[2..], false))
  {
    FirstWord(ops, split, w, script[0]);
    var said := Single(ops, split, w, script[0]);
    if |script| > 1 && said.Running? {
      SecondWord(ops, split, w, script[0], script[1]);
      assert script[1..][1..] == script[2..];
    }
  }

  /** On entry to chat_expect no directive is pending; on entry to chat_send exactly the keyword just read is, if the word
      before was one. */
  lemma {:induction false} CallsAreDisciplined<W>(ops: Ops<W>, split: string -> seq<string>, w: W,
      script: seq<string>, k: nat)
    requires k < |Calls(ops, split, NONE, w, script, false)|
    ensures IsDisciplined(ops, script, k, Calls(ops, split, NONE, w, script, false)[k])
    decreases |script|
  {
    CallsOfPair(ops, split, w, script);
    if k >= 2 {
      var o := Pair(ops, split, w, script[0], script[1]);
      CallsAreDisciplined(ops, split, o.w, script[2..], k - 2);
      assert Calls(ops, split, NONE, w, script, false)[2..][k - 2] == Calls(ops, split, NONE, w, script, false)[k];
    }
  }

  // ---------------------------------------------------------------- what a dialogue amounts to

  /** The world when expect number `i` is about to be tried: all earlier ones timed out and their replies were sent. */
  function Reached<W>(ops: Ops<W>, w: W, ts: seq<string>, i: nat): Option<W>
    requires 2 * i <= |ts|
  {
    if i == 0 then Some(w)
    else
      var before := Reached(ops, w, ts, i - 1);
      if before.None? then None
      else
        var (ok, end, w1) := ops.wait(before.value, ts[2 * i - 2]);
        if ok || end != TIMED_OUT then None
        else
          var sent := ops.plain(w1, ts[2 * i - 1]);
          if sent.Exited? then None else Some(sent.w)
  }

  /** Expect number `i` is reached and matches. */
  predicate MatchesAt<W>(ops: Ops<W>, w: W, ts: seq<string>, i: nat) {
    2 * i < |ts| && Reached(ops, w, ts, i).Some? && ops.wait(Reached(ops, w, ts, i).value, ts[2 * i]).0
  }

  /** Every expect timed out and had a reply, and all replies were sent. */
  predicate AllAnswered<W>(ops: Ops<W>, w: W, ts: seq<string>) {
    |ts| % 2 == 0 && Reached(ops, w, ts, |ts| / 2).Some?
  }

  /** Expect number `i` is reached and is where the program ends: with the code of its failure when that is no timeout or
      there is no reply, or as its reply does. */
  predicate FailsAt<W>(ops: Ops<W>, w: W, ts: seq<string>, i: nat, end: End) {
    2 * i < |ts| && Reached(ops, w, ts, i).Some? &&
    var (ok, failure, w1) := ops.wait(Reached(ops, w, ts, i).value, ts[2 * i]);
    !ok && if 2 * i + 1 == |ts| || failure != TIMED_OUT then end == failure
           else var sent := ops.plain(w1, ts[2 * i + 1]); sent.Exited? && end == sent.end
  }

  lemma {:induction false} ReachedShift<W>(ops: Ops<W>, w: W, ts: seq<string>, next: W, i: nat)
    requires 2 * i + 2 <= |ts| && Reached(ops, w, ts, 1) == Some(next)
    ensures Reached(ops, w, ts, i + 1) == Reached(ops, next, ts[2..], i)
    decreases i
  {
    if i > 0 {
      ReachedShift(ops, w, ts, next, i - 1);
      assert ts[2..][2 * i - 2] == ts[2 * i] && ts[2..][2 * i - 1] == ts[2 * i + 1];
    }
  }

  lemma {:induction false} ReachedEarlier<W>(ops: Ops<W>, w: W, ts: seq<string>, i: nat)
    requires 1 <= i && 2 * i <= |ts| && Reached(ops, w, ts, i).Some?
    ensures Reached(ops, w, ts, 1).Some?
    decreases i
  {
    if i > 1 {
      ReachedEarlier(ops, w, ts, i - 1);
    }
  }

  /** After a first timeout with its reply the dialogue is that of the remaining tokens. */
  lemma DialogueNext<W>(ops: Ops<W>, w: W, ts: seq<string>, next: W)
    requires |ts| >= 2 && Reached(ops, w, ts, 1) == Some(next)
    ensures Dialogue(ops, w, ts) == Dialogue(ops, next, ts[2..])
  {
    assert Reached(ops, w, ts, 0) == Some(w);
  }

  lemma DialogueFirst<W>(ops: Ops<W>, w: W, ts: seq<string>)
    requires ts != [] && (|ts| >= 2 ==> Reached(ops, w, ts, 1).None?)
    ensures var o := Dialogue(ops, w, ts);
            if o.Running? then MatchesAt(ops, w, ts, 0) && o.w == ops.wait(w, ts[0]).2 else FailsAt(ops, w, ts, 0, o.end)
  {
    assert Reached(ops, w, ts, 0) == Some(w);
  }

  /** When the dialogue goes on, some reached expect matched or all were answered; when it exits, it does so at a reached
      expect with that failure's code. */
  lemma {:induction false} DialogueDecides<W>(ops: Ops<W>, w: W, ts: seq<string>) returns (i: nat)
    ensures var o := Dialogue(ops, w, ts);
            if o.Running? then MatchesAt(ops, w, ts, i) || AllAnswered(ops, w, ts) else FailsAt(ops, w, ts, i, o.end)
    decreases |ts|
  {
    i := 0;
    if ts == [] {
      assert Reached(ops, w, ts, 0) == Some(w);
    } else if |ts| == 1 || Reached(ops, w, ts, 1).None? {
      DialogueFirst(ops, w, ts);
    } else {
      var next := Reached(ops, w, ts, 1).value;
      DialogueNext(ops, w, ts, next);
      var j := DialogueDecides(ops, next, ts[2..]);
      if 2 * j + 2 < |ts| {
        i := j + 1;
        ReachedShift(ops, w, ts, next, j);
        assert ts[2..][2 * j] == ts[2 * i];
        assert 2 * i + 1 < |ts| ==> ts[2..][2 * j + 1] == ts[2 * i + 1];
      }
      if |ts| % 2 == 0 {
        ReachedShift(ops, w, ts, next, |ts| / 2 - 1);
        assert (|ts| - 2) / 2 == |ts| / 2 - 1;
      }
    }
  }

  /** A reached match is where the dialogue ends. */
  lemma {:induction false} DialogueMatches<W>(ops: Ops<W>, w: W, ts: seq<string>, i: nat)
    requires MatchesAt(ops, w, ts, i)
    ensures Dialogue(ops, w, ts) == Running(ops.wait(Reached(ops, w, ts, i).value, ts[2 * i]).2)
    decreases |ts|
  {
    if i > 0 {
      ReachedEarlier(ops, w, ts, i);
      var next := Reached(ops, w, ts, 1).value;
      DialogueNext(ops, w, ts, next);
      ReachedShift(ops, w, ts, next, i - 1);
      assert ts[2..][2 * (i - 1)] == ts[2 * i];
      DialogueMatches(ops, next, ts[2..], i - 1);
    }
  }

  lemma {:induction false} DialogueAnswered<W>(ops: Ops<W>, w: W, ts: seq<string>)
    requires AllAnswered(ops, w, ts)
    ensures Dialogue(ops, w, ts) == Running(Reached(ops, w, ts, |ts| / 2).value)
    decreases |ts|
  {
    if ts != [] {
      ReachedEarlier(ops, w, ts, |ts| / 2);
      var next := Reached(ops, w, ts, 1).value;
      DialogueNext(ops, w, ts, next);
      ReachedShift(ops, w, ts, next, |ts| / 2 - 1);
      assert (|ts| - 2) / 2 == |ts| / 2 - 1;
      DialogueAnswered(ops, next, ts[2..]);
    }
  }

  /** chat_expect returns exactly when a reached expect matches or all are answered. */
  lemma DialogueReturnsIff<W>(ops: Ops<W>, w: W, ts: seq<string>)
    ensures Dialogue(ops, w, ts).Running? <==> (exists i: nat :: MatchesAt(ops, w, ts, i)) || AllAnswered(ops, w, ts)
  {
    var k := DialogueDecides(ops, w, ts);
    if AllAnswered(ops, w, ts) {
      DialogueAnswered(ops, w, ts);
    }
    forall i: nat | MatchesAt(ops, w, ts, i)
      ensures Dialogue(ops, w, ts).Running?
    {
      DialogueMatches(ops, w, ts, i);
    }
  }
}
