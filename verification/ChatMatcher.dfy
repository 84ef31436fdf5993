/** get_string of chat.c: watching the modem's output for an expect string or one of the abort strings through a
    window of STR_LEN characters, against a matcher that keeps everything it has received. */
module ChatMatcher {
  import opened CText
  import opened ChatReports
  import opened ChatWindow

  const LOG_SPAN := 80

  /** Standard input: characters (seven bits, as get_char delivers them) and the moments at which the alarm or a read
      error ends a wait.  The end of the sequence is the end of the input. */
  datatype Event = Char(c: char) | Silence

  datatype Verdict = Matched | Aborted(n: nat) | GaveUp

  // ---------------------------------------------------------------- the unbounded matcher

  /** Lowest index, from `n` on, of an abort string that ends the history. */
  function FirstAbort(h: string, aborts: seq<string>, n: nat): Option<nat>
    requires n <= |aborts|
    decreases |aborts| - n
  {
    if n == |aborts| then None else if EndsWith(h, aborts[n]) then Some(n) else FirstAbort(h, aborts, n + 1)
  }

  /** What, if anything, ends the wait after the history `h`. */
  function Ending(h: string, want: string, aborts: seq<string>): Option<Verdict> {
    if EndsWith(h, want) then Some(Matched)
    else var a := FirstAbort(h, aborts, 0); if a.Some? then Some(Aborted(a.value)) else None
  }

  /** The decision of a matcher that has consumed `k` events and kept all their characters `h`, and how many events it
      consumes altogether. */
  function Decide(feed: seq<Event>, k: nat, h: string, want: string, aborts: seq<string>): (r: (Verdict, nat))
    requires k <= |feed|
    ensures k <= r.1 <= |feed|
    decreases |feed| - k
  {
    if k == |feed| then (GaveUp, k)
    else if feed[k].Silence? then (GaveUp, k + 1)
    else
      var h' := h + [feed[k].c];
      var seen := Ending(h', want, aborts);
      if seen.Some? then (seen.value, k + 1) else Decide(feed, k + 1, h', want, aborts)
  }

  /** All characters among the first `k` events. */
  function Received(feed: seq<Event>, k: nat): string
    requires k <= |feed|
  {
    if k == 0 then "" else Received(feed, k - 1) + if feed[k - 1].Char? then [feed[k - 1].c] else ""
  }

  /** The report table when `k` events have been received. */
  function Watched(feed: seq<Event>, k: nat, r: Reports): Reports
    requires k <= |feed|
  {
    if k == 0 then r
    else
      var before := Watched(feed, k - 1, r);
      if feed[k - 1].Char? then Notice(before, Received(feed, k), feed[k - 1].c) else before
  }

  /** Waiting never adds or moves a report string; it only turns some into NULLs, and a NULL stays one. */
  lemma {:induction false} WatchedOnlyClears(feed: seq<Event>, k: nat, r: Reports)
    requires k <= |feed|
    ensures |Watched(feed, k, r).slots| == |r.slots|
    ensures forall i :: 0 <= i < |r.slots| ==>
              Watched(feed, k, r).slots[i] == r.slots[i] || Watched(feed, k, r).slots[i] == None
  {
    if k > 0 {
      WatchedOnlyClears(feed, k - 1, r);
    }
  }

  // ---------------------------------------------------------------- reports that outgrow their buffer

  /** The characters among the events from `i` to `j`. */
  function Between(feed: seq<Event>, i: nat, j: nat): string
    requires j <= |feed|
  {
    if j <= i then "" else Between(feed, i, j - 1) + if feed[j - 1].Char? then [feed[j - 1].c] else ""
  }

  predicate NoCntrl(feed: seq<Event>, i: nat, j: nat)
    requires j <= |feed|
  {
    forall k :: i <= k < j ==> feed[k].Silence? || !IsCntrl(feed[k].c)
  }

  /** The report that starts with event `i`: it has just been seen, or was under way before the first. */
  function Started(feed: seq<Event>, i: nat, r: Reports): Option<string>
    requires i <= |feed|
  {
    if i == 0 then r.gathering
    else
      var b := Watched(feed, i - 1, r);
      if feed[i - 1].Silence? || b.overrun || b.gathering.Some? then None
      else
        var n := FirstReport(Received(feed, i), b.slots, 0);
        if n.Some? then b.slots[n.value] else None
  }

  /** A report starts with event `i`, and the line behind it runs, by event `j`, over the end of the buffer. */
  predicate Overlong(feed: seq<Event>, i: nat, j: nat, r: Reports) {
    && i <= j <= |feed| && Started(feed, i, r).Some? && NoCntrl(feed, i, j)
    && !FitsBuffer(Started(feed, i, r).value + Between(feed, i, j))
  }

  /** A line behind a report: gathered, or too long. */
  lemma {:induction false} Gathers(feed: seq<Event>, i: nat, j: nat, r: Reports, text: string)
    requires i <= j <= |feed| && NoCntrl(feed, i, j) && FitsBuffer(text)
    requires Watched(feed, i, r).gathering == Some(text) && !Watched(feed, i, r).overrun
    ensures var more := text + Between(feed, i, j);
            if FitsBuffer(more) then Watched(feed, j, r) == Watched(feed, i, r).(gathering := Some(more))
            else Watched(feed, j, r).overrun
    decreases j
  {
    if i < j {
      Gathers(feed, i, j - 1, r, text);
      var before := text + Between(feed, i, j - 1);
      if feed[j - 1].Char? {
        assert text + Between(feed, i, j) == before + [feed[j - 1].c];
      } else {
        assert text + Between(feed, i, j) == before + "" == before;
      }
    } else {
      assert text + "" == text;
    }
  }

  /** The control character that ends the line: the report is written to the file. */
  lemma ReportIsFiled(feed: seq<Event>, i: nat, j: nat, r: Reports, text: string)
    requires i <= j < |feed| && NoCntrl(feed, i, j) && feed[j].Char? && IsCntrl(feed[j].c)
    requires Watched(feed, i, r).gathering == Some(text) && !Watched(feed, i, r).overrun
    requires FitsBuffer(text + Between(feed, i, j))
    ensures var b := Watched(feed, i, r);
            Watched(feed, j + 1, r) == b.(gathering := None, filed := b.filed + [text + Between(feed, i, j)])
  {
    Gathers(feed, i, j, r, text);
  }

  lemma {:induction false} OverrunStays(feed: seq<Event>, j: nat, k: nat, r: Reports)
    requires j <= k <= |feed| && Watched(feed, j, r).overrun
    ensures Watched(feed, k, r).overrun
    decreases k
  {
    if j < k {
      OverrunStays(feed, j, k - 1, r);
    }
  }

  /** A report that starts does so with its string, which fits. */
  lemma StartedFits(feed: seq<Event>, i: nat, r: Reports)
    requires i <= |feed| && Started(feed, i, r).Some? && IsSound(r)
    ensures Watched(feed, i, r).gathering == Started(feed, i, r) && !Watched(feed, i, r).overrun
    ensures FitsBuffer(Started(feed, i, r).value)
  {
    if i > 0 {
      WatchedOnlyClears(feed, i - 1, r);
      var b := Watched(feed, i - 1, r);
      var n := FirstReport(Received(feed, i), b.slots, 0).value;
      assert b.slots[n] == r.slots[n];
      assert Watched(feed, i, r) == Notice(b, Received(feed, i), feed[i - 1].c);
    }
  }

  /** The reports at the start of a wait: the entries are short, and what is being gathered fits. */
  predicate IsSound(r: Reports) {
    ShortReports(r.slots) && !r.overrun && (r.gathering.Some? ==> FitsBuffer(r.gathering.value))
  }

  /** Where the report being gathered has started. */
  lemma {:induction false} StartOf(feed: seq<Event>, k: nat, r: Reports) returns (i: nat)
    requires k <= |feed| && IsSound(r) && !Watched(feed, k, r).overrun && Watched(feed, k, r).gathering.Some?
    ensures i <= k && Started(feed, i, r).Some? && NoCntrl(feed, i, k)
    ensures Watched(feed, k, r).gathering.value == Started(feed, i, r).value + Between(feed, i, k)
    decreases k
  {
    if Started(feed, k, r).Some? {
      i := k;
      StartedFits(feed, k, r);
      assert Started(feed, k, r).value + "" == Started(feed, k, r).value;
    } else {
      i := StartOf(feed, k - 1, r);
      var before := Started(feed, i, r).value + Between(feed, i, k - 1);
      if feed[k - 1].Char? {
        assert Started(feed, i, r).value + Between(feed, i, k) == before + [feed[k - 1].c];
      } else {
        assert Started(feed, i, r).value + Between(feed, i, k) == before + "" == before;
      }
    }
  }

  lemma {:induction false} OverrunStart(feed: seq<Event>, k: nat, r: Reports) returns (i: nat, j: nat)
    requires k <= |feed| && IsSound(r) && Watched(feed, k, r).overrun
    ensures j <= k && Overlong(feed, i, j, r)
    decreases k
  {
    if Watched(feed, k - 1, r).overrun {
      i, j := OverrunStart(feed, k - 1, r);
    } else {
      i := StartOf(feed, k - 1, r);
      j := k;
      var before := Started(feed, i, r).value + Between(feed, i, k - 1);
      assert Started(feed, i, r).value + Between(feed, i, k) == before + [feed[k - 1].c];
    }
  }

  /** `report_buffer` is overrun exactly when some report is followed by a line too long for it: string and line have more
      than 239 characters together. */
  lemma OverrunIff(feed: seq<Event>, k: nat, r: Reports)
    requires k <= |feed| && IsSound(r)
    ensures Watched(feed, k, r).overrun <==> exists i: nat, j: nat :: j <= k && Overlong(feed, i, j, r)
  {
    if Watched(feed, k, r).overrun {
      var i, j := OverrunStart(feed, k, r);
    }
    forall i: nat, j: nat | j <= k && Overlong(feed, i, j, r)
      ensures Watched(feed, k, r).overrun
    {
      StartedFits(feed, i, r);
      Gathers(feed, i, j, r, Started(feed, i, r).value);
      OverrunStays(feed, j, k, r);
    }
  }

  // ---------------------------------------------------------------- what a verdict means

  /** Nothing happens at the prefix of `j` events. */
  ghost predicate QuietAt(feed: seq<Event>, j: nat, want: string, aborts: seq<string>)
    requires 1 <= j <= |feed|
  {
    && feed[j - 1].Char? && !EndsWith(Received(feed, j), want)
    && forall n :: 0 <= n < |aborts| ==> !EndsWith(Received(feed, j), aborts[n])
  }

  ghost predicate QuietThrough(feed: seq<Event>, k: nat, want: string, aborts: seq<string>)
    requires k <= |feed|
  {
    forall j: nat :: 1 <= j <= k ==> QuietAt(feed, j, want, aborts)
  }

  /** What a verdict after `used` events means. */
  ghost predicate IsVerdict(feed: seq<Event>, want: string, aborts: seq<string>, v: Verdict, used: nat) {
    && used <= |feed|
    && match v {
         case Matched =>
           && used >= 1 && QuietThrough(feed, used - 1, want, aborts)
           && feed[used - 1].Char? && EndsWith(Received(feed, used), want)
         case Aborted(n) =>
           && used >= 1 && QuietThrough(feed, used - 1, want, aborts)
           && feed[used - 1].Char? && !EndsWith(Received(feed, used), want)
           && n < |aborts| && EndsWith(Received(feed, used), aborts[n])
           && (forall m :: 0 <= m < n ==> !EndsWith(Received(feed, used), aborts[m]))
         case GaveUp =>
           || (used >= 1 && feed[used - 1].Silence? && QuietThrough(feed, used - 1, want, aborts))
           || (used == |feed| && QuietThrough(feed, used, want, aborts))
       }
  }

  lemma {:induction false} FirstAbortMeaning(h: string, aborts: seq<string>, n: nat)
    requires n <= |aborts|
    ensures var a := FirstAbort(h, aborts, n);
            if a.Some? then
              n <= a.value < |aborts| && EndsWith(h, aborts[a.value]) && forall m :: n <= m < a.value ==> !EndsWith(h, aborts[m])
            else forall m :: n <= m < |aborts| ==> !EndsWith(h, aborts[m])
    decreases |aborts| - n
  {
    if n < |aborts| && !EndsWith(h, aborts[n]) {
      FirstAbortMeaning(h, aborts, n + 1);
    }
  }

  lemma {:induction false} DecideFrom(feed: seq<Event>, k: nat, want: string, aborts: seq<string>)
    requires k <= |feed| && QuietThrough(feed, k, want, aborts)
    ensures var (v, used) := Decide(feed, k, Received(feed, k), want, aborts);
            IsVerdict(feed, want, aborts, v, used)
    decreases |feed| - k
  {
    if k < |feed| && feed[k].Char? {
      var h := Received(feed, k + 1);
      assert h == Received(feed, k) + [feed[k].c];
      FirstAbortMeaning(h, aborts, 0);
      if !EndsWith(h, want) && FirstAbort(h, aborts, 0).None? {
        assert QuietAt(feed, k + 1, want, aborts);
        DecideFrom(feed, k + 1, want, aborts);
      }
    }
  }

  /** The matcher succeeds at the first prefix that ends in the expect string unless an abort string ended an earlier
      one, reports the lowest abort at the first prefix one of them ends, and gives up when the input does. */
  lemma DecideMeaning(feed: seq<Event>, want: string, aborts: seq<string>)
    ensures var (v, used) := Decide(feed, 0, "", want, aborts);
            IsVerdict(feed, want, aborts, v, used)
  {
    DecideFrom(feed, 0, want, aborts);
  }

  lemma VerdictAtMost(feed: seq<Event>, want: string, aborts: seq<string>, v: Verdict, used: nat, w: Verdict,
      later: nat)
    requires IsVerdict(feed, want, aborts, v, used) && IsVerdict(feed, want, aborts, w, later)
    ensures later <= used
  {
    assert 1 <= used < later ==> QuietAt(feed, used, want, aborts);
  }

  /** That describes exactly one verdict. */
  lemma VerdictUnique(feed: seq<Event>, want: string, aborts: seq<string>, v: Verdict, used: nat, w: Verdict,
      later: nat)
    requires IsVerdict(feed, want, aborts, v, used) && IsVerdict(feed, want, aborts, w, later)
    ensures v == w && used == later
  {
    VerdictAtMost(feed, want, aborts, v, used, w, later);
    VerdictAtMost(feed, want, aborts, w, later, v, used);
    assert used >= 1 && feed[used - 1].Char? && (v.GaveUp? || w.GaveUp?) ==> QuietAt(feed, used, want, aborts);
  }

  // ---------------------------------------------------------------- the log

  function Flat(chunks: seq<string>): string {
    if chunks == [] then "" else Flat(chunks[..|chunks| - 1]) + chunks[|chunks| - 1]
  }

  function NoNewlines(h: string): string {
    if h == "" then "" else NoNewlines(h[..|h| - 1]) + if h[|h| - 1] == '\n' then "" else [h[|h| - 1]]
  }

  /** Spans are at most 80 characters. */
  predicate GoodSpans(log: seq<string>) {
    forall i :: 0 <= i < |log| ==> |log[i]| <= LOG_SPAN
  }

  /** Chunks flushed so far and the span still pending account for everything received. */
  ghost predicate Logged(log: seq<string>, pending: string, h: string) {
    Flat(log) + pending == NoNewlines(h) && |pending| < LOG_SPAN && GoodSpans(log)
  }

  lemma NewlinesStep(h: string, c: char)
    ensures NoNewlines(h + [c]) == NoNewlines(h) + if c == '\n' then "" else [c]
  {
    assert (h + [c])[..|h|] == h;
  }

  lemma FlatAppend(log: seq<string>, chunk: string)
    ensures Flat(log + [chunk]) == Flat(log) + chunk
  {
    assert (log + [chunk])[..|log|] == log;
  }

  /** Flushing the pending span. */
  lemma LogFlush(log: seq<string>, pending: string, h: string)
    requires Logged(log, pending, h)
    ensures Logged(log + [pending], "", h)
  {
    FlatAppend(log, pending);
    assert Flat(log + [pending]) + "" == Flat(log + [pending]);
  }

  /** A newline flushes the pending span and is itself dropped. */
  lemma LogNewline(log: seq<string>, pending: string, h: string)
    requires Logged(log, pending, h)
    ensures Logged(log + [pending], "", h + ['\n'])
  {
    LogFlush(log, pending, h);
    NewlinesStep(h, '\n');
  }

  // ---------------------------------------------------------------- the C loop

  /** The loop over the abort strings. */
  method ScanAborts(temp: array<char>, s: nat, aborts: seq<string>, ghost h: string, ghost need: nat)
    returns (n: nat)
    requires s <= temp.Length && Window(temp[..], s, h, need)
    requires forall i :: 0 <= i < |aborts| ==> |aborts[i]| <= need
    ensures n <= |aborts| && FirstAbort(h, aborts, 0) == if n < |aborts| then Some(n) else None
  {
    n := 0;
    while n < |aborts|
      invariant n <= |aborts| && FirstAbort(h, aborts, n) == FirstAbort(h, aborts, 0)
    {
      WindowDecides(temp[..], s, h, need, aborts[n]);
      if s >= |aborts[n]| && temp[s - |aborts[n]|..s] == aborts[n] {
        return;
      }
      n := n + 1;
    }
  }

  /** Make room at the end of a full buffer: the pending span is flushed if the shift would drop part of it. */
  method ShiftWindow(temp: array<char>, s: nat, logged: nat, minlen: nat, verbose: bool, log: seq<string>,
      ghost h: string)
    returns (s': nat, logged': nat, log': seq<string>)
    requires temp.Length == STR_LEN == s && minlen < STR_LEN && logged <= s && Window(temp[..], s, h, minlen + 1)
    requires LogState(verbose, log, temp[logged..s], h)
    modifies temp
    ensures s' == minlen && logged' <= s' && Window(temp[..], s', h, minlen)
    ensures LogState(verbose, log', temp[logged'..s'], h)
  {
    log', logged' := log, logged;
    if logged' < s - minlen {
      if verbose {
        LogFlush(log', temp[logged'..s], h);
        log' := log' + [temp[logged'..s]];
      }
      logged' := s;
    }
    s' := s - minlen;
    ghost var m := temp[..];
    forall i | 0 <= i < minlen {
      temp[i] := temp[s' + i];
    }
    assert temp[..minlen] == m[s'..s];
    assert m[s'..s] == m[..s][s'..] == h[|h| - s..][s'..] == h[|h| - minlen..];
    logged' := logged' - s';
    assert temp[logged'..minlen] == temp[..minlen][logged'..] == m[s' + logged'..s];
    s' := minlen;
  }

  /** What the log must hold: nothing unless verbose. */
  ghost predicate LogState(verbose: bool, log: seq<string>, pending: string, h: string) {
    if verbose then Logged(log, pending, h) else log == []
  }

  /** The verbose bookkeeping before `*s++ = c`: a newline flushes the span before it. */
  method BeforeStore(temp: array<char>, s: nat, logged: nat, c: char, verbose: bool, log: seq<string>, ghost h: string)
    returns (logged': nat, log': seq<string>)
    requires logged <= s < temp.Length && LogState(verbose, log, temp[logged..s], h)
    ensures if verbose && c == '\n' then logged' == s + 1 && LogState(verbose, log', "", h + [c])
            else logged' == logged && log' == log
  {
    log', logged' := log, logged;
    if verbose && c == '\n' {
      LogNewline(log, temp[logged..s], h);
      log' := log + [temp[logged..s]];
      logged' := s + 1;
    }
  }

  lemma SliceStored(m: seq<char>, lo: nat, at: nat, c: char)
    requires lo <= at < |m|
    ensures m[at := c][lo..at + 1] == m[lo..at] + [c]
  {
  }

  /** The flush of a span that has grown to eighty characters. */
  method AfterStore(temp: array<char>, s: nat, logged: nat, verbose: bool, log: seq<string>, ghost h: string)
    returns (logged': nat, log': seq<string>)
    requires logged <= s <= temp.Length
    requires verbose ==> Flat(log) + temp[logged..s] == NoNewlines(h) && s <= logged + LOG_SPAN && GoodSpans(log)
    requires !verbose ==> log == []
    ensures logged' <= s && LogState(verbose, log', temp[logged'..s], h)
  {
    logged', log' := logged, log;
    if verbose && s >= logged + LOG_SPAN {
      FlatAppend(log, temp[logged..s]);
      log' := log + [temp[logged..s]];
      logged' := s;
      assert temp[s..s] == "" && Flat(log') + "" == Flat(log');
    }
  }

  /** `*s++ = c` with the bookkeeping around it; `s` is the new end. */
  method StoreChar(temp: array<char>, at: nat, logged: nat, c: char, verbose: bool, log: seq<string>, ghost h: string)
    returns (s: nat, logged': nat, log': seq<string>)
    requires at < temp.Length && logged <= at && LogState(verbose, log, temp[logged..at], h)
    modifies temp
    ensures s == at + 1 && logged' <= s && temp[..] == old(temp[..])[at := c]
    ensures LogState(verbose, log', temp[logged'..s], h + [c])
  {
    ghost var m, pending := temp[..], temp[logged..at];
    logged', log' := BeforeStore(temp, at, logged, c, verbose, log, h);
    temp[at] := c;
    s := at + 1;
    assert temp[..] == m[at := c];
    if verbose && c == '\n' {
      assert temp[logged'..s] == "";
    } else {
      SliceStored(m, logged, at, c);
      CharPending(verbose, log, pending, h, c);
      assert temp[logged'..s] == pending + [c];
    }
    logged', log' := AfterStore(temp, s, logged', verbose, log', h + [c]);
  }

  lemma CharPending(verbose: bool, log: seq<string>, pending: string, h: string, c: char)
    requires LogState(verbose, log, pending, h) && !(verbose && c == '\n')
    ensures verbose ==> Flat(log) + (pending + [c]) == NoNewlines(h + [c])
  {
    NewlinesStep(h, c);
    assert Flat(log) + (pending + [c]) == (Flat(log) + pending) + [c];
  }

  method FinalFlush(temp: array<char>, s: nat, logged: nat, verbose: bool, log: seq<string>, ghost h: string)
    returns (log': seq<string>)
    requires logged <= s <= temp.Length && LogState(verbose, log, temp[logged..s], h)
    ensures LogState(verbose, log', "", h)
  {
    log' := log;
    if verbose && s > logged {
      LogFlush(log', temp[logged..s], h);
      log' := log' + [temp[logged..s]];
    }
  }

  /** The reading loop after `k` events, told on the specification: history, decision still to come, report table. */
  ghost predicate SoFar(feed: seq<Event>, k: nat, h: string, want: string, aborts: seq<string>, was: Reports, now: Reports) {
    && k <= |feed| && h == Received(feed, k) && now == Watched(feed, k, was)
    && Decide(feed, k, h, want, aborts) == Decide(feed, 0, "", want, aborts)
  }

  lemma NextChar(feed: seq<Event>, k: nat, h: string, want: string, aborts: seq<string>, was: Reports, now: Reports)
    requires SoFar(feed, k, h, want, aborts, was, now) && k < |feed| && feed[k].Char?
    ensures var h' := h + [feed[k].c];
            var seen, now' := Ending(h', want, aborts), Notice(now, h', feed[k].c);
            && Received(feed, k + 1) == h' && Watched(feed, k + 1, was) == now'
            && (seen.None? ==> SoFar(feed, k + 1, h', want, aborts, was, now'))
            && (seen.Some? ==> Decide(feed, 0, "", want, aborts) == (seen.value, k + 1))
  {
    assert Received(feed, k + 1) == h + [feed[k].c];
  }

  /** The input ends, or there is silence. */
  lemma Ends(feed: seq<Event>, k: nat, h: string, want: string, aborts: seq<string>, was: Reports, now: Reports)
    requires SoFar(feed, k, h, want, aborts, was, now) && (k < |feed| ==> feed[k].Silence?)
    ensures var used := if k < |feed| then k + 1 else k;
            && Decide(feed, 0, "", want, aborts) == (GaveUp, used)
            && Received(feed, used) == h && Watched(feed, used, was) == now
  {
    assert h + "" == h;
  }

  /** The comparisons after a character: first the expect string, then the abort strings. */
  method LookBack(temp: array<char>, s: nat, c: char, want: string, aborts: seq<string>, ghost h: string,
      ghost need: nat)
    returns (seen: Option<Verdict>)
    requires 1 <= s <= temp.Length && Window(temp[..], s, h, need) && c == temp[s - 1]
    requires 1 <= |want| <= need && forall i :: 0 <= i < |aborts| ==> |aborts[i]| <= need
    ensures seen == Ending(h, want, aborts)
  {
    WindowDecides(temp[..], s, h, need, want);
    if s >= |want| && c == want[|want| - 1] && temp[s - |want|..s] == want {
      return Some(Matched);
    }
    var n := ScanAborts(temp, s, aborts, h, need);
    seen := if n < |aborts| then Some(Aborted(n)) else None;
  }

  /** The character stored, and the report strings compared. */
  method TakeChar(temp: array<char>, at: nat, logged: nat, c: char, reports: ReportTable, minlen: nat,
                  verbose: bool, log: seq<string>, ghost h: string)
    returns (s: nat, logged': nat, log': seq<string>)
    requires at < temp.Length && logged <= at && Window(temp[..], at, h, minlen) && minlen + 1 >= FAIL_BUFFER
    requires LogState(verbose, log, temp[logged..at], h) && reports.Valid() && ShortReports(reports.View().slots)
    modifies temp, reports, reports.slots
    ensures reports.Valid() && ShortReports(reports.View().slots)
    ensures reports.View() == Notice(old(reports.View()), h + [c], c)
    ensures s == at + 1 && logged' <= s && Window(temp[..], s, h + [c], minlen + 1) && temp[at] == c
    ensures LogState(verbose, log', temp[logged'..s], h + [c])
  {
    WindowGrows(temp[..], at, h, minlen, c);
    s, logged', log' := StoreChar(temp, at, logged, c, verbose, log, h);
    reports.Watch(temp, s, c, h + [c], minlen + 1);
  }

  /** One turn of the reading loop: store the character, look for reports, look back, and make room if the buffer is
      full. */
  method Turn(temp: array<char>, at: nat, logged: nat, c: char, want: string, aborts: seq<string>, reports: ReportTable,
              minlen: nat, verbose: bool, log: seq<string>, ghost h: string)
    returns (seen: Option<Verdict>, s: nat, logged': nat, log': seq<string>)
    requires temp.Length == STR_LEN && at < STR_LEN && logged <= at && Window(temp[..], at, h, minlen)
    requires LogState(verbose, log, temp[logged..at], h)
    requires 1 <= |want| <= minlen + 1 <= STR_LEN && forall i :: 0 <= i < |aborts| ==> |aborts[i]| <= minlen + 1
    requires reports.Valid() && ShortReports(reports.View().slots) && minlen + 1 >= FAIL_BUFFER
    modifies temp, reports, reports.slots
    ensures reports.Valid() && ShortReports(reports.View().slots)
    ensures reports.View() == Notice(old(reports.View()), h + [c], c)
    ensures seen == Ending(h + [c], want, aborts)
    ensures seen.Some? ==> LogState(verbose, log', "", h + [c])
    ensures seen.None? ==> s < STR_LEN && logged' <= s && Window(temp[..], s, h + [c], minlen)
    ensures seen.None? ==> LogState(verbose, log', temp[logged'..s], h + [c])
  {
    s, logged', log' := TakeChar(temp, at, logged, c, reports, minlen, verbose, log, h);
    ghost var h' := h + [c];
    seen := LookBack(temp, s, c, want, aborts, h', minlen + 1);
    if seen.Some? {
      log' := FinalFlush(temp, s, logged', verbose, log', h');
    } else if s >= STR_LEN {
      s, logged', log' := ShiftWindow(temp, s, logged', minlen, verbose, log', h');
    }
  }

  /** The turn for character `k` of the input, told on the specification. */
  method TurnOn(feed: seq<Event>, k: nat, temp: array<char>, at: nat, logged: nat, want: string, aborts: seq<string>,
                reports: ReportTable, minlen: nat, verbose: bool, log: seq<string>, ghost h: string, ghost was: Reports)
    returns (seen: Option<Verdict>, s: nat, logged': nat, log': seq<string>)
    requires k < |feed| && feed[k].Char? && SoFar(feed, k, h, want, aborts, was, reports.View())
    requires temp.Length == STR_LEN && at < STR_LEN && logged <= at && Window(temp[..], at, h, minlen)
    requires LogState(verbose, log, temp[logged..at], h)
    requires 1 <= |want| <= minlen + 1 <= STR_LEN && forall i :: 0 <= i < |aborts| ==> |aborts[i]| <= minlen + 1
    requires reports.Valid() && ShortReports(reports.View().slots) && minlen + 1 >= FAIL_BUFFER
    modifies temp, reports, reports.slots
    ensures reports.Valid() && ShortReports(reports.View().slots)
    ensures seen.Some? ==> Decide(feed, 0, "", want, aborts) == (seen.value, k + 1)
    ensures seen.Some? ==> reports.View() == Watched(feed, k + 1, was) && LogState(verbose, log', "", Received(feed, k + 1))
    ensures seen.None? ==> SoFar(feed, k + 1, h + [feed[k].c], want, aborts, was, reports.View())
    ensures seen.None? ==> s < STR_LEN && logged' <= s && Window(temp[..], s, h + [feed[k].c], minlen)
    ensures seen.None? ==> LogState(verbose, log', temp[logged'..s], h + [feed[k].c])
  {
    NextChar(feed, k, h, want, aborts, was, reports.View());
    seen, s, logged', log' := Turn(temp, at, logged, feed[k].c, want, aborts, reports, minlen, verbose, log, h);
  }

  /** The reading loop of get_string for a non-empty expect string of at most STR_LEN characters.  `log` collects the
      spans of the `%0.*v` messages: all of the stream but its newlines on a match or abort, and all but a last span of
      fewer than 80 characters otherwise. */
  method ScanStream(feed: seq<Event>, want: string, aborts: seq<string>, reports: ReportTable, verbose: bool)
    returns (v: Verdict, used: nat, log: seq<string>, ghost pending: string)
    requires 1 <= |want| <= STR_LEN
    requires forall i :: 0 <= i < |aborts| ==> |aborts[i]| < FAIL_BUFFER
    requires reports.Valid() && ShortReports(reports.View().slots)
    modifies reports, reports.slots
    ensures reports.Valid() && ShortReports(reports.View().slots)
    ensures used <= |feed| && reports.View() == Watched(feed, used, old(reports.View()))
    ensures (v, used) == Decide(feed, 0, "", want, aborts)
    ensures used <= |feed| && LogState(verbose, log, pending, Received(feed, used))
    ensures !v.GaveUp? ==> pending == ""
  {
    var temp := new char[STR_LEN];
    var s: nat, logged: nat := 0, 0;
    var minlen := (if |want| > FAIL_BUFFER then |want| else FAIL_BUFFER) - 1;
    ghost var h, was := "", reports.View();
    log, used, pending := [], 0, "";
    while used < |feed| && feed[used].Char?
      invariant SoFar(feed, used, h, want, aborts, was, reports.View())
      invariant s < STR_LEN && logged <= s && Window(temp[..], s, h, minlen)
      invariant LogState(verbose, log, temp[logged..s], h)
      invariant reports.Valid() && ShortReports(reports.View().slots)
      decreases |feed| - used
    {
      var seen: Option<Verdict>;
      seen, s, logged, log := TurnOn(feed, used, temp, s, logged, want, aborts, reports, minlen, verbose, log, h, was);
      h := h + [feed[used].c];
      used := used + 1;
      if seen.Some? {
        return seen.value, used, log, "";
      }
    }
    Ends(feed, used, h, want, aborts, was, reports.View());
    v, pending := GaveUp, temp[logged..s];
    if used < |feed| {
      used := used + 1;
    }
  }
}
