/** When a chat script comes to something that C leaves undefined: a report that outgrows `report_buffer`, or a CLR_REPORT
    that compares with the NULL of a report that has fired. */
module ChatUndefined {
  import opened CText
  import opened ChatControl
  import opened ChatEscapes
  import opened ChatMatcher
  import opened ChatReports
  import opened ChatScript
  import opened ChatSplit
  import opened ChatWindow
  import opened ChatWords

  // ---------------------------------------------------------------- single calls

  /** The only directive that C can leave undefined is CLR_REPORT, exactly when its string is not too long and a report
      that has fired is among the entries its scan comes to. */
  lemma UndefinedIff(st: Setup, w: World, d: Directive, s: string)
    ensures var clean := CleanText(s, false, st.cfg);
            var o := Apply(st, w, d, s);
            (o.Exited? && o.end == Undefined) <==>
              d == CLR_REPORT && !TooLong(clean, s) &&
              exists hole: nat :: IsFirstHole(w.reports.slots, hole) &&
                Hits(w.reports.slots, clean, 0, hole) < |w.reports.slots| - hole
  {
    ClearReportDefinedIff(w.reports.slots, CleanText(s, false, st.cfg));
  }

  /** A wait is lost exactly when it reads at all and a report is followed by a line too long for the buffer. */
  lemma LostIff(st: Setup, w: World, s: string)
    requires IsSound(w.reports)
    ensures var want := CleanText(s, false, st.cfg);
            GetString(st, w, s).0.Lost? <==>
              1 <= |want| <= STR_LEN &&
              exists i: nat, j: nat :: j <= Decide(w.input, 0, "", want, w.aborts).1 && Overlong(w.input, i, j, w.reports)
  {
    var want := CleanText(s, false, st.cfg);
    OverrunIff(w.input, Decide(w.input, 0, "", want, w.aborts).1, w.reports);
  }

  // ---------------------------------------------------------------- a word that is awaited and reported

  lemma {:induction false} NotYet(feed: seq<Event>, p: string, more: seq<Event>, r: Reports, j: nat)
    requires Says(feed, p, more) && j < |p| && r.slots == [Some(p)] && r.gathering.None? && !r.overrun
    ensures j <= |feed| && Watched(feed, j, r) == r
  {
    if j > 0 {
      NotYet(feed, p, more, r, j - 1);
      ReceivedFeed(feed, p, more, j);
      assert !Fires(Received(feed, j), r.slots[0]);
    }
  }

  lemma NoticeOnly(r: Reports, p: string, c: char)
    requires r.slots == [Some(p)] && r.gathering.None? && !r.overrun
    ensures Notice(r, p, c) == r.(slots := [None], gathering := Some(p))
  {
    assert Fires(p, r.slots[0]) && FirstReport(p, r.slots, 0) == Some(0);
    assert r.slots[0 := None] == [None];
  }

  lemma FiresAtEnd(feed: seq<Event>, p: string, more: seq<Event>, r: Reports)
    requires Says(feed, p, more) && p != "" && r.slots == [Some(p)] && r.gathering.None? && !r.overrun
    ensures |p| <= |feed| && Watched(feed, |p|, r) == r.(slots := [None], gathering := Some(p))
  {
    NotYet(feed, p, more, r, |p| - 1);
    ReceivedFeed(feed, p, more, |p|);
    assert p[..|p|] == p && feed[|p| - 1] == Char(p[|p| - 1]);
    assert Watched(feed, |p|, r) == Notice(r, p, p[|p| - 1]);
    NoticeOnly(r, p, p[|p| - 1]);
  }

  /** The world when `p` is declared as a report and the modem is about to say it. */
  predicate IsAwaited(w: World, p: string, more: seq<Event>) {
    && w.aborts == [] && Says(w.input, p, more)
    && w.reports.slots == [Some(p)] && w.reports.gathering.None? && !w.reports.overrun
  }

  function Reported(w: World, p: string, more: seq<Event>): World {
    w.(input := more, reports := w.reports.(slots := [None], gathering := Some(p)))
  }

  lemma WaitForReport(st: Setup, w: World, p: string, more: seq<Event>)
    requires IsPlainWord(p) && IsAwaited(w, p, more)
    ensures GetString(st, w, p) == (Yes, Reported(w, p, more))
  {
    CleanPlain(p, st.cfg);
    DecideFeed(w.input, p, more, p, []);
    FiresAtEnd(w.input, p, more, w.reports);
    assert w.input[|p|..] == more;
  }

  // ---------------------------------------------------------------- a report declared and awaited

  /** `REPORT p p ''`, with what the modem says before and after it. */
  predicate CanReport(w: World, p: string, more: seq<Event>) {
    && w.aborts == [] && Says(w.input, p, more) && w.room >= 1
    && w.reports.slots == [] && w.reports.gathering.None? && !w.reports.overrun
  }

  function AfterReport(w: World, p: string, more: seq<Event>): World {
    AfterReturn(Reported(w, p, more))
  }

  lemma DeclareIt(st: Setup, w: World, p: string, more: seq<Event>)
    requires IsPlainWord(p) && CanReport(w, p, more)
    ensures Apply(st, w, REPORT, p) == Running(w.(reports := w.reports.(slots := [Some(p)])))
  {
    CleanPlain(p, st.cfg);
    assert [] + [Some(p)] == [Some(p)];
  }

  lemma AwaitIt(st: Setup, w: World, p: string, more: seq<Event>)
    requires IsPlainWord(p) && CanReport(w, p, more)
    ensures Pair(OpsOf(st), SPLIT, w.(reports := w.reports.(slots := [Some(p)])), p, "") == Running(AfterReport(w, p, more))
  {
    var w1 := w.(reports := w.reports.(slots := [Some(p)]));
    WaitForReport(st, w1, p, more);
    assert Wait(st, w1, p) == (true, Status(w1.exitCode), Reported(w1, p, more));
    assert Reported(w1, p, more) == Reported(w, p, more);
    ExpectPair(st, w1, p);
  }

  lemma DeclarePair(st: Setup, w: World, p: string, more: seq<Event>)
    requires IsPlainWord(p) && CanReport(w, p, more)
    ensures Pair(OpsOf(st), SPLIT, w, "REPORT", p) == Running(w.(reports := w.reports.(slots := [Some(p)])))
  {
    DeclareIt(st, w, p, more);
    DirectivePair(st, w, REPORT, p);
  }

  lemma ReportThen(st: Setup, w: World, p: string, more: seq<Event>, a: string, b: string)
    requires IsPlainWord(p) && CanReport(w, p, more)
    ensures Interpreter(OpsOf(st), SPLIT, w, ["REPORT", p, p, "", a, b]) ==
            Pair(OpsOf(st), SPLIT, AfterReport(w, p, more), a, b)
  {
    var w1 := w.(reports := w.reports.(slots := [Some(p)]));
    DeclarePair(st, w, p, more);
    AwaitIt(st, w, p, more);
    SixWords(OpsOf(st), SPLIT, w, w1, AfterReport(w, p, more), "REPORT", p, p, "", a, b);
  }

  // ---------------------------------------------------------------- whole scripts

  lemma ClearPair(st: Setup, w: World, s: string)
    requires w.reports.slots == [None] && !TooLong(CleanText(s, false, st.cfg), s)
    ensures var o := Pair(OpsOf(st), SPLIT, w, "CLR_REPORT", s); o.Exited? && o.end == Undefined
  {
    DirectivePair(st, w, CLR_REPORT, s);
    assert !ClearReport([None], CleanText(s, false, st.cfg)).0;
  }

  /** `REPORT p p '' CLR_REPORT s` on a modem that says `p`: undefined, for every plain word `p` and every short enough
      `s`. */
  lemma FiredReportEndsScript(st: Setup, w: World, p: string, more: seq<Event>, s: string)
    requires IsPlainWord(p) && CanReport(w, p, more) && !TooLong(CleanText(s, false, st.cfg), s)
    ensures var o := Interpreter(OpsOf(st), SPLIT, w, ["REPORT", p, p, "", "CLR_REPORT", s]);
            o.Exited? && o.end == Undefined
  {
    ReportThen(st, w, p, more, "CLR_REPORT", s);
    ClearPair(st, AfterReport(w, p, more), s);
  }

  /** The modem says a line behind a report. */
  lemma LineGathered(feed: seq<Event>, r: Reports, p: string, text: string)
    requires Says(feed, text, []) && FitsBuffer(p) && r.gathering == Some(p) && !r.overrun
    requires forall j :: 0 <= j < |text| ==> !IsCntrl(text[j])
    ensures |feed| == |text| && Watched(feed, |text|, r).overrun == !FitsBuffer(p + text)
  {
    BetweenFeed(feed, text, [], |text|);
    assert text[..|text|] == text;
    assert forall k :: 0 <= k < |feed| ==> feed[k] == Char(text[k]);
    Gathers(feed, 0, |text|, r, p);
  }

  /** A wait that ends with such a line. */
  lemma WaitBehindReport(st: Setup, w: World, p: string, text: string, q: string)
    requires IsPlainWord(q) && FitsBuffer(p) && EndsWith(text, q)
    requires w.aborts == [] && Says(w.input, text, []) && w.reports.gathering == Some(p) && !w.reports.overrun
    requires forall j :: 0 <= j < |text| ==> !IsCntrl(text[j]) && !EndsWith(text[..j], q)
    ensures var (heard, w') := GetString(st, w, q);
            heard == (if FitsBuffer(p + text) then Yes else Lost) && w'.room == w.room
  {
    CleanPlain(q, st.cfg);
    DecideFeed(w.input, text, [], q, []);
    LineGathered(w.input, w.reports, p, text);
    assert Read(w, q).0 == Matched && Read(w, q).1.reports == Watched(w.input, |text|, w.reports);
  }

  /** `REPORT p p '' q ''` on a modem that says `p` and then a line that ends in `q`: undefined exactly when `p` and the
      line have more than 239 characters together. */
  lemma LongReportEndsScript(st: Setup, w: World, p: string, text: string, q: string)
    requires IsPlainWord(p) && IsPlainWord(q) && CanReport(w, p, Feed(text)) && w.room >= 2 && EndsWith(text, q)
    requires forall j :: 0 <= j < |text| ==> !IsCntrl(text[j]) && !EndsWith(text[..j], q)
    ensures var o := Interpreter(OpsOf(st), SPLIT, w, ["REPORT", p, p, "", q, ""]);
            (o.Exited? && o.end == Undefined) <==> |p| + |text| > 239
  {
    var w1 := AfterReport(w, p, Feed(text));
    ReportThen(st, w, p, Feed(text), q, "");
    assert Feed(text) + [] == Feed(text);
    WaitBehindReport(st, w1, p, text, q);
    ExpectPair(st, w1, q);
  }
}
