/** Words that stand for themselves, what a modem says, and scripts of a few pairs of words. */
module ChatWords {
  import opened CText
  import opened ChatControl
  import opened ChatEscapes
  import opened ChatMatcher
  import opened ChatReports
  import opened ChatScript
  import opened ChatSplit
  import opened ChatWindow

  // ---------------------------------------------------------------- what the modem says

  function Feed(t: string): (f: seq<Event>)
    ensures |f| == |t|
  {
    seq(|t|, i requires 0 <= i < |t| => Char(t[i]))
  }

  /** The modem says `t`, and then `more`. */
  predicate Says(feed: seq<Event>, t: string, more: seq<Event>) {
    feed == Feed(t) + more
  }

  lemma {:induction false} ReceivedFeed(feed: seq<Event>, t: string, more: seq<Event>, j: nat)
    requires Says(feed, t, more) && j <= |t|
    ensures j <= |feed| && Received(feed, j) == t[..j]
  {
    if j > 0 {
      ReceivedFeed(feed, t, more, j - 1);
      assert feed[j - 1] == Char(t[j - 1]) && t[..j] == t[..j - 1] + [t[j - 1]];
    }
  }

  lemma {:induction false} BetweenFeed(feed: seq<Event>, t: string, more: seq<Event>, j: nat)
    requires Says(feed, t, more) && j <= |t|
    ensures j <= |feed| && Between(feed, 0, j) == t[..j]
  {
    if j > 0 {
      BetweenFeed(feed, t, more, j - 1);
      assert feed[j - 1] == Char(t[j - 1]) && t[..j] == t[..j - 1] + [t[j - 1]];
    }
  }

  /** A text that ends in `want` or in the only abort string, and in neither earlier, is where the wait ends. */
  lemma DecideFeed(feed: seq<Event>, t: string, more: seq<Event>, want: string, aborts: seq<string>)
    requires Says(feed, t, more) && t != "" && |aborts| <= 1
    requires EndsWith(t, want) || (|aborts| == 1 && EndsWith(t, aborts[0]))
    requires forall j :: 0 <= j < |t| ==> !EndsWith(t[..j], want) && (|aborts| == 1 ==> !EndsWith(t[..j], aborts[0]))
    ensures Decide(feed, 0, "", want, aborts) == (if EndsWith(t, want) then Matched else Aborted(0), |t|)
  {
    forall j: nat | 1 <= j <= |t|
      ensures feed[j - 1].Char? && Received(feed, j) == t[..j]
    {
      ReceivedFeed(feed, t, more, j);
    }
    assert t[..|t|] == t;
    var verdict := if EndsWith(t, want) then Matched else Aborted(0);
    assert QuietThrough(feed, |t| - 1, want, aborts);
    assert IsVerdict(feed, want, aborts, verdict, |t|);
    DecideMeaning(feed, want, aborts);
    var (v, used) := Decide(feed, 0, "", want, aborts);
    VerdictUnique(feed, want, aborts, v, used, verdict, |t|);
  }

  // ---------------------------------------------------------------- plain words

  /** A word that stands for itself. */
  predicate IsPlainWord(p: string) {
    p != "" && |p| < FAIL_BUFFER && Keyword(p).None? &&
    forall i :: 0 <= i < |p| ==> p[i] != '^' && p[i] != '\\' && p[i] != '$' && p[i] != '-' && p[i] != '\0'
  }

  predicate StandsForItself(p: string) {
    forall i :: 0 <= i < |p| ==> p[i] != '^' && p[i] != '\\' && p[i] != '$' && p[i] != '-'
  }

  lemma {:induction false} CleanPlain(p: string, cfg: Config)
    requires StandsForItself(p)
    ensures CleanText(p, false, cfg) == p
    decreases |p|
  {
    if p != "" {
      CleanPlain(p[1..], cfg);
      assert NextToken(p, cfg.useEnv) == (Plain(p[0]), 1);
      assert p == [p[0]] + p[1..];
      assert Body(p, false, cfg) == [p[0]] + Body(p[1..], false, cfg);
    }
  }

  lemma {:induction false} NoDashInPlain(p: string)
    requires StandsForItself(p)
    ensures DashAt(p) == |p|
    decreases |p|
  {
    if p != "" {
      NoDashInPlain(p[1..]);
    }
  }

  lemma SplitPlain(p: string)
    requires StandsForItself(p) && p != ""
    ensures Split(p) == [p]
  {
    NoDashInPlain(p);
    assert p[..|p|] == p && Split("") == [] && [p] + [] == [p];
  }

  // ---------------------------------------------------------------- a return

  function AfterReturn(w: World): World {
    w.(output := w.output + [Byte('\r')], room := if w.room > 0 then w.room - 1 else 0)
  }

  lemma SendReturn(st: Setup, w: World)
    requires w.room >= 1
    ensures PlainSend(st, w, "") == Running(AfterReturn(w))
  {
    var r := [Byte('\r')];
    assert Interpret("", st.cfg) == [] + r == r;
    assert r[1..] == [] && Emit([], w.room - 1) == (true, [], w.room - 1);
    assert [r[0]] + [] == r && Emit(r, w.room) == (true, r, w.room - 1);
  }

  // ---------------------------------------------------------------- pairs of words

  lemma DirectivePair(st: Setup, w: World, d: Directive, s: string)
    ensures Pair(OpsOf(st), SPLIT, w, NameOf(d), s) == Apply(st, w, d, s)
  {
    KeywordIff(NameOf(d), d);
  }

  /** A word of one token, and a return. */
  lemma ExpectPair(st: Setup, w: World, p: string)
    requires IsPlainWord(p)
    ensures var (ok, end, w') := Wait(st, w, p);
            && (ok && w'.room >= 1 ==> Pair(OpsOf(st), SPLIT, w, p, "") == Running(AfterReturn(w')))
            && (!ok ==> Pair(OpsOf(st), SPLIT, w, p, "") == Exited(end, w'))
  {
    var (ok, end, w') := Wait(st, w, p);
    SplitPlain(p);
    assert SPLIT(p) == [p] && OpsOf(st).keyword(p).None? && OpsOf(st).wait(w, p) == (ok, end, w');
    if w'.room >= 1 {
      SendReturn(st, w');
    }
    OneExpect(OpsOf(st), SPLIT, w, p, "");
  }

  lemma OneExpect<W>(ops: Ops<W>, split: string -> seq<string>, w: W, first: string, second: string)
    requires ops.keyword(first).None? && split(first) == [first]
    ensures var (ok, end, w') := ops.wait(w, first);
            Pair(ops, split, w, first, second) == if ok then ops.plain(w', second) else Exited(end, w')
  {
  }

  /** Two pairs, and what follows them. */
  lemma TwoPairs<W>(ops: Ops<W>, split: string -> seq<string>, w: W, x: W, y: W, script: seq<string>)
    requires |script| == 6 && Pair(ops, split, w, script[0], script[1]) == Running(x)
    requires Pair(ops, split, x, script[2], script[3]) == Running(y)
    ensures Interpreter(ops, split, w, script) == Pair(ops, split, y, script[4], script[5])
  {
    var more := script[2..];
    var last := more[2..];
    assert more[0] == script[2] && more[1] == script[3] && last[0] == script[4] && last[1] == script[5];
    OnePair(ops, split, y, last);
    assert Interpreter(ops, split, x, more) == Interpreter(ops, split, y, last);
  }

  lemma SixWords<W>(ops: Ops<W>, split: string -> seq<string>, w: W, x: W, y: W, a: string, b: string, c: string,
                    d: string, e: string, f: string)
    requires Pair(ops, split, w, a, b) == Running(x) && Pair(ops, split, x, c, d) == Running(y)
    ensures Interpreter(ops, split, w, [a, b, c, d, e, f]) == Pair(ops, split, y, e, f)
  {
    TwoPairs(ops, split, w, x, y, [a, b, c, d, e, f]);
  }

  lemma OnePair<W>(ops: Ops<W>, split: string -> seq<string>, w: W, script: seq<string>)
    requires |script| == 2
    ensures Interpreter(ops, split, w, script) == Pair(ops, split, w, script[0], script[1])
  {
    assert script[2..] == [];
  }
}
