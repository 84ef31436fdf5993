/** The report strings of chat.c: REPORT appends to the table, get_string replaces a string it has seen by NULL and
    gathers the line that follows in a buffer without testing its bound, and CLR_REPORT scans and compacts the table
    without expecting NULLs in it. */
module ChatReports {
  import opened CText
  import opened ChatAborts
  import opened ChatWindow

  const MAX_REPORTS := 50

  /** Size of `report_buffer`, and length of the time stamp that strftime puts at its front. */
  const REPORT_BUFFER := 256
  const STAMP := 16

  /** The entries below `n_reports`, NULLs included; the text behind the time stamp of the report being gathered; the
      reports written to the report file, less their stamps; and whether a write has passed the end of `report_buffer`,
      after which nothing is said. */
  datatype Reports = Reports(slots: seq<Option<string>>, gathering: Option<string>, filed: seq<string>, overrun: bool)

  /** Does `report_buffer` hold this text behind its stamp, and its NUL? */
  predicate FitsBuffer(text: string) {
    STAMP + |text| < REPORT_BUFFER
  }

  /** Nothing declared, gathered or written yet. */
  const NO_REPORTS := Reports([], None, [], false)

  /** iscntrl in the C locale. */
  predicate IsCntrl(c: char) {
    c < ' ' || c == 127 as char
  }

  /** The control characters of ASCII: the codes below the space, and DEL. */
  lemma ControlsAre(c: char)
    ensures IsCntrl(c) <==> c as int < 32 || c as int == 127
  {
  }

  // ---------------------------------------------------------------- a report fires

  predicate Fires(h: string, entry: Option<string>) {
    entry.Some? && EndsWith(h, entry.value)
  }

  /** Lowest index, from `n` on, of a report string that ends the history. */
  function FirstReport(h: string, t: seq<Option<string>>, n: nat): (r: Option<nat>)
    requires n <= |t|
    ensures r.Some? ==> n <= r.value < |t| && Fires(h, t[r.value])
    ensures forall i :: n <= i < (if r.Some? then r.value else |t|) ==> !Fires(h, t[i])
    decreases |t| - n
  {
    if n == |t| then None else if Fires(h, t[n]) then Some(n) else FirstReport(h, t, n + 1)
  }

  /** One more character `c`, with which the history is `h`: the first string seen becomes NULL and starts a report, to
      which characters are added until a control character ends it. */
  function Notice(r: Reports, h: string, c: char): Reports {
    if r.overrun then r
    else if r.gathering.Some? then
      var text := r.gathering.value;
      if IsCntrl(c) then r.(gathering := None, filed := r.filed + [text])
      else if FitsBuffer(text + [c]) then r.(gathering := Some(text + [c]))
      else r.(overrun := true)
    else
      var n := FirstReport(h, r.slots, 0);
      if n.Some? then r.(slots := r.slots[n.value := None], gathering := r.slots[n.value]) else r
  }

  /** The first string seen, wherever it stands in the table, starts a report and becomes NULL; nothing starts one while
      another is gathered. */
  lemma NoticeStarts(r: Reports, h: string, c: char, n: nat)
    requires !r.overrun && r.gathering.None? && n < |r.slots|
    requires Fires(h, r.slots[n]) && forall i :: 0 <= i < n ==> !Fires(h, r.slots[i])
    ensures Notice(r, h, c) == r.(slots := r.slots[n := None], gathering := r.slots[n])
  {
  }

  lemma NoticeIgnores(r: Reports, h: string, c: char)
    requires r.gathering.Some? || forall i :: 0 <= i < |r.slots| ==> !Fires(h, r.slots[i])
    ensures Notice(r, h, c).slots == r.slots
  {
  }

  /** Entries are C strings that fit `fail_buffer`. */
  predicate ShortReports(t: seq<Option<string>>) {
    forall i :: 0 <= i < |t| && t[i].Some? ==> NoNul(t[i].value) && |t[i].value| < FAIL_BUFFER
  }

  // ---------------------------------------------------------------- CLR_REPORT

  /** The entries after a scan, the number cleared, and whether the scan came to its end: comparing with a NULL is
      undefined. */
  datatype Scanned = Scanned(entries: seq<Option<string>>, gone: nat, ok: bool)

  /** The scan from entry `i` on, when `gone` have been cleared: its bound is `n_reports`, which every hit lowers. */
  function Scan(t: seq<Option<string>>, s: string, i: nat, gone: nat): (r: Scanned)
    requires i <= |t|
    ensures |r.entries| == |t| - i && gone <= r.gone && r.gone - gone <= |t| - i
    decreases |t| - i
  {
    if i + gone >= |t| then Scanned(t[i..], gone, true)
    else if t[i].None? then Scanned(t[i..], gone, false)
    else if t[i].value == s then After(None, Scan(t, s, i + 1, gone + 1))
    else After(t[i], Scan(t, s, i + 1, gone))
  }

  function After(entry: Option<string>, r: Scanned): Scanned {
    r.(entries := [entry] + r.entries)
  }

  /** The first `n` entries once the non-NULL ones have moved to the front. */
  function Packed(a: seq<Option<string>>, n: nat): (p: seq<Option<string>>)
    ensures |p| == n
  {
    seq(n, k => if 0 <= k < |Values(a)| then Some(Values(a)[k]) else None)
  }

  /** CLR_REPORT: whether it is defined, and the entries it leaves. */
  function ClearReport(t: seq<Option<string>>, s: string): (bool, seq<Option<string>>) {
    var r := Scan(t, s, 0, 0);
    (r.ok, if r.ok && r.gone > 0 then Packed(r.entries, |t| - r.gone) else r.entries[..|t| - r.gone])
  }

  /** How often `s` occurs from `i` on, below `j`. */
  function Hits(t: seq<Option<string>>, s: string, i: nat, j: nat): nat
    requires j <= |t|
    decreases j - i
  {
    if i >= j then 0 else (if t[i] == Some(s) then 1 else 0) + Hits(t, s, i + 1, j)
  }

  predicate IsFirstHole(t: seq<Option<string>>, hole: nat) {
    hole < |t| && t[hole].None? && forall k :: 0 <= k < hole ==> t[k].Some?
  }

  lemma {:induction false} ScanStopsIff(t: seq<Option<string>>, s: string, i: nat, gone: nat, hole: nat)
    requires IsFirstHole(t, hole) && i <= hole
    ensures Scan(t, s, i, gone).ok <==> hole + gone + Hits(t, s, i, hole) >= |t|
    decreases hole - i
  {
    if i < hole && i + gone < |t| {
      ScanStopsIff(t, s, i + 1, if t[i] == Some(s) then gone + 1 else gone, hole);
    }
  }

  lemma {:induction false} ScanOfLive(t: seq<Option<string>>, s: string, i: nat, gone: nat)
    requires i <= |t| && forall k :: i <= k < |t| ==> t[k].Some?
    ensures Scan(t, s, i, gone).ok
    decreases |t| - i
  {
    if i + gone < |t| {
      ScanOfLive(t, s, i + 1, if t[i] == Some(s) then gone + 1 else gone);
    }
  }

  /** CLR_REPORT is defined exactly when no report has fired, or when from the first that has there are no more entries
      than occurrences of the string before it. */
  lemma ClearReportDefinedIff(t: seq<Option<string>>, s: string)
    ensures ClearReport(t, s).0 <==>
              forall hole: nat :: IsFirstHole(t, hole) ==> Hits(t, s, 0, hole) >= |t| - hole
  {
    if forall k :: 0 <= k < |t| ==> t[k].Some? {
      ScanOfLive(t, s, 0, 0);
    } else {
      var hole := FirstHole(t, 0);
      ScanStopsIff(t, s, 0, 0, hole);
      assert forall other: nat :: IsFirstHole(t, other) ==> other == hole;
    }
  }

  function FirstHole(t: seq<Option<string>>, n: nat): (hole: nat)
    requires n <= |t| && (forall k :: 0 <= k < n ==> t[k].Some?) && exists k :: n <= k < |t| && t[k].None?
    ensures IsFirstHole(t, hole)
    decreases |t| - n
  {
    if t[n].None? then n else FirstHole(t, n + 1)
  }

  /** A report that has fired and is the only one cannot be cleared, by any string. */
  lemma FiredReportBlocksClear(p: string, h: string, c: char, s: string)
    requires EndsWith(h, p)
    ensures !ClearReport(Notice(NO_REPORTS.(slots := [Some(p)]), h, c).slots, s).0
  {
    assert FirstReport(h, [Some(p)], 0) == Some(0);
    assert [Some(p)][0 := None] == [None];
  }

  /** A table in which nothing has fired. */
  function Live(t: seq<string>): (a: seq<Option<string>>)
    ensures |a| == |t|
  {
    seq(|t|, k requires 0 <= k < |t| => Some(t[k]))
  }

  lemma {:induction false} ValuesCons(x: Option<string>, rest: seq<Option<string>>)
    ensures Values([x] + rest) == (if x.Some? then [x.value] else []) + Values(rest)
    decreases |rest|
  {
    var a := [x] + rest;
    if rest == [] {
      assert a[..0] == [];
    } else {
      assert a[..|a| - 1] == [x] + rest[..|rest| - 1];
      ValuesCons(x, rest[..|rest| - 1]);
    }
  }

  lemma ValuesLive(t: seq<string>)
    ensures Values(Live(t)) == t
  {
    ValuesOfLive(Live(t));
  }

  lemma ScanHits(t: seq<string>, s: string, i: nat, gone: nat)
    requires i + gone < |t|
    ensures t[i] == s ==>
              && Scan(Live(t), s, i, gone) == After(None, Scan(Live(t), s, i + 1, gone + 1))
              && Survivors(t, s, i, gone) == Survivors(t, s, i + 1, gone + 1)
    ensures t[i] != s ==>
              && Scan(Live(t), s, i, gone) == After(Some(t[i]), Scan(Live(t), s, i + 1, gone))
              && Survivors(t, s, i, gone) == [t[i]] + Survivors(t, s, i + 1, gone)
  {
    assert Live(t)[i] == Some(t[i]);
  }

  lemma {:induction false} ScanIsSurvivors(t: seq<string>, s: string, i: nat, gone: nat)
    requires i <= |t|
    ensures var r := Scan(Live(t), s, i, gone);
            && r.ok && Values(r.entries) == Survivors(t, s, i, gone)
            && |Survivors(t, s, i, gone)| == |t| - i - (r.gone - gone)
    decreases |t| - i
  {
    if i + gone >= |t| {
      Unscanned(t, s, i, gone);
      assert Live(t)[i..] == Live(t[i..]);
      ValuesLive(t[i..]);
    } else {
      ScanHits(t, s, i, gone);
      if t[i] == s {
        ScanIsSurvivors(t, s, i + 1, gone + 1);
        ValuesCons(None, Scan(Live(t), s, i + 1, gone + 1).entries);
      } else {
        ScanIsSurvivors(t, s, i + 1, gone);
        ValuesCons(Some(t[i]), Scan(Live(t), s, i + 1, gone).entries);
      }
    }
  }

  lemma {:induction false} NothingCleared(t: seq<Option<string>>, s: string, i: nat, gone: nat)
    requires i <= |t| && Scan(t, s, i, gone).gone == gone
    ensures Scan(t, s, i, gone).entries == t[i..]
    decreases |t| - i
  {
    if i + gone < |t| && t[i].Some? {
      assert t[i..] == [t[i]] + t[i + 1..];
      if t[i].value != s {
        NothingCleared(t, s, i + 1, gone);
      }
    }
  }

  lemma PackedLive(a: seq<Option<string>>, t: seq<string>)
    requires Values(a) == t
    ensures Packed(a, |t|) == Live(t)
  {
  }

  lemma NothingToClear(t: seq<string>, s: string)
    requires Scan(Live(t), s, 0, 0).gone == 0
    ensures Scan(Live(t), s, 0, 0).entries[..|t|] == Live(t) && Clear(t, s) == t
  {
    NothingCleared(Live(t), s, 0, 0);
    ScanIsSurvivors(t, s, 0, 0);
    ValuesLive(t);
  }

  /** When no report has fired CLR_REPORT does to its table what CLR_ABORT does to the abort strings. */
  lemma ClearReportOfLive(t: seq<string>, s: string)
    ensures ClearReport(Live(t), s) == (true, Live(Clear(t, s)))
  {
    var r := Scan(Live(t), s, 0, 0);
    ScanIsSurvivors(t, s, 0, 0);
    if r.gone == 0 {
      NothingToClear(t, s);
    } else {
      PackedLive(r.entries, Clear(t, s));
    }
  }

  lemma {:induction false} ValuesShort(a: seq<Option<string>>)
    requires ShortReports(a)
    ensures forall k :: 0 <= k < |Values(a)| ==> NoNul(Values(a)[k]) && |Values(a)[k]| < FAIL_BUFFER
    decreases |a|
  {
    if a != [] {
      ValuesShort(a[..|a| - 1]);
    }
  }

  lemma {:induction false} ScanShort(t: seq<Option<string>>, s: string, i: nat, gone: nat)
    requires i <= |t| && ShortReports(t)
    ensures ShortReports(Scan(t, s, i, gone).entries)
    decreases |t| - i
  {
    if i + gone < |t| && t[i].Some? {
      ScanShort(t, s, i + 1, if t[i] == Some(s) then gone + 1 else gone);
    }
  }

  /** Strings that fit still do. */
  lemma ClearReportShort(t: seq<Option<string>>, s: string)
    requires ShortReports(t)
    ensures ShortReports(ClearReport(t, s).1)
  {
    ScanShort(t, s, 0, 0);
    ValuesShort(Scan(t, s, 0, 0).entries);
  }

  // ---------------------------------------------------------------- the table

  class ReportTable {
    const slots: array<Option<string>>
    var n: nat
    var gathering: Option<string>
    var filed: seq<string>
    var overrun: bool

    ghost predicate Valid()
      reads this, slots
    {
      slots.Length == MAX_REPORTS && n <= MAX_REPORTS
    }

    function View(): Reports
      reads this, slots
    {
      Reports(if n <= slots.Length then slots[..n] else [], gathering, filed, overrun)
    }

    constructor ()
      ensures Valid() && View() == NO_REPORTS && fresh(slots)
    {
      slots := new Option<string>[MAX_REPORTS](_ => None);
      n, gathering, filed, overrun := 0, None, [], false;
    }

    /** REPORT: append, unless the table is full. */
    method Add(s: string) returns (ok: bool)
      requires Valid()
      modifies this`n, slots
      ensures Valid() && ok == (|old(View()).slots| < MAX_REPORTS)
      ensures View() == if ok then old(View()).(slots := old(View()).slots + [Some(s)]) else old(View())
    {
      if n >= MAX_REPORTS {
        return false;
      }
      slots[n] := Some(s);
      n := n + 1;
      ok := true;
    }

    /** The loop over the report strings. */
    method Find(temp: array<char>, s: nat, ghost h: string, ghost need: nat) returns (i: nat)
      requires Valid() && ShortReports(View().slots)
      requires s <= temp.Length && Window(temp[..], s, h, need) && need >= FAIL_BUFFER
      ensures i <= n && FirstReport(h, slots[..n], 0) == if i < n then Some(i) else None
    {
      ghost var t := slots[..n];
      i := 0;
      while i < n
        invariant i <= n && FirstReport(h, t, i) == FirstReport(h, t, 0)
      {
        assert t[i] == slots[i];
        if slots[i].Some? {
          WindowDecides(temp[..], s, h, need, slots[i].value);
          var len := |slots[i].value|;
          if s >= len && temp[s - len..s] == slots[i].value {
            return;
          }
        }
        i := i + 1;
      }
    }

    /** The part of the reading loop about reports, behind the storing of `c`. */
    method Watch(temp: array<char>, s: nat, c: char, ghost h: string, ghost need: nat)
      requires Valid() && ShortReports(View().slots)
      requires s <= temp.Length && Window(temp[..], s, h, need) && need >= FAIL_BUFFER
      modifies this, slots
      ensures Valid() && View() == Notice(old(View()), h, c) && ShortReports(View().slots)
    {
      if overrun {
        return;
      }
      if gathering.Some? {
        Gather(c);
      } else {
        var i := Find(temp, s, h, need);
        ghost var t := slots[..n];
        if i < n {
          gathering := slots[i];
          slots[i] := None;
          assert slots[..n] == t[i := None];
        }
      }
    }

    /** One character behind a report: `report_buffer` is the stamp and the text. */
    method Gather(c: char)
      requires gathering.Some? && !overrun
      modifies this`gathering, this`filed, this`overrun
      ensures View() == Notice(old(View()), "", c)
    {
      if !IsCntrl(c) {
        var repLen := STAMP + |gathering.value|;
        if repLen + 1 < REPORT_BUFFER {
          gathering := Some(gathering.value + [c]);
        } else {
          overrun := true;
        }
      } else {
        filed := filed + [gathering.value];
        gathering := None;
      }
    }

    /** CLR_REPORT.  False when the scan has compared with a NULL. */
    method Clear(s: string) returns (ok: bool)
      requires Valid()
      modifies this`n, slots
      ensures Valid() && (ok, View().slots) == ClearReport(old(View()).slots, s)
    {
      var oldMax, pack := n, 0;
      ok, pack := ScanForClear(s, slots[..n]);
      ghost var a := slots[..oldMax];
      assert slots[..n] == a[..n];
      if ok && pack > 0 {
        PackArray(slots, oldMax);
        PackedFront(slots[..oldMax], a, n);
        assert slots[..n] == slots[..oldMax][..n];
      }
    }

    /** The scan: hits become NULL and lower the bound of the loop. */
    method ScanForClear(s: string, ghost t: seq<Option<string>>) returns (ok: bool, pack: nat)
      requires Valid() && t == slots[..n]
      modifies this`n, slots
      ensures Valid() && n + pack == |t| <= slots.Length
      ensures Scan(t, s, 0, 0) == Scanned(slots[..|t|], pack, ok)
    {
      ghost var done, r := [], Scan(t, s, 0, 0);
      var i := 0;
      pack, ok := 0, true;
      assert [] + r.entries == r.entries;
      while i < n && ok
        invariant Valid() && n + pack == |t| <= slots.Length
        invariant if ok then Scanning(slots[..|t|], t, i, s, pack, done, r) else r == Scanned(slots[..|t|], pack, false)
        decreases |t| - i, ok
      {
        ok, pack, done := ScanTurn(s, i, pack, t, done, r);
        if ok {
          i := i + 1;
        }
      }
      if ok {
        ScanningEnds(slots[..|t|], t, i, s, pack, done, r);
      }
    }

    /** One turn of the scan: false for strcmp with NULL. */
    method ScanTurn(s: string, i: nat, pack: nat, ghost t: seq<Option<string>>, ghost done: seq<Option<string>>, ghost r: Scanned)
      returns (ok: bool, pack': nat, ghost done': seq<Option<string>>)
      requires Valid() && i < n && n + pack == |t| <= slots.Length && Scanning(slots[..|t|], t, i, s, pack, done, r)
      modifies this`n, slots
      ensures Valid() && n + pack' == |t|
      ensures if ok then Scanning(slots[..|t|], t, i + 1, s, pack', done', r) else r == Scanned(slots[..|t|], pack', false)
    {
      ghost var a := slots[..|t|];
      ScanningStep(a, t, i, s, pack, done, r);
      assert slots[i] == t[i];
      ok, pack', done' := slots[i].Some?, pack, done;
      if ok {
        if slots[i].value == s {
          slots[i] := None;
          assert slots[..|t|] == a[i := None];
          done', pack' := done + [None], pack + 1;
          n := n - 1;
        } else {
          done' := done + [t[i]];
        }
      }
    }
  }

  lemma PackedFront(w: seq<Option<string>>, a: seq<Option<string>>, n: nat)
    requires IsPacked(w, Values(a)) && n <= |w|
    ensures w[..n] == Packed(a, n)
  {
  }

  /** The scan at entry `i` of a table with entries `t`; `a` is the array and `done` what is scanned. */
  ghost predicate Scanning(a: seq<Option<string>>, t: seq<Option<string>>, i: nat, s: string, gone: nat,
                            done: seq<Option<string>>, r: Scanned) {
    && i <= |t| == |a| && |done| == i && a == done + t[i..]
    && r == Scan(t, s, i, gone).(entries := done + Scan(t, s, i, gone).entries)
  }

  lemma ScanningStep(a: seq<Option<string>>, t: seq<Option<string>>, i: nat, s: string, gone: nat,
                 done: seq<Option<string>>, r: Scanned)
    requires Scanning(a, t, i, s, gone, done, r) && i + gone < |t|
    ensures a[i] == t[i]
    ensures t[i].None? ==> r == Scanned(a, gone, false)
    ensures t[i] == Some(s) ==> Scanning(a[i := None], t, i + 1, s, gone + 1, done + [None], r)
    ensures t[i].Some? && t[i].value != s ==> Scanning(a, t, i + 1, s, gone, done + [t[i]], r)
  {
    assert t[i..] == [t[i]] + t[i + 1..];
    if t[i].Some? {
      var hit := t[i].value == s;
      var x := if hit then None else t[i];
      var rest := Scan(t, s, i + 1, if hit then gone + 1 else gone).entries;
      assert done + ([x] + rest) == (done + [x]) + rest;
      assert a[i := x] == (done + [x]) + t[i + 1..];
      assert !hit ==> a[i := x] == a;
    }
  }

  lemma ScanningEnds(a: seq<Option<string>>, t: seq<Option<string>>, i: nat, s: string, gone: nat,
                 done: seq<Option<string>>, r: Scanned)
    requires Scanning(a, t, i, s, gone, done, r) && i + gone >= |t|
    ensures r == Scanned(a, gone, true)
  {
  }
}
