/** The abort strings of chat.c: a table of MAX_ABORTS pointers, live below `n_aborts`, appended to by ABORT and
    compacted in place after CLR_ABORT. */
module ChatAborts {
  import opened CText

  const MAX_ABORTS := 50

  // ---------------------------------------------------------------- CLR_ABORT on the list of live entries

  /** Entries `i` and later that survive the scan when `gone` entries have been cleared before: the bound of the loop is
      `n_aborts`, which every hit lowers, so the last `gone` entries are not looked at. */
  function Survivors(t: seq<string>, s: string, i: nat, gone: nat): seq<string>
    decreases |t| - i
  {
    if i >= |t| then []
    else if i + gone < |t| && t[i] == s then Survivors(t, s, i + 1, gone + 1)
    else [t[i]] + Survivors(t, s, i + 1, gone)
  }

  function Clear(t: seq<string>, s: string): seq<string> {
    Survivors(t, s, 0, 0)
  }

  /** The entries from `i` on other than `s`. */
  function Others(t: seq<string>, s: string, i: nat): seq<string>
    decreases |t| - i
  {
    if i >= |t| then [] else (if t[i] == s then [] else [t[i]]) + Others(t, s, i + 1)
  }

  /** How often `s` occurs from `i` on, below `j`. */
  function Count(t: seq<string>, s: string, i: nat, j: nat): nat
    requires j <= |t|
    decreases j - i
  {
    if i >= j then 0 else (if t[i] == s then 1 else 0) + Count(t, s, i + 1, j)
  }

  lemma {:induction false} NoMoreHits(t: seq<string>, s: string, i: nat, gone: nat)
    requires i <= |t| && (forall k :: i <= k < |t| ==> t[k] != s)
    ensures Survivors(t, s, i, gone) == t[i..] == Others(t, s, i)
    decreases |t| - i
  {
    if i < |t| {
      NoMoreHits(t, s, i + 1, gone);
      assert t[i..] == [t[i]] + t[i + 1..];
    }
  }

  lemma {:induction false} Unscanned(t: seq<string>, s: string, i: nat, gone: nat)
    requires i <= |t| <= i + gone
    ensures Survivors(t, s, i, gone) == t[i..]
    decreases |t| - i
  {
    if i < |t| {
      Unscanned(t, s, i + 1, gone);
      assert t[i..] == [t[i]] + t[i + 1..];
    }
  }

  lemma {:induction false} OthersShorter(t: seq<string>, s: string, i: nat, last: nat)
    requires i <= last < |t| && t[last] == s
    ensures |Others(t, s, i)| < |t| - i
    decreases last - i
  {
    OthersAtMost(t, s, i + 1);
    if i < last && t[i] != s {
      OthersShorter(t, s, i + 1, last);
    }
  }

  lemma {:induction false} OthersAtMost(t: seq<string>, s: string, i: nat)
    ensures |Others(t, s, i)| <= if i <= |t| then |t| - i else 0
    decreases |t| - i
  {
    if i < |t| {
      OthersAtMost(t, s, i + 1);
    }
  }

  lemma ConsEqual(x: string, a: seq<string>, b: seq<string>)
    ensures [x] + a == [x] + b <==> a == b
  {
    assert ([x] + a)[1..] == a && ([x] + b)[1..] == b;
  }

  /** From `i` on every occurrence goes iff the last one is within the lowered bound when the scan gets there. */
  lemma {:induction false} AllGoFrom(t: seq<string>, s: string, i: nat, gone: nat, last: nat)
    requires i <= last < |t| && t[last] == s && forall k :: last < k < |t| ==> t[k] != s
    ensures Survivors(t, s, i, gone) == Others(t, s, i) <==> last + gone + Count(t, s, i, last) < |t|
    decreases |t| - i
  {
    if i + gone >= |t| {
      Unscanned(t, s, i, gone);
      OthersShorter(t, s, i, last);
    } else if i == last {
      NoMoreHits(t, s, i + 1, gone + 1);
    } else {
      AllGoFrom(t, s, i + 1, if t[i] == s then gone + 1 else gone, last);
      if t[i] != s {
        ConsEqual(t[i], Survivors(t, s, i + 1, gone), Others(t, s, i + 1));
      }
    }
  }

  /** CLR_ABORT removes every occurrence of its string exactly when behind the last occurrence there are at least as many
      entries as there are occurrences before it. */
  lemma ClearRemovesAllIff(t: seq<string>, s: string, last: nat)
    requires last < |t| && t[last] == s && forall k :: last < k < |t| ==> t[k] != s
    ensures Clear(t, s) == Others(t, s, 0) <==> Count(t, s, 0, last) <= |t| - 1 - last
  {
    AllGoFrom(t, s, 0, 0, last);
  }

  /** The smallest table in which one survives. */
  lemma DuplicateSurvives(s: string)
    ensures Clear([s, s], s) == [s] && Others([s, s], s, 0) == []
  {
    var t := [s, s];
    assert Survivors(t, s, 1, 1) == [s] + Survivors(t, s, 2, 1);
    assert Others(t, s, 1) == [] + Others(t, s, 2);
  }

  /** A string that is not in the table changes nothing. */
  lemma ClearAbsent(t: seq<string>, s: string)
    requires forall k :: 0 <= k < |t| ==> t[k] != s
    ensures Clear(t, s) == t
  {
    NoMoreHits(t, s, 0, 0);
  }

  lemma {:induction false} BeforeFirst(t: seq<string>, s: string, i: nat, first: nat)
    requires i <= first < |t| && t[first] == s && forall k :: i <= k < first ==> t[k] != s
    ensures Survivors(t, s, i, 0) == t[i..first] + Survivors(t, s, first + 1, 1)
    decreases first - i
  {
    if i < first {
      BeforeFirst(t, s, i + 1, first);
      assert t[i..first] == [t[i]] + t[i + 1..first];
    } else {
      assert t[i..first] + Survivors(t, s, first + 1, 1) == Survivors(t, s, first + 1, 1);
    }
  }

  /** The first match always goes and everything before it stays in place; when it is the only one the result is the table
      without it. */
  lemma ClearRemovesFirst(t: seq<string>, s: string, first: nat)
    requires first < |t| && t[first] == s && forall k :: 0 <= k < first ==> t[k] != s
    ensures Clear(t, s) == t[..first] + Survivors(t, s, first + 1, 1)
    ensures (forall k :: first < k < |t| ==> t[k] != s) ==> Clear(t, s) == t[..first] + t[first + 1..]
  {
    BeforeFirst(t, s, 0, first);
    if forall k :: first < k < |t| ==> t[k] != s {
      NoMoreHits(t, s, first + 1, 1);
    }
  }

  lemma {:induction false} OthersShift(x: string, rest: seq<string>, s: string, i: nat)
    ensures Others([x] + rest, s, i + 1) == Others(rest, s, i)
    decreases |rest| - i
  {
    if i < |rest| {
      OthersShift(x, rest, s, i + 1);
    }
  }

  lemma OthersCons(x: string, rest: seq<string>, s: string)
    ensures Others([x] + rest, s, 0) == (if x == s then [] else [x]) + Others(rest, s, 0)
  {
    OthersShift(x, rest, s, 0);
    assert ([x] + rest)[0] == x;
  }

  lemma {:induction false} SurvivorsKeepOthers(t: seq<string>, s: string, i: nat, gone: nat)
    ensures Others(Survivors(t, s, i, gone), s, 0) == Others(t, s, i)
    decreases |t| - i
  {
    if i < |t| {
      if i + gone < |t| && t[i] == s {
        SurvivorsKeepOthers(t, s, i + 1, gone + 1);
      } else {
        var rest := Survivors(t, s, i + 1, gone);
        SurvivorsKeepOthers(t, s, i + 1, gone);
        OthersCons(t[i], rest, s);
      }
    }
  }

  /** Only matching entries go, and the order of the others is kept. */
  lemma ClearIsStable(t: seq<string>, s: string)
    ensures Others(Clear(t, s), s, 0) == Others(t, s, 0)
  {
    SurvivorsKeepOthers(t, s, 0, 0);
  }

  /** Survivors are entries of the table. */
  lemma {:induction false} SurvivorsAreEntries(t: seq<string>, s: string, i: nat, gone: nat, bound: nat)
    requires forall k :: 0 <= k < |t| ==> NoNul(t[k]) && |t[k]| < bound
    ensures var r := Survivors(t, s, i, gone);
            |r| <= |t| && forall k :: 0 <= k < |r| ==> NoNul(r[k]) && |r[k]| < bound
    ensures i <= |t| ==> |Survivors(t, s, i, gone)| <= |t| - i
    decreases |t| - i
  {
    if i < |t| {
      SurvivorsAreEntries(t, s, i + 1, if i + gone < |t| && t[i] == s then gone + 1 else gone, bound);
    }
  }

  // ---------------------------------------------------------------- the array

  /** The non-NULL entries in order. */
  function Values(a: seq<Option<string>>): seq<string> {
    if a == [] then [] else Values(a[..|a| - 1]) + if a[|a| - 1].Some? then [a[|a| - 1].value] else []
  }

  lemma ValuesStep(a: seq<Option<string>>, j: nat)
    requires j < |a|
    ensures Values(a[..j + 1]) == Values(a[..j]) + if a[j].Some? then [a[j].value] else []
  {
    assert a[..j + 1][..j] == a[..j];
  }

  lemma {:induction false} ValuesOfLive(a: seq<Option<string>>)
    requires forall k :: 0 <= k < |a| ==> a[k].Some?
    ensures |Values(a)| == |a| && forall k :: 0 <= k < |a| ==> Values(a)[k] == a[k].value
    decreases |a|
  {
    if a != [] {
      ValuesOfLive(a[..|a| - 1]);
    }
  }

  /** Live entries first, then NULLs. */
  predicate IsPacked(a: seq<Option<string>>, live: seq<string>) {
    && |live| <= |a|
    && (forall k :: 0 <= k < |live| ==> a[k] == Some(live[k]))
    && (forall k :: |live| <= k < |a| ==> a[k] == None)
  }

  /** pack_array: a stable compaction in place of the first `end` entries. */
  method PackArray(entries: array<Option<string>>, end: nat)
    requires end <= entries.Length
    modifies entries
    ensures IsPacked(entries[..end], Values(old(entries[..end])))
    ensures entries[end..] == old(entries[end..])
  {
    ghost var was := entries[..end];
    var i := 0;
    while i < end && entries[i].Some?
      invariant i <= end && entries[..] == old(entries[..])
      invariant |Values(was[..i])| == i && forall k :: 0 <= k < i ==> entries[k] == Some(Values(was[..i])[k])
    {
      ValuesStep(was, i);
      i := i + 1;
    }
    assert was[..end] == was;
    if i < end {
      i := MoveDown(entries, i, end, was);
      while i < end
        invariant |Values(was)| <= i <= end
        invariant forall k :: 0 <= k < |Values(was)| ==> entries[k] == Some(Values(was)[k])
        invariant forall k :: |Values(was)| <= k < i ==> entries[k] == None
        invariant entries[end..] == old(entries[end..])
      {
        entries[i] := None;
        i := i + 1;
      }
    }
  }

  /** The inner loop of pack_array, from the first NULL at `at`. */
  method MoveDown(entries: array<Option<string>>, at: nat, end: nat, ghost was: seq<Option<string>>) returns (i: nat)
    requires at < end <= entries.Length && entries[..end] == was && was[at].None?
    requires |Values(was[..at])| == at && forall k :: 0 <= k < at ==> entries[k] == Some(Values(was[..at])[k])
    modifies entries
    ensures i == |Values(was)| <= end && forall k :: 0 <= k < i ==> entries[k] == Some(Values(was)[k])
    ensures entries[end..] == old(entries[end..])
  {
    i := at;
    ValuesStep(was, at);
    for j := at + 1 to end
      invariant i == |Values(was[..j])| < j
      invariant forall k :: 0 <= k < i ==> entries[k] == Some(Values(was[..j])[k])
      invariant forall k :: j <= k < end ==> entries[k] == was[k]
      invariant entries[end..] == old(entries[end..])
    {
      ValuesStep(was, j);
      if entries[j].Some? {
        entries[i] := entries[j];
        i := i + 1;
      }
    }
    assert was[..end] == was;
  }

  class AbortTable {
    const slots: array<Option<string>>
    var n: nat

    /** Entries below `n_aborts` are non-NULL, the others NULL. */
    ghost predicate Valid()
      reads this, slots
    {
      slots.Length == MAX_ABORTS && n <= MAX_ABORTS && IsPacked(slots[..], Entries())
    }

    /** The live entries. */
    function Entries(): (t: seq<string>)
      reads this, slots
    {
      seq(n, i reads this, slots requires 0 <= i < n => if i < slots.Length && slots[i].Some? then slots[i].value else "")
    }

    constructor ()
      ensures Valid() && Entries() == [] && fresh(slots)
    {
      slots := new Option<string>[MAX_ABORTS](_ => None);
      n := 0;
    }

    /** ABORT: append, unless the table is full. */
    method Add(s: string) returns (ok: bool)
      requires Valid()
      modifies this, slots
      ensures Valid()
      ensures ok == (|old(Entries())| < MAX_ABORTS)
      ensures Entries() == if ok then old(Entries()) + [s] else old(Entries())
    {
      if n >= MAX_ABORTS {
        return false;
      }
      slots[n] := Some(s);
      n := n + 1;
      ok := true;
    }

    /** CLR_ABORT: the scan and the compaction behind it. */
    method ClearAbort(s: string)
      requires Valid()
      modifies this, slots
      ensures Valid() && Entries() == Clear(old(Entries()), s)
    {
      ghost var t := Entries();
      var oldMax := n;
      var pack := ScanForClear(s, t);
      ghost var live := Values(slots[..oldMax]);
      if pack > 0 {
        PackArray(slots, oldMax);
      } else {
        ValuesOfLive(slots[..oldMax]);
      }
      assert IsPacked(slots[..oldMax], live);
      EntriesAre(live);
    }

    lemma EntriesAre(live: seq<string>)
      requires n == |live| <= slots.Length && forall k :: 0 <= k < n ==> slots[k] == Some(live[k])
      ensures Entries() == live
    {
    }

    /** The scan: hits become NULL and lower the bound of the loop. */
    method ScanForClear(s: string, ghost t: seq<string>) returns (pack: nat)
      requires Valid() && t == Entries()
      modifies this, slots
      ensures forall k :: old(n) <= k < slots.Length ==> slots[k] == old(slots[k])
      ensures old(n) <= MAX_ABORTS
      ensures Values(slots[..old(n)]) == Clear(t, s) && n == |Clear(t, s)|
      ensures pack == 0 ==> n == old(n) && forall k :: 0 <= k < old(n) ==> slots[k].Some?
    {
      ghost var was, done := slots[..], [];
      pack := 0;
      var i := 0;
      assert [] + Clear(t, s) == Clear(t, s);
      while i < n
        invariant n + pack == |t| && ScanState(was, slots[..], i, t, s, pack, done)
        decreases |t| - i
      {
        pack, done := ScanTurn(s, i, pack, was, t, done);
        i := i + 1;
      }
      ScanEnd(was, slots[..], i, t, s, pack, done);
    }

    /** One turn of the scan: a hit becomes NULL and lowers the bound. */
    method ScanTurn(s: string, i: nat, pack: nat, ghost was: seq<Option<string>>, ghost t: seq<string>,
        ghost done: seq<string>)
      returns (pack': nat, ghost done': seq<string>)
      requires i < n && n + pack == |t| && ScanState(was, slots[..], i, t, s, pack, done)
      modifies this, slots
      ensures n + pack' == |t| && ScanState(was, slots[..], i + 1, t, s, pack', done')
    {
      ghost var a := slots[..];
      pack', done' := pack, done;
      ScanStep(was, a, i, t, s, pack, done);
      if slots[i] == Some(s) {
        slots[i] := None;
        assert slots[..] == a[i := None];
        pack' := pack + 1;
        n := n - 1;
      } else {
        done' := done + [t[i]];
      }
    }
  }

  /** The scan at entry `i` of a table `was` with entries `t`, `gone` of which have been cleared; `done` are the survivors
      so far. */
  ghost predicate ScanState(was: seq<Option<string>>, a: seq<Option<string>>, i: nat, t: seq<string>, s: string,
                            gone: nat, done: seq<string>)
  {
    && i <= |t| <= |a| == |was| && |done| + gone == i
    && (forall k :: i <= k < |t| ==> a[k] == Some(t[k]))
    && (forall k :: |t| <= k < |a| ==> a[k] == was[k])
    && (gone == 0 ==> forall k :: 0 <= k < i ==> a[k].Some?)
    && done == Values(a[..i]) && done + Survivors(t, s, i, gone) == Clear(t, s)
  }

  /** Behind the lowered bound nothing was cleared. */
  lemma ScanEnd(was: seq<Option<string>>, a: seq<Option<string>>, i: nat, t: seq<string>, s: string, gone: nat,
                done: seq<string>)
    requires ScanState(was, a, i, t, s, gone, done) && i + gone >= |t|
    ensures Values(a[..|t|]) == Clear(t, s) && |Clear(t, s)| == |t| - gone
    ensures gone == 0 ==> forall k :: 0 <= k < |t| ==> a[k].Some?
  {
    Unscanned(t, s, i, gone);
    assert a[..|t|][..i] == a[..i];
    TailIsLive(a[..|t|], i, t);
  }

  /** One turn of the scan. */
  lemma ScanStep(was: seq<Option<string>>, a: seq<Option<string>>, i: nat, t: seq<string>, s: string, gone: nat,
                 done: seq<string>)
    requires ScanState(was, a, i, t, s, gone, done) && i + gone < |t|
    ensures a[i] == Some(t[i])
    ensures t[i] == s ==> ScanState(was, a[i := None], i + 1, t, s, gone + 1, done)
    ensures t[i] != s ==> ScanState(was, a, i + 1, t, s, gone, done + [t[i]])
  {
    ValuesStep(a, i);
    ValuesStep(a[i := None], i);
    assert a[i := None][..i] == a[..i] && done + [] == done;
    assert done + ([t[i]] + Survivors(t, s, i + 1, gone)) == (done + [t[i]]) + Survivors(t, s, i + 1, gone);
  }

  lemma {:induction false} TailIsLive(a: seq<Option<string>>, i: nat, t: seq<string>)
    requires i <= |a| == |t| && forall k :: i <= k < |a| ==> a[k] == Some(t[k])
    ensures Values(a) == Values(a[..i]) + t[i..]
    decreases |a|
  {
    if i < |a| {
      var last := |a| - 1;
      TailIsLive(a[..last], i, t[..last]);
      assert a[..last][..i] == a[..i] && t[i..] == t[..last][i..] + [t[last]];
    } else {
      assert a[..i] == a && t[i..] == [];
    }
  }

  // ---------------------------------------------------------------- any sequence of declarations

  datatype Command = Abort(s: string) | ClrAbort(s: string)

  /** The live entries after a sequence of commands; an ABORT for a full table ends the program instead. */
  function Table(cmds: seq<Command>): Option<seq<string>> {
    if cmds == [] then Some([])
    else
      var t, c := Table(cmds[..|cmds| - 1]), cmds[|cmds| - 1];
      if t.None? then None
      else if c.ClrAbort? then Some(Clear(t.value, c.s))
      else if |t.value| < MAX_ABORTS then Some(t.value + [c.s]) else None
  }

  /** Running any commands keeps the table packed and its entries those of the list specification. */
  method Declare(cmds: seq<Command>) returns (table: AbortTable, ok: bool)
    ensures fresh(table) && table.Valid()
    ensures Table(cmds) == if ok then Some(table.Entries()) else None
  {
    table := new AbortTable();
    for k := 0 to |cmds|
      invariant fresh(table) && fresh(table.slots) && table.Valid() && Table(cmds[..k]) == Some(table.Entries())
    {
      assert cmds[..k + 1][..k] == cmds[..k];
      match cmds[k] {
        case Abort(s) =>
          ok := table.Add(s);
          if !ok {
            TableStopsAt(cmds, k + 1);
            return;
          }
        case ClrAbort(s) =>
          table.ClearAbort(s);
      }
    }
    assert cmds[..|cmds|] == cmds;
    ok := true;
  }

  lemma {:induction false} TableStopsAt(cmds: seq<Command>, k: nat)
    requires k <= |cmds| && Table(cmds[..k]).None?
    ensures Table(cmds).None?
    decreases |cmds|
  {
    if k == |cmds| {
      assert cmds[..k] == cmds;
    } else {
      var init := cmds[..|cmds| - 1];
      assert init[..k] == cmds[..k];
      TableStopsAt(init, k);
    }
  }
}
