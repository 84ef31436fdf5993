/** expect_strtok of chat.c: cuts `expect-say-expect-...` at unescaped dashes, writing NULs into the string and keeping
    its place between calls. */
module ChatSplit {
  import opened CText

  // ---------------------------------------------------------------- the tokens

  /** Position of the first unescaped dash, or the length. */
  function DashAt(s: string): (i: nat)
    ensures i <= |s| && (i < |s| ==> s[i] == '-')
  {
    if s == "" || s[0] == '-' then 0
    else if s[0] != '\\' then 1 + DashAt(s[1..])
    else if |s| == 1 then 1
    else 2 + DashAt(s[2..])
  }

  /** What is left behind the first token and its dash. */
  function AfterDash(s: string): string {
    if DashAt(s) == |s| then "" else s[DashAt(s) + 1..]
  }

  function Split(s: string): seq<string>
    decreases |s|
  {
    if s == "" then [] else [s[..DashAt(s)]] + Split(AfterDash(s))
  }

  function Join(ts: seq<string>): string {
    if ts == [] then "" else if |ts| == 1 then ts[0] else ts[0] + "-" + Join(ts[1..])
  }

  /** Does the string end in an unescaped dash? */
  predicate TrailingDash(s: string)
    decreases |s|
  {
    DashAt(s) < |s| && (AfterDash(s) == "" || TrailingDash(AfterDash(s)))
  }

  predicate NoDash(t: string) {
    DashAt(t) == |t|
  }

  lemma {:induction false} PrefixHasNoDash(s: string)
    ensures NoDash(s[..DashAt(s)])
    decreases |s|
  {
    var t := s[..DashAt(s)];
    if s != "" && s[0] != '-' {
      if s[0] != '\\' {
        PrefixHasNoDash(s[1..]);
        assert t[1..] == s[1..][..DashAt(s[1..])];
      } else if |s| > 1 {
        PrefixHasNoDash(s[2..]);
        assert t[2..] == s[2..][..DashAt(s[2..])];
      }
    }
  }

  lemma JoinCons(t: string, ts: seq<string>)
    ensures Join([t] + ts) == if ts == [] then t else t + ("-" + Join(ts))
  {
    assert ([t] + ts)[1..] == ts;
    assert ts != [] ==> t + "-" + Join(ts) == t + ("-" + Join(ts));
  }

  lemma CutAt(s: string, i: nat, rest: string)
    requires i < |s| && s[i] == '-' && rest == s[i + 1..]
    ensures s == s[..i] + ("-" + rest)
  {
  }

  lemma CutAtDash(s: string)
    ensures DashAt(s) == |s| ==> s[..DashAt(s)] == s
    ensures DashAt(s) < |s| ==> s == s[..DashAt(s)] + ("-" + AfterDash(s))
  {
    if DashAt(s) < |s| {
      CutAt(s, DashAt(s), AfterDash(s));
    }
  }

  lemma Regroup(t: string, joined: string, dash: string)
    ensures t + ("-" + (joined + dash)) == (t + ("-" + joined)) + dash
    ensures t + ("-" + dash) == (t + "-") + dash
  {
  }

  /** Joined by dashes the tokens give back the string, less one unescaped trailing dash. */
  lemma {:induction false} SplitCovers(s: string)
    ensures s == Join(Split(s)) + if TrailingDash(s) then "-" else ""
    decreases |s|
  {
    if s != "" {
      var t, rest := s[..DashAt(s)], AfterDash(s);
      CutAtDash(s);
      SplitCovers(rest);
      JoinCons(t, Split(rest));
      if rest == "" {
        assert t + ("-" + "") == t + "-";
      } else {
        Regroup(t, Join(Split(rest)), if TrailingDash(rest) then "-" else "");
      }
    }
  }

  /** No token contains an unescaped dash. */
  lemma {:induction false} TokensHaveNoDash(s: string, i: nat)
    requires i < |Split(s)|
    ensures NoDash(Split(s)[i])
    decreases |s|
  {
    if i == 0 {
      PrefixHasNoDash(s);
    } else {
      TokensHaveNoDash(AfterDash(s), i - 1);
    }
  }

  /** A token that does not end in a dangling backslash. */
  predicate IsToken(t: string) {
    t == "" || (t[0] != '-' && (if t[0] == '\\' then |t| > 1 && IsToken(t[2..]) else IsToken(t[1..])))
  }

  lemma {:induction false} DashAfterToken(t: string, rest: string)
    requires IsToken(t) && (rest == "" || rest[0] == '-')
    ensures DashAt(t + rest) == |t|
    decreases |t|
  {
    if t == "" {
      assert t + rest == rest;
    } else if t[0] == '\\' {
      assert (t + rest)[2..] == t[2..] + rest;
      DashAfterToken(t[2..], rest);
    } else {
      assert (t + rest)[1..] == t[1..] + rest;
      DashAfterToken(t[1..], rest);
    }
  }

  lemma FirstOf(t: string, rest: string)
    requires DashAt(t + ("-" + rest)) == |t|
    ensures Split(t + ("-" + rest)) == [t] + Split(rest)
  {
    var s := t + ("-" + rest);
    assert s[..|t|] == t && s[|t| + 1..] == rest;
  }

  /** Splitting inverts joining, for tokens without unescaped dashes of which the last is not empty. */
  lemma {:induction false} SplitInvertsJoin(ts: seq<string>)
    requires ts != [] && (forall i :: 0 <= i < |ts| ==> IsToken(ts[i])) && ts[|ts| - 1] != ""
    ensures Split(Join(ts)) == ts
    decreases |ts|
  {
    var s := Join(ts);
    if |ts| == 1 {
      DashAfterToken(ts[0], "");
      assert ts[0] + "" == ts[0];
      assert Split("") == [];
    } else {
      var rest := Join(ts[1..]);
      assert s == ts[0] + ("-" + rest);
      DashAfterToken(ts[0], "-" + rest);
      SplitInvertsJoin(ts[1..]);
      FirstOf(ts[0], rest);
    }
  }

  // ---------------------------------------------------------------- the C function

  /** A `char *`: an offset into a piece of memory that ends in a NUL. */
  datatype Pointer = Pointer(mem: array<char>, at: nat)

  ghost predicate IsString(p: Pointer)
    reads p.mem
  {
    p.at < p.mem.Length && p.mem[p.mem.Length - 1] == '\0'
  }

  function TextOf(p: Pointer): (s: string)
    reads p.mem
    requires p.at <= p.mem.Length
    ensures NoNul(s)
  {
    CStr(p.mem[..], p.at)
  }

  /** Memory is the same but for `len` places from `from` on. */
  predicate SameOutside(m: seq<char>, w: seq<char>, from: nat, len: nat) {
    |m| == |w| && forall i :: 0 <= i < |m| && !(from <= i < from + len) ==> m[i] == w[i]
  }

  lemma SameOutsideBoth(m: seq<char>, v: seq<char>, w: seq<char>, from: nat, len: nat, later: nat, rest: nat)
    requires SameOutside(m, v, from, len) && SameOutside(v, w, later, rest)
    requires from <= later && later + rest <= from + len
    ensures SameOutside(m, w, from, len)
  {
  }

  /** A token cut off in `v` stays as it is when the next one is cut off behind it. */
  lemma FirstTokenStays(m: seq<char>, v: seq<char>, w: seq<char>, from: nat, len: nat, later: nat, rest: nat)
    requires SameOutside(m, v, from, len) && SameOutside(v, w, later, rest) && later + rest <= from + len
    requires from < |v| && NulAt(v, from) < |v| && from <= later && (NulAt(v, from) < later || rest == 0)
    ensures SameOutside(m, w, from, len) && CStr(w, from) == CStr(v, from)
  {
    SameOutsideBoth(m, v, w, from, len, later, rest);
    CStrFrame(v, w, from);
  }

  /** Distance to the next unescaped dash when the escape flag is set or not. */
  function DashFrom(escape: bool, s: string): nat {
    if !escape then DashAt(s) else if s == "" then 0 else 1 + DashAt(s[1..])
  }

  lemma DashStep(escape: bool, s: string)
    requires s != ""
    ensures DashFrom(escape, s) ==
            if !escape && s[0] == '-' then 0 else 1 + DashFrom(!escape && s[0] == '\\', s[1..])
  {
  }

  lemma MarkedToken(m: seq<char>, w: seq<char>, from: nat, d: nat, text: string)
    requires from + d < |m| && d < |text| && w == m[from + d := '\0'] && text == CStr(m, from)
    ensures CStr(w, from) == text[..d]
  {
    assert from + |text| <= |m| && text[..d] == m[from..from + |text|][..d];
    assert w[from..from + d] == m[from..from + d];
    assert forall c <- text[..d] :: c in text;
    CStrIs(w, from, text[..d]);
  }

  /** The memory once a NUL is written over the dash. */
  lemma MarkedMemory(m: seq<char>, from: nat)
    requires from < |m| && m[|m| - 1] == '\0'
    ensures var text := CStr(m, from);
            var d := DashAt(text);
            && from + d < |m| && (m[from + d] == '\0' <==> d == |text|)
            && (d == |text| ==> CStr(m, from) == text[..d] && CStr(m, from + d) == AfterDash(text))
            && (d < |text| ==> from + d + 1 < |m|
                               && CStr(m[from + d := '\0'], from) == text[..d]
                               && CStr(m[from + d := '\0'], from + d + 1) == AfterDash(text))
  {
    var text := CStr(m, from);
    var d := DashAt(text);
    CStrFrom(m, from, d);
    CStrHead(m, from + d);
    if d < |text| {
      var w := m[from + d := '\0'];
      CStrFrom(m, from, d + 1);
      CStrFrame(m, w, from + d + 1);
      MarkedToken(m, w, from, d, text);
    }
  }

  /** The first two tokens of `text` and what is left behind them. */
  predicate IsExchange(text: string, want: Option<string>, reply: Option<string>, left: string) {
    if text == "" then want == None && reply == None && left == ""
    else
      var rest := AfterDash(text);
      && want == Some(text[..DashAt(text)]) && left == AfterDash(rest)
      && reply == if rest == "" then None else Some(rest[..DashAt(rest)])
  }

  lemma SplitCons(text: string)
    requires text != ""
    ensures Split(text)[0] == text[..DashAt(text)] && Split(text)[1..] == Split(AfterDash(text))
  {
  }

  /** Told on the list of tokens. */
  lemma ExchangeTokens(text: string, want: Option<string>, reply: Option<string>, left: string)
    requires IsExchange(text, want, reply, left)
    ensures var ts := Split(text);
            && want == (if ts == [] then None else Some(ts[0]))
            && reply == (if |ts| < 2 then None else Some(ts[1]))
            && Split(left) == (if |ts| < 2 then [] else ts[2..])
            && (ts != [] ==> |left| < |text|)
  {
    if text != "" {
      var rest := AfterDash(text);
      SplitCons(text);
      if rest != "" {
        SplitCons(rest);
        assert Split(text)[1] == Split(text)[1..][0] && Split(text)[2..] == Split(text)[1..][1..];
      } else {
        assert |Split(text)[1..]| == 0;
      }
    }
  }

  lemma ExchangeStrings(text: string, want: Option<string>, reply: Option<string>, left: string)
    requires IsExchange(text, want, reply, left) && NoNul(text)
    ensures (want.Some? ==> NoNul(want.value)) && (reply.Some? ==> NoNul(reply.value))
  {
    if text != "" {
      var rest := AfterDash(text);
      assert forall c <- text[..DashAt(text)] :: c in text;
      assert forall c <- rest[..DashAt(rest)] :: c in text;
    }
  }

  /** The static cursor `str`. */
  class StrTok {
    var str: Pointer

    constructor (empty: array<char>)
      requires empty.Length == 1 && empty[0] == '\0'
      ensures str == Pointer(empty, 0)
    {
      str := Pointer(empty, 0);
    }

    /** Runs the cursor to the first unescaped dash or to the end. */
    method ToDash()
      requires IsString(str)
      modifies this
      ensures IsString(str) && str.mem == old(str.mem) && str.at == old(str.at) + DashAt(old(TextOf(str)))
    {
      var escape := false;
      var mem, i := str.mem, str.at;
      ghost var all, rest := i + DashAt(TextOf(str)), TextOf(str);
      while mem[i] != '\0'
        invariant i < mem.Length && rest == CStr(mem[..], i)
        invariant all == i + DashFrom(escape, rest)
        decreases mem.Length - i
      {
        CStrHead(mem[..], i);
        DashStep(escape, rest);
        if escape {
          escape := false;
        } else if mem[i] == '\\' {
          escape := true;
        } else if mem[i] == '-' {
          break;
        }
        i := i + 1;
        rest := rest[1..];
      }
      CStrHead(mem[..], i);
      str := Pointer(mem, i);
    }

    /** `*str++ = '\0'` unless the cursor is at the end; `from` and `text` are the string being cut. */
    method MarkEnd(ghost from: nat, ghost text: string)
      requires IsString(str) && from <= str.at && text == CStr(str.mem[..], from) && str.at == from + DashAt(text)
      modifies this, str.mem
      ensures IsString(str) && str.mem == old(str.mem)
      ensures TextOf(str) == AfterDash(text) && from <= str.at <= from + |text|
      ensures str.at == from + DashAt(text) + if DashAt(text) < |text| then 1 else 0
      ensures CStr(str.mem[..], from) == text[..DashAt(text)]
      ensures SameOutside(old(str.mem[..]), str.mem[..], from, |text|)
    {
      ghost var m := str.mem[..];
      MarkedMemory(m, from);
      if str.mem[str.at] != '\0' {
        str.mem[str.at] := '\0';
        assert str.mem[..] == m[str.at := '\0'];
        str := str.(at := str.at + 1);
      }
    }

    /** `if (s) str = s`, the part of expect_strtok for a new string. */
    method Begin(s: Pointer)
      modifies this
      ensures str == s
    {
      str := s;
    }

    /** expect_strtok(NULL, "-"): the next token of the string under way, as an offset; None for NULL. */
    method ExpectStrtok() returns (result: Option<nat>)
      requires IsString(str)
      modifies this, str.mem
      ensures IsString(str) && str.mem == old(str.mem)
      ensures var from, text := old(str.at), old(TextOf(str));
              && from <= str.at <= from + |text| && TextOf(str) == AfterDash(text)
              && result == (if text == "" then None else Some(from))
              && CStr(str.mem[..], from) == text[..DashAt(text)]
              && str.at == from + DashAt(text) + (if DashAt(text) < |text| then 1 else 0)
      ensures SameOutside(old(str.mem[..]), str.mem[..], old(str.at), old(|TextOf(str)|))
    {
      ghost var from, text := str.at, TextOf(str);
      CStrHead(str.mem[..], from);
      result := if str.mem[str.at] != '\0' then Some(str.at) else None;
      ToDash();
      MarkEnd(from, text);
    }

    /** The two calls at the top of the loop of chat_expect: an expect token and, if there is one, its reply. */
    method ExpectAndReply() returns (want: Option<string>, reply: Option<string>)
      requires IsString(str)
      modifies this, str.mem
      ensures IsString(str) && str.mem == old(str.mem)
      ensures old(str.at) <= str.at && str.at + |TextOf(str)| <= old(str.at) + |old(TextOf(str))|
      ensures IsExchange(old(TextOf(str)), want, reply, TextOf(str))
      ensures SameOutside(old(str.mem[..]), str.mem[..], old(str.at), old(|TextOf(str)|))
    {
      want, reply := None, None;
      ghost var was, from, len := str.mem[..], str.at, |TextOf(str)|;
      var expectAt := ExpectStrtok();
      if expectAt.None? {
        return;
      }
      ghost var m, later, rest := str.mem[..], str.at, |TextOf(str)|;
      var replyAt := ExpectStrtok();
      FirstTokenStays(was, m, str.mem[..], from, len, later, rest);
      want := Some(CStr(str.mem[..], expectAt.value));
      if replyAt.Some? {
        reply := Some(CStr(str.mem[..], replyAt.value));
      }
    }

    /** The same told on the list of tokens. */
    method NextPair(ghost ts: seq<string>) returns (want: Option<string>, reply: Option<string>)
      requires IsString(str) && ts == Split(TextOf(str))
      modifies this, str.mem
      ensures IsString(str) && str.mem == old(str.mem)
      ensures old(str.at) <= str.at && str.at + |TextOf(str)| <= old(str.at) + |old(TextOf(str))|
      ensures want == (if ts == [] then None else Some(ts[0])) && reply == (if |ts| < 2 then None else Some(ts[1]))
      ensures (want.Some? ==> NoNul(want.value)) && (reply.Some? ==> NoNul(reply.value))
      ensures Split(TextOf(str)) == (if |ts| < 2 then [] else ts[2..])
      ensures ts != [] ==> |TextOf(str)| < old(|TextOf(str)|)
      ensures SameOutside(old(str.mem[..]), str.mem[..], old(str.at), old(|TextOf(str)|))
    {
      ghost var text := TextOf(str);
      want, reply := ExpectAndReply();
      ExchangeTokens(text, want, reply, TextOf(str));
      ExchangeStrings(text, want, reply, TextOf(str));
    }
  }
}
