/** Reading a chat script from a file (do_file of chat.c): lines through a buffer of STR_LEN characters, words bare or
    quoted, comments. */
module ChatFile {
  import opened ChatControl
  import opened CText
  import ChatWindow

  const STR_LEN := ChatWindow.STR_LEN

  predicate IsBlank(c: char) {
    c == ' ' || c == '\t'
  }

  predicate IsQuote(c: char) {
    c == '"' || c == '\''
  }

  // ---------------------------------------------------------------- lines

  /** Number of characters fgets takes: through the first newline, but at most STR_LEN - 1. */
  function LineLength(content: string): (n: nat)
    ensures n <= |content| && n < STR_LEN && (content != "" ==> n >= 1)
  {
    var k := IndexOf(content, '\n');
    var n := if k < |content| then k + 1 else k;
    if n < STR_LEN then n else STR_LEN - 1
  }

  /** What the C string functions see of the buffer: up to the newline or a NUL. */
  function LineText(chunk: string): (s: string)
    ensures NoNul(s)
  {
    var s := CStr(chunk, 0);
    s[..IndexOf(s, '\n')]
  }

  // ---------------------------------------------------------------- words

  /** Where the quote closes; None when the line ends first. */
  function QuoteEnd(s: string, quote: char): (e: Option<nat>)
    ensures e.Some? ==> e.value < |s| && s[e.value] == quote
  {
    if s == "" then None
    else if s[0] == quote then Some(0)
    else
      var skip := if s[0] == '\\' && |s| > 1 then 2 else 1;
      var e := QuoteEnd(s[skip..], quote);
      if e.Some? then Some(skip + e.value) else None
  }

  /** Where a bare word ends. */
  function BareEnd(s: string): (e: nat)
    ensures e <= |s| && (e < |s| ==> IsBlank(s[e]))
  {
    if s == "" || IsBlank(s[0]) then 0 else 1 + BareEnd(s[1..])
  }

  function SkipBlanks(s: string): (r: string)
    ensures |r| <= |s| && (r != "" ==> !IsBlank(r[0]))
  {
    if s != "" && IsBlank(s[0]) then SkipBlanks(s[1..]) else s
  }

  /** Start and end of the first word of a line that does not start with a blank; None for an unterminated quote. */
  function WordAt(s: string): (r: Option<(nat, nat)>)
    requires s != "" && !IsBlank(s[0])
    ensures r.Some? ==> r.value.0 <= r.value.1 <= |s| && (r.value.1 == |s| ==> r.value.1 > 0)
  {
    if IsQuote(s[0]) then
      var e := QuoteEnd(s[1..], s[0]);
      if e.None? then None else Some((1, 1 + e.value))
    else Some((0, BareEnd(s)))
  }

  /** What is left behind a word that ends at `e`: the character there becomes a NUL. */
  function Behind(s: string, e: nat): string
    requires e <= |s|
  {
    if e < |s| then s[e + 1..] else ""
  }

  /** Words of a script so far, and whether all quotes were closed. */
  datatype Words = Words(ws: seq<string>, ok: bool)

  function Cons(w: string, r: Words): Words {
    Words([w] + r.ws, r.ok)
  }

  function Append(a: Words, b: Words): Words {
    if a.ok then Words(a.ws + b.ws, b.ok) else a
  }

  function LineWords(line: string): Words
    decreases |line|
  {
    var s := SkipBlanks(line);
    if s == "" then Words([], true)
    else
      var w := WordAt(s);
      if w.None? then Words([], false)
      else Cons(s[w.value.0..w.value.1], LineWords(Behind(s, w.value.1)))
  }

  /** Words of one line; a line that starts with '#' is a comment. */
  function ChunkWords(chunk: string): Words {
    var s := LineText(chunk);
    if s != "" && s[0] == '#' then Words([], true) else LineWords(s)
  }

  /** All words of a file, in order; an unterminated quote ends them. */
  function FileWords(content: string): Words
    decreases |content|
  {
    if content == "" then Words([], true)
    else Append(ChunkWords(content[..LineLength(content)]), FileWords(content[LineLength(content)..]))
  }

  // ---------------------------------------------------------------- writing a script

  /** A word behind blanks: in quotes, or bare and ended by a blank. */
  datatype Item = Quoted(lead: string, quote: char, text: string) | Bare(lead: string, text: string, end: char)

  /** A line of a script: a comment, or words and, perhaps, blanks and a last bare word that nothing ends. */
  datatype ScriptLine = Comment(text: string) | Line(items: seq<Item>, lead: string, last: string)

  predicate Blanks(s: string) {
    forall i :: 0 <= i < |s| ==> IsBlank(s[i])
  }

  predicate FitsLine(s: string) {
    forall i :: 0 <= i < |s| ==> s[i] != '\n' && s[i] != '\0'
  }

  predicate IsBareText(s: string) {
    s != "" && !IsQuote(s[0]) && forall i :: 0 <= i < |s| ==> !IsBlank(s[i])
  }

  /** No unescaped closing quote and no dangling backslash. */
  predicate Closed(t: string, quote: char) {
    t == "" || (t[0] != quote && if t[0] == '\\' then |t| > 1 && Closed(t[2..], quote) else Closed(t[1..], quote))
  }

  predicate IsItem(w: Item) {
    && Blanks(w.lead) && FitsLine(w.text)
    && if w.Quoted? then IsQuote(w.quote) && Closed(w.text, w.quote) else IsBareText(w.text) && IsBlank(w.end)
  }

  predicate AllItems(ws: seq<Item>) {
    forall i :: 0 <= i < |ws| ==> IsItem(ws[i])
  }

  function PrintItem(w: Item): string {
    w.lead + if w.Quoted? then [w.quote] + (w.text + [w.quote]) else w.text + [w.end]
  }

  function PrintItems(ws: seq<Item>, tail: string): string {
    if ws == [] then tail else PrintItem(ws[0]) + PrintItems(ws[1..], tail)
  }

  function PrintLine(l: ScriptLine): string {
    if l.Comment? then "#" + l.text else PrintItems(l.items, l.lead + l.last)
  }

  function Texts(ws: seq<Item>): seq<string> {
    if ws == [] then [] else [ws[0].text] + Texts(ws[1..])
  }

  function LineTexts(l: ScriptLine): seq<string> {
    if l.Comment? then [] else Texts(l.items) + if l.last == "" then [] else [l.last]
  }

  /** Every line but the last ends in a newline. */
  function PrintFile(lines: seq<ScriptLine>, last: ScriptLine): string {
    if lines == [] then PrintLine(last) else PrintLine(lines[0]) + "\n" + PrintFile(lines[1..], last)
  }

  function AllTexts(lines: seq<ScriptLine>, last: ScriptLine): seq<string> {
    if lines == [] then LineTexts(last) else LineTexts(lines[0]) + AllTexts(lines[1..], last)
  }

  /** A well-formed line that fits the buffer; words are no comment. */
  predicate IsScriptLine(l: ScriptLine) {
    && |PrintLine(l)| < STR_LEN
    && match l {
         case Comment(text) => FitsLine(text)
         case Line(items, lead, last) =>
           && AllItems(items) && Blanks(lead) && FitsLine(last) && (last != "" ==> IsBareText(last))
           && (PrintLine(l) != "" ==> PrintLine(l)[0] != '#')
       }
  }

  predicate IsScript(lines: seq<ScriptLine>) {
    forall i :: 0 <= i < |lines| ==> IsScriptLine(lines[i])
  }

  lemma {:induction false} QuoteCloses(t: string, quote: char, rest: string)
    requires Closed(t, quote) && IsQuote(quote)
    ensures QuoteEnd(t + ([quote] + rest), quote) == Some(|t|)
    decreases |t|
  {
    var s := t + ([quote] + rest);
    if t == "" {
      assert s == [quote] + rest;
    } else {
      var skip := if t[0] == '\\' then 2 else 1;
      assert s[skip..] == t[skip..] + ([quote] + rest);
      QuoteCloses(t[skip..], quote, rest);
    }
  }

  lemma {:induction false} BareCloses(t: string, rest: string)
    requires (forall i :: 0 <= i < |t| ==> !IsBlank(t[i])) && (rest != "" ==> IsBlank(rest[0]))
    ensures BareEnd(t + rest) == |t|
    decreases |t|
  {
    if t == "" {
      assert t + rest == rest;
    } else {
      assert (t + rest)[1..] == t[1..] + rest;
      BareCloses(t[1..], rest);
    }
  }

  lemma {:induction false} LeadSkipped(lead: string, s: string)
    requires Blanks(lead)
    ensures LineWords(lead + s) == LineWords(s)
    decreases |lead|
  {
    if lead == "" {
      assert lead + s == s;
    } else {
      assert (lead + s)[1..] == lead[1..] + s;
      SkipBlank(lead + s);
      LeadSkipped(lead[1..], s);
    }
  }

  lemma CutBehind(w: Item, rest: string)
    requires w.Quoted?
    ensures var s := [w.quote] + (w.text + ([w.quote] + rest));
            && |s| >= 2 + |w.text| && s[0] == w.quote && s[1..] == w.text + ([w.quote] + rest)
            && s[1..1 + |w.text|] == w.text && s[1 + |w.text| + 1..] == rest
  {
  }

  lemma QuotedReadBack(w: Item, rest: string)
    requires IsItem(w) && w.Quoted?
    ensures LineWords([w.quote] + (w.text + ([w.quote] + rest))) == Cons(w.text, LineWords(rest))
  {
    CutBehind(w, rest);
    QuoteCloses(w.text, w.quote, rest);
  }

  lemma BareReadBack(text: string, rest: string)
    requires IsBareText(text) && (rest != "" ==> IsBlank(rest[0]))
    ensures LineWords(text + rest) == Cons(text, LineWords(if rest == "" then "" else rest[1..]))
  {
    var s := text + rest;
    BareCloses(text, rest);
    assert s[0] == text[0] && s[0..|text|] == text;
    assert rest != "" ==> s[|text| + 1..] == rest[1..];
  }

  lemma ItemShape(w: Item, rest: string)
    ensures w.Quoted? ==> PrintItem(w) + rest == w.lead + ([w.quote] + (w.text + ([w.quote] + rest)))
    ensures w.Bare? ==> PrintItem(w) + rest == w.lead + (w.text + ([w.end] + rest)) && ([w.end] + rest)[1..] == rest
  {
  }

  /** The first word of a printed line is read back, and the rest of the line is left. */
  lemma WordReadBack(w: Item, rest: string)
    requires IsItem(w)
    ensures LineWords(PrintItem(w) + rest) == Cons(w.text, LineWords(rest))
  {
    ItemShape(w, rest);
    if w.Quoted? {
      LeadSkipped(w.lead, [w.quote] + (w.text + ([w.quote] + rest)));
      QuotedReadBack(w, rest);
    } else {
      LeadSkipped(w.lead, w.text + ([w.end] + rest));
      BareReadBack(w.text, [w.end] + rest);
    }
  }

  lemma TailReadBack(lead: string, last: string)
    requires Blanks(lead) && (last != "" ==> IsBareText(last))
    ensures LineWords(lead + last) == Words(if last == "" then [] else [last], true)
  {
    LeadSkipped(lead, last);
    if last != "" {
      BareReadBack(last, "");
      assert last + "" == last;
    }
  }

  lemma {:induction false} ItemsReadBack(ws: seq<Item>, lead: string, last: string)
    requires AllItems(ws) && Blanks(lead) && (last != "" ==> IsBareText(last))
    ensures LineWords(PrintItems(ws, lead + last)) == Words(Texts(ws) + if last == "" then [] else [last], true)
    decreases |ws|
  {
    if ws == [] {
      TailReadBack(lead, last);
    } else {
      WordReadBack(ws[0], PrintItems(ws[1..], lead + last));
      ItemsReadBack(ws[1..], lead, last);
    }
  }

  lemma {:induction false} PrintedItems(ws: seq<Item>, tail: string)
    requires AllItems(ws) && FitsLine(tail)
    ensures FitsLine(PrintItems(ws, tail))
    decreases |ws|
  {
    if ws != [] {
      PrintedItems(ws[1..], tail);
    }
  }

  /** A printed line contains no newline or NUL, and its words are those it was made of. */
  lemma PrintedLine(l: ScriptLine)
    requires IsScriptLine(l)
    ensures FitsLine(PrintLine(l)) && (l.Line? ==> LineWords(PrintLine(l)) == Words(LineTexts(l), true))
  {
    if l.Line? {
      PrintedItems(l.items, l.lead + l.last);
      ItemsReadBack(l.items, l.lead, l.last);
    }
  }

  /** What do_file makes of a printed line, with or without its newline. */
  lemma LineReadBack(l: ScriptLine, chunk: string)
    requires IsScriptLine(l) && LineText(chunk) == PrintLine(l)
    ensures ChunkWords(chunk) == Words(LineTexts(l), true)
  {
    PrintedLine(l);
  }

  lemma FirstLine(s: string, rest: string)
    requires |s| + 1 < STR_LEN && FitsLine(s)
    ensures var content := s + "\n" + rest;
            && LineLength(content) == |s| + 1 && content[..|s| + 1] == s + "\n" && content[|s| + 1..] == rest
            && LineText(s + "\n") == s
  {
    var content := s + "\n" + rest;
    IndexOfIs(content, '\n', |s|);
    var chunk := s + "\n";
    assert NulAt(chunk, 0) == |chunk|;
    IndexOfIs(chunk, '\n', |s|);
  }

  lemma OnlyLine(s: string)
    requires |s| < STR_LEN && FitsLine(s)
    ensures LineLength(s) == |s| && LineText(s) == s
  {
    IndexOfIs(s, '\n', |s|);
    assert NulAt(s, 0) == |s|;
  }

  lemma EmptyLine(rest: string)
    ensures FileWords("\n" + rest) == FileWords(rest)
  {
    FirstLine("", rest);
    var content := "\n" + rest;
    assert content == "" + "\n" + rest && "" + "\n" == "\n";
    assert [] + FileWords(rest).ws == FileWords(rest).ws;
  }

  /** A line that fills the buffer is read whole too: the newline left over is an empty line. */
  lemma FullLine(s: string, rest: string)
    requires |s| + 1 == STR_LEN && FitsLine(s)
    ensures FileWords(s + "\n" + rest) == Append(ChunkWords(s), FileWords(rest))
  {
    var content := s + "\n" + rest;
    IndexOfIs(content, '\n', |s|);
    assert content[..|s|] == s && content[|s|..] == "\n" + rest;
    EmptyLine(rest);
  }

  /** do_file on a line and what follows it. */
  lemma LineThenRest(l: ScriptLine, rest: string)
    requires IsScriptLine(l)
    ensures FileWords(PrintLine(l) + "\n" + rest) == Append(Words(LineTexts(l), true), FileWords(rest))
  {
    var s := PrintLine(l);
    PrintedLine(l);
    if |s| + 1 < STR_LEN {
      FirstLine(s, rest);
      LineReadBack(l, s + "\n");
    } else {
      FullLine(s, rest);
      OnlyLine(s);
      LineReadBack(l, s);
    }
  }

  /** do_file inverts printing: the words of the printed script are the words it was made of, across line breaks,
      comments and any blanks. */
  lemma {:induction false} FileReadBack(lines: seq<ScriptLine>, last: ScriptLine)
    requires IsScript(lines) && IsScriptLine(last)
    ensures FileWords(PrintFile(lines, last)) == Words(AllTexts(lines, last), true)
    decreases |lines|
  {
    if lines == [] {
      var s := PrintLine(last);
      PrintedLine(last);
      OnlyLine(s);
      LineReadBack(last, s);
      assert s[..|s|] == s && s[|s|..] == "";
      assert LineTexts(last) + [] == LineTexts(last);
    } else {
      LineThenRest(lines[0], PrintFile(lines[1..], last));
      FileReadBack(lines[1..], last);
    }
  }

  /** One character more cuts a word in two. */
  lemma LongWordIsCut(text: string)
    requires |text| == STR_LEN && FitsLine(text) && IsBareText(text) && text[0] != '#'
    requires !IsQuote(text[STR_LEN - 1]) && text[STR_LEN - 1] != '#'
    ensures FileWords(text) == Words([text[..STR_LEN - 1], text[STR_LEN - 1..]], true)
  {
    var front, back := text[..STR_LEN - 1], text[STR_LEN - 1..];
    IndexOfIs(text, '\n', |text|);
    BareLine(front);
    BareLine(back);
    assert back[..|back|] == back && back[|back|..] == "";
    assert FileWords(back) == Append(Words([back], true), Words([], true)) == Words([back], true);
    assert [front] + [back] == [front, back];
  }

  lemma BareLine(s: string)
    requires |s| < STR_LEN && FitsLine(s) && IsBareText(s) && s[0] != '#'
    ensures LineLength(s) == |s| && ChunkWords(s) == Words([s], true)
  {
    OnlyLine(s);
    TailReadBack("", s);
    assert "" + s == s;
  }

  /** Words end at spaces and tabs. */
  lemma BareWordsOfLine(a: string, b: string, rest: string)
    requires IsBareText(a) && IsBareText(b)
    ensures LineWords(a + (" " + (b + ("\t" + rest)))) == Cons(a, Cons(b, LineWords(rest)))
  {
    BareReadBack(b, "\t" + rest);
    assert ("\t" + rest)[1..] == rest;
    var second := b + ("\t" + rest);
    BareReadBack(a, " " + second);
    assert (" " + second)[1..] == second;
  }

  /** They may be enclosed in either quote. */
  lemma QuotedWordsOfLine(q: string, r: string)
    requires Closed(q, '"') && Closed(r, '\'')
    ensures LineWords(['"'] + (q + (['"'] + (" " + (['\''] + (r + (['\''] + ""))))))) == Words([q, r], true)
  {
    var second := ['\''] + (r + (['\''] + ""));
    QuotedText(r, '\'', "");
    LeadSkipped(" ", second);
    QuotedText(q, '"', " " + second);
  }

  lemma QuotedText(text: string, quote: char, rest: string)
    requires IsQuote(quote) && Closed(text, quote)
    ensures LineWords([quote] + (text + ([quote] + rest))) == Cons(text, LineWords(rest))
  {
    var w := Quoted("", quote, text);
    CutBehind(w, rest);
    QuoteCloses(text, quote, rest);
  }

  /** A line that starts with # is skipped. */
  lemma CommentSkipped(note: string, rest: string)
    requires FitsLine(note) && |note| < 1023
    ensures FileWords("#" + note + "\n" + rest) == FileWords(rest)
  {
    LineThenRest(Comment(note), rest);
    assert [] + FileWords(rest).ws == FileWords(rest).ws;
  }

  /** A quote that the line does not close. */
  lemma {:induction false} NeverCloses(t: string, quote: char)
    requires forall i :: 0 <= i < |t| ==> t[i] != quote
    ensures QuoteEnd(t, quote) == None
    decreases |t|
  {
    if t != "" {
      NeverCloses(t[if t[0] == '\\' && |t| > 1 then 2 else 1..], quote);
    }
  }

  lemma OpenQuoteWords(quote: char, t: string)
    requires (quote == '"' || quote == '\'') && FitsLine(t) && |t| < 1023 && forall i :: 0 <= i < |t| ==> t[i] != quote
    ensures FileWords([quote] + t) == Words([], false)
  {
    var s := [quote] + t;
    OnlyLine(s);
    OpenQuoteLine(quote, t);
    OneChunk(s);
  }

  lemma OneChunk(s: string)
    requires s != "" && LineLength(s) == |s| && LineText(s) == s
    ensures FileWords(s) == Append(ChunkWords(s), FileWords(""))
  {
    assert s[|s|..] == "" && s[..|s|] == s;
  }

  lemma OpenQuoteLine(quote: char, t: string)
    requires (quote == '"' || quote == '\'') && forall i :: 0 <= i < |t| ==> t[i] != quote
    ensures LineWords([quote] + t) == Words([], false)
  {
    var s := [quote] + t;
    assert s[1..] == t;
    NeverCloses(t, quote);
    assert SkipBlanks(s) == s && WordAt(s).None?;
  }

  // ---------------------------------------------------------------- running a file

  /** The calls do_file makes for these words; an unterminated quote then ends the program with status 1. */
  function RunWords<W>(ops: Ops<W>, split: string -> seq<string>, f: Flags, w: W, words: Words,
      sending: bool): Machine<W> {
    var m := Run(ops, split, f, w, words.ws, sending);
    if m.now.Running? && !words.ok then Machine(m.flags, Exited(Status(1), m.now.w)) else m
  }

  /** What a file amounts to for the direct interpreter. */
  function InterpretWords<W>(ops: Ops<W>, split: string -> seq<string>, w: W, words: Words): Outcome<W> {
    var o := Interpreter(ops, split, w, words.ws);
    if o.Running? && !words.ok then Exited(Status(1), o.w) else o
  }

  lemma FileIsInterpreter<W>(ops: Ops<W>, split: string -> seq<string>, w: W, words: Words)
    ensures RunWords(ops, split, NONE, w, words, false).now == InterpretWords(ops, split, w, words)
  {
    RunIsInterpreter(ops, split, w, words.ws);
  }

  /** A quote that is not closed ends the program with status 1. */
  lemma OpenQuoteFails<W>(ops: Ops<W>, split: string -> seq<string>, w: W, quote: char, t: string)
    requires (quote == '"' || quote == '\'') && FitsLine(t) && |t| < 1023 && forall i :: 0 <= i < |t| ==> t[i] != quote
    ensures InterpretWords(ops, split, w, FileWords([quote] + t)) == Exited(Status(1), w)
  {
    OpenQuoteWords(quote, t);
  }

  /** A printed script does what the argument loop does on the same words. */
  lemma PrintedScriptRuns<W>(ops: Ops<W>, split: string -> seq<string>, w: W, lines: seq<ScriptLine>, last: ScriptLine)
    requires IsScript(lines) && IsScriptLine(last)
    ensures InterpretWords(ops, split, w, FileWords(PrintFile(lines, last))) ==
            Interpreter(ops, split, w, AllTexts(lines, last))
  {
    FileReadBack(lines, last);
  }

  lemma RunNextWord<W>(ops: Ops<W>, split: string -> seq<string>, f: Flags, w: W, word: string, rest: Words,
                       later: Words, sending: bool)
    ensures var m := Step(ops, split, f, w, word, sending);
            RunWords(ops, split, f, w, Append(Cons(word, rest), later), sending) ==
            if m.now.Exited? then m else RunWords(ops, split, m.flags, m.now.w, Append(rest, later), !sending)
  {
    var all := Append(Cons(word, rest), later).ws;
    assert all == [word] + Append(rest, later).ws;
    assert all[1..] == Append(rest, later).ws;
  }

  lemma RunBadQuote<W>(ops: Ops<W>, split: string -> seq<string>, f: Flags, w: W, later: Words, sending: bool)
    ensures RunWords(ops, split, f, w, Append(Words([], false), later), sending) == Machine(f, Exited(Status(1), w))
    ensures RunWords(ops, split, f, w, Append(Words([], true), later), sending) ==
            RunWords(ops, split, f, w, later, sending)
  {
    assert [] + later.ws == later.ws;
  }

  // ---------------------------------------------------------------- the C loops over the buffer

  /** The buffer holds a string. */
  ghost predicate IsBuffer(buf: array<char>)
    reads buf
  {
    buf.Length == STR_LEN && buf[STR_LEN - 1] == '\0'
  }

  /** fgets and the removal of the newline: `pos` is the place in the file. */
  method ReadLine(content: string, pos: nat, buf: array<char>) returns (next: nat)
    requires pos < |content| && IsBuffer(buf)
    modifies buf
    ensures next == pos + LineLength(content[pos..]) && IsBuffer(buf)
    ensures CStr(buf[..], 0) == LineText(content[pos..next])
  {
    var n := 0;
    ghost var rest := content[pos..];
    ghost var k := IndexOf(rest, '\n');
    while n < STR_LEN - 1 && pos + n < |content| && (n == 0 || content[pos + n - 1] != '\n')
      invariant n < STR_LEN && pos + n <= |content| && n <= k + 1 && IsBuffer(buf)
      invariant forall i :: 0 <= i < n ==> buf[i] == rest[i]
    {
      buf[n] := content[pos + n];
      assert k < |rest| ==> rest[k] == content[pos + k];
      n := n + 1;
    }
    next := pos + n;
    assert n == LineLength(rest) by { assert n >= 1 ==> rest[n - 1] == content[pos + n - 1]; }
    buf[n] := '\0';
    ghost var chunk := content[pos..next];
    assert buf[..][..n] == chunk;
    Chop(buf, n, chunk);
  }

  /** `if (sp = strchr(buf, '\\n')) *sp = 0` */
  method Chop(buf: array<char>, n: nat, ghost chunk: string)
    requires IsBuffer(buf) && n < STR_LEN && buf[..][..n] == chunk && buf[n] == '\0'
    modifies buf
    ensures IsBuffer(buf) && CStr(buf[..], 0) == LineText(chunk)
  {
    ghost var m := buf[..];
    SameString(m, n, chunk);
    var i := 0;
    while buf[i] != '\0' && buf[i] != '\n'
      invariant i <= n
      decreases n - i
      invariant forall j :: 0 <= j < i ==> m[j] != '\0' && m[j] != '\n'
    {
      i := i + 1;
    }
    ScanDone(m, 0, i, '\n');
    buf[i] := '\0';
    assert buf[..] == m[i := '\0'];
    ghost var text := LineText(chunk);
    assert buf[..][0..i] == m[0..i] == text;
    CStrIs(buf[..], 0, text);
  }

  lemma SameString(m: seq<char>, n: nat, chunk: string)
    requires n < |m| && m[..n] == chunk && m[n] == '\0'
    ensures CStr(m, 0) == CStr(chunk, 0)
  {
    var e := NulAt(chunk, 0);
    assert m[0..e] == chunk[0..e];
    assert e < n ==> m[e] == chunk[e];
    CStrIs(m, 0, chunk[0..e]);
  }

  /** The words from one line on. */
  lemma NextLine(content: string, pos: nat, next: nat)
    requires pos < |content| && next == pos + LineLength(content[pos..])
    ensures FileWords(content[pos..]) == Append(ChunkWords(content[pos..next]), FileWords(content[next..]))
  {
    var rest := content[pos..];
    assert rest[..next - pos] == content[pos..next] && rest[next - pos..] == content[next..];
  }

  // ---------------------------------------------------------------- one word in the buffer

  lemma SkipBlank(s: string)
    requires s != ""
    ensures IsBlank(s[0]) ==> LineWords(s) == LineWords(s[1..])
    ensures !IsBlank(s[0]) ==> SkipBlanks(s) == s
  {
  }

  /** The bare branch: to the next blank or the end. */
  method ToBlank(buf: array<char>, at: nat) returns (sp: nat)
    requires IsBuffer(buf) && at < buf.Length
    ensures sp < buf.Length && sp == at + BareEnd(CStr(buf[..], at)) && sp <= at + |CStr(buf[..], at)|
  {
    ghost var m := buf[..];
    sp := at;
    while buf[sp] != '\0' && buf[sp] != ' ' && buf[sp] != '\t'
      invariant at <= sp < buf.Length && at + BareEnd(CStr(m, at)) == sp + BareEnd(CStr(m, sp))
      decreases buf.Length - sp
    {
      CStrHead(m, sp);
      sp := sp + 1;
    }
    CStrHead(m, sp);
  }

  /** Place in memory where the quote closes that is open at `i`, where `s` starts. */
  function ClosingAt(s: string, quote: char, i: nat): Option<nat> {
    var e := QuoteEnd(s, quote);
    if e.Some? then Some(i + e.value) else None
  }

  lemma QuoteStep(m: seq<char>, i: nat, quote: char)
    requires i + 1 < |m| && m[i] != '\0' && m[i] != quote && m[|m| - 1] == '\0'
    ensures var j := if m[i] == '\\' && m[i + 1] != '\0' then i + 2 else i + 1;
            j < |m| && ClosingAt(CStr(m, j), quote, j) == ClosingAt(CStr(m, i), quote, i)
  {
    var s := CStr(m, i);
    CStrHead(m, i);
    CStrHead(m, i + 1);
    assert |s| > 1 ==> s[2..] == s[1..][1..];
  }

  /** The quoted branch behind the opening quote: to the closing one, over escaped characters; None at the end of the
      line. */
  method ToQuote(buf: array<char>, at: nat, quote: char) returns (sp: Option<nat>)
    requires IsBuffer(buf) && at < buf.Length && IsQuote(quote)
    ensures sp == ClosingAt(CStr(buf[..], at), quote, at)
  {
    ghost var m := buf[..];
    var i := at;
    while buf[i] != quote
      invariant at <= i < buf.Length && ClosingAt(CStr(m, i), quote, i) == ClosingAt(CStr(m, at), quote, at)
      decreases buf.Length - i
    {
      if buf[i] == '\0' {
        CStrHead(m, i);
        return None;
      }
      QuoteStep(m, i, quote);
      i := i + 1;
      if buf[i - 1] == '\\' && buf[i] != '\0' {
        i := i + 1;
      }
    }
    CStrHead(m, i);
    sp := Some(i);
  }

  /** The word at a non-blank: its first character and the one behind it. */
  method FindWord(buf: array<char>, at: nat) returns (word: Option<(nat, nat)>)
    requires IsBuffer(buf) && at < buf.Length && buf[at] != '\0' && !IsBlank(buf[at])
    ensures var s := CStr(buf[..], at);
            s != "" && !IsBlank(s[0]) &&
            var w := WordAt(s);
            word == if w.None? then None else Some((at + w.value.0, at + w.value.1))
  {
    ghost var m, s := buf[..], CStr(buf[..], at);
    CStrHead(m, at);
    assert s != "" && s[0] == buf[at] && s[1..] == CStr(m, at + 1);
    if buf[at] == '"' || buf[at] == '\'' {
      var e := ToQuote(buf, at + 1, buf[at]);
      if e.None? {
        return None;
      }
      word := Some((at + 1, e.value));
    } else {
      var e := ToBlank(buf, at);
      word := Some((at, e));
    }
  }

  /** A word that ends the line. */
  lemma LastWord(m: seq<char>, at: nat, word: nat, end: nat)
    requires at <= word <= end < |m| && end == NulAt(m, at)
    ensures CStr(m, word) == CStr(m, at)[word - at..end - at] && CStr(m, end) == Behind(CStr(m, at), end - at)
  {
    CStrFrom(m, at, word - at);
    CStrHead(m, end);
  }

  /** The memory once the character behind a word is a NUL. */
  lemma EndOfWord(m: seq<char>, at: nat, word: nat, end: nat)
    requires at <= word <= end < |m| && end < NulAt(m, at) < |m|
    ensures var s, w := CStr(m, at), m[end := '\0'];
            && end - at < |s| && end + 1 < |m|
            && CStr(w, word) == s[word - at..end - at] && CStr(w, end + 1) == Behind(s, end - at)
  {
    CStrFrom(m, at, word - at);
    CStrFrom(m, at, end + 1 - at);
    CStrFrame(m, m[end := '\0'], end + 1);
    CutWord(m, word, end);
  }

  lemma CutWord(m: seq<char>, word: nat, end: nat)
    requires word <= end < |m| && end < NulAt(m, word)
    ensures CStr(m[end := '\0'], word) == CStr(m, word)[..end - word]
  {
    var w, s := m[end := '\0'], CStr(m, word);
    assert w[word..end] == m[word..end] == s[..end - word];
    assert forall c <- s[..end - word] :: c in s;
    CStrIs(w, word, s[..end - word]);
  }

  /** Writes a NUL behind a word that ends at `end` and steps over it; `line` is the text from `at` on, and the word starts
      at its offset `word`. */
  method EndWord(buf: array<char>, ghost at: nat, ghost line: string, ghost word: nat, end: nat) returns (sp: nat)
    requires IsBuffer(buf) && at < buf.Length && line == CStr(buf[..], at) && at + word <= end <= at + |line|
    modifies buf
    ensures IsBuffer(buf) && end <= sp < buf.Length && (end - at < |line| ==> end < sp)
    ensures CStr(buf[..], at + word) == line[word..end - at] && CStr(buf[..], sp) == Behind(line, end - at)
  {
    ghost var m := buf[..];
    sp := end;
    if buf[end] == '\0' {
      LastWord(m, at, at + word, end);
    } else {
      EndOfWord(m, at, at + word, end);
      buf[end] := '\0';
      assert buf[..] == m[end := '\0'];
      sp := end + 1;
    }
  }

  /** Cuts the first word off the line at `at`, where there is a non-blank; None for an unterminated quote. */
  method CutFirstWord(buf: array<char>, at: nat, ghost line: string) returns (arg: Option<nat>, sp: nat)
    requires IsBuffer(buf) && at < buf.Length && buf[at] != '\0' && !IsBlank(buf[at]) && line == CStr(buf[..], at)
    modifies buf
    ensures IsBuffer(buf) && at <= sp < buf.Length
    ensures arg.None? ==> LineWords(line) == Words([], false)
    ensures arg.Some? ==> at < sp && arg.value <= sp && arg.value + |CStr(buf[..], arg.value)| <= sp
                          && LineWords(line) == Cons(CStr(buf[..], arg.value), LineWords(CStr(buf[..], sp)))
  {
    sp, arg := at, None;
    SkipBlank(line);
    var word := FindWord(buf, at);
    if word.Some? {
      var (first, end) := word.value;
      sp := EndWord(buf, at, line, first - at, end);
      arg := Some(first);
    }
  }
}
