/** requestReadBinary of reference-ril.c: one large READ BINARY done as AT+CRSM commands (3GPP TS 27.007
    section 8.18) of at most 255 bytes, whose hex replies are concatenated. */
module ReadBinary {
  import opened CText
  import opened AtTok
  import opened HexCodec

  const BLOCK := 255

  /** AT+CRSM=command,fileid,P1,P2,P3. */
  datatype Crsm = Crsm(command: int, fileid: int, p1: int, p2: int, p3: int)

  /** `Rejected` is a failed command or an ERROR response; the line is the intermediate response otherwise. */
  datatype Response = Rejected | Answer(line: string)

  /** A stretch of the file. */
  datatype Block = Block(pos: nat, length: nat)

  /** How many blocks the loop reads: at least one, even for an empty stretch. */
  function NumBlocks(n: nat): nat
    decreases n
  {
    if n <= BLOCK then 1 else 1 + NumBlocks(n - BLOCK)
  }

  lemma {:induction false} BlockNumber(n: nat, k: nat)
    requires k < NumBlocks(n)
    ensures BLOCK * k <= n && (n - BLOCK * k <= BLOCK <==> k + 1 == NumBlocks(n)) && (n > 0 ==> BLOCK * k < n)
    decreases k
  {
    if k > 0 {
      BlockNumber(n - BLOCK, k - 1);
    }
  }

  function BlockAt(pos: nat, n: nat, k: nat): Block
    requires k < NumBlocks(n)
  {
    BlockNumber(n, k);
    Block(pos + BLOCK * k, if n - BLOCK * k <= BLOCK then n - BLOCK * k else BLOCK)
  }

  /** The blocks are contiguous, 255 long but for the last, and cover exactly the stretch asked for. */
  lemma BlocksCover(pos: nat, n: nat)
    ensures NumBlocks(n) >= 1 && BlockAt(pos, n, 0).pos == pos
    ensures var last := BlockAt(pos, n, NumBlocks(n) - 1); last.pos + last.length == pos + n
    ensures forall k: nat :: k < NumBlocks(n) ==> BlockAt(pos, n, k).length <= 255
    ensures forall k: nat :: k + 1 < NumBlocks(n) ==> BlockAt(pos, n, k).length == 255
    ensures forall k: nat :: k + 1 < NumBlocks(n) ==>
              BlockAt(pos, n, k).pos + BlockAt(pos, n, k).length == BlockAt(pos, n, k + 1).pos
  {
    BlockNumber(n, NumBlocks(n) - 1);
    forall k: nat | k + 1 < NumBlocks(n)
      ensures BlockAt(pos, n, k).pos + BlockAt(pos, n, k).length == BlockAt(pos, n, k + 1).pos
      ensures BlockAt(pos, n, k).length == 255
    {
      BlockNumber(n, k);
    }
  }

  /** Where P1 and P2 start to read. */
  function Position(p1: nat, p2: nat): nat {
    256 * p1 + p2
  }

  function CommandFor(command: int, fileid: int, b: Block): Crsm {
    Crsm(command, fileid, b.pos / 256, b.pos % 256, b.length)
  }

  /** The first `m` commands for a stretch. */
  function Commands(command: int, fileid: int, pos: nat, n: nat, m: nat): (cs: seq<Crsm>)
    requires m <= NumBlocks(n)
    ensures |cs| == m
  {
    if m == 0 then [] else Commands(command, fileid, pos, n, m - 1) + [CommandFor(command, fileid, BlockAt(pos, n, m - 1))]
  }

  /** Commands sent so far are the first ones for the stretch. */
  predicate IsCommands(cs: seq<Crsm>, command: int, fileid: int, pos: nat, n: nat) {
    |cs| <= NumBlocks(n) && cs == Commands(command, fileid, pos, n, |cs|)
  }

  /** The command loop between two blocks: commands sent, position and bytes that remain. */
  predicate Progress(cs: seq<Crsm>, command: int, fileid: int, first: nat, n: nat, pos: int, remain: int) {
    && IsCommands(cs, command, fileid, first, n)
    && (|cs| < NumBlocks(n) ==> pos == first + BLOCK * |cs| && remain == n - BLOCK * |cs|)
    && (|cs| == NumBlocks(n) ==> remain == 0)
  }

  lemma NextCommand(cs: seq<Crsm>, command: int, fileid: int, first: nat, n: nat, pos: int, remain: int, length: int)
    requires Progress(cs, command, fileid, first, n, pos, remain) && |cs| < NumBlocks(n)
    requires length == if remain <= BLOCK then remain else BLOCK
    ensures pos >= 0 && remain >= 0
    ensures var sent := cs + [Crsm(command, fileid, pos / 256, pos % 256, length)];
            && Progress(sent, command, fileid, first, n, pos + length, remain - length)
            && (remain - length <= 0 <==> |sent| == NumBlocks(n))
  {
    BlockNumber(n, |cs|);
    var b := BlockAt(first, n, |cs|);
    assert b == Block(pos, length);
    assert Crsm(command, fileid, pos / 256, pos % 256, length) == CommandFor(command, fileid, b);
    if |cs| + 1 < NumBlocks(n) {
      BlockNumber(n, |cs| + 1);
    }
  }

  /** P1 and P2 are bytes that recombine to the position. */
  lemma CommandAddressesBlock(command: int, fileid: int, b: Block)
    requires b.pos < 65536
    ensures var c := CommandFor(command, fileid, b);
            && 0 <= c.p1 < 256 && 0 <= c.p2 < 256 && 256 * c.p1 + c.p2 == b.pos && c.p3 == b.length
            && c.command == command && c.fileid == fileid
  {
  }

  /** Command `k` addresses block `k`: 255 bytes behind the one before it, from where P1 and P2 of the request point. */
  lemma {:induction false} CommandsInOrder(command: int, fileid: int, p1: nat, p2: nat, n: nat, m: nat, k: nat)
    requires k < m <= NumBlocks(n) && 256 * p1 + p2 + n <= 65536
    ensures var c := Commands(command, fileid, Position(p1, p2), n, m)[k];
            && c.command == command && c.fileid == fileid
            && (256 * p1 + p2 + 255 * k < 65536 ==> 256 * c.p1 + c.p2 == 256 * p1 + p2 + 255 * k)
            && c.p3 == (if k + 1 < NumBlocks(n) then 255 else n - 255 * k)
    decreases m
  {
    if k + 1 < m {
      CommandsInOrder(command, fileid, p1, p2, n, m - 1, k);
    } else {
      BlockNumber(n, k);
    }
  }

  /** The two status words, and the text left; None when one does not parse. */
  function ReadWords(left: Left): (Option<(int, int)>, Left) {
    var (sw1, l1) := NextNumber(left, 10, false, false);
    if sw1.None? then (None, l1)
    else
      var (sw2, l2) := NextNumber(l1, 10, false, false);
      (if sw2.None? then None else Some((sw1.value, sw2.value)), l2)
  }

  /** What a response says: nothing usable, two status words without data, or data. */
  datatype Parsed = Failure | NoData(sw1: int, sw2: int) | Data(sw1: int, sw2: int, text: string)

  function DataAt(words: (int, int), left: Left): Parsed {
    if HasMore(left) then Data(words.0, words.1, NextTok(left).0.value) else NoData(words.0, words.1)
  }

  /** The text after the colon. */
  function ParsedFrom(left: Left): Parsed {
    var (words, rest) := ReadWords(left);
    if words.Some? then DataAt(words.value, rest) else Failure
  }

  function Understand(r: Response): Parsed {
    if r.Rejected? || ':' !in r.line then Failure else ParsedFrom(Some(r.line[IndexOf(r.line, ':') + 1..]))
  }

  function UnderstandAll(rs: seq<Response>): (ps: seq<Parsed>)
    ensures |ps| == |rs|
  {
    seq(|rs|, i requires 0 <= i < |rs| => Understand(rs[i]))
  }

  /** The text that `sr.simResponse` designates after a response: without a data field the pointer stays put. */
  function Designated(p: Parsed, was: string): string {
    if p.Data? then p.text else was
  }

  /** Success, and the text concatenated, of the responses from number `k` on. */
  function Collect(ps: seq<Parsed>, k: nat, was: string): (bool, string)
    requires k <= |ps|
    decreases |ps| - k
  {
    if k == |ps| then (true, "")
    else if ps[k].Failure? then (false, "")
    else Prepend(Designated(ps[k], was), Collect(ps, k + 1, Designated(ps[k], was)))
  }

  function Prepend(text: string, r: (bool, string)): (bool, string) {
    (r.0, text + r.1)
  }

  /** Every text appended on the way fits into `room` characters. */
  predicate TextFits(ps: seq<Parsed>, k: nat, was: string, room: int)
    requires k <= |ps|
    decreases |ps| - k
  {
    k == |ps| || ps[k].Failure? ||
    (|Designated(ps[k], was)| <= room &&
     TextFits(ps, k + 1, Designated(ps[k], was), room - |Designated(ps[k], was)|))
  }

  /** What becomes of the request: an answer with the status words of the last block, an error, or an append that does
      not fit the buffer, which the code does not test for and whose effect is undefined. */
  datatype Result = Success(sw1: int, sw2: int, text: string) | Error | Overrun

  function ResultOf(ps: seq<Parsed>, size: int): Result
    requires ps != []
  {
    if !TextFits(ps, 0, "", size) then Overrun
    else
      var (ok, text) := Collect(ps, 0, "");
      if !ok || ps[|ps| - 1].Failure? then Error else Success(ps[|ps| - 1].sw1, ps[|ps| - 1].sw2, text)
  }

  /** After `k` responses with text `text` in a buffer for `size` characters. */
  predicate LoopState(ps: seq<Parsed>, k: nat, sim: string, text: string, size: int) {
    && k <= |ps| && Collect(ps, 0, "") == Prepend(text, Collect(ps, k, sim))
    && TextFits(ps, 0, "", size) == TextFits(ps, k, sim, size - |text|)
  }

  lemma LoopStart(ps: seq<Parsed>, size: int)
    ensures LoopState(ps, 0, "", "", size)
  {
    assert "" + Collect(ps, 0, "").1 == Collect(ps, 0, "").1;
  }

  lemma LoopStep(ps: seq<Parsed>, k: nat, was: string, text: string, size: int)
    requires LoopState(ps, k, was, text, size) && k < |ps|
    ensures ps[k].Failure? ==> ResultOf(ps, size) == Error
    ensures !ps[k].Failure? ==> var sim := Designated(ps[k], was);
                                if |text + sim| <= size then LoopState(ps, k + 1, sim, text + sim, size)
                                else ResultOf(ps, size) == Overrun
  {
    if !ps[k].Failure? {
      var sim := Designated(ps[k], was);
      var more := Collect(ps, k + 1, sim).1;
      assert text + (sim + more) == (text + sim) + more;
      assert size - |text| - |sim| == size - |text + sim|;
    }
  }

  lemma LoopEnd(ps: seq<Parsed>, k: nat, last: Parsed, sim: string, text: string, size: int)
    requires LoopState(ps, k, sim, text, size) && k == |ps| > 0 && last == ps[k - 1] && !last.Failure?
    ensures ResultOf(ps, size) == Success(last.sw1, last.sw2, text)
  {
    assert text + "" == text;
  }

  /** Memory for one response line. */
  method LineOf(text: string) returns (line: AtLine)
    requires NoNul(text)
    ensures fresh(line) && fresh(line.buf) && line.Valid() && line.Left() == Some(text) && !line.wide
  {
    var buf := new char[|text| + 1](i requires 0 <= i <= |text| => if i < |text| then text[i] else '\0');
    line := new AtLine(buf, false);
    assert buf[..][0..|text|] == text;
    CStrIs(buf[..], 0, text);
  }

  /** strcat into a NUL-terminated buffer with room to spare. */
  method StrCat(dst: array<char>, src: string)
    requires NoNul(src) && |CStr(dst[..], 0)| + |src| < dst.Length
    modifies dst
    ensures CStr(dst[..], 0) == old(CStr(dst[..], 0)) + src
  {
    ghost var was := CStr(dst[..], 0);
    var at := 0;
    while dst[at] != '\0'
      invariant at <= |was| < dst.Length
      decreases |was| - at
    {
      at := at + 1;
    }
    assert at == |was| && dst[..][0..at] == was;
    for i := 0 to |src|
      invariant dst[..][0..at + i] == was + src[..i]
    {
      ghost var m := dst[..][0..at + i];
      dst[at + i] := src[i];
      assert dst[..][0..at + i] == m;
    }
    ghost var m := dst[..][0..at + |src|];
    dst[at + |src|] := '\0';
    assert dst[..][0..at + |src|] == m == was + src;
    CStrIs(dst[..], 0, was + src);
  }

  method ParseLine(line: AtLine) returns (p: Parsed)
    requires line.Valid() && line.Left().Some? && !line.wide
    modifies line`cur, line.buf
    ensures p == Understand(Answer(old(line.Left()).value)) && (p.Data? ==> NoNul(p.text))
  {
    ghost var was := line.Left().value;
    var err := line.Start();
    if err < 0 { return Failure; }
    assert Understand(Answer(was)) == ParsedFrom(line.Left());
    p := ParseFields(line);
  }

  method ParseFields(line: AtLine) returns (p: Parsed)
    requires line.Valid() && !line.wide
    modifies line`cur, line.buf
    ensures p == ParsedFrom(old(line.Left())) && (p.Data? ==> NoNul(p.text))
  {
    var ok, sw1, sw2 := StatusWords(line);
    if !ok { return Failure; }
    ghost var left := line.Left();
    p := NoData(sw1, sw2);
    var more := line.HasMoreTokens();
    if more {
      var text := DataField(line);
      p := Data(sw1, sw2, text);
    }
    assert p == DataAt((sw1, sw2), left);
  }

  method StatusWords(line: AtLine) returns (ok: bool, sw1: int, sw2: int)
    requires line.Valid() && !line.wide
    modifies line`cur, line.buf
    ensures line.Valid() && (if ok then Some((sw1, sw2)) else None, line.Left()) == ReadWords(old(line.Left()))
  {
    sw2 := 0;
    var err;
    err, sw1 := line.NextInt();
    if err < 0 { return false, sw1, sw2; }
    err, sw2 := line.NextInt();
    ok := err >= 0;
  }

  method DataField(line: AtLine) returns (data: string)
    requires line.Valid() && line.cur.Some?
    modifies line`cur, line.buf
    ensures Some(data) == NextTok(old(line.Left())).0 && NoNul(data)
  {
    var err, tok := line.NextStr();
    CStrIs(line.buf[..], tok.value, NextTok(old(line.Left())).0.value);
    data := CStr(line.buf[..], tok.value);
  }

  /** One response: parse it and move the pointer ("" stands for NULL). */
  method Receive(r: Response, was: string) returns (p: Parsed, sim: string)
    requires (r.Answer? ==> NoNul(r.line)) && NoNul(was)
    ensures p == Understand(r) && sim == Designated(p, was) && NoNul(sim)
  {
    sim := was;
    if r.Rejected? {
      return Failure, sim;
    }
    var line := LineOf(r.line);
    p := ParseLine(line);
    if p.Data? {
      sim := p.text;
    }
  }

  /** One response, and its text appended: false when the request is over, by the outcome `end`. */
  method TakeReply(r: Response, was: string, dst: array<char>, ghost ps: seq<Parsed>, ghost k: nat, ghost text: string,
      ghost size: nat)
    returns (p: Parsed, sim: string, live: bool, end: Result)
    requires (r.Answer? ==> NoNul(r.line)) && NoNul(was) && k < |ps| && ps[k] == Understand(r)
    requires dst.Length == size + 1 && text == CStr(dst[..], 0) && LoopState(ps, k, was, text, size)
    modifies dst
    ensures p == ps[k] && NoNul(sim)
    ensures !live ==> end == ResultOf(ps, size) && !end.Success?
    ensures live ==> !p.Failure? && CStr(dst[..], 0) == text + sim && LoopState(ps, k + 1, sim, text + sim, size)
  {
    LoopStep(ps, k, was, text, size);
    p, sim := Receive(r, was);
    live, end := false, Error;
    if p.Failure? {
      return;
    }
    if |CStr(dst[..], 0)| + |sim| >= dst.Length {
      end := Overrun;
      return;
    }
    StrCat(dst, sim);
    live := true;
  }

  /** The next command, and the length of its block. */
  method Send(cmds: seq<Crsm>, command: int, fileid: int, pos: int, remain: int, ghost first: nat, ghost n: nat)
    returns (sent: seq<Crsm>, length: int)
    requires Progress(cmds, command, fileid, first, n, pos, remain) && |cmds| < NumBlocks(n)
    ensures Progress(sent, command, fileid, first, n, pos + length, remain - length) && |sent| == |cmds| + 1
    ensures remain - length <= 0 <==> |sent| == NumBlocks(n)
  {
    length := if remain <= BLOCK then remain else BLOCK;
    NextCommand(cmds, command, fileid, first, n, pos, remain, length);
    sent := cmds + [Crsm(command, fileid, pos / 256, pos % 256, length)];
  }

  /** The command loop: `rs` are the responses of the modem. */
  method RequestReadBinary(command: int, fileid: int, p1: nat, p2: nat, p3: nat, rs: seq<Response>)
    returns (cmds: seq<Crsm>, result: Result)
    requires p2 < 256 && |rs| == NumBlocks(p3)
    requires forall i :: 0 <= i < |rs| && rs[i].Answer? ==> NoNul(rs[i].line)
    ensures result == ResultOf(UnderstandAll(rs), 2 * p3)
    ensures IsCommands(cmds, command, fileid, Position(p1, p2), p3)
    ensures |cmds| >= 1 && (result.Success? ==> |cmds| == NumBlocks(p3))
  {
    var readBinaryResult := new char[2 * p3 + 1](_ => '\0');
    var remain, pos: int := p3, Position(p1, p2);
    var sim, p := "", Failure;
    cmds := [];
    ghost var ps, first, size := UnderstandAll(rs), Position(p1, p2), 2 * p3;
    CStrIs(readBinaryResult[..], 0, "");
    LoopStart(ps, size);
    ghost var k, text, all := 0, "", ResultOf(ps, size);
    while true
      invariant |cmds| < NumBlocks(p3) && Progress(cmds, command, fileid, first, p3, pos, remain)
      invariant text == CStr(readBinaryResult[..], 0) && NoNul(sim) && k == |cmds| && LoopState(ps, k, sim, text, size)
      decreases NumBlocks(p3) - |cmds|
    {
      var length, live;
      cmds, length := Send(cmds, command, fileid, pos, remain, first, p3);
      remain := remain - length;
      p, sim, live, result := TakeReply(rs[|cmds| - 1], sim, readBinaryResult, ps, k, text, size);
      if !live {
        assert result == all;
        return;
      }
      k, text := k + 1, text + sim;
      pos := pos + length;
      if remain <= 0 {
        break;
      }
    }
    LoopEnd(ps, k, p, sim, text, size);
    result := Success(p.sw1, p.sw2, CStr(readBinaryResult[..], 0));
    assert result == all;
  }

  // ---------------------------------------------------------------- failed commands

  /** The token converts to a number. */
  predicate Converts(tok: Option<string>) {
    tok.Some? && StrToLong(tok.value, 10, false, false).Some?
  }

  /** The command did not fail, and the line has a colon and behind it two fields that convert. */
  predicate IsAnswered(r: Response) {
    && r.Answer? && ':' in r.line
    && var first := NextTok(Some(r.line[IndexOf(r.line, ':') + 1..]));
       Converts(first.0) && Converts(NextTok(first.1).0)
  }

  lemma FailureIff(r: Response)
    ensures Understand(r).Failure? <==> !IsAnswered(r)
  {
  }

  lemma {:induction false} CollectFails(ps: seq<Parsed>, k: nat, j: nat, was: string)
    requires k <= j < |ps| && ps[j].Failure?
    ensures !Collect(ps, k, was).0
    decreases j - k
  {
    if k < j && !ps[k].Failure? {
      CollectFails(ps, k + 1, j, Designated(ps[k], was));
    }
  }

  lemma {:induction false} CollectSucceeds(ps: seq<Parsed>, k: nat, was: string)
    requires k <= |ps| && NoFailure(ps)
    ensures Collect(ps, k, was).0
    decreases |ps| - k
  {
    if k < |ps| {
      CollectSucceeds(ps, k + 1, Designated(ps[k], was));
    }
  }

  /** A request succeeds exactly when every command is answered and the texts fit its buffer. */
  lemma SuccessIff(rs: seq<Response>, size: int)
    requires rs != []
    ensures var r := ResultOf(UnderstandAll(rs), size);
            r.Success? <==> TextFits(UnderstandAll(rs), 0, "", size) && forall k :: 0 <= k < |rs| ==> IsAnswered(rs[k])
  {
    var ps := UnderstandAll(rs);
    forall k | 0 <= k < |rs|
      ensures ps[k].Failure? <==> !IsAnswered(rs[k])
    {
      FailureIff(rs[k]);
    }
    if NoFailure(ps) {
      CollectSucceeds(ps, 0, "");
    } else {
      var j :| 0 <= j < |ps| && ps[j].Failure?;
      CollectFails(ps, 0, j, "");
    }
  }

  /** Up to a failed command the replies carry their pieces of the file, so the buffer has room. */
  lemma {:induction false} FitsUntilFailure(ps: seq<Parsed>, n: nat, k: nat, j: nat, was: string, room: int)
    requires k <= j < |ps| == NumBlocks(n) && ps[j].Failure? && room >= 2 * (n - BLOCK * k)
    requires forall i: nat :: i < j ==> ps[i].Data? && |ps[i].text| == 2 * BlockAt(0, n, i).length
    ensures TextFits(ps, k, was, room)
    decreases j - k
  {
    if k < j {
      BlockNumber(n, k);
      BlockNumber(n, k + 1);
      FitsUntilFailure(ps, n, k + 1, j, ps[k].text, room - |ps[k].text|);
    }
  }

  /** A failed command, or an answer that cannot be read, fails the request, however many faithful replies come before
      it. */
  lemma FailedCommandFails(card: seq<byte>, pos: nat, p3: nat, rs: seq<Response>, prefixes: seq<string>,
                           fss: seq<seq<Field>>, j: nat)
    requires pos + p3 <= |card| && j < |rs| == NumBlocks(p3) && |prefixes| == |fss| == j && !IsAnswered(rs[j])
    requires forall k: nat :: k < j ==> Carries(rs[k], Pieces(card, pos, p3)[k], prefixes[k], fss[k])
    ensures ResultOf(UnderstandAll(rs), 2 * p3) == Error
  {
    var ps, ds := UnderstandAll(rs), Pieces(card, pos, p3);
    FailureIff(rs[j]);
    forall k: nat | k < j
      ensures ps[k].Data? && |ps[k].text| == 2 * BlockAt(0, p3, k).length
    {
      FaithfulReply(rs[k], ds[k], prefixes[k], fss[k]);
      BlockNumber(p3, k);
      assert |ds[k]| == BlockAt(pos, p3, k).length == 255;
      HexLength(ps[k].text);
    }
    FitsUntilFailure(ps, p3, 0, j, "", 2 * p3);
    CollectFails(ps, 0, j, "");
  }

  /** A word in which no number starts. */
  predicate NoNumber(w: string) {
    forall i :: 0 <= i < |w| ==> !('0' <= w[i] <= '9')
  }

  lemma NoNumberFails(w: string)
    requires NoNumber(w)
    ensures StrToLong(w, 10, false, false).None?
  {
    var s := SkipSpace(w);
    SkipSpaceSuffix(w);
    var t := AfterSign(w);
    assert forall i :: 0 <= i < |t| ==> t[i] in w;
    assert t != "" ==> t[0] in w;
  }

  lemma {:induction false} SkipSpaceSuffix(w: string)
    ensures |SkipSpace(w)| <= |w| && SkipSpace(w) == w[|w| - |SkipSpace(w)|..]
    decreases |w|
  {
    if w != "" && IsSpace(w[0]) {
      SkipSpaceSuffix(w[1..]);
    }
  }

  /** What is not answered: an error, a line without a colon, a first or second field that is no number. */
  lemma NotAnswered(prefix: string, fs: seq<Field>, line: string)
    requires fs != [] && ':' !in prefix && AllWellFormed(fs) && ':' !in line
    ensures !IsAnswered(Rejected) && !IsAnswered(Answer(line))
    ensures NoNumber(Word(fs[0].body)) ==> !IsAnswered(Answer(Line(prefix, fs)))
    ensures |fs| > 1 && NoNumber(Word(fs[1].body)) ==> !IsAnswered(Answer(Line(prefix, fs)))
    ensures |fs| == 1 ==> !IsAnswered(Answer(Line(prefix, fs)))
  {
    ColonOfLine(prefix, fs);
    TextStep(fs);
    var rest := NextTok(Some(Print(fs))).1;
    if NoNumber(Word(fs[0].body)) {
      NoNumberFails(Word(fs[0].body));
    }
    if |fs| > 1 {
      TextStep(fs[1..]);
      if NoNumber(Word(fs[1].body)) {
        NoNumberFails(Word(fs[1].body));
      }
    } else {
      assert !HasMore(rest);
      assert rest.Some? ==> NextTok(rest).0 == Some("");
      NoNumberFails("");
    }
  }

  // ---------------------------------------------------------------- replies without data

  predicate NoFailure(ps: seq<Parsed>) {
    forall k :: 0 <= k < |ps| ==> !ps[k].Failure?
  }

  /** The data fields from response `k` on, put together. */
  function DataTexts(ps: seq<Parsed>, k: nat): string
    requires k <= |ps|
    decreases |ps| - k
  {
    if k == |ps| then "" else (if ps[k].Data? then ps[k].text else "") + DataTexts(ps, k + 1)
  }

  /** The text `sr.simResponse` designates when response `k` comes in. */
  function Before(ps: seq<Parsed>, k: nat): string
    requires k <= |ps|
  {
    if k == 0 then "" else Designated(ps[k - 1], Before(ps, k - 1))
  }

  /** No reply without data finds the text of an earlier reply still designated. */
  predicate NeverStale(ps: seq<Parsed>) {
    forall k :: 0 <= k < |ps| && ps[k].NoData? ==> Before(ps, k) == ""
  }

  lemma PrependSame(text: string, a: string, b: string)
    ensures text + a == text + b <==> a == b
  {
    assert (text + a)[|text|..] == a && (text + b)[|text|..] == b;
  }

  lemma {:induction false} CollectFrom(ps: seq<Parsed>, k: nat)
    requires k <= |ps| && NoFailure(ps)
    ensures var (ok, text) := Collect(ps, k, Before(ps, k));
            && ok && |text| >= |DataTexts(ps, k)|
            && (text == DataTexts(ps, k) <==> forall j :: k <= j < |ps| && ps[j].NoData? ==> Before(ps, j) == "")
    decreases |ps| - k
  {
    if k < |ps| {
      CollectFrom(ps, k + 1);
      var sim := Before(ps, k + 1);
      PrependSame(sim, Collect(ps, k + 1, sim).1, DataTexts(ps, k + 1));
    }
  }

  /** The text collected is that of the data fields exactly when no reply is stale. */
  lemma CollectsDataIff(ps: seq<Parsed>)
    requires NoFailure(ps)
    ensures Collect(ps, 0, "").0 && (Collect(ps, 0, "").1 == DataTexts(ps, 0) <==> NeverStale(ps))
  {
    CollectFrom(ps, 0);
  }

  /** No data field is longer than the hex of its block. */
  predicate WithinBlocks(ps: seq<Parsed>, n: nat) {
    |ps| == NumBlocks(n) && forall k: nat :: k < |ps| && ps[k].Data? ==> |ps[k].text| <= 2 * BlockAt(0, n, k).length
  }

  lemma {:induction false} FitsFrom(ps: seq<Parsed>, n: nat, k: nat, room: int)
    requires k <= |ps| && WithinBlocks(ps, n) && NeverStale(ps)
    requires k < |ps| ==> BLOCK * k <= n && room >= 2 * (n - BLOCK * k)
    ensures TextFits(ps, k, Before(ps, k), room)
    decreases |ps| - k
  {
    if k < |ps| && !ps[k].Failure? {
      BlockNumber(n, k);
      if k + 1 < |ps| {
        BlockNumber(n, k + 1);
      }
      FitsFrom(ps, n, k + 1, room - |Before(ps, k + 1)|);
    }
  }

  /** The request returns the data of the replies, with the last status words, exactly when no reply is stale; then the
      buffer is large enough. */
  lemma ReturnsDataIff(ps: seq<Parsed>, n: nat)
    requires NoFailure(ps) && WithinBlocks(ps, n)
    ensures ResultOf(ps, 2 * n) == Success(ps[|ps| - 1].sw1, ps[|ps| - 1].sw2, DataTexts(ps, 0)) <==> NeverStale(ps)
    ensures NeverStale(ps) ==> TextFits(ps, 0, "", 2 * n)
  {
    CollectsDataIff(ps);
    if NeverStale(ps) {
      FitsFrom(ps, n, 0, 2 * n);
    }
  }

  /** A request of two blocks whose second reply has no data: the first text twice if that fits, else an overrun. */
  lemma SecondReplyStale(a: Parsed, b: Parsed, n: nat)
    requires NumBlocks(n) == 2 && a.Data? && b.NoData?
    ensures ResultOf([a, b], 2 * n) == if |a.text| <= n then Success(b.sw1, b.sw2, a.text + a.text) else Overrun
  {
    var ps := [a, b];
    assert Collect(ps, 1, a.text) == Prepend(a.text, Collect(ps, 2, a.text));
    assert a.text + "" == a.text;
    assert TextFits(ps, 1, a.text, 2 * n - |a.text|) == (|a.text| <= 2 * n - |a.text|);
  }

  // ---------------------------------------------------------------- a faithful card

  /** The reply carries exactly the block's hex, quoted or bare, in either case; for an empty block the data field may
      be missing. */
  predicate Carries(r: Response, data: seq<byte>, prefix: string, fs: seq<Field>) {
    && r.Answer? && ':' !in prefix && (|fs| == 3 || (|fs| == 2 && data == [])) && AllWellFormed(fs)
    && r.line == Line(prefix, fs) && fs[0].body.Num? && fs[1].body.Num?
    && (|fs| == 3 ==> (fs[2].body.Quoted? || fs[2].body.Bare?) && IsHexText(Word(fs[2].body)) &&
                      FromHex(Word(fs[2].body)) == data)
  }

  lemma WordsStep(fs: seq<Field>)
    requires |fs| >= 2 && AllWellFormed(fs) && fs[0].body.Num? && fs[1].body.Num?
    ensures var (ok, left) := ReadWords(Some(Print(fs)));
            ok == Some((fs[0].body.v, fs[1].body.v)) && (if |fs| > 2 then left == Some(Print(fs[2..])) else !HasMore(left))
  {
    NumberStep(fs, false);
    NumberStep(fs[1..], false);
    assert |fs| > 2 ==> fs[1..][1..] == fs[2..];
  }

  /** A reply with two status words has data exactly when a third field is there and not empty. */
  lemma ReplySays(prefix: string, fs: seq<Field>)
    requires ':' !in prefix && |fs| >= 2 && AllWellFormed(fs) && fs[0].body.Num? && fs[1].body.Num?
    ensures Understand(Answer(Line(prefix, fs))) ==
            if |fs| == 2 || (|fs| == 3 && PrintField(fs[2]) == "") then NoData(fs[0].body.v, fs[1].body.v)
            else Data(fs[0].body.v, fs[1].body.v, Word(fs[2].body))
  {
    ColonOfLine(prefix, fs);
    WordsStep(fs);
    if |fs| >= 3 {
      TextStep(fs[2..]);
      HasMoreBeforeField(fs[2..]);
    }
  }

  /** A faithful reply yields hex text of the block, and its status words. */
  lemma FaithfulReply(r: Response, data: seq<byte>, prefix: string, fs: seq<Field>)
    requires Carries(r, data, prefix, fs)
    ensures IsHexOf(Understand(r), data)
    ensures Understand(r).sw1 == fs[0].body.v && Understand(r).sw2 == fs[1].body.v
  {
    ColonOfLine(prefix, fs);
    WordsStep(fs);
    if |fs| == 3 {
      TextStep(fs[2..]);
      HasMoreBeforeField(fs[2..]);
    }
  }

  predicate IsHexOf(p: Parsed, data: seq<byte>) {
    (p.Data? && IsHexText(p.text) && FromHex(p.text) == data) || (p.NoData? && data == [])
  }

  lemma FromHexConcat(a: string, b: string)
    requires IsHexText(a) && IsHexText(b)
    ensures IsHexText(a + b) && FromHex(a + b) == FromHex(a) + FromHex(b)
  {
    var c := a + b;
    forall i | 0 <= i < |c|
      ensures IsHexDigit(c[i])
    {
      assert if i < |a| then c[i] in a else c[i] in b;
    }
    forall k: nat | k < |c| / 2
      ensures FromHex(c)[k] == (FromHex(a) + FromHex(b))[k]
    {
      if k < |a| / 2 {
        assert TextAt(c, 2 * k + 1) == TextAt(a, 2 * k + 1);
      } else {
        var j := k - |a| / 2;
        assert c[2 * k] == b[2 * j] && TextAt(c, 2 * k + 1) == TextAt(b, 2 * j + 1);
      }
    }
  }

  function Concat(ds: seq<seq<byte>>, k: nat): seq<byte>
    requires k <= |ds|
    decreases |ds| - k
  {
    if k == |ds| then [] else ds[k] + Concat(ds, k + 1)
  }

  lemma HexLength(s: string)
    requires IsHexText(s)
    ensures |s| == 2 * |FromHex(s)|
  {
  }

  /** Success, with the text of exactly these bytes. */
  predicate IsHexResult(r: (bool, string), data: seq<byte>) {
    r.0 && IsHexText(r.1) && FromHex(r.1) == data && |r.1| == 2 * |data|
  }

  /** Responses with the hex of successive pieces accumulate to the hex of their concatenation. */
  lemma {:induction false} CollectsHex(ds: seq<seq<byte>>, ps: seq<Parsed>, k: nat, was: string)
    requires k <= |ps| == |ds| && forall i :: 0 <= i < |ps| ==> ps[i].Data? && IsHexOf(ps[i], ds[i])
    ensures IsHexResult(Collect(ps, k, was), Concat(ds, k)) && TextFits(ps, k, was, 2 * |Concat(ds, k)|)
    decreases |ps| - k
  {
    if k < |ps| {
      assert IsHexOf(ps[k], ds[k]);
      var sim := ps[k].text;
      CollectsHex(ds, ps, k + 1, sim);
      FromHexConcat(sim, Collect(ps, k + 1, sim).1);
      HexLength(sim);
    }
  }

  /** The bytes of a block that lies in the file. */
  function BytesOf(card: seq<byte>, b: Block): seq<byte> {
    if b.pos + b.length <= |card| then card[b.pos..b.pos + b.length] else []
  }

  function Pieces(card: seq<byte>, pos: nat, n: nat): (ds: seq<seq<byte>>)
    ensures |ds| == NumBlocks(n)
  {
    seq(NumBlocks(n), k requires 0 <= k < NumBlocks(n) => BytesOf(card, BlockAt(pos, n, k)))
  }

  lemma SliceSplit(card: seq<byte>, lo: nat, mid: nat, hi: nat)
    requires lo <= mid <= hi <= |card|
    ensures card[lo..hi] == card[lo..mid] + card[mid..hi]
  {
  }

  /** The blocks put together are the stretch. */
  lemma {:induction false} PiecesCover(card: seq<byte>, pos: nat, n: nat, k: nat)
    requires k < NumBlocks(n) && pos + n <= |card|
    ensures BLOCK * k <= n && Concat(Pieces(card, pos, n), k) == card[pos + BLOCK * k..pos + n]
    decreases NumBlocks(n) - k
  {
    var ds := Pieces(card, pos, n);
    BlockNumber(n, k);
    var lo, mid, hi := pos + BLOCK * k, pos + BLOCK * k + BlockAt(pos, n, k).length, pos + n;
    assert BytesOf(card, BlockAt(pos, n, k)) == card[lo..mid];
    if k + 1 < NumBlocks(n) {
      PiecesCover(card, pos, n, k + 1);
      assert mid == pos + BLOCK * (k + 1);
      SliceSplit(card, lo, mid, hi);
    } else {
      assert mid == hi && Concat(ds, k + 1) == [];
      LastPiece(card[lo..mid]);
    }
  }

  lemma LastPiece(d: seq<byte>)
    ensures d + [] == d
  {
  }

  /** Every reply is faithful to its block of the file: reply `k` has prefix `prefixes[k]` and fields `fss[k]`. */
  predicate Faithful(ds: seq<seq<byte>>, rs: seq<Response>, prefixes: seq<string>, fss: seq<seq<Field>>) {
    |rs| == |prefixes| == |fss| == |ds| && forall k :: 0 <= k < |rs| ==> Carries(rs[k], ds[k], prefixes[k], fss[k])
  }

  /** Every response has the hex of its piece. */
  predicate AllHexOf(ps: seq<Parsed>, ds: seq<seq<byte>>) {
    |ps| == |ds| && forall k :: 0 <= k < |ps| ==> IsHexOf(ps[k], ds[k])
  }

  lemma FaithfulAll(ds: seq<seq<byte>>, rs: seq<Response>, prefixes: seq<string>, fss: seq<seq<Field>>)
    requires Faithful(ds, rs, prefixes, fss)
    ensures AllHexOf(UnderstandAll(rs), ds)
  {
    forall k | 0 <= k < |rs|
      ensures IsHexOf(UnderstandAll(rs)[k], ds[k])
    {
      FaithfulReply(rs[k], ds[k], prefixes[k], fss[k]);
    }
  }

  /** Only an empty stretch may come without data. */
  lemma DataUnlessEmpty(card: seq<byte>, pos: nat, n: nat, ps: seq<Parsed>)
    requires pos + n <= |card| && AllHexOf(ps, Pieces(card, pos, n))
    ensures (n == 0 && ps[0].NoData?) || forall i :: 0 <= i < |ps| ==> ps[i].Data?
  {
    var ds := Pieces(card, pos, n);
    forall i | 0 <= i < |ps| && n > 0
      ensures ps[i].Data?
    {
      BlockNumber(n, i);
      assert IsHexOf(ps[i], ds[i]) && |ds[i]| == BlockAt(pos, n, i).length;
    }
    assert IsHexOf(ps[0], ds[0]);
  }

  /** The same on what the responses say. */
  lemma SliceFromParsed(card: seq<byte>, pos: nat, n: nat, ps: seq<Parsed>)
    requires pos + n <= |card| && AllHexOf(ps, Pieces(card, pos, n))
    ensures IsHexResult(Collect(ps, 0, ""), card[pos..pos + n]) && TextFits(ps, 0, "", 2 * n)
  {
    DataUnlessEmpty(card, pos, n, ps);
    if n == 0 && ps[0].NoData? {
      assert Collect(ps, 0, "") == Prepend("", (true, ""));
    } else {
      PiecesCover(card, pos, n, 0);
      CollectsHex(Pieces(card, pos, n), ps, 0, "");
    }
  }

  /** One big read: for every stretch of a file of up to 65536 bytes, faithful replies make the request succeed with
      the hex of exactly that stretch, within the 2 * p3 + 1 bytes allocated, and the status words of the last reply. */
  lemma ReadsTheSlice(card: seq<byte>, pos: nat, p3: nat, rs: seq<Response>, prefixes: seq<string>,
      fss: seq<seq<Field>>)
    requires pos + p3 <= |card| <= 65536
    requires Faithful(Pieces(card, pos, p3), rs, prefixes, fss)
    ensures var r := ResultOf(UnderstandAll(rs), 2 * p3);
            && r.Success? && IsHexResult((true, r.text), card[pos..pos + p3])
            && r.sw1 == fss[|fss| - 1][0].body.v && r.sw2 == fss[|fss| - 1][1].body.v
  {
    var ds, ps, last := Pieces(card, pos, p3), UnderstandAll(rs), |rs| - 1;
    FaithfulAll(ds, rs, prefixes, fss);
    SliceFromParsed(card, pos, p3, ps);
    FaithfulReply(rs[last], ds[last], prefixes[last], fss[last]);
  }

  /** An answer with two status words and, if any, a data field. */
  function PlainAnswer(sw1: int, sw2: int, data: Option<string>): seq<Field> {
    [Field("", Num(sw1, false)), Field("", Num(sw2, false))] +
    if data.Some? then [Field("", Quoted(data.value))] else []
  }

  lemma PlainAnswerSays(sw1: int, sw2: int, data: Option<string>)
    requires WellFormedBody(Num(sw1, false)) && WellFormedBody(Num(sw2, false))
    requires data.Some? ==> WellFormedBody(Quoted(data.value))
    ensures Understand(Answer(Line("+CRSM", PlainAnswer(sw1, sw2, data)))) ==
            if data.Some? then Data(sw1, sw2, data.value) else NoData(sw1, sw2)
  {
    var fs := PlainAnswer(sw1, sw2, data);
    ColonOfLine("+CRSM", fs);
    WordsStep(fs);
    if data.Some? {
      TextStep(fs[2..]);
      HasMoreBeforeField(fs[2..]);
    }
  }

  lemma PlainAnswerCarries(data: seq<byte>)
    requires IsHexText(ToHex(data)) && FromHex(ToHex(data)) == data && WellFormedBody(Quoted(ToHex(data)))
    ensures var fs := PlainAnswer(144, 0, Some(ToHex(data))); Carries(Answer(Line("+CRSM", fs)), data, "+CRSM", fs)
  {
  }

  lemma UnderstandTwo(a: Response, b: Response)
    ensures UnderstandAll([a, b]) == [Understand(a), Understand(b)]
  {
  }

  /** A request of two blocks answered with data and then without. */
  lemma TwoAnswers(first1: int, first2: int, text: string, sw1: int, sw2: int, n: nat)
    requires WellFormedBody(Num(first1, false)) && WellFormedBody(Num(first2, false)) && WellFormedBody(Quoted(text))
    requires WellFormedBody(Num(sw1, false)) && WellFormedBody(Num(sw2, false)) && NumBlocks(n) == 2
    ensures var rs := [Answer(Line("+CRSM", PlainAnswer(first1, first2, Some(text)))),
                       Answer(Line("+CRSM", PlainAnswer(sw1, sw2, None)))];
            ResultOf(UnderstandAll(rs), 2 * n) == if |text| <= n then Success(sw1, sw2, text + text) else Overrun
  {
    var a, b := Answer(Line("+CRSM", PlainAnswer(first1, first2, Some(text)))), Answer(Line("+CRSM", PlainAnswer(sw1, sw2, None)));
    PlainAnswerSays(first1, first2, Some(text));
    PlainAnswerSays(sw1, sw2, None);
    UnderstandTwo(a, b);
    SecondReplyStale(Understand(a), Understand(b), n);
  }

  /** A read of 256 bytes: the first reply carries its 255 bytes, the second one only status words, as after an error.
      The code appends the first 510 digits again, beyond the 513 bytes allocated. */
  lemma StaleReplyOverruns(data: seq<byte>, sw1: int, sw2: int)
    requires |data| == 255 && WellFormedBody(Num(sw1, false)) && WellFormedBody(Num(sw2, false))
    ensures var first := PlainAnswer(144, 0, Some(ToHex(data)));
            var rs := [Answer(Line("+CRSM", first)), Answer(Line("+CRSM", PlainAnswer(sw1, sw2, None)))];
            && |rs| == NumBlocks(256) && Carries(rs[0], data, "+CRSM", first)
            && ResultOf(UnderstandAll(rs), 2 * 256) == Overrun
  {
    var digits := ToHex(data);
    var first := PlainAnswer(144, 0, Some(digits));
    BytesRoundTrip(data);
    HexIsPlain(digits);
    PlainAnswerCarries(data);
    assert NumBlocks(256) == 1 + NumBlocks(1);
    TwoAnswers(144, 0, digits, sw1, sw2, 256);
  }

  lemma HexIsPlain(s: string)
    requires IsHexText(s)
    ensures '"' !in s && NoNul(s)
  {
    assert forall c <- s :: IsHexDigit(c);
  }
}
