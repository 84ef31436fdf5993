/** The two-stage escape pipeline of chat.c: `clean` turns a script string into an intermediate text, and `put_string`
    walks that text writing bytes, pausing and breaking.  The reference reading of a script string is token by token
    and knows nothing of the intermediate text. */
module ChatEscapes {
  import opened CText

  /** Options -E, -T and -U, and the environment. */
  datatype Config = Config(useEnv: bool, phone: Option<string>, phone2: Option<string>, env: map<string, string>)

  /** Substituted texts are C strings. */
  predicate TextsAreStrings(cfg: Config) {
    && (cfg.phone.Some? ==> NoNul(cfg.phone.value)) && (cfg.phone2.Some? ==> NoNul(cfg.phone2.value))
    && forall n <- cfg.env :: NoNul(cfg.env[n])
  }

  predicate NoBackslash(s: string) {
    forall i :: 0 <= i < |s| ==> s[i] != '\\'
  }

  // ---------------------------------------------------------------- tokens of a script string

  datatype Token =
    | Plain(c: char)
    | Ctrl(c: char)          // ^c
    | LoneCaret              // ^ at the end
    | Env(name: string)      // $name, with -E
    | Escape(c: char)        // \c, not an octal digit
    | Octal(v: nat)          // \ooo, one to three digits
    | LoneBackslash          // \ at the end

  predicate IsAlnum(c: char) {
    '0' <= c <= '9' || 'a' <= c <= 'z' || 'A' <= c <= 'Z' || c == '_'
  }

  /** What can follow a `$` as the name of a variable. */
  predicate IsName(n: string) {
    forall i :: 0 <= i < |n| ==> IsAlnum(n[i])
  }

  /** Texts that can be substituted contain no backslash. */
  predicate TextsArePlain(cfg: Config) {
    && (cfg.phone.Some? ==> NoBackslash(cfg.phone.value)) && (cfg.phone2.Some? ==> NoBackslash(cfg.phone2.value))
    && (cfg.useEnv ==> forall n <- cfg.env :: IsName(n) ==> NoBackslash(cfg.env[n]))
  }

  /** The text of a variable is no longer than `$` and its name. */
  predicate TextsAreShort(cfg: Config) {
    cfg.useEnv ==> forall n <- cfg.env :: IsName(n) ==> |cfg.env[n]| <= 1 + |n|
  }

  predicate IsOctal(c: char) {
    '0' <= c <= '7'
  }

  function NameSpan(s: string): (k: nat)
    ensures k <= |s| && IsName(s[..k]) && (k < |s| ==> !IsAlnum(s[k]))
  {
    if s == "" || !IsAlnum(s[0]) then 0
    else
      var k := NameSpan(s[1..]);
      assert forall i :: 1 <= i < k + 1 ==> s[i] == s[1..][..k][i - 1];
      1 + k
  }

  function OctalDigit(c: char): nat
    requires IsOctal(c)
  {
    c as int - '0' as int
  }

  /** Value and number of the octal digits `s` starts with, three at most. */
  function OctalAt(s: string): (r: (nat, nat))
    requires s != "" && IsOctal(s[0])
    ensures 1 <= r.1 <= 3 && r.1 <= |s|
  {
    var a := OctalDigit(s[0]);
    if |s| < 2 || !IsOctal(s[1]) then (a, 1)
    else if |s| < 3 || !IsOctal(s[2]) then (8 * a + OctalDigit(s[1]), 2)
    else (64 * a + 8 * OctalDigit(s[1]) + OctalDigit(s[2]), 3)
  }

  /** The first token and the number of characters it takes. */
  function NextToken(s: string, useEnv: bool): (r: (Token, nat))
    requires s != ""
    ensures 1 <= r.1 <= |s|
  {
    if s[0] == '^' then if |s| == 1 then (LoneCaret, 1) else (Ctrl(s[1]), 2)
    else if useEnv && s[0] == '$' then var k := NameSpan(s[1..]); (Env(s[1..1 + k]), 1 + k)
    else if s[0] != '\\' then (Plain(s[0]), 1)
    else if |s| == 1 then (LoneBackslash, 1)
    else if IsOctal(s[1]) then var (v, k) := OctalAt(s[1..]); (Octal(v), 1 + k)
    else (Escape(s[1]), 2)
  }

  // ---------------------------------------------------------------- the reference interpreter

  datatype Action = Byte(c: char) | Delay | Pause | Break

  function Bytes(t: string): (b: seq<Action>)
    ensures |b| == |t|
  {
    seq(|t|, i requires 0 <= i < |t| => Byte(t[i]))
  }

  /** The text of an option or variable, or what stands for it when there is none. */
  function TextOr(t: Option<string>, otherwise: string): string {
    if t.Some? then t.value else otherwise
  }

  function EnvText(cfg: Config, name: string): string {
    if name in cfg.env then cfg.env[name] else ""
  }

  function EscapeMeaning(c: char, last: bool, cfg: Config): seq<Action> {
    match c
    case 'b' => [Byte(8 as char)]
    case 'c' => if last then [] else [Byte('c')]
    case 'K' => [Break]
    case 'p' => [Pause]
    case 'd' => [Delay]
    case 'T' => Bytes(TextOr(cfg.phone, "T"))
    case 'U' => Bytes(TextOr(cfg.phone2, "U"))
    case 'q' => []
    case 'r' => [Byte('\r')]
    case 'n' => [Byte('\n')]
    case 's' => [Byte(' ')]
    case 't' => [Byte('\t')]
    case 'N' => [Byte('\0')]
    case _ => [Byte(c)]
  }

  /** What sending a token does; `last` says that nothing follows it. */
  function Meaning(t: Token, last: bool, cfg: Config): seq<Action> {
    match t
    case Plain(c) => [Byte(c)]
    case Ctrl(c) => if c as int % 32 == 0 then [] else [Byte((c as int % 32) as char)]
    case LoneCaret => [Byte('^')]
    case Env(name) => Bytes(EnvText(cfg, name))
    case Escape(c) => EscapeMeaning(c, last, cfg)
    case Octal(v) => [Byte((v % 256) as char)]
    case LoneBackslash => [Byte('\\')]
  }

  function Actions(s: string, cfg: Config): seq<Action>
    decreases |s|
  {
    if s == "" then []
    else var (t, n) := NextToken(s, cfg.useEnv); Meaning(t, n == |s|, cfg) + Actions(s[n..], cfg)
  }

  /** Is the last token `\c`? */
  predicate EndsInC(s: string, useEnv: bool)
    decreases |s|
  {
    s != "" && var (t, n) := NextToken(s, useEnv); if n == |s| then t == Escape('c') else EndsInC(s[n..], useEnv)
  }

  /** What sending a script string does: its tokens, then a carriage return unless it ends in `\c`. */
  function Interpret(s: string, cfg: Config): seq<Action> {
    Actions(s, cfg) + if EndsInC(s, cfg.useEnv) then [] else [Byte('\r')]
  }

  // ---------------------------------------------------------------- the intermediate text

  function EscapeCode(c: char, last: bool, sending: bool, cfg: Config): string {
    match c
    case 'b' => [8 as char]
    case 'c' => if sending && last then "" else "c"
    case 'T' => if sending then TextOr(cfg.phone, "\\T") else "\\T"
    case 'U' => if sending then TextOr(cfg.phone2, "\\U") else "\\U"
    case 'q' => ""
    case 'r' => "\r"
    case 'n' => "\n"
    case 's' => " "
    case 't' => "\t"
    case 'N' => if sending then ['\\', '\0'] else "N"
    case _ => if sending && !(c == '$' && cfg.useEnv) then ['\\', c] else [c]
  }

  function Encode(t: Token, last: bool, sending: bool, cfg: Config): string {
    match t
    case Plain(c) => [c]
    case Ctrl(c) => if c as int % 32 == 0 then "" else [(c as int % 32) as char]
    case LoneCaret => "^"
    case Env(name) => EnvText(cfg, name)
    case Escape(c) => EscapeCode(c, last, sending, cfg)
    case Octal(v) =>
      var c := (v % 256) as char;
      if sending then if c == '\\' || c == '\0' then ['\\', c] else [c]
      else if c == '\0' then "" else [c]
    case LoneBackslash => if sending then "\\\\" else ""
  }

  function Body(s: string, sending: bool, cfg: Config): string
    decreases |s|
  {
    if s == "" then ""
    else var (t, n) := NextToken(s, cfg.useEnv); Encode(t, n == |s|, sending, cfg) + Body(s[n..], sending, cfg)
  }

  /** The result of `clean`, before its terminating NUL. */
  function CleanText(s: string, sending: bool, cfg: Config): string {
    Body(s, sending, cfg) + if sending && !EndsInC(s, cfg.useEnv) then "\r" else ""
  }

  // ---------------------------------------------------------------- the decoder in put_string

  function EscapedAction(c: char): Action {
    match c
    case 'd' => Delay
    case 'K' => Break
    case 'p' => Pause
    case _ => Byte(c)
  }

  /** Actions of the decoder over memory, up to the first NUL that is not escaped. */
  function Decode(m: string): seq<Action> {
    if m == "" || m[0] == '\0' then []
    else if m[0] != '\\' then [Byte(m[0])] + Decode(m[1..])
    else if |m| < 2 then []
    else [EscapedAction(m[1])] + Decode(m[2..])
  }

  /** Where the decoder stops: |m| when it would run off the end of the memory. */
  function Stop(m: string): (i: nat)
    ensures i <= |m|
  {
    if m == "" || m[0] == '\0' then 0
    else if m[0] != '\\' then 1 + Stop(m[1..])
    else if |m| < 2 then |m|
    else 2 + Stop(m[2..])
  }

  /** The decoder on one stretch of text followed by anything. */
  ghost predicate DecodesTo(code: string, actions: seq<Action>, rest: string) {
    Decode(code + rest) == actions + Decode(rest) && Stop(code + rest) == |code| + Stop(rest)
  }

  lemma {:induction false} DecodePlain(t: string, rest: string)
    requires NoNul(t) && NoBackslash(t)
    ensures DecodesTo(t, Bytes(t), rest)
    decreases |t|
  {
    if t == "" {
      DecodeNothing(rest);
    } else {
      assert t[0] in t && forall c <- t[1..] :: c in t;
      DecodePlain(t[1..], rest);
      DecodeOne(t[0], t[1..] + rest);
      DecodesConcat([t[0]], [Byte(t[0])], t[1..], Bytes(t[1..]), rest);
      assert [t[0]] + t[1..] == t && [Byte(t[0])] + Bytes(t[1..]) == Bytes(t);
    }
  }

  lemma DecodeOne(c: char, rest: string)
    requires c != '\0' && c != '\\'
    ensures DecodesTo([c], [Byte(c)], rest)
  {
    assert ([c] + rest)[1..] == rest;
  }

  lemma DecodeEscaped(c: char, rest: string)
    ensures DecodesTo(['\\', c], [EscapedAction(c)], rest)
  {
    assert (['\\', c] + rest)[2..] == rest;
  }

  lemma DecodeNothing(rest: string)
    ensures DecodesTo("", [], rest)
  {
    assert "" + rest == rest && [] + Decode(rest) == Decode(rest);
  }

  lemma DecodeText(t: Option<string>, c: char, rest: string)
    requires t.Some? ==> NoNul(t.value) && NoBackslash(t.value)
    requires EscapedAction(c) == Byte(c)
    ensures DecodesTo(TextOr(t, ['\\', c]), Bytes(TextOr(t, [c])), rest)
  {
    if t.Some? {
      DecodePlain(t.value, rest);
    } else {
      DecodeEscaped(c, rest);
      assert Bytes([c]) == [Byte(c)];
    }
  }

  lemma DecodeEscape(c: char, last: bool, cfg: Config, rest: string)
    requires c != '\0' && TextsAreStrings(cfg) && TextsArePlain(cfg)
    ensures DecodesTo(EscapeCode(c, last, true, cfg), EscapeMeaning(c, last, cfg), rest)
  {
    var code := EscapeCode(c, last, true, cfg);
    if c == 'T' {
      DecodeText(cfg.phone, 'T', rest);
    } else if c == 'U' {
      DecodeText(cfg.phone2, 'U', rest);
    } else if code == "" {
      DecodeNothing(rest);
    } else if |code| == 1 {
      DecodeOne(code[0], rest);
    } else {
      DecodeEscaped(code[1], rest);
    }
  }

  /** A token's code decodes to its meaning, whatever follows. */
  lemma DecodeToken(t: Token, last: bool, cfg: Config, rest: string)
    requires TextsAreStrings(cfg) && TextsArePlain(cfg)
    requires t.Plain? ==> t.c != '\0' && t.c != '\\'
    requires t.Escape? ==> t.c != '\0'
    requires t.Env? ==> cfg.useEnv && IsName(t.name)
    ensures DecodesTo(Encode(t, last, true, cfg), Meaning(t, last, cfg), rest)
  {
    match t
    case Plain(c) => DecodeOne(c, rest);
    case Ctrl(c) => if c as int % 32 == 0 { DecodeNothing(rest); } else { DecodeOne((c as int % 32) as char, rest); }
    case LoneCaret => DecodeOne('^', rest);
    case Env(name) => DecodePlain(EnvText(cfg, name), rest);
    case Escape(c) => DecodeEscape(c, last, cfg, rest);
    case Octal(v) =>
      var c := (v % 256) as char;
      if c == '\\' || c == '\0' { DecodeEscaped(c, rest); } else { DecodeOne(c, rest); }
    case LoneBackslash => DecodeEscaped('\\', rest);
  }

  lemma TokenName(s: string, useEnv: bool)
    requires s != ""
    ensures var (t, n) := NextToken(s, useEnv); t.Env? ==> useEnv && IsName(t.name) && n == 1 + |t.name|
  {
    var k := NameSpan(s[1..]);
    assert s[1..1 + k] == s[1..][..k];
  }

  lemma TokenChars(s: string, useEnv: bool)
    requires s != "" && NoNul(s)
    ensures var (t, n) := NextToken(s, useEnv);
            && (t.Plain? ==> t.c != '\0' && t.c != '\\')
            && (t.Escape? ==> t.c != '\0')
            && (t.Ctrl? ==> t.c != '\0')
            && (t.Env? ==> useEnv && IsName(t.name))
            && NoNul(s[n..])
  {
    assert s[0] in s;
    if |s| > 1 { assert s[1] in s; }
    TokenName(s, useEnv);
    assert forall c <- s[NextToken(s, useEnv).1..] :: c in s;
  }

  lemma {:induction false} DecodeBody(s: string, cfg: Config, rest: string)
    requires NoNul(s) && TextsAreStrings(cfg) && TextsArePlain(cfg)
    ensures DecodesTo(Body(s, true, cfg), Actions(s, cfg), rest)
    decreases |s|
  {
    if s == "" {
      DecodeNothing(rest);
    } else {
      TokenChars(s, cfg.useEnv);
      var (t, n) := NextToken(s, cfg.useEnv);
      var more := Body(s[n..], true, cfg);
      DecodeBody(s[n..], cfg, rest);
      DecodeToken(t, n == |s|, cfg, more + rest);
      DecodesConcat(Encode(t, n == |s|, true, cfg), Meaning(t, n == |s|, cfg), more, Actions(s[n..], cfg), rest);
    }
  }

  lemma DecodesConcat(code: string, actions: seq<Action>, more: string, later: seq<Action>, rest: string)
    requires DecodesTo(code, actions, more + rest) && DecodesTo(more, later, rest)
    ensures DecodesTo(code + more, actions + later, rest)
  {
    assert (code + more) + rest == code + (more + rest);
    assert (actions + later) + Decode(rest) == actions + (later + Decode(rest));
  }

  /** The pipeline does what the reference interpreter does, and the decoder stops on clean's own terminator, whatever
      the memory behind it holds. */
  lemma PipelineIsInterpreter(s: string, cfg: Config, behind: string)
    requires NoNul(s) && TextsAreStrings(cfg) && TextsArePlain(cfg)
    ensures var m := CleanText(s, true, cfg) + "\0" + behind;
            Decode(m) == Interpret(s, cfg) && Stop(m) == |CleanText(s, true, cfg)|
  {
    var ends := EndsInC(s, cfg.useEnv);
    var tail, sent := if ends then "" else "\r", if ends then [] else [Byte('\r')];
    var rest := "\0" + behind;
    DecodeBody(s, cfg, tail + rest);
    if ends {
      DecodeNothing(rest);
    } else {
      DecodeOne('\r', rest);
    }
    DecodesConcat(Body(s, true, cfg), Actions(s, cfg), tail, sent, rest);
    assert CleanText(s, true, cfg) == Body(s, true, cfg) + tail && Interpret(s, cfg) == Actions(s, cfg) + sent;
    assert CleanText(s, true, cfg) + "\0" + behind == CleanText(s, true, cfg) + rest;
    assert Interpret(s, cfg) + [] == Interpret(s, cfg);
  }

  lemma AroundNul(m: seq<char>, p: nat)
    requires p < |m| && m[p] == '\0'
    ensures m == m[..p] + "\0" + m[p + 1..]
  {
  }

  /** The same on memory that holds the text and its terminator. */
  lemma PipelineOnMemory(s: string, cfg: Config, m: seq<char>, p: nat)
    requires NoNul(s) && TextsAreStrings(cfg) && TextsArePlain(cfg)
    requires p < |m| && m[..p] == CleanText(s, true, cfg) && m[p] == '\0'
    ensures Decode(m) == Interpret(s, cfg) && Stop(m) == p
  {
    AroundNul(m, p);
    PipelineIsInterpreter(s, cfg, m[p + 1..]);
  }

  /** Encoder and decoder agree with the reference interpreter on this script, with this memory behind the text. */
  ghost predicate Agrees(s: string, cfg: Config, behind: string) {
    var m := CleanText(s, true, cfg) + "\0" + behind;
    Decode(m) == Interpret(s, cfg) && Stop(m) == |CleanText(s, true, cfg)|
  }

  /** A text with a backslash, but none at its end, decodes to fewer actions than it has characters. */
  lemma {:induction false} DecodesToFewer(t: string, behind: string)
    requires NoNul(t) && (t != "" ==> t[|t| - 1] != '\\')
    ensures |Decode(t + ("\0" + behind))| <= if NoBackslash(t) then |t| else |t| - 1
    decreases |t|
  {
    var m := t + ("\0" + behind);
    if t == "" {
      assert m == "\0" + behind;
    } else {
      assert t[0] in t;
      var n := if t[0] == '\\' then 2 else 1;
      assert m[n..] == t[n..] + ("\0" + behind);
      assert forall c <- t[n..] :: c in t;
      DecodesToFewer(t[n..], behind);
    }
  }

  /** A script that is one substituted text. */
  lemma OneToken(s: string, tok: Token, text: string, sending: bool, cfg: Config)
    requires s != "" && NextToken(s, cfg.useEnv) == (tok, |s|) && tok != Escape('c')
    requires Encode(tok, true, sending, cfg) == text
    ensures CleanText(s, sending, cfg) == text + if sending then "\r" else ""
    ensures Interpret(s, cfg) == Meaning(tok, true, cfg) + [Byte('\r')]
  {
    assert s[|s|..] == "" && text + "" == text;
    assert !EndsInC(s, cfg.useEnv);
    assert Body(s, sending, cfg) == text + Body("", sending, cfg) == text;
    assert Actions(s, cfg) == Meaning(tok, true, cfg) + Actions("", cfg) == Meaning(tok, true, cfg);
  }

  lemma BackslashBreaks(s: string, tok: Token, text: string, cfg: Config)
    requires s != "" && NextToken(s, cfg.useEnv) == (tok, |s|) && tok != Escape('c')
    requires Encode(tok, true, true, cfg) == text && Meaning(tok, true, cfg) == Bytes(text)
    requires NoNul(text) && !NoBackslash(text)
    ensures !Agrees(s, cfg, "")
  {
    OneToken(s, tok, text, true, cfg);
    var t := text + "\r";
    var i :| 0 <= i < |text| && text[i] == '\\';
    assert t[i] == '\\';
    DecodesToFewer(t, "");
    assert CleanText(s, true, cfg) + "\0" + "" == t + ("\0" + "");
  }

  lemma NameScript(n: string)
    requires IsName(n)
    ensures NextToken("$" + n, true) == (Env(n), 1 + |n|) && NoNul("$" + n)
  {
    var s := "$" + n;
    assert s[1..] == n && NameSpan(n) == |n| && s[1..1 + |n|] == n;
  }

  /** Sending does what the script says, for all scripts and all memory, exactly when no text that can be substituted
      contains a backslash. */
  lemma AgreesIffPlain(cfg: Config)
    requires TextsAreStrings(cfg)
    ensures (forall s, behind :: NoNul(s) ==> Agrees(s, cfg, behind)) <==> TextsArePlain(cfg)
  {
    if TextsArePlain(cfg) {
      forall s, behind | NoNul(s)
        ensures Agrees(s, cfg, behind)
      {
        PipelineIsInterpreter(s, cfg, behind);
      }
    } else if cfg.phone.Some? && !NoBackslash(cfg.phone.value) {
      BackslashBreaks("\\T", Escape('T'), cfg.phone.value, cfg);
    } else if cfg.phone2.Some? && !NoBackslash(cfg.phone2.value) {
      BackslashBreaks("\\U", Escape('U'), cfg.phone2.value, cfg);
    } else {
      var n :| n in cfg.env && IsName(n) && !NoBackslash(cfg.env[n]);
      NameScript(n);
      BackslashBreaks("$" + n, Env(n), cfg.env[n], cfg);
    }
  }

  // ---------------------------------------------------------------- when the decoder stops

  /** Every backslash escapes a character. */
  predicate Balanced(t: string) {
    t == "" || if t[0] == '\\' then |t| > 1 && Balanced(t[2..]) else t[0] != '\0' && Balanced(t[1..])
  }

  /** In texts that can be substituted every backslash escapes a character. */
  predicate TextsAreBalanced(cfg: Config) {
    && (cfg.phone.Some? ==> Balanced(cfg.phone.value)) && (cfg.phone2.Some? ==> Balanced(cfg.phone2.value))
    && (cfg.useEnv ==> forall n <- cfg.env :: IsName(n) ==> Balanced(cfg.env[n]))
  }

  /** The decoder stops on the terminator of clean. */
  ghost predicate Stops(s: string, cfg: Config, behind: string) {
    Stop(CleanText(s, true, cfg) + ("\0" + behind)) == |CleanText(s, true, cfg)|
  }

  lemma {:induction false} StopBalanced(t: string, rest: string)
    requires Balanced(t)
    ensures Stop(t + rest) == |t| + Stop(rest)
    decreases |t|
  {
    if t == "" {
      assert t + rest == rest;
    } else {
      var n := if t[0] == '\\' then 2 else 1;
      assert (t + rest)[n..] == t[n..] + rest;
      StopBalanced(t[n..], rest);
    }
  }

  /** A text that ends in a dangling backslash swallows what follows. */
  lemma {:induction false} StopUnbalanced(t: string, c: char, behind: string)
    requires NoNul(t) && !Balanced(t)
    ensures Stop(t + ([c] + behind)) == |t| + 1 + Stop(behind)
    decreases |t|
  {
    var m := t + ([c] + behind);
    assert t[0] in t;
    if t == "\\" {
      assert m[2..] == behind;
    } else {
      var n := if t[0] == '\\' then 2 else 1;
      assert m[n..] == t[n..] + ([c] + behind);
      assert forall d <- t[n..] :: d in t;
      StopUnbalanced(t[n..], c, behind);
    }
  }

  lemma {:induction false} BalancedConcat(a: string, b: string)
    requires Balanced(a) && Balanced(b)
    ensures Balanced(a + b)
    decreases |a|
  {
    if a == "" {
      assert a + b == b;
    } else {
      var n := if a[0] == '\\' then 2 else 1;
      assert (a + b)[n..] == a[n..] + b;
      BalancedConcat(a[n..], b);
    }
  }

  lemma BalancedPair(c: char)
    ensures Balanced(['\\', c])
    ensures c != '\\' && c != '\0' ==> Balanced([c])
  {
    assert ['\\', c][2..] == "" && [c][1..] == "";
  }

  lemma EscapeBalanced(c: char, last: bool, cfg: Config)
    requires c != '\0' && TextsAreBalanced(cfg)
    ensures Balanced(EscapeCode(c, last, true, cfg))
  {
    BalancedPair(c);
    var code := EscapeCode(c, last, true, cfg);
    if |code| == 1 {
      BalancedPair(code[0]);
    } else if |code| == 2 && code[0] == '\\' && c != 'T' && c != 'U' {
      BalancedPair(code[1]);
    }
  }

  lemma TokenBalanced(s: string, cfg: Config)
    requires s != "" && NoNul(s) && TextsAreBalanced(cfg)
    ensures var (t, n) := NextToken(s, cfg.useEnv); Balanced(Encode(t, n == |s|, true, cfg)) && NoNul(s[n..])
  {
    TokenChars(s, cfg.useEnv);
    var (t, n) := NextToken(s, cfg.useEnv);
    match t
    case Plain(c) => BalancedPair(c);
    case Ctrl(c) => BalancedPair((c as int % 32) as char);
    case LoneCaret => BalancedPair('^');
    case Env(name) =>
    case Escape(c) => EscapeBalanced(c, n == |s|, cfg);
    case Octal(v) => BalancedPair((v % 256) as char);
    case LoneBackslash => BalancedPair('\\');
  }

  lemma {:induction false} BodyBalanced(s: string, cfg: Config)
    requires NoNul(s) && TextsAreBalanced(cfg)
    ensures Balanced(Body(s, true, cfg))
    decreases |s|
  {
    if s != "" {
      var (t, n) := NextToken(s, cfg.useEnv);
      TokenBalanced(s, cfg);
      BodyBalanced(s[n..], cfg);
      BalancedConcat(Encode(t, n == |s|, true, cfg), Body(s[n..], true, cfg));
    }
  }

  lemma StopsWhenBalanced(s: string, cfg: Config, behind: string)
    requires NoNul(s) && TextsAreBalanced(cfg)
    ensures Stops(s, cfg, behind)
  {
    var tail := if EndsInC(s, cfg.useEnv) then "" else "\r";
    BodyBalanced(s, cfg);
    BalancedPair('\r');
    BalancedConcat(Body(s, true, cfg), tail);
    assert CleanText(s, true, cfg) == Body(s, true, cfg) + tail;
    StopBalanced(CleanText(s, true, cfg), "\0" + behind);
  }

  /** A substituted text sent without a return. */
  lemma TextAlone(s: string, tok: Token, n: nat, text: string, cfg: Config)
    requires s != "" && NextToken(s, cfg.useEnv) == (tok, n) && n < |s| && s[n..] == "\\c"
    requires Encode(tok, false, true, cfg) == text
    ensures CleanText(s, true, cfg) == text
  {
    var c := "\\c";
    assert NextToken(c, cfg.useEnv) == (Escape('c'), 2) && c[2..] == "";
    assert Body(c, true, cfg) == "" + Body("", true, cfg) == "";
    assert EndsInC(s, cfg.useEnv) == EndsInC(c, cfg.useEnv);
    assert text + "" == text;
  }

  lemma DanglingRunsOver(s: string, tok: Token, n: nat, text: string, cfg: Config)
    requires s != "" && NextToken(s, cfg.useEnv) == (tok, n) && n < |s| && s[n..] == "\\c"
    requires Encode(tok, false, true, cfg) == text && NoNul(text) && !Balanced(text)
    ensures !Stops(s, cfg, "")
  {
    TextAlone(s, tok, n, text, cfg);
    StopUnbalanced(text, '\0', "");
    assert "\0" + "" == ['\0'] + "";
  }

  lemma NameAlone(n: string)
    requires IsName(n)
    ensures var s := "$" + (n + "\\c");
            NextToken(s, true) == (Env(n), 1 + |n|) && s[1 + |n|..] == "\\c" && NoNul(s)
  {
    var s := "$" + (n + "\\c");
    assert s[1..] == n + "\\c";
    NameEnds(n, "\\c");
    assert s[1..1 + |n|] == n && s[1 + |n|..] == "\\c";
  }

  lemma {:induction false} NameEnds(n: string, rest: string)
    requires IsName(n) && rest != "" && !IsAlnum(rest[0])
    ensures NameSpan(n + rest) == |n|
    decreases |n|
  {
    if n == "" {
      assert n + rest == rest;
    } else {
      var s, m := n + rest, n[1..];
      assert forall i :: 0 <= i < |m| ==> m[i] == n[i + 1];
      assert s[0] == n[0] && s[1..] == m + rest;
      NameEnds(m, rest);
    }
  }

  /** The decoder stops on the terminator of clean, for all scripts and all memory, exactly when in no text that can be
      substituted a backslash is left dangling. */
  lemma StopsIffBalanced(cfg: Config)
    requires TextsAreStrings(cfg)
    ensures (forall s, behind :: NoNul(s) ==> Stops(s, cfg, behind)) <==> TextsAreBalanced(cfg)
  {
    if TextsAreBalanced(cfg) {
      forall s, behind | NoNul(s)
        ensures Stops(s, cfg, behind)
      {
        StopsWhenBalanced(s, cfg, behind);
      }
    } else if cfg.phone.Some? && !Balanced(cfg.phone.value) {
      assert "\\T\\c"[2..] == "\\c";
      DanglingRunsOver("\\T\\c", Escape('T'), 2, cfg.phone.value, cfg);
    } else if cfg.phone2.Some? && !Balanced(cfg.phone2.value) {
      assert "\\U\\c"[2..] == "\\c";
      DanglingRunsOver("\\U\\c", Escape('U'), 2, cfg.phone2.value, cfg);
    } else {
      var n :| n in cfg.env && IsName(n) && !Balanced(cfg.env[n]);
      NameAlone(n);
      DanglingRunsOver("$" + (n + "\\c"), Env(n), 1 + |n|, cfg.env[n], cfg);
    }
  }

  /** A text may be balanced and not plain: two backslashes stop the decoder but send one. */
  lemma BalancedNotPlain()
    ensures Balanced("\\\\") && !NoBackslash("\\\\")
  {
    BalancedPair('\\');
  }

  /** The shortest such text: a phone number ending in a backslash, sent without a return, swallows
      the terminator. */
  lemma BackslashInNumberRunsOver()
    ensures var cfg := Config(false, Some("\\"), None, map[]);
            var m := CleanText("\\T\\c", true, cfg) + "\0";
            Stop(m) == |m|
  {
    var cfg := Config(false, Some("\\"), None, map[]);
    var s := "\\T\\c";
    assert NextToken(s, false) == (Escape('T'), 2) && s[2..] == "\\c";
    assert NextToken("\\c", false) == (Escape('c'), 2) && "\\c"[2..] == "";
    assert Body("\\c", true, cfg) == "" + Body("", true, cfg) == "";
    assert CleanText(s, true, cfg) == "\\";
    assert ("\\" + "\0")[2..] == "";
  }

  // ---------------------------------------------------------------- waiting against sending

  /** Tokens that mean the same in a word to wait for as in a word to send: all but NULs, a dangling backslash, and the
      escapes for pauses, breaks and numbers; `\c` only at the end of a word is anything special. */
  predicate SameBothWays(t: Token, last: bool) {
    match t
    case Octal(v) => v % 256 != 0
    case Escape(c) => c != 'K' && c != 'p' && c != 'd' && c != 'T' && c != 'U' && c != 'N' && !(c == 'c' && last)
    case LoneBackslash => false
    case _ => true
  }

  predicate AllSame(s: string, useEnv: bool)
    decreases |s|
  {
    s == "" || var (t, n) := NextToken(s, useEnv); SameBothWays(t, n == |s|) && AllSame(s[n..], useEnv)
  }

  lemma BytesConcat(a: string, b: string)
    ensures Bytes(a + b) == Bytes(a) + Bytes(b)
  {
  }

  lemma SameMeaning(t: Token, last: bool, cfg: Config)
    requires SameBothWays(t, last) && (t.Escape? ==> !IsOctal(t.c))
    ensures Bytes(Encode(t, last, false, cfg)) == Meaning(t, last, cfg)
  {
  }

  lemma EscapeNotOctal(s: string, useEnv: bool)
    requires s != ""
    ensures var t := NextToken(s, useEnv).0; t.Escape? ==> !IsOctal(t.c)
  {
  }

  lemma {:induction false} SameBody(s: string, cfg: Config)
    requires AllSame(s, cfg.useEnv)
    ensures Bytes(Body(s, false, cfg)) == Actions(s, cfg) && !EndsInC(s, cfg.useEnv)
    decreases |s|
  {
    if s != "" {
      var (t, n) := NextToken(s, cfg.useEnv);
      EscapeNotOctal(s, cfg.useEnv);
      SameMeaning(t, n == |s|, cfg);
      SameBody(s[n..], cfg);
      BytesConcat(Encode(t, n == |s|, false, cfg), Body(s[n..], false, cfg));
    }
  }

  /** What is waited for is what would be sent, less the return: the two modes of clean agree on every word made of such
      tokens. */
  lemma WaitsForWhatIsSent(s: string, cfg: Config)
    requires AllSame(s, cfg.useEnv)
    ensures Bytes(CleanText(s, false, cfg)) + [Byte('\r')] == Interpret(s, cfg)
  {
    SameBody(s, cfg);
    assert CleanText(s, false, cfg) == Body(s, false, cfg);
  }

  lemma TwoChars(c: char, cfg: Config)
    requires !IsOctal(c)
    ensures var s := ['\\', c];
            && CleanText(s, false, cfg) == EscapeCode(c, true, false, cfg)
            && Actions(s, cfg) == EscapeMeaning(c, true, cfg)
            && AllSame(s, cfg.useEnv) == SameBothWays(Escape(c), true)
  {
    var s := ['\\', c];
    assert NextToken(s, cfg.useEnv) == (Escape(c), 2) && s[2..] == "";
    assert Body(s, false, cfg) == EscapeCode(c, true, false, cfg) + Body("", false, cfg);
    assert Actions(s, cfg) == EscapeMeaning(c, true, cfg) + Actions("", cfg);
  }

  /** What a letter sends: control characters by their codes, a delay, a pause, a break, the numbers, nothing, or itself. */
  lemma LetterSent(c: char, cfg: Config)
    requires !IsOctal(c)
    ensures var a := Actions(['\\', c], cfg);
            && (c == 'b' ==> a == [Byte(8 as char)]) && (c == 't' ==> a == [Byte(9 as char)])
            && (c == 'n' ==> a == [Byte(10 as char)]) && (c == 'r' ==> a == [Byte(13 as char)])
            && (c == 's' ==> a == [Byte(32 as char)]) && (c == 'N' ==> a == [Byte(0 as char)])
            && (c == 'd' ==> a == [Delay]) && (c == 'p' ==> a == [Pause]) && (c == 'K' ==> a == [Break])
            && (c == 'T' ==> a == Bytes(if cfg.phone.Some? then cfg.phone.value else "T"))
            && (c == 'U' ==> a == Bytes(if cfg.phone2.Some? then cfg.phone2.value else "U"))
            && (c == 'q' || c == 'c' ==> a == [])
            && (c !in {'b', 't', 'n', 'r', 's', 'N', 'd', 'p', 'K', 'T', 'U', 'q', 'c'} ==> a == [Byte(c)])
  {
    TwoChars(c, cfg);
  }

  /** What it waits for: letters without a meaning here stand for themselves, numbers are not substituted. */
  lemma LetterAwaited(c: char, cfg: Config)
    requires !IsOctal(c)
    ensures var a := CleanText(['\\', c], false, cfg);
            && (c == 'b' ==> a == [8 as char]) && (c == 't' ==> a == [9 as char])
            && (c == 'n' ==> a == [10 as char]) && (c == 'r' ==> a == [13 as char])
            && (c == 's' ==> a == [32 as char])
            && (c == 'T' || c == 'U' ==> a == ['\\', c]) && (c == 'q' ==> a == "")
            && (c !in {'b', 't', 'n', 'r', 's', 'T', 'U', 'q'} ==> a == [c])
  {
    TwoChars(c, cfg);
  }

  /** The intermediate text of a letter that is sent, as SAY prints it up to a NUL. */
  lemma LetterCoded(c: char, cfg: Config)
    requires !IsOctal(c)
    ensures var t := CleanText(['\\', c], true, cfg);
            && (c == 'b' ==> t == [8 as char, 13 as char]) && (c == 't' ==> t == [9 as char, 13 as char])
            && (c == 'n' ==> t == [10 as char, 13 as char]) && (c == 'r' ==> t == [13 as char, 13 as char])
            && (c == 's' ==> t == [32 as char, 13 as char]) && (c == 'q' ==> t == [13 as char]) && (c == 'c' ==> t == "")
            && (c == '$' ==> t == if cfg.useEnv then ['$', 13 as char] else ['\\', '$', 13 as char])
            && (c == 'N' ==> t == ['\\', 0 as char, 13 as char])
            && (c == 'T' ==> t == (if cfg.phone.Some? then cfg.phone.value else "\\T") + [13 as char])
            && (c == 'U' ==> t == (if cfg.phone2.Some? then cfg.phone2.value else "\\U") + [13 as char])
            && (c !in {'b', 't', 'n', 'r', 's', 'q', 'c', '$', 'N', 'T', 'U'} ==> t == ['\\', c, 13 as char])
  {
    var s := ['\\', c];
    assert NextToken(s, cfg.useEnv) == (Escape(c), 2) && s[2..] == "";
    assert Body(s, true, cfg) == EscapeCode(c, true, true, cfg) + Body("", true, cfg);
    assert EndsInC(s, cfg.useEnv) == (c == 'c');
  }

  /** A backslash at the end and an octal NUL wait for nothing. */
  lemma NothingAwaited(cfg: Config)
    ensures CleanText(['\\'], false, cfg) == "" && CleanText(['\\', '0'], false, cfg) == ""
  {
    var nul, alone := ['\\', '0'], ['\\'];
    assert nul[1..] == ['0'] && NextToken(nul, cfg.useEnv) == (Octal(0), 2) && nul[2..] == "";
    assert Body(nul, false, cfg) == "" + Body("", false, cfg);
    assert NextToken(alone, cfg.useEnv) == (LoneBackslash, 1) && alone[1..] == "";
    assert Body(alone, false, cfg) == "" + Body("", false, cfg);
  }

  /** One token, whatever it is. */
  lemma SingleToken(s: string, tok: Token, cfg: Config)
    requires s != "" && NextToken(s, cfg.useEnv) == (tok, |s|)
    ensures Actions(s, cfg) == Meaning(tok, true, cfg)
  {
    assert s[|s|..] == "" && Meaning(tok, true, cfg) + [] == Meaning(tok, true, cfg);
  }

  /** Octal escapes take up to three digits and are cut to a byte; a fourth digit stands for itself. */
  lemma OctalSent(a: nat, b: nat, c: nat, d: char, cfg: Config)
    requires a < 8 && b < 8 && c < 8
    ensures var x, y, z := ('0' as int + a) as char, ('0' as int + b) as char, ('0' as int + c) as char;
            && Actions(['\\', x, y, z], cfg) == [Byte(((64 * a + 8 * b + c) % 256) as char)]
            && Actions(['\\', y, z], cfg) == [Byte((8 * b + c) as char)] && Actions(['\\', z], cfg) == [Byte(c as char)]
            && NextToken(['\\', x, y, z, d], cfg.useEnv).1 == 4
  {
    var x, y, z := ('0' as int + a) as char, ('0' as int + b) as char, ('0' as int + c) as char;
    assert ['\\', x, y, z][1..] == [x, y, z] && ['\\', y, z][1..] == [y, z] && ['\\', z][1..] == [z];
    assert ['\\', x, y, z, d][1..] == [x, y, z, d];
    SingleToken(['\\', x, y, z], Octal(64 * a + 8 * b + c), cfg);
    SingleToken(['\\', y, z], Octal(8 * b + c), cfg);
    SingleToken(['\\', z], Octal(c), cfg);
  }

  /** `^` and the character `k` places behind `@`, in either case, send control character `k`; `^@` sends nothing. */
  lemma CaretSent(k: nat, cfg: Config)
    requires k < 32
    ensures Actions(['^', (64 + k) as char], cfg) == if k == 0 then [] else [Byte(k as char)]
    ensures Actions(['^', (96 + k) as char], cfg) == if k == 0 then [] else [Byte(k as char)]
    ensures Actions(['^'], cfg) == [Byte('^')]
  {
    SingleToken(['^', (64 + k) as char], Ctrl((64 + k) as char), cfg);
    SingleToken(['^', (96 + k) as char], Ctrl((96 + k) as char), cfg);
    SingleToken(['^'], LoneCaret, cfg);
  }

  /** The name of a variable goes on over letters, digits and underscores, and over none of their neighbours. */
  lemma NamesAre(k: nat)
    ensures k < 26 ==> IsAlnum((97 + k) as char) && IsAlnum((65 + k) as char)
    ensures k < 10 ==> IsAlnum((48 + k) as char)
    ensures IsAlnum('_') && !IsAlnum('/') && !IsAlnum(':') && !IsAlnum('@') && !IsAlnum('[') && !IsAlnum('^')
    ensures !IsAlnum('`') && !IsAlnum('{') && !IsAlnum('-') && !IsAlnum(' ') && !IsAlnum('.')
  {
  }

  /** With -E a variable sends, and waits for, its text; an unknown one nothing. */
  lemma VariableSent(n: string, cfg: Config)
    requires IsName(n) && cfg.useEnv
    ensures var text := if n in cfg.env then cfg.env[n] else "";
            Actions("$" + n, cfg) == Bytes(text) && CleanText("$" + n, false, cfg) == text
  {
    NameScript(n);
    SingleToken("$" + n, Env(n), cfg);
    OneToken("$" + n, Env(n), EnvText(cfg, n), false, cfg);
  }

  // ---------------------------------------------------------------- how long the result can be

  /** Characters by which a token makes `clean` grow its buffer. */
  function Grown(t: Token, sending: bool, cfg: Config): nat {
    if t.Env? then |EnvText(cfg, t.name)|
    else if sending && t == Escape('T') then |TextOr(cfg.phone, "")|
    else if sending && t == Escape('U') then |TextOr(cfg.phone2, "")|
    else 0
  }

  function GrownAll(s: string, sending: bool, cfg: Config): nat
    decreases |s|
  {
    if s == "" then 0
    else var (t, n) := NextToken(s, cfg.useEnv); Grown(t, sending, cfg) + GrownAll(s[n..], sending, cfg)
  }

  /** A token's code is no longer than the token and the growth, but for a final backslash when sending. */
  lemma CodeFits(s: string, sending: bool, cfg: Config)
    requires s != ""
    ensures var (t, n) := NextToken(s, cfg.useEnv);
            |Encode(t, n == |s|, sending, cfg)| <= n + Grown(t, sending, cfg) + if sending && t.LoneBackslash? then 1 else 0
  {
  }

  lemma CodeHasNoNul(s: string, cfg: Config)
    requires s != "" && NoNul(s) && TextsAreStrings(cfg)
    ensures var (t, n) := NextToken(s, cfg.useEnv); NoNul(Encode(t, n == |s|, false, cfg))
  {
    TokenChars(s, cfg.useEnv);
  }

  /** The result of `clean(s, 0)` is a C string. */
  lemma {:induction false} CleanIsString(s: string, cfg: Config)
    requires NoNul(s) && TextsAreStrings(cfg)
    ensures NoNul(CleanText(s, false, cfg))
    decreases |s|
  {
    if s != "" {
      TokenChars(s, cfg.useEnv);
      CodeHasNoNul(s, cfg);
      var (t, n) := NextToken(s, cfg.useEnv);
      CleanIsString(s[n..], cfg);
      var code, more := Encode(t, n == |s|, false, cfg), Body(s[n..], false, cfg);
      assert CleanText(s, false, cfg) == code + more && CleanText(s[n..], false, cfg) == more;
    }
  }

  lemma CodeIsShort(s: string, cfg: Config)
    requires s != "" && TextsAreShort(cfg)
    ensures var (t, n) := NextToken(s, cfg.useEnv); |Encode(t, n == |s|, false, cfg)| <= n
  {
    CodeFits(s, false, cfg);
    TokenName(s, cfg.useEnv);
  }

  /** When no variable outgrows its name the result is no longer than `s`, so the callers' test
      `strlen(s1) > strlen(s)` cannot succeed. */
  lemma {:induction false} CleanNeverLonger(s: string, cfg: Config)
    requires TextsAreShort(cfg)
    ensures |CleanText(s, false, cfg)| <= |s|
    decreases |s|
  {
    if s != "" {
      var (t, n) := NextToken(s, cfg.useEnv);
      CodeIsShort(s, cfg);
      CleanNeverLonger(s[n..], cfg);
      var code, more := Encode(t, n == |s|, false, cfg), Body(s[n..], false, cfg);
      assert CleanText(s, false, cfg) == code + more && CleanText(s[n..], false, cfg) == more;
    }
  }

  /** That is exactly when it never is: without -E, or when every variable a script can name has a text no longer than
      `$` and its name. */
  lemma NeverLongerIff(cfg: Config)
    ensures (forall s :: NoNul(s) ==> |CleanText(s, false, cfg)| <= |s|) <==> TextsAreShort(cfg)
  {
    if TextsAreShort(cfg) {
      forall s | NoNul(s)
        ensures |CleanText(s, false, cfg)| <= |s|
      {
        CleanNeverLonger(s, cfg);
      }
    } else {
      var n :| n in cfg.env && IsName(n) && |cfg.env[n]| > 1 + |n|;
      NameScript(n);
      OneToken("$" + n, Env(n), cfg.env[n], false, cfg);
    }
  }

  /** The smallest kind of text that outgrows its name. */
  lemma VariableMayBeLonger()
    ensures var cfg := Config(true, None, None, map["A" := "long"]);
            |CleanText("$A", false, cfg)| > |"$A"|
  {
    var cfg := Config(true, None, None, map["A" := "long"]);
    var s := "$A";
    assert s[1..] == "A" && "A"[1..] == "" && NameSpan("A") == 1 + NameSpan("");
    assert s[1..1 + 1] == "A";
    assert NextToken(s, true) == (Env("A"), 2) && s[2..] == "";
    assert Body(s, false, cfg) == "long" + Body("", false, cfg);
  }

  /** In general the result fits the buffer `strlen(s) + 3` grown by the substituted texts. */
  lemma {:induction false} BodyFits(s: string, sending: bool, cfg: Config)
    ensures |Body(s, sending, cfg)| <= |s| + GrownAll(s, sending, cfg) + 1
    ensures !(sending && |s| > 0 && s[|s| - 1] == '\\') ==> |Body(s, sending, cfg)| <= |s| + GrownAll(s, sending, cfg)
    decreases |s|
  {
    if s != "" {
      var (t, n) := NextToken(s, cfg.useEnv);
      CodeFits(s, sending, cfg);
      BodyFits(s[n..], sending, cfg);
      assert n < |s| ==> s[n..][|s[n..]| - 1] == s[|s| - 1];
      assert t.LoneBackslash? ==> n == |s| && Body(s[n..], sending, cfg) == "";
    }
  }

  /** And the three spare characters are all needed: a lone backslash fills the buffer to its last character. */
  lemma ThreeSparesAreNeeded(cfg: Config)
    ensures |CleanText("\\", true, cfg)| + 1 == |"\\"| + 3 && GrownAll("\\", true, cfg) == 0
  {
    assert NextToken("\\", cfg.useEnv) == (LoneBackslash, 1) && "\\"[1..] == "";
    assert Body("\\", true, cfg) == "\\\\" + Body("", true, cfg) == "\\\\";
  }

  // ---------------------------------------------------------------- clean

  /** `*p++ = c` */
  method Put(s1: array<char>, p: nat, c: char) returns (q: nat)
    requires p < s1.Length
    modifies s1
    ensures q == p + 1 && s1[..q] == old(s1[..p]) + [c]
  {
    s1[p] := c;
    q := p + 1;
    assert s1[..p] == old(s1[..p]);
  }

  method PutText(s1: array<char>, p: nat, t: string) returns (q: nat)
    requires p + |t| <= s1.Length
    modifies s1
    ensures q == p + |t| && s1[..q] == old(s1[..p]) + t
  {
    q := p;
    for k := 0 to |t|
      invariant q == p + k && s1[..q] == old(s1[..p]) + t[..k]
    {
      q := Put(s1, q, t[k]);
    }
  }

  /** grow: a larger buffer with the same beginning. */
  method Grow(s1: array<char>, p: nat, len: nat) returns (s2: array<char>)
    requires p <= s1.Length <= len
    ensures fresh(s2) && s2.Length == len && s2[..p] == s1[..p]
  {
    s2 := new char[len];
    for k := 0 to p
      invariant s2[..k] == s1[..k]
    {
      s2[k] := s1[k];
    }
  }

  /** Append a substituted text, growing the buffer by its length first. */
  method PutSubstituted(s1: array<char>, p: nat, t: string) returns (s2: array<char>, q: nat)
    requires p <= s1.Length
    ensures fresh(s2) && s2.Length == s1.Length + |t| && q == p + |t| && s2[..q] == s1[..p] + t
  {
    s2 := Grow(s1, p, s1.Length + |t|);
    q := PutText(s2, p, t);
  }

  /** The octal escape at `j`: its value, cut to a character, and the index behind it. */
  method ReadOctal(s: string, j: nat) returns (c: char, k: nat)
    requires j < |s| && IsOctal(s[j])
    ensures var (v, n) := OctalAt(s[j..]); c == (v % 256) as char && k == j + n
  {
    var v := OctalDigit(s[j]);
    k := j + 1;
    if k < |s| && IsOctal(s[k]) {
      v := 8 * v + OctalDigit(s[k]);
      k := k + 1;
      if k < |s| && IsOctal(s[k]) {
        v := 8 * v + OctalDigit(s[k]);
        k := k + 1;
      }
    }
    c := (v % 256) as char;
  }

  /** The switch of `clean` on the character after a backslash, octal escapes apart; `last` says that it ends the
      string. */
  method PutEscape(s1: array<char>, p: nat, c: char, last: bool, sending: bool, cfg: Config)
    returns (s2: array<char>, q: nat, dropReturn: bool)
    requires p + 2 <= s1.Length
    modifies s1
    ensures s2 == s1 || fresh(s2)
    ensures s2.Length == s1.Length + Grown(Escape(c), sending, cfg) && dropReturn == (sending && last && c == 'c')
    ensures q <= s2.Length && s2[..q] == old(s1[..p]) + EscapeCode(c, last, sending, cfg)
  {
    s2, q, dropReturn := s1, p, false;
    match c {
      case 'b' => q := Put(s1, q, 8 as char);
      case 'c' =>
        if sending && last { dropReturn := true; } else { q := Put(s1, q, 'c'); }
      case 'T' =>
        if sending && cfg.phone.Some? { s2, q := PutSubstituted(s1, q, cfg.phone.value); }
        else { q := PutText(s1, q, "\\T"); }
      case 'U' =>
        if sending && cfg.phone2.Some? { s2, q := PutSubstituted(s1, q, cfg.phone2.value); }
        else { q := PutText(s1, q, "\\U"); }
      case 'q' =>
      case 'r' => q := Put(s1, q, '\r');
      case 'n' => q := Put(s1, q, '\n');
      case 's' => q := Put(s1, q, ' ');
      case 't' => q := Put(s1, q, '\t');
      case 'N' =>
        if sending { q := PutText(s1, q, ['\\', '\0']); } else { q := Put(s1, q, 'N'); }
      case _ =>
        if sending && !(c == '$' && cfg.useEnv) { q := Put(s1, q, '\\'); }
        q := Put(s1, q, c);
    }
  }

  /** One turn of the loop in `clean`: token at `i`, code at `p`.  Buffer room: `written + unread + 3 <= len` before
      every turn, and one less only after the turn that ends the string. */
  method CleanTurn(s: string, i: nat, s1: array<char>, p: nat, sending: bool, cfg: Config)
    returns (s2: array<char>, q: nat, j: nat, dropReturn: bool)
    requires i < |s| && p + (|s| - i) + 3 <= s1.Length
    modifies s1
    ensures s2 == s1 || fresh(s2)
    ensures var (t, n) := NextToken(s[i..], cfg.useEnv);
            && dropReturn == (sending && i + n == |s| && t == Escape('c'))
            && j == i + n && s2.Length == s1.Length + Grown(t, sending, cfg)
            && q <= s2.Length && s2[..q] == old(s1[..p]) + Encode(t, j == |s|, sending, cfg)
  {
    s2, q, j, dropReturn := s1, p, i + 1, false;
    var cur := s[i];
    if cur == '^' {
      if j == |s| {
        q := Put(s1, q, '^');
        return;
      }
      cur := (s[j] as int % 32) as char;
      j := j + 1;
      if cur != '\0' {
        q := Put(s1, q, cur);
      }
      return;
    }
    if cfg.useEnv && cur == '$' {
      s2, q, j := CleanVariable(s, i, s1, p, cfg);
      return;
    }
    if cur != '\\' {
      q := Put(s1, q, cur);
      return;
    }
    if j == |s| {
      if sending {
        q := PutText(s1, q, "\\\\");
      }
      return;
    }
    if IsOctal(s[j]) {
      assert s[i..][1..] == s[j..];
      cur, j := ReadOctal(s, j);
      if cur != '\0' || sending {
        if sending && (cur == '\\' || cur == '\0') {
          q := Put(s1, q, '\\');
        }
        q := Put(s1, q, cur);
      }
      return;
    }
    j := j + 1;
    s2, q, dropReturn := PutEscape(s1, q, s[j - 1], j == |s|, sending, cfg);
  }

  /** The branch for `$name`. */
  method CleanVariable(s: string, i: nat, s1: array<char>, p: nat, cfg: Config)
    returns (s2: array<char>, q: nat, j: nat)
    requires i < |s| && p <= s1.Length
    ensures s2 == s1 || fresh(s2)
    ensures var k := NameSpan(s[i..][1..]);
            var text := EnvText(cfg, s[i..][1..1 + k]);
            j == i + 1 + k && s2.Length == s1.Length + |text| && q <= s2.Length && s2[..q] == s1[..p] + text
  {
    s2, q, j := s1, p, i + 1;
    while j < |s| && IsAlnum(s[j])
      invariant i < j <= |s| && NameSpan(s[i + 1..]) == j - i - 1 + NameSpan(s[j..])
    {
      assert s[j..][1..] == s[j + 1..];
      j := j + 1;
    }
    assert s[i..][1..] == s[i + 1..];
    var name := s[i + 1..j];
    assert name == s[i..][1..j - i];
    if name in cfg.env {
      s2, q := PutSubstituted(s1, p, cfg.env[name]);
    } else {
      assert s1[..p] + "" == s1[..p];
    }
  }

  /** Does the string drop its return: decided by the rest, or by the turn that reads its end. */
  predicate EndsAs(before: bool, after: bool, done: bool, dropped: bool) {
    if done then before == dropped else before == after && !dropped
  }

  /** The token at `i`, told on the specification: the text `next` with its code, and the code of the rest. */
  lemma TurnText(s: string, i: nat, j: nat, sending: bool, cfg: Config, out: string, next: string)
    requires i < |s| && j == i + NextToken(s[i..], cfg.useEnv).1
    requires next == out + Encode(NextToken(s[i..], cfg.useEnv).0, j == |s|, sending, cfg)
    ensures j <= |s| && next + Body(s[j..], sending, cfg) == out + Body(s[i..], sending, cfg)
  {
    var todo := s[i..];
    var (t, n) := NextToken(todo, cfg.useEnv);
    var code, rest := Encode(t, n == |todo|, sending, cfg), Body(todo[n..], sending, cfg);
    assert todo[n..] == s[j..] && next == out + code && Body(todo, sending, cfg) == code + rest;
    assert (out + code) + rest == out + (code + rest);
  }

  /** The same on the room it takes and on what becomes of the return. */
  lemma TurnRoom(s: string, i: nat, j: nat, sending: bool, cfg: Config)
    requires i < |s| && j == i + NextToken(s[i..], cfg.useEnv).1
    ensures var t := NextToken(s[i..], cfg.useEnv).0;
            && j <= |s| && GrownAll(s[i..], sending, cfg) == Grown(t, sending, cfg) + GrownAll(s[j..], sending, cfg)
            && EndsAs(sending && EndsInC(s[i..], cfg.useEnv), sending && EndsInC(s[j..], cfg.useEnv), j == |s|,
                      sending && j == |s| && t == Escape('c'))
            && |Encode(t, j == |s|, sending, cfg)| <= (j - i) + Grown(t, sending, cfg) + if j == |s| then 1 else 0
  {
    var todo := s[i..];
    CodeFits(todo, sending, cfg);
    assert todo[j - i..] == s[j..];
  }

  /** CleanTurn, told on what is left of the string: the text so far and the code of the rest make the same whole. */
  method CleanNext(s: string, i: nat, s1: array<char>, p: nat, sending: bool, cfg: Config)
    returns (s2: array<char>, q: nat, j: nat, dropReturn: bool)
    requires i < |s| && p + (|s| - i) + 3 <= s1.Length
    modifies s1
    ensures (s2 == s1 || fresh(s2)) && i < j <= |s| && q + (|s| - j) + (if j < |s| then 3 else 2) <= s2.Length
    ensures s2[..q] + Body(s[j..], sending, cfg) == old(s1[..p]) + Body(s[i..], sending, cfg)
    ensures s2.Length + GrownAll(s[j..], sending, cfg) == s1.Length + GrownAll(s[i..], sending, cfg)
    ensures EndsAs(sending && EndsInC(s[i..], cfg.useEnv), sending && EndsInC(s[j..], cfg.useEnv), j == |s|, dropReturn)
  {
    ghost var out := s1[..p];
    s2, q, j, dropReturn := CleanTurn(s, i, s1, p, sending, cfg);
    TurnText(s, i, j, sending, cfg, out, s2[..q]);
    TurnRoom(s, i, j, sending, cfg);
  }

  /** clean: a fresh buffer holding the intermediate text and its terminator; every write is in bounds. */
  method Clean(s: string, sending: bool, cfg: Config) returns (s1: array<char>, p: nat)
    ensures fresh(s1) && s1.Length == |s| + 3 + GrownAll(s, sending, cfg)
    ensures p < s1.Length && s1[..p] == CleanText(s, sending, cfg) && s1[p] == '\0'
  {
    s1 := new char[|s| + 3];
    p := 0;
    var i := 0;
    var addReturn := sending;
    assert s1[..p] + Body(s, sending, cfg) == Body(s, sending, cfg) && s[i..] == s;
    while i < |s|
      invariant i <= |s| && fresh(s1) && p + (|s| - i) + (if i < |s| then 3 else 2) <= s1.Length
      invariant s1[..p] + Body(s[i..], sending, cfg) == Body(s, sending, cfg)
      invariant s1.Length + GrownAll(s[i..], sending, cfg) == |s| + 3 + GrownAll(s, sending, cfg)
      invariant i < |s| ==> addReturn == sending && (sending ==> EndsInC(s, cfg.useEnv) == EndsInC(s[i..], cfg.useEnv))
      invariant i == |s| ==> addReturn == (sending && !EndsInC(s, cfg.useEnv))
      decreases |s| - i
    {
      var dropReturn;
      s1, p, i, dropReturn := CleanNext(s, i, s1, p, sending, cfg);
      if dropReturn {
        addReturn := false;
      }
    }
    ghost var out := s1[..p];
    assert out + "" == out;
    if addReturn {
      p := Put(s1, p, '\r');
    }
    s1[p] := '\0';
  }

  // ---------------------------------------------------------------- the sending loop

  /** What reaches the line when `room` more bytes can be written: success, the actions done, the room left. */
  function Emit(actions: seq<Action>, room: nat): (bool, seq<Action>, nat) {
    if actions == [] then (true, [], room)
    else if actions[0].Byte? && room == 0 then (false, [], 0)
    else
      var (ok, done, left) := Emit(actions[1..], if actions[0].Byte? then room - 1 else room);
      (ok, [actions[0]] + done, left)
  }

  /** A failed write cuts the actions off right before a byte; nothing else is lost, added or moved. */
  lemma {:induction false} EmitIsPrefix(actions: seq<Action>, room: nat)
    ensures var (ok, done, left) := Emit(actions, room);
            && done <= actions
            && (ok <==> done == actions)
            && (!ok ==> actions[|done|].Byte? && left == 0)
    decreases |actions|
  {
    if actions != [] && !(actions[0].Byte? && room == 0) {
      EmitIsPrefix(actions[1..], if actions[0].Byte? then room - 1 else room);
      assert actions == [actions[0]] + actions[1..];
    }
  }

  /** The loop of put_string over the text `clean` made; writes fail once `room` is used up. */
  method Transmit(m: array<char>, room: nat) returns (ok: bool, sent: seq<Action>, left: nat)
    requires Stop(m[..]) < m.Length
    ensures (ok, sent, left) == Emit(Decode(m[..]), room)
  {
    sent, left := [], room;
    var s := 0;
    ghost var todo := m[..];
    ghost var all := Emit(Decode(todo), left);
    assert [] + all.1 == all.1;
    while m[s] != '\0'
      invariant s <= m.Length && todo == m[s..] && Stop(todo) < |todo|
      invariant Emit(Decode(m[..]), room) == After(sent, Emit(Decode(todo), left))
      decreases m.Length - s
    {
      var c := m[s];
      s := s + 1;
      if c == '\\' {
        c := m[s];
        s := s + 1;
        ghost var a := EscapedAction(c);
        EmitStep(sent, a, Decode(todo[2..]), left);
        todo := todo[2..];
        match c {
          case 'd' => sent := sent + [Delay];
          case 'K' => sent := sent + [Break];
          case 'p' => sent := sent + [Pause];
          case _ =>
            if left == 0 { return false, sent, left; }
            sent, left := sent + [Byte(c)], left - 1;
        }
      } else {
        EmitStep(sent, Byte(c), Decode(todo[1..]), left);
        todo := todo[1..];
        if left == 0 { return false, sent, left; }
        sent, left := sent + [Byte(c)], left - 1;
      }
    }
    assert sent + [] == sent;
    ok := true;
  }

  function After(sent: seq<Action>, r: (bool, seq<Action>, nat)): (bool, seq<Action>, nat) {
    (r.0, sent + r.1, r.2)
  }

  lemma EmitStep(sent: seq<Action>, a: Action, rest: seq<Action>, left: nat)
    ensures After(sent, Emit([a] + rest, left)) ==
            if a.Byte? && left == 0 then (false, sent, 0)
            else After(sent + [a], Emit(rest, if a.Byte? then left - 1 else left))
  {
    assert ([a] + rest)[1..] == rest && ([a] + rest)[0] == a && sent + [] == sent;
    var later := Emit(rest, if a.Byte? && left > 0 then left - 1 else left).1;
    assert sent + ([a] + later) == (sent + [a]) + later;
  }
}
