/** The hex helpers of usim-fcp.c (vgIntToHexChar, vgHexCharToInt, vgHexDataToString, vgStringToHexData). */
module HexCodec {

  /** UINT8, and `char` on the ARM targets, where it is unsigned. */
  type byte = x: int | 0 <= x < 256

  function IntToHexChar(i: byte): char {
    if i <= 9 then (i + '0' as int) as char
    else if i <= 15 then (i - 10 + 'A' as int) as char
    else 255 as char
  }

  function HexCharToInt(ch: char): byte {
    if '0' <= ch <= '9' then ch as int - 48
    else if 'a' <= ch <= 'f' then ch as int - 87
    else if 'A' <= ch <= 'F' then ch as int - 55
    else 255
  }

  predicate IsHexDigit(ch: char) {
    '0' <= ch <= '9' || 'a' <= ch <= 'f' || 'A' <= ch <= 'F'
  }

  /** An even number of hex digits. */
  predicate IsHexText(s: string) {
    |s| % 2 == 0 && forall ch <- s :: IsHexDigit(ch)
  }

  /** `vgHexCharToInt(high) << 4 | vgHexCharToInt(low)`, cut to eight bits: the or with the 0xFF that an
      unrecognised character decodes to leaves only the bits of the other digit that it does not cover. */
  function HexPair(high: char, low: char): byte {
    if !IsHexDigit(low) then 255
    else if !IsHexDigit(high) then 240 + HexCharToInt(low)
    else 16 * HexCharToInt(high) + HexCharToInt(low)
  }

  /** Character `k` of a NUL-terminated text. */
  function TextAt(s: string, k: nat): char {
    if k < |s| then s[k] else '\0'
  }

  /** The bytes of a text: pairs of characters, the last one completed by the terminating NUL if need be. */
  function FromHex(s: string): (d: seq<byte>)
    ensures |d| == (|s| + 1) / 2
  {
    seq((|s| + 1) / 2, k requires 0 <= k < (|s| + 1) / 2 => HexPair(s[2 * k], TextAt(s, 2 * k + 1)))
  }

  function ToHex(d: seq<byte>): (s: string)
    ensures |s| == 2 * |d|
  {
    seq(2 * |d|, k requires 0 <= k < 2 * |d| =>
      if k % 2 == 0 then IntToHexChar(d[k / 2] / 16) else IntToHexChar(d[k / 2] % 16))
  }

  function Upper(ch: char): char {
    if 'a' <= ch <= 'f' then (ch as int - 32) as char else ch
  }

  /** The digits: upper case when printed, either case when read. */
  lemma DigitsAre(i: byte)
    requires i < 16
    ensures IntToHexChar(i) == "0123456789ABCDEF"[i]
    ensures HexCharToInt("0123456789abcdef"[i]) == i && HexCharToInt("0123456789ABCDEF"[i]) == i
  {
  }

  /** The high digit comes first; a character that is no digit sets all bits of its half, and of the other half too when
      it comes second. */
  lemma PairsAre(h: byte, l: byte, bad: char)
    requires h < 16 && l < 16 && !IsHexDigit(bad)
    ensures HexPair("0123456789ABCDEF"[h], "0123456789ABCDEF"[l]) == 16 * h + l
    ensures HexPair(bad, "0123456789ABCDEF"[l]) == 0xF0 + l && HexPair("0123456789ABCDEF"[h], bad) == 0xFF
    ensures ToHex([16 * h + l]) == ["0123456789ABCDEF"[h], "0123456789ABCDEF"[l]]
  {
    DigitsAre(h);
    DigitsAre(l);
    assert (16 * h + l) / 16 == h && (16 * h + l) % 16 == l;
  }

  lemma NibbleRoundTrip(i: byte)
    requires i < 16
    ensures IsHexDigit(IntToHexChar(i)) && HexCharToInt(IntToHexChar(i)) == i
  {
  }

  lemma ToHexAt(d: seq<byte>, k: nat)
    requires k < |d|
    ensures ToHex(d)[2 * k] == IntToHexChar(d[k] / 16) && ToHex(d)[2 * k + 1] == IntToHexChar(d[k] % 16)
  {
    assert (2 * k) / 2 == k && (2 * k) % 2 == 0 && (2 * k + 1) / 2 == k && (2 * k + 1) % 2 == 1;
  }

  lemma ToHexIsHexText(d: seq<byte>)
    ensures IsHexText(ToHex(d))
  {
    var s := ToHex(d);
    forall j: nat | j < |s|
      ensures IsHexDigit(s[j])
    {
      NibbleRoundTrip(d[j / 2] / 16);
      NibbleRoundTrip(d[j / 2] % 16);
    }
  }

  /** Printing bytes and reading them back is the identity. */
  lemma BytesRoundTrip(d: seq<byte>)
    ensures IsHexText(ToHex(d)) && FromHex(ToHex(d)) == d
  {
    ToHexIsHexText(d);
    forall k: nat | k < |d|
      ensures FromHex(ToHex(d))[k] == d[k]
    {
      ToHexAt(d, k);
      NibbleRoundTrip(d[k] / 16);
      NibbleRoundTrip(d[k] % 16);
    }
  }

  /** Reading hex text of either case and printing it back gives the text in upper case. */
  lemma TextRoundTrip(s: string)
    requires IsHexText(s)
    ensures ToHex(FromHex(s)) == seq(|s|, k requires 0 <= k < |s| => Upper(s[k]))
  {
    var d := FromHex(s);
    forall j: nat | j < |s|
      ensures ToHex(d)[j] == Upper(s[j])
    {
      var k := j / 2;
      assert d[k] == HexPair(s[2 * k], s[2 * k + 1]);
      assert IsHexDigit(s[2 * k]) && IsHexDigit(s[2 * k + 1]);
      assert d[k] / 16 == HexCharToInt(s[2 * k]) && d[k] % 16 == HexCharToInt(s[2 * k + 1]);
    }
  }

  /** vgHexDataToString: two digits per byte into the front of `buf`, nothing else touched. */
  method HexDataToString(buf: array<char>, data: array<byte>, length: nat)
    requires length <= data.Length && 2 * length <= buf.Length
    modifies buf
    ensures buf[..2 * length] == ToHex(data[..length])
    ensures buf[2 * length..] == old(buf[2 * length..])
  {
    var j := 0;
    for i := 0 to length
      invariant j == 2 * i
      invariant buf[..2 * i] == ToHex(data[..length])[..2 * i]
      invariant buf[2 * length..] == old(buf[2 * length..])
    {
      ghost var was := buf[..2 * i];
      buf[j] := IntToHexChar(data[i] / 16);
      j := j + 1;
      buf[j] := IntToHexChar(data[i] % 16);
      j := j + 1;
      assert buf[..2 * i] == was;
      assert ToHex(data[..length])[2 * i] == buf[2 * i] by { assert (2 * i) / 2 == i; }
      assert ToHex(data[..length])[2 * i + 1] == buf[2 * i + 1] by { assert (2 * i + 1) / 2 == i; }
    }
    assert ToHex(data[..length])[..2 * length] == ToHex(data[..length]);
  }

  /** vgStringToHexData: for an odd length it also reads the character after the text, its NUL. */
  method StringToHexData(buf: array<char>, length: nat, data: array<byte>)
    requires length < buf.Length && buf[length] == '\0'
    requires (length + 1) / 2 <= data.Length
    modifies data
    ensures data[..(length + 1) / 2] == FromHex(buf[..length])
    ensures data[(length + 1) / 2..] == old(data[(length + 1) / 2..])
  {
    var i, j := 0, 0;
    while j < length
      invariant j == 2 * i <= length + 1
      invariant data[..i] == FromHex(buf[..length])[..i]
      invariant data[(length + 1) / 2..] == old(data[(length + 1) / 2..])
    {
      ghost var was := data[..i];
      assert buf[j + 1] == TextAt(buf[..length], j + 1);
      data[i] := HexPair(buf[j], buf[j + 1]);
      assert data[..i] == was;
      i := i + 1;
      j := j + 2;
    }
  }
}
