/** The window that get_string of chat.c keeps of what it has received: the last characters, up to STR_LEN of them. */
module ChatWindow {

  const STR_LEN := 1024
  const FAIL_BUFFER := 50

  predicate EndsWith(h: string, p: string) {
    |p| <= |h| && h[|h| - |p|..] == p
  }

  /** The first `s` characters of the buffer are the last ones received, all of them or at least `need`. */
  ghost predicate Window(m: seq<char>, s: nat, h: string, need: nat) {
    s <= |m| && s <= |h| && m[..s] == h[|h| - s..] && (s == |h| || s >= need)
  }

  /** A window of `need` characters decides about every string of at most that length. */
  lemma WindowDecides(m: seq<char>, s: nat, h: string, need: nat, p: string)
    requires Window(m, s, h, need) && |p| <= need
    ensures (s >= |p| && m[s - |p|..s] == p) <==> EndsWith(h, p)
  {
    if s >= |p| {
      assert m[s - |p|..s] == m[..s][s - |p|..] == h[|h| - s..][s - |p|..] == h[|h| - |p|..];
    }
  }

  lemma WindowGrows(m: seq<char>, s: nat, h: string, need: nat, c: char)
    requires Window(m, s, h, need) && s < |m|
    ensures Window(m[s := c], s + 1, h + [c], need + 1)
  {
    assert m[s := c][..s + 1] == m[..s] + [c] == h[|h| - s..] + [c];
    assert (h + [c])[|h| - s..] == h[|h| - s..] + [c];
  }
}
