/** usim-fcp.c: the FCP template of a USIM file (TS 102 221 section 11.1.1.3.1) turned into the status bytes of
    a 2G SIM file (GSM 11.11 section 9.2.1).  The decoder walks the template with an eight-bit offset. */
module UsimFcp {
  import opened HexCodec

  const FCP_TAG: byte := 0x62
  const SIZE_TAG: byte := 0x80
  const DESCRIPTOR_TAG: byte := 0x82
  const ID_TAG: byte := 0x83
  const LIFE_CYCLE_TAG: byte := 0x8A

  const STRUCT_T := 0
  const STRUCT_LF := 1
  const STRUCT_C := 3
  const TYPE_DF := 2
  const TYPE_EF := 4

  type uint16 = x: int | 0 <= x < 65536

  /** The fields of SimEfStatusData that the decoder writes; the last two are enums. */
  datatype Status = Status(fileId: uint16, fileSize: uint16, validated: bool, recordLength: byte,
                           numberOfRecords: byte, structure: int, fileType: int)

  function Combine(high: byte, low: byte): uint16 {
    256 * high + low
  }

  // ---------------------------------------------------------------- the abstract template

  datatype Tlv = Tlv(tag: byte, value: seq<byte>)

  predicate KnownTag(tag: byte) {
    tag == SIZE_TAG || tag == DESCRIPTOR_TAG || tag == ID_TAG || tag == LIFE_CYCLE_TAG
  }

  /** BER lengths: known objects have one-byte lengths, others one byte or the 81 form. */
  predicate WellFormed(t: Tlv) {
    |t.value| < 256 && (KnownTag(t.tag) ==> |t.value| <= 127) && (t.tag == DESCRIPTOR_TAG ==> |t.value| >= 1)
  }

  function StructureOf(code: byte, otherwise: int): int {
    if code % 8 == 1 then STRUCT_T else if code % 8 == 2 then STRUCT_LF else if code % 8 == 6 then STRUCT_C else otherwise
  }

  function TypeOf(code: byte, otherwise: int): int {
    if code / 8 % 8 <= 1 then TYPE_EF else if code / 8 % 8 == 7 then TYPE_DF else otherwise
  }

  /** Life cycle bytes 04 and 06 mean deactivated: `(v & 0xFD) != 0x04`. */
  predicate Activated(v: byte) {
    v != 4 && v != 6
  }

  /** What one data object says about the file. */
  function Meaning(st: Status, t: Tlv): Status
    requires WellFormed(t)
  {
    var v := t.value;
    if t.tag == SIZE_TAG then st.(fileSize := if |v| == 2 then Combine(v[0], v[1]) else 0)
    else if t.tag == ID_TAG then st.(fileId := if |v| == 2 then Combine(v[0], v[1]) else 0)
    else if t.tag == LIFE_CYCLE_TAG then st.(validated := if |v| == 1 then Activated(v[0]) else true)
    else if t.tag == DESCRIPTOR_TAG then
      st.(structure := StructureOf(v[0], st.structure), fileType := TypeOf(v[0], st.fileType),
          recordLength := if |v| == 5 then v[3] else 0, numberOfRecords := if |v| == 5 then v[4] else 0)
    else st
  }

  predicate AllWellFormed(ts: seq<Tlv>) {
    forall t <- ts :: WellFormed(t)
  }

  function Fold(st: Status, ts: seq<Tlv>): Status
    requires AllWellFormed(ts)
  {
    if ts == [] then st else Meaning(Fold(st, ts[..|ts| - 1]), ts[|ts| - 1])
  }

  function EncodeLength(n: byte): seq<byte> {
    if n <= 127 then [n] else [0x81, n]
  }

  function EncodeTlv(t: Tlv): seq<byte>
    requires WellFormed(t)
  {
    [t.tag] + EncodeLength(|t.value|) + t.value
  }

  function EncodeAll(ts: seq<Tlv>): seq<byte>
    requires AllWellFormed(ts)
  {
    if ts == [] then [] else EncodeAll(ts[..|ts| - 1]) + EncodeTlv(ts[|ts| - 1])
  }

  predicate IsTemplate(ts: seq<Tlv>) {
    AllWellFormed(ts) && |EncodeAll(ts)| < 256
  }

  function Template(ts: seq<Tlv>): seq<byte>
    requires IsTemplate(ts)
  {
    [FCP_TAG] + EncodeLength(|EncodeAll(ts)|) + EncodeAll(ts)
  }

  // ---------------------------------------------------------------- the byte-offset machine

  /** A byte of the data block.  Bytes past its end read as 0 here; `ReadsInside` says when none is read. */
  function At(m: seq<byte>, i: nat): byte {
    if i < |m| then m[i] else 0
  }

  /** UsimDecodeDataLength: (bytes the length is stored on, the length); size 0 marks an error. */
  function DecodeLength(m: seq<byte>, i: nat): (r: (byte, byte))
    ensures r.0 <= 2
  {
    if At(m, i) <= 0x7F then (1, At(m, i))
    else if At(m, i) == 0x81 then (2, if At(m, i + 1) >= 0x80 then At(m, i + 1) else 0)
    else (0, 0)
  }

  predicate HasHeader(m: seq<byte>) {
    At(m, 0) == FCP_TAG && DecodeLength(m, 1).0 != 0
  }

  predicate Guard(m: seq<byte>, offset: byte) {
    offset <= DecodeLength(m, 1).1 + DecodeLength(m, 1).0
  }

  function DescriptorAt(m: seq<byte>, o: nat, st: Status): Status {
    st.(structure := StructureOf(At(m, o + 2), st.structure), fileType := TypeOf(At(m, o + 2), st.fileType),
        recordLength := if At(m, o + 1) == 5 then At(m, o + 5) else 0,
        numberOfRecords := if At(m, o + 1) == 5 then At(m, o + 6) else 0)
  }

  function PairAt(m: seq<byte>, o: nat): uint16 {
    if At(m, o + 1) == 2 then Combine(At(m, o + 2), At(m, o + 3)) else 0
  }

  /** One turn of the loop: the new offset, computed in eight bits, and the new status. */
  function Turn(m: seq<byte>, o: byte, st: Status): (byte, Status) {
    var next: byte := (o + 1) % 256;
    var after := (o + 2 + At(m, o + 1)) % 256;
    if At(m, o) == DESCRIPTOR_TAG then (after, DescriptorAt(m, o, st))
    else if At(m, o) == ID_TAG then (after, st.(fileId := PairAt(m, o)))
    else if At(m, o) == LIFE_CYCLE_TAG then
      var v: byte := (o + 2) % 256;
      ((v + At(m, next)) % 256, st.(validated := if At(m, next) == 1 then Activated(At(m, v)) else true))
    else if At(m, o) == SIZE_TAG then (after, st.(fileSize := PairAt(m, o)))
    else ((next + DecodeLength(m, next).0 + DecodeLength(m, next).1) % 256, st)
  }

  /** Every byte that one turn reads lies in the block. */
  predicate ReadsInside(m: seq<byte>, o: byte) {
    var next := (o + 1) % 256;
    && o < |m|
    && (m[o] == DESCRIPTOR_TAG ==> o + 2 < |m| && (m[o + 1] == 5 ==> o + 6 < |m|))
    && (m[o] == ID_TAG || m[o] == SIZE_TAG ==> o + 1 < |m| && (m[o + 1] == 2 ==> o + 3 < |m|))
    && (m[o] == LIFE_CYCLE_TAG ==> next < |m| && (m[next] == 1 ==> (o + 2) % 256 < |m|))
    && (!KnownTag(m[o]) ==> next < |m| && (m[next] == 0x81 ==> next + 1 < |m|))
  }

  /** Offset and status after `n` turns, the guard notwithstanding. */
  function Iterate(m: seq<byte>, st: Status, n: nat): (byte, Status) {
    if n == 0 then (1 + DecodeLength(m, 1).0, st)
    else var (o, was) := Iterate(m, st, n - 1); Turn(m, o, was)
  }

  /** The loop does exactly `n` turns and reads nothing outside the block; without a header there is no loop. */
  ghost predicate HaltsAfter(m: seq<byte>, st: Status, n: nat) {
    && |m| >= 1
    && (m[0] == FCP_TAG ==> |m| >= 2 && (m[1] == 0x81 ==> |m| >= 3))
    && (HasHeader(m) ==>
          && (forall k: nat :: k < n ==> Guard(m, Iterate(m, st, k).0) && ReadsInside(m, Iterate(m, st, k).0))
          && !Guard(m, Iterate(m, st, n).0))
    && (!HasHeader(m) ==> n == 0)
  }

  function Decoded(m: seq<byte>, st: Status, n: nat): Status {
    if HasHeader(m) then Iterate(m, st, n).1 else st
  }

  // ---------------------------------------------------------------- the machine computes the fold

  /** Where object `k` of the template starts. */
  function Start(ts: seq<Tlv>, k: nat): nat
    requires IsTemplate(ts) && k <= |ts|
  {
    1 + |EncodeLength(|EncodeAll(ts)|)| + |EncodeAll(ts[..k])|
  }

  lemma {:induction false} EncodeAllPrefix(ts: seq<Tlv>, k: nat)
    requires AllWellFormed(ts) && k <= |ts|
    ensures EncodeAll(ts[..k]) <= EncodeAll(ts)
    decreases |ts|
  {
    if k < |ts| {
      var init := ts[..|ts| - 1];
      assert init[..k] == ts[..k];
      EncodeAllPrefix(init, k);
    } else {
      assert ts[..k] == ts;
    }
  }

  /** The encoding up to object `k` and the object itself start the encoding of all. */
  lemma EncodeSplit(ts: seq<Tlv>, k: nat)
    requires AllWellFormed(ts) && k < |ts|
    ensures EncodeAll(ts[..k + 1]) == EncodeAll(ts[..k]) + EncodeTlv(ts[k])
    ensures EncodeAll(ts[..k]) + EncodeTlv(ts[k]) <= EncodeAll(ts)
  {
    assert ts[..k + 1][..k] == ts[..k] && ts[..k + 1][k] == ts[k];
    EncodeAllPrefix(ts, k + 1);
  }

  lemma MiddleOf(m: seq<byte>, h: seq<byte>, a: seq<byte>, e: seq<byte>, all: seq<byte>)
    requires h + all <= m && a + e <= all
    ensures |h| + |a| + |e| <= |m| && m[|h| + |a|..|h| + |a| + |e|] == e
  {
    var lo := |h| + |a|;
    assert m[lo..lo + |e|] == (h + all)[lo..lo + |e|] == all[|a|..|a| + |e|] == (a + e)[|a|..];
  }

  /** Object `k` lies between its start and the next one, and the last start is the end of the template. */
  lemma ObjectAt(m: seq<byte>, ts: seq<Tlv>, k: nat)
    requires IsTemplate(ts) && Template(ts) <= m && k < |ts|
    ensures Start(ts, k) < Start(ts, k + 1) <= |Template(ts)| <= |m|
    ensures m[Start(ts, k)..Start(ts, k + 1)] == EncodeTlv(ts[k])
  {
    EncodeSplit(ts, k);
    var h := [FCP_TAG] + EncodeLength(|EncodeAll(ts)|);
    assert Template(ts) == h + EncodeAll(ts);
    assert Start(ts, k) == |h| + |EncodeAll(ts[..k])| && Start(ts, k + 1) == Start(ts, k) + |EncodeTlv(ts[k])|;
    MiddleOf(m, h, EncodeAll(ts[..k]), EncodeTlv(ts[k]), EncodeAll(ts));
  }

  lemma HeaderLength(m: seq<byte>, ts: seq<Tlv>)
    requires IsTemplate(ts) && Template(ts) <= m
    ensures HasHeader(m) && DecodeLength(m, 1) == (|EncodeLength(|EncodeAll(ts)|)|, |EncodeAll(ts)|)
    ensures |m| >= |Template(ts)| == Start(ts, |ts|) && (m[1] == 0x81 ==> |m| >= 3)
  {
    var t := Template(ts);
    assert t[0] == m[0] && t[1] == m[1];
    assert |EncodeAll(ts)| > 127 ==> t[2] == m[2];
    assert ts[..|ts|] == ts;
  }

  lemma SliceAt(m: seq<byte>, lo: nat, hi: nat, e: seq<byte>, i: nat)
    requires lo <= hi <= |m| && m[lo..hi] == e && i < |e|
    ensures At(m, lo + i) == e[i] && lo + i < hi
  {
    assert m[lo..hi][i] == m[lo + i];
  }

  /** The bytes of an object, by their offsets from its start. */
  lemma ObjectBytes(m: seq<byte>, o: nat, t: Tlv)
    requires WellFormed(t) && o + |EncodeTlv(t)| <= |m| && m[o..o + |EncodeTlv(t)|] == EncodeTlv(t)
    ensures o + 1 < |m| && At(m, o) == t.tag
    ensures |t.value| <= 127 ==> |EncodeTlv(t)| == 2 + |t.value| && At(m, o + 1) == |t.value| &&
                                 forall i: nat :: i < |t.value| ==> o + 2 + i < |m| && At(m, o + 2 + i) == t.value[i]
    ensures |t.value| > 127 ==>
            |EncodeTlv(t)| == 3 + |t.value| && o + 2 < |m| && At(m, o + 1) == 0x81 && At(m, o + 2) == |t.value|
  {
    var e, hi := EncodeTlv(t), o + |EncodeTlv(t)|;
    SliceAt(m, o, hi, e, 0);
    SliceAt(m, o, hi, e, 1);
    if |t.value| <= 127 {
      forall i: nat | i < |t.value|
        ensures o + 2 + i < |m| && At(m, o + 2 + i) == t.value[i]
      {
        SliceAt(m, o, hi, e, 2 + i);
      }
    } else {
      SliceAt(m, o, hi, e, 2);
    }
  }

  lemma TurnAtDescriptor(m: seq<byte>, o: nat, t: Tlv, st: Status)
    requires WellFormed(t) && o + |EncodeTlv(t)| <= 255 && t.tag == DESCRIPTOR_TAG
    requires o + |EncodeTlv(t)| <= |m| && m[o..o + |EncodeTlv(t)|] == EncodeTlv(t)
    ensures Turn(m, o, st) == (o + |EncodeTlv(t)|, Meaning(st, t)) && ReadsInside(m, o)
  {
    var v := t.value;
    ObjectBytes(m, o, t);
    assert At(m, o + 2 + 0) == v[0];
    assert |v| == 5 ==> At(m, o + 2 + 3) == v[3] && At(m, o + 2 + 4) == v[4];
  }

  lemma TurnAtShort(m: seq<byte>, o: nat, t: Tlv, st: Status)
    requires WellFormed(t) && o + |EncodeTlv(t)| <= 255 && KnownTag(t.tag) && t.tag != DESCRIPTOR_TAG
    requires o + |EncodeTlv(t)| <= |m| && m[o..o + |EncodeTlv(t)|] == EncodeTlv(t)
    ensures Turn(m, o, st) == (o + |EncodeTlv(t)|, Meaning(st, t)) && ReadsInside(m, o)
  {
    var v := t.value;
    ObjectBytes(m, o, t);
    assert |v| >= 1 ==> At(m, o + 2 + 0) == v[0];
    assert |v| >= 2 ==> At(m, o + 2 + 1) == v[1];
  }

  /** Objects with other tags are skipped whole. */
  lemma TurnSkipsUnknown(m: seq<byte>, o: nat, t: Tlv, st: Status)
    requires WellFormed(t) && o + |EncodeTlv(t)| <= 255 && !KnownTag(t.tag)
    requires o + |EncodeTlv(t)| <= |m| && m[o..o + |EncodeTlv(t)|] == EncodeTlv(t)
    ensures Turn(m, o, st) == (o + |EncodeTlv(t)|, st) && ReadsInside(m, o)
  {
    ObjectBytes(m, o, t);
  }

  /** A turn at the start of an object consumes exactly that object. */
  lemma TurnConsumesObject(m: seq<byte>, o: nat, t: Tlv, st: Status)
    requires WellFormed(t) && o + |EncodeTlv(t)| <= 255
    requires o + |EncodeTlv(t)| <= |m| && m[o..o + |EncodeTlv(t)|] == EncodeTlv(t)
    ensures Turn(m, o, st) == (o + |EncodeTlv(t)|, Meaning(st, t))
    ensures ReadsInside(m, o)
  {
    if t.tag == DESCRIPTOR_TAG {
      TurnAtDescriptor(m, o, t, st);
    } else if KnownTag(t.tag) {
      TurnAtShort(m, o, t, st);
    } else {
      TurnSkipsUnknown(m, o, t, st);
    }
  }

  /** A turn at the start of object `k` of a template of at most 255 bytes. */
  lemma TurnAtStart(m: seq<byte>, ts: seq<Tlv>, k: nat, st: Status)
    requires IsTemplate(ts) && Template(ts) <= m && |Template(ts)| <= 255 && k < |ts|
    ensures Start(ts, k) < Start(ts, k + 1) <= |Template(ts)|
    ensures Turn(m, Start(ts, k), st) == (Start(ts, k + 1), Meaning(st, ts[k]))
    ensures ReadsInside(m, Start(ts, k))
  {
    ObjectAt(m, ts, k);
    TurnConsumesObject(m, Start(ts, k), ts[k], st);
  }

  /** After `k` turns the offset is at the start of object `k` and the first `k` objects have been applied. */
  lemma {:induction false} IterateIsFold(m: seq<byte>, ts: seq<Tlv>, st: Status, k: nat)
    requires IsTemplate(ts) && Template(ts) <= m && |Template(ts)| <= 255 && k <= |ts|
    ensures Start(ts, k) <= 255 && Iterate(m, st, k) == (Start(ts, k), Fold(st, ts[..k]))
  {
    HeaderLength(m, ts);
    if k > 0 {
      IterateIsFold(m, ts, st, k - 1);
      TurnAtStart(m, ts, k - 1, Fold(st, ts[..k - 1]));
      assert ts[..k][..k - 1] == ts[..k - 1] && ts[..k][k - 1] == ts[k - 1];
    }
  }

  lemma HaltsOnTemplate(m: seq<byte>, ts: seq<Tlv>, st: Status)
    requires IsTemplate(ts) && Template(ts) <= m && |Template(ts)| <= 255
    ensures HaltsAfter(m, st, |ts|)
    ensures !Guard(m, Iterate(m, st, |ts|).0)
  {
    HeaderLength(m, ts);
    forall k: nat | k < |ts|
      ensures Guard(m, Iterate(m, st, k).0) && ReadsInside(m, Iterate(m, st, k).0)
    {
      IterateIsFold(m, ts, st, k);
      TurnAtStart(m, ts, k, st);
    }
    IterateIsFold(m, ts, st, |ts|);
  }

  /** The decoder computes the fold of every template of at most 255 bytes: one turn per object, the offset going
      from start to start without wrapping and stopping exactly at the end.  Only template bytes are read, so
      whatever follows the template in memory is irrelevant. */
  lemma TemplateDecodes(m: seq<byte>, ts: seq<Tlv>, st: Status)
    requires IsTemplate(ts) && Template(ts) <= m && |Template(ts)| <= 255
    ensures HaltsAfter(m, st, |ts|) && HaltsAfter(Template(ts), st, |ts|)
    ensures Decoded(m, st, |ts|) == Fold(st, ts)
    ensures Iterate(m, st, |ts|).0 == |Template(ts)|
    ensures forall k: nat :: k < |ts| ==> Iterate(m, st, k).0 == Start(ts, k) < Iterate(m, st, k + 1).0
  {
    HaltsOnTemplate(m, ts, st);
    HaltsOnTemplate(Template(ts), ts, st);
    IterateIsFold(m, ts, st, |ts|);
    HeaderLength(m, ts);
    assert ts[..|ts|] == ts;
    forall k: nat | k < |ts|
      ensures Iterate(m, st, k).0 == Start(ts, k) < Iterate(m, st, k + 1).0
    {
      IterateIsFold(m, ts, st, k);
      IterateIsFold(m, ts, st, k + 1);
      ObjectAt(m, ts, k);
    }
  }

  /** For well-formed templates the size hypothesis is exact: the loop ends if and only if the template has at most 255
      bytes.  In a longer one
      the guard is true of every eight-bit offset. */
  lemma TerminatesIffAtMost255(m: seq<byte>, ts: seq<Tlv>, st: Status)
    requires IsTemplate(ts) && Template(ts) <= m
    ensures (exists n: nat :: !Guard(m, Iterate(m, st, n).0)) <==> |Template(ts)| <= 255
  {
    HeaderLength(m, ts);
    if |Template(ts)| <= 255 {
      HaltsOnTemplate(m, ts, st);
    } else {
      assert DecodeLength(m, 1).0 + DecodeLength(m, 1).1 >= 255;
    }
  }

  /** Such a template exists: one unknown object of 250 bytes makes 256, and on it the loop never ends. */
  lemma LongTemplateLoops(st: Status)
    ensures var ts := [Tlv(0xA5, Zeros(250))];
            && IsTemplate(ts) && |Template(ts)| == 256
            && forall n: nat :: Guard(Template(ts), Iterate(Template(ts), st, n).0)
  {
    var ts := [Tlv(0xA5, Zeros(250))];
    assert ts[..0] == [] && EncodeAll(ts) == EncodeAll(ts[..0]) + EncodeTlv(ts[0]);
    TerminatesIffAtMost255(Template(ts), ts, st);
  }

  function Zeros(n: nat): (z: seq<byte>)
    ensures |z| == n
  {
    seq(n, _ => 0)
  }

  /** A known object with a length byte of 254 stands still: the eight-bit offset comes back to its start. */
  lemma Stalls(m: seq<byte>, o: byte, st: Status)
    requires o <= 254 && KnownTag(At(m, o)) && At(m, o + 1) == 254
    ensures Turn(m, o, st).0 == o
  {
  }

  lemma {:induction false} StallsForever(m: seq<byte>, st: Status, n: nat, k: nat)
    requires n <= k && Iterate(m, st, n).0 <= 254
    requires KnownTag(At(m, Iterate(m, st, n).0)) && At(m, Iterate(m, st, n).0 + 1) == 254
    ensures Iterate(m, st, k).0 == Iterate(m, st, n).0
    decreases k
  {
    if k > n {
      StallsForever(m, st, n, k - 1);
      Stalls(m, Iterate(m, st, n).0, Iterate(m, st, k - 1).1);
    }
  }

  /** Without well-formedness four bytes are enough for a loop that never ends and never leaves the block. */
  lemma ShortBlockLoops(st: Status, n: nat)
    ensures var m := [FCP_TAG, 0x02, SIZE_TAG, 0xFE];
            var o := Iterate(m, st, n).0;
            HasHeader(m) && Guard(m, o) && ReadsInside(m, o)
  {
    var m := [FCP_TAG, 0x02, SIZE_TAG, 0xFE];
    StallsForever(m, st, 0, n);
  }

  // ---------------------------------------------------------------- order of the objects

  /** Objects with different tags, or unknown to the decoder, may trade places. */
  lemma MeaningCommutes(st: Status, a: Tlv, b: Tlv)
    requires WellFormed(a) && WellFormed(b) && (a.tag != b.tag || !KnownTag(a.tag))
    ensures Meaning(Meaning(st, a), b) == Meaning(Meaning(st, b), a)
  {
  }

  function Without(ts: seq<Tlv>, j: nat): seq<Tlv>
    requires j < |ts|
  {
    ts[..j] + ts[j + 1..]
  }

  /** Object `j` may be taken out and applied last, if no later object overwrites it. */
  lemma {:induction false} ApplyLast(st: Status, ts: seq<Tlv>, j: nat)
    requires AllWellFormed(ts) && j < |ts|
    requires forall i: nat :: j < i < |ts| ==> ts[i].tag != ts[j].tag || !KnownTag(ts[j].tag)
    ensures AllWellFormed(Without(ts, j)) && Fold(st, ts) == Meaning(Fold(st, Without(ts, j)), ts[j])
    decreases |ts|
  {
    var last := |ts| - 1;
    if j == last {
      assert Without(ts, j) == ts[..last];
    } else {
      var init := ts[..last];
      ApplyLast(st, init, j);
      assert Without(ts, j)[..last - 1] == Without(init, j);
      assert Without(ts, j)[last - 1] == ts[last];
      MeaningCommutes(Fold(st, Without(init, j)), ts[j], ts[last]);
    }
  }

  predicate DistinctKnownTags(ts: seq<Tlv>) {
    forall i: nat, j: nat :: i < j < |ts| && KnownTag(ts[i].tag) ==> ts[i].tag != ts[j].tag
  }

  lemma WithoutKeeps(ts: seq<Tlv>, j: nat)
    requires j < |ts| && AllWellFormed(ts) && DistinctKnownTags(ts)
    ensures AllWellFormed(Without(ts, j)) && DistinctKnownTags(Without(ts, j))
    ensures multiset(ts) == multiset(Without(ts, j)) + multiset{ts[j]}
  {
    assert ts == ts[..j] + [ts[j]] + ts[j + 1..];
  }

  lemma CancelOne(a: multiset<Tlv>, b: multiset<Tlv>, x: Tlv)
    requires a + multiset{x} == b + multiset{x}
    ensures a == b
  {
    assert a == (a + multiset{x}) - multiset{x};
    assert b == (b + multiset{x}) - multiset{x};
  }

  /** Known objects with distinct tags mean the same in any order, among any unknown objects. */
  lemma {:induction false} FoldAnyOrder(st: Status, ts: seq<Tlv>, us: seq<Tlv>)
    requires AllWellFormed(ts) && AllWellFormed(us) && multiset(ts) == multiset(us)
    requires DistinctKnownTags(ts) && DistinctKnownTags(us)
    ensures Fold(st, ts) == Fold(st, us)
    decreases |ts|
  {
    if ts == [] {
      assert |multiset(us)| == 0;
    } else {
      var last := |ts| - 1;
      var x := ts[last];
      WithoutKeeps(ts, last);
      assert Without(ts, last) == ts[..last];
      assert x in multiset(ts) && x in us;
      var j: nat :| j < |us| && us[j] == x;
      WithoutKeeps(us, j);
      ApplyLast(st, us, j);
      assert multiset(ts[..last]) == multiset(Without(us, j)) by {
        assert multiset(ts[..last]) + multiset{x} == multiset(Without(us, j)) + multiset{x};
        CancelOne(multiset(ts[..last]), multiset(Without(us, j)), x);
      }
      FoldAnyOrder(st, ts[..last], Without(us, j));
    }
  }

  /** Tags that do not occur leave their fields as they were. */
  lemma {:induction false} AbsentTagsChangeNothing(st: Status, ts: seq<Tlv>)
    requires AllWellFormed(ts)
    ensures (forall t <- ts :: t.tag != SIZE_TAG) ==> Fold(st, ts).fileSize == st.fileSize
    ensures (forall t <- ts :: t.tag != ID_TAG) ==> Fold(st, ts).fileId == st.fileId
    ensures (forall t <- ts :: t.tag != LIFE_CYCLE_TAG) ==> Fold(st, ts).validated == st.validated
    ensures (forall t <- ts :: t.tag != DESCRIPTOR_TAG) ==>
              Fold(st, ts).structure == st.structure && Fold(st, ts).fileType == st.fileType &&
              Fold(st, ts).recordLength == st.recordLength && Fold(st, ts).numberOfRecords == st.numberOfRecords
    decreases |ts|
  {
    if ts != [] {
      AbsentTagsChangeNothing(st, ts[..|ts| - 1]);
    }
  }

  // ---------------------------------------------------------------- the 2G status bytes

  /** Byte `k` of the response to SELECT; bytes that carry nothing are 0. */
  function StatusByte(st: Status, k: nat): byte {
    match k
    case 2 => st.fileSize / 256
    case 3 => st.fileSize % 256
    case 4 => st.fileId / 256
    case 5 => st.fileId % 256
    case 6 => st.fileType % 256
    case 12 => 2
    case 13 => st.structure % 256
    case 14 => if st.structure == STRUCT_LF || st.structure == STRUCT_C then st.recordLength else 0
    case _ => 0
  }

  function StatusBytes(st: Status): (b: seq<byte>)
    ensures |b| == 15
  {
    seq(15, k requires 0 <= k < 15 => StatusByte(st, k))
  }

  predicate OnlyAt(ts: seq<Tlv>, i: nat) {
    i < |ts| && forall j: nat :: j < |ts| && j != i ==> ts[j].tag != ts[i].tag
  }

  predicate Recognised(code: byte) {
    code % 8 in {1, 2, 6} && code / 8 % 8 in {0, 1, 7}
  }

  lemma OnlySize(ts: seq<Tlv>, st: Status, i: nat)
    requires AllWellFormed(ts) && OnlyAt(ts, i) && ts[i].tag == SIZE_TAG && |ts[i].value| == 2
    ensures Fold(st, ts).fileSize == Combine(ts[i].value[0], ts[i].value[1])
  {
    ApplyLast(st, ts, i);
  }

  lemma OnlyId(ts: seq<Tlv>, st: Status, i: nat)
    requires AllWellFormed(ts) && OnlyAt(ts, i) && ts[i].tag == ID_TAG && |ts[i].value| == 2
    ensures Fold(st, ts).fileId == Combine(ts[i].value[0], ts[i].value[1])
  {
    ApplyLast(st, ts, i);
  }

  lemma OnlyDescriptor(ts: seq<Tlv>, st: Status, i: nat)
    requires AllWellFormed(ts) && OnlyAt(ts, i) && ts[i].tag == DESCRIPTOR_TAG
    requires |ts[i].value| >= 1 && Recognised(ts[i].value[0])
    ensures var f, d := Fold(st, ts), ts[i].value;
            && f.fileType == (if d[0] / 8 % 8 == 7 then TYPE_DF else TYPE_EF)
            && f.structure == (if d[0] % 8 == 1 then STRUCT_T else if d[0] % 8 == 2 then STRUCT_LF else STRUCT_C)
            && f.recordLength == (if |d| == 5 then d[3] else 0)
  {
    ApplyLast(st, ts, i);
  }

  /** A sole life cycle object of one byte: the file is valid unless the byte is 4 or 6, which mean deactivated. */
  lemma OnlyLifeCycle(ts: seq<Tlv>, st: Status, i: nat)
    requires AllWellFormed(ts) && OnlyAt(ts, i) && ts[i].tag == 0x8A
    ensures var v := ts[i].value; Fold(st, ts).validated <==> !(|v| == 1 && (v[0] == 4 || v[0] == 6))
  {
    ApplyLast(st, ts, i);
  }

  /** Sizes and ids that are not two bytes long count as 0. */
  lemma OddLengths(ts: seq<Tlv>, st: Status, i: nat)
    requires AllWellFormed(ts) && OnlyAt(ts, i) && |ts[i].value| != 2
    ensures ts[i].tag == 0x80 ==> Fold(st, ts).fileSize == 0
    ensures ts[i].tag == 0x83 ==> Fold(st, ts).fileId == 0
  {
    if ts[i].tag == 0x80 || ts[i].tag == 0x83 {
      ApplyLast(st, ts, i);
    }
  }

  /** Of a sole descriptor the last of five bytes is the number of records; codes that are not recognised change nothing. */
  lemma DescriptorDetails(ts: seq<Tlv>, st: Status, i: nat)
    requires AllWellFormed(ts) && OnlyAt(ts, i) && ts[i].tag == 0x82
    ensures var f, d := Fold(st, ts), ts[i].value;
            && |d| >= 1 && f.numberOfRecords == (if |d| == 5 then d[4] else 0)
            && (d[0] % 8 !in {1, 2, 6} ==> f.structure == st.structure)
            && (d[0] / 8 % 8 !in {0, 1, 7} ==> f.fileType == st.fileType)
  {
    ApplyLast(st, ts, i);
    assert WellFormed(ts[i]) && forall t <- Without(ts, i) :: t.tag != DESCRIPTOR_TAG;
    AbsentTagsChangeNothing(st, Without(ts, i));
  }

  /** What does not start with 62 is no template, and changes nothing. */
  lemma NoTemplate(m: seq<byte>, st: Status)
    requires m != [] && m[0] != 0x62
    ensures HaltsAfter(m, st, 0) && Decoded(m, st, 0) == st
  {
  }

  lemma TemplateHeader(ts: seq<Tlv>)
    requires IsTemplate(ts)
    ensures var n := |EncodeAll(ts)|;
            Template(ts)[..if n <= 127 then 2 else 3] == if n <= 127 then [0x62, n] else [0x62, 0x81, n]
  {
  }

  /** The 2G status bytes of a file with these size, id and descriptor values. */
  predicate IsStatusOf(b: seq<byte>, size: seq<byte>, id: seq<byte>, desc: seq<byte>)
    requires |size| == 2 && |id| == 2 && |desc| >= 1
  {
    && |b| == 15
    && b[2] == size[0] && b[3] == size[1]
    && b[4] == id[0] && b[5] == id[1]
    && b[6] == (if desc[0] / 8 % 8 == 7 then 2 else 4)
    && b[13] == (if desc[0] % 8 == 1 then 0 else if desc[0] % 8 == 2 then 1 else 3)
    && b[14] == (if desc[0] % 8 != 1 && |desc| == 5 then desc[3] else 0)
    && b[12] == 2 && b[0] == b[1] == b[7] == b[8] == b[9] == b[10] == b[11] == 0
  }

  lemma Layout(f: Status, size: seq<byte>, id: seq<byte>, desc: seq<byte>)
    requires |size| == 2 && |id| == 2 && |desc| >= 1
    requires f.fileSize == Combine(size[0], size[1]) && f.fileId == Combine(id[0], id[1])
    requires f.fileType == (if desc[0] / 8 % 8 == 7 then TYPE_DF else TYPE_EF)
    requires f.structure == (if desc[0] % 8 == 1 then STRUCT_T else if desc[0] % 8 == 2 then STRUCT_LF else STRUCT_C)
    requires f.recordLength == (if |desc| == 5 then desc[3] else 0)
    ensures IsStatusOf(StatusBytes(f), size, id, desc)
  {
  }

  /** End to end: with one two-byte size, one two-byte file id and one recognised descriptor, the thirty digits
      decode to the 2G status of the file, whatever the uninitialised status held. */
  lemma ConvertedStatus(ts: seq<Tlv>, st: Status, size: nat, id: nat, desc: nat, digits: string)
    requires AllWellFormed(ts)
    requires OnlyAt(ts, size) && ts[size].tag == 0x80 && |ts[size].value| == 2
    requires OnlyAt(ts, id) && ts[id].tag == 0x83 && |ts[id].value| == 2
    requires OnlyAt(ts, desc) && ts[desc].tag == 0x82
    requires |ts[desc].value| >= 1 && Recognised(ts[desc].value[0])
    requires digits == ToHex(StatusBytes(Fold(st, ts)))
    ensures |digits| == 30 && IsHexText(digits)
    ensures IsStatusOf(FromHex(digits), ts[size].value, ts[id].value, ts[desc].value)
  {
    var f := Fold(st, ts);
    OnlySize(ts, st, size);
    OnlyId(ts, st, id);
    OnlyDescriptor(ts, st, desc);
    BytesRoundTrip(StatusBytes(f));
    Layout(f, ts[size].value, ts[id].value, ts[desc].value);
  }

  /** The same from the hex text of the template, with anything behind it: the loop ends, and the digits decode to the
      status. */
  lemma TextConverts(text: string, ts: seq<Tlv>, st: Status, size: nat, id: nat, desc: nat)
    requires IsTemplate(ts) && |Template(ts)| <= 255 && Template(ts) <= FromHex(text)
    requires OnlyAt(ts, size) && ts[size].tag == 0x80 && |ts[size].value| == 2
    requires OnlyAt(ts, id) && ts[id].tag == 0x83 && |ts[id].value| == 2
    requires OnlyAt(ts, desc) && ts[desc].tag == 0x82
    requires |ts[desc].value| >= 1 && Recognised(ts[desc].value[0])
    ensures HaltsAfter(FromHex(text), st, |ts|)
    ensures var digits := ToHex(StatusBytes(Decoded(FromHex(text), st, |ts|)));
            |digits| == 30 && IsStatusOf(FromHex(digits), ts[size].value, ts[id].value, ts[desc].value)
  {
    TemplateDecodes(FromHex(text), ts, st);
    ConvertedStatus(ts, st, size, id, desc, ToHex(StatusBytes(Fold(st, ts))));
  }

  // ---------------------------------------------------------------- the C functions

  class SimEfStatusData {
    var fileId: uint16
    var fileSize: uint16
    var fileIsValidated: bool
    var recordLength: byte
    var numberOfRecords: byte
    var efStructure: int
    var fileType: int

    function View(): Status
      reads this
    {
      Status(fileId, fileSize, fileIsValidated, recordLength, numberOfRecords, efStructure, fileType)
    }

    /** An uninitialised record: any contents. */
    constructor (junk: Status)
      ensures View() == junk
    {
      fileId, fileSize, fileIsValidated := junk.fileId, junk.fileSize, junk.validated;
      recordLength, numberOfRecords := junk.recordLength, junk.numberOfRecords;
      efStructure, fileType := junk.structure, junk.fileType;
    }
  }

  method UsimDecodeDataLength(data: array<byte>, at: nat) returns (lengthSize: byte, dataLgth: byte)
    requires at < data.Length && (data[at] == 0x81 ==> at + 1 < data.Length)
    ensures (lengthSize, dataLgth) == DecodeLength(data[..], at)
  {
    lengthSize := 0;
    if data[at] <= 0x7F {
      dataLgth, lengthSize := data[at], 1;
    } else {
      dataLgth := 0;
      if data[at] == 0x81 {
        if data[at + 1] >= 0x80 {
          dataLgth := data[at + 1];
        }
        lengthSize := 2;
      }
    }
  }

  lemma LowByte(high: byte, low: byte)
    ensures Combine(high, low) % 256 == low
  {
  }

  method UsimDecEfFileDescriptor(offset: byte, data: array<byte>, ef: SimEfStatusData) returns (after: byte)
    requires offset + 2 < data.Length && (data[offset + 1] == 5 ==> offset + 6 < data.Length)
    modifies ef
    ensures ef.View() == DescriptorAt(data[..], offset, old(ef.View()))
    ensures after == (offset + 2 + data[offset + 1]) % 256
  {
    var code := data[offset + 2];
    match code % 8 {
      case 1 => ef.efStructure := STRUCT_T;
      case 2 => ef.efStructure := STRUCT_LF;
      case 6 => ef.efStructure := STRUCT_C;
      case _ =>
    }
    match code / 8 % 8 {
      case 0 => ef.fileType := TYPE_EF;
      case 1 => ef.fileType := TYPE_EF;
      case 7 => ef.fileType := TYPE_DF;
      case _ =>
    }
    if data[offset + 1] == 5 {
      LowByte(data[offset + 4], data[offset + 5]);
      ef.recordLength := Combine(data[offset + 4], data[offset + 5]) % 256;
      ef.numberOfRecords := data[offset + 6];
    } else {
      ef.recordLength, ef.numberOfRecords := 0, 0;
    }
    after := (offset + 2 + data[offset + 1]) % 256;
  }

  method UsimDecFileSize(offset: byte, data: array<byte>) returns (length: uint16, after: byte)
    requires offset + 1 < data.Length && (data[offset + 1] == 2 ==> offset + 3 < data.Length)
    ensures length == PairAt(data[..], offset) && after == (offset + 2 + data[offset + 1]) % 256
  {
    if data[offset + 1] == 2 {
      length := Combine(data[offset + 2], data[offset + 3]);
    } else {
      length := 0;
    }
    after := (offset + 2 + data[offset + 1]) % 256;
  }

  method UsimDecEfFileId(offset: byte, data: array<byte>, ef: SimEfStatusData) returns (after: byte)
    requires offset + 1 < data.Length && (data[offset + 1] == 2 ==> offset + 3 < data.Length)
    modifies ef
    ensures ef.View() == old(ef.View()).(fileId := PairAt(data[..], offset))
    ensures after == (offset + 2 + data[offset + 1]) % 256
  {
    if data[offset + 1] == 2 {
      ef.fileId := Combine(data[offset + 2], data[offset + 3]);
    } else {
      ef.fileId := 0;
    }
    after := (offset + 2 + data[offset + 1]) % 256;
  }

  /** One turn of the loop in UsimDecodeEfStatusData. */
  method DecodeObject(offset: byte, data: array<byte>, ef: SimEfStatusData) returns (after: byte)
    requires ReadsInside(data[..], offset)
    modifies ef
    ensures (after, ef.View()) == Turn(data[..], offset, old(ef.View()))
  {
    match data[offset] {
      case 0x82 => after := UsimDecEfFileDescriptor(offset, data, ef);
      case 0x83 => after := UsimDecEfFileId(offset, data, ef);
      case 0x8A =>
        after := (offset + 1) % 256;
        var len := data[after];
        after := (after + 1) % 256;
        ef.fileIsValidated := if len == 1 then Activated(data[after]) else true;
        after := (after + len) % 256;
      case 0x80 =>
        var size: uint16;
        size, after := UsimDecFileSize(offset, data);
        ef.fileSize := size;
      case _ =>
        after := (offset + 1) % 256;
        var lengthSize, length := UsimDecodeDataLength(data, after);
        after := (after + lengthSize + length) % 256;
    }
  }

  /** UsimDecodeEfStatusData, on every block on which it ends without reading outside the block. */
  method UsimDecodeEfStatusData(data: array<byte>, ef: SimEfStatusData, ghost n: nat)
    requires HaltsAfter(data[..], ef.View(), n)
    modifies ef
    ensures ef.View() == Decoded(data[..], old(ef.View()), n)
  {
    var offset: byte := 0;
    var tag := data[offset];
    offset := offset + 1;
    if tag == FCP_TAG {
      var fcpOffset, fcpLength := UsimDecodeDataLength(data, offset);
      if fcpOffset != 0 {
        offset := offset + fcpOffset;
        ghost var k := 0;
        while offset <= fcpLength + fcpOffset
          invariant k <= n && (offset, ef.View()) == Iterate(data[..], old(ef.View()), k)
          decreases n - k
        {
          offset := DecodeObject(offset, data, ef);
          k := k + 1;
        }
      }
    }
  }

  method To2gSimStatus(status: SimEfStatusData, out: array<byte>)
    requires out.Length == 15
    modifies out
    ensures out[..] == StatusBytes(status.View())
  {
    ghost var v := status.View();
    out[0], out[1] := 0, 0;
    out[2], out[3] := status.fileSize / 256, status.fileSize % 256;
    out[4], out[5] := status.fileId / 256, status.fileId % 256;
    out[6] := status.fileType % 256;
    out[7] := 0;
    assert forall k: nat :: k < 8 ==> out[k] == StatusByte(v, k);
    out[8], out[9], out[10], out[11] := 0, 0, 0, 0;
    out[12] := 2;
    out[13] := status.efStructure % 256;
    out[14] := if status.efStructure == STRUCT_LF || status.efStructure == STRUCT_C then status.recordLength else 0;
    assert forall k: nat :: 8 <= k < 15 ==> out[k] == StatusByte(v, k);
  }

  lemma TurnInsideAgrees(m: seq<byte>, w: seq<byte>, o: byte, st: Status)
    requires m <= w && ReadsInside(m, o)
    ensures Turn(m, o, st) == Turn(w, o, st) && ReadsInside(w, o)
  {
    var next := (o + 1) % 256;
    assert m[o] == w[o];
    assert o + 1 < |m| ==> m[o + 1] == w[o + 1];
    assert next < |m| ==> m[next] == w[next];
    assert next + 1 < |m| ==> m[next + 1] == w[next + 1];
    var v := (o + 2) % 256;
    assert v < |m| ==> m[v] == w[v];
    assert o + 2 < |m| ==> m[o + 2] == w[o + 2];
    assert o + 3 < |m| ==> m[o + 3] == w[o + 3];
    assert o + 6 < |m| ==> m[o + 5] == w[o + 5] && m[o + 6] == w[o + 6];
  }

  /** Memory after the block does not matter to a run that stays inside it. */
  lemma {:induction false} LongerBlockSameRun(m: seq<byte>, w: seq<byte>, st: Status, n: nat, k: nat)
    requires m <= w && HaltsAfter(m, st, n) && k <= n
    ensures HasHeader(m) == HasHeader(w)
    ensures HasHeader(m) ==> DecodeLength(m, 1) == DecodeLength(w, 1) && Iterate(m, st, k) == Iterate(w, st, k)
  {
    assert m[0] == w[0] && (m[0] == FCP_TAG ==> m[1] == w[1] && (m[1] == 0x81 ==> m[2] == w[2]));
    if k > 0 && HasHeader(m) {
      LongerBlockSameRun(m, w, st, n, k - 1);
      TurnInsideAgrees(m, w, Iterate(m, st, k - 1).0, Iterate(m, st, k - 1).1);
    }
  }

  lemma LongerBlockHalts(m: seq<byte>, w: seq<byte>, st: Status, n: nat)
    requires m <= w && HaltsAfter(m, st, n)
    ensures HaltsAfter(w, st, n) && Decoded(w, st, n) == Decoded(m, st, n)
  {
    LongerBlockSameRun(m, w, st, n, n);
    if HasHeader(m) {
      forall k: nat | k < n
        ensures Guard(w, Iterate(w, st, k).0) && ReadsInside(w, Iterate(w, st, k).0)
      {
        LongerBlockSameRun(m, w, st, n, k);
        TurnInsideAgrees(m, w, Iterate(m, st, k).0, st);
      }
    }
  }

  /** convertUSimFcp: `junk` is what the uninitialised status holds. */
  method ConvertUSimFcp(fcp: array<char>, len: nat, out: array<char>, junk: Status, ghost n: nat)
    requires len < fcp.Length && len < 65536 && fcp[len] == '\0'
    requires HaltsAfter(FromHex(fcp[..len]), junk, n)
    requires out.Length >= 31 && out != fcp
    modifies out
    ensures out[..30] == ToHex(StatusBytes(Decoded(FromHex(fcp[..len]), junk, n))) && out[30] == '\0'
  {
    var efStatus := new SimEfStatusData(junk);
    var data := new byte[len / 2 + 1];
    var outTemp := new byte[15];
    StringToHexData(fcp, len, data);
    assert data[..(len + 1) / 2] <= data[..];
    LongerBlockHalts(FromHex(fcp[..len]), data[..], junk, n);
    UsimDecodeEfStatusData(data, efStatus, n);
    To2gSimStatus(efStatus, outTemp);
    HexDataToString(out, outTemp, 15);
    assert outTemp[..15] == outTemp[..];
    out[30] := '\0';
  }
}
