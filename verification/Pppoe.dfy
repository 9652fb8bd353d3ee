/** PPPoE discovery frames (core/rtw_br_ext.c): the tag list and what adding and stripping the
    Relay-Session-Id tag mean on it (RFC 2516, Appendix A). */
module Pppoe {
  import opened ByteSeqs

  const RELAY_SID := 0x0110
  const TAG_AREA := 20        // Ethernet header and PPPoE header
  const TAG_HDR_LEN := 4
  const MAGIC: Bytes := [0x81, 0x86]
  const OWN_LEN := 8          // magic and client MAC
  const TAG_BUF_LEN := 40

  // ---------------------------------------------------------------- tags

  /** The bytes of one tag: type, length, and as many bytes of data. */
  predicate IsTag(b: Bytes) {
    TAG_HDR_LEN <= |b| == TAG_HDR_LEN + Be16(b, 2)
  }

  function TypeOf(b: Bytes): nat
    requires IsTag(b)
  {
    Be16(b, 0)
  }

  function MakeTag(typ: nat, data: Bytes): (b: Bytes)
    requires typ < 0x1_0000 && |data| < 0x1_0000
    ensures IsTag(b) && TypeOf(b) == typ && b[TAG_HDR_LEN..] == data
  {
    var b := U16(typ) + U16(|data|) + data;
    assert b[0] == typ / 256 && b[1] == typ % 256 && b[2] == |data| / 256 && b[3] == |data| % 256;
    b
  }

  predicate AllTags(ts: seq<Bytes>) {
    ts == [] || (IsTag(ts[0]) && AllTags(ts[1..]))
  }

  /** No tag of this type among them. */
  predicate Lacks(ts: seq<Bytes>, typ: nat)
    requires AllTags(ts)
  {
    ts == [] || (TypeOf(ts[0]) != typ && Lacks(ts[1..], typ))
  }

  /** Where the walk over the tag area stops: at a tag, past the area, or past the packet. */
  datatype Found = At(offset: nat) | Absent | PastEnd

  /** `__nat25_find_pppoe_tag` from offset `cur` of the tag area on; `length` is the header's own
      length field. */
  function Scan(f: Bytes, cur: nat, length: nat, typ: nat): (r: Found)
    ensures r.At? ==> cur <= r.offset && TAG_AREA + r.offset + TAG_HDR_LEN <= |f|
    decreases length - cur
  {
    if cur >= length then Absent
    else if |f| < TAG_AREA + cur + TAG_HDR_LEN then PastEnd
    else if Be16(f, TAG_AREA + cur) == typ then At(cur)
    else Scan(f, cur + TAG_HDR_LEN + Be16(f, TAG_AREA + cur + 2), length, typ)
  }

  /** One step of the walk, over the bytes `b` of one tag. */
  lemma ScanStep(f: Bytes, h: Bytes, b: Bytes, rest: Bytes, cur: nat, length: nat, typ: nat)
    requires f == h + b + rest && |h| == TAG_AREA + cur && IsTag(b) && cur < length
    ensures Scan(f, cur, length, typ) == if TypeOf(b) == typ then At(cur) else Scan(f, cur + |b|, length, typ)
  {
    HeaderRead(h, b, rest);
  }

  lemma HeaderRead(h: Bytes, b: Bytes, rest: Bytes)
    requires TAG_HDR_LEN <= |b|
    ensures var f := h + b + rest; Be16(f, |h|) == Be16(b, 0) && Be16(f, |h| + 2) == Be16(b, 2)
  {
  }

  /** Walking past tags that do not match. */
  lemma {:induction false} ScanSkips(f: Bytes, h: Bytes, ts: seq<Bytes>, rest: Bytes, cur: nat, length: nat, typ: nat)
    requires f == h + Flat(ts) + rest && |h| == TAG_AREA + cur
    requires AllTags(ts) && Lacks(ts, typ) && cur + |Flat(ts)| <= length
    ensures Scan(f, cur, length, typ) == Scan(f, cur + |Flat(ts)|, length, typ)
    decreases |ts|
  {
    if ts != [] {
      var b, more := ts[0], Flat(ts[1..]);
      SkipOne(f, h, b, more, rest, cur, length, typ);
      ScanSkips(f, h + b, ts[1..], rest, cur + |b|, length, typ);
    }
  }

  lemma SkipOne(f: Bytes, h: Bytes, b: Bytes, more: Bytes, rest: Bytes, cur: nat, length: nat, typ: nat)
    requires f == h + (b + more) + rest && |h| == TAG_AREA + cur && IsTag(b) && cur < length && TypeOf(b) != typ
    ensures f == (h + b) + more + rest && Scan(f, cur, length, typ) == Scan(f, cur + |b|, length, typ)
  {
    Regroup(h, b, more, rest);
    ScanStep(f, h, b, more + rest, cur, length, typ);
  }

  lemma Regroup(h: Bytes, b: Bytes, more: Bytes, rest: Bytes)
    ensures h + (b + more) + rest == h + b + (more + rest) == (h + b) + more + rest
  {
    Assoc(h, b, more);
    Assoc(h + b, more, rest);
  }

  // ---------------------------------------------------------------- frames

  /** A discovery frame: the eighteen bytes before the length field (addresses, EtherType,
      version, code, session), the tags, and whatever pads the packet after them. */
  datatype Discovery = Discovery(front: Bytes, tags: seq<Bytes>, pad: Bytes)

  predicate WellFormed(d: Discovery) {
    |d.front| == 18 && AllTags(d.tags) && |Flat(d.tags)| < 0x1_0000
  }

  function FrameBytes(d: Discovery): (f: Bytes)
    requires WellFormed(d)
    ensures |f| == TAG_AREA + |Flat(d.tags)| + |d.pad|
  {
    d.front + U16(|Flat(d.tags)|) + (Flat(d.tags) + d.pad)
  }

  lemma FrameLayout(d: Discovery)
    requires WellFormed(d)
    ensures var f := FrameBytes(d);
      f[..18] == d.front && Be16(f, 18) == |Flat(d.tags)| && f[TAG_AREA..] == Flat(d.tags) + d.pad
  {
    var f, n := FrameBytes(d), |Flat(d.tags)|;
    assert f[18] == U16(n)[0] && f[19] == U16(n)[1];
  }

  /** The walk over a frame's own bytes. */
  function Find(f: Bytes, typ: nat): (r: Found)
    requires TAG_AREA <= |f|
    ensures r.At? ==> TAG_AREA + r.offset + TAG_HDR_LEN <= |f|
  {
    Scan(f, 0, Be16(f, 18), typ)
  }

  /** The walk finds the first tag of its type. */
  lemma FindFirst(d: Discovery, before: seq<Bytes>, tag: Bytes, after: seq<Bytes>)
    requires WellFormed(d) && d.tags == before + [tag] + after
    requires IsTag(tag) && AllTags(before) && Lacks(before, TypeOf(tag))
    ensures Find(FrameBytes(d), TypeOf(tag)) == At(|Flat(before)|)
    ensures FrameBytes(d)[TAG_AREA..] == Flat(before) + tag + (Flat(after) + d.pad)
    ensures |Flat(d.tags)| == |Flat(before)| + |tag| + |Flat(after)|
  {
    FlatAround(before, tag, after);
    FrameLayout(d);
    Assoc(Flat(before) + tag, Flat(after), d.pad);
    FirstIn(FrameBytes(d), d.front + U16(|Flat(d.tags)|), before, tag, Flat(after) + d.pad, |Flat(d.tags)|);
  }

  lemma FirstIn(f: Bytes, h: Bytes, before: seq<Bytes>, tag: Bytes, rest: Bytes, n: nat)
    requires |h| == TAG_AREA && f == h + (Flat(before) + tag + rest) && |Flat(before)| < n
    requires IsTag(tag) && AllTags(before) && Lacks(before, TypeOf(tag))
    ensures Scan(f, 0, n, TypeOf(tag)) == At(|Flat(before)|)
  {
    var fb := Flat(before);
    Regroup(h, fb, tag, rest);
    Assoc(h, fb + tag, rest);
    ScanSkips(f, h, before, tag + rest, 0, n, TypeOf(tag));
    ScanStep(f, h + fb, tag, rest, |fb|, n, TypeOf(tag));
  }

  lemma FindNone(d: Discovery, typ: nat)
    requires WellFormed(d) && Lacks(d.tags, typ)
    ensures Find(FrameBytes(d), typ) == Absent
  {
    FrameLayout(d);
    var h, n := d.front + U16(|Flat(d.tags)|), |Flat(d.tags)|;
    Assoc(h, Flat(d.tags), d.pad);
    ScanSkips(FrameBytes(d), h, d.tags, d.pad, 0, n, typ);
  }

  // ---------------------------------------------------------------- the relay tag, stripped

  function SetU16(s: Bytes, i: nat, n: int): (r: Bytes)
    requires i + 1 < |s|
    ensures |r| == |s|
  {
    s[..i] + U16(n % 0x1_0000) + s[i + 2..]
  }

  function SetDst(f: Bytes, mac: Bytes): (r: Bytes)
    requires |mac| == 6 <= |f|
    ensures |r| == |f|
  {
    mac + f[6..]
  }

  datatype Stripped = Refused | Overrun | Relayed(frame: Bytes)

  /** The PADO/PADS arm of LOOKUP: the client's MAC out of the relay tag, the tag cut back to what
      the client sent, or cut out. A frame too short for its own tag is read past its end. */
  function Strip(f: Bytes): Stripped
    requires TAG_AREA <= |f|
  {
    match Find(f, RELAY_SID)
    case Absent => Refused
    case PastEnd => Overrun
    case At(offset) => StripTag(f, TAG_AREA + offset)
  }

  function StripTag(f: Bytes, p: nat): Stripped
    requires TAG_AREA <= p && p + TAG_HDR_LEN <= |f|
  {
    var n := Be16(f, p + 2);
    if n < OWN_LEN then Refused
    else if p + TAG_HDR_LEN + OWN_LEN > |f| then Overrun
    else if f[p + 4..p + 6] != MAGIC then Refused
    else Relayed(StripAt(f, p, n))
  }

  function StripAt(f: Bytes, p: nat, n: nat): Bytes
    requires TAG_AREA <= p && p + TAG_HDR_LEN + OWN_LEN <= |f| && OWN_LEN <= n < 0x1_0000
  {
    CutBack(SetDst(f, f[p + 6..p + 12]), p, n)
  }

  /** The tag of `n` bytes at `p` cut back, or out, and the lengths adjusted. */
  function CutBack(f: Bytes, p: nat, n: nat): Bytes
    requires TAG_AREA <= p && p + TAG_HDR_LEN + OWN_LEN <= |f| && OWN_LEN <= n < 0x1_0000
  {
    var keep := if n > OWN_LEN then TAG_HDR_LEN else 0;
    var cut := TAG_HDR_LEN + OWN_LEN - keep;
    var f1 := Shortened(f, p + keep, cut);
    if keep > 0 then SetU16(f1, p + 2, n - OWN_LEN) else f1
  }

  /** Bytes of the tag area cut out, and the length field with them. */
  function Shortened(f: Bytes, i: nat, n: nat): (r: Bytes)
    requires TAG_AREA <= i && i + n <= |f|
    ensures |r| == |f| - n
  {
    var f1 := WithoutRange(f, i, n);
    SetU16(f1, 18, Be16(f1, 18) - n)
  }

  /** The tag this driver puts in front: its mark, the client's MAC, and what the client had. */
  function RelayTag(mac: Bytes, client: Bytes): (b: Bytes)
    requires |mac| == 6 && |client| < 0x1_0000 - OWN_LEN
    ensures IsTag(b) && TypeOf(b) == RELAY_SID && |b| == TAG_HDR_LEN + OWN_LEN + |client|
  {
    MakeTag(RELAY_SID, MAGIC + mac + client)
  }

  /** What is left of it for the client. */
  function ClientTags(client: Bytes): (ts: seq<Bytes>)
    requires |client| < 0x1_0000
    ensures AllTags(ts)
  {
    if client == [] then [] else [MakeTag(RELAY_SID, client)]
  }

  lemma SetMiddle(a: Bytes, w: Bytes, c: Bytes, n: nat)
    requires |w| == 2 && n < 0x1_0000
    ensures SetU16(a + w + c, |a|, n) == a + U16(n) + c
  {
    Parts(a, w, c);
  }

  lemma Be16Middle(a: Bytes, n: nat, c: Bytes)
    requires n < 0x1_0000
    ensures Be16(a + U16(n) + c, |a|) == n
  {
    var s := a + U16(n) + c;
    assert s[|a|] == n / 256 && s[|a| + 1] == n % 256;
  }

  lemma RelayTagParts(mac: Bytes, client: Bytes)
    requires |mac| == 6 && |client| < 0x1_0000 - OWN_LEN
    ensures var b := RelayTag(mac, client);
      b[4..6] == MAGIC && b[6..12] == mac && b[12..] == client && Be16(b, 2) == OWN_LEN + |client|
      && b == U16(RELAY_SID) + U16(OWN_LEN + |client|) + (MAGIC + mac) + client
  {
    var b, own := RelayTag(mac, client), MAGIC + mac + client;
    assert b[4..] == own && own[..2] == MAGIC && own[2..8] == mac && own[8..] == client;
    assert b[4..6] == b[4..][..2] && b[6..12] == b[4..][2..8] && b[12..] == b[4..][8..];
  }

  /** Reading inside the middle part. */
  lemma ReadMiddle(a: Bytes, b: Bytes, c: Bytes)
    ensures forall i, j :: 0 <= i <= j <= |b| ==> (a + b + c)[|a| + i..|a| + j] == b[i..j]
    ensures forall i :: 0 <= i < |b| - 1 ==> Be16(a + b + c, |a| + i) == Be16(b, i)
  {
    var s := a + b + c;
    forall i, j | 0 <= i <= j <= |b| ensures s[|a| + i..|a| + j] == b[i..j] {
      assert forall k :: 0 <= k < j - i ==> s[|a| + i..|a| + j][k] == b[i..j][k];
    }
  }

  /** The bytes of a frame cut at the first tag of its type, where the walk stops. */
  lemma TagLayout(d: Discovery, before: seq<Bytes>, tag: Bytes, after: seq<Bytes>)
    requires WellFormed(d) && d.tags == before + [tag] + after
    requires IsTag(tag) && AllTags(before) && Lacks(before, TypeOf(tag))
    ensures Find(FrameBytes(d), TypeOf(tag)) == At(|Flat(before)|)
    ensures FrameBytes(d) == d.front + U16(|Flat(d.tags)|) + Flat(before) + tag + (Flat(after) + d.pad)
    ensures |Flat(d.tags)| == |Flat(before)| + |tag| + |Flat(after)|
  {
    var rest, u := Flat(after) + d.pad, U16(|Flat(d.tags)|);
    FindFirst(d, before, tag, after);
    FrameLayout(d);
    calc {
      FrameBytes(d);
      d.front + u + (Flat(before) + tag + rest);
      { Assoc(d.front + u, Flat(before) + tag, rest); }
      d.front + u + (Flat(before) + tag) + rest;
      { Assoc(d.front + u, Flat(before), tag); }
      d.front + u + Flat(before) + tag + rest;
    }
  }

  /** LOOKUP on the frame the access concentrator sends back gives the client its MAC and its own
      tags: those before and after the relay tag unchanged and in order, the relay tag back to
      what the client sent or gone, and a length field that counts the tags. */
  lemma StripRestores(d: Discovery, before: seq<Bytes>, mac: Bytes, client: Bytes, after: seq<Bytes>)
    requires |mac| == 6 && |client| < 0x1_0000 - OWN_LEN
    requires WellFormed(d) && d.tags == before + [RelayTag(mac, client)] + after
    requires AllTags(before) && Lacks(before, RELAY_SID)
    ensures var d' := Discovery(SetDst(d.front, mac), before + ClientTags(client) + after, d.pad);
      WellFormed(d') && Strip(FrameBytes(d)) == Relayed(FrameBytes(d'))
  {
    TagLayout(d, before, RelayTag(mac, client), after);
    PartsAreTags(d, before, mac, client, after);
    StripFound(FrameBytes(d), d.front, |Flat(d.tags)|, Flat(before), mac, client, Flat(after) + d.pad);
  }

  /** An answer whose relay tag is not the driver's, being too short or without its mark, is refused,
      and no other: a tag put there by another agent is left alone. */
  lemma StripRefusesExactly(d: Discovery, before: seq<Bytes>, data: Bytes, after: seq<Bytes>)
    requires |data| < 0x1_0000 && WellFormed(d) && d.tags == before + [MakeTag(RELAY_SID, data)] + after
    requires AllTags(before) && Lacks(before, RELAY_SID)
    ensures Strip(FrameBytes(d)) == Refused <==> |data| < 8 || data[0] != 0x81 || data[1] != 0x86
    ensures Strip(FrameBytes(d)) != Overrun
  {
    var tag, n := MakeTag(RELAY_SID, data), |Flat(d.tags)|;
    TagLayout(d, before, tag, after);
    ForeignTag(FrameBytes(d), d.front + U16(n) + Flat(before), tag, Flat(after) + d.pad);
    if |data| >= 8 {
      MarkRead(tag, data);
    }
  }

  lemma MarkRead(tag: Bytes, data: Bytes)
    requires 4 + |data| == |tag| && tag[4..] == data && |data| >= 8
    ensures tag[4..6] == MAGIC <==> data[0] == 0x81 && data[1] == 0x86
  {
    var m := tag[4..6];
    assert m[0] == tag[4..][0] && m[1] == tag[4..][1];
  }

  lemma ForeignTag(f: Bytes, h: Bytes, tag: Bytes, rest: Bytes)
    requires f == h + tag + rest && |h| >= TAG_AREA && IsTag(tag)
    ensures StripTag(f, |h|) == Refused <==> |tag| < TAG_HDR_LEN + OWN_LEN || tag[4..6] != MAGIC
    ensures StripTag(f, |h|) != Overrun
  {
    ReadMiddle(h, tag, rest);
    if |tag| >= TAG_HDR_LEN + OWN_LEN {
      assert f[|h| + 4..|h| + 6] == tag[4..6];
    }
  }

  /** An answer without a relay tag is refused. */
  lemma StripRefusesNone(d: Discovery)
    requires WellFormed(d) && Lacks(d.tags, RELAY_SID)
    ensures Strip(FrameBytes(d)) == Refused
  {
    FindNone(d, RELAY_SID);
  }

  lemma StripFound(f: Bytes, front: Bytes, n: nat, fb: Bytes, mac: Bytes, client: Bytes, rest: Bytes)
    requires |front| == 18 && |mac| == 6 && |client| < 0x1_0000 - OWN_LEN
    requires |fb| + TAG_HDR_LEN + OWN_LEN + |client| <= n < 0x1_0000
    requires f == front + U16(n) + fb + RelayTag(mac, client) + rest && Find(f, RELAY_SID) == At(|fb|)
    ensures var cut := if client == [] then 12 else 8;
      Strip(f) == Relayed(SetDst(front, mac) + U16(n - cut) + fb + Flat(ClientTags(client)) + rest)
  {
    var tag, p := RelayTag(mac, client), TAG_AREA + |fb|;
    RelayTagParts(mac, client);
    ReadMiddle(front + U16(n) + fb, tag, rest);
    assert f[p + 4..p + 6] == tag[4..6] && Be16(f, p + 2) == Be16(tag, 2);
    StripBytes(front, n, fb, mac, client, rest);
  }

  lemma DstOfFront(front: Bytes, x: Bytes, mac: Bytes)
    requires |mac| == 6 <= |front|
    ensures SetDst(front + x, mac) == SetDst(front, mac) + x
  {
    assert (front + x)[6..] == front[6..] + x;
  }

  lemma DstOfParts(front: Bytes, u: Bytes, fb: Bytes, tag: Bytes, rest: Bytes, mac: Bytes)
    requires |mac| == 6 <= |front|
    ensures SetDst(front + u + fb + tag + rest, mac) == SetDst(front, mac) + u + fb + tag + rest
  {
    DstOfFront(front, u, mac);
    DstOfFront(front + u, fb, mac);
    DstOfFront(front + u + fb, tag, mac);
    DstOfFront(front + u + fb + tag, rest, mac);
  }

  lemma SliceAt(f: Bytes, p: nat, b: Bytes, i: nat, j: nat)
    requires p + |b| <= |f| && f[p..p + |b|] == b && i <= j <= |b|
    ensures f[p + i..p + j] == b[i..j]
  {
    var x, y := f[p + i..p + j], b[i..j];
    forall k | 0 <= k < j - i ensures x[k] == y[k] {
      assert x[k] == f[p + (i + k)] == f[p..p + |b|][i + k];
    }
  }

  /** Cutting the part `b` out from behind the length field. */
  lemma ShortenedParts(front: Bytes, n: nat, a: Bytes, b: Bytes, c: Bytes)
    requires |front| == 18 && |b| <= n < 0x1_0000
    ensures Shortened(front + U16(n) + a + b + c, TAG_AREA + |a|, |b|) == front + U16(n - |b|) + a + c
  {
    var h := front + U16(n) + a;
    CutMiddle(h, b, c);
    Assoc(front + U16(n), a, c);
    Be16Middle(front, n, a + c);
    SetMiddle(front, U16(n), a + c, n - |b|);
    Assoc(front + U16(n - |b|), a, c);
  }

  /** The mark and the MAC cut out of a tag, and its own length adjusted. */
  lemma CutPart(front: Bytes, n: nat, fb: Bytes, typ: Bytes, len: nat, own: Bytes, client: Bytes, rest: Bytes)
    requires |front| == 18 && |typ| == 2 && |own| == 8 <= n < 0x1_0000 && len < 0x1_0000 && |client| < 0x1_0000
    ensures var f := front + U16(n) + fb + (typ + U16(len) + own + client) + rest; var p := TAG_AREA + |fb|;
      SetU16(Shortened(f, p + 4, 8), p + 2, |client|)
      == front + U16(n - 8) + fb + (typ + U16(|client|) + client) + rest
  {
    var t4 := typ + U16(len);
    var f := front + U16(n) + fb + (t4 + own + client) + rest;
    assert f == front + U16(n) + (fb + t4) + own + (client + rest);
    ShortenedParts(front, n, fb + t4, own, client + rest);
    var h := front + U16(n - 8) + fb + typ;
    assert front + U16(n - 8) + (fb + t4) + (client + rest) == h + U16(len) + (client + rest);
    SetMiddle(h, U16(len), client + rest, |client|);
    assert h + U16(|client|) + (client + rest) == front + U16(n - 8) + fb + (typ + U16(|client|) + client) + rest;
  }

  /** What StripAt does to the bytes, part by part. */
  lemma StripBytes(front: Bytes, n: nat, fb: Bytes, mac: Bytes, client: Bytes, rest: Bytes)
    requires |front| == 18 && |mac| == 6 && |client| < 0x1_0000 - OWN_LEN
    requires |fb| + TAG_HDR_LEN + OWN_LEN + |client| <= n < 0x1_0000
    ensures var f := front + U16(n) + fb + RelayTag(mac, client) + rest; var p := TAG_AREA + |fb|;
      var cut := if client == [] then 12 else 8;
      StripAt(f, p, OWN_LEN + |client|) ==
        SetDst(front, mac) + U16(n - cut) + fb + Flat(ClientTags(client)) + rest
  {
    var tag, front' := RelayTag(mac, client), SetDst(front, mac);
    var f, p := front + U16(n) + fb + tag + rest, TAG_AREA + |fb|;
    RelayTagParts(mac, client);
    Parts(front + U16(n) + fb, tag, rest);
    SliceAt(f, p, tag, 6, 12);
    DstOfParts(front, U16(n), fb, tag, rest, mac);
    CutBackBytes(front', n, fb, mac, client, rest);
  }

  lemma CutBackBytes(front: Bytes, n: nat, fb: Bytes, mac: Bytes, client: Bytes, rest: Bytes)
    requires |front| == 18 && |mac| == 6 && |client| < 0x1_0000 - OWN_LEN
    requires |fb| + TAG_HDR_LEN + OWN_LEN + |client| <= n < 0x1_0000
    ensures var cut := if client == [] then 12 else 8;
      CutBack(front + U16(n) + fb + RelayTag(mac, client) + rest, TAG_AREA + |fb|, OWN_LEN + |client|) ==
        front + U16(n - cut) + fb + Flat(ClientTags(client)) + rest
  {
    if client == [] {
      ShortenedParts(front, n, fb, RelayTag(mac, client), rest);
      assert fb + [] == fb;
    } else {
      RelayTagParts(mac, client);
      CutPart(front, n, fb, U16(RELAY_SID), OWN_LEN + |client|, MAGIC + mac, client, rest);
      assert Flat(ClientTags(client)) == U16(RELAY_SID) + U16(|client|) + client;
    }
  }

  lemma {:induction false} TagsOfParts(a: seq<Bytes>, b: seq<Bytes>)
    ensures AllTags(a + b) <==> AllTags(a) && AllTags(b)
  {
    if a == [] {
      assert a + b == b;
    } else {
      TagsOfParts(a[1..], b);
      assert (a + b)[1..] == a[1..] + b;
    }
  }

  lemma PartsAreTags(d: Discovery, before: seq<Bytes>, mac: Bytes, client: Bytes, after: seq<Bytes>)
    requires |mac| == 6 && |client| < 0x1_0000 - OWN_LEN
    requires WellFormed(d) && d.tags == before + [RelayTag(mac, client)] + after
    requires |Flat(d.tags)| == |Flat(before)| + TAG_HDR_LEN + OWN_LEN + |client| + |Flat(after)|
    ensures var d' := Discovery(SetDst(d.front, mac), before + ClientTags(client) + after, d.pad);
      var cut := if client == [] then 12 else 8;
      WellFormed(d') && FrameBytes(d') ==
        SetDst(d.front, mac) + U16(|Flat(d.tags)| - cut) + Flat(before) + Flat(ClientTags(client)) + (Flat(after) + d.pad)
  {
    var ct := ClientTags(client);
    var cut := if client == [] then 12 else 8;
    TagsOfParts(before + [RelayTag(mac, client)], after);
    TagsOfParts(before, [RelayTag(mac, client)]);
    TagsOfParts(before, ct);
    TagsOfParts(before + ct, after);
    FlatConcat(before, ct);
    FlatConcat(before + ct, after);
    assert |Flat(ct)| == TAG_HDR_LEN + OWN_LEN + |client| - cut by {
      assert ct != [] ==> ct[1..] == [] && Flat(ct) == ct[0] + [];
    }
    var front', n, all := SetDst(d.front, mac), |Flat(d.tags)| - cut, Flat(before) + Flat(ct) + Flat(after);
    calc {
      front' + U16(n) + (all + d.pad);
      { Assoc(Flat(before) + Flat(ct), Flat(after), d.pad); }
      front' + U16(n) + (Flat(before) + Flat(ct) + (Flat(after) + d.pad));
      { Assoc(front' + U16(n), Flat(before) + Flat(ct), Flat(after) + d.pad); }
      front' + U16(n) + (Flat(before) + Flat(ct)) + (Flat(after) + d.pad);
      { Assoc(front' + U16(n), Flat(before), Flat(ct)); }
      front' + U16(n) + Flat(before) + Flat(ct) + (Flat(after) + d.pad);
    }
  }

  // ---------------------------------------------------------------- the relay tag, added

  /** The first half of INSERT on a PADI/PADR: the client's own relay tag, if any, is taken out. */
  datatype Opened = OpenRefused | OpenOverrun | Opened(frame: Bytes, client: Bytes)

  function Open(f: Bytes): (r: Opened)
    requires TAG_AREA <= |f|
    ensures r.Opened? ==>
      && TAG_AREA <= |r.frame| <= |f| && TAG_HDR_LEN + OWN_LEN + |r.client| <= TAG_BUF_LEN
      && |f| - |r.frame| <= TAG_HDR_LEN + |r.client|
  {
    match Find(f, RELAY_SID)
    case Absent => Opened(f, [])
    case PastEnd => OpenOverrun
    case At(offset) => OpenedAt(f, TAG_AREA + offset)
  }

  function OpenedAt(f: Bytes, p: nat): Opened
    requires TAG_AREA <= p && p + TAG_HDR_LEN <= |f|
  {
    var n := Be16(f, p + 2);
    if n + TAG_HDR_LEN + OWN_LEN > TAG_BUF_LEN || p + TAG_HDR_LEN + n > |f| then OpenRefused
    else Opened(Shortened(f, p, TAG_HDR_LEN + n), f[p + TAG_HDR_LEN..p + TAG_HDR_LEN + n])
  }

  /** The number of bytes `__nat25_add_pppoe_tag` makes room for and copies: it takes the tag's
      length field as the host reads it, although the field is in network order. */
  function CopyLen(bigEndian: bool, n: nat): nat
    requires n < 0x1_0000
  {
    TAG_HDR_LEN + if bigEndian then n else n % 256 * 256 + n / 256
  }

  /** It is the size of the tag exactly on a big-endian host; elsewhere it exceeds the buffer the
      tag is built in. */
  lemma CopyLenExact(bigEndian: bool, n: nat)
    requires OWN_LEN <= n <= TAG_BUF_LEN - TAG_HDR_LEN
    ensures CopyLen(bigEndian, n) == TAG_HDR_LEN + n <==> bigEndian
    ensures !bigEndian ==> CopyLen(bigEndian, n) > TAG_BUF_LEN
  {
  }

  datatype Insertion = Rejected | ReadsPastPacket | WritesPastBuffer | ReadsPastBuffer | Inserted

  /** What INSERT does with a PADI/PADR, given the free bytes behind the packet. The tags are moved
      back by as many bytes as the length field says, whether the packet has them or not. */
  function InsertTag(f: Bytes, bigEndian: bool, room: nat): Insertion
    requires TAG_AREA <= |f|
  {
    match Open(f)
    case OpenRefused => Rejected
    case OpenOverrun => ReadsPastPacket
    case Opened(f1, client) => AddedTo(f1, |client|, bigEndian, |f| + room)
  }

  /** The second half, on the frame `f1` without the client's tag in a buffer of `capacity` bytes. */
  function AddedTo(f1: Bytes, clientLen: nat, bigEndian: bool, capacity: nat): Insertion
    requires TAG_AREA <= |f1| <= capacity && OWN_LEN + clientLen < 0x1_0000
  {
    var copied := CopyLen(bigEndian, OWN_LEN + clientLen);
    if capacity - |f1| < copied then Rejected
    else if TAG_AREA + copied + Be16(f1, 18) > capacity then WritesPastBuffer
    else if copied > TAG_BUF_LEN then ReadsPastBuffer
    else Inserted
  }

  /** The bytes the length field counts, as far as the packet has them. */
  function Counted(f: Bytes): (n: nat)
    requires TAG_AREA <= |f|
    ensures TAG_AREA + n <= |f|
  {
    if TAG_AREA + Be16(f, 18) <= |f| then Be16(f, 18) else |f| - TAG_AREA
  }

  /** The bytes up to the end of the tags after the new tag is put in front of them. */
  function Prefixed(f: Bytes, tag: Bytes): Bytes
    requires TAG_AREA <= |f|
  {
    SetU16(f[..TAG_AREA], 18, Be16(f, 18) + |tag|) + tag + f[TAG_AREA..TAG_AREA + Counted(f)]
  }

  /** For any frame, well formed or not: the new tag comes first, the length field counts it, and
      every byte of the tag area that the packet has follows it. */
  lemma PrefixedKeeps(f: Bytes, tag: Bytes)
    requires TAG_AREA <= |f|
    ensures var n, r := Be16(f, 18), Prefixed(f, tag);
      && 20 + |tag| <= |r| && r[..18] == f[..18] && Be16(r, 18) == (n + |tag|) % 0x1_0000 && r[20..20 + |tag|] == tag
      && r[20 + |tag|..] == if 20 + n <= |f| then f[20..20 + n] else f[20..]
  {
    var n, m := Be16(f, 18), (Be16(f, 18) + |tag|) % 0x1_0000;
    var tags := f[TAG_AREA..TAG_AREA + Counted(f)];
    assert f[..TAG_AREA] == f[..18] + f[18..20] + [];
    SetMiddle(f[..18], f[18..20], [], m);
    Parts(f[..18] + U16(m), tag, tags);
    Be16Middle(f[..18], m, tag + tags);
    Assoc(f[..18] + U16(m), tag, tags);
    assert f[..18] + U16(m) + [] == f[..18] + U16(m);
  }

  /** The driver's tag as the concentrator and every relay on the way see it. */
  lemma TagOnTheWire(mac: Bytes, client: Bytes)
    requires |mac| == 6 && |client| < 0x1_0000 - OWN_LEN
    ensures RelayTag(mac, client) ==
      [0x01, 0x10, (8 + |client|) / 256, (8 + |client|) % 256, 0x81, 0x86] + mac + client
  {
  }

  /** A well-formed frame is opened into the same frame without its first relay tag. */
  lemma OpenFrame(d: Discovery, before: seq<Bytes>, client: Bytes, after: seq<Bytes>)
    requires |client| <= TAG_BUF_LEN - TAG_HDR_LEN - OWN_LEN
    requires WellFormed(d) && d.tags == before + [MakeTag(RELAY_SID, client)] + after
    requires AllTags(before) && Lacks(before, RELAY_SID)
    ensures var d' := d.(tags := before + after);
      WellFormed(d') && Open(FrameBytes(d)) == Opened(FrameBytes(d'), client)
  {
    OpenTag(d, before, MakeTag(RELAY_SID, client), after);
  }

  lemma OpenTag(d: Discovery, before: seq<Bytes>, tag: Bytes, after: seq<Bytes>)
    requires IsTag(tag) && TypeOf(tag) == RELAY_SID && |tag| + OWN_LEN <= TAG_BUF_LEN
    requires WellFormed(d) && d.tags == before + [tag] + after
    requires AllTags(before) && Lacks(before, RELAY_SID)
    ensures var d' := d.(tags := before + after);
      WellFormed(d') && Open(FrameBytes(d)) == Opened(FrameBytes(d'), tag[TAG_HDR_LEN..])
  {
    var d', n, rest := d.(tags := before + after), |Flat(d.tags)|, Flat(after) + d.pad;
    TagLayout(d, before, tag, after);
    JoinedFrame(d, before, tag, after);
    var f, f' := FrameBytes(d), FrameBytes(d');
    assert f' == d.front + U16(n - |tag|) + Flat(before) + rest;
    OpenParts(f, d.front, n, before, tag, rest, f');
  }

  lemma OpenParts(f: Bytes, front: Bytes, n: nat, before: seq<Bytes>, tag: Bytes, rest: Bytes, f': Bytes)
    requires |front| == 18 && IsTag(tag) && |Flat(before)| + |tag| <= n < 0x1_0000
    requires f == front + U16(n) + Flat(before) + tag + rest && Find(f, RELAY_SID) == At(|Flat(before)|)
    requires |tag| + OWN_LEN <= TAG_BUF_LEN && f' == front + U16(n - |tag|) + Flat(before) + rest
    ensures Open(f) == Opened(f', tag[TAG_HDR_LEN..])
  {
    OpenAt(f, front, n, Flat(before), tag, rest);
  }

  lemma OpenAt(f: Bytes, front: Bytes, n: nat, fb: Bytes, tag: Bytes, rest: Bytes)
    requires |front| == 18 && IsTag(tag) && |fb| + |tag| <= n < 0x1_0000
    requires f == front + U16(n) + fb + tag + rest && Find(f, RELAY_SID) == At(|fb|)
    requires |tag| + OWN_LEN <= TAG_BUF_LEN
    ensures Open(f) == Opened(front + U16(n - |tag|) + fb + rest, tag[TAG_HDR_LEN..])
  {
    TagRead(front + U16(n) + fb, tag, rest);
    ShortenedParts(front, n, fb, tag, rest);
  }

  lemma TagRead(h: Bytes, tag: Bytes, rest: Bytes)
    requires IsTag(tag)
    ensures var f := h + tag + rest;
      Be16(f, |h| + 2) == |tag| - TAG_HDR_LEN && f[|h| + TAG_HDR_LEN..|h| + |tag|] == tag[TAG_HDR_LEN..]
  {
    ReadMiddle(h, tag, rest);
    assert tag[4..|tag|] == tag[4..];
  }

  lemma JoinedFrame(d: Discovery, before: seq<Bytes>, tag: Bytes, after: seq<Bytes>)
    requires WellFormed(d) && d.tags == before + [tag] + after
    requires |Flat(d.tags)| == |Flat(before)| + |tag| + |Flat(after)|
    ensures var d' := d.(tags := before + after);
      WellFormed(d') && FrameBytes(d') == d.front + U16(|Flat(d.tags)| - |tag|) + Flat(before) + (Flat(after) + d.pad)
  {
    TagsOfParts(before + [tag], after);
    TagsOfParts(before, [tag]);
    TagsOfParts(before, after);
    FlatConcat(before, after);
    Assoc(Flat(before), Flat(after), d.pad);
    Assoc(d.front + U16(|Flat(d.tags)| - |tag|), Flat(before), Flat(after) + d.pad);
  }

  /** Putting a tag in front of a well-formed frame's tags. */
  lemma PrefixFrame(d: Discovery, tag: Bytes)
    requires WellFormed(d) && IsTag(tag) && |tag| + |Flat(d.tags)| < 0x1_0000
    ensures var f := FrameBytes(d); var d' := Discovery(d.front, [tag] + d.tags, []);
      TAG_AREA <= |f| && TAG_AREA + Be16(f, 18) <= |f| && WellFormed(d') && Prefixed(f, tag) == FrameBytes(d')
  {
    FrameLayout(d);
    var f, n := FrameBytes(d), |Flat(d.tags)|;
    assert ([tag] + d.tags)[1..] == d.tags;
    assert f[..TAG_AREA] == d.front + U16(n) + [];
    SetMiddle(d.front, U16(n), [], n + |tag|);
    assert f[TAG_AREA..TAG_AREA + n] == f[TAG_AREA..][..n] == Flat(d.tags);
    var u := d.front + U16(n + |tag|);
    assert u + [] == u;
    Assoc(u, tag, Flat(d.tags));
    assert tag + Flat(d.tags) + [] == tag + Flat(d.tags);
  }

  /** A client's relay tag too long for the buffer is refused. */
  lemma OpenTooLong(d: Discovery, before: seq<Bytes>, tag: Bytes, after: seq<Bytes>)
    requires IsTag(tag) && TypeOf(tag) == RELAY_SID && |tag| + OWN_LEN > TAG_BUF_LEN
    requires WellFormed(d) && d.tags == before + [tag] + after
    requires AllTags(before) && Lacks(before, RELAY_SID)
    ensures Open(FrameBytes(d)) == OpenRefused
  {
    TagLayout(d, before, tag, after);
    TagRead(d.front + U16(|Flat(d.tags)|) + Flat(before), tag, Flat(after) + d.pad);
  }

  /** A PADI/PADR that carries a relay tag gets the driver's tag exactly on a big-endian host with
      room for what that adds, if the client's fits the buffer beside it. */
  lemma InsertedExactly(d: Discovery, before: seq<Bytes>, client: Bytes, after: seq<Bytes>, bigEndian: bool, room: nat)
    requires |client| < 0x1_0000
    requires WellFormed(d) && d.tags == before + [MakeTag(RELAY_SID, client)] + after
    requires AllTags(before) && Lacks(before, RELAY_SID)
    ensures InsertTag(FrameBytes(d), bigEndian, room) == Inserted <==>
      bigEndian && OWN_LEN <= room && |client| <= TAG_BUF_LEN - TAG_HDR_LEN - OWN_LEN
    ensures InsertTag(FrameBytes(d), bigEndian, room) == WritesPastBuffer ==> !bigEndian
  {
    if |client| <= TAG_BUF_LEN - TAG_HDR_LEN - OWN_LEN {
      var d' := d.(tags := before + after);
      OpenFrame(d, before, client, after);
      CopyLenExact(bigEndian, OWN_LEN + |client|);
      FlatAround(before, MakeTag(RELAY_SID, client), after);
      FlatConcat(before, after);
      FrameLayout(d');
    } else {
      OpenTooLong(d, before, MakeTag(RELAY_SID, client), after);
    }
  }

  /** The same for a frame that carries no relay tag yet. */
  lemma InsertedExactlyWithout(d: Discovery, bigEndian: bool, room: nat)
    requires WellFormed(d) && Lacks(d.tags, RELAY_SID)
    ensures InsertTag(FrameBytes(d), bigEndian, room) == Inserted <==> bigEndian && TAG_HDR_LEN + OWN_LEN <= room
    ensures InsertTag(FrameBytes(d), bigEndian, room) == WritesPastBuffer ==> !bigEndian
  {
    FindNone(d, RELAY_SID);
    CopyLenExact(bigEndian, OWN_LEN);
    FrameLayout(d);
  }

  /** On a little-endian host a frame is refused for want of 2052 bytes, and 256 more for each byte of
      the client's tag; where there are so many, the copy runs past the tag's own buffer. */
  lemma LittleEndianRefuses(d: Discovery, room: nat)
    requires WellFormed(d) && Lacks(d.tags, RELAY_SID)
    ensures InsertTag(FrameBytes(d), false, room) == if room < 2052 then Rejected else ReadsPastBuffer
  {
    FindNone(d, RELAY_SID);
    FrameLayout(d);
  }

  lemma LittleEndianRefusesMore(d: Discovery, before: seq<Bytes>, client: Bytes, after: seq<Bytes>, room: nat)
    requires |client| <= TAG_BUF_LEN - TAG_HDR_LEN - OWN_LEN
    requires WellFormed(d) && d.tags == before + [MakeTag(RELAY_SID, client)] + after
    requires AllTags(before) && Lacks(before, RELAY_SID)
    ensures InsertTag(FrameBytes(d), false, room)
         == if room + |client| < 2048 + 256 * |client| then Rejected else ReadsPastBuffer
  {
    var d' := d.(tags := before + after);
    OpenFrame(d, before, client, after);
    FlatAround(before, MakeTag(RELAY_SID, client), after);
    FlatConcat(before, after);
    FrameLayout(d');
    AddedLittle(FrameBytes(d'), |client|, |FrameBytes(d)| + room, room + TAG_HDR_LEN + |client|);
  }

  lemma AddedLittle(f1: Bytes, n: nat, capacity: nat, free: nat)
    requires TAG_AREA <= |f1| && TAG_AREA + Be16(f1, 18) <= |f1| && capacity == |f1| + free && n <= TAG_BUF_LEN - TAG_HDR_LEN - OWN_LEN
    ensures AddedTo(f1, n, false, capacity) == if free < 2052 + 256 * n then Rejected else ReadsPastBuffer
  {
  }

  /** For any frame without a relay tag, well formed or not: the move of the tags leaves the buffer
      exactly when the length field counts more bytes past the packet than the tag leaves room for. */
  lemma InsideExactly(f: Bytes, room: nat)
    requires TAG_AREA <= |f| && Find(f, RELAY_SID) == Absent
    ensures InsertTag(f, true, room) == WritesPastBuffer <==>
      TAG_HDR_LEN + OWN_LEN <= room && TAG_AREA + Be16(f, 18) - |f| > room - TAG_HDR_LEN - OWN_LEN
  {
  }

  /** Such a frame: one tag that claims 65535 bytes of data it does not have. */
  lemma LongTagWritesPast(front: Bytes, room: nat)
    requires |front| == 18 && TAG_HDR_LEN + OWN_LEN <= room < 60000
    ensures InsertTag(front + [0xFF, 0xFF] + [0x01, 0x01, 0xFF, 0xFF], true, room) == WritesPastBuffer
  {
    var f := front + [0xFF, 0xFF] + [0x01, 0x01, 0xFF, 0xFF];
    assert Be16(f, TAG_AREA) == 0x0101 && Be16(f, TAG_AREA + 2) == 0xFFFF && Be16(f, 18) == 0xFFFF;
    assert Scan(f, TAG_HDR_LEN + 0xFFFF, 0xFFFF, RELAY_SID) == Absent;
    InsideExactly(f, room);
  }

  /** The whole round trip: a client's frame `d` is tagged, the concentrator's answer `e` carries
      that tag unchanged among tags of its own, and stripping `e` addresses it to the client and
      leaves the client the relay tag it sent, if it had content, and everything else in place. */
  lemma RelayRoundTrip(d: Discovery, before: seq<Bytes>, client: Bytes, after: seq<Bytes>,
                       e: Discovery, first: seq<Bytes>, last: seq<Bytes>)
    requires |client| <= TAG_BUF_LEN - TAG_HDR_LEN - OWN_LEN
    requires WellFormed(d) && d.tags == before + [MakeTag(RELAY_SID, client)] + after
    requires AllTags(before) && Lacks(before, RELAY_SID) && |Flat(d.tags)| + OWN_LEN < 0x1_0000
    requires WellFormed(e) && e.tags == first + [RelayTag(d.front[6..12], client)] + last
    requires AllTags(first) && Lacks(first, RELAY_SID)
    ensures var mac := d.front[6..12]; var o := Open(FrameBytes(d));
      && var sent := Discovery(d.front, [RelayTag(mac, client)] + (before + after), []);
      && WellFormed(sent) && o.Opened? && o.client == client
      && TAG_AREA <= |o.frame| && TAG_AREA + Be16(o.frame, 18) <= |o.frame| && o.frame[6..12] == mac
      && Prefixed(o.frame, RelayTag(mac, client)) == FrameBytes(sent)
    ensures var mac := d.front[6..12];
      var got := Discovery(SetDst(e.front, mac), first + ClientTags(client) + last, e.pad);
      WellFormed(got) && Strip(FrameBytes(e)) == Relayed(FrameBytes(got))
  {
    var mac := d.front[6..12];
    OpenFrame(d, before, client, after);
    var d' := d.(tags := before + after);
    FlatAround(before, MakeTag(RELAY_SID, client), after);
    FlatConcat(before, after);
    PrefixFrame(d', RelayTag(mac, client));
    FrameLayout(d');
    assert FrameBytes(d')[6..12] == FrameBytes(d')[..18][6..12];
    StripRestores(e, first, mac, client, last);
  }

  /** The same for a client whose frame carries no relay tag: it gets none back. */
  lemma RelayRoundTripWithout(d: Discovery, e: Discovery, first: seq<Bytes>, last: seq<Bytes>)
    requires WellFormed(d) && Lacks(d.tags, RELAY_SID) && |Flat(d.tags)| + TAG_HDR_LEN + OWN_LEN < 0x1_0000
    requires WellFormed(e) && e.tags == first + [RelayTag(d.front[6..12], [])] + last
    requires AllTags(first) && Lacks(first, RELAY_SID)
    ensures var mac, f := d.front[6..12], FrameBytes(d);
      var sent := Discovery(d.front, [RelayTag(mac, [])] + d.tags, []);
      && WellFormed(sent) && Open(f) == Opened(f, [])
      && TAG_AREA + Be16(f, 18) <= |f| && f[6..12] == mac
      && Prefixed(f, RelayTag(mac, [])) == FrameBytes(sent)
    ensures var got := Discovery(SetDst(e.front, d.front[6..12]), first + last, e.pad);
      WellFormed(got) && Strip(FrameBytes(e)) == Relayed(FrameBytes(got))
  {
    var mac := d.front[6..12];
    FindNone(d, RELAY_SID);
    PrefixFrame(d, RelayTag(mac, []));
    FrameLayout(d);
    assert FrameBytes(d)[6..12] == FrameBytes(d)[..18][6..12];
    StripRemoves(e, first, mac, last);
  }

  lemma StripRemoves(e: Discovery, first: seq<Bytes>, mac: Bytes, last: seq<Bytes>)
    requires |mac| == 6 && WellFormed(e) && e.tags == first + [RelayTag(mac, [])] + last
    requires AllTags(first) && Lacks(first, RELAY_SID)
    ensures var got := Discovery(SetDst(e.front, mac), first + last, e.pad);
      WellFormed(got) && Strip(FrameBytes(e)) == Relayed(FrameBytes(got))
  {
    StripRestores(e, first, mac, [], last);
    assert first + ClientTags([]) + last == first + last;
  }
}
