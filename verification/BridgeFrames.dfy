/** Whole frames through the bridge extension (`nat25_db_handle`, `nat25_handle_frame`,
    core/rtw_br_ext.c): the protocol arms, the shortcut, and the 802.1Q tag around them. */
module BridgeFrames {
  import opened ByteSeqs
  import opened Nat25Db
  import opened Pppoe
  import opened Packets
  import Nat25Map
  import Nat25Shortcut
  import Nat25Table

  const ETH_P_IP := 0x0800
  const ETH_P_ARP := 0x0806
  const ETH_P_8021Q := 0x8100
  const ETH_P_IPV6 := 0x86DD
  const ETH_P_PPP_DISC := 0x8863
  const ETH_P_PPP_SES := 0x8864
  const PADO := 0x07
  const PADS := 0x65
  const WAIT_TIME_PPPOE := 5
  const BROADCAST: Mac := [0xFF, 0xFF, 0xFF, 0xFF, 0xFF, 0xFF]

  /** The settings and addresses the handlers read. */
  datatype Bridge = Bridge(natDisable: bool, scDisable: bool, addTag: bool,
                           brIp: Ip, brMac: Mac, pppoeAddr: Mac)

  /** The shortcut's cached client. */
  datatype Cached = Cached(ip: Bytes, mac: Mac)

  function EtherType(f: Bytes): nat
    requires 14 <= |f|
  {
    Be16(f, 12)
  }

  predicate SameBytes(env: Env, a: Bytes, b: Bytes) {
    if env.equalIsZero then a == b else a != b
  }

  predicate IsPppoe(f: Bytes)
    requires 14 <= |f|
  {
    EtherType(f) == ETH_P_PPP_DISC || EtherType(f) == ETH_P_PPP_SES
  }

  function ArpTargetIp(f: Bytes): nat
    requires 22 <= |f|
  {
    22 + 2 * f[18] as int + f[19]
  }

  function ArpTargetMac(f: Bytes): nat
    requires 22 <= |f|
  {
    22 + f[18] as int + f[19]
  }

  /** The packet holds every field the handlers read; they do not check. */
  predicate Readable(f: Bytes) {
    && 14 <= |f|
    && (EtherType(f) == ETH_P_IP ==> 34 <= |f|)
    && (EtherType(f) == ETH_P_ARP ==> 42 <= |f| && ArpTargetIp(f) + 4 <= |f| && ArpTargetMac(f) + 6 <= |f|)
    && (IsPppoe(f) ==> TAG_AREA <= |f|)
  }

  // ---------------------------------------------------------------- LOOKUP on values

  /** What handling a frame returns, leaves in the packet, does to the database, and leaves of
      the countdown of an untagged PPPoE connection. */
  datatype Handled = Handled(ret: int, frame: Bytes, events: seq<Event>, wait: nat)

  function Overwrite(f: Bytes, i: nat, bytes: Bytes): (r: Bytes)
    requires i + |bytes| <= |f|
    ensures |r| == |f|
  {
    f[..i] + bytes + f[i + |bytes|..]
  }

  /** The destination the database names, if it does. */
  function Redirect(f: Bytes, a: Answer): (r: Bytes)
    requires 6 <= |f|
    ensures |r| == |f|
  {
    if a.Client? then Overwrite(f, 0, a.mac) else f
  }

  /** What a frame makes the handler look up. */
  datatype Question = NoQuestion | About(key: Key)

  function QuestionOf(f: Bytes): Question
    requires Readable(f)
  {
    if EtherType(f) == ETH_P_IP then
      if 4 * (f[14] % 16) >= |f| then NoQuestion else About(Ipv4Key(f[30..34]))
    else if EtherType(f) == ETH_P_ARP then
      if Be16(f, 16) != ETH_P_IP then NoQuestion else About(Ipv4Key(f[ArpTargetIp(f)..ArpTargetIp(f) + 4]))
    else if IsPppoe(f) then
      if f[15] == PADO || f[15] == PADS || f[16..18] == [0, 0] then NoQuestion else About(PppoeKey(f[6..12], f[16..18]))
    else if EtherType(f) == ETH_P_IPV6 then
      if 40 >= |f| - 14 then NoQuestion else About(Ipv6Key(f[38..54]))
    else NoQuestion
  }

  /** What a LOOKUP arm returns and leaves, given the database's answer. */
  datatype Response = Response(ret: int, frame: Bytes, wait: nat)

  function RespondIp(br: Bridge, f: Bytes, a: Answer): Bytes
    requires 34 <= |f|
  {
    if a == Missing then Overwrite(f, 0, if f[33] == 0xFF then BROADCAST else br.brMac) else Redirect(f, a)
  }

  function RespondArp(f: Bytes, a: Answer): Bytes
    requires Readable(f) && EtherType(f) == ETH_P_ARP
  {
    var g := Redirect(f, a);
    Overwrite(g, ArpTargetMac(f), g[..6])
  }

  function RespondDiscovery(br: Bridge, f: Bytes, wait: nat): Response
    requires TAG_AREA <= |f|
  {
    if br.addTag then
      match Strip(f)
      case Relayed(g) => Response(0, g, wait)
      case _ => Response(-1, f, wait)
    else if wait == 0 then Response(-1, f, wait)
    else Response(0, Overwrite(f, 0, br.pppoeAddr), WAIT_TIME_PPPOE)
  }

  function Respond(br: Bridge, f: Bytes, q: Question, a: Answer, wait: nat): Response
    requires Readable(f) && q == QuestionOf(f)
  {
    if q.About? then
      Response(0, if EtherType(f) == ETH_P_IP then RespondIp(br, f, a)
                  else if EtherType(f) == ETH_P_ARP then RespondArp(f, a) else Redirect(f, a), wait)
    else if IsPppoe(f) && (f[15] == PADO || f[15] == PADS) then RespondDiscovery(br, f, wait)
    else Response(if EtherType(f) in {0x888E, 0xE2AE, 0xE2AF} then 0 else -1, f, wait)
  }

  /** The LOOKUP method of `nat25_db_handle`. */
  function LookupFrame(env: Env, br: Bridge, db: Db, f: Bytes, wait: nat, now: int): Handled
    requires Readable(f)
  {
    var q := QuestionOf(f);
    var a := if q.About? then Ask(env, db, q.key, now) else Missing;
    var r := Respond(br, f, q, a, wait);
    Handled(r.ret, r.frame, if q.About? then [Lookup(q.key, now)] else [], r.wait)
  }

  /** Whether an untagged frame goes to the database, to the shortcut, or past both. */
  predicate TakesShortcut(env: Env, br: Bridge, sc: Cached, f: Bytes)
    requires Readable(f)
  {
    !br.natDisable && !br.scDisable && EtherType(f) == ETH_P_IP && SameBytes(env, sc.ip, f[30..34])
  }

  predicate ForUpperLayer(env: Env, br: Bridge, f: Bytes)
    requires Readable(f)
  {
    || (EtherType(f) == ETH_P_IP && SameBytes(env, br.brIp, f[30..34]))
    || (EtherType(f) == ETH_P_ARP && SameBytes(env, br.brIp, f[38..42]))
  }

  function HandleUntagged(env: Env, br: Bridge, sc: Cached, db: Db, f: Bytes, wait: nat, now: int): Handled
    requires Readable(f)
  {
    if TakesShortcut(env, br, sc, f) then Handled(0, Overwrite(f, 0, sc.mac), [], wait)
    else if !br.natDisable || ForUpperLayer(env, br, f) then LookupFrame(env, br, db, f, wait, now)
    else Handled(0, f, [], wait)
  }

  predicate Unicast(f: Bytes)
    requires 14 <= |f|
  {
    f[0] % 2 == 0
  }

  predicate IsTagged(f: Bytes)
    requires 14 <= |f|
  {
    EtherType(f) == ETH_P_8021Q
  }

  predicate Handleable(f: Bytes) {
    14 <= |f| && (if IsTagged(f) then 18 <= |f| && Readable(Untagged(f)) else Readable(f))
  }

  /** `nat25_handle_frame`: the tag comes off, the frame is handled, the tag goes back on. */
  function HandleFrame(env: Env, br: Bridge, sc: Cached, db: Db, f: Bytes, wait: nat, now: int): Handled
    requires Handleable(f)
  {
    if !Unicast(f) then Handled(0, f, [], wait)
    else if IsTagged(f) then
      var h := HandleUntagged(env, br, sc, db, Untagged(f), wait, now);
      HandledIsFrame(env, br, sc, db, Untagged(f), wait, now);
      h.(frame := Tagged(h.frame, f[14..16]))
    else HandleUntagged(env, br, sc, db, f, wait, now)
  }

  /** Handling never leaves less than the addresses and the type. */
  lemma HandledIsFrame(env: Env, br: Bridge, sc: Cached, db: Db, f: Bytes, wait: nat, now: int)
    requires Readable(f)
    ensures 14 <= |HandleUntagged(env, br, sc, db, f, wait, now).frame|
  {
  }

  /** For every unicast frame without a tag and every tag: tagging the frame, handling it and
      handling it first and tagging the result are the same, in the packet, in what is returned
      and in the database. */
  lemma TaggingCommutes(env: Env, br: Bridge, sc: Cached, db: Db, f: Bytes, tci: Bytes, wait: nat, now: int)
    requires Readable(f) && Unicast(f) && !IsTagged(f) && |tci| == 2
    ensures Handleable(Tagged(f, tci))
    ensures var h := HandleFrame(env, br, sc, db, f, wait, now);
      12 <= |h.frame| && HandleFrame(env, br, sc, db, Tagged(f, tci), wait, now) == h.(frame := Tagged(h.frame, tci))
  {
    TagRoundTrip(f, tci);
    HandledIsFrame(env, br, sc, db, f, wait, now);
  }

  /** The same seen from the tagged frame. */
  lemma HandledUnderTag(env: Env, br: Bridge, sc: Cached, db: Db, f: Bytes, wait: nat, now: int)
    requires Handleable(f) && Unicast(f) && IsTagged(f) && !IsTagged(Untagged(f))
    ensures var u := HandleFrame(env, br, sc, db, Untagged(f), wait, now);
      12 <= |u.frame| && HandleFrame(env, br, sc, db, f, wait, now) == u.(frame := Tagged(u.frame, f[14..16]))
  {
    HandledIsFrame(env, br, sc, db, Untagged(f), wait, now);
  }

  // ---------------------------------------------------------------- LOOKUP in place

  method Classify(skb: Skb, ghost f: Bytes) returns (q: Question)
    requires skb.Valid() && skb.Contents() == f && Readable(f)
    ensures q == QuestionOf(f)
  {
    var typ := skb.Get16(12);
    if typ == ETH_P_IP {
      var ihl := skb.Get(14);
      if 4 * (ihl % 16) >= skb.tail - skb.data {
        return NoQuestion;
      }
      var ip := skb.Read(30, 4);
      return About(Ipv4Key(ip));
    } else if typ == ETH_P_ARP {
      var pro := skb.Get16(16);
      if pro != ETH_P_IP {
        return NoQuestion;
      }
      var hln := skb.Get(18);
      var pln := skb.Get(19);
      var ip := skb.Read(22 + 2 * hln as int + pln, 4);
      return About(Ipv4Key(ip));
    } else if typ == ETH_P_PPP_DISC || typ == ETH_P_PPP_SES {
      var code := skb.Get(15);
      var sid := skb.Read(16, 2);
      if code == PADO || code == PADS || sid == [0, 0] {
        return NoQuestion;
      }
      var ac := skb.Read(6, 6);
      return About(PppoeKey(ac, sid));
    } else if typ == ETH_P_IPV6 && 40 < skb.tail - skb.data - 14 {
      var ip := skb.Read(38, 16);
      return About(Ipv6Key(ip));
    }
    return NoQuestion;
  }

  /** `_rtw_memcpy(skb->data, db->macAddr, ETH_ALEN)` when the database names a client. */
  method Redirected(skb: Skb, a: Answer)
    requires skb.Valid() && 6 <= |skb.Contents()|
    modifies skb.buf
    ensures skb.Valid() && skb.Contents() == Redirect(old(skb.Contents()), a)
  {
    if a.Client? {
      skb.Write(0, a.mac);
    }
  }

  method AnswerIp(skb: Skb, br: Bridge, a: Answer)
    requires skb.Valid() && 34 <= |skb.Contents()|
    modifies skb.buf
    ensures skb.Valid() && skb.Contents() == RespondIp(br, old(skb.Contents()), a)
  {
    if a == Missing {
      var last := skb.Get(33);
      skb.Write(0, if last == 0xFF then BROADCAST else br.brMac);
    } else {
      Redirected(skb, a);
    }
  }

  method AnswerArp(skb: Skb, a: Answer)
    requires skb.Valid() && Readable(skb.Contents()) && EtherType(skb.Contents()) == ETH_P_ARP
    modifies skb.buf
    ensures skb.Valid() && skb.Contents() == RespondArp(old(skb.Contents()), a)
  {
    ghost var f := skb.Contents();
    var hln := skb.Get(18);
    var pln := skb.Get(19);
    var p: nat := 22 + hln as int + pln;
    assert p == ArpTargetMac(f);
    Redirected(skb, a);
    CopyDst(skb, p);
  }

  method CopyDst(skb: Skb, p: nat)
    requires skb.Valid() && p + 6 <= |skb.Contents()|
    modifies skb.buf
    ensures skb.Valid() && skb.Contents() == Overwrite(old(skb.Contents()), p, old(skb.Contents())[..6])
  {
    var dst := skb.Read(0, 6);
    skb.Write(p, dst);
  }

  method AnswerDiscovery(skb: Skb, br: Bridge, wait: nat) returns (ret: int, wait': nat)
    requires skb.Valid() && TAG_AREA <= |skb.Contents()|
    modifies skb, skb.buf
    ensures skb.Valid() && skb.data == old(skb.data)
    ensures Response(ret, skb.Contents(), wait') == RespondDiscovery(br, old(skb.Contents()), wait)
  {
    if br.addTag {
      var r := skb.StripRelay();
      return if r.Relayed? then 0 else -1, wait;
    }
    if wait == 0 {
      return -1, wait;
    }
    skb.Write(0, br.pppoeAddr);
    return 0, WAIT_TIME_PPPOE;
  }

  /** The rest of a LOOKUP arm once the database has answered. */
  method Answered(skb: Skb, br: Bridge, q: Question, a: Answer, wait: nat, ghost f: Bytes) returns (ret: int, wait': nat)
    requires skb.Valid() && skb.Contents() == f && Readable(f) && q == QuestionOf(f)
    modifies skb, skb.buf
    ensures skb.Valid() && skb.data == old(skb.data)
    ensures Response(ret, skb.Contents(), wait') == Respond(br, f, q, a, wait)
  {
    ret, wait' := 0, wait;
    var typ := skb.Get16(12);
    if q.About? {
      if typ == ETH_P_IP {
        AnswerIp(skb, br, a);
      } else if typ == ETH_P_ARP {
        AnswerArp(skb, a);
      } else {
        Redirected(skb, a);
      }
    } else if typ == ETH_P_PPP_DISC || typ == ETH_P_PPP_SES {
      var code := skb.Get(15);
      if code == PADO || code == PADS {
        ret, wait' := AnswerDiscovery(skb, br, wait);
      } else {
        ret := -1;
      }
    } else {
      ret := if typ in {0x888E, 0xE2AE, 0xE2AF} then 0 else -1;
    }
  }

  /** Read the address to look up out of the packet and look it up. */
  method Consult(t: Nat25Table.Table, skb: Skb, now: int, ghost f: Bytes) returns (q: Question, a: Answer)
    requires t.Valid() && skb.Valid() && skb.Contents() == f && Readable(f)
    modifies t.nethash, t.Live()
    ensures t.Valid() && t.Live() == old(t.Live()) && skb.Contents() == f
    ensures q == QuestionOf(f) && a == if q.About? then Ask(t.env, old(t.Contents()), q.key, now) else Missing
    ensures t.Contents() == Run(t.env, old(t.Contents()), if q.About? then [Lookup(q.key, now)] else [])
  {
    q := Classify(skb, f);
    a := Missing;
    if q.About? {
      RunOne(t.env, t.Contents(), Lookup(q.key, now));
      a := t.Lookup(q.key, now);
    }
  }

  /** The LOOKUP method of `nat25_db_handle`. */
  method DoLookup(t: Nat25Table.Table, skb: Skb, br: Bridge, wait: nat, now: int, ghost f: Bytes)
    returns (ret: int, wait': nat, ghost h: Handled)
    requires t.Valid() && skb.Valid() && skb.Contents() == f && Readable(f)
    modifies t.nethash, t.Live(), skb, skb.buf
    ensures h == LookupFrame(t.env, br, old(t.Contents()), f, wait, now)
    ensures skb.Valid() && skb.data == old(skb.data) && skb.Contents() == h.frame && ret == h.ret && wait' == h.wait
    ensures t.Valid() && t.Live() == old(t.Live()) && t.Contents() == Run(t.env, old(t.Contents()), h.events)
  {
    h := LookupFrame(t.env, br, t.Contents(), f, wait, now);
    var q, a := Consult(t, skb, now, f);
    ret, wait' := Answered(skb, br, q, a, wait, f);
  }

  lemma RunOne(env: Env, db: Db, ev: Event)
    ensures Run(env, db, [ev]) == Apply(env, db, ev)
  {
    assert [ev][..0] == [];
  }

  /** Whether the shortcut answers, and whether the database is asked. */
  method Route(t: Nat25Table.Table, skb: Skb, br: Bridge, ghost f: Bytes) returns (shortcut: bool, lookup: bool)
    requires skb.Valid() && skb.Contents() == f && Readable(f)
    ensures shortcut == TakesShortcut(t.env, br, Cached(t.sc.ip, t.sc.mac), f)
    ensures lookup == (!br.natDisable || ForUpperLayer(t.env, br, f))
  {
    var typ := skb.Get16(12);
    shortcut, lookup := false, !br.natDisable;
    if typ == ETH_P_IP {
      var ip := skb.Read(30, 4);
      shortcut := !br.natDisable && !br.scDisable && SameBytes(t.env, t.sc.ip, ip);
      lookup := lookup || SameBytes(t.env, br.brIp, ip);
    } else if typ == ETH_P_ARP {
      var ip := skb.Read(38, 4);
      lookup := lookup || SameBytes(t.env, br.brIp, ip);
    }
  }

  method DoHandleUntagged(t: Nat25Table.Table, skb: Skb, br: Bridge, wait: nat, now: int, ghost f: Bytes)
    returns (ret: int, wait': nat, ghost h: Handled)
    requires t.Valid() && skb.Valid() && skb.Contents() == f && Readable(f)
    modifies t.nethash, t.Live(), skb, skb.buf
    ensures h == HandleUntagged(t.env, br, Cached(t.sc.ip, t.sc.mac), old(t.Contents()), f, wait, now)
    ensures skb.Valid() && skb.data == old(skb.data) && skb.Contents() == h.frame && ret == h.ret && wait' == h.wait
    ensures t.Valid() && t.Live() == old(t.Live()) && t.Contents() == Run(t.env, old(t.Contents()), h.events)
  {
    h := HandleUntagged(t.env, br, Cached(t.sc.ip, t.sc.mac), t.Contents(), f, wait, now);
    var shortcut, lookup := Route(t, skb, br, f);
    if shortcut {
      skb.Write(0, t.sc.mac);
      ret, wait' := 0, wait;
    } else if lookup {
      ret, wait', h := DoLookup(t, skb, br, wait, now, f);
    } else {
      ret, wait' := 0, wait;
    }
  }

  /** `nat25_handle_frame` in place, tag and all: a tagged frame comes out as the frame inside would,
      under the same tag. */
  method DoHandleFrame(t: Nat25Table.Table, skb: Skb, br: Bridge, wait: nat, now: int, ghost f: Bytes)
    returns (ret: int, wait': nat, ghost h: Handled)
    requires t.Valid() && skb.Valid() && skb.Contents() == f && Handleable(f)
    modifies t.nethash, t.Live(), skb, skb.buf
    ensures h == HandleFrame(t.env, br, Cached(t.sc.ip, t.sc.mac), old(t.Contents()), f, wait, now)
    ensures skb.Valid() && skb.Contents() == h.frame && ret == h.ret && wait' == h.wait
    ensures t.Valid() && t.Contents() == Run(t.env, old(t.Contents()), h.events)
    ensures Unicast(f) && IsTagged(f) && !IsTagged(Untagged(f)) ==>
      var u := HandleFrame(t.env, br, Cached(t.sc.ip, t.sc.mac), old(t.Contents()), Untagged(f), wait, now);
      && 12 <= |u.frame| && skb.Contents() == Tagged(u.frame, f[14..16]) && ret == u.ret && wait' == u.wait
      && t.Contents() == Run(t.env, old(t.Contents()), u.events)
  {
    if Unicast(f) && IsTagged(f) && !IsTagged(Untagged(f)) {
      HandledUnderTag(t.env, br, Cached(t.sc.ip, t.sc.mac), t.Contents(), f, wait, now);
    }
    ret, wait', h := HandleAny(t, skb, br, wait, now, f);
  }

  method HandleAny(t: Nat25Table.Table, skb: Skb, br: Bridge, wait: nat, now: int, ghost f: Bytes)
    returns (ret: int, wait': nat, ghost h: Handled)
    requires t.Valid() && skb.Valid() && skb.Contents() == f && Handleable(f)
    modifies t.nethash, t.Live(), skb, skb.buf
    ensures h == HandleFrame(t.env, br, Cached(t.sc.ip, t.sc.mac), old(t.Contents()), f, wait, now)
    ensures skb.Valid() && skb.Contents() == h.frame && ret == h.ret && wait' == h.wait
    ensures t.Valid() && t.Contents() == Run(t.env, old(t.Contents()), h.events)
  {
    h := HandleFrame(t.env, br, Cached(t.sc.ip, t.sc.mac), t.Contents(), f, wait, now);
    var first := skb.Get(0);
    if first % 2 != 0 {
      return 0, wait, h;
    }
    var typ := skb.Get16(12);
    if typ != ETH_P_8021Q {
      ret, wait', h := DoHandleUntagged(t, skb, br, wait, now, f);
      return;
    }
    ret, wait', h := DoHandleTagged(t, skb, br, wait, now, f);
  }

  method DoHandleTagged(t: Nat25Table.Table, skb: Skb, br: Bridge, wait: nat, now: int, ghost f: Bytes)
    returns (ret: int, wait': nat, ghost h: Handled)
    requires t.Valid() && skb.Valid() && skb.Contents() == f && Handleable(f) && IsTagged(f) && Unicast(f)
    modifies t.nethash, t.Live(), skb, skb.buf
    ensures h == HandleFrame(t.env, br, Cached(t.sc.ip, t.sc.mac), old(t.Contents()), f, wait, now)
    ensures skb.Valid() && skb.Contents() == h.frame && ret == h.ret && wait' == h.wait
    ensures t.Valid() && t.Contents() == Run(t.env, old(t.Contents()), h.events)
  {
    HandledIsFrame(t.env, br, Cached(t.sc.ip, t.sc.mac), t.Contents(), Untagged(f), wait, now);
    var tci;
    tci, ret, wait', h := DoHandleInside(t, skb, br, wait, now, f);
    skb.RestoreVlan(tci);
    h := h.(frame := Tagged(h.frame, tci));
  }

  /** The tag taken off and the frame inside handled. */
  method DoHandleInside(t: Nat25Table.Table, skb: Skb, br: Bridge, wait: nat, now: int, ghost f: Bytes)
    returns (tci: Bytes, ret: int, wait': nat, ghost h: Handled)
    requires t.Valid() && skb.Valid() && skb.Contents() == f && 18 <= |f| && Readable(Untagged(f))
    modifies t.nethash, t.Live(), skb, skb.buf
    ensures h == HandleUntagged(t.env, br, Cached(t.sc.ip, t.sc.mac), old(t.Contents()), Untagged(f), wait, now)
    ensures skb.Valid() && 4 <= skb.data && skb.Contents() == h.frame && ret == h.ret && wait' == h.wait
    ensures t.Valid() && t.Contents() == Run(t.env, old(t.Contents()), h.events) && tci == f[14..16]
  {
    tci := skb.StripVlan();
    ret, wait', h := DoHandleUntagged(t, skb, br, wait, now, Untagged(f));
  }

  // ---------------------------------------------------------------- INSERT, and what it is for

  /** The address a client's frame announces: IP source, ARP sender, or PPPoE session. */
  function AnnouncedKey(f: Bytes): Question
    requires Readable(f)
  {
    if EtherType(f) == ETH_P_IP then
      if 4 * (f[14] % 16) >= |f| || f[26..30] == [0, 0, 0, 0] then NoQuestion else About(Ipv4Key(f[26..30]))
    else if EtherType(f) == ETH_P_ARP then
      if Be16(f, 16) != ETH_P_IP then NoQuestion else About(Ipv4Key(f[22 + f[18] as int..26 + f[18] as int]))
    else if IsPppoe(f) && f[16..18] != [0, 0] then About(PppoeKey(f[..6], f[16..18]))
    else NoQuestion
  }

  /** The database event of the INSERT method on it. */
  function Announcement(f: Bytes, now: int): seq<Event>
    requires Readable(f)
  {
    var q := AnnouncedKey(f);
    if q.About? then [Insert(q.key, f[6..12], now, true)] else []
  }

  /** A client that announced an address gets every frame for it that is handled before the age
      limit, by any frame of the three families that asks for that address, whatever else the
      bridge inserted, looked up, refreshed or aged in between, exactly unless the shortcut
      answers with another MAC. An ARP answer names the client inside too. */
  lemma ClientReached(env: Env, br: Bridge, sc: Cached, db: Db, m: Nat25Map.Clients,
                      c: Bytes, t: int, mid: seq<Event>, g: Bytes, wait: nat, now: int)
    requires env.equalIsZero && Nat25Map.SaneClock(env) && Nat25Map.Denotes(db, m)
    requires Readable(c) && Readable(g) && AnnouncedKey(c).About? && QuestionOf(g) == AnnouncedKey(c)
    requires t <= now < t + AGEING_TIME * env.hz
    requires forall ev :: ev in mid ==> Nat25Map.Spares(ev, AnnouncedKey(c).key, t, now)
    requires Unicast(g) && !IsTagged(g) && !br.natDisable
    ensures var h := HandleFrame(env, br, sc, Run(env, db, Announcement(c, t) + mid), g, wait, now);
      && h.ret == 0 && |h.frame| == |g|
      && (h.frame[..6] == c[6..12] <==> (TakesShortcut(env, br, sc, g) ==> sc.mac == c[6..12]))
      && (!TakesShortcut(env, br, sc, g) ==>
            h.frame == (if EtherType(g) == ETH_P_ARP
                        then Overwrite(Overwrite(g, 0, c[6..12]), ArpTargetMac(g), c[6..12])
                        else Overwrite(g, 0, c[6..12])))
  {
    var key, mac := AnnouncedKey(c).key, c[6..12];
    Nat25Map.InsertThenLookup(env, db, m, key, mac, t, mid, now);
    assert Overwrite(g, 0, mac)[..6] == mac && Overwrite(g, 0, sc.mac)[..6] == sc.mac;
    if EtherType(g) == ETH_P_ARP {
      assert Overwrite(Overwrite(g, 0, mac), ArpTargetMac(g), mac)[..6] == Overwrite(g, 0, mac)[..6];
    }
  }

  /** Wherever the cached pair agrees with the database, an IP frame for a client that has not aged
      gets that client's MAC, whether the shortcut answers or the database does. */
  lemma ReachedWhenSynced(env: Env, br: Bridge, db: Db, s: Nat25Shortcut.Site, g: Bytes, wait: nat, now: int)
    requires env.equalIsZero && Nat25Map.Denotes(db, s.m) && Nat25Shortcut.Synced(s)
    requires Readable(g) && EtherType(g) == ETH_P_IP && Unicast(g) && !br.natDisable && g[30..34] != ZERO_IP
    requires QuestionOf(g).About? && Ipv4Key(g[30..34]) in s.m && !HasExpired(env, s.m[Ipv4Key(g[30..34])].stamp, now)
    ensures var h := HandleFrame(env, br, Cached(s.ip, s.mac), db, g, wait, now);
      h.ret == 0 && h.frame == Overwrite(g, 0, s.m[Ipv4Key(g[30..34])].mac)
  {
    Nat25Map.AskRefines(env, db, s.m, Ipv4Key(g[30..34]), now);
  }

  /** So over every run from an empty bridge whose steps are all safe for the shortcut. */
  lemma ReachedOnSafeRuns(env: Env, br: Bridge, db: Db, es: seq<Nat25Shortcut.Traffic>, g: Bytes, wait: nat, now: int)
    requires env.equalIsZero && Nat25Shortcut.AllSafe(env, Nat25Shortcut.NOBODY, es)
    requires Readable(g) && EtherType(g) == ETH_P_IP && Unicast(g) && !br.natDisable && g[30..34] != ZERO_IP
    requires QuestionOf(g).About?
    requires var s := Nat25Shortcut.Run(env, Nat25Shortcut.NOBODY, es);
      && Nat25Map.Denotes(db, s.m)
      && Ipv4Key(g[30..34]) in s.m && !HasExpired(env, s.m[Ipv4Key(g[30..34])].stamp, now)
    ensures var s := Nat25Shortcut.Run(env, Nat25Shortcut.NOBODY, es);
      HandleFrame(env, br, Cached(s.ip, s.mac), db, g, wait, now).frame == Overwrite(g, 0, s.m[Ipv4Key(g[30..34])].mac)
  {
    Nat25Shortcut.SyncedExactlyWhenSafe(env, Nat25Shortcut.NOBODY, es);
    ReachedWhenSynced(env, br, db, Nat25Shortcut.Run(env, Nat25Shortcut.NOBODY, es), g, wait, now);
  }

  /** The failing case: a cached client's address is announced by another client, whom the database
      then has; frames for the address still go to the cached one. */
  lemma TakenOverNotReached(env: Env, br: Bridge, db: Db, mac: Mac, other: Mac, g: Bytes, wait: nat, t: int, now: int)
    requires env.equalIsZero && mac != ZERO_MAC && other != mac
    requires Readable(g) && EtherType(g) == ETH_P_IP && Unicast(g) && !br.natDisable && !br.scDisable && g[30..34] != ZERO_IP
    ensures var e, a := Nat25Shortcut.Source(mac, g[30..34], t, true), Nat25Shortcut.Announce(Ipv4Key(g[30..34]), other, t, true);
      var s := Nat25Shortcut.Run(env, Nat25Shortcut.NOBODY, [e, e, a]);
      && Ipv4Key(g[30..34]) in s.m && s.m[Ipv4Key(g[30..34])].mac == other
      && HandleFrame(env, br, Cached(s.ip, s.mac), db, g, wait, now).frame == Overwrite(g, 0, mac)
  {
    Nat25Shortcut.TakenOver(env, g[30..34], mac, other, t);
  }

  /** The IPv4 address a frame announces, and the one it asks for, read off its bytes: IP source and
      destination, ARP sender and target with the usual address lengths. */
  predicate IsIp(f: Bytes)
    requires Readable(f)
  {
    f[12..14] == [0x08, 0x00]
  }

  predicate IsPlainArp(f: Bytes)
    requires Readable(f)
  {
    f[12..14] == [0x08, 0x06] && 42 <= |f| && f[16..20] == [0x08, 0x00, 6, 4]
  }

  predicate IsSession(f: Bytes)
    requires Readable(f)
  {
    20 <= |f| && f[12..14] == [0x88, 0x64]
  }

  lemma TypeBytes(f: Bytes, hi: Byte, lo: Byte)
    requires 14 <= |f|
    ensures f[12..14] == [hi, lo] <==> f[12] == hi && f[13] == lo
    ensures f[12..14] == [hi, lo] <==> EtherType(f) == 256 * hi + lo
  {
    if f[12] == hi && f[13] == lo {
      assert f[12..14] == [hi, lo];
    }
  }

  lemma ArpBytes(f: Bytes)
    requires Readable(f) && IsPlainArp(f)
    ensures EtherType(f) == ETH_P_ARP && Be16(f, 16) == ETH_P_IP && f[18] == 6 && f[19] == 4
    ensures ArpTargetIp(f) == 38 && ArpTargetMac(f) == 32
  {
    TypeBytes(f, 0x08, 0x06);
    var g := f[16..20];
    assert f[16] == g[0] && f[17] == g[1] && f[18] == g[2] && f[19] == g[3];
  }

  /** Two IP frames meet in the database exactly when the one's destination is the other's source. */
  lemma IpFramesMeet(c: Bytes, g: Bytes)
    requires Readable(c) && Readable(g) && EtherType(c) == EtherType(g) == ETH_P_IP
    requires AnnouncedKey(c).About? && QuestionOf(g).About?
    ensures QuestionOf(g) == AnnouncedKey(c) <==> g[30..34] == c[26..30]
  {
    SameIp(g[30..34], c[26..30]);
  }

  lemma SameIp(a: Ip, b: Ip)
    ensures Ipv4Key(a) == Ipv4Key(b) <==> a == b
  {
    KeysAreInjective(a, b, ZERO_MAC, ZERO_MAC, [0, 0], [0, 0]);
  }

  /** An ARP request or answer for an address meets the ARP frame of its owner, and the IP frames
      for it do too: on the sender's and the asker's own fields. */
  lemma ArpFramesMeet(c: Bytes, g: Bytes)
    requires Readable(c) && Readable(g) && IsPlainArp(c)
    ensures IsPlainArp(g) ==> (QuestionOf(g) == AnnouncedKey(c) <==> g[38..42] == c[28..32])
    ensures IsIp(g) && 4 * (g[14] % 16) < |g| ==> (QuestionOf(g) == AnnouncedKey(c) <==> g[30..34] == c[28..32])
  {
    ArpBytes(c);
    if IsPlainArp(g) {
      ArpBytes(g);
      SameIp(g[38..42], c[28..32]);
    }
    TypeBytes(g, 0x08, 0x00);
    if IsIp(g) {
      SameIp(g[30..34], c[28..32]);
    }
  }

  /** A client's session frame goes to the concentrator, the answer comes from it: they meet exactly
      when that is one machine and one nonzero session. */
  lemma SessionFramesMeet(c: Bytes, g: Bytes)
    requires Readable(c) && Readable(g) && IsSession(c) && IsSession(g) && g[15] != PADO && g[15] != PADS
    ensures QuestionOf(g) == AnnouncedKey(c) != NoQuestion <==>
              c[16..18] != [0, 0] && g[6..12] == c[..6] && g[16..18] == c[16..18]
  {
    TypeBytes(c, 0x88, 0x64);
    TypeBytes(g, 0x88, 0x64);
    KeysAreInjective(ZERO_IP, ZERO_IP, g[6..12], c[..6], g[16..18], c[16..18]);
  }

  /** What is never announced: an IP frame without a source, one whose header length reaches past
      the packet, and a frame outside the three families. */
  lemma NothingAnnounced(c: Bytes, now: int)
    requires Readable(c) && !IsPppoe(c) && c[12..14] != [0x08, 0x06]
    ensures Announcement(c, now) == [] <==>
      !IsIp(c) || c[26..30] == [0, 0, 0, 0] || 4 * (c[14] % 16) >= |c|
  {
    TypeBytes(c, 0x08, 0x00);
    TypeBytes(c, 0x08, 0x06);
  }

  // ---------------------------------------------------------------- what a LOOKUP answers

  /** A unicast frame without a tag, handled by a bridge whose table is the map `m` under the
      comparison the database code expects. */
  predicate Plain(f: Bytes) {
    Readable(f) && f[0] % 2 == 0 && f[12..14] != [0x81, 0x00]
  }

  /** Where a frame goes that asks the map for an address: to its client, and otherwise as said. */
  ghost function Destination(env: Env, m: Nat25Map.Clients, key: Key, now: int, stale: Bytes, unknown: Bytes): Bytes {
    if key !in m then unknown else if HasExpired(env, m[key].stamp, now) then stale else m[key].mac
  }

  lemma Overwritten(f: Bytes, mac: Bytes)
    requires |mac| == 6 <= |f|
    ensures Overwrite(f, 0, mac)[..6] == mac && Overwrite(f, 0, mac)[6..] == f[6..]
  {
  }

  /** The database's answer put into a frame, as the map has it. */
  lemma Redirects(env: Env, db: Db, m: Nat25Map.Clients, key: Key, now: int, f: Bytes)
    requires env.equalIsZero && Nat25Map.Denotes(db, m) && 6 <= |f|
    ensures var a := Ask(env, db, key, now);
      && (a == Missing <==> key !in m)
      && Redirect(f, a)[..6] == Destination(env, m, key, now, f[..6], f[..6]) && Redirect(f, a)[6..] == f[6..]
      && (a != Missing ==> forall x :: Destination(env, m, key, now, f[..6], x) == Redirect(f, a)[..6])
  {
    Nat25Map.AskRefines(env, db, m, key, now);
    if key in m {
      Overwritten(f, m[key].mac);
    }
  }

  lemma RespondsIp(env: Env, br: Bridge, db: Db, m: Nat25Map.Clients, key: Key, now: int, f: Bytes)
    requires env.equalIsZero && Nat25Map.Denotes(db, m) && 34 <= |f|
    ensures var r := RespondIp(br, f, Ask(env, db, key, now));
      && |r| == |f| && r[6..] == f[6..]
      && r[..6] == Destination(env, m, key, now, f[..6], if f[33] == 255 then [255, 255, 255, 255, 255, 255] else br.brMac)
  {
    Redirects(env, db, m, key, now, f);
    Overwritten(f, BROADCAST);
    Overwritten(f, br.brMac);
  }

  /** An IP frame goes to the cached client if the shortcut has its address; else to the client the
      map has; else, if that one has aged, where it was going; and for an unknown address to all if
      it ends in 255, or to the bridge. Nothing but the destination changes. */
  lemma IpAnswered(env: Env, br: Bridge, sc: Cached, db: Db, m: Nat25Map.Clients, g: Bytes, wait: nat, now: int)
    requires env.equalIsZero && Nat25Map.Denotes(db, m)
    requires Plain(g) && IsIp(g) && 4 * (g[14] % 16) < |g|
    ensures var h, key := HandleFrame(env, br, sc, db, g, wait, now), Ipv4Key(g[30..34]);
      var cached := !br.natDisable && !br.scDisable && sc.ip == g[30..34];
      var past := br.natDisable && br.brIp != g[30..34];
      && h.ret == 0 && h.wait == wait && |h.frame| == |g| && h.frame[6..] == g[6..]
      && h.events == (if cached || past then [] else [Lookup(key, now)])
      && h.frame[..6] ==
           if cached then sc.mac
           else if past then g[..6]
           else Destination(env, m, key, now, g[..6], if g[33] == 255 then [255, 255, 255, 255, 255, 255] else br.brMac)
  {
    TypeBytes(g, 0x08, 0x00);
    TypeBytes(g, 0x81, 0x00);
    RespondsIp(env, br, db, m, Ipv4Key(g[30..34]), now, g);
    Overwritten(g, sc.mac);
  }

  lemma RespondsArp(f: Bytes, a: Answer)
    requires Readable(f) && IsPlainArp(f) && EtherType(f) == ETH_P_ARP && ArpTargetMac(f) == 32 && Redirect(f, a)[6..] == f[6..]
    ensures var dst := Redirect(f, a)[..6]; RespondArp(f, a) == dst + f[6..32] + dst + f[38..]
  {
    var r := Redirect(f, a);
    InTheMiddle(r, r[..6], f[6..]);
  }

  lemma InTheMiddle(r: Bytes, dst: Bytes, tail: Bytes)
    requires |dst| == 6 && r == dst + tail && 32 <= |tail|
    ensures Overwrite(r, 32, dst) == dst + tail[..26] + dst + tail[32..]
  {
  }

  /** An ARP frame for a known address names its client, outside and as the target inside; for a
      stale or unknown one it keeps its destination and names that inside. */
  lemma ArpAnswered(env: Env, br: Bridge, sc: Cached, db: Db, m: Nat25Map.Clients, g: Bytes, wait: nat, now: int)
    requires env.equalIsZero && Nat25Map.Denotes(db, m)
    requires Plain(g) && IsPlainArp(g)
    ensures var h, key := HandleFrame(env, br, sc, db, g, wait, now), Ipv4Key(g[38..42]);
      && h.ret == 0 && h.wait == wait
      && if br.natDisable && br.brIp != g[38..42] then h.frame == g && h.events == []
         else var dst := Destination(env, m, key, now, g[..6], g[..6]);
           |dst| == 6 && h.frame == dst + g[6..32] + dst + g[38..] && h.events == [Lookup(key, now)]
  {
    ArpBytes(g);
    TypeBytes(g, 0x81, 0x00);
    var key := Ipv4Key(g[38..42]);
    Redirects(env, db, m, key, now, g);
    RespondsArp(g, Ask(env, db, key, now));
  }

  /** A session frame for a known session goes to its client; otherwise it is left alone. Without a
      session it is refused. */
  lemma SessionAnswered(env: Env, br: Bridge, sc: Cached, db: Db, m: Nat25Map.Clients, g: Bytes, wait: nat, now: int)
    requires env.equalIsZero && Nat25Map.Denotes(db, m) && !br.natDisable
    requires Plain(g) && IsSession(g) && g[15] != PADO && g[15] != PADS
    ensures var h, key := HandleFrame(env, br, sc, db, g, wait, now), PppoeKey(g[6..12], g[16..18]);
      && h.wait == wait && |h.frame| == |g| && h.frame[6..] == g[6..]
      && if g[16..18] == [0, 0] then h.ret == -1 && h.frame == g && h.events == []
         else h.ret == 0 && h.frame[..6] == Destination(env, m, key, now, g[..6], g[..6]) && h.events == [Lookup(key, now)]
  {
    TypeBytes(g, 0x88, 0x64);
    TypeBytes(g, 0x81, 0x00);
    Redirects(env, db, m, PppoeKey(g[6..12], g[16..18]), now, g);
  }

  /** So does an IPv6 frame, by its sixteen destination bytes; one without payload is refused. */
  lemma Ipv6Answered(env: Env, br: Bridge, sc: Cached, db: Db, m: Nat25Map.Clients, g: Bytes, wait: nat, now: int)
    requires env.equalIsZero && Nat25Map.Denotes(db, m) && !br.natDisable
    requires Plain(g) && g[12..14] == [0x86, 0xDD]
    ensures var h := HandleFrame(env, br, sc, db, g, wait, now);
      && h.wait == wait && |h.frame| == |g| && h.frame[6..] == g[6..]
      && if |g| <= 54 then h.ret == -1 && h.frame == g && h.events == []
         else var key := Ipv6Key(g[38..54]);
           h.ret == 0 && h.frame[..6] == Destination(env, m, key, now, g[..6], g[..6]) && h.events == [Lookup(key, now)]
  {
    TypeBytes(g, 0x86, 0xDD);
    TypeBytes(g, 0x81, 0x00);
    if |g| > 54 {
      Redirects(env, db, m, Ipv6Key(g[38..54]), now, g);
    }
  }

  /** The concentrator's offer and confirmation: with relay tags, the strip decides; without, they go
      to the client whose connection is in progress, and restart its time, or are refused. */
  lemma DiscoveryAnswered(env: Env, br: Bridge, sc: Cached, db: Db, g: Bytes, wait: nat, now: int)
    requires !br.natDisable && Plain(g) && 20 <= |g| && g[12..14] == [0x88, 0x63] && (g[15] == 0x07 || g[15] == 0x65)
    ensures var h := HandleFrame(env, br, sc, db, g, wait, now);
      && h.events == []
      && (br.addTag ==> h.wait == wait && h.ret == (if Strip(g).Relayed? then 0 else -1)
                        && h.frame == if Strip(g).Relayed? then Strip(g).frame else g)
      && (!br.addTag && wait == 0 ==> h.ret == -1 && h.frame == g && h.wait == 0)
      && (!br.addTag && wait > 0 ==>
            h.ret == 0 && h.wait == 5 && |h.frame| == |g| && h.frame[..6] == br.pppoeAddr && h.frame[6..] == g[6..])
  {
    TypeBytes(g, 0x88, 0x63);
    TypeBytes(g, 0x81, 0x00);
    Overwritten(g, br.pppoeAddr);
  }

  /** Every other frame is left alone: group frames, and what no arm knows, which is refused but for
      EAPOL and two proprietary types. */
  lemma OthersUntouched(env: Env, br: Bridge, sc: Cached, db: Db, g: Bytes, wait: nat, now: int)
    requires Handleable(g)
    ensures g[0] % 2 == 1 ==> HandleFrame(env, br, sc, db, g, wait, now) == Handled(0, g, [], wait)
    ensures Plain(g) && !br.natDisable && Be16(g, 12) !in {0x0800, 0x0806, 0x8863, 0x8864, 0x86DD} ==>
      HandleFrame(env, br, sc, db, g, wait, now)
      == Handled(if Be16(g, 12) in {0x888E, 0xE2AE, 0xE2AF} then 0 else -1, g, [], wait)
    ensures Plain(g) && br.natDisable && Be16(g, 12) !in {0x0800, 0x0806} ==>
      HandleFrame(env, br, sc, db, g, wait, now) == Handled(0, g, [], wait)
  {
    TypeBytes(g, 0x81, 0x00);
  }

  /** So is an IP frame whose header length reaches past the packet, an ARP frame for other than IPv4
      addresses, and a discovery frame that is no offer or confirmation: all refused. */
  lemma MalformedRefused(env: Env, br: Bridge, sc: Cached, db: Db, g: Bytes, wait: nat, now: int)
    requires !br.natDisable && Plain(g)
    requires || (Be16(g, 12) == 0x0800 && 4 * (g[14] % 16) >= |g| && (br.scDisable || !SameBytes(env, sc.ip, g[30..34])))
             || (Be16(g, 12) == 0x0806 && Be16(g, 16) != 0x0800)
             || (Be16(g, 12) == 0x8863 && g[15] != 0x07 && g[15] != 0x65 && g[16..18] == [0, 0])
    ensures HandleFrame(env, br, sc, db, g, wait, now) == Handled(-1, g, [], wait)
  {
    TypeBytes(g, 0x81, 0x00);
  }
}
