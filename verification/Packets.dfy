/** A packet buffer and the in-place edits core/rtw_br_ext.c makes on it. */
module Packets {
  import opened ByteSeqs
  import opened Nat25Db
  import opened Pppoe

  /** Bytes `src..src+n` copied to `dst`, as memmove leaves them. */
  function Moved(s: Bytes, dst: nat, src: nat, n: nat): Bytes
    requires dst + n <= |s| && src + n <= |s|
  {
    s[..dst] + s[src..src + n] + s[dst + n..]
  }

  /** The byte at `k` after the copy. */
  ghost function MovedByte(s: Bytes, dst: nat, src: nat, n: nat, k: nat): Byte
    requires dst + n <= |s| && src + n <= |s| && k < |s|
  {
    if dst <= k < dst + n then s[src + (k - dst)] else s[k]
  }

  lemma MovedIs(s: Bytes, t: Bytes, dst: nat, src: nat, n: nat)
    requires dst + n <= |s| && src + n <= |s| && |t| == |s|
    requires forall k: nat | k < |s| :: t[k] == MovedByte(s, dst, src, n, k)
    ensures t == Moved(s, dst, src, n)
  {
    var m := Moved(s, dst, src, n);
    forall k: nat | k < |s| ensures t[k] == m[k] {
      assert m[k] == MovedByte(s, dst, src, n, k);
    }
  }

  /** The first `k` bytes of a moved buffer. */
  lemma MovedPrefix(w: Bytes, k: nat, dst: nat, src: nat, n: nat, m: nat)
    requires dst + n <= |w| && src + n <= |w| && k <= |w|
    requires m <= n && dst + m <= k && src + m <= k && (m < n ==> dst + m == k)
    ensures Moved(w, dst, src, n)[..k] == Moved(w[..k], dst, src, m)
  {
    var a, b := Moved(w, dst, src, n)[..k], Moved(w[..k], dst, src, m);
    forall i: nat | i < k ensures a[i] == b[i] {
      assert a[i] == MovedByte(w, dst, src, n, i) && b[i] == MovedByte(w[..k], dst, src, m, i);
    }
  }

  lemma SliceOfSlice(s: Bytes, i: nat, j: nat, n: nat)
    requires i + n <= j <= |s|
    ensures s[i..j][..n] == s[i..i + n]
  {
  }

  lemma GapClosed(s: Bytes, i: nat, n: nat, moved: Bytes)
    requires i + n <= |s| && moved == if i + n < |s| then Moved(s, i, i + n, |s| - i - n) else s
    ensures |moved| == |s| && moved[..|s| - n] == WithoutRange(s, i, n)
  {
  }

  /** An 802.1Q tag put behind the addresses, or taken out. */
  function Tagged(f: Bytes, tci: Bytes): (r: Bytes)
    requires 12 <= |f| && |tci| == 2
    ensures |r| == |f| + 4
  {
    f[..12] + [0x81, 0x00] + tci + f[12..]
  }

  function Untagged(f: Bytes): Bytes
    requires 16 <= |f|
  {
    f[..12] + f[16..]
  }

  lemma TagRoundTrip(f: Bytes, tci: Bytes)
    requires 12 <= |f| && |tci| == 2
    ensures Untagged(Tagged(f, tci)) == f && Tagged(f, tci)[14..16] == tci && Be16(Tagged(f, tci), 12) == 0x8100
    ensures Tagged(f, tci)[..12] == f[..12] && Tagged(f, tci)[16..] == f[12..]
  {
  }

  class Skb {
    const buf: array<Byte>
    var data: nat
    var tail: nat

    ghost predicate Valid()
      reads this
    {
      data <= tail <= buf.Length
    }

    ghost function Contents(): Bytes
      requires Valid()
      reads this, buf
    {
      buf[data..tail]
    }

    constructor (buf: array<Byte>, data: nat, tail: nat)
      requires data <= tail <= buf.Length
      ensures Valid() && this.buf == buf && this.data == data && this.tail == tail
    {
      this.buf, this.data, this.tail := buf, data, tail;
    }

    method Get(i: nat) returns (b: Byte)
      requires Valid() && i < |Contents()|
      ensures b == Contents()[i]
    {
      b := buf[data + i];
    }

    method Get16(i: nat) returns (n: nat)
      requires Valid() && i + 1 < |Contents()|
      ensures n == Be16(Contents(), i)
    {
      n := buf[data + i] as int * 256 + buf[data + i + 1];
    }

    method Put16(i: nat, n: int)
      requires Valid() && i + 1 < |Contents()|
      modifies buf
      ensures Valid() && Contents() == SetU16(old(Contents()), i, n)
    {
      buf[data + i], buf[data + i + 1] := n % 0x1_0000 / 256, n % 256;
      ModHalves(n);
    }

    /** A copy of bytes of the packet. */
    method Read(i: nat, n: nat) returns (bytes: Bytes)
      requires Valid() && i + n <= |Contents()|
      ensures bytes == Contents()[i..i + n]
    {
      bytes := buf[data + i..data + i + n];
      ghost var f := Contents();
      assert forall k :: 0 <= k < n ==> bytes[k] == f[i + k];
    }

    /** `_rtw_memcpy` of bytes from outside the packet. */
    method Write(i: nat, bytes: Bytes)
      requires Valid() && i + |bytes| <= |Contents()|
      modifies buf
      ensures Valid() && Contents() == old(Contents())[..i] + bytes + old(Contents())[i + |bytes|..]
    {
      forall k | 0 <= k < |bytes| {
        buf[data + i + k] := bytes[k];
      }
    }

    /** `_rtw_memmove` inside the buffer, from the start of the packet on. */
    method MoveWide(dst: nat, src: nat, n: nat)
      requires Valid() && data + dst + n <= buf.Length && data + src + n <= buf.Length
      modifies buf
      ensures Valid() && buf[data..] == Moved(old(buf[data..]), dst, src, n)
    {
      ghost var s := buf[data..];
      forall k | 0 <= k < n {
        buf[data + dst + k] := buf[data + src + k];
      }
      ghost var t := buf[data..];
      forall k: nat | k < |s| ensures t[k] == MovedByte(s, dst, src, n, k) {
        if dst <= k < dst + n {
          assert buf[data + dst + (k - dst)] == old(buf[data + src + (k - dst)]);
        }
      }
      MovedIs(s, t, dst, src, n);
    }

    /** The same as the packet sees it: `m` bytes arrive inside. */
    method MoveAcross(dst: nat, src: nat, n: nat, ghost m: nat)
      requires Valid() && data + dst + n <= buf.Length && data + src + n <= buf.Length
      requires m <= n && dst + m <= |Contents()| && src + m <= |Contents()| && (m < n ==> dst + m == |Contents()|)
      modifies buf
      ensures Valid() && Contents() == Moved(old(Contents()), dst, src, m)
    {
      ghost var w, s := buf[data..], Contents();
      MoveWide(dst, src, n);
      assert s == w[..|s|] && Contents() == buf[data..][..|s|];
      MovedPrefix(w, |s|, dst, src, n, m);
    }

    /** `_rtw_memmove` inside the packet. */
    method Move(dst: nat, src: nat, n: nat)
      requires Valid() && dst + n <= |Contents()| && src + n <= |Contents()|
      modifies buf
      ensures Valid() && Contents() == Moved(old(Contents()), dst, src, n)
    {
      MoveAcross(dst, src, n, n);
    }

    /** `skb_pull_and_merge`: cut bytes out of the packet and close the gap. */
    method PullAndMerge(i: nat, n: nat) returns (ok: bool)
      requires Valid()
      modifies this, buf
      ensures Valid() && data == old(data)
      ensures ok <==> i + n <= |old(Contents())|
      ensures ok ==> Contents() == WithoutRange(old(Contents()), i, n) && tail == old(tail) - n
      ensures !ok ==> Contents() == old(Contents()) && tail == old(tail)
    {
      if data + i + n > tail || tail - data < n {
        return false;
      }
      ghost var s := Contents();
      var tailLen := tail - (data + i + n);
      if tailLen > 0 {
        Move(i, i + n, tailLen);
      }
      GapClosed(s, i, n, Contents());
      Trim(n);
      return true;
    }

    /** The end of the packet moved forward. */
    method Trim(n: nat)
      requires Valid() && n <= |Contents()|
      modifies this`tail
      ensures Valid() && tail == old(tail) - n && Contents() == old(Contents())[..|old(Contents())| - n]
    {
      SliceOfSlice(buf[..], data, tail, tail - n - data);
      tail := tail - n;
    }

    /** `__nat25_find_pppoe_tag`. */
    method FindTag(typ: nat) returns (r: Found)
      requires Valid() && TAG_AREA <= |Contents()|
      ensures r == Find(Contents(), typ)
    {
      var length := Get16(18);
      ghost var f := Contents();
      var cur := 0;
      while cur < length
        invariant Contents() == f && Find(f, typ) == Scan(f, cur, length, typ)
        decreases length - cur
      {
        if tail - data < TAG_AREA + cur + TAG_HDR_LEN {
          return PastEnd;
        }
        var tagType := Get16(TAG_AREA + cur);
        var tagLen := Get16(TAG_AREA + cur + 2);
        if tagType == typ {
          return At(cur);
        }
        cur := cur + TAG_HDR_LEN + tagLen;
      }
      return Absent;
    }

    /** The PADO/PADS arm of LOOKUP, in place. */
    method StripRelay() returns (r: Stripped)
      requires Valid() && TAG_AREA <= |Contents()|
      modifies this, buf
      ensures Valid() && data == old(data) && r == (match Strip(old(Contents())) case Relayed(_) => Relayed(Contents()) case x => x)
      ensures Strip(old(Contents())).Relayed? ==> Contents() == Strip(old(Contents())).frame
      ensures !Strip(old(Contents())).Relayed? ==> Contents() == old(Contents())
    {
      ghost var f := Contents();
      var found := FindTag(RELAY_SID);
      if found == Absent {
        return Refused;
      }
      if found == PastEnd {
        return Overrun;
      }
      r := StripTagAt(TAG_AREA + found.offset);
    }

    method StripTagAt(p: nat) returns (r: Stripped)
      requires Valid() && TAG_AREA <= p && p + TAG_HDR_LEN <= |Contents()|
      modifies this, buf
      ensures Valid() && data == old(data)
      ensures r == (match StripTag(old(Contents()), p) case Relayed(_) => Relayed(Contents()) case x => x)
      ensures StripTag(old(Contents()), p).Relayed? ==> Contents() == StripTag(old(Contents()), p).frame
      ensures !StripTag(old(Contents()), p).Relayed? ==> Contents() == old(Contents())
    {
      ghost var f := Contents();
      var tagLen := Get16(p + 2);
      if tagLen < OWN_LEN {
        return Refused;
      }
      if tail - data < p + TAG_HDR_LEN + OWN_LEN {
        return Overrun;
      }
      var magic := Get16(p + 4);
      if magic != 0x8186 {
        assert f[p + 4..p + 6][0] == f[p + 4] && f[p + 4..p + 6][1] == f[p + 5];
        return Refused;
      }
      MagicBytes(f, p + 4);
      var keep := if tagLen > OWN_LEN then TAG_HDR_LEN else 0;
      CutRelay(p, keep, tagLen);
      return Relayed(buf[data..tail]);
    }

    /** The stores of the PADO/PADS arm once the tag is recognised. */
    method CutRelay(p: nat, keep: nat, tagLen: nat)
      requires Valid() && TAG_AREA <= p && p + TAG_HDR_LEN + OWN_LEN <= |Contents()|
      requires OWN_LEN <= tagLen < 0x1_0000 && keep == if tagLen > OWN_LEN then TAG_HDR_LEN else 0
      modifies this, buf
      ensures Valid() && data == old(data) && Contents() == StripAt(old(Contents()), p, tagLen)
    {
      ghost var f := Contents();
      Move(0, p + 6, 6);
      assert Contents() == SetDst(f, f[p + 6..p + 12]);
      CutTag(p, keep, tagLen);
    }

    method CutTag(p: nat, keep: nat, tagLen: nat)
      requires Valid() && TAG_AREA <= p && p + TAG_HDR_LEN + OWN_LEN <= |Contents()|
      requires OWN_LEN <= tagLen < 0x1_0000 && keep == if tagLen > OWN_LEN then TAG_HDR_LEN else 0
      modifies this, buf
      ensures Valid() && data == old(data) && Contents() == CutBack(old(Contents()), p, tagLen)
    {
      if keep > 0 {
        CutOwn(p, tagLen);
      } else {
        Shorten(p, TAG_HDR_LEN + OWN_LEN);
      }
    }

    method CutOwn(p: nat, tagLen: nat)
      requires Valid() && TAG_AREA <= p && p + TAG_HDR_LEN + OWN_LEN <= |Contents()| && OWN_LEN <= tagLen < 0x1_0000
      modifies this, buf
      ensures Valid() && data == old(data)
      ensures Contents() == SetU16(Shortened(old(Contents()), p + TAG_HDR_LEN, OWN_LEN), p + 2, tagLen - OWN_LEN)
    {
      Shorten(p + TAG_HDR_LEN, OWN_LEN);
      Put16(p + 2, tagLen - OWN_LEN);
    }

    /** Cut bytes out of the tag area and take them off the length field. */
    method Shorten(i: nat, n: nat)
      requires Valid() && TAG_AREA <= i && i + n <= |Contents()|
      modifies this, buf
      ensures Valid() && data == old(data) && Contents() == Shortened(old(Contents()), i, n)
    {
      var ok := PullAndMerge(i, n);
      var length := Get16(18);
      Put16(18, length - n);
    }

    /** `__nat25_add_pppoe_tag`: room at the end, the tags moved back, the tag put in front. It stops
        where the move would leave the buffer. */
    method AddTag(tag: Bytes) returns (r: Insertion)
      requires Valid() && TAG_AREA <= |Contents()|
      modifies this, buf
      ensures Valid() && data == old(data)
      ensures r == if |tag| > buf.Length - old(tail) then Rejected
                   else if TAG_AREA + |tag| + Be16(old(Contents()), 18) > buf.Length - data then WritesPastBuffer
                   else Inserted
      ensures r != Inserted ==> Contents() == old(Contents())
      ensures r == Inserted ==> |Contents()| == |old(Contents())| + |tag| && Prefixed(old(Contents()), tag) <= Contents()
    {
      if buf.Length - tail < |tag| {
        return Rejected;
      }
      ghost var f := Contents();
      var length := Get16(18);
      if data + TAG_AREA + |tag| + length > buf.Length {
        return WritesPastBuffer;
      }
      tail := tail + |tag|;
      assert Contents()[..|f|] == f;
      PutTag(tag, length, f);
      return Inserted;
    }

    method PutTag(tag: Bytes, length: nat, ghost f: Bytes)
      requires Valid() && |Contents()| == |f| + |tag| && Contents()[..|f|] == f
      requires TAG_AREA <= |f| && length == Be16(f, 18) && data + TAG_AREA + |tag| + length <= buf.Length
      modifies buf
      ensures Valid() && Prefixed(f, tag) <= Contents()
    {
      ghost var g := Contents();
      MoveAcross(TAG_AREA + |tag|, TAG_AREA, length, Counted(f));
      ghost var m := Contents();
      SetFront(tag, length + |tag|);
      PrefixedBytes(f, g, m, SetU16(m, 18, length + |tag|), tag, Contents());
    }

    method SetFront(tag: Bytes, n: int)
      requires Valid() && TAG_AREA + |tag| <= |Contents()|
      modifies buf
      ensures Valid()
      ensures var h := SetU16(old(Contents()), 18, n); Contents() == h[..TAG_AREA] + tag + h[TAG_AREA + |tag|..]
    {
      Put16(18, n);
      Write(TAG_AREA, tag);
    }

    /** The first half of the PADI/PADR arm of INSERT: take the client's relay tag out. */
    method OpenRelay() returns (r: Opened)
      requires Valid() && TAG_AREA <= |Contents()|
      modifies this, buf
      ensures Valid() && data == old(data) && r == Open(old(Contents()))
      ensures Contents() == (if r.Opened? then r.frame else old(Contents()))
      ensures tail - data == |Contents()|
    {
      ghost var f := Contents();
      var found := FindTag(RELAY_SID);
      if found == Absent {
        return Opened(buf[data..tail], []);
      }
      if found == PastEnd {
        return OpenOverrun;
      }
      r := OpenTagAt(TAG_AREA + found.offset);
    }

    method OpenTagAt(p: nat) returns (r: Opened)
      requires Valid() && TAG_AREA <= p && p + TAG_HDR_LEN <= |Contents()|
      modifies this, buf
      ensures Valid() && data == old(data) && r == OpenedAt(old(Contents()), p)
      ensures Contents() == (if r.Opened? then r.frame else old(Contents()))
    {
      var n := Get16(p + 2);
      if n + TAG_HDR_LEN + OWN_LEN > TAG_BUF_LEN || tail - data < p + TAG_HDR_LEN + n {
        return OpenRefused;
      }
      var client := TakeOut(p, n);
      return Opened(buf[data..tail], client);
    }

    method TakeOut(p: nat, n: nat) returns (client: Bytes)
      requires Valid() && TAG_AREA <= p && p + TAG_HDR_LEN + n <= |Contents()|
      modifies this, buf
      ensures Valid() && data == old(data) && Contents() == Shortened(old(Contents()), p, TAG_HDR_LEN + n)
      ensures client == old(Contents())[p + TAG_HDR_LEN..p + TAG_HDR_LEN + n]
    {
      client := Read(p + TAG_HDR_LEN, n);
      Shorten(p, TAG_HDR_LEN + n);
    }

    /** The PADI/PADR arm of INSERT. A refusal after the client's tag was taken out leaves it out; it
        stops before an access outside the packet's buffer or the tag's. */
    method InsertRelay(bigEndian: bool) returns (r: Insertion)
      requires Valid() && TAG_AREA <= |Contents()|
      modifies this, buf
      ensures Valid() && r == InsertTag(old(Contents()), bigEndian, buf.Length - old(tail))
      ensures r == Inserted ==>
        var o := Open(old(Contents())); Prefixed(o.frame, RelayTag(o.frame[6..12], o.client)) <= Contents()
      ensures r != Inserted ==>
        Contents() == (match Open(old(Contents())) case Opened(f1, _) => f1 case _ => old(Contents()))
    {
      var o := OpenRelay();
      if o == OpenRefused {
        return Rejected;
      }
      if o == OpenOverrun {
        return ReadsPastPacket;
      }
      r := AddRelay(bigEndian, o.client);
    }

    method AddRelay(bigEndian: bool, client: Bytes) returns (r: Insertion)
      requires Valid() && TAG_AREA <= |Contents()| && TAG_HDR_LEN + OWN_LEN + |client| <= TAG_BUF_LEN
      modifies this, buf
      ensures Valid() && data == old(data) && r == AddedTo(old(Contents()), |client|, bigEndian, buf.Length - old(data))
      ensures r == Inserted ==> Prefixed(old(Contents()), RelayTag(old(Contents())[6..12], client)) <= Contents()
      ensures r != Inserted ==> Contents() == old(Contents())
    {
      CopyLenExact(bigEndian, OWN_LEN + |client|);
      if !bigEndian {
        var copied := CopyLen(bigEndian, OWN_LEN + |client|);
        var length := Get16(18);
        return if buf.Length - tail < copied then Rejected
               else if data + TAG_AREA + copied + length > buf.Length then WritesPastBuffer
               else ReadsPastBuffer;
      }
      var mac := Read(6, 6);
      r := AddTag(RelayTag(mac, client));
    }

    /** The loop that shifts the addresses over an 802.1Q tag, two bytes at a time from the back,
        and the pull that drops the first four bytes. */
    method StripVlan() returns (tci: Bytes)
      requires Valid() && 16 <= |Contents()|
      modifies this, buf
      ensures Valid() && data == old(data) + 4 && tail == old(tail)
      ensures Contents() == Untagged(old(Contents())) && tci == old(Contents())[14..16]
    {
      ghost var f := Contents();
      tci := Read(14, 2);
      ShiftBack();
      BackedSix(f);
      ghost var g := Contents();
      data := data + 4;
      assert Contents() == g[4..];
    }

    method ShiftBack()
      requires Valid() && 16 <= |Contents()|
      modifies buf
      ensures Valid() && Contents() == Backed(old(Contents()), 6)
    {
      ghost var f := Contents();
      for i := 0 to 6
        modifies buf
        invariant Contents() == Backed(f, i)
      {
        BackedStep(f, i);
        Move(14 - 2 * i, 10 - 2 * i, 2);
      }
    }

    /** The push and the loop that shift the addresses back, and the tag written behind them. */
    method RestoreVlan(tci: Bytes)
      requires Valid() && 4 <= data && 12 <= |Contents()| && |tci| == 2
      modifies this, buf
      ensures Valid() && data == old(data) - 4 && tail == old(tail)
      ensures Contents() == Tagged(old(Contents()), tci)
    {
      ghost var f := Contents();
      data := data - 4;
      ghost var g := Contents();
      assert g[4..] == f;
      for i := 0 to 6
        modifies buf
        invariant Contents() == Fronted(g, i)
      {
        FrontedStep(g, i);
        Move(2 * i, 4 + 2 * i, 2);
      }
      Write(12, [0x81, 0x00]);
      Write(14, tci);
      RestoredBytes(f, g, tci);
    }
  }

  lemma RestoredBytes(f: Bytes, g: Bytes, tci: Bytes)
    requires 16 <= |g| && g[4..] == f && |tci| == 2
    ensures var a := Fronted(g, 6); var b := a[..12] + [0x81, 0x00] + a[14..];
      b[..14] + tci + b[16..] == Tagged(f, tci)
  {
    var a := Fronted(g, 6);
    assert a[..12] == f[..12] && a[16..] == f[12..];
    var b := a[..12] + [0x81, 0x00] + a[14..];
    assert b[..14] == a[..12] + [0x81, 0x00] && b[16..] == a[16..];
  }

  /** The packet after `i` steps of the shift towards the back. */
  ghost function Backed(f: Bytes, i: nat): (r: Bytes)
    requires 16 <= |f| && i <= 6
    ensures |r| == |f|
  {
    f[..16 - 2 * i] + f[12 - 2 * i..12] + f[16..]
  }

  lemma BackedSix(f: Bytes)
    requires 16 <= |f|
    ensures Backed(f, 6)[4..] == Untagged(f)
  {
  }

  lemma BackedStep(f: Bytes, i: nat)
    requires 16 <= |f| && i < 6
    ensures Moved(Backed(f, i), 14 - 2 * i, 10 - 2 * i, 2) == Backed(f, i + 1)
  {
    var b := Backed(f, i);
    assert b[..14 - 2 * i] == f[..14 - 2 * i] && b[10 - 2 * i..12 - 2 * i] == f[10 - 2 * i..12 - 2 * i];
    assert b[16 - 2 * i..] == f[12 - 2 * i..12] + f[16..];
    assert f[10 - 2 * i..12] == f[10 - 2 * i..12 - 2 * i] + f[12 - 2 * i..12];
  }

  /** The packet after `i` steps of the shift towards the front. */
  ghost function Fronted(g: Bytes, i: nat): (r: Bytes)
    requires 16 <= |g| && i <= 6
    ensures |r| == |g|
  {
    g[4..4 + 2 * i] + g[2 * i..]
  }

  lemma FrontedStep(g: Bytes, i: nat)
    requires 16 <= |g| && i < 6
    ensures Moved(Fronted(g, i), 2 * i, 4 + 2 * i, 2) == Fronted(g, i + 1)
  {
    var b := Fronted(g, i);
    assert b[..2 * i] == g[4..4 + 2 * i] && b[4 + 2 * i..6 + 2 * i] == g[4 + 2 * i..6 + 2 * i];
    assert b[2 * i + 2..] == g[2 * i + 2..];
    assert g[4..6 + 2 * i] == g[4..4 + 2 * i] + g[4 + 2 * i..6 + 2 * i];
  }

  /** Moving the tags back, setting the length and writing the tag gives the prefixed frame. */
  lemma PrefixedBytes(f: Bytes, g: Bytes, m: Bytes, h: Bytes, tag: Bytes, r: Bytes)
    requires TAG_AREA <= |f| && |g| == |f| + |tag| && f == g[..|f|]
    requires m == Moved(g, TAG_AREA + |tag|, TAG_AREA, Counted(f)) && h == SetU16(m, 18, Be16(f, 18) + |tag|)
    requires r == h[..TAG_AREA] + tag + h[TAG_AREA + |tag|..]
    ensures Prefixed(f, tag) <= r
  {
    var k, n := Counted(f), Be16(f, 18) + |tag|;
    TagsMoved(f, g, |tag|, k);
    FrontSet(f[..18], f[18..TAG_AREA], g[TAG_AREA..TAG_AREA + |tag|], f[TAG_AREA..TAG_AREA + k] + g[TAG_AREA + |tag| + k..], n);
    FrontPrefixed(f, n);
    PrefixOf(f[..18] + U16(n % 0x1_0000), tag, f[TAG_AREA..TAG_AREA + k], g[TAG_AREA + |tag| + k..]);
  }

  /** The moved packet in parts: header, length field, what the tag will cover, tags, rest. */
  lemma TagsMoved(f: Bytes, g: Bytes, n: nat, k: nat)
    requires TAG_AREA + k <= |f| && |g| == |f| + n && f == g[..|f|]
    ensures Moved(g, TAG_AREA + n, TAG_AREA, k)
         == f[..18] + f[18..TAG_AREA] + g[TAG_AREA..TAG_AREA + n] + (f[TAG_AREA..TAG_AREA + k] + g[TAG_AREA + n + k..])
  {
    var t, q := f[TAG_AREA..TAG_AREA + k], g[TAG_AREA + n + k..];
    assert g[TAG_AREA..TAG_AREA + k] == t;
    assert g[..TAG_AREA + n] == f[..18] + f[18..TAG_AREA] + g[TAG_AREA..TAG_AREA + n];
    Assoc(g[..TAG_AREA + n], t, q);
  }

  /** The length field set in a packet given in parts, and the parts read back. */
  lemma FrontSet(a: Bytes, u: Bytes, v: Bytes, w: Bytes, n: int)
    requires |a| == 18 && |u| == 2
    ensures var h := SetU16(a + u + v + w, 18, n);
      h[..TAG_AREA] == a + U16(n % 0x1_0000) && h[TAG_AREA + |v|..] == w
  {
    var x := U16(n % 0x1_0000);
    var m := a + u + v + w;
    Assoc(a + u, v, w);
    Parts(a, u, v + w);
    assert m[..18] == a && m[20..] == v + w;
    Parts(a + x, v, w);
    Assoc(a + x, v, w);
  }

  lemma FrontPrefixed(f: Bytes, n: int)
    requires TAG_AREA <= |f|
    ensures SetU16(f[..TAG_AREA], 18, n) == f[..18] + U16(n % 0x1_0000)
  {
    assert f[..TAG_AREA][..18] == f[..18] && f[..TAG_AREA][20..] == [];
  }

  lemma PrefixOf(a: Bytes, tag: Bytes, t: Bytes, q: Bytes)
    ensures a + tag + t <= a + tag + (t + q)
  {
    Assoc(a + tag, t, q);
  }

  lemma MagicBytes(f: Bytes, i: nat)
    requires i + 1 < |f| && Be16(f, i) == 0x8186
    ensures f[i..i + 2] == MAGIC
  {
  }

  lemma ModHalves(n: int)
    ensures n % 0x1_0000 % 256 == n % 256
  {
  }
}
