/** The TIM element (`rtw_set_tim_ie`, core/rtw_ap.c): the AID bitmap cut to a window, and its
    reading by section 9.4.2.6 of IEEE Std 802.11-2016. */
module Tim {
  import opened ByteSeqs

  const EID_TIM := 5
  const MAX_BITMAP_LEN := 251

  type Bitmap = b: Bytes | 1 <= |b| <= MAX_BITMAP_LEN witness [0]

  const BIT: seq<nat> := [1, 2, 4, 8, 16, 32, 64, 128]

  predicate HasBit(octet: Byte, i: nat)
    requires i < 8
  {
    octet / BIT[i] % 2 == 1
  }

  /** `rtw_bmp_is_set`. */
  predicate IsSet(b: Bytes, aid: nat) {
    aid / 8 < |b| && HasBit(b[aid / 8], aid % 8)
  }

  predicate Empty(b: Bytes) {
    forall i :: 0 <= i < |b| ==> b[i] == 0
  }

  function FirstSet(b: Bytes, i: nat): (r: nat)
    requires i <= |b|
    ensures i <= r <= |b| && (r < |b| ==> b[r] != 0) && forall k :: i <= k < r ==> b[k] == 0
    decreases |b| - i
  {
    if i == |b| || b[i] != 0 then i else FirstSet(b, i + 1)
  }

  function LastSet(b: Bytes, i: nat): (r: nat)
    requires i < |b|
    ensures r <= i && (r > 0 ==> b[r] != 0) && forall k :: r < k <= i ==> b[k] == 0
  {
    if i == 0 || b[i] != 0 then i else LastSet(b, i - 1)
  }

  /** The window the element carries: from the first nonzero octet, rounded down to even, to the
      last one, octet 0 counting as nonzero for the latter; one octet for an empty bitmap. */
  function Lo(b: Bitmap): (n: nat)
    ensures n % 2 == 0
  {
    if Empty(b) then 0 else FirstSet(b, 0) - FirstSet(b, 0) % 2
  }

  function Hi(b: Bitmap): (n: nat)
    ensures Lo(b) <= n < |b|
  {
    if Empty(b) then 0 else LastSet(b, |b| - 1)
  }

  /** The element's bytes. */
  function Element(count: Byte, period: Byte, b: Bitmap): (e: Bytes)
    ensures |e| == 6 + Hi(b) - Lo(b)
  {
    [EID_TIM, 4 + Hi(b) - Lo(b), count, period, b[0] % 2 + Lo(b)] + b[Lo(b)..Hi(b) + 1]
  }

  method NotEmpty(b: Bitmap) returns (r: bool)
    ensures r <==> !Empty(b)
  {
    for i := 0 to |b|
      invariant forall k :: 0 <= k < i ==> b[k] == 0
    {
      if b[i] != 0 {
        return true;
      }
    }
    return false;
  }

  /** The two scans for the window. */
  method Window(b: Bitmap) returns (n1: nat, n2: nat)
    ensures n1 == Lo(b) && n2 == Hi(b)
  {
    var some := NotEmpty(b);
    if !some {
      return 0, 0;
    }
    var i := 0;
    while i < |b| && b[i] == 0
      invariant i <= |b| && FirstSet(b, 0) == FirstSet(b, i)
    {
      i := i + 1;
    }
    n1 := i - i % 2;
    n2 := |b| - 1;
    while n2 > 0 && b[n2] == 0
      invariant n2 < |b| && LastSet(b, |b| - 1) == LastSet(b, n2)
    {
      n2 := n2 - 1;
    }
  }

  method PutFive(ie: array<Byte>, at: nat, a: Byte, b: Byte, c: Byte, d: Byte, e: Byte)
    requires at + 5 <= ie.Length
    modifies ie
    ensures ie[..] == old(ie[..at]) + [a, b, c, d, e] + old(ie[at + 5..])
  {
    ie[at], ie[at + 1], ie[at + 2], ie[at + 3], ie[at + 4] := a, b, c, d, e;
  }

  /** Five octets, then the octets `w`. */
  method PutElement(ie: array<Byte>, at: nat, a: Byte, b: Byte, c: Byte, d: Byte, e: Byte, w: Bytes)
    requires at + 5 + |w| <= ie.Length
    modifies ie
    ensures ie[..] == old(ie[..at]) + ([a, b, c, d, e] + w) + old(ie[at + 5 + |w|..])
  {
    ghost var o := ie[..];
    PutFive(ie, at, a, b, c, d, e);
    CopyTwice(o, at, [a, b, c, d, e], w);
    CopyBytes(ie, at + 5, w);
  }

  /** `rtw_set_tim_ie`: the element written at `at`, and the byte count it returns in a `u8`. */
  method SetTimIe(count: Byte, period: Byte, b: Bitmap, ie: array<Byte>, at: nat) returns (ret: Byte)
    requires at + |Element(count, period, b)| <= ie.Length
    modifies ie
    ensures var e := Element(count, period, b);
      ie[..] == old(ie[..at]) + e + old(ie[at + |e|..]) && ret == |e| % 256
  {
    var n1, n2 := Window(b);
    ghost var e := Element(count, period, b);
    PutElement(ie, at, EID_TIM, 2 + 1 + (n2 - n1 + 1), count, period, b[0] % 2 + n1, b[n1..n2 + 1]);
    assert |e| == 5 + |b[n1..n2 + 1]|;
    ret := (2 + 2 + 1 + (n2 - n1 + 1)) % 256;
  }

  // ---------------------------------------------------------------- what the element says

  /** A receiver's reading: AID 0 from the control octet, the others from the partial bitmap at
      the offset the control octet gives; AIDs outside the window have no traffic. */
  predicate Reads(e: Bytes, aid: nat)
    requires 6 <= |e|
  {
    var offset := e[4] - e[4] % 2;
    if aid == 0 then e[4] % 2 == 1
    else offset <= aid / 8 < offset + |e| - 5 && HasBit(e[5 + aid / 8 - offset], aid % 8)
  }

  lemma ZeroHasNoBit(i: nat)
    requires i < 8
    ensures !HasBit(0, i)
  {
  }

  /** Outside the window every octet is zero. */
  lemma OutsideIsZero(b: Bitmap, k: nat)
    requires k < |b| && !(Lo(b) <= k <= Hi(b))
    ensures b[k] == 0
  {
  }

  /** The element reads back as the bitmap, bit by bit; its id is that of a TIM, its length field
      counts its bytes, and the DTIM count comes before the DTIM period. */
  lemma TimRoundTrip(count: Byte, period: Byte, b: Bitmap, aid: nat)
    ensures var e := Element(count, period, b);
      && (Reads(e, aid) <==> IsSet(b, aid))
      && e[0] == 5 && e[1] as int == |e| - 2 && e[2] == count && e[3] == period
  {
    var e, k := Element(count, period, b), aid / 8;
    if aid == 0 {
      assert IsSet(b, 0) <==> b[0] / 1 % 2 == 1;
    } else if Lo(b) <= k <= Hi(b) {
      assert e[5 + k - Lo(b)] == b[k];
    } else if k < |b| {
      OutsideIsZero(b, k);
      ZeroHasNoBit(aid % 8);
    }
  }

  /** The returned count is the number of bytes written exactly when the window is shorter than
      251 octets; at 251 it wraps to zero. */
  lemma ReturnedCountExact(count: Byte, period: Byte, b: Bitmap)
    ensures var e := Element(count, period, b); var w := Hi(b) - Lo(b) + 1;
      (|e| % 256 == |e| <==> w < MAX_BITMAP_LEN) && (w == MAX_BITMAP_LEN ==> |e| % 256 == 0)
  {
  }

  /** 251 octets with a station in the first (AID 1) and in the last (AID 2007). */
  function FullBitmap(): (b: Bitmap)
    ensures |b| == MAX_BITMAP_LEN && b[0] == 2 && b[250] == 128
  {
    [2] + seq(249, _ => 0) + [128]
  }

  /** Its window is the whole of it, and the returned count is zero. */
  lemma FullWindowWraps()
    ensures var b := FullBitmap();
      Lo(b) == 0 && Hi(b) == 250 && |Element(0, 1, b)| == 256 && IsSet(b, 1) && IsSet(b, 2007)
  {
    var b := FullBitmap();
    assert b[0] != 0;
    assert BIT[1] == 2 && BIT[7] == 128;
  }

  // ---------------------------------------------------------------- minimality

  lemma NonzeroHasBit(octet: Byte) returns (i: nat)
    requires octet != 0
    ensures i < 8 && HasBit(octet, i)
    ensures octet % 2 == 0 ==> i > 0
  {
    i := 0;
    if octet % 2 == 1 { return 0; }
    if octet / 2 % 2 == 1 { return 1; }
    if octet / 4 % 2 == 1 { return 2; }
    if octet / 8 % 2 == 1 { return 3; }
    if octet / 16 % 2 == 1 { return 4; }
    if octet / 32 % 2 == 1 { return 5; }
    if octet / 64 % 2 == 1 { return 6; }
    return 7;
  }

  /** A window that holds every station with traffic. */
  ghost predicate Covers(b: Bytes, lo: nat, hi: nat) {
    forall aid :: 1 <= aid && IsSet(b, aid) ==> lo <= aid / 8 <= hi
  }

  ghost predicate Minimal(b: Bitmap) {
    forall lo: nat, hi: nat :: lo % 2 == 0 && Covers(b, lo, hi) ==> lo <= Lo(b) && Hi(b) <= hi
  }

  lemma WindowCovers(b: Bitmap)
    ensures Covers(b, Lo(b), Hi(b))
  {
    forall aid | 1 <= aid && IsSet(b, aid) ensures Lo(b) <= aid / 8 <= Hi(b) {
      if !(Lo(b) <= aid / 8 <= Hi(b)) {
        OutsideIsZero(b, aid / 8);
        ZeroHasNoBit(aid % 8);
      }
    }
  }

  lemma OctetOf(k: nat, i: nat)
    requires i < 8
    ensures (8 * k + i) / 8 == k && (8 * k + i) % 8 == i
  {
  }

  lemma HigherBit(octet: Byte) returns (i: nat)
    requires octet > 1
    ensures 0 < i < 8 && HasBit(octet, i)
  {
    if octet / 2 % 2 == 1 { return 1; }
    if octet / 4 % 2 == 1 { return 2; }
    if octet / 8 % 2 == 1 { return 3; }
    if octet / 16 % 2 == 1 { return 4; }
    if octet / 32 % 2 == 1 { return 5; }
    if octet / 64 % 2 == 1 { return 6; }
    return 7;
  }

  /** Some station's bit is set in octet `k`. */
  lemma StationIn(b: Bitmap, k: nat) returns (aid: nat)
    requires k < |b| && b[k] != 0 && (k == 0 ==> b[0] != 1)
    ensures 1 <= aid && aid / 8 == k && IsSet(b, aid)
  {
    if k == 0 {
      var i := HigherBit(b[0]);
      OctetOf(0, i);
      return i;
    }
    var i := NonzeroHasBit(b[k]);
    aid := 8 * k + i;
    OctetOf(k, i);
  }

  /** Group frames and one station, AID 17: the window starts at octet 0 for nothing. */
  lemma GroupBitWidens()
    ensures Lo([1, 0, 2]) == 0 && Hi([1, 0, 2]) == 2 && !Minimal([1, 0, 2])
  {
    var b: Bitmap := [1, 0, 2];
    assert b[0] == 1 && b[1] == 0 && b[2] == 2;
    WindowMinimal(b);
  }

  /** For a bitmap with some bit set the window is minimal up to even alignment, except exactly
      when the AID 0 bit alone keeps it from starting later. With AID 0 clear it always is. */
  lemma WindowMinimal(b: Bitmap)
    requires !Empty(b)
    ensures Minimal(b) <==> !(b[0] == 1 && (|b| == 1 || b[1] == 0))
  {
    var first, last := FirstSet(b, 0), Hi(b);
    if b[0] == 1 && (|b| == 1 || b[1] == 0) {
      forall aid | 1 <= aid && IsSet(b, aid) ensures 2 <= aid / 8 <= |b| {
        if aid / 8 == 1 {
          ZeroHasNoBit(aid % 8);
        }
      }
      assert Covers(b, 2, |b|);
    } else {
      var low := if b[0] == 1 then 1 else first;
      var aid := StationIn(b, low);
      if last > 0 {
        var aid' := StationIn(b, last);
      }
    }
  }
}
