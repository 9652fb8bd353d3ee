/** The DHCP broadcast rewrite (`dhcp_flag_bcast`, core/rtw_br_ext.c): the BROADCAST flag is set
    and the UDP checksum patched in one's-complement arithmetic (section 3 of RFC 1624). */
module DhcpChecksum {

  type Word = x: int | 0 <= x < 0x1_0000

  /** The 16-bit words the UDP checksum covers, pseudo header included, in the order of the
      packet, with the places of the checksum itself and of the DHCP flags. */
  datatype Packet = Packet(words: seq<Word>, check: nat, flags: nat)

  predicate Framed(p: Packet) {
    p.check < |p.words| && p.flags < |p.words| && p.check != p.flags
  }

  function Sum(ws: seq<Word>): nat {
    if ws == [] then 0 else Sum(ws[..|ws| - 1]) + ws[|ws| - 1]
  }

  /** The receiver's test: all words add up to all ones, that is to zero modulo 2^16 - 1. */
  predicate Valid(p: Packet) {
    Sum(p.words) % 0xFFFF == 0
  }

  /** The end-around-carry loop. */
  method FoldCarry(start: nat) returns (sum: Word)
    ensures sum % 0xFFFF == start % 0xFFFF
    ensures sum == 0 <==> start == 0
  {
    var s: nat := start;
    while s / 0x1_0000 != 0
      invariant s % 0xFFFF == start % 0xFFFF
      invariant s == 0 <==> start == 0
      decreases s
    {
      FoldStep(s);
      s := s % 0x1_0000 + s / 0x1_0000;
    }
    sum := s;
  }

  lemma FoldStep(s: nat)
    ensures (s % 0x1_0000 + s / 0x1_0000) % 0xFFFF == s % 0xFFFF
    ensures s / 0x1_0000 != 0 ==> 0 < s % 0x1_0000 + s / 0x1_0000 < s
  {
    var h := s / 0x1_0000;
    assert s == s % 0x1_0000 + h + h * 0xFFFF;
    AddMultiple(s % 0x1_0000 + h, h);
  }

  lemma AddMultiple(x: int, k: int)
    ensures (x + k * 0xFFFF) % 0xFFFF == x % 0xFFFF
  {
    var q, r := x / 0xFFFF, x % 0xFFFF;
    assert x + k * 0xFFFF == (q + k) * 0xFFFF + r;
    Residue(q + k, r);
  }

  lemma Residue(q: int, r: int)
    requires 0 <= r < 0xFFFF
    ensures (q * 0xFFFF + r) % 0xFFFF == r
  {
  }

  /** What the rewrite leaves in the checksum field: the complement of the one representative of
      `~check + flags` that the loop ends on. */
  function Patched(check: Word, flags: Word): (w: Word) {
    var s := 0xFFFF - check + flags;
    0xFFFF - (if s <= 0xFFFF then s else s - 0xFFFF)
  }

  /** The rewrite of one packet in place. `bit` is the BROADCAST flag as the host reads it:
      0x8000, or 0x0080 on a little-endian host. */
  method SetBroadcast(words: array<Word>, check: nat, flags: nat, bit: Word)
    requires Framed(Packet(words[..], check, flags)) && (bit == 0x8000 || bit == 0x0080)
    modifies words
    ensures words[..] == if HasBit(old(words[flags]), bit) then old(words[..])
                         else Rewritten(Packet(old(words[..]), check, flags), bit)
  {
    if HasBit(words[flags], bit) {
      return;
    }
    words[flags] := words[flags] + bit;
    var start: nat := 0xFFFF - words[check] as int + words[flags];
    var sum := FoldCarry(start);
    Representative(start, sum);
    words[check] := 0xFFFF - sum;
  }

  predicate HasBit(w: Word, bit: Word)
    requires bit > 0
  {
    w / bit % 2 == 1
  }

  /** With the bit clear, or-ing it in is adding it. */
  function Rewritten(p: Packet, bit: Word): (ws: seq<Word>)
    requires Framed(p) && (bit == 0x8000 || bit == 0x0080) && !HasBit(p.words[p.flags], bit)
    ensures |ws| == |p.words|
  {
    var flags := p.words[p.flags] + bit;
    p.words[p.flags := flags][p.check := Patched(p.words[p.check], flags)]
  }

  /** Bitwise or. */
  function Or(a: nat, b: nat): nat
    decreases a + b
  {
    if a == 0 && b == 0 then 0 else (if a % 2 == 1 || b % 2 == 1 then 1 else 0) + 2 * Or(a / 2, b / 2)
  }

  lemma {:induction false} OrZero(a: nat)
    ensures Or(a, 0) == a
  {
    if a > 0 {
      OrZero(a / 2);
    }
  }

  /** The bit below which `k` others lie is clear. */
  predicate Clear(w: nat, k: nat) {
    if k == 0 then w % 2 == 0 else Clear(w / 2, k - 1)
  }

  function Power(k: nat): (n: nat)
    ensures n > 0
  {
    if k == 0 then 1 else 2 * Power(k - 1)
  }

  lemma {:induction false} OrClear(w: nat, k: nat)
    requires Clear(w, k)
    ensures Or(w, Power(k)) == w + Power(k)
  {
    if k == 0 {
      OrZero(w / 2);
    } else {
      OrClear(w / 2, k - 1);
      assert Power(k) % 2 == 0 && Power(k) / 2 == Power(k - 1);
    }
  }

  /** What the rewrite is for: the flag is or-ed into the flags word, and no other word is changed
      but the checksum. */
  lemma OnlyTheFlag(p: Packet, bit: Word)
    requires Framed(p) && (bit == 0x8000 || bit == 0x0080) && !HasBit(p.words[p.flags], bit)
    ensures var ws := Rewritten(p, bit);
      && ws[p.flags] == Or(p.words[p.flags], bit)
      && forall i | 0 <= i < |ws| && i != p.flags && i != p.check :: ws[i] == p.words[i]
  {
    var w: int := p.words[p.flags];
    if bit == 0x80 {
      LowFlag(w);
    } else {
      HighFlag(w);
    }
  }

  lemma LowFlag(w: nat)
    requires w / 0x80 % 2 == 0
    ensures Or(w, 0x80) == w + 0x80
  {
    assert Clear(w / 0x80, 0);
    assert Clear(w / 0x40, 1) && Clear(w / 0x20, 2) && Clear(w / 0x10, 3) && Clear(w / 8, 4);
    assert Clear(w / 4, 5) && Clear(w / 2, 6) && Clear(w, 7);
    assert Power(3) == 8 && Power(7) == 0x80;
    OrClear(w, 7);
  }

  lemma HighFlag(w: nat)
    requires w < 0x8000
    ensures Or(w, 0x8000) == w + 0x8000
  {
    assert Power(3) == 8 && Power(7) == 0x80 && Power(11) == 0x800 && Power(15) == 0x8000;
    ClearAbove(w, 15);
    OrClear(w, 15);
  }

  lemma {:induction false} ClearAbove(w: nat, k: nat)
    requires w < Power(k)
    ensures Clear(w, k)
  {
    if k > 0 {
      ClearAbove(w / 2, k - 1);
    }
  }

  /** A positive sum below 2 * 2^16 folds to the one word of 1..2^16-1 in its residue class. */
  lemma Representative(s: nat, sum: Word)
    requires 0 < s <= 2 * 0xFFFF && sum % 0xFFFF == s % 0xFFFF && sum != 0
    ensures sum == if s <= 0xFFFF then s else s - 0xFFFF
  {
  }

  lemma {:induction false} SumUpdate(ws: seq<Word>, i: nat, w: Word)
    requires i < |ws|
    ensures Sum(ws[i := w]) == Sum(ws) - ws[i] + w
  {
    var n := |ws| - 1;
    if i == n {
      assert ws[i := w][..n] == ws[..n];
    } else {
      assert ws[i := w][..n] == ws[..n][i := w];
      SumUpdate(ws[..n], i, w);
    }
  }

  /** For a packet of any length, a valid checksum is still valid after the rewrite if and only if
      the flags word was zero: the code adds the new flags without taking the old ones out. */
  lemma ValidExactlyWhenFlagsZero(p: Packet, bit: Word)
    requires Framed(p) && (bit == 0x8000 || bit == 0x0080) && !HasBit(p.words[p.flags], bit)
    requires Valid(p)
    ensures Valid(p.(words := Rewritten(p, bit))) <==> p.words[p.flags] == 0
  {
    var was, check := p.words[p.flags], p.words[p.check];
    var flags := was + bit;
    SumUpdate(p.words, p.flags, flags);
    SumUpdate(p.words[p.flags := flags], p.check, Patched(check, flags));
    PatchedSum(check, flags);
    var s' := Sum(Rewritten(p, bit));
    assert s' == Sum(p.words) - was + (flags + Patched(check, flags) - check);
    NewResidue(Sum(p.words), was, flags + Patched(check, flags) - check, s');
  }

  /** What the patch adds beside the old flags word is a multiple of 2^16 - 1. */
  lemma PatchedSum(check: Word, flags: Word)
    ensures var d := flags + Patched(check, flags) - check; d == 0 || d == 0xFFFF
  {
  }

  lemma NewResidue(s: nat, was: Word, d: int, s': nat)
    requires s % 0xFFFF == 0 && was < 0xFFFF && (d == 0 || d == 0xFFFF) && s' == s - was + d
    ensures s' % 0xFFFF == 0 <==> was == 0
  {
    AddMultiple(s - was, d / 0xFFFF);
    OldFlagsResidue(s, was);
  }

  lemma OldFlagsResidue(s: nat, was: Word)
    requires s % 0xFFFF == 0 && was < 0xFFFF
    ensures (s - was) % 0xFFFF == 0 <==> was == 0
  {
    var d: int := was;
    AddMultiple(-d, s / 0xFFFF);
  }

  /** The patched checksum is the reserved value zero exactly when the old checksum equals the new
      flags word; the packet then claims to carry no checksum. */
  lemma ZeroExactlyWhenEqual(check: Word, flags: Word)
    requires 0 < check && 0 < flags
    ensures Patched(check, flags) == 0 <==> check == flags
  {
  }

  /** A packet sent without a checksum gets one, unless its old flags were all ones but the bit. */
  lemma AbsentChecksumAppears(was: Word, bit: Word)
    requires (bit == 0x8000 || bit == 0x0080) && !HasBit(was, bit)
    ensures Patched(0, was + bit) == 0 <==> was == 0xFFFF - bit
  {
  }

  function Swap(w: Word): Word {
    w % 256 * 256 + w / 256
  }

  function SwapAll(ws: seq<Word>): seq<Word> {
    seq(|ws|, i requires 0 <= i < |ws| => Swap(ws[i]))
  }

  lemma {:induction false} SwapSum(ws: seq<Word>)
    ensures Sum(SwapAll(ws)) % 0xFFFF == (256 * Sum(ws)) % 0xFFFF
  {
    if ws != [] {
      var n := |ws| - 1;
      var w: int := ws[n];
      SwapSum(ws[..n]);
      assert SwapAll(ws)[..n] == SwapAll(ws[..n]);
      assert 256 * w == Swap(w) + (w / 256) * 0xFFFF;
      AddMultiple(256 * Sum(ws[..n]) + Swap(w), w / 256);
      SameResidue(Sum(SwapAll(ws[..n])), 256 * Sum(ws[..n]), Swap(w));
    }
  }

  lemma SameResidue(a: int, b: int, c: int)
    requires a % 0xFFFF == b % 0xFFFF
    ensures (a + c) % 0xFFFF == (b + c) % 0xFFFF
  {
    var k := a / 0xFFFF - b / 0xFFFF;
    assert a + c == b + c + k * 0xFFFF;
    AddMultiple(b + c, k);
  }

  /** The host may read every word byte-swapped: validity is the same either way. */
  lemma ByteOrderIrrelevant(p: Packet)
    ensures Valid(p) <==> Valid(p.(words := SwapAll(p.words)))
  {
    SwapSum(p.words);
    var s := Sum(p.words);
    AddMultiple(s, s);
    assert 256 * (256 * s) == s + s * 0xFFFF;
    if (256 * s) % 0xFFFF == 0 {
      AddMultiple(0, 256 * ((256 * s) / 0xFFFF));
      assert 256 * (256 * s) == 0 + 256 * ((256 * s) / 0xFFFF) * 0xFFFF;
    }
    if s % 0xFFFF == 0 {
      AddMultiple(0, 256 * (s / 0xFFFF));
      assert 256 * s == 0 + 256 * (s / 0xFFFF) * 0xFFFF;
    }
  }

  /** Flags 1, a valid packet, an invalid result. */
  lemma NonzeroFlagsCounterexample()
    ensures var p := Packet([1, 0xFFFE], 1, 0); Valid(p) && !Valid(p.(words := Rewritten(p, 0x8000)))
  {
    var p := Packet([1, 0xFFFE], 1, 0);
    assert p.words[..1] == [1] && Sum([1]) == 1;
    ValidExactlyWhenFlagsZero(p, 0x8000);
  }

  /** Flags zero, checksum 0x8000: the patched checksum says that there is none. */
  lemma ZeroChecksumReached()
    ensures var p := Packet([0, 0x8000, 0x7FFF], 1, 0); Valid(p) && Rewritten(p, 0x8000)[1] == 0
  {
    var p := Packet([0, 0x8000, 0x7FFF], 1, 0);
    assert p.words[..2] == [0, 0x8000] && p.words[..2][..1] == [0] && Sum([0]) == 0 && Sum([0, 0x8000]) == 0x8000;
    ZeroExactlyWhenEqual(0x8000, 0x8000);
  }
}
