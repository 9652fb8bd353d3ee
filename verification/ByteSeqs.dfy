/** Byte sequences: 16-bit fields, concatenation of parts, and parts taken out. */
module ByteSeqs {

  type Byte = x: int | 0 <= x < 256
  type Bytes = seq<Byte>

  function U16(n: nat): Bytes
    requires n < 0x1_0000
  {
    [n / 256, n % 256]
  }

  function Be16(s: Bytes, i: nat): (n: nat)
    requires i + 1 < |s|
    ensures n < 0x1_0000
  {
    var hi: int, lo: int := s[i], s[i + 1];
    hi * 256 + lo
  }

  function Flat(ts: seq<Bytes>): Bytes {
    if ts == [] then [] else ts[0] + Flat(ts[1..])
  }

  lemma Assoc(a: Bytes, b: Bytes, c: Bytes)
    ensures a + b + c == a + (b + c)
  {
  }

  lemma {:induction false} FlatConcat(a: seq<Bytes>, b: seq<Bytes>)
    ensures Flat(a + b) == Flat(a) + Flat(b)
  {
    if a == [] {
      assert a + b == b;
    } else {
      FlatConcat(a[1..], b);
      assert (a + b)[1..] == a[1..] + b;
      Assoc(a[0], Flat(a[1..]), Flat(b));
    }
  }

  lemma FlatAround(before: seq<Bytes>, tag: Bytes, after: seq<Bytes>)
    ensures Flat(before + [tag] + after) == Flat(before) + tag + Flat(after)
  {
    FlatConcat(before + [tag], after);
    FlatConcat(before, [tag]);
    assert [tag][1..] == [] && Flat([tag]) == tag + [];
  }

  function WithoutRange(s: Bytes, i: nat, n: nat): (r: Bytes)
    requires i + n <= |s|
    ensures |r| == |s| - n
  {
    s[..i] + s[i + n..]
  }

  /** A copy of `bytes` into a buffer. */
  method CopyBytes(dst: array<Byte>, at: nat, bytes: Bytes)
    requires at + |bytes| <= dst.Length
    modifies dst
    ensures dst[..] == old(dst[..at]) + bytes + old(dst[at + |bytes|..])
  {
    forall k | 0 <= k < |bytes| {
      dst[at + k] := bytes[k];
    }
  }

  lemma Parts(a: Bytes, b: Bytes, c: Bytes)
    ensures var s := a + b + c;
      s[..|a|] == a && s[|a|..|a| + |b|] == b && s[|a| + |b|..] == c
  {
  }

  lemma CutMiddle(a: Bytes, b: Bytes, c: Bytes)
    ensures WithoutRange(a + b + c, |a|, |b|) == a + c
  {
    Parts(a, b, c);
  }

  /** The part between `a` and `c` changed where it lies behind `x`. */
  lemma SwapMiddle(x: Bytes, a: Bytes, b: Bytes, c: Bytes, e: Bytes, s: Bytes, r: Bytes)
    requires s == x + (a + b + c) && r == x + (a + e + c)
    ensures var p := |x| + |a|; s[..p] + e + s[p + |b|..] == r
  {
    Assoc(x, a, b);
    Assoc(x, a + b, c);
    assert s == (x + a) + b + c;
    Parts(x + a, b, c);
    Assoc(x, a, e);
    Assoc(x, a + e, c);
  }

  /** Two copies, one behind the other. */
  lemma CopyTwice(o: Bytes, at: nat, h: Bytes, w: Bytes)
    requires at + |h| + |w| <= |o|
    ensures var m := o[..at] + h + o[at + |h|..];
      m[..at + |h|] + w + m[at + |h| + |w|..] == o[..at] + (h + w) + o[at + |h + w|..]
  {
    var m := o[..at] + h + o[at + |h|..];
    assert m[..at + |h|] == o[..at] + h && m[at + |h| + |w|..] == o[at + |h| + |w|..];
  }

  lemma SwapNothing(x: Bytes, a: Bytes, b: Bytes, c: Bytes, s: Bytes, r: Bytes)
    requires s == x + (a + b + c) && r == x + (a + c)
    ensures var p := |x| + |a|; s[..p] + [] + s[p + |b|..] == r
  {
    assert a + [] + c == a + c;
    SwapMiddle(x, a, b, c, [], s, r);
  }

  lemma PutMiddle(x: Bytes, a: Bytes, c: Bytes, e: Bytes, s: Bytes, r: Bytes)
    requires s == x + (a + c) && r == x + (a + e + c)
    ensures var p := |x| + |a|; s[..p] + e + s[p..] == r
  {
    assert a + [] + c == a + c;
    SwapMiddle(x, a, [], c, e, s, r);
  }
}
