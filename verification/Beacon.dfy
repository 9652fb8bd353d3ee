/** The beacon's information elements (core/rtw_ap.c) edited in place: element search, replace,
    insert and remove, and the TIM kept up to date. */
module Beacon {
  import opened ByteSeqs
  import Tim

  const FIXED := 12           // timestamp, beacon interval, capability
  const EID_SSID := 0
  const EID_RATES := 1

  // ---------------------------------------------------------------- elements

  /** The bytes of one element: id, length, and as many bytes of data. */
  predicate IsElement(e: Bytes) {
    2 <= |e| == 2 + e[1] as int
  }

  predicate AllElements(es: seq<Bytes>) {
    forall k :: 0 <= k < |es| ==> IsElement(es[k])
  }

  function MakeElement(id: Byte, data: Bytes): (e: Bytes)
    requires |data| < 256
    ensures IsElement(e) && e[0] == id && e[2..] == data
  {
    [id, |data|] + data
  }

  /** Where element `k` starts in the area. */
  function Off(es: seq<Bytes>, k: nat): nat
    requires k <= |es|
  {
    |Flat(es[..k])|
  }

  lemma Around(es: seq<Bytes>, k: nat)
    requires k < |es|
    ensures Flat(es) == Flat(es[..k]) + es[k] + Flat(es[k + 1..])
    ensures Off(es, k + 1) == Off(es, k) + |es[k]|
  {
    assert es == es[..k] + [es[k]] + es[k + 1..];
    FlatAround(es[..k], es[k], es[k + 1..]);
    assert es[..k + 1] == es[..k] + [es[k]] + [];
    FlatAround(es[..k], es[k], []);
  }

  lemma OffBound(es: seq<Bytes>, k: nat)
    requires k <= |es|
    ensures Off(es, k) <= |Flat(es)| && Flat(es) == Flat(es[..k]) + Flat(es[k..])
  {
    assert es == es[..k] + es[k..];
    FlatConcat(es[..k], es[k..]);
  }

  /** The first element with an id, or the number of elements. */
  function FirstWith(es: seq<Bytes>, id: Byte): (k: nat)
    requires AllElements(es)
    ensures k <= |es| && (k < |es| ==> es[k][0] == id) && forall j :: 0 <= j < k ==> es[j][0] != id
  {
    if es == [] || es[0][0] == id then 0 else 1 + FirstWith(es[1..], id)
  }

  /** How many elements the add scan passes: it stops at the first id that is not smaller. */
  function Leading(es: seq<Bytes>, id: Byte): (k: nat)
    requires AllElements(es)
    ensures k <= |es| && (k < |es| ==> es[k][0] >= id) && forall j :: 0 <= j < k ==> es[j][0] < id
  {
    if es == [] || es[0][0] >= id then 0 else 1 + Leading(es[1..], id)
  }

  predicate NonEmpty(e: Bytes) {
    |e| > 2
  }

  // ---------------------------------------------------------------- the edits on lists

  function Replaced(es: seq<Bytes>, k: nat, e: Bytes): seq<Bytes>
    requires k < |es|
  {
    es[..k] + [e] + es[k + 1..]
  }

  function InsertedAt(es: seq<Bytes>, k: nat, e: Bytes): seq<Bytes>
    requires k <= |es|
  {
    es[..k] + [e] + es[k..]
  }

  function Dropped(es: seq<Bytes>, k: nat): seq<Bytes>
    requires k < |es|
  {
    es[..k] + es[k + 1..]
  }

  /** `rtw_add_bcn_ie`: replace the element the scan stopped at, or insert behind the last one it
      passed; nothing when there is none or when that one is empty. */
  function Added(es: seq<Bytes>, e: Bytes): seq<Bytes>
    requires AllElements(es) && IsElement(e)
  {
    var k := Leading(es, e[0]);
    if k < |es| && es[k][0] == e[0] then
      if NonEmpty(es[k]) then Replaced(es, k, e) else es
    else if k > 0 && NonEmpty(es[k - 1]) then InsertedAt(es, k, e)
    else es
  }

  /** `rtw_remove_bcn_ie`: the first element of that id goes, unless it is empty. */
  function Removed(es: seq<Bytes>, id: Byte): seq<Bytes>
    requires AllElements(es)
  {
    var k := FirstWith(es, id);
    if k < |es| && NonEmpty(es[k]) then Dropped(es, k) else es
  }

  predicate Sorted(es: seq<Bytes>)
    requires AllElements(es)
  {
    forall i, j :: 0 <= i < j < |es| ==> es[i][0] <= es[j][0]
  }

  lemma EditsAreElements(es: seq<Bytes>, k: nat, e: Bytes)
    requires AllElements(es) && IsElement(e) && k <= |es|
    ensures AllElements(InsertedAt(es, k, e)) && (k < |es| ==> AllElements(Replaced(es, k, e)))
  {
  }

  lemma AddedIsElements(es: seq<Bytes>, e: Bytes)
    requires AllElements(es) && IsElement(e)
    ensures AllElements(Added(es, e))
  {
  }

  lemma RemovedIsElements(es: seq<Bytes>, id: Byte)
    requires AllElements(es)
    ensures AllElements(Removed(es, id))
  {
  }

  /** Adding keeps ids in order. */
  lemma AddedSorted(es: seq<Bytes>, e: Bytes)
    requires AllElements(es) && IsElement(e) && Sorted(es)
    ensures AllElements(Added(es, e)) && Sorted(Added(es, e))
  {
    AddedIsElements(es, e);
  }

  /** The elements with another id, in order. */
  function Apart(es: seq<Bytes>, id: Byte): seq<Bytes>
    requires AllElements(es)
  {
    if es == [] then []
    else if es[0][0] == id then Apart(es[1..], id)
    else [es[0]] + Apart(es[1..], id)
  }

  lemma {:induction false} ApartConcat(a: seq<Bytes>, b: seq<Bytes>, id: Byte)
    requires AllElements(a) && AllElements(b)
    ensures AllElements(a + b) && Apart(a + b, id) == Apart(a, id) + Apart(b, id)
  {
    if a == [] {
      assert a + b == b;
    } else {
      assert (a + b)[1..] == a[1..] + b;
      ApartConcat(a[1..], b, id);
    }
  }

  /** All elements of other ids, repeated ones included, stay byte for byte and in order. */
  lemma AddedKeepsOthers(es: seq<Bytes>, e: Bytes)
    requires AllElements(es) && IsElement(e)
    ensures AllElements(Added(es, e)) && Apart(Added(es, e), e[0]) == Apart(es, e[0])
  {
    AddedIsElements(es, e);
    var bs, k := Added(es, e), Leading(es, e[0]);
    if bs != es {
      var rest := if es != [] && k < |es| && es[k][0] == e[0] then es[k + 1..] else es[k..];
      assert bs == es[..k] + ([e] + rest);
      assert ([e] + rest)[1..] == rest;
      ApartConcat(es[..k], [e] + rest, e[0]);
      if rest == es[k..] {
        assert es == es[..k] + rest;
        ApartConcat(es[..k], rest, e[0]);
      } else {
        assert es == es[..k] + ([es[k]] + rest);
        assert ([es[k]] + rest)[1..] == rest;
        ApartConcat(es[..k], [es[k]] + rest, e[0]);
      }
    }
  }

  /** And removing takes nothing else away either. */
  lemma RemovedKeepsOthers(es: seq<Bytes>, id: Byte)
    requires AllElements(es)
    ensures AllElements(Removed(es, id)) && Apart(Removed(es, id), id) == Apart(es, id)
  {
    RemovedIsElements(es, id);
    var k := FirstWith(es, id);
    if Removed(es, id) != es {
      var rest := es[k + 1..];
      assert es == es[..k] + ([es[k]] + rest) && ([es[k]] + rest)[1..] == rest;
      ApartConcat(es[..k], rest, id);
      ApartConcat(es[..k], [es[k]] + rest, id);
    }
  }

  lemma FirstIs(es: seq<Bytes>, id: Byte, k: nat)
    requires AllElements(es) && k <= |es| && (k < |es| ==> es[k][0] == id)
    requires forall j :: 0 <= j < k ==> es[j][0] != id
    ensures FirstWith(es, id) == k
  {
  }

  /** A receiver that looks for the id sees the new element exactly when the add took effect:
      a non-empty element stood at, or right before, its place. */
  lemma AddedIsSeen(es: seq<Bytes>, e: Bytes)
    requires AllElements(es) && IsElement(e)
    ensures AllElements(Added(es, e))
    ensures var bs := Added(es, e); var j := FirstWith(bs, e[0]); var k := Leading(es, e[0]);
      var place := if k < |es| && es[k][0] == e[0] then k else k - 1;
      && (0 <= place && NonEmpty(es[place]) ==> j < |bs| && bs[j] == e)
      && (!(0 <= place && NonEmpty(es[place])) ==> bs == es)
  {
    AddedIsElements(es, e);
    var bs, k := Added(es, e), Leading(es, e[0]);
    var place := if k < |es| && es[k][0] == e[0] then k else k - 1;
    if 0 <= place && NonEmpty(es[place]) {
      assert bs[k] == e && forall x :: 0 <= x < k ==> bs[x] == es[x];
      FirstIs(bs, e[0], k);
    }
  }

  /** Adding a non-empty element of an absent id and removing it again changes nothing. */
  lemma AddThenRemove(es: seq<Bytes>, e: Bytes)
    requires AllElements(es) && IsElement(e) && NonEmpty(e)
    requires forall k :: 0 <= k < |es| ==> es[k][0] != e[0]
    ensures AllElements(Added(es, e)) && Removed(Added(es, e), e[0]) == es
  {
    AddedIsElements(es, e);
    var bs, k := Added(es, e), Leading(es, e[0]);
    if bs != es {
      assert bs[k] == e && forall x :: 0 <= x < k ==> bs[x] == es[x];
      assert FirstWith(bs, e[0]) == k;
      assert bs[..k] == es[..k] && bs[k + 1..] == es[k..];
    }
  }

  /** The add, place by place: between elements of smaller ids and the first that is not smaller, the
      one of the same id is replaced, and others of that id stay; otherwise the new one goes in
      between; and nothing happens where an empty element, or none, holds the place. */
  lemma AddedBetween(a: seq<Bytes>, b: seq<Bytes>, e: Bytes)
    requires AllElements(a + b) && IsElement(e)
    requires (forall i :: 0 <= i < |a| ==> (a + b)[i][0] < e[0]) && (b != [] ==> (a + b)[|a|][0] >= e[0])
    ensures Added(a + b, e) ==
      if b != [] && b[0][0] == e[0] then if |b[0]| > 2 then a + [e] + b[1..] else a + b
      else if a != [] && |a[|a| - 1]| > 2 then a + [e] + b
      else a + b
  {
    var es := a + b;
    assert Leading(es, e[0]) == |a|;
    assert es[..|a|] == a && es[|a|..] == b && (b != [] ==> es[|a| + 1..] == b[1..]);
  }

  /** The removal: the first element of its id goes if it is not empty; later ones of that id stay. */
  lemma RemovedBetween(a: seq<Bytes>, e: Bytes, b: seq<Bytes>)
    requires AllElements(a + [e] + b) && IsElement(e)
    requires forall i :: 0 <= i < |a| ==> (a + [e] + b)[i][0] != e[0]
    ensures Removed(a + [e] + b, e[0]) == if |e| > 2 then a + b else a + [e] + b
  {
    var es := a + [e] + b;
    assert es[|a|] == e;
    FirstIs(es, e[0], |a|);
    assert es[..|a|] == a && es[|a| + 1..] == b;
  }

  /** Where there is none, nothing is removed. */
  lemma RemovedNone(es: seq<Bytes>, id: Byte)
    requires AllElements(es) && forall i :: 0 <= i < |es| ==> es[i][0] != id
    ensures Removed(es, id) == es
  {
    FirstIs(es, id, |es|);
  }

  // ---------------------------------------------------------------- the edits in place

  lemma ReplacedFlat(es: seq<Bytes>, k: nat, e: Bytes)
    requires k < |es|
    ensures Flat(Replaced(es, k, e)) == Flat(es[..k]) + e + Flat(es[k + 1..])
  {
    FlatAround(es[..k], e, es[k + 1..]);
  }

  lemma InsertedFlat(es: seq<Bytes>, k: nat, e: Bytes)
    requires k <= |es|
    ensures Flat(InsertedAt(es, k, e)) == Flat(es[..k]) + e + Flat(es[k..])
  {
    FlatAround(es[..k], e, es[k..]);
  }

  lemma DroppedFlat(es: seq<Bytes>, k: nat)
    requires k < |es|
    ensures Flat(Dropped(es, k)) == Flat(es[..k]) + Flat(es[k + 1..])
  {
    FlatConcat(es[..k], es[k + 1..]);
  }

  /** Reading element `k` where it lies. */
  lemma ElementInPlace(fixed: Bytes, es: seq<Bytes>, k: nat)
    requires |fixed| == FIXED && AllElements(es) && k < |es|
    ensures var p := FIXED + Off(es, k); var s := fixed + Flat(es);
      p + |es[k]| <= |s| && s[p..p + |es[k]|] == es[k] && s[p] == es[k][0] && s[p + 1] as int == |es[k]| - 2
  {
    Around(es, k);
    var p, s, e := FIXED + Off(es, k), fixed + Flat(es), es[k];
    var a, c := Flat(es[..k]), Flat(es[k + 1..]);
    assert s == (fixed + a) + e + c by {
      Assoc(fixed, a, e);
      Assoc(fixed, a + e, c);
    }
    Parts(fixed + a, e, c);
    assert s[p] == s[p..p + |e|][0] && s[p + 1] == s[p..p + |e|][1];
  }

  /** The network's information elements: the fixed fields, then the elements. */
  class Bss {
    const ies: array<Byte>
    var ieLength: nat

    constructor (ies: array<Byte>, ieLength: nat)
      requires ieLength <= ies.Length
      ensures this.ies == ies && this.ieLength == ieLength
    {
      this.ies, this.ieLength := ies, ieLength;
    }

    ghost predicate Holds(fixed: Bytes, es: seq<Bytes>)
      reads this, ies
    {
      |fixed| == FIXED && AllElements(es) && ieLength <= ies.Length && ies[..ieLength] == fixed + Flat(es)
    }

    /** `rtw_get_ie` over the elements: where the first one of that id is, and its data length. */
    method GetIe(id: Byte, ghost fixed: Bytes, ghost es: seq<Bytes>) returns (found: bool, p: nat, len: nat)
      requires Holds(fixed, es)
      ensures found <==> FirstWith(es, id) < |es|
      ensures found ==> var k := FirstWith(es, id); p == FIXED + Off(es, k) && len == |es[k]| - 2
    {
      found, p, len := false, FIXED, 0;
      if ieLength - FIXED < 1 {
        NoBytesNoElements(es);
        return;
      }
      ghost var k := 0;
      while p < ieLength
        invariant k <= |es| && p == FIXED + Off(es, k)
        invariant forall j :: 0 <= j < k ==> es[j][0] != id
        decreases |es| - k
      {
        AtElement(fixed, es, k, p);
        if ies[p] == id {
          FirstIs(es, id, k);
          return true, p, ies[p + 1] as int;
        }
        p := p + 2 + ies[p + 1] as int;
        k := k + 1;
      }
      AtEnd(es, k);
      FirstIs(es, id, |es|);
    }

    /** A scan that is not past the area stands on an element. */
    lemma AtElement(fixed: Bytes, es: seq<Bytes>, k: nat, p: nat)
      requires Holds(fixed, es) && k <= |es| && p == FIXED + Off(es, k) && p < ieLength
      ensures k < |es| && p + |es[k]| <= ieLength && ies[p] == es[k][0] && ies[p + 1] as int == |es[k]| - 2
      ensures p + |es[k]| == FIXED + Off(es, k + 1)
    {
      assert es[..|es|] == es;
      if k < |es| {
        ElementInPlace(fixed, es, k);
        Around(es, k);
        assert ies[p] == ies[..ieLength][p] && ies[p + 1] == ies[..ieLength][p + 1];
      }
    }

    /** What every editor does: back the remainder up, write, copy the remainder behind it. */
    method Splice(at: nat, n: nat, bytes: Bytes, ghost s: Bytes)
      requires at + n <= ieLength <= ies.Length && ieLength - n + |bytes| <= ies.Length && ies[..ieLength] == s
      modifies this, ies
      ensures ieLength == |s| - n + |bytes| <= ies.Length
      ensures ies[..ieLength] == s[..at] + bytes + s[at + n..]
    {
      var remainder := ies[at + n..ieLength];
      assert remainder == s[at + n..];
      forall i | 0 <= i < |bytes| {
        ies[at + i] := bytes[i];
      }
      forall i | 0 <= i < |remainder| {
        ies[at + |bytes| + i] := remainder[i];
      }
      ieLength := at + |bytes| + |remainder|;
    }

    /** The scan of `rtw_add_bcn_ie`: the element at or right before the place of `id`. */
    method FindPlace(id: Byte, ghost fixed: Bytes, ghost es: seq<Bytes>) returns (match': bool, some: bool, p: nat, len: nat)
      requires Holds(fixed, es)
      ensures var k := Leading(es, id);
        && match' == (k < |es| && es[k][0] == id)
        && some == (match' || k > 0)
        && (some ==> var i := if match' then k else k - 1; p == FIXED + Off(es, i) && len == |es[i]| - 2)
    {
      match', some, p, len := false, false, FIXED, 0;
      var i := FIXED;
      ghost var k := 0;
      while i < ieLength
        invariant k <= |es| && i == FIXED + Off(es, k) && !match'
        invariant forall j :: 0 <= j < k ==> es[j][0] < id
        invariant some == (k > 0)
        invariant some ==> p == FIXED + Off(es, k - 1) && len == |es[k - 1]| - 2
        decreases |es| - k
      {
        AtElement(fixed, es, k, i);
        if ies[i] > id {
          return;
        } else if ies[i] == id {
          return true, true, i, ies[i + 1] as int;
        }
        some, p, len := true, i, ies[i + 1] as int;
        i := i + 2 + ies[i + 1] as int;
        k := k + 1;
      }
      AtEnd(es, k);
    }

    method ReplaceAt(p: nat, len: nat, e: Bytes, ghost fixed: Bytes, ghost es: seq<Bytes>, ghost k: nat)
      requires Holds(fixed, es) && k < |es| && p == FIXED + Off(es, k) && len == |es[k]| - 2
      requires IsElement(e) && ieLength + |e| <= ies.Length
      modifies this, ies
      ensures Holds(fixed, Replaced(es, k, e))
    {
      EditsAreElements(es, k, e);
      SpliceReplaces(fixed, es, k, e);
      Splice(p, len + 2, e, fixed + Flat(es));
    }

    method InsertAt(p: nat, e: Bytes, ghost fixed: Bytes, ghost es: seq<Bytes>, ghost k: nat)
      requires Holds(fixed, es) && k <= |es| && p == FIXED + Off(es, k)
      requires IsElement(e) && ieLength + |e| <= ies.Length
      modifies this, ies
      ensures Holds(fixed, InsertedAt(es, k, e))
    {
      EditsAreElements(es, k, e);
      SpliceInserts(fixed, es, k, e);
      Splice(p, 0, e, fixed + Flat(es));
    }

    /** `rtw_add_bcn_ie`. */
    method AddIe(id: Byte, content: Bytes, ghost fixed: Bytes, ghost es: seq<Bytes>)
      requires Holds(fixed, es) && |content| < 256 && ieLength + 2 + |content| <= ies.Length
      modifies this, ies
      ensures Holds(fixed, Added(es, MakeElement(id, content)))
    {
      var e := MakeElement(id, content);
      ghost var k := Leading(es, id);
      var match', some, p, len := FindPlace(id, fixed, es);
      if !some || len == 0 {
        return;
      }
      if match' {
        ReplaceAt(p, len, e, fixed, es, k);
      } else {
        Around(es, k - 1);
        InsertAt(p + len + 2, e, fixed, es, k);
      }
    }

    /** `rtw_remove_bcn_ie`. */
    method RemoveIe(id: Byte, ghost fixed: Bytes, ghost es: seq<Bytes>)
      requires Holds(fixed, es)
      modifies this, ies
      ensures Holds(fixed, Removed(es, id))
    {
      RemovedIsElements(es, id);
      var found, p, len := GetIe(id, fixed, es);
      if !found || len == 0 {
        return;
      }
      SpliceDrops(fixed, es, FirstWith(es, id));
      Splice(p, len + 2, [], fixed + Flat(es));
    }

    /** Where `update_BCNTIM` puts a first TIM: behind the SSID and the rates and three bytes more. */
    method InsertOffset(ghost fixed: Bytes, ghost es: seq<Bytes>) returns (offset: nat)
      requires Holds(fixed, es)
      ensures offset == FIXED + HeadLen(es)
    {
      offset := FIXED;
      var found, p, len := GetIe(EID_SSID, fixed, es);
      if found {
        offset := offset + len + 2;
      }
      found, p, len := GetIe(EID_RATES, fixed, es);
      if found {
        offset := offset + len + 2;
      }
      offset := offset + 3;
    }

    /** The writes of `update_BCNTIM`: the element over what is there, the remainder behind it. The
        element's own length is the `u8` that the TIM writer returns, so the remainder overwrites an
        element of 256 bytes. */
    method WriteTim(at: nat, n: nat, b: Tim.Bitmap, ghost s: Bytes)
      requires at + n <= ieLength <= ies.Length && ies[..ieLength] == s
      requires ieLength + |Tim.Element(0, 1, b)| <= ies.Length
      modifies this, ies
      ensures ieLength == |s| - n + |Lasting(Tim.Element(0, 1, b))| <= ies.Length
      ensures ies[..ieLength] == s[..at] + Lasting(Tim.Element(0, 1, b)) + s[at + n..]
    {
      var remainder := ies[at + n..ieLength];
      ghost var o := ies[..];
      assert remainder == s[at + n..] && o[..at] == s[..at];
      var ret := PutTim(at, b, s[..at]);
      PutBehind(at + ret, remainder, s[..at] + Lasting(Tim.Element(0, 1, b)));
    }

    method PutTim(at: nat, b: Tim.Bitmap, ghost front: Bytes) returns (ret: nat)
      requires at + |Tim.Element(0, 1, b)| <= ies.Length && ies[..at] == front
      modifies ies
      ensures ret == |Lasting(Tim.Element(0, 1, b))| && at + ret <= ies.Length
      ensures ies[..at + ret] == front + Lasting(Tim.Element(0, 1, b))
    {
      ghost var o := ies[..];
      ghost var e := Tim.Element(0, 1, b);
      ret := Tim.SetTimIe(0, 1, b, ies, at);
      CutAtReturned(o, at, e, ret);
      assert ies[..at + ret] == ies[..][..at + ret];
    }

    /** The remainder goes behind the first `at` bytes and ends the area. */
    method PutBehind(at: nat, remainder: Bytes, ghost front: Bytes)
      requires at + |remainder| <= ies.Length && ies[..at] == front
      modifies this`ieLength, ies
      ensures ieLength == |front| + |remainder| <= ies.Length && ies[..ieLength] == front + remainder
    {
      CopyBytes(ies, at, remainder);
      ieLength := at + |remainder|;
    }

    method ReplaceTim(p: nat, len: nat, b: Tim.Bitmap, ghost fixed: Bytes, ghost es: seq<Bytes>, ghost k: nat)
      requires Holds(fixed, es) && k < |es| && p == FIXED + Off(es, k) && len == |es[k]| - 2
      requires ieLength + |Tim.Element(0, 1, b)| <= ies.Length
      modifies this, ies
      ensures Holds(fixed, TimAt(es, k, Tim.Element(0, 1, b)))
    {
      TimMayStay(b);
      TimSplicedAt(fixed, es, k, Tim.Element(0, 1, b));
      WriteTim(p, len + 2, b, fixed + Flat(es));
    }

    method InsertTim(p: nat, b: Tim.Bitmap, ghost fixed: Bytes, ghost es: seq<Bytes>, ghost k: nat)
      requires Holds(fixed, es) && k <= |es| && p == FIXED + Off(es, k)
      requires ieLength + |Tim.Element(0, 1, b)| <= ies.Length
      modifies this, ies
      ensures Holds(fixed, TimBefore(es, k, Tim.Element(0, 1, b)))
    {
      TimMayStay(b);
      TimSplicedBefore(fixed, es, k, Tim.Element(0, 1, b));
      WriteTim(p, 0, b, fixed + Flat(es));
    }

    /** `update_BCNTIM`. */
    method UpdateTim(b: Tim.Bitmap, ghost fixed: Bytes, ghost es: seq<Bytes>)
      requires Holds(fixed, es) && (HasTim(es) || BasicLayout(es))
      requires ieLength + |Tim.Element(0, 1, b)| <= ies.Length
      modifies this, ies
      ensures Holds(fixed, TimUpdated(es, Tim.Element(0, 1, b)))
    {
      var found, p, len := GetIe(Tim.EID_TIM, fixed, es);
      if found && len > 0 {
        ReplaceTim(p, len, b, fixed, es, FirstWith(es, Tim.EID_TIM));
      } else {
        var offset := InsertOffset(fixed, es);
        LayoutOffset(es);
        InsertTim(offset, b, fixed, es, 3);
      }
    }
  }

  function LenOf(es: seq<Bytes>, id: Byte): nat
    requires AllElements(es)
  {
    if FirstWith(es, id) < |es| then |es[FirstWith(es, id)]| else 0
  }

  function HeadLen(es: seq<Bytes>): nat
    requires AllElements(es)
  {
    LenOf(es, EID_SSID) + LenOf(es, EID_RATES) + 3
  }

  predicate HasTim(es: seq<Bytes>)
    requires AllElements(es)
  {
    FirstWith(es, Tim.EID_TIM) < |es| && NonEmpty(es[FirstWith(es, Tim.EID_TIM)])
  }

  /** SSID, Supported Rates, and an element of one data byte (DS Parameter Set) in front. */
  predicate BasicLayout(es: seq<Bytes>)
    requires AllElements(es)
  {
    3 <= |es| && es[0][0] == EID_SSID && es[1][0] == EID_RATES && |es[2]| == 3
  }

  /** What is left of a TIM once the remainder is copied behind the length its writer returned. */
  function Lasting(e: Bytes): Bytes {
    if |e| < 256 then e else []
  }

  /** The bytes in front of where the remainder is copied to. */
  lemma CutAtReturned(o: Bytes, at: nat, e: Bytes, ret: nat)
    requires at + |e| <= |o| && |e| <= 256 && ret == |e| % 256
    ensures (o[..at] + e + o[at + |e|..])[..at + ret] == o[..at] + Lasting(e)
  {
    Parts(o[..at], e, o[at + |e|..]);
    Parts(o[..at] + e, o[at + |e|..], []);
    assert o[..at] + e + o[at + |e|..] + [] == o[..at] + e + o[at + |e|..];
  }

  /** The TIM in place of element `k`, or nothing there when it is 256 bytes long. */
  function TimAt(es: seq<Bytes>, k: nat, e: Bytes): seq<Bytes>
    requires k < |es|
  {
    if |e| < 256 then Replaced(es, k, e) else Dropped(es, k)
  }

  function TimBefore(es: seq<Bytes>, k: nat, e: Bytes): seq<Bytes>
    requires k <= |es|
  {
    if |e| < 256 then InsertedAt(es, k, e) else es
  }

  lemma TimMayStay(b: Tim.Bitmap)
    ensures var e := Tim.Element(0, 1, b); |e| <= 256 && (|e| < 256 ==> IsElement(e) && NonEmpty(e) && e[0] == Tim.EID_TIM)
  {
  }

  lemma TimSplicedAt(fixed: Bytes, es: seq<Bytes>, k: nat, e: Bytes)
    requires |fixed| == FIXED && AllElements(es) && k < |es| && (|e| < 256 ==> IsElement(e))
    ensures AllElements(TimAt(es, k, e))
    ensures var s := fixed + Flat(es); var p := FIXED + Off(es, k);
      p + |es[k]| <= |s| && s[..p] + Lasting(e) + s[p + |es[k]|..] == fixed + Flat(TimAt(es, k, e))
  {
    if |e| < 256 {
      EditsAreElements(es, k, e);
      SpliceReplaces(fixed, es, k, e);
    } else {
      SpliceDrops(fixed, es, k);
    }
  }

  lemma TimSplicedBefore(fixed: Bytes, es: seq<Bytes>, k: nat, e: Bytes)
    requires |fixed| == FIXED && AllElements(es) && k <= |es| && (|e| < 256 ==> IsElement(e))
    ensures AllElements(TimBefore(es, k, e))
    ensures var s := fixed + Flat(es); var p := FIXED + Off(es, k);
      p <= |s| && s[..p] + Lasting(e) + s[p..] == fixed + Flat(TimBefore(es, k, e))
  {
    var s, p := fixed + Flat(es), FIXED + Off(es, k);
    OffBound(es, k);
    if |e| < 256 {
      EditsAreElements(es, k, e);
      SpliceInserts(fixed, es, k, e);
    } else {
      assert s[..p] + [] + s[p..] == s;
    }
  }

  function TimUpdated(es: seq<Bytes>, e: Bytes): seq<Bytes>
    requires AllElements(es) && (HasTim(es) || BasicLayout(es))
  {
    if HasTim(es) then TimAt(es, FirstWith(es, Tim.EID_TIM), e) else TimBefore(es, 3, e)
  }

  lemma LayoutOffset(es: seq<Bytes>)
    requires AllElements(es) && BasicLayout(es)
    ensures HeadLen(es) == Off(es, 3)
  {
    FirstIs(es, EID_SSID, 0);
    FirstIs(es, EID_RATES, 1);
    Around(es, 0);
    Around(es, 1);
    Around(es, 2);
    assert es[..0] == [];
  }

  lemma {:induction false} OffMonotone(es: seq<Bytes>, j: nat, k: nat)
    requires AllElements(es) && j <= k <= |es|
    ensures Off(es, j) + 2 * (k - j) <= Off(es, k)
  {
    if j < k {
      OffMonotone(es, j, k - 1);
      Around(es, k - 1);
    }
  }

  /** With SSID and rates in front, the computed place is an element boundary exactly when the
      third element has one byte of data; otherwise the TIM would split an element. */
  lemma BoundaryExactly(es: seq<Bytes>)
    requires AllElements(es) && 3 <= |es| && es[0][0] == EID_SSID && es[1][0] == EID_RATES
    ensures (exists k: nat :: k <= |es| && Off(es, k) == HeadLen(es)) <==> |es[2]| == 3
  {
    FirstIs(es, EID_SSID, 0);
    FirstIs(es, EID_RATES, 1);
    Around(es, 0);
    Around(es, 1);
    Around(es, 2);
    assert es[..0] == [];
    assert HeadLen(es) == Off(es, 2) + 3;
    forall k: nat | k <= |es| && Off(es, k) == HeadLen(es) ensures |es[2]| == 3 {
      if k <= 2 {
        OffMonotone(es, k, 2);
      } else {
        OffMonotone(es, 3, k);
      }
    }
    assert |es[2]| == 3 ==> Off(es, 3) == HeadLen(es);
  }

  /** The edits of the byte area as edits of the list. */
  lemma SpliceReplaces(fixed: Bytes, es: seq<Bytes>, k: nat, e: Bytes)
    requires |fixed| == FIXED && k < |es|
    ensures var s := fixed + Flat(es); var p := FIXED + Off(es, k);
      p + |es[k]| <= |s| && s[..p] + e + s[p + |es[k]|..] == fixed + Flat(Replaced(es, k, e))
  {
    Around(es, k);
    ReplacedFlat(es, k, e);
    SwapMiddle(fixed, Flat(es[..k]), es[k], Flat(es[k + 1..]), e, fixed + Flat(es), fixed + Flat(Replaced(es, k, e)));
  }

  lemma SpliceInserts(fixed: Bytes, es: seq<Bytes>, k: nat, e: Bytes)
    requires |fixed| == FIXED && k <= |es|
    ensures var s := fixed + Flat(es); var p := FIXED + Off(es, k);
      p <= |s| && s[..p] + e + s[p..] == fixed + Flat(InsertedAt(es, k, e))
  {
    OffBound(es, k);
    InsertedFlat(es, k, e);
    var a, c := Flat(es[..k]), Flat(es[k..]);
    PutMiddle(fixed, a, c, e, fixed + Flat(es), fixed + Flat(InsertedAt(es, k, e)));
  }

  lemma SpliceDrops(fixed: Bytes, es: seq<Bytes>, k: nat)
    requires |fixed| == FIXED && k < |es|
    ensures var s := fixed + Flat(es); var p := FIXED + Off(es, k);
      p + |es[k]| <= |s| && s[..p] + [] + s[p + |es[k]|..] == fixed + Flat(Dropped(es, k))
  {
    Around(es, k);
    DroppedFlat(es, k);
    var a, c := Flat(es[..k]), Flat(es[k + 1..]);
    var s, r := fixed + Flat(es), fixed + Flat(Dropped(es, k));
    assert Off(es, k) == |a| && s == fixed + (a + es[k] + c) && r == fixed + (a + c);
    SwapNothing(fixed, a, es[k], c, s, r);
  }

  lemma NoBytesNoElements(es: seq<Bytes>)
    requires AllElements(es) && |Flat(es)| == 0
    ensures es == []
  {
  }

  lemma AtEnd(es: seq<Bytes>, k: nat)
    requires AllElements(es) && k <= |es| && Off(es, k) >= |Flat(es)|
    ensures k == |es|
  {
    if k < |es| {
      Around(es, k);
    }
  }

  // ---------------------------------------------------------------- the TIM over runs

  /** The elements with the TIM of a bitmap in its place. */
  function WithTim(es: seq<Bytes>, b: Tim.Bitmap): seq<Bytes>
    requires 3 <= |es|
  {
    TimBefore(es, 3, Tim.Element(0, 1, b))
  }

  /** A TIM put in is the only one, behind the third element. */
  lemma TimStands(es: seq<Bytes>, b: Tim.Bitmap)
    requires AllElements(es) && BasicLayout(es) && FirstWith(es, Tim.EID_TIM) == |es| && |Tim.Element(0, 1, b)| < 256
    ensures var ws := WithTim(es, b);
      && AllElements(ws) && HasTim(ws) && FirstWith(ws, Tim.EID_TIM) == 3 && ws[3] == Tim.Element(0, 1, b)
      && ws[..3] == es[..3] && ws[4..] == es[3..]
      && forall k :: 0 <= k < |ws| && ws[k][0] == Tim.EID_TIM ==> k == 3
  {
    TimMayStay(b);
    var ws, e := WithTim(es, b), Tim.Element(0, 1, b);
    assert ws[3] == e && (forall k :: 0 <= k < 3 ==> ws[k] == es[k]) && (forall k :: 3 < k < |ws| ==> ws[k] == es[k - 1]);
    FirstIs(ws, Tim.EID_TIM, 3);
  }

  /** The next update takes the place of the last, whichever of the two was too long to stay. */
  lemma NextUpdate(es: seq<Bytes>, b: Tim.Bitmap, b': Tim.Bitmap)
    requires AllElements(es) && BasicLayout(es) && FirstWith(es, Tim.EID_TIM) == |es|
    ensures AllElements(WithTim(es, b)) && (HasTim(WithTim(es, b)) || BasicLayout(WithTim(es, b)))
    ensures TimUpdated(WithTim(es, b), Tim.Element(0, 1, b')) == WithTim(es, b')
  {
    if |Tim.Element(0, 1, b)| < 256 {
      TimStands(es, b);
      var ws := WithTim(es, b);
      assert es[..3] + es[3..] == es;
      assert TimAt(ws, 3, Tim.Element(0, 1, b')) == TimBefore(es, 3, Tim.Element(0, 1, b'));
    }
  }

  /** Wherever a beacon has its TIM, the update takes that place, and the rest stays. */
  lemma TimReplaces(a: seq<Bytes>, old_: Bytes, b: seq<Bytes>, bitmap: Tim.Bitmap)
    requires AllElements(a + [old_] + b) && |old_| > 2 && old_[0] == 5
    requires forall i :: 0 <= i < |a| ==> (a + [old_] + b)[i][0] != 5
    ensures HasTim(a + [old_] + b)
    ensures var e := Tim.Element(0, 1, bitmap);
      TimUpdated(a + [old_] + b, e) == if Tim.Hi(bitmap) - Tim.Lo(bitmap) < 250 then a + [e] + b else a + b
  {
    var es := a + [old_] + b;
    assert es[|a|] == old_;
    FirstIs(es, Tim.EID_TIM, |a|);
    assert es[..|a|] == a && es[|a| + 1..] == b;
  }

  /** A run of TIM updates: the beacon's elements before and after each bitmap. */
  ghost predicate TimRun(states: seq<seq<Bytes>>, bs: seq<Tim.Bitmap>) {
    |states| == |bs| + 1 && forall i :: 0 <= i < |bs| ==> TimStep(states[i], bs[i], states[i + 1])
  }

  predicate TimStep(es: seq<Bytes>, b: Tim.Bitmap, es': seq<Bytes>) {
    AllElements(es) && (HasTim(es) || BasicLayout(es)) && es' == TimUpdated(es, Tim.Element(0, 1, b))
  }

  lemma {:induction false} TimAfterRun(states: seq<seq<Bytes>>, bs: seq<Tim.Bitmap>, n: nat)
    requires TimRun(states, bs) && 1 <= n <= |bs|
    requires AllElements(states[0]) && BasicLayout(states[0]) && FirstWith(states[0], Tim.EID_TIM) == |states[0]|
    ensures states[n] == WithTim(states[0], bs[n - 1])
  {
    if n == 1 {
      assert TimStep(states[0], bs[0], states[1]);
    } else {
      TimAfterRun(states, bs, n - 1);
      assert TimStep(states[n - 1], bs[n - 1], states[n - 1 + 1]);
      NextUpdate(states[0], bs[n - 2], bs[n - 1]);
    }
  }

  /** From the basic layout without a TIM, after every update of every run: if the last window was
      shorter than 251 octets the beacon holds the original elements unchanged and in order with one
      TIM behind the third, and that TIM reads as the bitmap of the last update, in every beacon a
      DTIM (count 0, period 1); if it was 251
      octets the beacon holds the original elements alone. */
  lemma TimOverRuns(states: seq<seq<Bytes>>, bs: seq<Tim.Bitmap>, n: nat)
    requires TimRun(states, bs) && 1 <= n <= |bs|
    requires AllElements(states[0]) && BasicLayout(states[0]) && FirstWith(states[0], Tim.EID_TIM) == |states[0]|
    ensures var b := bs[n - 1]; var ws := states[n];
      if Tim.Hi(b) - Tim.Lo(b) + 1 < Tim.MAX_BITMAP_LEN then
        && AllElements(ws) && 4 <= |ws| && 6 <= |ws[3]| && ws[..3] == states[0][..3] && ws[4..] == states[0][3..]
        && (forall k :: 0 <= k < |ws| && ws[k][0] == Tim.EID_TIM ==> k == 3)
        && (forall aid :: Tim.Reads(ws[3], aid) <==> Tim.IsSet(b, aid))
        && ws[3][0] == 5 && ws[3][2] == 0 && ws[3][3] == 1
      else ws == states[0]
  {
    TimAfterRun(states, bs, n);
    var b := bs[n - 1];
    if Tim.Hi(b) - Tim.Lo(b) + 1 < Tim.MAX_BITMAP_LEN {
      TimStands(states[0], b);
      forall aid ensures Tim.Reads(states[n][3], aid) <==> Tim.IsSet(b, aid) {
        Tim.TimRoundTrip(0, 1, b, aid);
      }
      Tim.TimRoundTrip(0, 1, b, 0);
    }
  }

  // ---------------------------------------------------------------- failing cases

  /** Stations in the first and the last octet of a full bitmap: the update leaves no TIM. */
  lemma FullWindowVanishes(es: seq<Bytes>)
    requires AllElements(es) && BasicLayout(es) && FirstWith(es, Tim.EID_TIM) == |es|
    ensures var b := Tim.FullBitmap(); TimUpdated(es, Tim.Element(0, 1, b)) == es && Tim.IsSet(b, 2007)
  {
    Tim.FullWindowWraps();
  }

  /** The place for the first TIM lies inside a Country element that follows the rates. */
  lemma CountrySplit()
    ensures var es := [MakeElement(EID_SSID, [65]), MakeElement(EID_RATES, [2]), MakeElement(7, [85, 83, 32, 1, 11, 20])];
      AllElements(es) && !exists k: nat :: k <= |es| && Off(es, k) == HeadLen(es)
  {
    var es := [MakeElement(EID_SSID, [65]), MakeElement(EID_RATES, [2]), MakeElement(7, [85, 83, 32, 1, 11, 20])];
    BoundaryExactly(es);
  }

  /** A hidden SSID is an empty element; nothing can be added right behind it. */
  lemma HiddenSsidBlocks(content: Bytes)
    requires |content| < 256
    ensures var es := [MakeElement(EID_SSID, []), MakeElement(3, [6])];
      AllElements(es) && Added(es, MakeElement(EID_RATES, content)) == es
  {
    var es := [MakeElement(EID_SSID, []), MakeElement(3, [6])];
    AddedIsSeen(es, MakeElement(EID_RATES, content));
  }
}
