/** The chained hash table of core/rtw_br_ext.c in place: bucket heads, `next_hash` links and
    `pprev_hash` back-pointers, with the shortcut entry that core/rtw_xmit.c keeps into it. */
module Nat25Table {
  import opened ByteSeqs
  import opened Nat25Db

  /** A pointer to the pointer that holds an entry: a bucket head or a link field. */
  datatype Slot = Nowhere | HeadOf(bucket: Bucket) | NextOf(entry: Entry)

  class Entry {
    const key: Key
    var next: Entry?
    var pprev: Slot
    var uses: int
    var mac: Mac
    var stamp: int

    constructor (key: Key, mac: Mac, now: int)
      ensures this.key == key && this.mac == mac && stamp == now && uses == 1
    {
      this.key := key;
      this.mac := mac;
      uses := 1;
      stamp := now;
      next := null;
      pprev := Nowhere;
    }

    ghost function View(): Rec
      reads this
    {
      Rec(key, mac, stamp, uses)
    }
  }

  // ---------------------------------------------------------------- list segments

  ghost function Head(c: seq<Entry>, tail: Entry?): Entry? {
    if c == [] then tail else c[0]
  }

  ghost function SlotAfter(c: seq<Entry>, slot: Slot): Slot {
    if c == [] then slot else NextOf(c[|c| - 1])
  }

  /** Distinct entries of `live` linked in order and holding `recs`: the first is held by `slot`,
      each next one by the link field before it, and the last link leads to `tail`. */
  ghost predicate Segment(c: seq<Entry>, recs: Chain, slot: Slot, tail: Entry?, live: set<Entry>)
    reads c
  {
    && |c| == |recs|
    && (c == [] ||
        (&& c[0] in live && c[0] !in c[1..]
         && c[0].View() == recs[0]
         && c[0].pprev == slot
         && c[0].next == Head(c[1..], tail)
         && Segment(c[1..], recs[1..], NextOf(c[0]), tail, live)))
  }

  ghost predicate Disjoint(a: seq<Entry>, b: seq<Entry>) {
    forall x, y :: 0 <= x < |a| && 0 <= y < |b| ==> a[x] != b[y]
  }

  /** A chain is two segments end to end. */
  lemma {:induction false} SegmentSplit(a: seq<Entry>, b: seq<Entry>, ra: Chain, rb: Chain, slot: Slot, tail: Entry?, live: set<Entry>)
    requires |a| == |ra|
    ensures Segment(a + b, ra + rb, slot, tail, live) <==>
      Segment(a, ra, slot, Head(b, tail), live) && Segment(b, rb, SlotAfter(a, slot), tail, live) && Disjoint(a, b)
  {
    if a == [] {
      assert a + b == b && ra + rb == rb;
    } else {
      SegmentSplit(a[1..], b, ra[1..], rb, NextOf(a[0]), tail, live);
      assert (a + b)[1..] == a[1..] + b && (ra + rb)[1..] == ra[1..] + rb;
      assert Head(a[1..] + b, tail) == Head(a[1..], Head(b, tail));
      assert SlotAfter(a, slot) == SlotAfter(a[1..], NextOf(a[0]));
    }
  }

  /** Position `j` of a chain, with what lies before and after it. */
  lemma SegmentAt(c: seq<Entry>, recs: Chain, j: nat, slot: Slot, live: set<Entry>)
    requires Segment(c, recs, slot, null, live) && j < |c|
    ensures Segment(c[..j], recs[..j], slot, c[j], live)
    ensures Segment(c[j + 1..], recs[j + 1..], NextOf(c[j]), null, live)
    ensures c[j] in live && c[j].View() == recs[j]
    ensures c[j].pprev == SlotAfter(c[..j], slot) && c[j].next == Head(c[j + 1..], null)
    ensures c[j] !in c[..j] && c[j] !in c[j + 1..] && Disjoint(c[..j], c[j + 1..])
  {
    var rest, rrest := [c[j]] + c[j + 1..], [recs[j]] + recs[j + 1..];
    assert c == c[..j] + rest && recs == recs[..j] + rrest;
    assert rest[1..] == c[j + 1..] && rrest[1..] == recs[j + 1..] && rest[0] == c[j];
    SegmentSplit(c[..j], rest, recs[..j], rrest, slot, null, live);
  }

  /** The converse of SegmentAt. */
  lemma SegmentAround(c: seq<Entry>, recs: Chain, j: nat, slot: Slot, live: set<Entry>)
    requires j < |c| == |recs|
    requires Segment(c[..j], recs[..j], slot, c[j], live)
    requires Segment(c[j + 1..], recs[j + 1..], NextOf(c[j]), null, live)
    requires c[j] in live && c[j].View() == recs[j]
    requires c[j].pprev == SlotAfter(c[..j], slot) && c[j].next == Head(c[j + 1..], null)
    requires c[j] !in c[..j] && c[j] !in c[j + 1..] && Disjoint(c[..j], c[j + 1..])
    ensures Segment(c, recs, slot, null, live)
  {
    var rest, rrest := [c[j]] + c[j + 1..], [recs[j]] + recs[j + 1..];
    assert c == c[..j] + rest && recs == recs[..j] + rrest;
    assert rest[1..] == c[j + 1..] && rrest[1..] == recs[j + 1..] && rest[0] == c[j];
    SegmentSplit(c[..j], rest, recs[..j], rrest, slot, null, live);
  }

  lemma {:induction false} SegmentGrow(c: seq<Entry>, recs: Chain, slot: Slot, tail: Entry?, live: set<Entry>, live': set<Entry>)
    requires Segment(c, recs, slot, tail, live) && live <= live'
    ensures Segment(c, recs, slot, tail, live')
  {
    if c != [] {
      SegmentGrow(c[1..], recs[1..], NextOf(c[0]), tail, live, live');
    }
  }

  // ---------------------------------------------------------------- one bucket

  class Bucket {
    var head: Entry?
    ghost var chain: seq<Entry>
    ghost var recs: Chain
    ghost var live: set<Entry>  // every entry ever linked here

    ghost predicate Valid()
      reads this, live
    {
      && (forall x :: 0 <= x < |chain| ==> chain[x] in live)
      && head == Head(chain, null) && Segment(chain, recs, HeadOf(this), null, live)
    }

    ghost function At(j: nat): Entry?
      reads `chain
    {
      if j < |chain| then chain[j] else null
    }

    constructor ()
      ensures Valid() && chain == [] && recs == [] && live == {}
    {
      head := null;
      chain, recs, live := [], [], {};
    }

    /** `__network_hash_link`: push at the head of the bucket. */
    method Link(ent: Entry)
      requires Valid() && ent !in chain
      modifies this, ent`next, ent`pprev, chain`pprev
      ensures Valid() && chain == [ent] + old(chain)
      ensures recs == [ent.View()] + old(recs) && live == old(live) + {ent}
    {
      ent.next := head;
      if ent.next != null {
        ent.next.pprev := NextOf(ent);
      }
      head := ent;
      ent.pprev := HeadOf(this);
      assert ([ent] + chain)[1..] == chain && ([ent.View()] + recs)[1..] == recs;
      SegmentGrow(chain, recs, NextOf(ent), null, live, live + {ent});
      chain, recs, live := [ent] + chain, [ent.View()] + recs, live + {ent};
    }

    /** The store through a back-pointer, `*slot = target`: it moves the end of the segment `a`. */
    method Store(slot: Slot, target: Entry?, ghost a: seq<Entry>, ghost ra: Chain, ghost tail: Entry?)
      requires Segment(a, ra, HeadOf(this), tail, live) && head == Head(a, tail)
      requires slot == SlotAfter(a, HeadOf(this))
      modifies `head, a`next
      ensures Segment(a, ra, HeadOf(this), target, live) && head == Head(a, target)
    {
      ghost var n := |a| - 1;
      if a != [] {
        assert a == a[..n] + [a[n]] && ra == ra[..n] + [ra[n]];
        SegmentSplit(a[..n], [a[n]], ra[..n], [ra[n]], HeadOf(this), tail, live);
        assert [a[n]][0] == a[n];
      }
      match slot {
        case HeadOf(bucket) => bucket.head := target;
        case NextOf(e) => e.next := target;
        case Nowhere =>
      }
      if a != [] {
        SegmentSplit(a[..n], [a[n]], ra[..n], [ra[n]], HeadOf(this), target, live);
      }
    }

    /** The store of the next entry's back-pointer. */
    method Rehome(next: Entry?, slot: Slot, ghost b: seq<Entry>, ghost rb: Chain, ghost slot0: Slot)
      requires Segment(b, rb, slot0, null, live) && next == Head(b, null)
      modifies b`pprev
      ensures Segment(b, rb, slot, null, live)
    {
      if next != null {
        next.pprev := slot;
      }
    }

    /** The writes of `__network_hash_unlink` for the entry between segments `a` and `b`. */
    method Cut(ent: Entry, ghost a: seq<Entry>, ghost b: seq<Entry>, ghost ra: Chain, ghost rb: Chain)
      requires Segment(a, ra, HeadOf(this), ent, live) && Segment(b, rb, NextOf(ent), null, live)
      requires ent.pprev == SlotAfter(a, HeadOf(this)) && ent.next == Head(b, null) && head == Head(a, ent)
      requires ent !in a && ent !in b && Disjoint(a, b)
      modifies `head, a`next, ent`next, ent`pprev, b`pprev
      ensures Segment(a + b, ra + rb, HeadOf(this), null, live) && head == Head(a + b, null)
      ensures ent.next == null && ent.pprev == Nowhere
    {
      label Before:
      Store(ent.pprev, ent.next, a, ra, ent);
      assert unchanged@Before(b) && unchanged@Before(ent);
      label Stored:
      Rehome(ent.next, ent.pprev, b, rb, NextOf(ent));
      assert unchanged@Stored(a) && unchanged@Stored(ent);
      SegmentSplit(a, b, ra, rb, HeadOf(this), null, live);
      label Joined:
      ent.next := null;
      ent.pprev := Nowhere;
      assert unchanged@Joined(a + b);
    }

    /** `__network_hash_unlink`: take an entry out of wherever its back-pointer says it is. */
    method Unlink(ent: Entry, ghost j: nat)
      requires Valid() && At(j) == ent
      modifies this, live
      ensures Valid() && live == old(live) && ent.next == null && ent.pprev == Nowhere
      ensures chain == old(chain)[..j] + old(chain)[j + 1..]
      ensures recs == old(recs)[..j] + old(recs)[j + 1..]
    {
      ghost var c, r := chain, recs;
      SegmentAt(c, r, j, HeadOf(this), live);
      chain, recs := c[..j] + c[j + 1..], r[..j] + r[j + 1..];
      Cut(ent, c[..j], c[j + 1..], r[..j], r[j + 1..]);
    }

    /** The walk along a bucket that every operation makes (`scdb_findEntry` is just this). */
    method Find(env: Env, key: Key) returns (e: Entry?, ghost j: nat)
      requires Valid()
      ensures j == FindIndex(env, recs, key)
      ensures e == At(j) && (e != null ==> e in live && e.View() == recs[j])
    {
      e, j := head, 0;
      while e != null && !Matches(env, e.key, key)
        invariant j <= |chain| && e == At(j)
        invariant forall k :: 0 <= k < j ==> !Matches(env, recs[k].key, key)
        decreases |chain| - j
      {
        SegmentAt(chain, recs, j, HeadOf(this), live);
        e, j := e.next, j + 1;
      }
      if e != null {
        SegmentAt(chain, recs, j, HeadOf(this), live);
      }
    }

    /** The stores to the entry between segments `a` and `b`, which they leave alone. */
    method Put(e: Entry, mac: Mac, stamp: int, uses: int, ghost a: seq<Entry>, ghost b: seq<Entry>, ghost ra: Chain, ghost rb: Chain)
      requires Segment(a, ra, HeadOf(this), e, live) && Segment(b, rb, NextOf(e), null, live) && e !in a && e !in b
      modifies e`mac, e`stamp, e`uses
      ensures Segment(a, ra, HeadOf(this), e, live) && Segment(b, rb, NextOf(e), null, live)
      ensures e.View() == Rec(e.key, mac, stamp, uses)
    {
      label Before:
      e.mac, e.stamp, e.uses := mac, stamp, uses;
      assert unchanged@Before(a) && unchanged@Before(b);
    }

    /** Rewrite what a linked entry holds, leaving the links alone. */
    method Rewrite(e: Entry, mac: Mac, stamp: int, uses: int, ghost j: nat)
      requires Valid() && e == At(j)
      modifies `recs, e`mac, e`stamp, e`uses
      ensures Valid() && recs == old(recs)[j := Rec(e.key, mac, stamp, uses)]
    {
      ghost var c, r := chain, recs;
      SegmentAt(c, r, j, HeadOf(this), live);
      Put(e, mac, stamp, uses, c[..j], c[j + 1..], r[..j], r[j + 1..]);
      recs := r[j := Rec(e.key, mac, stamp, uses)];
      assert recs[..j] == r[..j] && recs[j + 1..] == r[j + 1..];
      SegmentAround(c, recs, j, HeadOf(this), live);
    }

    /** `__nat25_db_network_insert` in its bucket. */
    method Insert(env: Env, key: Key, mac: Mac, now: int, alloc: bool)
      requires Valid()
      modifies this, live
      ensures Valid() && recs == InsertChain(env, old(recs), key, mac, now, alloc)
      ensures live == old(live) || exists e: Entry :: fresh(e) && e.key == key && live == old(live) + {e}
      ensures forall e :: e in old(chain) ==> e in chain
    {
      var e, j := Find(env, key);
      if e != null {
        Rewrite(e, mac, now, e.uses, j);
        return;
      }
      if !alloc {
        return;
      }
      e := new Entry(key, mac, now);
      Link(e);
    }

    /** `__nat25_db_network_lookup_and_replace` in its bucket: a live entry gains a use. */
    method Lookup(env: Env, key: Key, now: int) returns (answer: Answer)
      requires Valid()
      modifies `recs, live
      ensures Valid() && recs == LookupChain(env, old(recs), key, now)
      ensures answer == AskChain(env, old(recs), key, now)
    {
      var e, j := Find(env, key);
      if e == null {
        return Missing;
      }
      if HasExpired(env, e.stamp, now) {
        return Stale;
      }
      answer := Client(e.mac);
      Rewrite(e, e.mac, e.stamp, e.uses + 1, j);
    }

    /** `scdb_findEntry` with the stores that follow it in core/rtw_xmit.c: the pair changes only
        when the search succeeds, the pointer in any case. */
    method Remember(env: Env, sc: Shortcut, key: Key, mac: Mac, ip: Ip, now: int) returns (found: bool)
      requires Valid()
      modifies `recs, live, sc
      ensures Valid() && recs == TouchChain(env, old(recs), key, now)
      ensures found == (FindIndex(env, old(recs), key) < |old(recs)|) == (sc.entry != null)
      ensures found ==> sc.entry in chain && Matches(env, sc.entry.key, key) && sc.mac == mac && sc.ip == ip
      ensures !found ==> sc.mac == old(sc.mac) && sc.ip == old(sc.ip)
    {
      var e, j := Find(env, key);
      sc.entry := e;
      found := e != null;
      if found {
        sc.mac, sc.ip := mac, ip;
        Rewrite(e, e.mac, now, e.uses, j);
      }
    }

    /** The age of a linked entry restarts. */
    method Refresh(e: Entry, now: int) returns (ghost j: nat)
      requires Valid() && e in chain
      modifies `recs, live
      ensures Valid() && j < |old(recs)| && old(recs)[j].key == e.key
      ensures recs == old(recs)[j := old(recs)[j].(stamp := now)]
    {
      j :| j < |chain| && chain[j] == e;
      SegmentAt(chain, recs, j, HeadOf(this), live);
      Rewrite(e, e.mac, now, e.uses, j);
    }

    /** An entry goes, and the shortcut with it if it points there. */
    method Free(sc: Shortcut, f: Entry, ghost j: nat)
      requires Valid() && At(j) == f
      modifies this, live, sc
      ensures Valid() && live == old(live)
      ensures chain == old(chain)[..j] + old(chain)[j + 1..] && recs == old(recs)[..j] + old(recs)[j + 1..]
      ensures if old(sc.entry) == f then sc.Cleared() else sc.Same(old(sc.entry), old(sc.mac), old(sc.ip))
      ensures f !in chain
    {
      SegmentAt(chain, recs, j, HeadOf(this), live);
      if sc.entry == f {
        sc.Clear();
      }
      Unlink(f, j);
    }

    /** The ageing of the entry between `pre` and `post`: it stays, loses a use or goes, and `g`
        is where the walk goes on. */
    method SweepEntry(env: Env, sc: Shortcut, f: Entry, now: int, ghost pre: Chain, ghost r: Rec, ghost post: Chain)
      returns (g: Entry?)
      requires Valid() && At(|pre|) == f && recs == pre + [r] + post
      modifies this, live, sc
      ensures Valid() && live == old(live)
      ensures recs == pre + SweepRec(env, r, now) + post && g == At(|pre + SweepRec(env, r, now)|)
      ensures sc.Same(old(sc.entry), old(sc.mac), old(sc.ip)) || sc.Lost(old(sc.entry), env, [r], now)
      ensures sc.entry in old(chain) ==> sc.entry in chain
    {
      ghost var j := |pre|;
      SegmentAt(chain, recs, j, HeadOf(this), live);
      Splice(recs, pre, r, post);
      g := f.next;
      if HasExpired(env, f.stamp, now) {
        if f.uses - 1 == 0 {
          Free(sc, f, j);
        } else {
          Rewrite(f, f.mac, f.stamp, f.uses - 1, j);
        }
      }
    }

    /** One step of the ageing walk: the `k` first records are aged, the others are as before. */
    method SweepStep(env: Env, sc: Shortcut, f: Entry, now: int, ghost recs0: Chain, ghost k: nat) returns (g: Entry?)
      requires Valid() && k <= |recs0| && f == At(|SweepChain(env, recs0[..k], now)|)
      requires recs == SweepChain(env, recs0[..k], now) + recs0[k..]
      modifies this, live, sc
      ensures Valid() && live == old(live) && k < |recs0| && g == At(|SweepChain(env, recs0[..k + 1], now)|)
      ensures recs == SweepChain(env, recs0[..k + 1], now) + recs0[k + 1..]
      ensures sc.Same(old(sc.entry), old(sc.mac), old(sc.ip)) || sc.Lost(old(sc.entry), env, recs0, now)
      ensures sc.entry in old(chain) ==> sc.entry in chain
    {
      ghost var pre := SweepChain(env, recs0[..k], now);
      SweepChainStep(env, recs0, k, now);
      assert recs == pre + [recs0[k]] + recs0[k + 1..];
      g := SweepEntry(env, sc, f, now, pre, recs0[k], recs0[k + 1..]);
    }

    /** One bucket of `nat25_db_expire`; an entry that goes takes the shortcut with it. */
    method Sweep(env: Env, sc: Shortcut, now: int)
      requires Valid()
      modifies this, live, sc
      ensures Valid() && live == old(live) && recs == SweepChain(env, old(recs), now)
      ensures sc.Same(old(sc.entry), old(sc.mac), old(sc.ip)) || sc.Lost(old(sc.entry), env, old(recs), now)
      ensures sc.entry in old(chain) ==> sc.entry in chain
    {
      ghost var recs0 := recs;
      assert recs0 == [] + recs0[0..];
      var f := head;
      ghost var k: nat := 0;
      while f != null
        invariant Valid() && live == old(live)
        invariant k <= |recs0| && recs == SweepChain(env, recs0[..k], now) + recs0[k..]
        invariant f == At(|SweepChain(env, recs0[..k], now)|)
        invariant sc.Same(old(sc.entry), old(sc.mac), old(sc.ip)) || sc.Lost(old(sc.entry), env, recs0, now)
        invariant sc.entry in old(chain) ==> sc.entry in chain
        decreases |recs0| - k
      {
        f := SweepStep(env, sc, f, now, recs0, k);
        k := k + 1;
      }
      assert recs0[..k] == recs0;
    }

    /** One bucket of `nat25_db_cleanup`. */
    method Clean(sc: Shortcut)
      requires Valid()
      modifies this, live, sc
      ensures Valid() && live == old(live) && chain == [] && recs == []
      ensures if old(sc.entry) in old(chain) then sc.Cleared() else sc.Same(old(sc.entry), old(sc.mac), old(sc.ip))
    {
      var f := head;
      while f != null
        invariant Valid() && live == old(live) && f == At(0)
        invariant forall e :: e in chain ==> e in old(chain)
        invariant sc.Same(old(sc.entry), old(sc.mac), old(sc.ip)) || (sc.Cleared() && old(sc.entry) in old(chain))
        invariant sc.entry in old(chain) ==> sc.entry in chain
        decreases |chain|
      {
        SegmentAt(chain, recs, 0, HeadOf(this), live);
        var g := f.next;
        Free(sc, f, 0);
        f := g;
      }
    }
  }

  lemma Splice(recs: Chain, pre: Chain, r: Rec, post: Chain)
    requires recs == pre + [r] + post
    ensures recs[|pre|] == r && recs[..|pre|] + recs[|pre| + 1..] == pre + [] + post
    ensures forall r' :: recs[|pre| := r'] == pre + [r'] + post
  {
  }

  lemma AllEmpty(db: Db)
    requires forall k :: 0 <= k < HASH_SIZE ==> db[k] == []
    ensures db == EMPTY_DB
  {
    assert forall k :: 0 <= k < HASH_SIZE ==> EMPTY_DB[k] == [];
  }

  /** The one-entry cache of the last client, `scdb_entry` with `scdb_mac` and `scdb_ip`. */
  class Shortcut {
    var entry: Entry?
    var mac: Mac
    var ip: Ip

    ghost predicate Same(entry: Entry?, mac: Mac, ip: Ip)
      reads this
    {
      this.entry == entry && this.mac == mac && this.ip == ip
    }

    /** It was cleared because a sweep removed its entry. */
    ghost predicate Lost(was: Entry?, env: Env, c: Chain, now: int)
      reads this
    {
      Cleared() && was != null && Nat25Db.Lost(env, c, was.key, now)
    }

    ghost predicate Cleared()
      reads this
    {
      entry == null && mac == ZERO_MAC && ip == ZERO_IP
    }

    constructor ()
      ensures Cleared()
    {
      entry, mac, ip := null, ZERO_MAC, ZERO_IP;
    }

    method Clear()
      modifies this
      ensures Cleared()
    {
      mac, ip, entry := ZERO_MAC, ZERO_IP, null;
    }
  }

  // ---------------------------------------------------------------- the table

  class Table {
    const env: Env
    const nethash: seq<Bucket>
    const sc: Shortcut

    ghost function Live(): set<Entry>
      reads nethash
    {
      set i, e | 0 <= i < |nethash| && e in nethash[i].live :: e
    }

    /** Every bucket is a chain of its own hash, and the shortcut, when set, points into one, at an
        entry the walk for its address would stop at. */
    ghost predicate Valid()
      reads nethash, Live(), sc
    {
      && |nethash| == HASH_SIZE
      && (forall i, j :: 0 <= i < j < HASH_SIZE ==> nethash[i] != nethash[j])
      && (forall i :: 0 <= i < HASH_SIZE ==> nethash[i].Valid())
      && (forall i, e :: 0 <= i < HASH_SIZE && e in nethash[i].live ==> Hash(e.key) == i)
      && (sc.entry != null ==> sc.entry in nethash[Hash(sc.entry.key)].chain && Matches(env, sc.entry.key, Ipv4Key(sc.ip)))
    }

    ghost function Contents(): Db
      requires |nethash| == HASH_SIZE
      reads nethash
    {
      seq(HASH_SIZE, i requires 0 <= i < HASH_SIZE reads nethash => nethash[i].recs)
    }

    constructor (env: Env)
      ensures Valid() && this.env == env && Contents() == EMPTY_DB && Live() == {} && sc.Cleared()
    {
      var bs: seq<Bucket> := [];
      for i := 0 to HASH_SIZE
        invariant |bs| == i
        invariant forall k :: 0 <= k < i ==> bs[k].Valid() && bs[k].recs == [] && bs[k].live == {} && fresh(bs[k])
        invariant forall k, l :: 0 <= k < l < i ==> bs[k] != bs[l]
      {
        var b := new Bucket();
        bs := bs + [b];
      }
      this.env := env;
      nethash := bs;
      sc := new Shortcut();
    }

    /** An operation that touches one bucket and its entries only keeps the table valid. */
    twostate lemma Lifted(h: nat)
      requires old(Valid()) && h < HASH_SIZE && nethash[h].Valid()
      requires forall i :: 0 <= i < HASH_SIZE && i != h ==> unchanged(nethash[i])
      requires forall e :: e in old(Live()) && Hash(e.key) != h ==> unchanged(e)
      requires forall e :: e in nethash[h].live ==> Hash(e.key) == h
      requires sc.entry != null ==> sc.entry in nethash[Hash(sc.entry.key)].chain && Matches(env, sc.entry.key, Ipv4Key(sc.ip))
      ensures Valid() && Contents() == old(Contents())[h := nethash[h].recs]
      ensures nethash[h].live == old(nethash[h].live) ==> Live() == old(Live())
    {
      forall i | 0 <= i < HASH_SIZE ensures nethash[i].Valid() {
        if i != h {
          assert old(nethash[i].Valid());
          forall e | e in nethash[i].live ensures unchanged(e) {
            assert e in old(Live());
          }
        }
      }
    }

    /** `__nat25_db_network_insert` under its lock. */
    method Insert(key: Key, mac: Mac, now: int, alloc: bool)
      requires Valid()
      modifies nethash, Live()
      ensures Valid() && fresh(Live() - old(Live()))
      ensures Contents() == Apply(env, old(Contents()), Event.Insert(key, mac, now, alloc))
    {
      var h := Hash(key);
      nethash[h].Insert(env, key, mac, now, alloc);
      Lifted(h);
    }

    /** `__nat25_db_network_lookup_and_replace` under its lock. */
    method Lookup(key: Key, now: int) returns (answer: Answer)
      requires Valid()
      modifies nethash, Live()
      ensures Valid() && Live() == old(Live())
      ensures Contents() == Apply(env, old(Contents()), Event.Lookup(key, now))
      ensures answer == Ask(env, old(Contents()), key, now)
    {
      var h := Hash(key);
      answer := nethash[h].Lookup(env, key, now);
      Lifted(h);
    }

    /** The client's MAC is compared with the shortcut's; the comparison is not negated here. */
    predicate Differs(a: Mac, b: Mac) {
      if env.equalIsZero then a != b else a == b
    }

    /** What the transmit path does with a client's IP frame before INSERT (core/rtw_xmit.c): for
        another client it points the shortcut at the frame's source address, if that is linked;
        for the same one it refreshes the entry, or clears the pair that lost its entry. The result
        says that INSERT is skipped. */
    method Remember(mac: Mac, ip: Ip, now: int) returns (done: bool, ghost j: nat)
      requires Valid()
      modifies nethash, Live(), sc
      ensures Valid() && Live() == old(Live()) && done == (sc.entry != null)
      ensures Differs(old(sc.mac), mac) ==>
        && Contents() == Apply(env, old(Contents()), Event.Touch(Ipv4Key(ip), now))
        && done == (Ask(env, old(Contents()), Ipv4Key(ip), now) != Missing)
        && (if done then sc.mac == mac && sc.ip == ip else sc.mac == old(sc.mac) && sc.ip == old(sc.ip))
      ensures !Differs(old(sc.mac), mac) && old(sc.entry) == null ==> Contents() == old(Contents()) && sc.Cleared()
      ensures !Differs(old(sc.mac), mac) && old(sc.entry) != null ==>
        && sc.Same(old(sc.entry), old(sc.mac), old(sc.ip))
        && var h := Hash(sc.entry.key); var c := old(Contents())[h];
           j < |c| && c[j].key == sc.entry.key && Contents() == old(Contents())[h := c[j := c[j].(stamp := now)]]
    {
      j := 0;
      if Differs(sc.mac, mac) {
        done := Search(mac, ip, now);
      } else if sc.entry != null {
        j := Refresh(now);
        done := true;
      } else {
        sc.Clear();
        done := false;
      }
    }

    method Search(mac: Mac, ip: Ip, now: int) returns (found: bool)
      requires Valid()
      modifies nethash, Live(), sc
      ensures Valid() && Live() == old(Live()) && found == (sc.entry != null)
      ensures Contents() == Apply(env, old(Contents()), Event.Touch(Ipv4Key(ip), now))
      ensures found == (Ask(env, old(Contents()), Ipv4Key(ip), now) != Missing)
      ensures if found then sc.mac == mac && sc.ip == ip else sc.mac == old(sc.mac) && sc.ip == old(sc.ip)
    {
      var key := Ipv4Key(ip);
      var h := Hash(key);
      found := nethash[h].Remember(env, sc, key, mac, ip, now);
      Lifted(h);
    }

    method Refresh(now: int) returns (ghost j: nat)
      requires Valid() && sc.entry != null
      modifies nethash, Live()
      ensures Valid() && Live() == old(Live())
      ensures var h := Hash(sc.entry.key); var c := old(Contents())[h];
        j < |c| && c[j].key == sc.entry.key && Contents() == old(Contents())[h := c[j := c[j].(stamp := now)]]
    {
      var h := Hash(sc.entry.key);
      j := nethash[h].Refresh(sc.entry, now);
      Lifted(h);
    }

    method ExpireBucket(i: nat, now: int)
      requires Valid() && i < HASH_SIZE
      modifies nethash, Live(), sc
      ensures Valid() && Live() == old(Live())
      ensures sc.Same(old(sc.entry), old(sc.mac), old(sc.ip)) || sc.Lost(old(sc.entry), env, old(Contents())[i], now)
      ensures Contents() == old(Contents())[i := SweepChain(env, old(Contents()[i]), now)]
    {
      nethash[i].Sweep(env, sc, now);
      Lifted(i);
    }

    /** `nat25_db_expire`: age every bucket. */
    method Expire(now: int)
      requires Valid()
      modifies nethash, Live(), sc
      ensures Valid() && Live() == old(Live())
      ensures sc.Same(old(sc.entry), old(sc.mac), old(sc.ip)) || exists i :: 0 <= i < HASH_SIZE && sc.Lost(old(sc.entry), env, old(Contents())[i], now)
      ensures Contents() == Apply(env, old(Contents()), Event.Sweep(now))
    {
      ghost var before := Contents();
      for i := 0 to HASH_SIZE
        invariant Valid() && Live() == old(Live())
        invariant sc.Same(old(sc.entry), old(sc.mac), old(sc.ip)) || exists k :: 0 <= k < HASH_SIZE && sc.Lost(old(sc.entry), env, before[k], now)
        invariant forall k :: 0 <= k < HASH_SIZE ==>
          Contents()[k] == if k < i then SweepChain(env, before[k], now) else before[k]
      {
        ExpireBucket(i, now);
      }
    }

    lemma NoEntryLeft()
      requires Valid() && forall k :: 0 <= k < HASH_SIZE ==> Contents()[k] == []
      ensures sc.entry == null
    {
      assert forall h :: 0 <= h < HASH_SIZE ==> nethash[h].recs == Contents()[h];
    }

    method CleanBucket(i: nat)
      requires Valid() && i < HASH_SIZE
      modifies nethash, Live(), sc
      ensures Valid() && Live() == old(Live())
      ensures Contents() == old(Contents())[i := []]
      ensures sc.Same(old(sc.entry), old(sc.mac), old(sc.ip)) || (sc.Cleared() && old(sc.entry) != null)
    {
      nethash[i].Clean(sc);
      Lifted(i);
    }

    /** `nat25_db_cleanup`: free everything. */
    method Cleanup()
      requires Valid()
      modifies nethash, Live(), sc
      ensures Valid() && Live() == old(Live()) && sc.entry == null
      ensures if old(sc.entry) != null then sc.Cleared() else sc.Same(null, old(sc.mac), old(sc.ip))
      ensures Contents() == Apply(env, old(Contents()), Event.Cleanup)
    {
      for i := 0 to HASH_SIZE
        invariant Valid() && Live() == old(Live())
        invariant forall k :: 0 <= k < i ==> Contents()[k] == []
        invariant sc.Same(old(sc.entry), old(sc.mac), old(sc.ip)) || (sc.Cleared() && old(sc.entry) != null)
      {
        CleanBucket(i);
      }
      NoEntryLeft();
      AllEmpty(Contents());
    }
  }
}
