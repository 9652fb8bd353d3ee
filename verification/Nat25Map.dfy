/** What a run of the NAT2.5 database means: with the comparison the database code expects, a
    plain map from network address to client; with the one os_dep/ defines, something else. */
module Nat25Map {
  import opened ByteSeqs
  import opened Nat25Db

  /** What the database keeps for one network address. */
  datatype Val = Val(mac: Mac, stamp: int, uses: int)
  type Clients = map<Key, Val>

  predicate UniqueKeys(c: Chain) {
    forall j, k :: 0 <= j < k < |c| ==> c[j].key != c[k].key
  }

  /** A record says what the map says of an address of bucket `i`. */
  predicate Says(m: Clients, i: int, r: Rec) {
    r.key in m && Hash(r.key) == i && m[r.key] == Val(r.mac, r.stamp, r.uses)
  }

  /** The chain of bucket `i` holds exactly the map's addresses of that hash, once each. */
  ghost predicate ChainDenotes(c: Chain, m: Clients, i: int) {
    && UniqueKeys(c)
    && (forall r :: r in c <==> Says(m, i, r))
  }

  /** The table is the map, and every linked entry has a use left. */
  ghost predicate Denotes(db: Db, m: Clients) {
    && (forall i :: 0 <= i < HASH_SIZE ==> ChainDenotes(db[i], m, i))
    && (forall k :: k in m ==> m[k].uses >= 1)
  }

  // ---------------------------------------------------------------- the map operations

  predicate Gone(env: Env, v: Val, now: int) {
    HasExpired(env, v.stamp, now) && v.uses == 1
  }

  function Aged(env: Env, v: Val, now: int): Val {
    if HasExpired(env, v.stamp, now) then v.(uses := v.uses - 1) else v
  }

  function ApplyMap(env: Env, m: Clients, ev: Event): Clients {
    match ev
    case Insert(key, mac, now, alloc) =>
      if key in m then m[key := Val(mac, now, m[key].uses)]
      else if alloc then m[key := Val(mac, now, 1)]
      else m
    case Lookup(key, now) =>
      if key in m && !HasExpired(env, m[key].stamp, now) then m[key := m[key].(uses := m[key].uses + 1)] else m
    case Touch(key, now) => if key in m then m[key := m[key].(stamp := now)] else m
    case Sweep(now) => map k | k in m && !Gone(env, m[k], now) :: Aged(env, m[k], now)
    case Cleanup => map[]
  }

  function RunMap(env: Env, m: Clients, evs: seq<Event>): Clients {
    if evs == [] then m else ApplyMap(env, RunMap(env, m, evs[..|evs| - 1]), evs[|evs| - 1])
  }

  function AskMap(env: Env, m: Clients, key: Key, now: int): Answer {
    if key !in m then Missing
    else if HasExpired(env, m[key].stamp, now) then Stale
    else Client(m[key].mac)
  }

  // ---------------------------------------------------------------- the table refines the map

  /** The map is determined by the table. */
  lemma DenotesOnce(db: Db, m: Clients, m': Clients)
    requires Denotes(db, m) && Denotes(db, m')
    ensures m == m'
  {
    forall k | k in m ensures k in m' && m'[k] == m[k] {
      var r := Rec(k, m[k].mac, m[k].stamp, m[k].uses);
      assert Says(m, Hash(k), r) && r in db[Hash(k)] && Says(m', Hash(k), r);
    }
    forall k | k in m' ensures k in m {
      var r := Rec(k, m'[k].mac, m'[k].stamp, m'[k].uses);
      assert Says(m', Hash(k), r) && r in db[Hash(k)] && Says(m, Hash(k), r);
    }
  }

  /** The walk stops at the address's own record, if there is one. */
  lemma WalkFinds(env: Env, c: Chain, m: Clients, i: int, key: Key)
    requires env.equalIsZero && ChainDenotes(c, m, i) && Hash(key) == i
    ensures FindIndex(env, c, key) < |c| <==> key in m
    ensures key in m ==> c[FindIndex(env, c, key)] == Rec(key, m[key].mac, m[key].stamp, m[key].uses)
  {
    var j := FindIndex(env, c, key);
    if j < |c| {
      assert c[j] in c && Says(m, i, c[j]);
    }
    if key in m {
      var r := Rec(key, m[key].mac, m[key].stamp, m[key].uses);
      assert Says(m, i, r) && r in c;
    }
  }

  /** Rewriting the record of one address rewrites the map there. */
  lemma Rewritten(c: Chain, m: Clients, i: int, j: nat, r: Rec)
    requires ChainDenotes(c, m, i) && j < |c| && r.key == c[j].key
    ensures ChainDenotes(c[j := r], m[r.key := Val(r.mac, r.stamp, r.uses)], i)
  {
    var c', m' := c[j := r], m[r.key := Val(r.mac, r.stamp, r.uses)];
    assert Says(m, i, c[j]) by { assert c[j] in c; }
    forall s ensures s in c' <==> Says(m', i, s) {
      if s in c' {
        var x :| 0 <= x < |c'| && c'[x] == s;
        if x != j {
          assert s in c && Says(m, i, s);
        }
      }
      if Says(m', i, s) && s != r {
        assert Says(m, i, s) && s in c;
        var x :| 0 <= x < |c| && c[x] == s;
        assert c'[x] == s;
      }
      if s == r {
        assert c'[j] == r;
      }
    }
  }

  lemma Pushed(c: Chain, m: Clients, i: int, r: Rec)
    requires ChainDenotes(c, m, i) && r.key !in m && Hash(r.key) == i
    ensures ChainDenotes([r] + c, m[r.key := Val(r.mac, r.stamp, r.uses)], i)
  {
    var c', m' := [r] + c, m[r.key := Val(r.mac, r.stamp, r.uses)];
    assert UniqueKeys(c') by {
      forall j, k | 0 <= j < k < |c'| ensures c'[j].key != c'[k].key {
        assert c'[k] == c[k - 1] && c[k - 1] in c && Says(m, i, c[k - 1]);
        if j > 0 {
          assert c'[j] == c[j - 1];
        }
      }
    }
    forall s ensures s in c' <==> Says(m', i, s) {
      assert s in c' <==> s == r || s in c;
      assert s in c <==> Says(m, i, s);
    }
  }

  /** Other buckets do not see a change to one address. */
  lemma OthersDenote(db: Db, m: Clients, key: Key, v: Val, c: Chain)
    requires Denotes(db, m) && ChainDenotes(c, m[key := v], Hash(key)) && v.uses >= 1
    ensures Denotes(db[Hash(key) := c], m[key := v])
  {
    forall i | 0 <= i < HASH_SIZE && i != Hash(key) ensures ChainDenotes(db[i], m[key := v], i) {
      assert ChainDenotes(db[i], m, i);
      assert forall r :: Says(m, i, r) <==> Says(m[key := v], i, r);
    }
  }

  lemma SameRecDenotes(db: Db, m: Clients, h: nat)
    requires Denotes(db, m) && h < HASH_SIZE
    ensures Denotes(db[h := db[h]], m)
  {
    assert db[h := db[h]] == db;
  }

  lemma KeyedStep(env: Env, db: Db, m: Clients, ev: Event)
    requires env.equalIsZero && Denotes(db, m) && (ev.Insert? || ev.Lookup? || ev.Touch?)
    ensures Denotes(Apply(env, db, ev), ApplyMap(env, m, ev))
  {
    var key := ev.key;
    var h := Hash(key);
    var c := db[h];
    WalkFinds(env, c, m, h, key);
    SameRecDenotes(db, m, h);
    var j := FindIndex(env, c, key);
    if key in m {
      var r := if ev.Insert? then c[j].(mac := ev.mac, stamp := ev.now)
               else if ev.Lookup? then c[j].(uses := c[j].uses + 1)
               else c[j].(stamp := ev.now);
      Rewritten(c, m, h, j, r);
      OthersDenote(db, m, key, Val(r.mac, r.stamp, r.uses), c[j := r]);
    } else if ev.Insert? && ev.alloc {
      var r := Rec(key, ev.mac, ev.now, 1);
      Pushed(c, m, h, r);
      OthersDenote(db, m, key, Val(r.mac, r.stamp, r.uses), [r] + c);
    }
  }

  // ---------------------------------------------------------------- ageing

  /** A sweep keeps exactly the records that one step of it keeps. */
  lemma {:induction false} SweptMembers(env: Env, c: Chain, now: int)
    ensures forall r :: r in SweepChain(env, c, now) <==> exists s :: s in c && SweepRec(env, s, now) == [r]
  {
    if c != [] {
      var d, last := c[..|c| - 1], c[|c| - 1];
      SweptMembers(env, d, now);
      assert c == d + [last];
      forall r ensures r in SweepChain(env, c, now) <==> exists s :: s in c && SweepRec(env, s, now) == [r] {
        if r in SweepChain(env, d, now) {
          var t :| t in d && SweepRec(env, t, now) == [r];
          assert t in c;
        }
      }
    }
  }

  lemma {:induction false} SweptKeys(env: Env, c: Chain, now: int)
    requires UniqueKeys(c)
    ensures UniqueKeys(SweepChain(env, c, now))
  {
    if c != [] {
      var d, last := c[..|c| - 1], c[|c| - 1];
      SweptKeys(env, d, now);
      SweptMembers(env, d, now);
      var s := SweepChain(env, d, now);
      forall x | 0 <= x < |s| ensures s[x].key != last.key {
        assert s[x] in s;
        var t :| t in d && SweepRec(env, t, now) == [s[x]];
        assert t.key == s[x].key;
      }
    }
  }

  lemma SweptChain(env: Env, c: Chain, m: Clients, i: int, now: int)
    requires ChainDenotes(c, m, i)
    ensures ChainDenotes(SweepChain(env, c, now), ApplyMap(env, m, Sweep(now)), i)
  {
    var m' := ApplyMap(env, m, Sweep(now));
    SweptKeys(env, c, now);
    forall r ensures r in SweepChain(env, c, now) <==> Says(m', i, r) {
      SweptSays(env, c, m, i, now, r);
    }
  }

  lemma SweptSays(env: Env, c: Chain, m: Clients, i: int, now: int, r: Rec)
    requires ChainDenotes(c, m, i)
    ensures r in SweepChain(env, c, now) <==> Says(ApplyMap(env, m, Sweep(now)), i, r)
  {
    SweptMembers(env, c, now);
    if r in SweepChain(env, c, now) {
      var s :| s in c && SweepRec(env, s, now) == [r];
      SaysSwept(env, m, i, now, s, r);
    }
    if Says(ApplyMap(env, m, Sweep(now)), i, r) {
      var s := SaidBefore(env, m, i, now, r);
      assert s in c;
    }
  }

  lemma SaysSwept(env: Env, m: Clients, i: int, now: int, s: Rec, r: Rec)
    requires Says(m, i, s) && SweepRec(env, s, now) == [r]
    ensures Says(ApplyMap(env, m, Sweep(now)), i, r)
  {
  }

  lemma SaidBefore(env: Env, m: Clients, i: int, now: int, r: Rec) returns (s: Rec)
    requires Says(ApplyMap(env, m, Sweep(now)), i, r)
    ensures Says(m, i, s) && SweepRec(env, s, now) == [r]
  {
    var v := m[r.key];
    s := Rec(r.key, v.mac, v.stamp, v.uses);
  }

  lemma SweepStep(env: Env, db: Db, m: Clients, now: int)
    requires Denotes(db, m)
    ensures Denotes(Apply(env, db, Sweep(now)), ApplyMap(env, m, Sweep(now)))
  {
    forall i | 0 <= i < HASH_SIZE ensures ChainDenotes(SweepChain(env, db[i], now), ApplyMap(env, m, Sweep(now)), i) {
      SweptChain(env, db[i], m, i, now);
    }
  }

  lemma StepRefines(env: Env, db: Db, m: Clients, ev: Event)
    requires env.equalIsZero && Denotes(db, m)
    ensures Denotes(Apply(env, db, ev), ApplyMap(env, m, ev))
  {
    match ev
    case Sweep(now) => SweepStep(env, db, m, now);
    case Cleanup =>
    case _ => KeyedStep(env, db, m, ev);
  }

  /** Over every run of inserts, lookups, refreshes, sweeps and cleanups the table is the map. */
  lemma {:induction false} RunRefines(env: Env, db: Db, m: Clients, evs: seq<Event>)
    requires env.equalIsZero && Denotes(db, m)
    ensures Denotes(Run(env, db, evs), RunMap(env, m, evs))
  {
    if evs != [] {
      RunRefines(env, db, m, evs[..|evs| - 1]);
      StepRefines(env, Run(env, db, evs[..|evs| - 1]), RunMap(env, m, evs[..|evs| - 1]), evs[|evs| - 1]);
    }
  }

  /** A lookup answers what the map says. */
  lemma AskRefines(env: Env, db: Db, m: Clients, key: Key, now: int)
    requires env.equalIsZero && Denotes(db, m)
    ensures Ask(env, db, key, now) == AskMap(env, m, key, now)
  {
    WalkFinds(env, db[Hash(key)], m, Hash(key), key);
  }

  // ---------------------------------------------------------------- freshness and ageing over runs

  /** The age limit leaves room in the clock: at most 2^62 ticks. */
  predicate SaneClock(env: Env) {
    0 < env.hz && 4 * AGEING_TIME * env.hz <= ULONG_RANGE
  }

  predicate Timed(ev: Event) {
    !ev.Cleanup?
  }

  /** An event at a time of [from, to] that neither re-inserts the address nor empties the table. */
  predicate Spares(ev: Event, key: Key, from: int, to: int) {
    && Timed(ev) && from <= ev.now <= to
    && !(ev.Insert? && ev.key == key)
  }

  lemma {:induction false} ClientKept(env: Env, m: Clients, key: Key, mac: Mac, t: int, now: int, mid: seq<Event>)
    requires SaneClock(env) && t <= now < t + AGEING_TIME * env.hz
    requires key in m && m[key].mac == mac && t <= m[key].stamp <= now
    requires forall ev :: ev in mid ==> Spares(ev, key, t, now)
    ensures key in RunMap(env, m, mid)
    ensures var v := RunMap(env, m, mid)[key]; v.mac == mac && t <= v.stamp <= now
  {
    if mid != [] {
      var ev := mid[|mid| - 1];
      assert ev in mid;
      ClientKept(env, m, key, mac, t, now, mid[..|mid| - 1]);
      ExpiryIsAge(env, RunMap(env, m, mid[..|mid| - 1])[key].stamp, ev.now);
    }
  }

  lemma {:induction false} RunFrom(env: Env, m: Clients, ev: Event, mid: seq<Event>)
    ensures RunMap(env, m, [ev] + mid) == RunMap(env, ApplyMap(env, m, ev), mid)
  {
    var evs := [ev] + mid;
    if mid == [] {
      assert evs[..0] == [] && evs == [ev];
    } else {
      assert evs[..|evs| - 1] == [ev] + mid[..|mid| - 1];
      RunFrom(env, m, ev, mid[..|mid| - 1]);
    }
  }

  /** After a client is inserted, every lookup of its address before the age limit gives the MAC
      inserted last, whatever inserts of other addresses, lookups, refreshes and sweeps intervene. */
  lemma InsertThenLookup(env: Env, db: Db, m: Clients, key: Key, mac: Mac, t: int, mid: seq<Event>, now: int)
    requires env.equalIsZero && SaneClock(env) && Denotes(db, m)
    requires forall ev :: ev in mid ==> Spares(ev, key, t, now)
    requires t <= now < t + AGEING_TIME * env.hz
    ensures Ask(env, Run(env, db, [Insert(key, mac, t, true)] + mid), key, now) == Client(mac)
  {
    var evs := [Insert(key, mac, t, true)] + mid;
    RunRefines(env, db, m, evs);
    AskRefines(env, Run(env, db, evs), RunMap(env, m, evs), key, now);
    MapKeepsClient(env, m, key, mac, t, mid, now);
  }

  lemma MapKeepsClient(env: Env, m: Clients, key: Key, mac: Mac, t: int, mid: seq<Event>, now: int)
    requires SaneClock(env) && t <= now < t + AGEING_TIME * env.hz
    requires forall ev :: ev in mid ==> Spares(ev, key, t, now)
    ensures AskMap(env, RunMap(env, m, [Insert(key, mac, t, true)] + mid), key, now) == Client(mac)
  {
    var ins := Insert(key, mac, t, true);
    RunFrom(env, m, ins, mid);
    var m1 := ApplyMap(env, m, ins);
    ClientKept(env, m1, key, mac, t, now, mid);
    FreshAnswers(env, RunMap(env, m1, mid), key, t, now);
  }

  /** A refresh restarts the age: whatever the entry's age, the client is found until the age limit
      from the refresh on. */
  lemma TouchThenLookup(env: Env, db: Db, m: Clients, key: Key, t: int, mid: seq<Event>, now: int)
    requires env.equalIsZero && SaneClock(env) && Denotes(db, m) && key in m
    requires forall ev :: ev in mid ==> Spares(ev, key, t, now)
    requires t <= now < t + AGEING_TIME * env.hz
    ensures Ask(env, Run(env, db, [Touch(key, t)] + mid), key, now) == Client(m[key].mac)
  {
    var evs := [Touch(key, t)] + mid;
    RunRefines(env, db, m, evs);
    AskRefines(env, Run(env, db, evs), RunMap(env, m, evs), key, now);
    MapKeepsTouched(env, m, key, t, mid, now);
  }

  lemma MapKeepsTouched(env: Env, m: Clients, key: Key, t: int, mid: seq<Event>, now: int)
    requires SaneClock(env) && t <= now < t + AGEING_TIME * env.hz && key in m
    requires forall ev :: ev in mid ==> Spares(ev, key, t, now)
    ensures AskMap(env, RunMap(env, m, [Touch(key, t)] + mid), key, now) == Client(m[key].mac)
  {
    RunFrom(env, m, Touch(key, t), mid);
    var m1 := ApplyMap(env, m, Touch(key, t));
    ClientKept(env, m1, key, m[key].mac, t, now, mid);
    FreshAnswers(env, RunMap(env, m1, mid), key, t, now);
  }

  lemma FreshAnswers(env: Env, m: Clients, key: Key, t: int, now: int)
    requires SaneClock(env) && key in m && t <= m[key].stamp <= now < t + AGEING_TIME * env.hz
    ensures AskMap(env, m, key, now) == Client(m[key].mac)
  {
    ExpiryIsAge(env, m[key].stamp, now);
  }

  /** An insert that gets no memory changes nothing; a cleanup leaves nothing. */
  lemma NothingLinked(env: Env, db: Db, m: Clients, key: Key, mac: Mac, t: int, now: int)
    requires env.equalIsZero && Denotes(db, m)
    ensures key !in m ==> Ask(env, Apply(env, db, Insert(key, mac, t, false)), key, now) == Missing
    ensures Ask(env, Apply(env, db, Cleanup), key, now) == Missing
  {
    StepRefines(env, db, m, Insert(key, mac, t, false));
    AskRefines(env, Apply(env, db, Insert(key, mac, t, false)), ApplyMap(env, m, Insert(key, mac, t, false)), key, now);
  }

  /** A new entry starts with one use, and an insert on an old one leaves its uses: once aged it is
      removed by the first sweep, or by as many as the old one had uses. */
  lemma InsertedGoes(env: Env, db: Db, m: Clients, key: Key, mac: Mac, t: int, evs: seq<Event>, now: int)
    requires env.equalIsZero && Denotes(db, m) && HasExpired(env, t, now)
    requires forall ev :: ev in evs ==> Sees(env, ev, key, t, true)
    ensures var uses := if key in m then m[key].uses else 1;
      Ask(env, Run(env, db, [Insert(key, mac, t, true)] + evs), key, now) == if Sweeps(evs) < uses then Stale else Missing
  {
    var ins := Insert(key, mac, t, true);
    RunRefines(env, db, m, [ins] + evs);
    RunFrom(env, m, ins, evs);
    ExpiredGoes(env, ApplyMap(env, m, ins), key, evs);
    AskRefines(env, Run(env, db, [ins] + evs), RunMap(env, m, [ins] + evs), key, now);
  }

  function Sweeps(evs: seq<Event>): nat {
    if evs == [] then 0 else Sweeps(evs[..|evs| - 1]) + (if evs[|evs| - 1].Sweep? then 1 else 0)
  }

  function LookupsOf(evs: seq<Event>, key: Key): nat {
    if evs == [] then 0 else
      var ev := evs[|evs| - 1];
      LookupsOf(evs[..|evs| - 1], key) + (if ev.Lookup? && ev.key == key then 1 else 0)
  }

  /** An event that leaves the address's stamp alone and sees it expired, or not. */
  predicate Sees(env: Env, ev: Event, key: Key, stamp: int, expired: bool) {
    && Timed(ev) && HasExpired(env, stamp, ev.now) == expired
    && !((ev.Insert? || ev.Touch?) && ev.key == key)
  }

  /** While it is unexpired no sweep removes an entry, and each lookup of it adds one use. */
  lemma {:induction false} FreshStays(env: Env, m: Clients, key: Key, evs: seq<Event>)
    requires key in m
    requires forall ev :: ev in evs ==> Sees(env, ev, key, m[key].stamp, false)
    ensures key in RunMap(env, m, evs)
    ensures RunMap(env, m, evs)[key] == m[key].(uses := m[key].uses + LookupsOf(evs, key))
  {
    if evs != [] {
      assert evs[|evs| - 1] in evs;
      FreshStays(env, m, key, evs[..|evs| - 1]);
    }
  }

  /** An expired entry with k uses that is not re-inserted is removed by exactly the k-th sweep;
      lookups cannot delay that. */
  lemma {:induction false} ExpiredGoes(env: Env, m: Clients, key: Key, evs: seq<Event>)
    requires key in m && m[key].uses >= 1
    requires forall ev :: ev in evs ==> Sees(env, ev, key, m[key].stamp, true)
    ensures key in RunMap(env, m, evs) <==> Sweeps(evs) < m[key].uses
    ensures key in RunMap(env, m, evs) ==> RunMap(env, m, evs)[key] == m[key].(uses := m[key].uses - Sweeps(evs))
  {
    if evs != [] {
      assert evs[|evs| - 1] in evs;
      ExpiredGoes(env, m, key, evs[..|evs| - 1]);
    }
  }

  /** The same on the table itself, over any run after which the entry is linked and expired. */
  lemma ExpiredGoesFromTable(env: Env, db: Db, m: Clients, key: Key, evs: seq<Event>, now: int)
    requires env.equalIsZero && Denotes(db, m) && key in m
    requires forall ev :: ev in evs ==> Sees(env, ev, key, m[key].stamp, true)
    requires HasExpired(env, m[key].stamp, now)
    ensures Ask(env, Run(env, db, evs), key, now) == if Sweeps(evs) < m[key].uses then Stale else Missing
  {
    ExpiredGoes(env, m, key, evs);
    RunRefines(env, db, m, evs);
    AskRefines(env, Run(env, db, evs), RunMap(env, m, evs), key, now);
  }

  // ---------------------------------------------------------------- with the comparison of os_dep/

  predicate OneKey(c: Chain) {
    forall j :: 0 <= j < |c| ==> c[j].key == c[0].key
  }

  ghost predicate OneKeyEach(db: Db) {
    forall i :: 0 <= i < HASH_SIZE ==> OneKey(db[i])
  }

  lemma SweptOneKey(env: Env, c: Chain, now: int)
    requires OneKey(c)
    ensures OneKey(SweepChain(env, c, now))
  {
    SweptMembers(env, c, now);
    var s := SweepChain(env, c, now);
    forall j | 0 <= j < |s| ensures s[j].key == c[0].key {
      assert s[j] in s;
      var t :| t in c && SweepRec(env, t, now) == [s[j]];
    }
  }

  /** When equal bytes compare true, a walk stops at the first entry of a different address, so
      every bucket only ever holds copies of one address. */
  lemma {:induction false} InvertedRun(env: Env, evs: seq<Event>)
    requires !env.equalIsZero
    ensures OneKeyEach(Run(env, EMPTY_DB, evs))
  {
    if evs != [] {
      var db := Run(env, EMPTY_DB, evs[..|evs| - 1]);
      InvertedRun(env, evs[..|evs| - 1]);
      match evs[|evs| - 1]
      case Sweep(now) =>
        forall i | 0 <= i < HASH_SIZE ensures OneKey(SweepChain(env, db[i], now)) {
          SweptOneKey(env, db[i], now);
        }
      case _ =>
    }
  }

  /** So a linked address is never found, and an unlinked one finds the bucket's other client. */
  lemma InvertedAsk(env: Env, evs: seq<Event>, key: Key, now: int)
    requires !env.equalIsZero
    ensures var c := Run(env, EMPTY_DB, evs)[Hash(key)];
      Ask(env, Run(env, EMPTY_DB, evs), key, now) == Missing <==> c == [] || c[0].key == key
  {
    InvertedRun(env, evs);
    var c := Run(env, EMPTY_DB, evs)[Hash(key)];
    assert OneKey(c);
  }

  /** Exactly when a lookup right after an insert gives the inserted MAC, under either comparison:
      always when equal bytes compare zero; otherwise only if another address held the bucket. */
  lemma InsertThenLookupExactly(env: Env, evs: seq<Event>, key: Key, mac: Mac, now: int)
    requires SaneClock(env)
    ensures var db := Run(env, EMPTY_DB, evs); var c := db[Hash(key)];
      Ask(env, Apply(env, db, Insert(key, mac, now, true)), key, now) == Client(mac)
      <==> env.equalIsZero || (c != [] && c[0].key != key)
  {
    var db := Run(env, EMPTY_DB, evs);
    ExpiryIsAge(env, now, now);
    if env.equalIsZero {
      assert Denotes(EMPTY_DB, map[]);
      RunRefines(env, EMPTY_DB, map[], evs);
      InsertThenLookup(env, db, RunMap(env, map[], evs), key, mac, now, [], now);
      var ins := Insert(key, mac, now, true);
      assert [ins] + [] == [ins] && [ins][..0] == [];
    } else {
      InvertedRun(env, evs);
      assert OneKey(db[Hash(key)]);
    }
  }

  /** One client, one insert, one lookup: the client is not found. */
  lemma InvertedCounterexample(key: Key, mac: Mac)
    ensures var env := Env(false, 250);
      Ask(env, Apply(env, EMPTY_DB, Insert(key, mac, 0, true)), key, 0) == Missing
  {
  }
}
