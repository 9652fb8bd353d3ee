/** The one-entry cache in front of the NAT2.5 database, `scdb_entry` with `scdb_ip` and `scdb_mac`:
    how core/rtw_xmit.c keeps it, and exactly when it agrees with the database. */
module Nat25Shortcut {
  import opened ByteSeqs
  import opened Nat25Db
  import opened Nat25Map
  import Nat25Table

  /** The database as a map, the cached pair, and whether the pair still points at an entry. */
  datatype Site = Site(m: Clients, ip: Ip, mac: Mac, linked: bool)

  datatype Traffic =
    | Announce(key: Key, mac: Mac, now: int, alloc: bool)   // INSERT of an ARP, PPPoE or other frame
    | Seek(key: Key, now: int)                              // LOOKUP
    | Source(mac: Mac, ip: Ip, now: int, alloc: bool)       // a client's IP frame on its way out
    | Age(now: int)
    | Empty

  function Cleared(s: Site): Site {
    s.(ip := ZERO_IP, mac := ZERO_MAC, linked := false)
  }

  /** The site after the shortcut's part of a client's IP frame. */
  function Noted(env: Env, s: Site, mac: Mac, ip: Ip, now: int): Site {
    if mac != s.mac then
      if Ipv4Key(ip) in s.m then Site(ApplyMap(env, s.m, Event.Touch(Ipv4Key(ip), now)), ip, mac, true) else s.(linked := false)
    else if s.linked then s.(m := ApplyMap(env, s.m, Event.Touch(Ipv4Key(s.ip), now)))
    else Cleared(s)
  }

  /** The INSERT that follows when the shortcut did not settle the frame. */
  function Inserted(env: Env, s: Site, mac: Mac, ip: Ip, now: int, alloc: bool): Site {
    if ip == ZERO_IP then s else s.(m := ApplyMap(env, s.m, Event.Insert(Ipv4Key(ip), mac, now, alloc)))
  }

  function Step(env: Env, s: Site, e: Traffic): Site {
    match e
    case Announce(key, mac, now, alloc) => s.(m := ApplyMap(env, s.m, Event.Insert(key, mac, now, alloc)))
    case Seek(key, now) => s.(m := ApplyMap(env, s.m, Event.Lookup(key, now)))
    case Source(mac, ip, now, alloc) =>
      var t := Noted(env, s, mac, ip, now);
      if t.linked then t else Inserted(env, t, mac, ip, now, alloc)
    case Age(now) =>
      var t := s.(m := ApplyMap(env, s.m, Event.Sweep(now)));
      if s.linked && Ipv4Key(s.ip) !in t.m then Cleared(t) else t
    case Empty =>
      var t := s.(m := map[]);
      if s.linked then Cleared(t) else t
  }

  function Run(env: Env, s: Site, es: seq<Traffic>): Site {
    if es == [] then s else Step(env, Run(env, s, es[..|es| - 1]), es[|es| - 1])
  }

  // ---------------------------------------------------------------- when the pair is right

  /** A pair that points somewhere points at its own address. */
  predicate Grounded(s: Site) {
    s.linked ==> Ipv4Key(s.ip) in s.m
  }

  /** The pair names the client the database has for its address, or is cleared. */
  predicate Synced(s: Site) {
    if s.linked then Ipv4Key(s.ip) in s.m && s.m[Ipv4Key(s.ip)].mac == s.mac else s.ip == ZERO_IP && s.mac == ZERO_MAC
  }

  /** What keeps it so: nobody announces the cached address with another MAC; an IP frame from
      another client comes from the client the database has for its address; and if that address
      is unknown, nothing is cached. */
  predicate Safe(s: Site, e: Traffic) {
    match e
    case Announce(key, mac, _, _) => s.linked && key == Ipv4Key(s.ip) ==> mac == s.mac
    case Source(mac, ip, _, _) =>
      mac != s.mac ==>
        if Ipv4Key(ip) in s.m then s.m[Ipv4Key(ip)].mac == mac
        else s.linked ==> s.ip == ZERO_IP && s.mac == ZERO_MAC
    case _ => true
  }

  lemma SameKey(a: Ip, b: Ip)
    ensures Ipv4Key(a) == Ipv4Key(b) <==> a == b
  {
    KeysAreInjective(a, b, ZERO_MAC, ZERO_MAC, [0, 0], [0, 0]);
  }

  /** One step keeps a right pair right exactly when it is safe. */
  lemma StepSyncedExactly(env: Env, s: Site, e: Traffic)
    requires Synced(s)
    ensures Grounded(Step(env, s, e))
    ensures Synced(Step(env, s, e)) <==> Safe(s, e)
  {
    match e
    case Source(mac, ip, now, alloc) => SameKey(ip, s.ip);
    case _ =>
  }

  lemma StepGrounded(env: Env, s: Site, e: Traffic)
    requires Grounded(s)
    ensures Grounded(Step(env, s, e))
  {
  }

  /** Over every run, safe or not, the cached pointer never points at an entry that is gone or
      belongs to another address. */
  lemma {:induction false} GroundedOverRuns(env: Env, s: Site, es: seq<Traffic>)
    requires Grounded(s)
    ensures Grounded(Run(env, s, es))
  {
    if es != [] {
      GroundedOverRuns(env, s, es[..|es| - 1]);
      StepGrounded(env, Run(env, s, es[..|es| - 1]), es[|es| - 1]);
    }
  }

  ghost predicate AllSafe(env: Env, s: Site, es: seq<Traffic>) {
    es == [] || (var front := es[..|es| - 1]; AllSafe(env, s, front) && Safe(Run(env, s, front), es[|es| - 1]))
  }

  ghost predicate AlwaysSynced(env: Env, s: Site, es: seq<Traffic>) {
    Synced(Run(env, s, es)) && (es == [] || AlwaysSynced(env, s, es[..|es| - 1]))
  }

  /** Over every run the cached pair agrees with the database throughout if and only if every
      step of it is safe. */
  lemma {:induction false} SyncedExactlyWhenSafe(env: Env, s: Site, es: seq<Traffic>)
    requires Synced(s)
    ensures AlwaysSynced(env, s, es) <==> AllSafe(env, s, es)
  {
    if es != [] {
      var front := es[..|es| - 1];
      SyncedExactlyWhenSafe(env, s, front);
      if Synced(Run(env, s, front)) {
        StepSyncedExactly(env, Run(env, s, front), es[|es| - 1]);
      }
    }
  }

  // ---------------------------------------------------------------- and when it goes wrong

  lemma RunSnoc(env: Env, s: Site, es: seq<Traffic>, e: Traffic)
    ensures Run(env, s, es + [e]) == Step(env, Run(env, s, es), e)
  {
    assert (es + [e])[..|es|] == es;
  }

  const NOBODY := Site(map[], ZERO_IP, ZERO_MAC, false)

  /** Two IP frames of a client: the first is inserted, the second caches it. */
  lemma CachedAfterTwo(env: Env, ip: Ip, mac: Mac, now: int)
    requires mac != ZERO_MAC && ip != ZERO_IP
    ensures var e := Source(mac, ip, now, true);
      Run(env, NOBODY, [e, e]) == Site(map[Ipv4Key(ip) := Val(mac, now, 1)], ip, mac, true)
  {
    var e, one := Source(mac, ip, now, true), map[Ipv4Key(ip) := Val(mac, now, 1)];
    RunSnoc(env, NOBODY, [], e);
    RunSnoc(env, NOBODY, [e], e);
    assert [] + [e] == [e] && [e] + [e] == [e, e];
    assert Step(env, NOBODY, e) == Site(one, ZERO_IP, ZERO_MAC, false);
    Second(env, one, Ipv4Key(ip), mac, now);
  }

  lemma Second(env: Env, m: Clients, key: Key, mac: Mac, now: int)
    requires m == map[key := Val(mac, now, 1)]
    ensures ApplyMap(env, m, Event.Touch(key, now)) == m
  {
  }

  /** What a client's IP frame does, case by case: the cached client's own frame restarts its entry,
      whatever address it carries; a client whose source address the database has is cached under
      it, with the entry's MAC left as it was; any other frame leaves nothing linked, and inserts
      its source address unless that is zero or there is no memory; and a pair that lost its entry
      is cleared by its own client's frame only. */
  lemma SourceMeans(env: Env, s: Site, mac: Mac, ip: Ip, now: int, alloc: bool)
    requires Grounded(s)
    ensures var t, key := Step(env, s, Source(mac, ip, now, alloc)), Ipv4Key(ip);
      if mac == s.mac && s.linked then
        t.ip == s.ip && t.mac == s.mac && t.linked && t.m == s.m[Ipv4Key(s.ip) := s.m[Ipv4Key(s.ip)].(stamp := now)]
      else if mac != s.mac && key in s.m then
        t.ip == ip && t.mac == mac && t.linked && t.m == s.m[key := s.m[key].(stamp := now)]
      else
        && !t.linked && (if mac == s.mac then t.ip == ZERO_IP && t.mac == ZERO_MAC else t.ip == s.ip && t.mac == s.mac)
        && t.m == if ip == ZERO_IP || (key !in s.m && !alloc) then s.m
                  else s.m[key := Val(mac, now, if key in s.m then s.m[key].uses else 1)]
  {
  }

  /** A client's address is cached, another client announces it: the database has the new client,
      the pair the old one. */
  lemma TakenOver(env: Env, ip: Ip, mac: Mac, other: Mac, now: int)
    requires mac != ZERO_MAC && ip != ZERO_IP && other != mac
    ensures var e, a := Source(mac, ip, now, true), Announce(Ipv4Key(ip), other, now, true);
      var s := Run(env, NOBODY, [e, e, a]);
      s.ip == ip && s.mac == mac && Ipv4Key(ip) in s.m && s.m[Ipv4Key(ip)].mac == other && !Synced(s)
  {
    var e, a := Source(mac, ip, now, true), Announce(Ipv4Key(ip), other, now, true);
    CachedAfterTwo(env, ip, mac, now);
    RunSnoc(env, NOBODY, [e, e], a);
    assert [e, e] + [a] == [e, e, a];
  }

  /** The cached client's address is used by another client's IP frame: that one is cached without
      an INSERT, and the database keeps the first, refreshed. */
  lemma TakenOverSilently(env: Env, ip: Ip, mac: Mac, other: Mac, now: int)
    requires mac != ZERO_MAC && ip != ZERO_IP && other != mac
    ensures var e, a := Source(mac, ip, now, true), Source(other, ip, now, true);
      var s := Run(env, NOBODY, [e, e, a]);
      s.ip == ip && s.mac == other && Ipv4Key(ip) in s.m && s.m[Ipv4Key(ip)].mac == mac && !Synced(s)
  {
    var e, a := Source(mac, ip, now, true), Source(other, ip, now, true);
    CachedAfterTwo(env, ip, mac, now);
    RunSnoc(env, NOBODY, [e, e], a);
    assert [e, e] + [a] == [e, e, a];
  }

  /** Without its entry the pair is beyond sweeps and cleanups: only a client's IP frame changes it. */
  lemma {:induction false} OrphanStays(env: Env, s: Site, es: seq<Traffic>)
    requires !s.linked && forall i | 0 <= i < |es| :: !es[i].Source?
    ensures var t := Run(env, s, es); t.ip == s.ip && t.mac == s.mac && !t.linked
  {
    if es != [] {
      OrphanStays(env, s, es[..|es| - 1]);
    }
  }

  /** A frame of a second, unknown client orphans the pair of the first; the database may then be
      emptied, and the pair still answers. */
  lemma OrphanReached(env: Env, ip: Ip, mac: Mac, ip': Ip, mac': Mac, now: int, es: seq<Traffic>)
    requires mac != ZERO_MAC && ip != ZERO_IP && mac' != mac && ip' != ip
    requires forall i | 0 <= i < |es| :: !es[i].Source?
    ensures var e, e' := Source(mac, ip, now, true), Source(mac', ip', now, true);
      var s := Run(env, NOBODY, [e, e, e', Empty]);
      s.m == map[] && var t := Run(env, s, es); t.ip == ip && t.mac == mac && !t.linked
  {
    var e, e' := Source(mac, ip, now, true), Source(mac', ip', now, true);
    OrphanedRun(env, ip, mac, e, e', now);
    OrphanStays(env, Run(env, NOBODY, [e, e, e', Empty]), es);
  }

  lemma OrphanedRun(env: Env, ip: Ip, mac: Mac, e: Traffic, e': Traffic, now: int)
    requires mac != ZERO_MAC && ip != ZERO_IP && e == Source(mac, ip, now, true)
    requires e'.Source? && e'.mac != mac && e'.ip != ip
    ensures Run(env, NOBODY, [e, e, e', Empty]) == Site(map[], ip, mac, false)
  {
    CachedAfterTwo(env, ip, mac, now);
    ThenTwo(env, e, e', Empty);
    Orphaned(env, Run(env, NOBODY, [e, e]), e');
  }

  lemma ThenTwo(env: Env, e: Traffic, c: Traffic, d: Traffic)
    ensures Run(env, NOBODY, [e, e, c, d]) == Step(env, Step(env, Run(env, NOBODY, [e, e]), c), d)
  {
    RunSnoc(env, NOBODY, [e, e], c);
    assert [e, e] + [c] == [e, e, c];
    RunSnoc(env, NOBODY, [e, e, c], d);
    assert [e, e, c] + [d] == [e, e, c, d];
  }

  lemma Orphaned(env: Env, s: Site, e: Traffic)
    requires e.Source? && e.mac != s.mac && e.ip != s.ip && s.m.Keys == {Ipv4Key(s.ip)}
    ensures Step(env, Step(env, s, e), Empty) == Site(map[], s.ip, s.mac, false)
  {
    SameKey(e.ip, s.ip);
  }

  // ---------------------------------------------------------------- on the table itself

  /** The table and its shortcut are what the site says. */
  ghost predicate Shows(t: Nat25Table.Table, s: Site)
    reads t.nethash, t.Live(), t.sc
  {
    && t.Valid() && t.env.equalIsZero && Denotes(t.Contents(), s.m)
    && t.sc.ip == s.ip && t.sc.mac == s.mac && (t.sc.entry != null <==> s.linked)
  }

  method Note(t: Nat25Table.Table, mac: Mac, ip: Ip, now: int, ghost s: Site) returns (done: bool)
    requires Shows(t, s)
    modifies t.nethash, t.Live(), t.sc
    ensures Shows(t, Noted(t.env, s, mac, ip, now)) && t.Live() == old(t.Live())
    ensures done <==> Noted(t.env, s, mac, ip, now).linked
  {
    ghost var db := t.Contents();
    StepRefines(t.env, db, s.m, Event.Touch(Ipv4Key(ip), now));
    AskRefines(t.env, db, s.m, Ipv4Key(ip), now);
    ghost var j;
    done, j := t.Remember(mac, ip, now);
    if mac == s.mac && s.linked {
      TouchAt(t.env, db, s.m, Ipv4Key(s.ip), now, j);
    }
    if mac != s.mac && !done {
      TouchMissing(t.env, s.m, Ipv4Key(ip), now);
    }
  }

  lemma TouchMissing(env: Env, m: Clients, key: Key, now: int)
    requires key !in m
    ensures ApplyMap(env, m, Event.Touch(key, now)) == m
  {
  }

  /** Refreshing an address's own record is the map's refresh. */
  lemma TouchAt(env: Env, db: Db, m: Clients, key: Key, now: int, j: nat)
    requires env.equalIsZero && Denotes(db, m) && j < |db[Hash(key)]| && db[Hash(key)][j].key == key
    ensures var c := db[Hash(key)];
      Denotes(db[Hash(key) := c[j := c[j].(stamp := now)]], ApplyMap(env, m, Event.Touch(key, now)))
  {
    var c := db[Hash(key)];
    assert ChainDenotes(c, m, Hash(key));
    assert FindIndex(env, c, key) == j by {
      assert c[j] in c;
    }
    StepRefines(env, db, m, Event.Touch(key, now));
  }

  /** A client's IP frame on its way out: the shortcut, and INSERT if it did not settle it. */
  method SendOut(t: Nat25Table.Table, mac: Mac, ip: Ip, now: int, alloc: bool, ghost s: Site)
    requires Shows(t, s)
    modifies t.nethash, t.Live(), t.sc
    ensures Shows(t, Step(t.env, s, Source(mac, ip, now, alloc)))
  {
    var done := Note(t, mac, ip, now, s);
    if !done && ip != ZERO_IP {
      InsertInto(t, Ipv4Key(ip), mac, now, alloc, Noted(t.env, s, mac, ip, now));
    }
  }

  method InsertInto(t: Nat25Table.Table, key: Key, mac: Mac, now: int, alloc: bool, ghost s: Site)
    requires Shows(t, s)
    modifies t.nethash, t.Live()
    ensures Shows(t, Step(t.env, s, Announce(key, mac, now, alloc)))
  {
    StepRefines(t.env, t.Contents(), s.m, Event.Insert(key, mac, now, alloc));
    t.Insert(key, mac, now, alloc);
  }

  method LookUp(t: Nat25Table.Table, key: Key, now: int, ghost s: Site) returns (answer: Answer)
    requires Shows(t, s)
    modifies t.nethash, t.Live()
    ensures Shows(t, Step(t.env, s, Seek(key, now))) && answer == AskMap(t.env, s.m, key, now)
  {
    StepRefines(t.env, t.Contents(), s.m, Event.Lookup(key, now));
    AskRefines(t.env, t.Contents(), s.m, key, now);
    answer := t.Lookup(key, now);
  }

  /** A sweep clears the pair exactly when it removes the pair's address. */
  method AgeOut(t: Nat25Table.Table, now: int, ghost s: Site)
    requires Shows(t, s)
    modifies t.nethash, t.Live(), t.sc
    ensures Shows(t, Step(t.env, s, Age(now)))
  {
    ghost var db := t.Contents();
    StepRefines(t.env, db, s.m, Event.Sweep(now));
    t.Expire(now);
    ghost var m := ApplyMap(t.env, s.m, Event.Sweep(now));
    if t.sc.entry != null {
      PointsAtListed(t, m);
    } else if s.linked {
      var i :| 0 <= i < HASH_SIZE && Lost(t.env, db[i], Ipv4Key(s.ip), now);
      LostIsGone(t.env, db, s.m, i, Ipv4Key(s.ip), now);
    }
  }

  /** The shortcut's entry is in the map. */
  lemma PointsAtListed(t: Nat25Table.Table, m: Clients)
    requires t.Valid() && t.env.equalIsZero && Denotes(t.Contents(), m) && t.sc.entry != null
    ensures Ipv4Key(t.sc.ip) in m
  {
    var key := Ipv4Key(t.sc.ip);
    var b := t.nethash[Hash(key)];
    assert t.Contents()[Hash(key)] == b.recs && ChainDenotes(b.recs, m, Hash(key));
    var j :| 0 <= j < |b.chain| && b.chain[j] == t.sc.entry;
    Nat25Table.SegmentAt(b.chain, b.recs, j, Nat25Table.HeadOf(b), b.live);
    assert b.recs[j] in b.recs;
  }

  lemma LostIsGone(env: Env, db: Db, m: Clients, i: nat, key: Key, now: int)
    requires Denotes(db, m) && i < HASH_SIZE && Lost(env, db[i], key, now)
    ensures key !in ApplyMap(env, m, Event.Sweep(now))
  {
    var r :| r in db[i] && r.key == key && SweepRec(env, r, now) == [];
    assert ChainDenotes(db[i], m, i) && Says(m, i, r);
  }

  method EmptyOut(t: Nat25Table.Table, ghost s: Site)
    requires Shows(t, s)
    modifies t.nethash, t.Live(), t.sc
    ensures Shows(t, Step(t.env, s, Empty))
  {
    StepRefines(t.env, t.Contents(), s.m, Event.Cleanup);
    t.Cleanup();
  }
}
