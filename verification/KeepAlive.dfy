/**
 * Expiry of associated stations with the active keep-alive check built in
 * (core/rtw_ap.c, expire_timeout_chk).
 */
module KeepAlive {
  import opened Lists

  const NUM_STA: nat := 32
  const MAX_TRIES: nat := 3

  datatype Config = Config(
    budget: nat,     // expire_to of the station table
    wifiSpec: bool,  // registry wifi_spec == 1
    active: bool)    // active_keep_alive_check

  datatype Sta = Sta(
    expireTo: nat,
    tries: nat,      // keep_alive_trycnt
    rx: nat,         // data and control packets received
    lastRx: nat,     // the same at the last check
    asleep: bool,    // WIFI_SLEEP_STATE
    aliveChk: bool,  // WIFI_STA_ALIVE_CHK_STATE
    asoc: bool)      // WIFI_ASOC_STATE

  // ------------------------------------------------------------------
  // One station, one check
  // ------------------------------------------------------------------

  // The ageing loop's share: budget restored or decremented.
  function Aged(cfg: Config, s: Sta): Sta {
    if s.rx != s.lastRx || s.expireTo == 0
    then s.(expireTo := cfg.budget, tries := 0, lastRx := s.rx)
    else s.(expireTo := s.expireTo - 1, lastRx := s.rx)
  }

  // The ageing loop's verdict on an aged station: its new state, and whether
  // it is put on the list of stations to be probed.
  function Sorted(cfg: Config, s: Sta): (Sta, bool) {
    if s.expireTo > 0 then (s, false)
    else if cfg.wifiSpec then (s.(expireTo := cfg.budget), false)
    else if s.asleep && !s.aliveChk then (s.(expireTo := cfg.budget, aliveChk := true), cfg.active)
    else (s, true)
  }

  datatype Outcome = Kept(sta: Sta) | Gone

  // The check loop's share; `ok` is what the probe reports.
  function Probed(cfg: Config, s: Sta, ok: bool): Outcome {
    if !s.asoc then Kept(s)
    else if !cfg.active then Gone
    else if ok then Kept(s.(expireTo := cfg.budget, tries := 0))
    else if s.tries + 1 <= MAX_TRIES then Kept(s.(expireTo := 1, tries := s.tries + 1))
    else Gone
  }

  function Check(cfg: Config, s: Sta, ok: bool): Outcome {
    var (t, listed) := Sorted(cfg, Aged(cfg, s));
    if listed then Probed(cfg, t, ok) else Kept(t)
  }

  // ------------------------------------------------------------------
  // One station over many checks
  // ------------------------------------------------------------------

  // What happens to a station up to and during one check.
  // `cleared`: what was heard was a PS-Poll or the end of a sleep, which take
  // back the alive-check mark.
  datatype Tick = Tick(heard: nat, asleep: bool, cleared: bool, ok: bool)

  predicate Silent(k: Tick) {
    k.heard == 0 && !k.ok
  }

  function Step(cfg: Config, s: Sta, k: Tick): Outcome {
    Check(cfg, s.(rx := s.rx + k.heard, asleep := k.asleep, aliveChk := s.aliveChk && !(k.heard > 0 && k.cleared)), k.ok)
  }

  function Run(cfg: Config, s: Sta, ks: seq<Tick>): Outcome {
    if ks == [] then Kept(s)
    else
      var o := Run(cfg, s, ks[..|ks| - 1]);
      if o.Gone? then Gone else Step(cfg, o.sta, ks[|ks| - 1])
  }

  // Nothing has been received since the last check.
  predicate Quiet(s: Sta) {
    s.rx == s.lastRx && s.asoc
  }

  // Between checks a positive try count goes with a budget of one.
  predicate Steady(s: Sta) {
    Quiet(s) && s.tries <= MAX_TRIES && (s.tries > 0 ==> s.expireTo == 1)
  }

  predicate Probing(cfg: Config) {
    cfg.active && !cfg.wifiSpec && cfg.budget > 0
  }

  // A station is dropped, or its tries go up, only at a silent check.
  lemma StepSteady(cfg: Config, s: Sta, k: Tick)
    requires Probing(cfg) && Steady(s)
    ensures var o := Step(cfg, s, k);
            if o.Gone? then Silent(k) && s.tries == MAX_TRIES
            else Steady(o.sta) && (o.sta.tries == 0 || (Silent(k) && o.sta.tries == s.tries + 1))
  {
  }

  // The try count never exceeds three between checks, over every run.
  lemma {:induction false} TriesBounded(cfg: Config, s: Sta, ks: seq<Tick>)
    requires Probing(cfg) && Steady(s)
    ensures Run(cfg, s, ks).Kept? ==> Steady(Run(cfg, s, ks).sta)
  {
    if ks != [] {
      var front := ks[..|ks| - 1];
      TriesBounded(cfg, s, front);
      if Run(cfg, s, front).Kept? {
        StepSteady(cfg, Run(cfg, s, front).sta, ks[|ks| - 1]);
      }
    }
  }

  /**
   * Bounded expiry: a silent station with budget e > 0 and no tries, all of
   * whose probes fail, is there after n checks exactly when n < e + 3, however
   * it sleeps and wakes meanwhile.
   */
  lemma {:induction false} ExpiresExactly(cfg: Config, s: Sta, ks: seq<Tick>)
    requires cfg.active && !cfg.wifiSpec && Quiet(s) && s.expireTo > 0 && s.tries == 0
    requires forall i | 0 <= i < |ks| :: Silent(ks[i])
    ensures Run(cfg, s, ks).Kept? <==> |ks| < s.expireTo + MAX_TRIES
    ensures var o := Run(cfg, s, ks);
            o.Kept? ==> && Quiet(o.sta)
                        && o.sta.expireTo == (if |ks| < s.expireTo then s.expireTo - |ks| else 1)
                        && o.sta.tries == (if |ks| < s.expireTo then 0 else |ks| - s.expireTo + 1)
  {
    if ks != [] {
      ExpiresExactly(cfg, s, ks[..|ks| - 1]);
    }
  }

  // Traffic or a successful probe restores the full budget.
  lemma Restored(cfg: Config, s: Sta, k: Tick)
    requires Probing(cfg) && Quiet(s) && (k.heard > 0 || (k.ok && s.expireTo == 1))
    ensures var o := Step(cfg, s, k); o.Kept? && o.sta.expireTo == cfg.budget && o.sta.tries == 0 && Quiet(o.sta)
  {
  }

  lemma RunSplit(cfg: Config, s: Sta, xs: seq<Tick>, ys: seq<Tick>)
    ensures Run(cfg, s, xs + ys)
         == if Run(cfg, s, xs).Gone? then Gone else Run(cfg, Run(cfg, s, xs).sta, ys)
    decreases |ys|
  {
    if ys == [] {
      assert xs + ys == xs;
    } else {
      var front := ys[..|ys| - 1];
      assert (xs + ys)[..|xs + ys| - 1] == xs + front;
      RunSplit(cfg, s, xs, front);
    }
  }

  /**
   * So after traffic, whatever went before, the station lasts exactly
   * budget + 3 silent checks.
   */
  lemma RestoredThenExpires(cfg: Config, s: Sta, before: seq<Tick>, k: Tick, after: seq<Tick>)
    requires Probing(cfg) && Steady(s)
    requires Run(cfg, s, before).Kept? && k.heard > 0
    requires forall i | 0 <= i < |after| :: Silent(after[i])
    ensures Run(cfg, s, before + [k] + after).Kept? <==> |after| < cfg.budget + MAX_TRIES
  {
    TriesBounded(cfg, s, before);
    var t := Run(cfg, s, before).sta;
    Restored(cfg, t, k);
    RunSplit(cfg, s, before, [k]);
    assert [k][..0] == [];
    assert Run(cfg, t, [k]) == Step(cfg, t, k);
    RunSplit(cfg, s, before + [k], after);
    ExpiresExactly(cfg, Step(cfg, t, k).sta, after);
  }

  /**
   * No station is dropped early: over every run, a try count of j means that
   * the last j checks heard nothing and had no answer, and a station that is
   * deleted was silent for the last four.
   */
  lemma {:induction false} DroppedOnlyAfterFour(cfg: Config, s: Sta, ks: seq<Tick>)
    requires Probing(cfg) && Steady(s) && s.tries == 0
    ensures var o := Run(cfg, s, ks);
            o.Kept? ==> o.sta.tries <= |ks| && forall i | |ks| - o.sta.tries <= i < |ks| :: Silent(ks[i])
    ensures Run(cfg, s, ks).Gone? && (ks == [] || Run(cfg, s, ks[..|ks| - 1]).Kept?) ==>
              |ks| > MAX_TRIES && forall i | |ks| - MAX_TRIES - 1 <= i < |ks| :: Silent(ks[i])
  {
    if ks != [] {
      var n := |ks| - 1;
      var front := ks[..n];
      DroppedOnlyAfterFour(cfg, s, front);
      TriesBounded(cfg, s, front);
      if Run(cfg, s, front).Kept? {
        StepSteady(cfg, Run(cfg, s, front).sta, ks[n]);
        assert forall i | 0 <= i < n :: front[i] == ks[i];
      }
    }
  }

  // Under the certification setting nobody is ever dropped; a spent budget is
  // filled again.
  lemma {:induction false} WifiSpecKeeps(cfg: Config, s: Sta, ks: seq<Tick>)
    requires cfg.wifiSpec
    ensures var o := Run(cfg, s, ks); o.Kept? && (cfg.budget > 0 && s.expireTo > 0 ==> o.sta.expireTo > 0)
  {
    if ks != [] {
      WifiSpecKeeps(cfg, s, ks[..|ks| - 1]);
    }
  }

  // Nor is a record that is no longer associated; the leave frees it.
  lemma {:induction false} OthersKept(cfg: Config, s: Sta, ks: seq<Tick>)
    requires !s.asoc
    ensures var o := Run(cfg, s, ks); o.Kept? && !o.sta.asoc
  {
    if ks != [] {
      OthersKept(cfg, s, ks[..|ks| - 1]);
    }
  }

  /**
   * Without probing, a silent station is dropped at exactly the e-th check, if
   * it is awake then or marked already; otherwise it is given another budget,
   * and dropped at the end of that, awake or not.
   */
  lemma {:induction false} PassiveExpiry(cfg: Config, s: Sta, ks: seq<Tick>)
    requires !cfg.active && !cfg.wifiSpec && cfg.budget > 0 && Quiet(s) && s.expireTo > 0
    requires forall i | 0 <= i < |ks| :: Silent(ks[i])
    ensures var again := !s.aliveChk && |ks| >= s.expireTo && ks[s.expireTo - 1].asleep;
            var e := s.expireTo + if again then cfg.budget else 0;
            var o := Run(cfg, s, ks);
            && (o.Kept? <==> |ks| < e)
            && (o.Kept? ==> Quiet(o.sta) && o.sta.expireTo == e - |ks| && o.sta.aliveChk == (s.aliveChk || again))
  {
    if ks != [] {
      PassiveExpiry(cfg, s, ks[..|ks| - 1]);
    }
  }

  // A station in the authentication list: counted down, and flushed at zero.
  function AuthAged(s: Sta): Sta {
    if s.expireTo > 0 then s.(expireTo := s.expireTo - 1) else s
  }

  predicate AuthDue(s: Sta) {
    s.expireTo == 1
  }

  // ------------------------------------------------------------------
  // The whole table, one check
  // ------------------------------------------------------------------

  // Distinct offsets below NUM_STA fit the fixed-size lists.
  lemma SelectRoom(xs: seq<nat>, i: nat, keep: set<nat>)
    requires Distinct(xs) && i < |xs| && forall id | id in xs :: id < NUM_STA
    ensures |Select(xs[..i], keep)| < NUM_STA
  {
    SelectMembers(xs[..i], keep);
    assert forall k | 0 <= k < |xs| :: xs[k] in xs;
    DistinctBelow(xs, NUM_STA);
  }

  // What one check makes of the station at offset id.
  ghost function Verdict(cfg: Config, stas: map<nat, Sta>, ok: nat -> bool, id: nat): Outcome
    requires id in stas
  {
    Check(cfg, stas[id], ok(id))
  }

  ghost function Dropped(cfg: Config, stas: map<nat, Sta>, ok: nat -> bool, asoc: seq<nat>): set<nat>
    requires forall id | id in asoc :: id in stas
  {
    set id | id in asoc && Verdict(cfg, stas, ok, id).Gone?
  }

  // What the check loop has made of the stations `chk`: the ones to go are
  // noted in `del` and gathered in `gone`, the others have their outcome.
  ghost predicate Judged(cfg: Config, ok: nat -> bool, s0: map<nat, Sta>, chk: seq<nat>, del: seq<nat>,
                         stas: map<nat, Sta>, gone: set<nat>)
  {
    && |del| == |chk| && stas.Keys == s0.Keys
    && (forall id | id in chk :: id in s0)
    && (forall id | id in gone :: id in chk)
    && (forall i | 0 <= i < |chk| ::
          var o := Probed(cfg, s0[chk[i]], ok(chk[i]));
          if o.Gone? then chk[i] in gone && del[i] == chk[i] && stas[chk[i]] == s0[chk[i]].(tries := 0)
          else chk[i] !in gone && del[i] == NUM_STA && stas[chk[i]] == o.sta)
    && (forall id | id in stas && id !in chk :: stas[id] == s0[id])
  }

  lemma JudgeNone(cfg: Config, ok: nat -> bool, s0: map<nat, Sta>)
    ensures Judged(cfg, ok, s0, [], [], s0, {})
  {
  }

  lemma JudgeOne(cfg: Config, ok: nat -> bool, s0: map<nat, Sta>, chk: seq<nat>, del: seq<nat>,
                 stas: map<nat, Sta>, gone: set<nat>, id: nat)
    requires Judged(cfg, ok, s0, chk, del, stas, gone) && id in s0 && id !in chk
    ensures var o := Probed(cfg, s0[id], ok(id));
            stas[id] == s0[id] &&
            if o.Gone?
            then Judged(cfg, ok, s0, chk + [id], del + [id], stas[id := s0[id].(tries := 0)], gone + {id})
            else Judged(cfg, ok, s0, chk + [id], del + [NUM_STA], stas[id := o.sta], gone)
  {
  }

  lemma NextOf(ids: seq<nat>, i: nat)
    requires Distinct(ids) && i < |ids|
    ensures ids[i] !in ids[..i] && ids[..i + 1] == ids[..i] + [ids[i]]
  {
  }

  lemma PutNext(dels: seq<nat>, blank: seq<nat>)
    requires |dels| < |blank|
    ensures (dels + blank[|dels|..])[|dels|] == blank[|dels|]
    ensures forall v :: (dels + blank[|dels|..])[|dels| := v] == dels + [v] + blank[|dels| + 1..]
  {
  }

  ghost function Listed(cfg: Config, s0: map<nat, Sta>, list: seq<nat>): set<nat>
    requires forall id | id in list :: id in s0
  {
    set id | id in list && Sorted(cfg, Aged(cfg, s0[id])).1
  }

  // What the ageing loop makes of the table.
  ghost predicate AgedAll(cfg: Config, s0: map<nat, Sta>, list: seq<nat>, s1: map<nat, Sta>) {
    && s1.Keys == s0.Keys
    && forall id | id in s1 :: s1[id] == if id in list then Sorted(cfg, Aged(cfg, s0[id])).0 else s0[id]
  }

  ghost function Noted(del: seq<nat>): seq<nat> {
    if del == [] then []
    else
      var front := Noted(del[..|del| - 1]);
      if del[|del| - 1] < NUM_STA then front + [del[|del| - 1]] else front
  }

  lemma {:induction false} NotedIsSelect(chk: seq<nat>, del: seq<nat>, gone: set<nat>)
    requires |chk| == |del| && forall i | 0 <= i < |chk| :: chk[i] < NUM_STA
    requires forall i | 0 <= i < |chk| :: del[i] == if chk[i] in gone then chk[i] else NUM_STA
    ensures Noted(del) == Select(chk, gone)
  {
    if chk != [] {
      NotedIsSelect(chk[..|chk| - 1], del[..|chk| - 1], gone);
    }
  }

  // Ageing, listing and probing together are one check of each station.
  lemma LoopsAreCheck(cfg: Config, ok: nat -> bool, s0: map<nat, Sta>, list: seq<nat>, s1: map<nat, Sta>,
                      chk: seq<nat>, del: seq<nat>, s2: map<nat, Sta>, gone: set<nat>)
    requires forall id | id in list :: id in s0
    requires AgedAll(cfg, s0, list, s1) && chk == Select(list, Listed(cfg, s0, list))
    requires Judged(cfg, ok, s1, chk, del, s2, gone)
    ensures gone == Dropped(cfg, s0, ok, list)
    ensures forall id | id in list && id !in gone :: Verdict(cfg, s0, ok, id) == Kept(s2[id])
    ensures forall id | id in s0 && id !in list :: s2[id] == s0[id]
  {
    SelectMembers(list, Listed(cfg, s0, list));
    forall id | id in list
      ensures id in gone <==> Verdict(cfg, s0, ok, id).Gone?
      ensures id !in gone ==> Verdict(cfg, s0, ok, id) == Kept(s2[id])
    {
      if id in chk {
        var i :| 0 <= i < |chk| && chk[i] == id;
      }
    }
  }

  lemma FreedInOrder(cfg: Config, ok: nat -> bool, s0: map<nat, Sta>, list: seq<nat>, s1: map<nat, Sta>,
                     chk: seq<nat>, del: seq<nat>, s2: map<nat, Sta>, gone: set<nat>)
    requires forall id | id in list :: id in s0 && id < NUM_STA
    requires chk == Select(list, Listed(cfg, s0, list))
    requires Judged(cfg, ok, s1, chk, del, s2, gone)
    ensures Noted(del) == Select(list, gone)
    ensures forall i | 0 <= i < |del| :: del[i] < NUM_STA ==> del[i] in s2
  {
    var listed := Listed(cfg, s0, list);
    SelectMembers(list, listed);
    forall i | 0 <= i < |chk| ensures chk[i] < NUM_STA && del[i] == if chk[i] in gone then chk[i] else NUM_STA {
      assert chk[i] in chk;
    }
    NotedIsSelect(chk, del, gone);
    SelectTwice(list, listed, gone);
    assert listed * gone == gone;
  }

  lemma ListedApart(cfg: Config, s0: map<nat, Sta>, list: seq<nat>)
    requires Distinct(list) && forall id | id in list :: id in s0
    ensures var chk := Select(list, Listed(cfg, s0, list)); Distinct(chk) && forall id | id in chk :: id in s0
  {
    SelectMembers(list, Listed(cfg, s0, list));
    SelectDistinct(list, Listed(cfg, s0, list));
  }

  // What ageing and probing make of the table, told from where it started.
  ghost predicate AllJudged(cfg: Config, ok: nat -> bool, s0: map<nat, Sta>, list: seq<nat>, del: seq<nat>, s2: map<nat, Sta>)
    requires forall id | id in list :: id in s0
  {
    var gone := Dropped(cfg, s0, ok, list);
    && Noted(del) == Select(list, gone) && s2.Keys == s0.Keys
    && (forall i | 0 <= i < |del| :: del[i] < NUM_STA ==> del[i] in s2)
    && Distinct(Off(list, gone))
    && (forall id | id in Off(list, gone) ::
          id in list && id !in Select(list, gone) && Verdict(cfg, s0, ok, id) == Kept(s2[id]))
    && (forall id | id in Select(list, gone) :: id in list)
    && (forall id | id in s0 && id !in list :: s2[id] == s0[id])
  }

  lemma AllChecked(cfg: Config, ok: nat -> bool, s0: map<nat, Sta>, list: seq<nat>, s1: map<nat, Sta>,
                   chk: seq<nat>, del: seq<nat>, s2: map<nat, Sta>, gone: set<nat>)
    requires Distinct(list) && forall id | id in list :: id in s0 && id < NUM_STA
    requires AgedAll(cfg, s0, list, s1) && chk == Select(list, Listed(cfg, s0, list))
    requires Judged(cfg, ok, s1, chk, del, s2, gone)
    ensures gone == Dropped(cfg, s0, ok, list) && AllJudged(cfg, ok, s0, list, del, s2)
  {
    LoopsAreCheck(cfg, ok, s0, list, s1, chk, del, s2, gone);
    FreedInOrder(cfg, ok, s0, list, s1, chk, del, s2, gone);
    OffMembers(list, gone);
    SelectMembers(list, gone);
  }

  ghost function Due(s0: map<nat, Sta>, list: seq<nat>): set<nat>
    requires forall id | id in list :: id in s0
  {
    set id | id in list && AuthDue(s0[id])
  }

  ghost predicate AuthAll(s0: map<nat, Sta>, list: seq<nat>, s1: map<nat, Sta>) {
    && s1.Keys == s0.Keys
    && forall id | id in s1 :: s1[id] == if id in list then AuthAged(s0[id]) else s0[id]
  }

  // What the two authentication loops make of the table: exactly the due
  // stations are gone, the others on the list have one check less.
  ghost predicate AuthExpired(s0: map<nat, Sta>, list: seq<nat>, stas: map<nat, Sta>, auth: seq<nat>)
    requires forall id | id in list :: id in s0
  {
    && auth == Off(list, Due(s0, list)) && stas.Keys == s0.Keys - Due(s0, list)
    && forall id | id in stas :: stas[id] == if id in list then AuthAged(s0[id]) else s0[id]
  }

  lemma AuthDone(s0: map<nat, Sta>, list: seq<nat>, s1: map<nat, Sta>, gone: set<nat>)
    requires (forall id | id in list :: id in s0) && Distinct(list) && AuthAll(s0, list, s1) && gone == Due(s0, list)
    ensures AuthExpired(s0, list, s1 - gone, Off(list, gone)) && Distinct(Off(list, gone))
    ensures forall id | id in Off(list, gone) :: id in list && id in s1 - gone
  {
    OffMembers(list, gone);
  }

  // The authentication list's share of the table, before and after each check.
  datatype AuthState = AuthState(stas: map<nat, Sta>, auth: seq<nat>)

  ghost predicate AuthStep(s: AuthState, t: AuthState) {
    && (forall id | id in s.auth :: id in s.stas)
    && AuthExpired(s.stas, s.auth, t.stas, t.auth)
  }

  ghost predicate AuthRun(states: seq<AuthState>) {
    forall i :: 0 <= i < |states| - 1 ==> AuthStep(states[i], states[i + 1])
  }

  lemma AuthStepFor(s: AuthState, t: AuthState, id: nat)
    requires AuthStep(s, t) && id in s.stas
    ensures if id !in s.auth then id !in t.auth && id in t.stas && t.stas[id] == s.stas[id]
            else if s.stas[id].expireTo == 1 then id !in t.auth && id !in t.stas
            else id in t.auth && id in t.stas
                 && t.stas[id].expireTo == if s.stas[id].expireTo == 0 then 0 else s.stas[id].expireTo - 1
  {
    OffMembers(s.auth, Due(s.stas, s.auth));
  }

  /**
   * A station that authenticated and has not associated is on the list after n
   * checks exactly when n is below its count, and is freed with the check that
   * takes it off; one with a count of zero is never freed, and nobody else is
   * touched.
   */
  lemma {:induction false} AuthLastsExactly(states: seq<AuthState>, n: nat, id: nat)
    requires AuthRun(states) && n < |states| && id in states[0].stas
    ensures var s, t := states[0], states[n];
            if id !in s.auth then id in t.stas && t.stas[id] == s.stas[id] && id !in t.auth
            else
              var e := s.stas[id].expireTo;
              && (id in t.auth <==> e == 0 || n < e) && (id in t.stas <==> id in t.auth)
              && (id in t.stas ==> t.stas[id].expireTo == if e == 0 then 0 else e - n)
  {
    if n > 0 {
      AuthLastsExactly(states, n - 1, id);
      assert AuthStep(states[n - 1], states[n - 1 + 1]);
      if id in states[n - 1].stas {
        AuthStepFor(states[n - 1], states[n], id);
      } else {
        OffMembers(states[n - 1].auth, Due(states[n - 1].stas, states[n - 1].auth));
      }
    }
  }

  class Table {
    var stas: map<nat, Sta>
    var auth: seq<nat>
    var asoc: seq<nat>

    ghost predicate Valid()
      reads this
    {
      && Distinct(asoc) && Distinct(auth)
      && (forall id | id in asoc :: id in stas && id < NUM_STA && id !in auth)
      && (forall id | id in auth :: id in stas && id < NUM_STA)
    }

    method AgeOneAuth(id: nat) returns (last: bool)
      requires id in stas
      modifies this`stas
      ensures stas == old(stas)[id := AuthAged(old(stas)[id])] && last == AuthDue(old(stas)[id])
    {
      last := false;
      if stas[id].expireTo > 0 {
        stas := stas[id := stas[id].(expireTo := stas[id].expireTo - 1)];
        last := stas[id].expireTo == 0;
      } else {
        assert stas == stas[id := stas[id]];
      }
    }

    // The authentication list is counted down; the due ones go on the list.
    method AgeAuth(flush: array<nat>) returns (n: nat)
      requires Valid() && flush.Length == NUM_STA
      modifies this`stas, flush
      ensures n <= NUM_STA && flush[..n] == Select(auth, Due(old(stas), auth)) && AuthAll(old(stas), auth, stas)
    {
      n := 0;
      var i := 0;
      ghost var s0, due := stas, Due(stas, auth);
      while i < |auth|
        invariant 0 <= i <= |auth| && n <= NUM_STA
        invariant flush[..n] == Select(auth[..i], due)
        invariant AuthAll(s0, auth[..i], stas)
      {
        var id := auth[i];
        assert id !in auth[..i];
        assert auth[..i + 1] == auth[..i] + [id] && auth[..i + 1][..i] == auth[..i];
        var last := AgeOneAuth(id);
        if last {
          SelectRoom(auth, i, due);
          flush[n] := id;
          n := n + 1;
        }
        i := i + 1;
      }
      assert auth[..i] == auth;
    }

    // The flush loop: rtw_free_stainfo for each.
    method Flush(flush: array<nat>, n: nat, ghost gone: set<nat>)
      requires n <= flush.Length && gone == Elems(flush[..n])
      modifies this`stas, this`auth
      ensures stas == old(stas) - gone && auth == Off(old(auth), gone)
    {
      var i := 0;
      ghost var s0, list, done := stas, auth, {};
      OffNone(auth);
      while i < n
        invariant 0 <= i <= n && done == Elems(flush[..i])
        invariant stas == s0 - done && auth == Off(list, done)
      {
        assert flush[..i + 1] == flush[..i] + [flush[i]];
        stas := stas - {flush[i]};
        auth := Without(auth, flush[i]);
        OffMore(list, done, flush[i]);
        done := done + {flush[i]};
        i := i + 1;
      }
    }

    // The authentication list's share of a check: exactly the stations with one
    // check left are flushed, the others lose one.
    method ExpireAuth()
      requires Valid()
      modifies this`stas, this`auth
      ensures Valid() && AuthExpired(old(stas), old(auth), stas, auth)
    {
      var flush := new nat[NUM_STA];
      ghost var s0, list, gone := stas, auth, Due(stas, auth);
      var n := AgeAuth(flush);
      ghost var s1 := stas;
      SelectMembers(list, gone);
      assert Elems(flush[..n]) == gone;
      Flush(flush, n, gone);
      AuthDone(s0, list, s1, gone);
    }

    // The ageing loop: every associated station is aged, and the ones whose
    // budget is used up go on the list.
    method AgeAll(cfg: Config, chk: array<nat>) returns (n: nat)
      requires Valid() && chk.Length == NUM_STA
      modifies this`stas, chk
      ensures n <= NUM_STA && chk[..n] == Select(asoc, Listed(cfg, old(stas), asoc))
      ensures AgedAll(cfg, old(stas), asoc, stas)
    {
      n := 0;
      var i := 0;
      ghost var s0, listed := stas, Listed(cfg, stas, asoc);
      while i < |asoc|
        invariant 0 <= i <= |asoc| && n <= NUM_STA
        invariant chk[..n] == Select(asoc[..i], listed)
        invariant AgedAll(cfg, s0, asoc[..i], stas)
      {
        var id := asoc[i];
        assert id !in asoc[..i];
        var (s, list) := Sorted(cfg, Aged(cfg, stas[id]));
        stas := stas[id := s];
        assert asoc[..i + 1] == asoc[..i] + [id];
        assert asoc[..i + 1][..i] == asoc[..i];
        if list {
          SelectRoom(asoc, i, listed);
          chk[n] := id;
          n := n + 1;
        }
        i := i + 1;
      }
      assert asoc[..i] == asoc;
    }

    // The check loop: the listed stations are probed; one that is to go is
    // taken off the association list and noted at its place in `del`.
    method ProbeAll(cfg: Config, ok: nat -> bool, chk: array<nat>, n: nat, del: array<nat>) returns (ghost gone: set<nat>)
      requires n <= chk.Length == del.Length == NUM_STA && chk != del
      requires Distinct(chk[..n]) && forall id | id in chk[..n] :: id in stas
      requires forall i | 0 <= i < n :: del[i] == NUM_STA
      modifies this`stas, this`asoc, del
      ensures Judged(cfg, ok, old(stas), chk[..n], del[..n], stas, gone)
      ensures asoc == Off(old(asoc), gone)
    {
      var i := 0;
      ghost var s0, list, dels, ids, blank := stas, asoc, [], chk[..n], del[..];
      gone := {};
      OffNone(asoc);
      JudgeNone(cfg, ok, s0);
      while i < n
        invariant 0 <= i <= n && chk[..n] == ids
        invariant |dels| == i && del[..] == dels + blank[i..]
        invariant Judged(cfg, ok, s0, ids[..i], dels, stas, gone)
        invariant asoc == Off(list, gone)
      {
        NextOf(ids, i);
        PutNext(dels, blank);
        gone := ProbeNext(cfg, ok, chk[i], del, i, s0, list, ids[..i], dels, gone);
        dels := dels + [del[i]];
        i := i + 1;
      }
      assert ids[..n] == ids && del[..n] == dels;
    }

    // One round of the check loop.
    method ProbeNext(cfg: Config, ok: nat -> bool, id: nat, del: array<nat>, i: nat,
                     ghost s0: map<nat, Sta>, ghost list: seq<nat>, ghost ids: seq<nat>, ghost dels: seq<nat>, ghost gone: set<nat>)
      returns (ghost gone': set<nat>)
      requires i < del.Length && id in stas && id !in ids && del[i] == NUM_STA
      requires Judged(cfg, ok, s0, ids, dels, stas, gone) && asoc == Off(list, gone)
      modifies this`stas, this`asoc, del
      ensures del[..] == old(del[..])[i := del[i]]
      ensures Judged(cfg, ok, s0, ids + [id], dels + [del[i]], stas, gone') && asoc == Off(list, gone')
    {
      gone' := gone;
      ghost var before := stas;
      var deleted := ProbeOne(cfg, id, ok(id));
      JudgeOne(cfg, ok, s0, ids, dels, before, gone, id);
      if deleted {
        del[i] := id;
        asoc := Without(asoc, id);
        OffMore(list, gone, id);
        gone' := gone + {id};
      }
    }

    method ProbeOne(cfg: Config, id: nat, ok: bool) returns (deleted: bool)
      requires id in stas
      modifies this`stas
      ensures var o := Probed(cfg, old(stas)[id], ok);
              && deleted == o.Gone?
              && stas == old(stas)[id := if o.Gone? then old(stas)[id].(tries := 0) else o.sta]
    {
      deleted := false;
      var s := stas[id];
      if !s.asoc {
        assert stas == stas[id := s];
        return;
      }
      if cfg.active {
        s := s.(tries := s.tries + 1);
        if ok {
          stas := stas[id := s.(expireTo := cfg.budget, tries := 0)];
          return;
        } else if s.tries <= MAX_TRIES {
          stas := stas[id := s.(expireTo := 1)];
          return;
        }
      }
      stas := stas[id := s.(tries := 0)];
      deleted := true;
    }

    // The delete loop: what the check loop noted is handed to ap_free_sta.
    method FreeAll(n: nat, del: array<nat>) returns (freed: seq<nat>)
      requires n <= del.Length && forall i | 0 <= i < n :: del[i] < NUM_STA ==> del[i] in stas
      modifies this`stas
      ensures freed == Noted(del[..n]) && stas.Keys == old(stas.Keys)
      ensures forall id | id in stas ::
                stas[id] == if id in freed then old(stas)[id].(asoc := false) else old(stas)[id]
    {
      freed := [];
      var i := 0;
      while i < n
        invariant 0 <= i <= n && stas.Keys == old(stas.Keys) && freed == Noted(del[..i])
        invariant forall id | id in stas ::
                    stas[id] == if id in freed then old(stas)[id].(asoc := false) else old(stas)[id]
      {
        assert del[..i + 1] == del[..i] + [del[i]];
        if del[i] < NUM_STA {
          stas := stas[del[i] := stas[del[i]].(asoc := false)];
          freed := freed + [del[i]];
        }
        i := i + 1;
      }
    }

    // Ageing and probing together: who is to go is noted in `del`.
    method JudgeAll(cfg: Config, ok: nat -> bool, del: array<nat>) returns (n: nat)
      requires Valid() && del.Length == NUM_STA && forall i | 0 <= i < NUM_STA :: del[i] == NUM_STA
      modifies this`stas, this`asoc, del
      ensures n <= NUM_STA && asoc == Off(old(asoc), Dropped(cfg, old(stas), ok, old(asoc)))
      ensures AllJudged(cfg, ok, old(stas), old(asoc), del[..n], stas)
    {
      var chk := new nat[NUM_STA];
      ghost var s0, list := stas, asoc;
      n := AgeAll(cfg, chk);
      ghost var s1, listed := stas, chk[..n];
      ListedApart(cfg, s0, list);
      ghost var gone := ProbeAll(cfg, ok, chk, n, del);
      AllChecked(cfg, ok, s0, list, s1, listed, del[..n], stas, gone);
    }

    // The association list's share of a check: every station on it gets what
    // `Check` says, each on its own; the list keeps the survivors in order, the
    // stations freed are exactly the others, in order, nobody else is touched.
    method ExpireAsoc(cfg: Config, ok: nat -> bool) returns (freed: seq<nat>)
      requires Valid()
      modifies this`stas, this`asoc
      ensures Valid() && stas.Keys == old(stas.Keys)
      ensures var gone := Dropped(cfg, old(stas), ok, old(asoc));
              asoc == Off(old(asoc), gone) && freed == Select(old(asoc), gone)
      ensures forall id | id in asoc :: id in old(asoc) && Verdict(cfg, old(stas), ok, id) == Kept(stas[id])
      ensures forall id | id in freed :: id in stas && !stas[id].asoc
      ensures forall id | id in stas && id !in old(asoc) :: stas[id] == old(stas)[id]
    {
      var del := new nat[NUM_STA](_ => NUM_STA);
      var n := JudgeAll(cfg, ok, del);
      assert forall i | 0 <= i < n :: del[..n][i] == del[i];
      freed := FreeAll(n, del);
    }

    /**
     * One whole check: the authentication list is counted down and flushed, and
     * every associated station gets exactly what `Check` says.
     */
    method ExpireCheck(cfg: Config, ok: nat -> bool) returns (freed: seq<nat>)
      requires Valid()
      modifies this
      ensures Valid() && auth == Off(old(auth), Due(old(stas), old(auth)))
      ensures forall id | id in auth :: id in old(auth) && stas[id] == AuthAged(old(stas)[id])
      ensures forall id | id in Due(old(stas), old(auth)) :: id !in stas
      ensures var gone := Dropped(cfg, old(stas), ok, old(asoc));
              asoc == Off(old(asoc), gone) && freed == Select(old(asoc), gone)
      ensures forall id | id in asoc :: id in old(asoc) && Verdict(cfg, old(stas), ok, id) == Kept(stas[id])
    {
      ghost var s0, list, waiting := stas, asoc, auth;
      OffMembers(auth, Due(stas, auth));
      ExpireAuth();
      assert forall id | id in list :: Verdict(cfg, stas, ok, id) == Verdict(cfg, s0, ok, id);
      assert Dropped(cfg, stas, ok, list) == Dropped(cfg, s0, ok, list);
      freed := ExpireAsoc(cfg, ok);
    }
  }
}
