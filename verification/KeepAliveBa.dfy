/**
 * Expiry of associated stations as the driver is built (core/rtw_ap.c,
 * expire_timeout_chk): without the active check, an aggregating station's
 * blocks are torn down, and an HT station whose budget is spent is asked for a
 * block agreement to see whether it answers.
 */
module KeepAliveBa {

  const WIDTH := 0x1_0000_0000
  const MAX_TRIES := 3
  const BK := 1   // the traffic identifier used to ask

  // An unsigned int of the driver.
  type U32 = n: nat | n < WIDTH

  datatype Config = Config(
    budget: U32,      // expire_to of the station table
    wifiSpec: bool)   // registry wifi_spec == 1

  datatype Sta = Sta(
    expireTo: U32,
    tries: nat,       // keep_alive_trycnt
    heard: bool,      // data or control frames came since the last check
    asleep: bool,     // WIFI_SLEEP_STATE
    aliveChk: bool,   // WIFI_STA_ALIVE_CHK_STATE
    asoc: bool,       // WIFI_ASOC_STATE
    ht: bool,         // WLAN_STA_HT
    ampdu: bool,      // ht_option and ampdu_enable
    agg: set<nat>,    // agg_enable_bitmap
    cand: set<nat>,   // candidate_tid_bitmap
    under: bool)      // under_exist_checking

  datatype Outcome = Kept(sta: Sta) | Gone

  // ------------------------------------------------------------------
  // One check of one station
  // ------------------------------------------------------------------

  // Subtraction as the driver's unsigned arithmetic has it.
  function Minus(a: U32, b: U32): U32 {
    (a - b) % WIDTH
  }

  predicate SameKind(s: Sta, t: Sta) {
    t.ht == s.ht && t.ampdu == s.ampdu && t.asoc == s.asoc
  }

  // The budget is restored by traffic, or one less.
  function Aged(cfg: Config, s: Sta): (t: Sta)
    ensures SameKind(s, t) && !t.heard && (t.tries == 0 || t.tries == s.tries)
  {
    if s.heard || s.expireTo == 0
    then s.(expireTo := cfg.budget, tries := 0, under := false, heard := false)
    else s.(expireTo := s.expireTo - 1)
  }

  predicate Watched(s: Sta) {
    s.ht && (s.agg != {} || s.under)
  }

  // An aggregating station is cut short after fifty checks; after three its
  // agreements are torn down.
  function Torn(cfg: Config, s: Sta): (t: Sta)
    ensures SameKind(s, t) && t.heard == s.heard && t.tries == s.tries
  {
    if !Watched(s) then s
    else if s.expireTo <= Minus(cfg.budget, 50) then s.(expireTo := 0, under := false)
    else if s.expireTo <= Minus(cfg.budget, 3) && !s.under then s.(under := true, agg := {}, cand := {})
    else s
  }

  // The mark of the last request is taken off, up to three times; a count
  // without a mark was answered.
  function Settled(s: Sta): (t: Sta)
    ensures SameKind(s, t) && t.heard == s.heard && (t.tries == 0 || t.tries == s.tries)
  {
    if s.tries > 0 && s.tries <= MAX_TRIES && s.aliveChk then s.(aliveChk := false)
    else if s.tries > 0 && !s.aliveChk then s.(tries := 0)
    else s
  }

  predicate Asks(s: Sta) {
    s.ampdu && BK !in s.cand && !s.aliveChk
  }

  function Asked(s: Sta): (t: Sta)
    ensures SameKind(s, t) && t.heard == s.heard && t.tries == s.tries + 1
  {
    s.(cand := s.cand + {BK}, expireTo := if s.asleep then 2 else 1, aliveChk := true, tries := s.tries + 1)
  }

  // After the last request nothing is remembered of them.
  function GivenUp(s: Sta): (t: Sta)
    ensures SameKind(s, t) && t.heard == s.heard && (t.tries == 0 || t.tries == s.tries)
  {
    if s.tries > 0 && s.aliveChk then s.(tries := 0, aliveChk := false) else s
  }

  // A station whose budget is spent.
  function Judged(cfg: Config, s: Sta): Outcome {
    if cfg.wifiSpec then Kept(s.(expireTo := cfg.budget))
    else
      var t := Settled(s);
      if Asks(t) then Kept(Asked(t))
      else
        var u := GivenUp(t);
        if u.asleep && !u.aliveChk then Kept(u.(expireTo := cfg.budget, aliveChk := true))
        else if u.asoc then Gone
        else Kept(u)
  }

  function Check(cfg: Config, s: Sta): Outcome {
    var t := Torn(cfg, Aged(cfg, s));
    if t.expireTo > 0 then Kept(t) else Judged(cfg, t)
  }

  // ------------------------------------------------------------------
  // Runs
  // ------------------------------------------------------------------

  datatype Event =
    | Frame(sleeps: bool, poll: bool)   // data, null data or PS-Poll: power management bit, and whether it polls
    | Wake                              // the driver wakes it, its queue being too long
    | Answer(tid: nat, accepted: bool)  // ADDBA response
    | PeerDelba(tid: nat)               // the station tears an agreement down
    | AskFor(tid: nat)                  // the transmit path wants an agreement
    | Timer                             // the ADDBA timer
    | Tick                              // the check

  // A sign of life takes the mark back and restores the budget.
  function Alive(cfg: Config, s: Sta): Sta {
    if s.aliveChk then s.(expireTo := cfg.budget, aliveChk := false) else s
  }

  function Step(cfg: Config, s: Sta, e: Event): Outcome {
    match e
    case Frame(sleeps, poll) =>
      var t := if poll || (s.asleep && !sleeps) then Alive(cfg, s) else s;
      Kept(t.(heard := true, asleep := sleeps))
    case Wake => Kept(Alive(cfg, s).(asleep := false))
    case Answer(tid, accepted) =>
      var agg := if accepted && !s.aliveChk then s.agg + {tid} else s.agg - {tid};
      Kept(Alive(cfg, s).(agg := agg, cand := if accepted then s.cand - {tid} else s.cand))
    case PeerDelba(tid) => Kept(s.(agg := s.agg - {tid}, cand := s.cand - {tid}))
    case AskFor(tid) => Kept(if s.ampdu && tid !in s.agg then s.(cand := s.cand + {tid}) else s)
    case Timer => Kept(if s.ampdu then s.(cand := {}) else s)
    case Tick => Check(cfg, s)
  }

  function Run(cfg: Config, s: Sta, es: seq<Event>): Outcome {
    if es == [] then Kept(s)
    else
      var o := Run(cfg, s, es[..|es| - 1]);
      if o.Gone? then Gone else Step(cfg, o.sta, es[|es| - 1])
  }

  lemma RunSnoc(cfg: Config, s: Sta, es: seq<Event>, e: Event)
    ensures Run(cfg, s, es + [e])
         == if Run(cfg, s, es).Gone? then Gone else Step(cfg, Run(cfg, s, es).sta, e)
  {
    assert (es + [e])[..|es|] == es;
  }

  // ------------------------------------------------------------------
  // Over every run
  // ------------------------------------------------------------------

  // Requests are made up to four times, and only where aggregation is on.
  predicate Counted(s: Sta) {
    s.tries <= MAX_TRIES + 1 && (s.tries > 0 ==> s.ampdu)
  }

  lemma JudgedCounted(cfg: Config, s: Sta)
    requires Counted(s)
    ensures var o := Judged(cfg, s); o.Kept? ==> Counted(o.sta) && SameKind(s, o.sta) && o.sta.heard == s.heard
  {
  }

  lemma StepCounted(cfg: Config, s: Sta, e: Event)
    requires Counted(s)
    ensures var o := Step(cfg, s, e); o.Kept? ==> Counted(o.sta) && SameKind(s, o.sta)
  {
    if e.Tick? {
      JudgedCounted(cfg, Torn(cfg, Aged(cfg, s)));
    }
  }

  lemma {:induction false} TriesBounded(cfg: Config, s: Sta, es: seq<Event>)
    requires Counted(s)
    ensures Run(cfg, s, es).Kept? ==> Counted(Run(cfg, s, es).sta) && SameKind(s, Run(cfg, s, es).sta)
  {
    if es != [] {
      var front := es[..|es| - 1];
      TriesBounded(cfg, s, front);
      if Run(cfg, s, front).Kept? {
        StepCounted(cfg, Run(cfg, s, front).sta, es[|es| - 1]);
      }
    }
  }

  // Under the certification setting nobody is ever dropped, nor is a record that
  // is no longer associated.
  lemma {:induction false} WifiSpecKeeps(cfg: Config, s: Sta, es: seq<Event>)
    requires cfg.wifiSpec || !s.asoc
    ensures var o := Run(cfg, s, es);
            o.Kept? && o.sta.asoc == s.asoc && (cfg.wifiSpec && cfg.budget > 0 && s.expireTo > 0 ==> o.sta.expireTo > 0)
  {
    if es != [] {
      var front := es[..|es| - 1];
      WifiSpecKeeps(cfg, s, front);
      KeptStep(cfg, Run(cfg, s, front).sta, es[|es| - 1]);
    }
  }

  lemma KeptStep(cfg: Config, s: Sta, e: Event)
    requires cfg.wifiSpec || !s.asoc
    ensures var o := Step(cfg, s, e);
            o.Kept? && o.sta.asoc == s.asoc && (cfg.wifiSpec && cfg.budget > 0 && s.expireTo > 0 ==> o.sta.expireTo > 0)
  {
  }

  /**
   * What a sign of life does: a PS-Poll, or the end of a sleep, answers a pending
   * request and fills the budget; any other frame leaves the mark, and both are
   * traffic for the next check.
   */
  lemma FrameMeans(cfg: Config, s: Sta, sleeps: bool, poll: bool)
    ensures var t := Step(cfg, s, Frame(sleeps, poll)).sta;
            && t.heard && t.asleep == sleeps && t.tries == s.tries && t.agg == s.agg && t.cand == s.cand
            && if s.aliveChk && (poll || (s.asleep && !sleeps)) then !t.aliveChk && t.expireTo == cfg.budget
               else t.aliveChk == s.aliveChk && t.expireTo == s.expireTo
  {
  }

  // An ADDBA response makes or ends its agreement; one that answers a request of
  // the check ends it in any case.
  lemma AnswerMeans(cfg: Config, s: Sta, tid: nat, accepted: bool)
    ensures var t := Step(cfg, s, Answer(tid, accepted)).sta;
            && (tid in t.agg <==> accepted && !s.aliveChk)
            && (tid in t.cand <==> tid in s.cand && !accepted)
            && (forall i | i != tid :: (i in t.agg <==> i in s.agg) && (i in t.cand <==> i in s.cand))
            && !t.aliveChk && t.expireTo == if s.aliveChk then cfg.budget else s.expireTo
  {
  }

  /**
   * Traffic restores the full budget, exactly unless the station aggregates and
   * the budget is below fifty: the driver's unsigned difference then wraps, and
   * the check cuts the station short whatever was heard.
   */
  lemma HeardRestoresExactly(cfg: Config, s: Sta)
    requires s.heard && cfg.budget > 0 && !cfg.wifiSpec
    ensures Check(cfg, s) == Kept(s.(expireTo := cfg.budget, tries := 0, under := false, heard := false))
       <==> !(s.ht && s.agg != {} && cfg.budget < 50)
  {
    assert cfg.budget >= 50 ==> Minus(cfg.budget, 50) == cfg.budget - 50;
    assert cfg.budget < 50 ==> Minus(cfg.budget, 50) == cfg.budget - 50 + WIDTH;
    assert cfg.budget >= 3 ==> Minus(cfg.budget, 3) == cfg.budget - 3;
  }

  // A frame was received since the last check.
  function Pending(es: seq<Event>): bool {
    es != [] && (es[|es| - 1].Frame? || (!es[|es| - 1].Tick? && Pending(es[..|es| - 1])))
  }

  // How many checks in a row found nothing received.
  function Lull(es: seq<Event>): nat {
    if es == [] then 0
    else
      var front := es[..|es| - 1];
      if !es[|es| - 1].Tick? then Lull(front) else if Pending(front) then 0 else Lull(front) + 1
  }

  // The silence every station is granted.
  function Grace(cfg: Config, s: Sta): nat {
    if s.ht then 50 else cfg.budget
  }

  predicate Fresh(cfg: Config, s: Sta) {
    !s.heard && s.expireTo >= cfg.budget && Counted(s)
  }

  // The budget reflects the silence, or the silence has been long enough.
  predicate Granted(cfg: Config, s: Sta, lull: nat) {
    lull >= Grace(cfg, s) || s.expireTo + lull >= cfg.budget
  }

  lemma CutGranted(cfg: Config, s: Sta, lull: nat)
    requires cfg.budget > 0 && (s.ht ==> cfg.budget >= 50) && Granted(cfg, s, lull)
    ensures var t, next := Torn(cfg, Aged(cfg, s)), if s.heard then 0 else lull + 1;
            if t.expireTo > 0 then Granted(cfg, t, next) else next >= Grace(cfg, s)
  {
    assert s.ht ==> Minus(cfg.budget, 50) == cfg.budget - 50;
    assert Granted(cfg, Aged(cfg, s), if s.heard then 0 else lull + 1);
  }

  lemma StepGranted(cfg: Config, s: Sta, lull: nat)
    requires cfg.budget > 0 && (s.ht ==> cfg.budget >= 50) && Granted(cfg, s, lull) && Counted(s)
    ensures var next := if s.heard then 0 else lull + 1;
            match Check(cfg, s) case Kept(t) => Granted(cfg, t, next) && !t.heard
                                case Gone => next >= Grace(cfg, s)
  {
    CutGranted(cfg, s, lull);
    JudgedCounted(cfg, Torn(cfg, Aged(cfg, s)));
  }

  lemma EventGranted(cfg: Config, s: Sta, lull: nat, e: Event)
    requires Granted(cfg, s, lull) && !e.Tick?
    ensures var o := Step(cfg, s, e); o.Kept? && Granted(cfg, o.sta, lull) && o.sta.heard == (s.heard || e.Frame?)
  {
  }

  lemma {:induction false} GrantedOverRuns(cfg: Config, s: Sta, es: seq<Event>)
    requires cfg.budget > 0 && (s.ht ==> cfg.budget >= 50)
    requires Fresh(cfg, s)
    ensures var o := Run(cfg, s, es);
            o.Kept? ==> Granted(cfg, o.sta, Lull(es)) && o.sta.heard == Pending(es)
  {
    if es != [] {
      var front, e := es[..|es| - 1], es[|es| - 1];
      GrantedOverRuns(cfg, s, front);
      TriesBounded(cfg, s, front);
      if Run(cfg, s, front).Kept? {
        if e.Tick? {
          StepGranted(cfg, Run(cfg, s, front).sta, Lull(front));
        } else {
          EventGranted(cfg, Run(cfg, s, front).sta, Lull(front), e);
        }
      }
    }
  }

  ghost predicate DroppedBy(cfg: Config, s: Sta, es: seq<Event>) {
    es != [] && Run(cfg, s, es[..|es| - 1]).Kept? && Run(cfg, s, es).Gone?
  }

  /**
   * No station goes early: over every run from a full budget, whatever is
   * answered, asked or torn down meanwhile, a station that is dropped was not
   * heard at the last fifty checks, or, without HT, at as many as the budget says.
   */
  lemma DroppedOnlyAfterGrace(cfg: Config, s: Sta, es: seq<Event>)
    requires cfg.budget > 0 && (s.ht ==> cfg.budget >= 50)
    requires Fresh(cfg, s) && DroppedBy(cfg, s, es)
    ensures es[|es| - 1].Tick? && !Pending(es[..|es| - 1]) && Lull(es) >= Grace(cfg, s)
  {
    var front, e := es[..|es| - 1], es[|es| - 1];
    GrantedOverRuns(cfg, s, front);
    TriesBounded(cfg, s, front);
    assert e.Tick?;
    StepGranted(cfg, Run(cfg, s, front).sta, Lull(front));
  }

  // A station that keeps sending, aggregates, and does not answer the request
  // is dropped at the second check where the budget is below fifty.
  lemma LiveDropped(cfg: Config, s: Sta)
    requires 0 < cfg.budget < 50 && !cfg.wifiSpec
    requires s.asoc && s.ht && s.ampdu && s.agg != {} && BK !in s.cand && !s.aliveChk
    ensures var send := Frame(false, false); DroppedBy(cfg, s, [send, Tick, send, Tick])
  {
    var send := Frame(false, false);
    RunSnoc(cfg, s, [], send);
    RunSnoc(cfg, s, [send], Tick);
    RunSnoc(cfg, s, [send, Tick], send);
    RunSnoc(cfg, s, [send, Tick, send], Tick);
    assert [] + [send] == [send] && [send] + [Tick] == [send, Tick];
    assert [send, Tick] + [send] == [send, Tick, send] && [send, Tick, send] + [Tick] == [send, Tick, send, Tick];
    assert [send, Tick, send, Tick][..3] == [send, Tick, send];
    var t := CutShort(cfg, s.(heard := true, asleep := false));
    var u := t.(heard := true, asleep := false);
    CutShortAgain(cfg, u);
  }

  lemma CutShort(cfg: Config, s: Sta) returns (t: Sta)
    requires 0 < cfg.budget < 50 && !cfg.wifiSpec
    requires s.heard && !s.asleep && s.ht && s.ampdu && s.agg != {} && BK !in s.cand && !s.aliveChk
    ensures Check(cfg, s) == Kept(t) && t == s.(heard := false, expireTo := 1, tries := 1, under := false, aliveChk := true, cand := s.cand + {BK})
  {
    assert Minus(cfg.budget, 50) == cfg.budget - 50 + WIDTH;
    t := s.(heard := false, expireTo := 1, tries := 1, under := false, aliveChk := true, cand := s.cand + {BK});
  }

  lemma CutShortAgain(cfg: Config, s: Sta)
    requires 0 < cfg.budget < 50 && !cfg.wifiSpec
    requires s.heard && !s.asleep && s.asoc && s.ht && s.agg != {} && s.aliveChk
    ensures Check(cfg, s) == Gone
  {
    assert Minus(cfg.budget, 50) == cfg.budget - 50 + WIDTH;
  }

  // Nobody is dropped at a check that has something heard before it.
  ghost predicate SparesTheHeard(cfg: Config, ht: bool) {
    forall s: Sta, es: seq<Event> |
      s.ht == ht && Fresh(cfg, s) && DroppedBy(cfg, s, es) :: !Pending(es[..|es| - 1])
  }

  /** So traffic keeps a station exactly if it has no HT, or the budget is at least fifty. */
  lemma SparesExactly(cfg: Config, ht: bool)
    requires cfg.budget > 0
    ensures SparesTheHeard(cfg, ht) <==> cfg.wifiSpec || !ht || cfg.budget >= 50
  {
    if cfg.wifiSpec {
      forall s: Sta, es: seq<Event> | DroppedBy(cfg, s, es) ensures false {
        WifiSpecKeeps(cfg, s, es);
      }
    } else if !ht || cfg.budget >= 50 {
      forall s: Sta, es: seq<Event> | s.ht == ht && Fresh(cfg, s) && DroppedBy(cfg, s, es)
        ensures !Pending(es[..|es| - 1])
      {
        DroppedOnlyAfterGrace(cfg, s, es);
      }
    } else {
      var s := Sta(cfg.budget, 0, false, false, false, true, true, true, {0}, {}, false);
      var send := Frame(false, false);
      LiveDropped(cfg, s);
      assert [send, Tick, send, Tick][..3] == [send, Tick, send];
    }
  }

  // ------------------------------------------------------------------
  // A silent station goes, and when
  // ------------------------------------------------------------------

  // Checks, with the ADDBA timer running out before some of them.
  function Beats(ks: seq<bool>): seq<Event> {
    if ks == [] then []
    else Beats(ks[..|ks| - 1]) + (if ks[|ks| - 1] then [Timer] else []) + [Tick]
  }

  function Beat(cfg: Config, s: Sta, timer: bool): Outcome {
    Check(cfg, if timer && s.ampdu then s.(cand := {}) else s)
  }

  lemma BeatsSnoc(cfg: Config, s: Sta, ks: seq<bool>)
    requires ks != []
    ensures var o := Run(cfg, s, Beats(ks[..|ks| - 1]));
            Run(cfg, s, Beats(ks)) == if o.Gone? then Gone else Beat(cfg, o.sta, ks[|ks| - 1])
  {
    var es := Beats(ks[..|ks| - 1]);
    RunSnoc(cfg, s, es, Timer);
    if ks[|ks| - 1] {
      RunSnoc(cfg, s, es + [Timer], Tick);
    } else {
      assert es + [] == es;
      RunSnoc(cfg, s, es, Tick);
    }
  }

  // The check at which a silent station's budget is first spent.
  function First(cfg: Config, s: Sta): nat {
    var low := Minus(cfg.budget, 50);
    if !Watched(s) then s.expireTo else if s.expireTo <= low then 1 else s.expireTo - low
  }

  // No request is pending: none was made, or the last one was answered.
  predicate Unasked(s: Sta) {
    s.asoc && !s.heard && !s.aliveChk && BK !in s.cand
  }

  // Silent and awake, n checks before the budget is spent.
  predicate Waiting(cfg: Config, s: Sta, s0: Sta, n: nat) {
    && Unasked(s) && s.asleep == s0.asleep && s.ampdu == s0.ampdu && s.ht == s0.ht && Watched(s) == Watched(s0)
    && s.expireTo + n == s0.expireTo
  }

  // Asked j times.
  predicate Asking(s: Sta, j: nat) {
    s.asoc && !s.heard && !s.asleep && s.ampdu && s.expireTo == 1 && s.tries == j && s.aliveChk && BK in s.cand
  }

  lemma WaitOne(cfg: Config, s: Sta, s0: Sta, n: nat, timer: bool)
    requires !cfg.wifiSpec && cfg.budget > 0 && Waiting(cfg, s, s0, n) && n + 1 < First(cfg, s0)
    ensures var o := Beat(cfg, s, timer); o.Kept? && Waiting(cfg, o.sta, s0, n + 1)
  {
  }

  lemma WaitOver(cfg: Config, s: Sta, s0: Sta, n: nat, timer: bool)
    requires !cfg.wifiSpec && cfg.budget > 0 && Waiting(cfg, s, s0, n) && n + 1 == First(cfg, s0) && !s0.asleep && s0.expireTo > 0
    ensures var o := Beat(cfg, s, timer); if s0.ampdu then o.Kept? && Asking(o.sta, 1) else o.Gone?
  {
  }

  lemma AskOn(cfg: Config, s: Sta, j: nat, timer: bool)
    requires !cfg.wifiSpec && 1 <= j <= MAX_TRIES + 1 && Asking(s, j)
    ensures var o := Beat(cfg, s, timer);
            if timer && j <= MAX_TRIES then o.Kept? && Asking(o.sta, j + 1) else o.Gone?
  {
  }

  /**
   * A silent, waking station is dropped exactly when its budget is spent, if it
   * does not aggregate at all, and otherwise up to four checks later: each
   * request earns it one more, as long as the timer of the request runs out
   * before the next check.
   */
  lemma {:induction false} AwakeExpiresExactly(cfg: Config, s: Sta, ks: seq<bool>)
    requires !cfg.wifiSpec && cfg.budget > 0 && Unasked(s) && !s.asleep && s.expireTo > 0
    ensures var first := First(cfg, s);
            Run(cfg, s, Beats(ks)).Kept? <==>
              || |ks| < first
              || (s.ampdu && |ks| <= first + MAX_TRIES && Timed(ks, first))
    ensures Fares(cfg, s, |ks|, Run(cfg, s, Beats(ks)))
  {
    if ks != [] {
      var n := |ks| - 1;
      AwakeExpiresExactly(cfg, s, ks[..n]);
      BeatsSnoc(cfg, s, ks);
      TimedSnoc(ks, First(cfg, s));
      FaresOn(cfg, s, n, Run(cfg, s, Beats(ks[..n])), ks[n]);
    }
  }

  // The timer ran out before every check from the given one on.
  predicate Timed(ks: seq<bool>, first: nat) {
    forall i | first <= i < |ks| :: ks[i]
  }

  lemma TimedSnoc(ks: seq<bool>, first: nat)
    requires ks != []
    ensures Timed(ks, first) <==> Timed(ks[..|ks| - 1], first) && (first < |ks| ==> ks[|ks| - 1])
  {
    var front := ks[..|ks| - 1];
    assert forall i | 0 <= i < |front| :: ks[i] == front[i];
  }

  // What has become of a silent, waking station after n checks.
  predicate Fares(cfg: Config, s0: Sta, n: nat, o: Outcome) {
    o.Kept? ==> if n < First(cfg, s0) then Waiting(cfg, o.sta, s0, n) else Asking(o.sta, n - First(cfg, s0) + 1)
  }

  lemma FaresOn(cfg: Config, s0: Sta, n: nat, o: Outcome, timer: bool)
    requires !cfg.wifiSpec && cfg.budget > 0 && !s0.asleep && s0.expireTo > 0 && Fares(cfg, s0, n, o)
    requires o.Kept? && n >= First(cfg, s0) ==> s0.ampdu && n <= First(cfg, s0) + MAX_TRIES
    ensures var next := if o.Gone? then Gone else Beat(cfg, o.sta, timer);
            var first := First(cfg, s0);
            && Fares(cfg, s0, n + 1, next)
            && (next.Kept? <==> o.Kept? && (n + 1 < first || (s0.ampdu && (n + 1 == first || (timer && n < first + MAX_TRIES)))))
  {
    if o.Kept? {
      if n + 1 < First(cfg, s0) {
        WaitOne(cfg, o.sta, s0, n, timer);
      } else if n + 1 == First(cfg, s0) {
        WaitOver(cfg, o.sta, s0, n, timer);
      } else {
        AskOn(cfg, o.sta, n - First(cfg, s0) + 1, timer);
      }
    }
  }

  // ------------------------------------------------------------------
  // An answer, and the tear-down
  // ------------------------------------------------------------------

  /**
   * A station that answers a request before the next check, in whichever way, has
   * its full budget again, and if it falls silent for good after accepting one
   * it lasts as long as if it had never been asked.
   */
  lemma AnsweredExpiresExactly(cfg: Config, s: Sta, j: nat, ks: seq<bool>)
    requires !cfg.wifiSpec && cfg.budget > 0 && Asking(s, j)
    ensures forall accepted: bool ::
              var o := Step(cfg, s, Answer(BK, accepted));
              o.Kept? && o.sta.expireTo == cfg.budget && !o.sta.aliveChk && BK !in o.sta.agg && o.sta.under == s.under
    ensures var t := Step(cfg, s, Answer(BK, true)).sta;
            var first := First(cfg, t);
            Run(cfg, t, Beats(ks)).Kept? <==> |ks| < first || (|ks| <= first + MAX_TRIES && Timed(ks, first))
  {
    AwakeExpiresExactly(cfg, Step(cfg, s, Answer(BK, true)).sta, ks);
  }

  // The check at which an aggregating station's agreements are torn down.
  function TornAt(cfg: Config, s: Sta): nat {
    var low := Minus(cfg.budget, 3);
    if s.expireTo <= low then 1 else s.expireTo - low
  }

  // Quiet, awake or not, with n checks behind it and its agreements whole, or gone.
  predicate Watching(cfg: Config, s: Sta, s0: Sta, n: nat) {
    && s.asoc && !s.heard && s.ht && s.ampdu == s0.ampdu && s.expireTo + n == s0.expireTo
    && if n < TornAt(cfg, s0) then s.agg == s0.agg && !s.under else s.agg == {} && s.cand == {} && s.under
  }

  lemma WatchOn(cfg: Config, s: Sta, s0: Sta, n: nat, timer: bool)
    requires cfg.budget >= 50 && s0.agg != {} && Watching(cfg, s, s0, n) && n + 1 < First(cfg, s0) && Watched(s0)
    ensures var o := Beat(cfg, s, timer); o.Kept? && Watching(cfg, o.sta, s0, n + 1)
  {
  }

  /**
   * The agreements of a quiet aggregating station are torn down, all of them and
   * those asked for, at exactly the check at which its budget is three less than
   * full: the third from a full budget.
   */
  lemma {:induction false} TornDownExactly(cfg: Config, s: Sta, ks: seq<bool>)
    requires cfg.budget >= 50 && s.asoc && !s.heard && s.ht && s.agg != {} && !s.under && |ks| < First(cfg, s)
    ensures var o := Run(cfg, s, Beats(ks));
            && o.Kept? && Watching(cfg, o.sta, s, |ks|)
            && (o.sta.agg == {} <==> |ks| >= TornAt(cfg, s))
    ensures s.expireTo == cfg.budget ==> TornAt(cfg, s) == 3
  {
    if ks != [] {
      TornDownExactly(cfg, s, ks[..|ks| - 1]);
      BeatsSnoc(cfg, s, ks);
      WatchOn(cfg, Run(cfg, s, Beats(ks[..|ks| - 1])).sta, s, |ks| - 1, ks[|ks| - 1]);
    }
  }

  // ------------------------------------------------------------------
  // Awake or asleep
  // ------------------------------------------------------------------

  // Nothing comes from the station, and the driver does not wake it.
  predicate Silent(es: seq<Event>) {
    forall i | 0 <= i < |es| :: !es[i].Frame? && !es[i].Wake? && !es[i].Answer?
  }

  // No earlier request is pending when a check comes.
  predicate Open(cfg: Config, s: Sta, es: seq<Event>) {
    es == [] || (var o := Run(cfg, s, es[..|es| - 1]);
                 Open(cfg, s, es[..|es| - 1]) && (es[|es| - 1].Tick? && o.Kept? ==> BK !in o.sta.cand))
  }

  function Ticks(es: seq<Event>): nat {
    if es == [] then 0 else Ticks(es[..|es| - 1]) + if es[|es| - 1].Tick? then 1 else 0
  }

  // What a state between checks satisfies.
  predicate Sound(s: Sta) {
    s.asoc && !s.heard && s.expireTo > 0 && s.tries <= MAX_TRIES + 1 && (s.tries > 0 ==> s.ampdu)
  }

  // How many more checks a silent station can last.
  function Fuel(cfg: Config, s: Sta): nat
    requires s.tries <= MAX_TRIES + 1
  {
    s.expireTo + if !s.aliveChk then 8 + cfg.budget else if s.tries == 0 then 0 else 2 * (4 - s.tries) + cfg.budget
  }

  lemma CheckBurns(cfg: Config, s: Sta)
    requires !cfg.wifiSpec && cfg.budget > 0 && Sound(s) && BK !in s.cand
    ensures var o := Check(cfg, s); o.Kept? ==> Sound(o.sta) && Fuel(cfg, o.sta) < Fuel(cfg, s)
  {
    var t := Torn(cfg, Aged(cfg, s));
    assert t.expireTo < s.expireTo && t.tries == s.tries && t.aliveChk == s.aliveChk && BK !in t.cand;
  }

  /**
   * Bounded expiry: a silent station, awake or asleep, whatever its agreements and
   * those the driver tries to make, is dropped within its budget, eight checks and
   * a second budget, if no request is pending at a check.
   */
  lemma {:induction false} SilentMeansGone(cfg: Config, s: Sta, es: seq<Event>)
    requires !cfg.wifiSpec && cfg.budget > 0 && Sound(s) && Silent(es) && Open(cfg, s, es)
    ensures var o := Run(cfg, s, es); o.Kept? ==> Sound(o.sta) && Ticks(es) + Fuel(cfg, o.sta) <= Fuel(cfg, s)
    ensures Ticks(es) >= Fuel(cfg, s) ==> Run(cfg, s, es).Gone?
  {
    if es != [] {
      var front, e := es[..|es| - 1], es[|es| - 1];
      assert forall i | 0 <= i < |front| :: front[i] == es[i];
      SilentMeansGone(cfg, s, front);
      if Run(cfg, s, front).Kept? && e.Tick? {
        CheckBurns(cfg, Run(cfg, s, front).sta);
      }
    }
  }

  // Sleeping, with n checks behind it.
  predicate Dozing(cfg: Config, s: Sta, s0: Sta, n: nat) {
    && s.asoc && !s.heard && s.asleep && s.ampdu && !Watched(s)
    && if n < s0.expireTo then s.expireTo == s0.expireTo - n && !s.aliveChk
       else if n < s0.expireTo + 8 then
         s.expireTo == 2 - (n - s0.expireTo) % 2 && s.tries == 1 + (n - s0.expireTo) / 2 && s.aliveChk
       else s.expireTo == s0.expireTo + 8 + cfg.budget - n && s.tries == 0 && s.aliveChk
  }

  lemma DozeOn(cfg: Config, s: Sta, s0: Sta, n: nat)
    requires !cfg.wifiSpec && cfg.budget > 0 && s0.expireTo > 0 && Dozing(cfg, s, s0, n) && n < s0.expireTo + 8 + cfg.budget
    ensures var o := Beat(cfg, s, true);
            if n + 1 < s0.expireTo + 8 + cfg.budget then o.Kept? && Dozing(cfg, o.sta, s0, n + 1) else o.Gone?
  {
  }

  // The bound is reached by a station that sleeps all the time.
  lemma {:induction false} SleeperExpiresExactly(cfg: Config, s: Sta, ks: seq<bool>)
    requires !cfg.wifiSpec && cfg.budget > 0 && s.expireTo > 0 && Unasked(s) && Counted(s) && s.asleep && s.ampdu && !Watched(s)
    requires forall i | 0 <= i < |ks| :: ks[i]
    ensures var o := Run(cfg, s, Beats(ks));
            && (o.Kept? <==> |ks| < Fuel(cfg, s))
            && (o.Kept? ==> Dozing(cfg, o.sta, s, |ks|))
  {
    if ks != [] {
      SleeperExpiresExactly(cfg, s, ks[..|ks| - 1]);
      BeatsSnoc(cfg, s, ks);
      if Run(cfg, s, Beats(ks[..|ks| - 1])).Kept? {
        DozeOn(cfg, Run(cfg, s, Beats(ks[..|ks| - 1])).sta, s, |ks| - 1);
      }
    }
  }

  // Asleep, and asked.
  predicate Pressed(s: Sta) {
    Sound(s) && s.asleep && s.aliveChk && 1 <= s.tries <= MAX_TRIES
  }

  lemma PressedCheck(cfg: Config, s: Sta)
    requires !cfg.wifiSpec && cfg.budget > 0 && Pressed(s) && BK !in s.agg
    ensures var o := Check(cfg, s.(cand := s.cand + {BK})); o.Kept? && Pressed(o.sta) && BK !in o.sta.agg
  {
  }

  /**
   * The last condition is needed: a sleeping station that was asked once, and for
   * which the transmit path wants an agreement again before every check, is
   * never dropped, however long it is silent.
   */
  lemma {:induction false} NeverGone(cfg: Config, s: Sta, n: nat) returns (es: seq<Event>)
    requires !cfg.wifiSpec && cfg.budget > 0 && Pressed(s) && BK !in s.agg
    ensures Silent(es) && Ticks(es) == n
    ensures var o := Run(cfg, s, es); o.Kept? && Pressed(o.sta) && BK !in o.sta.agg
  {
    es := [];
    if n > 0 {
      var front := NeverGone(cfg, s, n - 1);
      var mid := front + [AskFor(BK)];
      es := mid + [Tick];
      PressedCheck(cfg, Run(cfg, s, front).sta);
      RunSnoc(cfg, s, front, AskFor(BK));
      RunSnoc(cfg, s, mid, Tick);
      assert mid[..|front|] == front && es[..|mid|] == mid;
    }
  }

  // ------------------------------------------------------------------
  // The record, changed in place
  // ------------------------------------------------------------------

  class Station {
    var expireTo: U32
    var tries: nat
    var heard: bool
    var asleep: bool
    var aliveChk: bool
    var asoc: bool
    var ht: bool
    var ampdu: bool
    var agg: set<nat>
    var cand: set<nat>
    var under: bool

    ghost function Snapshot(): Sta
      reads this
    {
      Sta(expireTo, tries, heard, asleep, aliveChk, asoc, ht, ampdu, agg, cand, under)
    }

    method Age(cfg: Config)
      modifies this`expireTo, this`tries, this`under, this`heard
      ensures Snapshot() == Aged(cfg, old(Snapshot()))
    {
      var alive := heard;
      heard := false;
      if alive || expireTo == 0 {
        expireTo := cfg.budget;
        tries := 0;
        under := false;
      } else {
        expireTo := expireTo - 1;
      }
    }

    // The check by tearing down agreements.
    method Watch(cfg: Config)
      modifies this`expireTo, this`under, this`agg, this`cand
      ensures Snapshot() == Torn(cfg, old(Snapshot()))
    {
      if ht && (agg != {} || under) {
        if expireTo <= (cfg.budget - 50) % WIDTH {
          under := false;
          expireTo := 0;
        } else if expireTo <= (cfg.budget - 3) % WIDTH && !under {
          under := true;
          agg := {};
          cand := {};
        }
      }
    }

    method Settle()
      modifies this`tries, this`aliveChk
      ensures Snapshot() == Settled(old(Snapshot()))
    {
      if tries > 0 && tries <= MAX_TRIES {
        if aliveChk {
          aliveChk := false;
        } else {
          tries := 0;
        }
      } else if tries > MAX_TRIES && !aliveChk {
        tries := 0;
      }
    }

    // The request for an agreement; the result says that one was made.
    method Ask() returns (asked: bool)
      modifies this`expireTo, this`tries, this`aliveChk, this`cand
      ensures asked == Asks(old(Snapshot()))
      ensures Snapshot() == if asked then Asked(old(Snapshot())) else old(Snapshot())
    {
      asked := false;
      if ampdu {
        if BK !in cand {
          if !aliveChk {
            cand := cand + {BK};
            if asleep {
              expireTo := 2;
            } else {
              expireTo := 1;
            }
            aliveChk := true;
            tries := tries + 1;
            asked := true;
          }
        }
      }
    }

    // A spent budget: the result says that the station is listed to be dropped.
    method Judge(cfg: Config) returns (listed: bool)
      modifies this`expireTo, this`tries, this`aliveChk, this`cand
      ensures Judged(cfg, old(Snapshot())) == if listed && asoc then Gone else Kept(Snapshot())
    {
      listed := false;
      if cfg.wifiSpec {
        expireTo := cfg.budget;
        return;
      }
      Settle();
      var asked := Ask();
      if asked {
        return;
      }
      if tries > 0 && aliveChk {
        tries := 0;
        aliveChk := false;
      }
      if asleep {
        if !aliveChk {
          expireTo := cfg.budget;
          aliveChk := true;
          return;
        }
      }
      listed := true;
    }

    // One round of the ageing loop, and the association test of the check loop.
    method CheckExpiry(cfg: Config) returns (gone: bool)
      modifies this
      ensures Check(cfg, old(Snapshot())) == if gone then Gone else Kept(Snapshot())
    {
      Age(cfg);
      Watch(cfg);
      gone := false;
      if expireTo <= 0 {
        var listed := Judge(cfg);
        gone := listed && asoc;
      }
    }

    // A PS-Poll, or the end of a sleep: the mark is taken back.
    method Vouch(cfg: Config)
      modifies this`expireTo, this`aliveChk
      ensures Snapshot() == Alive(cfg, old(Snapshot()))
    {
      if aliveChk {
        expireTo := cfg.budget;
        aliveChk := false;
      }
    }

    // An ADDBA response.
    method TakeAnswer(cfg: Config, tid: nat, accepted: bool)
      modifies this`expireTo, this`aliveChk, this`agg, this`cand
      ensures Step(cfg, old(Snapshot()), Answer(tid, accepted)) == Kept(Snapshot())
    {
      if accepted {
        agg := agg + {tid};
        cand := cand - {tid};
      } else {
        agg := agg - {tid};
      }
      if aliveChk {
        agg := agg - {tid};
        Vouch(cfg);
      }
      assert old(agg) + {tid} - {tid} == old(agg) - {tid} && old(agg) - {tid} - {tid} == old(agg) - {tid};
    }
  }
}
