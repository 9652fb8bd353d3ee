/**
 * How the soft AP reads what stations say, and how stations read its beacon:
 * each flag and each bit on its own, over every run.
 */
module ApReadings {
  import opened StaCounters

  // ------------------------------------------------------------------
  // What a coexistence frame says
  // ------------------------------------------------------------------

  // The body a station sends: category and action, the 20/40 BSS Coexistence
  // element, and the channels it reports, under one operating class, if any.
  function CoexFrame(intolerant: bool, width: bool, others: bv8, class_: bv8, channels: seq<bv8>): seq<bv8>
    requires |channels| < 255
  {
    var octet := others | (if intolerant then 2 else 0) | (if width then 4 else 0);
    [4, 0, 72, 1, octet] + if channels == [] then [] else [73, (|channels| + 1) as bv8, class_] + channels
  }

  lemma CoexOctet(intolerant: bool, width: bool, others: bv8)
    requires others & 6 == 0
    ensures var octet := others | (if intolerant then 2 else 0) | (if width then 4 else 0);
            (octet & 2 != 0 <==> intolerant) && (octet & 4 != 0 <==> width)
  {
  }

  lemma CoexRead(intolerant: bool, width: bool, others: bv8, class_: bv8, channels: seq<bv8>)
    requires others & 6 == 0 && |channels| < 255
    ensures var body := CoexFrame(intolerant, width, others, class_, channels);
            && (AsksIntolerant(body) <==> intolerant)
            && (AsksWidth(body) <==> width && !intolerant)
            && (ReportsChannels(body) <==> channels != [])
  {
    CoexOctet(intolerant, width, others);
  }

  /**
   * A station's coexistence frame is read as it was sent: intolerance marks the
   * station, and is counted once; a request for 20 MHz without it, and a channel
   * report, are noted; nothing else about the stations changes; and what is
   * news goes on the air at once.
   */
  lemma CoexMeans(cfg: Config, s: State, m: Mac, intolerant: bool, width: bool, others: bv8, class_: bv8, channels: seq<bv8>)
    requires m in s.book.stas && others & 6 == 0 && |channels| < 255
    ensures var t := Apply(cfg, s, Coex(m, CoexFrame(intolerant, width, others, class_, channels)));
            var was := s.book.stas[m];
            && t.book.stas == s.book.stas[m := if intolerant then was + {Intolerant40} else was]
            && Of(t.book.num, Intolerant40) == Of(s.book.num, Intolerant40) + (if intolerant && Intolerant40 !in was then 1 else 0)
            && (forall f: Flag | f != Intolerant40 :: Of(t.book.num, f) == Of(s.book.num, f))
            && (t.widthReq <==> s.widthReq || (width && !intolerant))
            && (t.reported <==> s.reported || channels != [])
            && (cfg.started && (t.book.stas != s.book.stas || t.widthReq != s.widthReq || t.reported != s.reported) ==>
                  t.air == t.beacon)
            && (t.book.stas == s.book.stas && t.widthReq == s.widthReq && t.reported == s.reported ==>
                  t.beacon == s.beacon && t.air == s.air && t.narrow == s.narrow)
  {
    var body := CoexFrame(intolerant, width, others, class_, channels);
    CoexRead(intolerant, width, others, class_, channels);
    CoexBook(s.book, m, body);
    if intolerant && Intolerant40 in s.book.stas[m] {
      assert s.book.stas[m] + {Intolerant40} == s.book.stas[m];
    }
  }

  lemma CoexBook(b: Book, m: Mac, body: seq<bv8>)
    requires m in b.stas
    ensures var r, on := Do(b, m, CoexMoves(body)), AsksIntolerant(body);
            && r.stas == b.stas[m := if on then b.stas[m] + {Intolerant40} else b.stas[m]]
            && Of(r.num, Intolerant40) == Of(b.num, Intolerant40) + (if on && Intolerant40 !in b.stas[m] then 1 else 0)
            && forall f: Flag | f != Intolerant40 :: Of(r.num, f) == Of(b.num, f)
  {
    var r := Do(b, m, CoexMoves(body));
    assert r.stas[m] == if AsksIntolerant(body) then b.stas[m] + {Intolerant40} else b.stas[m];
  }

  // Other elements in their places say nothing, nor do strangers.
  lemma OthersIgnored(cfg: Config, s: State, m: Mac, body: seq<bv8>, caps: Caps, tim: bool)
    ensures |body| > 4 && (body[2] != 72 || body[3] == 0) ==> !AsksIntolerant(body) && !AsksWidth(body)
    ensures |body| <= 8 || body[5] != 73 || body[6] == 0 ==> !ReportsChannels(body)
    ensures m !in s.book.stas ==>
              Apply(cfg, s, Coex(m, body)) == Apply(cfg, s, Join(m, caps)) == Apply(cfg, s, Leave(m, tim)) == s
  {
  }

  // ------------------------------------------------------------------
  // What the flags of a station mean
  // ------------------------------------------------------------------

  // Whether a flag follows from what a station says as it associates; details
  // of HT are only taken up, never taken back, and only with HT on.
  predicate Follows(htAllowed: bool, caps: Caps, f: Flag, was: bool) {
    match f
    case NoShortPreamble => !caps.shortPreamble
    case NonErp => caps.nonErp
    case NoShortSlot => !caps.shortSlot
    case NoHt => if htAllowed then !caps.ht else was
    case NoGf => was || (htAllowed && caps.ht && !caps.greenfield)
    case Ht20 => was || (htAllowed && caps.ht && !caps.width40)
    case Intolerant40 => was || (htAllowed && caps.ht && caps.intolerant40)
  }

  // The stations known and the flags of each, by what was said since.
  ghost function Known(cfg: Config, s: State, es: seq<Event>): set<Mac> {
    if es == [] then s.book.stas.Keys
    else
      var before := Known(cfg, s, es[..|es| - 1]);
      match es[|es| - 1]
      case Auth(m) => before + {m}
      case Free(m) => before - {m}
      case _ => before
  }

  ghost predicate Marked(cfg: Config, s: State, es: seq<Event>, m: Mac, f: Flag) {
    if es == [] then m in s.book.stas && f in s.book.stas[m]
    else
      var front := es[..|es| - 1];
      var was := Marked(cfg, s, front, m, f);
      match es[|es| - 1]
      case Join(n, caps) => if n == m && m in Known(cfg, s, front) then Follows(cfg.htAllowed, caps, f, was) else was
      case Leave(n, _) => was && n != m
      case Free(n) => was && n != m
      case Coex(n, body) => was || (n == m && m in Known(cfg, s, front) && f == Intolerant40 && AsksIntolerant(body))
      case _ => was
  }

  lemma JoinFlags(b: Book, m: Mac, htAllowed: bool, caps: Caps, f: Flag)
    requires m in b.stas
    ensures f in Do(b, m, JoinMoves(htAllowed, caps)).stas[m] <==> Follows(htAllowed, caps, f, f in b.stas[m])
  {
    JoinMove(htAllowed, caps, f, f in b.stas[m]);
  }

  lemma JoinMove(htAllowed: bool, caps: Caps, f: Flag, was: bool)
    ensures var xs := JoinMoves(htAllowed, caps);
            (if f in xs then xs[f] else was) <==> Follows(htAllowed, caps, f, was)
  {
    var legacy := LegacyMoves(!caps.shortPreamble, caps.nonErp, !caps.shortSlot);
    if htAllowed {
      HtMove(caps, f, was);
    }
    assert f in legacy <==> f == NoShortPreamble || f == NonErp || f == NoShortSlot;
  }

  lemma HtMove(caps: Caps, f: Flag, was: bool)
    ensures var xs := HtMoves(caps);
            if f == NoShortPreamble || f == NonErp || f == NoShortSlot then f !in xs
            else (if f in xs then xs[f] else was) <==> Follows(true, caps, f, was)
  {
  }

  lemma LeaveFlags(b: Book, m: Mac, f: Flag)
    requires m in b.stas
    ensures f !in Do(b, m, LeaveMoves()).stas[m]
  {
    LeaveClears(b, m);
  }

  lemma StepFlags(cfg: Config, s: State, e: Event, m: Mac, f: Flag)
    ensures var t := Apply(cfg, s, e);
            var was := m in s.book.stas && f in s.book.stas[m];
            && t.book.stas.Keys == (match e case Auth(n) => s.book.stas.Keys + {n}
                                            case Free(n) => s.book.stas.Keys - {n}
                                            case _ => s.book.stas.Keys)
            && (m in t.book.stas && f in t.book.stas[m] <==>
                match e
                case Join(n, caps) => if n == m && m in s.book.stas then Follows(cfg.htAllowed, caps, f, was) else was
                case Leave(n, _) => was && n != m
                case Free(n) => was && n != m
                case Coex(n, body) => was || (n == m && m in s.book.stas && f == Intolerant40 && AsksIntolerant(body))
                case _ => was)
  {
    BookOf(cfg, s, e);
    match e
    case Join(n, caps) => if n in s.book.stas { JoinFlags(s.book, n, cfg.htAllowed, caps, f); }
    case Leave(n, _) => if n in s.book.stas { LeaveFlags(s.book, n, f); }
    case Coex(n, body) => if n in s.book.stas { CoexFlags(s.book, n, body, f); }
    case _ =>
  }

  lemma CoexFlags(b: Book, m: Mac, body: seq<bv8>, f: Flag)
    requires m in b.stas
    ensures f in Do(b, m, CoexMoves(body)).stas[m] <==> f in b.stas[m] || (f == Intolerant40 && AsksIntolerant(body))
  {
  }

  /**
   * Over every run, each flag of each station is set exactly when what it said
   * last makes it so; a station is known exactly from its authentication to its
   * release.
   */
  lemma {:induction false} FlagsOverRuns(cfg: Config, s: State, es: seq<Event>, m: Mac, f: Flag)
    ensures var t := Run(cfg, s, es);
            t.book.stas.Keys == Known(cfg, s, es) && (m in t.book.stas && f in t.book.stas[m] <==> Marked(cfg, s, es, m, f))
  {
    if es != [] {
      var front := es[..|es| - 1];
      FlagsOverRuns(cfg, s, front, m, f);
      StepFlags(cfg, Run(cfg, s, front), es[|es| - 1], m, f);
    }
  }

  // ------------------------------------------------------------------
  // When the beacon is sent again
  // ------------------------------------------------------------------

  // A count goes from none to one, or from one to none.
  predicate Tips(s: State, m: Mac, f: Flag, set_: bool)
    requires m in s.book.stas
  {
    if set_ then f !in s.book.stas[m] && Of(s.book.num, f) == 0 else f in s.book.stas[m] && Of(s.book.num, f) == 1
  }

  /**
   * A join hands the beacon over when it tips the count of non-ERP stations, or,
   * beyond 802.11b, of those without short preamble or slot, or changes the
   * operation mode; otherwise what is on the air stays.
   */
  lemma JoinSends(cfg: Config, s: State, m: Mac, caps: Caps)
    requires cfg.started && m in s.book.stas
    ensures var t := Apply(cfg, s, Join(m, caps));
            if || Tips(s, m, NonErp, caps.nonErp)
               || (cfg.beyond11b && (Tips(s, m, NoShortPreamble, !caps.shortPreamble) || Tips(s, m, NoShortSlot, !caps.shortSlot)))
               || t.op != s.op
            then t.air == t.beacon else t.air == s.air
  {
  }

  // A leave does for the three counts and for a TIM bit that was set, but not for the mode.
  lemma LeaveSends(cfg: Config, s: State, m: Mac, tim: bool)
    requires cfg.started && m in s.book.stas
    ensures var t := Apply(cfg, s, Leave(m, tim));
            if || tim || Tips(s, m, NonErp, false)
               || (cfg.beyond11b && (Tips(s, m, NoShortPreamble, false) || Tips(s, m, NoShortSlot, false)))
            then t.air == t.beacon else t.air == s.air
  {
  }

  // ------------------------------------------------------------------
  // The watchdog's period
  // ------------------------------------------------------------------

  function Quiet(n: nat): (es: seq<Event>)
    ensures |es| == n && forall i | 0 <= i < n :: es[i] == Watchdog
  {
    seq(n, _ => Watchdog)
  }

  // Between two updates nothing changes but the counter.
  lemma {:induction false} QuietWaits(cfg: Config, s: State, n: nat)
    requires cfg.wifiSpec && cfg.htAllowed && cfg.started && !s.legacy && 1 <= s.ticks <= 10 && s.ticks + n <= 10
    ensures Run(cfg, s, Quiet(n)) == s.(ticks := s.ticks + n)
  {
    if n > 0 {
      assert Quiet(n)[..n - 1] == Quiet(n - 1);
      QuietWaits(cfg, s, n - 1);
    }
  }

  /**
   * With no legacy network about, the mode is brought up to date at exactly the
   * watchdog call at which the counter stands at ten, and every ninth from then
   * on, although the code speaks of ten; nothing happens in between.
   */
  lemma QuietPeriod(cfg: Config, s: State, n: nat)
    requires cfg.wifiSpec && cfg.htAllowed && cfg.started && cfg.htOption && !s.legacy && 1 <= s.ticks <= 10
    ensures n <= 10 - s.ticks ==> Run(cfg, s, Quiet(n)) == s.(ticks := s.ticks + n)
    ensures n == 11 - s.ticks ==>
              var t := Run(cfg, s, Quiet(n));
              && HtExact(cfg, t) && t.ticks == 2 && !t.legacy
              && if t.op == s.op then t == s.(ticks := 2) else t.air == t.beacon
  {
    if n <= 10 - s.ticks {
      QuietWaits(cfg, s, n);
    } else if n == 11 - s.ticks {
      assert Quiet(n)[..n - 1] == Quiet(n - 1);
      QuietWaits(cfg, s, n - 1);
      TenthCall(cfg, s.(ticks := 10));
    }
  }

  lemma TenthCall(cfg: Config, s: State)
    requires cfg.wifiSpec && cfg.htAllowed && cfg.started && cfg.htOption && !s.legacy && s.ticks == 10
    ensures var t := WatchdogStep(cfg, s);
            && HtExact(cfg, t) && t.ticks == 2 && !t.legacy
            && if t.op == s.op then t == s.(ticks := 2) else t.air == t.beacon
  {
    SyncExact(cfg, s);
  }

  lemma SyncExact(cfg: Config, s: State)
    requires cfg.htOption
    ensures var t := SyncAndSend(cfg, s); HtExact(cfg, t) && if t.op == s.op then t == s else cfg.started ==> t.air == t.beacon
  {
  }

  // A legacy network is taken up by the mode and forgotten, at once.
  lemma LegacyTakenUp(cfg: Config, s: State)
    requires cfg.wifiSpec && cfg.htAllowed && cfg.started && cfg.htOption && s.legacy
    ensures var t := Apply(cfg, s, Watchdog);
            !t.legacy && t.ticks == 1 && HtExact(cfg, t.(legacy := true)) && (t.op != s.op ==> t.air == t.beacon)
  {
    SyncExact(cfg, s);
  }

  // ------------------------------------------------------------------
  // The bits of the beacon
  // ------------------------------------------------------------------

  /**
   * On conserved counters, the two bits of the operation mode as a station reads
   * them: 0 for HT stations alone, 1 for legacy networks about, 2 for 20 MHz
   * stations in a 40 MHz BSS, 3 for legacy stations in the BSS.
   */
  lemma ModeBits(cfg: Config, s: State)
    requires Conserved(s.book) && HtExact(cfg, s)
    ensures var noHt := exists m :: m in s.book.stas && NoHt in s.book.stas[m];
            var ht20 := cfg.apWidth40 && exists m :: m in s.book.stas && Ht20 in s.book.stas[m];
            && (1 in s.op <==> noHt || ht20)
            && (0 in s.op <==> noHt || (s.legacy && !ht20))
  {
    PositiveMeansHeld(s.book, NoHt);
    PositiveMeansHeld(s.book, Ht20);
    assert 0 in s.op <==> 0 in s.op * OP_MODE_MASK;
    assert 1 in s.op <==> 1 in s.op * OP_MODE_MASK;
  }

  // The width bits show the state: all clear at 20 MHz, and otherwise any width,
  // with the secondary channel above or below.
  predicate ShowsWidth(cfg: Config, s: State) {
    s.beacon.ht.Some? &&
    var info := s.beacon.ht.value.info;
    if s.narrow then 0 !in info && 1 !in info && 2 !in info
    else 0 in info && 2 in info && (1 in info <==> !cfg.above)
  }

  // Bits the code has no business with.
  predicate SameRest(s: State, t: State) {
    && (s.beacon.erp.Some? <==> t.beacon.erp.Some?) && (s.beacon.ht.Some? <==> t.beacon.ht.Some?)
    && (s.beacon.erp.Some? ==> s.beacon.erp.value - {0, 1, 2} == t.beacon.erp.value - {0, 1, 2})
    && (s.beacon.ht.Some? ==> s.beacon.ht.value.info - {0, 1, 2} == t.beacon.ht.value.info - {0, 1, 2})
    && s.op - {0, 1, 2, 4} == t.op - {0, 1, 2, 4}
  }

  lemma ErpRest(cfg: Config, s: State)
    ensures SameRest(s, RefreshErp(cfg, s)) && (ShowsWidth(cfg, s) ==> ShowsWidth(cfg, RefreshErp(cfg, s)))
  {
  }

  lemma HtRest(cfg: Config, s: State)
    ensures SameRest(s, RefreshHt(cfg, s)) && (cfg.below15 && ShowsWidth(cfg, s) ==> ShowsWidth(cfg, RefreshHt(cfg, s)))
  {
  }

  lemma ModeRest(cfg: Config, s: State)
    ensures SameRest(s, HtUpdate(cfg, s)) && (ShowsWidth(cfg, s) ==> ShowsWidth(cfg, HtUpdate(cfg, s)))
  {
  }

  predicate Tidy(cfg: Config, s: State, t: State) {
    SameRest(s, t) && (cfg.below15 && ShowsWidth(cfg, s) ==> ShowsWidth(cfg, t))
  }

  lemma SyncTidy(cfg: Config, s: State)
    ensures Tidy(cfg, s, HtSync(cfg, s))
  {
    ModeRest(cfg, s);
    HtRest(cfg, HtUpdate(cfg, s));
  }

  lemma PublishTidy(cfg: Config, s: State, b: Book, erp: bool, told: bool, ht: bool, tellHt: bool)
    ensures Tidy(cfg, s, Publish(cfg, s, b, erp, told, ht, tellHt))
  {
    var t := s.(book := b);
    ErpRest(cfg, t);
    SyncTidy(cfg, if erp then RefreshErp(cfg, t) else t);
  }

  lemma CoexTidy(cfg: Config, s: State, m: Mac, body: seq<bv8>)
    requires m in s.book.stas
    ensures Tidy(cfg, s, CoexStep(cfg, s, m, body))
  {
    HtRest(cfg, CoexTaken(s, m, body));
  }

  lemma WatchTidy(cfg: Config, s: State)
    ensures Tidy(cfg, s, WatchdogStep(cfg, s))
  {
    SyncTidy(cfg, s);
  }

  lemma StartTidy(cfg: Config, s: State)
    ensures Tidy(cfg, s, StartStep(cfg, s))
  {
    HtRest(cfg, s.(op := (s.op - OP_MODE_MASK) + MAY_BE_LEGACY));
  }

  lemma StepTidy(cfg: Config, s: State, e: Event)
    ensures Tidy(cfg, s, Apply(cfg, s, e))
  {
    match e
    case Join(m, caps) =>
      if m in s.book.stas {
        PublishTidy(cfg, s, Do(s.book, m, JoinMoves(cfg.htAllowed, caps)), Crosses(caps.nonErp, s.book, m, NonErp),
                    Notable(cfg, s.book, m, !caps.shortPreamble, caps.nonErp, !caps.shortSlot), cfg.htAllowed, true);
      }
    case Leave(m, tim) =>
      if m in s.book.stas {
        PublishTidy(cfg, s, Do(s.book, m, LeaveMoves()), Crosses(false, s.book, m, NonErp),
                    tim || Notable(cfg, s.book, m, false, false, false), true, false);
      }
    case Coex(m, body) => if m in s.book.stas { CoexTidy(cfg, s, m, body); }
    case Watchdog => WatchTidy(cfg, s);
    case ApStart => StartTidy(cfg, s);
    case _ =>
  }

  /**
   * Over every run the bits of the ERP octet, the HT information octet and the
   * mode word that are none of the code's concern stay as they were; and, on
   * channels up to 14, the width bits show the state, going down and coming back.
   */
  lemma {:induction false} BitsOverRuns(cfg: Config, s: State, es: seq<Event>)
    ensures SameRest(s, Run(cfg, s, es))
    ensures cfg.below15 && ShowsWidth(cfg, s) ==> ShowsWidth(cfg, Run(cfg, s, es))
  {
    if es != [] {
      BitsOverRuns(cfg, s, es[..|es| - 1]);
      StepTidy(cfg, Run(cfg, s, es[..|es| - 1]), es[|es| - 1]);
    }
  }

  // A refresh comes back to 40 MHz exactly when nothing asks for 20 any more
  // and the AP has 40 MHz to come back to; and goes down exactly on channels up
  // to 14, when something does.
  lemma WidthMovesExactly(cfg: Config, s: State)
    requires cfg.started && cfg.htOption && cfg.htInfoEnable && s.beacon.ht.Some? && Of(s.book.num, Intolerant40) >= 0
    ensures var t := RefreshHt(cfg, s);
            var old_, info := s.beacon.ht.value.info, t.beacon.ht.value.info;
            var asked := Of(s.book.num, Intolerant40) > 0 || s.widthReq || s.reported || s.legacy;
            && t.beacon.ht.value.op == s.op
            && (s.narrow && !asked && cfg.bw40 ==> !t.narrow && 0 in info && 2 in info && (1 in info <==> !cfg.above))
            && (s.narrow && !(!asked && cfg.bw40) ==> t.narrow && info == old_)
            && (!s.narrow && cfg.below15 ==>
                  if asked then t.narrow && 0 !in info && 1 !in info && 2 !in info else !t.narrow && info == old_)
            && (!s.narrow && !cfg.below15 ==>
                  !t.narrow && if !asked && cfg.bw40 then 0 in info && 2 in info && (1 in info <==> !cfg.above) else info == old_)
  {
  }

  // ------------------------------------------------------------------
  // What is left alone
  // ------------------------------------------------------------------

  // Before the start nothing is shown or sent; with ERP off the octet stays.
  predicate Untouched(cfg: Config, s: State, t: State) {
    && (!cfg.started ==> t.beacon == s.beacon && t.air == s.air && t.narrow == s.narrow)
    && (!cfg.started || !cfg.erpEnable ==> t.beacon.erp == s.beacon.erp)
    && (!cfg.htOption ==> t.op == s.op)
    && (!cfg.below15 && !s.narrow ==> !t.narrow)
  }

  lemma PublishUntouched(cfg: Config, s: State, b: Book, erp: bool, told: bool, ht: bool, tellHt: bool)
    ensures Untouched(cfg, s, Publish(cfg, s, b, erp, told, ht, tellHt))
  {
  }

  lemma CoexUntouched(cfg: Config, s: State, m: Mac, body: seq<bv8>)
    requires m in s.book.stas
    ensures Untouched(cfg, s, CoexStep(cfg, s, m, body))
  {
  }

  lemma WatchUntouched(cfg: Config, s: State)
    ensures Untouched(cfg, s, WatchdogStep(cfg, s))
  {
  }

  lemma StepUntouched(cfg: Config, s: State, e: Event)
    requires !e.ApStart?
    ensures Untouched(cfg, s, Apply(cfg, s, e))
  {
    match e
    case Join(m, caps) =>
      if m in s.book.stas {
        PublishUntouched(cfg, s, Do(s.book, m, JoinMoves(cfg.htAllowed, caps)), Crosses(caps.nonErp, s.book, m, NonErp),
                         Notable(cfg, s.book, m, !caps.shortPreamble, caps.nonErp, !caps.shortSlot), cfg.htAllowed, true);
      }
    case Leave(m, tim) =>
      if m in s.book.stas {
        PublishUntouched(cfg, s, Do(s.book, m, LeaveMoves()), Crosses(false, s.book, m, NonErp),
                         tim || Notable(cfg, s.book, m, false, false, false), true, false);
      }
    case Coex(m, body) => if m in s.book.stas { CoexUntouched(cfg, s, m, body); }
    case Watchdog => WatchUntouched(cfg, s);
    case _ =>
  }

  /**
   * Over every run without a start of the BSS: an AP that has not started shows
   * and sends nothing new, one with ERP off never touches the ERP octet, one
   * with HT off never touches the mode, and above channel 14 nothing makes it
   * go to 20 MHz.
   */
  lemma {:induction false} UntouchedOverRuns(cfg: Config, s: State, es: seq<Event>)
    requires forall i | 0 <= i < |es| :: !es[i].ApStart?
    ensures Untouched(cfg, s, Run(cfg, s, es))
  {
    if es != [] {
      UntouchedOverRuns(cfg, s, es[..|es| - 1]);
      StepUntouched(cfg, Run(cfg, s, es[..|es| - 1]), es[|es| - 1]);
    }
  }

  // A join on an AP without HT leaves the mode alone.
  lemma JoinWithoutHt(cfg: Config, s: State, m: Mac, caps: Caps)
    requires !cfg.htAllowed
    ensures Apply(cfg, s, Join(m, caps)).op == s.op
  {
  }

  /**
   * Whatever the counters say at first, covered or not: the count of intolerant
   * stations never falls below zero, and the leave of a marked station that is
   * not counted is what raises the warning.
   */
  lemma {:induction false} IntolerantNeverNegative(cfg: Config, s: State, es: seq<Event>)
    requires Of(s.book.num, Intolerant40) >= 0
    ensures Of(Run(cfg, s, es).book.num, Intolerant40) >= 0
  {
    if es != [] {
      var front := es[..|es| - 1];
      IntolerantNeverNegative(cfg, s, front);
      StepNotNegative(cfg, Run(cfg, s, front), es[|es| - 1]);
    }
  }

  lemma StepNotNegative(cfg: Config, s: State, e: Event)
    requires Of(s.book.num, Intolerant40) >= 0
    ensures Of(Apply(cfg, s, e).book.num, Intolerant40) >= 0
  {
    BookOf(cfg, s, e);
    match e
    case Join(m, caps) => if m in s.book.stas { DoNotNegative(s.book, m, JoinMoves(cfg.htAllowed, caps)); }
    case Leave(m, _) => if m in s.book.stas { DoNotNegative(s.book, m, LeaveMoves()); }
    case Coex(m, body) => if m in s.book.stas { DoNotNegative(s.book, m, CoexMoves(body)); }
    case _ =>
  }

  lemma DoNotNegative(b: Book, m: Mac, xs: Moves)
    requires m in b.stas && Of(b.num, Intolerant40) >= 0
    ensures Of(Do(b, m, xs).num, Intolerant40) >= 0
  {
  }

  lemma LeaveWarnsExactly(cfg: Config, s: State, m: Mac, tim: bool)
    requires m in s.book.stas
    ensures Apply(cfg, s, Leave(m, tim)).book.warned <==>
              s.book.warned || (Intolerant40 in s.book.stas[m] && Of(s.book.num, Intolerant40) <= 0)
  {
    BookOf(cfg, s, Leave(m, tim));
  }
}
