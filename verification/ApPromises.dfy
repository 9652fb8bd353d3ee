/**
 * What the soft AP's beacon promises beyond protection: the Barker bit, the
 * operation mode, the beacon on the air, the channel width.  None of them
 * survives every step; for each the steps that break it are given exactly, and
 * with that the runs over which it holds throughout.
 */
module ApPromises {
  import opened StaCounters

  datatype Promise = Barker | Mode | OnAir | Width

  predicate Holds(cfg: Config, p: Promise, s: State) {
    match p
    case Barker => BarkerShows(s)
    case Mode => HtExact(cfg, s)
    case OnAir => s.air.ht == s.beacon.ht
    case Width => WidthCurrent(s)
  }

  // HT on, with a beacon whose HT Operation element is maintained.
  predicate Shown(cfg: Config) {
    cfg.started && cfg.htOption && cfg.htInfoEnable
  }

  // Where the promise is made.
  ghost predicate Made(cfg: Config, p: Promise, s: State) {
    match p
    case Barker => cfg.started && cfg.erpEnable && Covered(s.book)
    case Mode => cfg.htOption
    case OnAir => Shown(cfg) ==> HtFollows(s)
    case Width => WidthManaged(cfg, s) && Covered(s.book)
  }

  // What has to be so before the step for the promise to survive it.
  predicate Kept(cfg: Config, p: Promise, s: State, e: Event) {
    match p
    case Barker => BarkerKept(s, e)
    case Mode => ModeKept(cfg, s, e)
    case OnAir => AirKept(cfg, s, e)
    case Width => WidthKept(cfg, s, e)
  }

  // The long-preamble count crosses only together with the non-ERP count.
  predicate BarkerKept(s: State, e: Event) {
    match e
    case Join(m, caps) => m in s.book.stas ==> Paired(s.book, m, !caps.shortPreamble, caps.nonErp)
    case Leave(m, _) => m in s.book.stas ==> Paired(s.book, m, false, false)
    case _ => true
  }

  predicate Paired(b: Book, m: Mac, noPreamble: bool, nonErp: bool)
    requires m in b.stas
  {
    Crosses(noPreamble, b, m, NoShortPreamble) ==> Crosses(nonErp, b, m, NonErp)
  }

  // What is learned about the neighbourhood, or forgotten, makes no difference.
  predicate ModeKept(cfg: Config, s: State, e: Event) {
    var noHt := Of(s.book.num, NoHt) != 0;
    match e
    case AfterScan(found) => !noHt && (found ==> s.legacy)
    case LegacySeen => s.legacy || noHt
    case ApStart => cfg.started && s.legacy ==> !noHt && !(cfg.apWidth40 && Of(s.book.num, Ht20) != 0)
    case Watchdog => Watches(cfg) && s.legacy ==> noHt
    case _ => true
  }

  predicate Watches(cfg: Config) {
    cfg.wifiSpec && cfg.htAllowed && cfg.started
  }

  // A leave changes the mode only where something else has the beacon resent.
  predicate AirKept(cfg: Config, s: State, e: Event) {
    match e
    case Leave(m, tim) =>
      Shown(cfg) && m in s.book.stas && Shifts(cfg, s, Do(s.book, m, LeaveMoves())) ==>
        tim || Notable(cfg, s.book, m, false, false, false)
    case _ => true
  }

  // The demand for 20 MHz changes only where the mode does too.
  predicate WidthKept(cfg: Config, s: State, e: Event) {
    match e
    case Join(m, caps) =>
      m in s.book.stas && FirstToAsk(cfg, s, m, caps) ==>
        Shifts(cfg, s, Do(s.book, m, JoinMoves(cfg.htAllowed, caps)))
    case Leave(m, _) =>
      m in s.book.stas && LastToAsk(s, m) ==> Shifts(cfg, s, Do(s.book, m, LeaveMoves()))
    case AfterScan(found) => found ==> Restricted(s)
    case LegacySeen => Restricted(s)
    case Watchdog => Watches(cfg) && s.legacy ==> Restricted(s.(legacy := false))
    case _ => true
  }

  // The station asks for 20 MHz as it joins, and nothing did before.
  predicate FirstToAsk(cfg: Config, s: State, m: Mac, caps: Caps)
    requires m in s.book.stas
  {
    cfg.htAllowed && caps.ht && caps.intolerant40 && Intolerant40 !in s.book.stas[m] && !Restricted(s)
  }

  // ------------------------------------------------------------------
  // The Barker bit
  // ------------------------------------------------------------------

  lemma SignExactly(c: bool, b: Book, m: Mac, f: Flag)
    requires m in b.stas && Drift(b, f) >= 0 && f != Intolerant40
    ensures (Moved(b, m, f, c) > 0 <==> Of(b.num, f) > 0) <==> !Crosses(c, b, m, f)
  {
    if f in b.stas[m] {
      HeldIsCounted(b, m, f);
    }
  }

  lemma LeaveBarker(cfg: Config, s: State, m: Mac, tim: bool)
    requires Made(cfg, Barker, s) && m in s.book.stas && BarkerShows(s)
    ensures BarkerShows(LeaveStep(cfg, s, m, tim)) <==> Paired(s.book, m, false, false)
  {
    var b := Do(s.book, m, LeaveMoves());
    assert Of(b.num, NoShortPreamble) == Moved(s.book, m, NoShortPreamble, false);
    SignExactly(false, s.book, m, NoShortPreamble);
    PublishBarker(cfg, s, b, Crosses(false, s.book, m, NonErp),
                  tim || Notable(cfg, s.book, m, false, false, false), true, false);
  }

  lemma BarkerStep(cfg: Config, s: State, e: Event)
    requires Made(cfg, Barker, s) && BarkerShows(s)
    ensures BarkerShows(Apply(cfg, s, e)) <==> BarkerKept(s, e)
  {
    match e
    case Join(m, caps) =>
      if m in s.book.stas {
        BarkerExactly(cfg, s, m, caps);
        SignExactly(!caps.shortPreamble, s.book, m, NoShortPreamble);
      }
    case Leave(m, tim) =>
      if m in s.book.stas {
        LeaveBarker(cfg, s, m, tim);
      }
    case Coex(m, body) =>
      if m in s.book.stas {
        assert Of(Do(s.book, m, CoexMoves(body)).num, NoShortPreamble) == Of(s.book.num, NoShortPreamble);
      }
    case _ =>
  }

  // ------------------------------------------------------------------
  // The operation mode
  // ------------------------------------------------------------------

  lemma ScanMode(cfg: Config, s: State, found: bool)
    requires HtExact(cfg, s)
    ensures HtExact(cfg, Apply(cfg, s, AfterScan(found))) <==> ModeKept(cfg, s, AfterScan(found))
  {
    var t := Apply(cfg, s, AfterScan(found));
    assert Of(t.book.num, NoHt) == 0 && Of(t.book.num, Ht20) == Of(s.book.num, Ht20) && Of(t.book.num, NoGf) == Of(s.book.num, NoGf);
    assert 0 in MIXED && 1 in MIXED && 0 !in SOME_20 && 1 !in MAY_BE_LEGACY && 1 !in PURE;
  }

  lemma StartMode(cfg: Config, s: State)
    requires HtExact(cfg, s)
    ensures HtExact(cfg, StartStep(cfg, s)) <==> ModeKept(cfg, s, ApStart)
  {
    var w := (s.op - OP_MODE_MASK) + MAY_BE_LEGACY;
    assert w * OP_MODE_MASK == MAY_BE_LEGACY && (2 in w <==> 2 in s.op) && (4 in w <==> 4 in s.op);
    assert 1 in MIXED && 1 in SOME_20 && 1 !in MAY_BE_LEGACY;
  }

  lemma SyncMode(cfg: Config, s: State)
    requires cfg.htOption && HtExact(cfg, s)
    ensures var t := SyncAndSend(cfg, s); t.op == s.op && t.legacy == s.legacy
  {
    SameWord(s.op, WantedMode(cfg, s), Of(s.book.num, NoGf) != 0, Of(s.book.num, NoHt) != 0 || s.legacy);
  }

  lemma WatchMode(cfg: Config, s: State)
    requires cfg.htOption && HtExact(cfg, s)
    ensures HtExact(cfg, WatchdogStep(cfg, s)) <==> ModeKept(cfg, s, Watchdog)
  {
    SyncMode(cfg, s);
    var t := WatchdogStep(cfg, s);
    assert t.op == s.op && t.book == s.book;
  }

  lemma ModeStep(cfg: Config, s: State, e: Event)
    requires cfg.htOption && HtExact(cfg, s)
    ensures HtExact(cfg, Apply(cfg, s, e)) <==> ModeKept(cfg, s, e)
  {
    match e
    case AfterScan(found) => ScanMode(cfg, s, found);
    case LegacySeen =>
    case ApStart => StartMode(cfg, s);
    case Watchdog => WatchMode(cfg, s);
    case _ => StepHt(cfg, s, e);
  }

  // ------------------------------------------------------------------
  // The beacon on the air
  // ------------------------------------------------------------------

  lemma AirStep(cfg: Config, s: State, e: Event)
    requires Made(cfg, OnAir, s) && s.air.ht == s.beacon.ht
    ensures var t := Apply(cfg, s, e); t.air.ht == t.beacon.ht <==> AirKept(cfg, s, e)
  {
    if Shown(cfg) {
      StepFollows(cfg, s, e);
      if e.Leave? && e.m in s.book.stas {
        LeaveOnAirExactly(cfg, s, e.m, e.tim);
      }
    } else {
      ElementStays(cfg, s, e);
    }
  }

  // No step adds or removes the HT Operation element, and where it is not
  // maintained it keeps its value.
  predicate Stays(cfg: Config, s: State, t: State) {
    && (t.beacon.ht.Some? <==> s.beacon.ht.Some?)
    && (!Shown(cfg) ==> t.beacon.ht == s.beacon.ht && (t.air.ht == s.air.ht || t.air.ht == t.beacon.ht))
  }

  lemma PublishStays(cfg: Config, s: State, b: Book, erp: bool, told: bool, ht: bool, tellHt: bool)
    ensures Stays(cfg, s, Publish(cfg, s, b, erp, told, ht, tellHt))
  {
  }

  lemma CoexStays(cfg: Config, s: State, m: Mac, body: seq<bv8>)
    requires m in s.book.stas
    ensures Stays(cfg, s, CoexStep(cfg, s, m, body))
  {
  }

  lemma ElementStays(cfg: Config, s: State, e: Event)
    ensures Stays(cfg, s, Apply(cfg, s, e))
  {
    match e
    case Join(m, caps) =>
      if m in s.book.stas {
        PublishStays(cfg, s, Do(s.book, m, JoinMoves(cfg.htAllowed, caps)), Crosses(caps.nonErp, s.book, m, NonErp),
                     Notable(cfg, s.book, m, !caps.shortPreamble, caps.nonErp, !caps.shortSlot), cfg.htAllowed, true);
      }
    case Leave(m, tim) =>
      if m in s.book.stas {
        PublishStays(cfg, s, Do(s.book, m, LeaveMoves()), Crosses(false, s.book, m, NonErp),
                     tim || Notable(cfg, s.book, m, false, false, false), true, false);
      }
    case Coex(m, body) => if m in s.book.stas { CoexStays(cfg, s, m, body); }
    case _ =>
  }

  // ------------------------------------------------------------------
  // The channel width
  // ------------------------------------------------------------------

  lemma JoinAsks(cfg: Config, s: State, m: Mac, caps: Caps)
    requires m in s.book.stas && Of(s.book.num, Intolerant40) >= 0
    ensures var b := Do(s.book, m, JoinMoves(cfg.htAllowed, caps));
            && Of(b.num, Intolerant40) >= 0
            && ((Restricted(s.(book := b)) <==> Restricted(s)) <==> !FirstToAsk(cfg, s, m, caps))
  {
    var xs := JoinMoves(cfg.htAllowed, caps);
    assert Intolerant40 in xs <==> cfg.htAllowed && caps.ht && caps.intolerant40;
    assert Intolerant40 in xs ==> xs[Intolerant40];
    var b := Do(s.book, m, xs);
    assert Of(b.num, Intolerant40) == if Intolerant40 in xs then Moved(s.book, m, Intolerant40, true) else Of(s.book.num, Intolerant40);
    assert FirstToAsk(cfg, s, m, caps) ==> Of(b.num, Intolerant40) > 0;
  }

  lemma JoinWidth(cfg: Config, s: State, m: Mac, caps: Caps)
    requires WidthManaged(cfg, s) && m in s.book.stas && Of(s.book.num, Intolerant40) >= 0 && WidthCurrent(s)
    ensures WidthCurrent(JoinStep(cfg, s, m, caps)) <==> WidthKept(cfg, s, Join(m, caps))
  {
    JoinAsks(cfg, s, m, caps);
    PublishWidthExactly(cfg, s, Do(s.book, m, JoinMoves(cfg.htAllowed, caps)), Crosses(caps.nonErp, s.book, m, NonErp),
                        Notable(cfg, s.book, m, !caps.shortPreamble, caps.nonErp, !caps.shortSlot), cfg.htAllowed, true);
  }

  lemma StartWidth(cfg: Config, s: State)
    requires WidthManaged(cfg, s) && Of(s.book.num, Intolerant40) >= 0 && WidthCurrent(s)
    ensures WidthCurrent(StartStep(cfg, s))
  {
    RefreshDecidesWidth(cfg, s.(op := (s.op - OP_MODE_MASK) + MAY_BE_LEGACY));
  }

  lemma SyncWidth(cfg: Config, s: State)
    requires WidthManaged(cfg, s) && Of(s.book.num, Intolerant40) >= 0 && WidthCurrent(s)
    ensures var t := SyncAndSend(cfg, s);
            t.narrow == s.narrow && t == s.(op := t.op, beacon := t.beacon, air := t.air, narrow := t.narrow)
  {
    RefreshDecidesWidth(cfg, HtUpdate(cfg, s));
  }

  lemma WatchWidth(cfg: Config, s: State)
    requires WidthManaged(cfg, s) && Of(s.book.num, Intolerant40) >= 0 && WidthCurrent(s)
    ensures WidthCurrent(WatchdogStep(cfg, s)) <==> WidthKept(cfg, s, Watchdog)
  {
    SyncWidth(cfg, s);
  }

  lemma WidthStep(cfg: Config, s: State, e: Event)
    requires Made(cfg, Width, s) && WidthCurrent(s)
    ensures WidthCurrent(Apply(cfg, s, e)) <==> WidthKept(cfg, s, e)
  {
    assert Drift(s.book, Intolerant40) >= 0;
    match e
    case Join(m, caps) => if m in s.book.stas { JoinWidth(cfg, s, m, caps); }
    case Leave(m, tim) => if m in s.book.stas { LeaveWidthExactly(cfg, s, m, tim); }
    case Coex(m, body) => if m in s.book.stas { CoexKeepsWidth(cfg, s, m, body); }
    case AfterScan(_) =>
    case LegacySeen =>
    case ApStart => StartWidth(cfg, s);
    case Watchdog => WatchWidth(cfg, s);
    case Auth(_) =>
    case Free(_) =>
  }

  // ------------------------------------------------------------------
  // Steps and runs
  // ------------------------------------------------------------------

  // One step from a state that keeps a promise keeps it exactly when `Kept`.
  lemma StepKeepsExactly(cfg: Config, p: Promise, s: State, e: Event)
    requires Made(cfg, p, s) && Holds(cfg, p, s)
    ensures Holds(cfg, p, Apply(cfg, s, e)) <==> Kept(cfg, p, s, e)
  {
    match p
    case Barker => BarkerStep(cfg, s, e);
    case Mode => ModeStep(cfg, s, e);
    case OnAir => AirStep(cfg, s, e);
    case Width => WidthStep(cfg, s, e);
  }

  lemma StepCovered(cfg: Config, s: State, e: Event)
    requires Covered(s.book)
    ensures Covered(Apply(cfg, s, e).book)
  {
    RunSnoc(cfg, s, [], e);
    LeaksOnlyGrow(cfg, s, [] + [e], NonErp);
  }

  // A promise is made for good.
  lemma StepMade(cfg: Config, p: Promise, s: State, e: Event)
    requires Made(cfg, p, s)
    ensures Made(cfg, p, Apply(cfg, s, e))
  {
    if p == Barker || p == Width {
      StepCovered(cfg, s, e);
    }
    ElementStays(cfg, s, e);
    if p == OnAir && Shown(cfg) {
      StepFollows(cfg, s, e);
    }
  }

  ghost predicate AlwaysHolds(cfg: Config, p: Promise, s: State, es: seq<Event>) {
    Holds(cfg, p, Run(cfg, s, es)) && (es == [] || AlwaysHolds(cfg, p, s, es[..|es| - 1]))
  }

  ghost predicate AllKept(cfg: Config, p: Promise, s: State, es: seq<Event>) {
    es == [] || (var front := es[..|es| - 1];
                 AllKept(cfg, p, s, front) && Kept(cfg, p, Run(cfg, s, front), es[|es| - 1]))
  }

  /**
   * Over every run: a promise holds at every instant exactly when every step
   * is one that keeps it.
   */
  lemma {:induction false} KeptExactly(cfg: Config, p: Promise, s: State, es: seq<Event>)
    requires Made(cfg, p, s) && Holds(cfg, p, s)
    ensures AlwaysHolds(cfg, p, s, es) <==> AllKept(cfg, p, s, es)
    ensures Made(cfg, p, Run(cfg, s, es))
  {
    if es != [] {
      var front, e := es[..|es| - 1], es[|es| - 1];
      KeptExactly(cfg, p, s, front);
      StepMade(cfg, p, Run(cfg, s, front), e);
      if Holds(cfg, p, Run(cfg, s, front)) {
        StepKeepsExactly(cfg, p, Run(cfg, s, front), e);
      }
    }
  }
}
