/**
 * Per-station flags against BSS-wide counters in the soft AP, and the beacon
 * fields derived from the counters (core/rtw_ap.c).
 *
 * `State` and `Apply` are the specification: one value per instant, one event
 * per entry point of the driver.  The module `ApStations` holds the object that
 * is updated in place and follows `Apply`.
 */
module StaCounters {

  type Mac = nat

  datatype Option<T> = None | Some(value: T)

  // One constructor per (station flag, BSS counter) pair.
  datatype Flag = NoShortPreamble | NonErp | NoShortSlot | NoHt | NoGf | Ht20 | Intolerant40

  // Counters missing from the map are zero.
  type Counters = map<Flag, int>

  function Of(c: Counters, f: Flag): int {
    if f in c then c[f] else 0
  }

  // The stations' flags beside the counters that are to sum them up, and
  // whether rtw_warn_on was reached at the guarded decrement.
  datatype Book = Book(stas: map<Mac, set<Flag>>, num: Counters, warned: bool)

  // What a station announced when it associated.
  datatype Caps = Caps(shortPreamble: bool, nonErp: bool, shortSlot: bool, ht: bool,
                       greenfield: bool, width40: bool, intolerant40: bool)

  // The settings that stay fixed while the BSS runs.
  datatype Config = Config(
    started: bool,      // bstart_bss
    beyond11b: bool,    // cur_wireless_mode > WLAN_MD_11B
    erpEnable: bool,    // ERP_enable
    htAllowed: bool,    // registry ht_enable and an HT wireless mode
    htOption: bool,     // htpriv.ht_option
    htInfoEnable: bool, // HT_info_enable == 1
    apWidth40: bool,    // IEEE80211_HT_CAP_SUP_WIDTH in the AP's own capabilities
    below15: bool,      // channel 14 or lower
    bw40: bool,         // operating bandwidth of 40 MHz or more
    above: bool,        // the secondary channel is the upper one
    wifiSpec: bool)     // registry wifi_spec

  // A word is the set of its one bits: masks are set with union and cleared
  // with difference, as the driver does with | and & ~.
  type Word = set<nat>

  const PROTECTION: Word := {0, 1}   // NonERP_Present and Use_Protection
  const BARKER: Word := {2}
  const SECONDARY: Word := {0, 1}    // secondary channel offset
  const STA_WIDTH: Word := {2}
  const OP_MODE_MASK: Word := {0, 1}
  const NON_GF: Word := {2}
  const NON_HT: Word := {4}

  const PURE: Word := {}
  const MAY_BE_LEGACY: Word := {0}
  const SOME_20: Word := {1}
  const MIXED: Word := {0, 1}

  // The beacon octets concerned: the first of the ERP element, and the first
  // information octet and the operation mode word of the HT Operation element,
  // where present.
  datatype Fields = Fields(erp: Option<Word>, ht: Option<HtInfo>)

  datatype HtInfo = HtInfo(info: Word, op: Word)

  datatype State = State(
    book: Book,
    op: Word,         // ht_op_mode
    legacy: bool,     // olbc and olbc_ht, which are always written together
    widthReq: bool,   // ht_20mhz_width_req
    reported: bool,   // ht_intolerant_ch_reported
    beacon: Fields,   // the buffer being edited
    air: Fields,      // the copy handed over for transmission last
    narrow: bool,     // sw_to_20mhz
    ticks: nat)       // the watchdog's counter

  datatype Event =
    | Auth(m: Mac)                // a station record is allocated, all flags clear
    | Join(m: Mac, caps: Caps)    // association or reassociation
    | Leave(m: Mac, tim: bool)    // tim: the station's TIM bit was set
    | Coex(m: Mac, body: seq<bv8>)
    | Free(m: Mac)                // the record is released
    | AfterScan(found: bool)      // the AP scanned; found: a b/g network was heard
    | LegacySeen                  // a beacon without HT capabilities was heard
    | ApStart                     // the BSS is started, or restarted on a new channel
    | Watchdog

  // ------------------------------------------------------------------
  // Flags and counters
  // ------------------------------------------------------------------

  ghost function Holders(stas: map<Mac, set<Flag>>, f: Flag): set<Mac> {
    set m | m in stas && f in stas[m]
  }

  // How far a counter is ahead of the stations it should be counting.
  ghost function Drift(b: Book, f: Flag): int {
    Of(b.num, f) - |Holders(b.stas, f)|
  }

  // Every counter is the number of stations carrying its flag.
  ghost predicate Conserved(b: Book) {
    forall f: Flag :: Drift(b, f) == 0
  }

  // No counter but num_sta_no_ht is behind its stations.
  ghost predicate Covered(b: Book) {
    forall f: Flag | f != NoHt :: Drift(b, f) >= 0
  }

  // The flags a step decides, and what it sets them to.
  type Moves = map<Flag, bool>

  // The counter follows the flag, but the 40 MHz intolerance counter is only
  // decremented while positive; the driver warns otherwise.
  function Moved(b: Book, m: Mac, f: Flag, c: bool): int
    requires m in b.stas
  {
    var n := Of(b.num, f);
    if c == (f in b.stas[m]) then n
    else if c then n + 1
    else if f == Intolerant40 && n <= 0 then n
    else n - 1
  }

  predicate Warns(b: Book, m: Mac)
    requires m in b.stas
  {
    Intolerant40 in b.stas[m] && Of(b.num, Intolerant40) <= 0
  }

  // Some flags of one station are set or cleared, and counted.
  function Do(b: Book, m: Mac, xs: Moves): (r: Book)
    requires m in b.stas
    ensures m in r.stas
  {
    Book(b.stas[m := set f: Flag | if f in xs then xs[f] else f in b.stas[m]],
         map f: Flag | true :: if f in xs then Moved(b, m, f, xs[f]) else Of(b.num, f),
         b.warned || (Intolerant40 in xs && !xs[Intolerant40] && Warns(b, m)))
  }

  // Setting flag f of station m to c moves its counter onto 1 (raising) or 0 (lowering).
  predicate Crosses(c: bool, b: Book, m: Mac, f: Flag)
    requires m in b.stas
  {
    c != (f in b.stas[m]) && Of(b.num, f) == if c then 0 else 1
  }

  // ------------------------------------------------------------------
  // Beacon fields
  // ------------------------------------------------------------------

  function ErpOctet(old_: Word, protection: bool, barker: bool): Word {
    (old_ - PROTECTION - BARKER) + (if protection then PROTECTION else {}) + (if barker then BARKER else {})
  }

  function RefreshErp(cfg: Config, s: State): (r: State)
    ensures r == s.(beacon := r.beacon) && r.beacon.ht == s.beacon.ht
  {
    if cfg.started && cfg.erpEnable && s.beacon.erp.Some? then
      s.(beacon := s.beacon.(erp := Some(ErpOctet(s.beacon.erp.value, Of(s.book.num, NonErp) == 1, Of(s.book.num, NoShortPreamble) > 0))))
    else s
  }

  // Something in or around the BSS asks for 20 MHz.
  predicate Restricted(s: State) {
    Of(s.book.num, Intolerant40) > 0 || s.widthReq || s.reported || s.legacy
  }

  predicate Unrestricted(s: State) {
    Of(s.book.num, Intolerant40) == 0 && !s.widthReq && !s.reported && !s.legacy
  }

  // Whether a refresh goes down to 20 MHz, or back to 40.
  predicate Narrows(cfg: Config, s: State) {
    !s.narrow && cfg.below15 && Restricted(s)
  }

  predicate Widens(cfg: Config, s: State) {
    !(!s.narrow && cfg.below15) && Unrestricted(s) && cfg.bw40
  }

  function WidthInfo(cfg: Config, s: State, info: Word): Word {
    if Narrows(cfg, s) then info - SECONDARY - STA_WIDTH
    else if Widens(cfg, s) then (info - SECONDARY) + STA_WIDTH + (if cfg.above then {0} else {0, 1})
    else info
  }

  function RefreshHt(cfg: Config, s: State): (r: State)
    ensures r == s.(beacon := r.beacon, narrow := r.narrow) && r.beacon.erp == s.beacon.erp
  {
    if cfg.started && cfg.htOption && cfg.htInfoEnable && s.beacon.ht.Some? then
      s.(beacon := s.beacon.(ht := Some(HtInfo(WidthInfo(cfg, s, s.beacon.ht.value.info), s.op))),
         narrow := if Narrows(cfg, s) then true else if Widens(cfg, s) then false else s.narrow)
    else s
  }

  function Transmit(cfg: Config, s: State): (r: State)
    ensures r == s.(air := r.air)
  {
    if cfg.started then s.(air := s.beacon) else s
  }

  function WantedMode(cfg: Config, s: State): Word {
    if Of(s.book.num, NoHt) != 0 then MIXED
    else if cfg.apWidth40 && Of(s.book.num, Ht20) != 0 then SOME_20
    else if s.legacy then MAY_BE_LEGACY
    else PURE
  }

  // The operation mode the BSS calls for; the other bits are kept.
  function Wanted(cfg: Config, s: State): Word {
    (s.op - OP_MODE_MASK - NON_GF - NON_HT)
    + WantedMode(cfg, s)
    + (if Of(s.book.num, NoGf) != 0 then NON_GF else {})
    + (if Of(s.book.num, NoHt) != 0 || s.legacy then NON_HT else {})
  }

  function HtUpdate(cfg: Config, s: State): (r: State)
    ensures r == s.(op := r.op)
  {
    if cfg.htOption then s.(op := Wanted(cfg, s)) else s
  }

  // A second update in a row changes nothing.
  lemma UpdateTwice(cfg: Config, s: State)
    ensures HtUpdate(cfg, HtUpdate(cfg, s)) == HtUpdate(cfg, s)
  {
  }

  // Whether an update after the book became b changes the word.
  predicate Shifts(cfg: Config, s: State, b: Book) {
    cfg.htOption && Wanted(cfg, s.(book := b)) != s.op
  }

  // Update, and refresh the beacon's copy only when something changed.
  function HtSync(cfg: Config, s: State): (r: State)
    ensures r == s.(op := r.op, beacon := r.beacon, narrow := r.narrow) && r.beacon.erp == s.beacon.erp
    ensures r.op == if cfg.htOption then Wanted(cfg, s) else s.op
  {
    var t := HtUpdate(cfg, s);
    if t.op != s.op then RefreshHt(cfg, t) else t
  }

  // ------------------------------------------------------------------
  // Events
  // ------------------------------------------------------------------

  // What a join decides: the legacy three always, then the HT ones.  A flag
  // about HT details, once set, is only cleared by a leave.
  function JoinMoves(htAllowed: bool, caps: Caps): Moves {
    LegacyMoves(!caps.shortPreamble, caps.nonErp, !caps.shortSlot) + if htAllowed then HtMoves(caps) else map[]
  }

  function LegacyMoves(noPreamble: bool, nonErp: bool, noSlot: bool): Moves {
    map[NoShortPreamble := noPreamble, NonErp := nonErp, NoShortSlot := noSlot]
  }

  function HtMoves(caps: Caps): Moves {
    if caps.ht then
      var xs: Moves := map[NoHt := false];
      var ys := if caps.greenfield then xs else xs[NoGf := true];
      var zs := if caps.width40 then ys else ys[Ht20 := true];
      if caps.intolerant40 then zs[Intolerant40 := true] else zs
    else map[NoHt := true]
  }

  function LeaveMoves(): Moves {
    map[NoShortPreamble := false, NonErp := false, NoShortSlot := false,
        NoGf := false, NoHt := false, Ht20 := false, Intolerant40 := false]
  }

  // One of the three legacy counters crosses, so the beacon is worth resending.
  predicate Notable(cfg: Config, b: Book, m: Mac, noPreamble: bool, nonErp: bool, noSlot: bool)
    requires m in b.stas
  {
    (cfg.beyond11b && Crosses(noPreamble, b, m, NoShortPreamble))
    || Crosses(nonErp, b, m, NonErp)
    || (cfg.beyond11b && Crosses(noSlot, b, m, NoShortSlot))
  }

  /**
   * What the beacon makes of a new book: the ERP element is refreshed when
   * `erp`, the HT operation mode is brought up to date when `ht`, and the
   * beacon is handed over when `told`, or for a change of mode when `tellHt`.
   * Neither the slot time nor the HT counters enter the ERP element, so it does
   * not matter that the code refreshes it before counting those.
   */
  function Publish(cfg: Config, s: State, b: Book, erp: bool, told: bool, ht: bool, tellHt: bool): (r: State)
    ensures r.book == b && r.legacy == s.legacy
    ensures r.op == if ht && cfg.htOption then Wanted(cfg, s.(book := b)) else s.op
  {
    var t := s.(book := b);
    var u := if erp then RefreshErp(cfg, t) else t;
    var v := if ht then HtSync(cfg, u) else u;
    if told || (tellHt && v.op != s.op) then Transmit(cfg, v) else v
  }

  function JoinStep(cfg: Config, s: State, m: Mac, caps: Caps): (r: State)
    requires m in s.book.stas
    ensures r.book == Do(s.book, m, JoinMoves(cfg.htAllowed, caps))
  {
    Publish(cfg, s, Do(s.book, m, JoinMoves(cfg.htAllowed, caps)),
            Crosses(caps.nonErp, s.book, m, NonErp),
            Notable(cfg, s.book, m, !caps.shortPreamble, caps.nonErp, !caps.shortSlot),
            cfg.htAllowed, true)
  }

  function LeaveStep(cfg: Config, s: State, m: Mac, tim: bool): (r: State)
    requires m in s.book.stas
    ensures r.book == Do(s.book, m, LeaveMoves())
  {
    Publish(cfg, s, Do(s.book, m, LeaveMoves()),
            Crosses(false, s.book, m, NonErp),
            tim || Notable(cfg, s.book, m, false, false, false),
            true, false)
  }

  // Octets past the end of a short frame are taken as zero.
  function Octet(body: seq<bv8>, i: nat): bv8 {
    if i < |body| then body[i] else 0
  }

  predicate AsksIntolerant(body: seq<bv8>) {
    |body| > 0 && Octet(body, 2) == 72 && Octet(body, 3) > 0 && Octet(body, 4) & 2 != 0
  }

  predicate AsksWidth(body: seq<bv8>) {
    |body| > 0 && Octet(body, 2) == 72 && Octet(body, 3) > 0 && Octet(body, 4) & 2 == 0 && Octet(body, 4) & 4 != 0
  }

  predicate ReportsChannels(body: seq<bv8>) {
    |body| > 8 && Octet(body, 5) == 73 && Octet(body, 6) > 0
  }

  function CoexMoves(body: seq<bv8>): Moves {
    if AsksIntolerant(body) then map[Intolerant40 := true] else map[]
  }

  // The frame asks for something that was not known.
  predicate CoexNews(s: State, m: Mac, body: seq<bv8>)
    requires m in s.book.stas
  {
    || (AsksIntolerant(body) && Intolerant40 !in s.book.stas[m])
    || (AsksWidth(body) && !s.widthReq)
    || (ReportsChannels(body) && !s.reported)
  }

  function CoexTaken(s: State, m: Mac, body: seq<bv8>): (r: State)
    requires m in s.book.stas
    ensures r == s.(book := r.book, widthReq := r.widthReq, reported := r.reported)
  {
    s.(book := Do(s.book, m, CoexMoves(body)),
       widthReq := s.widthReq || AsksWidth(body),
       reported := s.reported || ReportsChannels(body))
  }

  function CoexStep(cfg: Config, s: State, m: Mac, body: seq<bv8>): (r: State)
    requires m in s.book.stas
    ensures r.book == Do(s.book, m, CoexMoves(body))
  {
    var t := CoexTaken(s, m, body);
    if CoexNews(s, m, body) then Transmit(cfg, RefreshHt(cfg, t)) else t
  }

  // An update that is resent where it changed something.
  function SyncAndSend(cfg: Config, s: State): (r: State)
    ensures r.book == s.book
  {
    var t := HtSync(cfg, s);
    if t.op != s.op then Transmit(cfg, t) else t
  }

  // Every two seconds under the certification setting: a legacy network heard
  // since the last time is taken up and forgotten; every tenth quiet time the
  // mode is brought up to date.
  function WatchdogStep(cfg: Config, s: State): (r: State)
    ensures r.book == s.book
  {
    if !cfg.wifiSpec || !cfg.htAllowed || !cfg.started then s
    else
      var due := s.legacy || s.ticks % 10 == 0;
      var t := if due then SyncAndSend(cfg, s) else s;
      t.(legacy := false, ticks := if s.legacy then 1 else if due then 2 else s.ticks + 1)
  }

  // The start of the BSS writes the mode for a legacy network straight into the
  // word, whatever the counters say, and sends the beacon.
  function StartStep(cfg: Config, s: State): (r: State)
    ensures r.book == s.book && r.beacon.erp == s.beacon.erp && r.air == r.beacon
  {
    var t := if cfg.started && s.legacy then RefreshHt(cfg, s.(op := (s.op - OP_MODE_MASK) + MAY_BE_LEGACY)) else s;
    t.(air := t.beacon)
  }

  function Apply(cfg: Config, s: State, e: Event): State {
    match e
    case Auth(m) => if m in s.book.stas then s else s.(book := s.book.(stas := s.book.stas[m := {}]))
    case Join(m, caps) => if m in s.book.stas then JoinStep(cfg, s, m, caps) else s
    case Leave(m, tim) => if m in s.book.stas then LeaveStep(cfg, s, m, tim) else s
    case Coex(m, body) => if m in s.book.stas then CoexStep(cfg, s, m, body) else s
    case Free(m) => s.(book := s.book.(stas := s.book.stas - {m}))
    case AfterScan(found) => s.(book := s.book.(num := s.book.num[NoHt := 0]), legacy := s.legacy || found)
    case LegacySeen => s.(legacy := true)
    case ApStart => StartStep(cfg, s)
    case Watchdog => WatchdogStep(cfg, s)
  }

  function Run(cfg: Config, s: State, es: seq<Event>): State {
    if es == [] then s else Apply(cfg, Run(cfg, s, es[..|es| - 1]), es[|es| - 1])
  }

  lemma RunSnoc(cfg: Config, s: State, es: seq<Event>, e: Event)
    ensures Run(cfg, s, es + [e]) == Apply(cfg, Run(cfg, s, es), e)
  {
    assert (es + [e])[..|es|] == es;
  }

  // ------------------------------------------------------------------
  // Conservation
  // ------------------------------------------------------------------

  // What the caller has to see to before the two steps that bypass the counters.
  ghost predicate Careful(b: Book, e: Event) {
    match e
    case Free(m) => m in b.stas ==> b.stas[m] == {}
    case AfterScan(_) => forall m | m in b.stas :: NoHt !in b.stas[m]
    case _ => true
  }

  ghost predicate AllCareful(cfg: Config, s: State, es: seq<Event>) {
    es == [] || (var front := es[..|es| - 1];
                 AllCareful(cfg, s, front) && Careful(Run(cfg, s, front).book, es[|es| - 1]))
  }

  ghost predicate AlwaysConserved(cfg: Config, s: State, es: seq<Event>) {
    Conserved(Run(cfg, s, es).book) && (es == [] || AlwaysConserved(cfg, s, es[..|es| - 1]))
  }

  // Rewriting one station's flags moves each head count by that station alone.
  lemma HoldersAfter(stas: map<Mac, set<Flag>>, m: Mac, flags: set<Flag>, f: Flag)
    requires m in stas
    ensures |Holders(stas[m := flags], f)|
         == |Holders(stas, f)| - (if f in stas[m] then 1 else 0) + (if f in flags then 1 else 0)
  {
    var rest := Holders(stas, f) - {m};
    assert Holders(stas, f) == if f in stas[m] then rest + {m} else rest;
    assert Holders(stas[m := flags], f) == if f in flags then rest + {m} else rest;
  }

  lemma DoDrift(b: Book, m: Mac, xs: Moves, g: Flag)
    requires m in b.stas && Drift(b, Intolerant40) >= 0
    ensures Drift(Do(b, m, xs), g) == Drift(b, g) && Do(b, m, xs).warned == b.warned
  {
    HoldersAfter(b.stas, m, Do(b, m, xs).stas[m], g);
    if Intolerant40 in b.stas[m] {
      HeldIsCounted(b, m, Intolerant40);
    }
  }

  lemma HeldIsCounted(b: Book, m: Mac, f: Flag)
    requires m in b.stas && f in b.stas[m] && Drift(b, f) >= 0
    ensures Of(b.num, f) > 0
  {
    assert m in Holders(b.stas, f);
  }

  // Leaving clears every flag of the station, whatever the counters say.
  lemma LeaveClears(b: Book, m: Mac)
    requires m in b.stas
    ensures Do(b, m, LeaveMoves()).stas == b.stas[m := {}]
  {
    var r := Do(b, m, LeaveMoves()).stas[m];
    forall f: Flag ensures f !in r {
      match f case NoShortPreamble | NonErp | NoShortSlot | NoHt | NoGf | Ht20 | Intolerant40 =>
    }
    assert r == {};
  }

  // What one event does to flags and counters, on their own.
  ghost function BookStep(htAllowed: bool, b: Book, e: Event): Book {
    match e
    case Auth(m) => if m in b.stas then b else b.(stas := b.stas[m := {}])
    case Join(m, caps) => if m in b.stas then Do(b, m, JoinMoves(htAllowed, caps)) else b
    case Leave(m, _) => if m in b.stas then Do(b, m, LeaveMoves()) else b
    case Coex(m, body) => if m in b.stas then Do(b, m, CoexMoves(body)) else b
    case Free(m) => b.(stas := b.stas - {m})
    case AfterScan(_) => b.(num := b.num[NoHt := 0])
    case LegacySeen => b
    case ApStart => b
    case Watchdog => b
  }

  lemma BookOf(cfg: Config, s: State, e: Event)
    ensures Apply(cfg, s, e).book == BookStep(cfg.htAllowed, s.book, e)
  {
  }

  // How far one event moves a counter away from its stations.
  ghost function Leak(b: Book, e: Event, f: Flag): int {
    match e
    case Free(m) => if m in b.stas && f in b.stas[m] then 1 else 0
    case AfterScan(_) => if f == NoHt then -Of(b.num, NoHt) else 0
    case _ => 0
  }

  /**
   * The conservation law: only freeing a flagged station and the reset after a
   * scan move a counter relative to its stations, by exactly `Leak`.
   */
  lemma StepDrift(htAllowed: bool, b: Book, e: Event, f: Flag)
    requires Drift(b, Intolerant40) >= 0
    ensures Drift(BookStep(htAllowed, b, e), f) == Drift(b, f) + Leak(b, e, f)
    ensures BookStep(htAllowed, b, e).warned == b.warned
  {
    match e
    case Auth(m) => AuthDrift(b, m, f);
    case Join(m, caps) => if m in b.stas { DoDrift(b, m, JoinMoves(htAllowed, caps), f); }
    case Leave(m, _) =>
      if m in b.stas {
        DoDrift(b, m, LeaveMoves(), f);
      }
    case Coex(m, body) => if m in b.stas { DoDrift(b, m, CoexMoves(body), f); }
    case Free(m) => FreeDrift(b, m, f);
    case AfterScan(_) =>
    case LegacySeen =>
    case ApStart =>
    case Watchdog =>
  }

  lemma AuthDrift(b: Book, m: Mac, f: Flag)
    ensures m !in b.stas ==> Drift(b.(stas := b.stas[m := {}]), f) == Drift(b, f)
  {
    if m !in b.stas {
      assert Holders(b.stas[m := {}], f) == Holders(b.stas, f);
    }
  }

  lemma FreeDrift(b: Book, m: Mac, f: Flag)
    ensures Drift(b.(stas := b.stas - {m}), f) == Drift(b, f) + Leak(b, Free(m), f)
  {
    var rest := Holders(b.stas, f) - {m};
    assert Holders(b.stas, f) == if m in b.stas && f in b.stas[m] then rest + {m} else rest;
    assert Holders(b.stas - {m}, f) == rest;
  }

  lemma CarefulMeansNoLeak(b: Book, e: Event)
    requires Conserved(b)
    ensures Careful(b, e) <==> forall f: Flag :: Leak(b, e, f) == 0
  {
    match e
    case Free(m) =>
      if m in b.stas && b.stas[m] != {} {
        var f :| f in b.stas[m];
        assert Leak(b, e, f) != 0;
      }
    case AfterScan(_) =>
      assert Leak(b, e, NoHt) == 0 <==> |Holders(b.stas, NoHt)| == 0 by { assert Drift(b, NoHt) == 0; }
      assert |Holders(b.stas, NoHt)| == 0 <==> Holders(b.stas, NoHt) == {};
      assert forall m | m in b.stas :: m in Holders(b.stas, NoHt) <==> NoHt in b.stas[m];
    case _ =>
  }

  // One step from a conserved state is conserved exactly when it is careful.
  lemma StepConservesExactly(cfg: Config, s: State, e: Event)
    requires Conserved(s.book)
    ensures Conserved(Apply(cfg, s, e).book) <==> Careful(s.book, e)
  {
    BookOf(cfg, s, e);
    CarefulMeansNoLeak(s.book, e);
    forall f: Flag ensures Drift(Apply(cfg, s, e).book, f) == Leak(s.book, e, f) {
      StepDrift(cfg.htAllowed, s.book, e, f);
    }
  }

  /**
   * Over every run: the counters agree with the stations at every instant
   * exactly when no station record is freed with a flag still set and no scan
   * ends while a station is marked non-HT.
   */
  lemma {:induction false} ConservedExactlyWhenCareful(cfg: Config, s: State, es: seq<Event>)
    requires Conserved(s.book)
    ensures AlwaysConserved(cfg, s, es) <==> AllCareful(cfg, s, es)
  {
    if es != [] {
      var front := es[..|es| - 1];
      ConservedExactlyWhenCareful(cfg, s, front);
      if Conserved(Run(cfg, s, front).book) {
        StepConservesExactly(cfg, Run(cfg, s, front), es[|es| - 1]);
      }
    }
  }

  /**
   * Over every run, careful or not: no counter but num_sta_no_ht falls behind
   * its stations, a count once leaked never comes back, and the warning in the
   * leave handler is never reached.
   */
  lemma {:induction false} LeaksOnlyGrow(cfg: Config, s: State, es: seq<Event>, f: Flag)
    requires Covered(s.book) && f != NoHt
    ensures Covered(Run(cfg, s, es).book)
    ensures Drift(Run(cfg, s, es).book, f) >= Drift(s.book, f)
    ensures Run(cfg, s, es).book.warned == s.book.warned
  {
    if es != [] {
      var mid := Run(cfg, s, es[..|es| - 1]);
      var e := es[|es| - 1];
      LeaksOnlyGrow(cfg, s, es[..|es| - 1], f);
      BookOf(cfg, mid, e);
      forall g: Flag
        ensures Drift(Apply(cfg, mid, e).book, g) == Drift(mid.book, g) + Leak(mid.book, e, g)
        ensures Apply(cfg, mid, e).book.warned == mid.book.warned
      {
        StepDrift(cfg.htAllowed, mid.book, e, g);
      }
    }
  }

  // A client that announces 40 MHz intolerance before associating, and whose
  // authentication then expires, is counted for good.
  lemma AuthExpiryLeaks(cfg: Config, s: State, m: Mac, body: seq<bv8>, es: seq<Event>)
    requires Covered(s.book) && m in s.book.stas && s.book.stas[m] == {} && AsksIntolerant(body)
    ensures var t := Run(cfg, s, [Coex(m, body), Free(m)]);
            m !in t.book.stas && Drift(Run(cfg, t, es).book, Intolerant40) > 0
  {
    var e1, e2 := Coex(m, body), Free(m);
    RunSnoc(cfg, s, [], e1);
    RunSnoc(cfg, s, [e1], e2);
    assert [] + [e1] == [e1] && [e1] + [e2] == [e1, e2];
    var s1 := Apply(cfg, s, e1);
    var t := Apply(cfg, s1, e2);
    BookOf(cfg, s, e1);
    LeaksOnlyGrow(cfg, s, [e1], Intolerant40);
    LeaksOnlyGrow(cfg, s, [e1, e2], Intolerant40);
    BookOf(cfg, s1, e2);
    StepDrift(cfg.htAllowed, s1.book, e2, Intolerant40);
    LeaksOnlyGrow(cfg, t, es, Intolerant40);
  }

  // ------------------------------------------------------------------
  // NonERP in the beacon
  // ------------------------------------------------------------------

  // Both NonERP_Present and Use_Protection are on, or both are off.
  predicate ErpShows(f: Fields, on: bool) {
    f.erp.Some? && (0 in f.erp.value <==> on) && (1 in f.erp.value <==> on)
  }

  ghost predicate ErpInv(s: State) {
    ErpShows(s.beacon, Of(s.book.num, NonErp) > 0) && ErpShows(s.air, Of(s.book.num, NonErp) > 0)
  }

  // Refreshing on the way from 0 to 1 and from 1 to 0 is enough.
  lemma PublishErp(cfg: Config, s: State, b: Book, erp: bool, told: bool, ht: bool, tellHt: bool)
    requires cfg.started && cfg.erpEnable && ErpInv(s)
    requires if erp then 0 <= Of(b.num, NonErp) <= 1 && told else Of(b.num, NonErp) > 0 <==> Of(s.book.num, NonErp) > 0
    ensures ErpInv(Publish(cfg, s, b, erp, told, ht, tellHt))
  {
  }

  lemma CrossingErp(c: bool, b: Book, m: Mac)
    requires m in b.stas && Drift(b, NonErp) >= 0
    ensures if Crosses(c, b, m, NonErp) then 0 <= Moved(b, m, NonErp, c) <= 1
            else Moved(b, m, NonErp, c) > 0 <==> Of(b.num, NonErp) > 0
  {
    if NonErp in b.stas[m] {
      HeldIsCounted(b, m, NonErp);
    }
  }

  lemma JoinErp(cfg: Config, s: State, m: Mac, caps: Caps)
    requires cfg.started && cfg.erpEnable && m in s.book.stas && Drift(s.book, NonErp) >= 0 && ErpInv(s)
    ensures ErpInv(JoinStep(cfg, s, m, caps))
  {
    var b := Do(s.book, m, JoinMoves(cfg.htAllowed, caps));
    CrossingErp(caps.nonErp, s.book, m);
    assert Of(b.num, NonErp) == Moved(s.book, m, NonErp, caps.nonErp);
    PublishErp(cfg, s, b, Crosses(caps.nonErp, s.book, m, NonErp),
               Notable(cfg, s.book, m, !caps.shortPreamble, caps.nonErp, !caps.shortSlot), cfg.htAllowed, true);
  }

  lemma LeaveErp(cfg: Config, s: State, m: Mac, tim: bool)
    requires cfg.started && cfg.erpEnable && m in s.book.stas && Drift(s.book, NonErp) >= 0 && ErpInv(s)
    ensures ErpInv(LeaveStep(cfg, s, m, tim))
  {
    var b := Do(s.book, m, LeaveMoves());
    CrossingErp(false, s.book, m);
    assert Of(b.num, NonErp) == Moved(s.book, m, NonErp, false);
    PublishErp(cfg, s, b,
               Crosses(false, s.book, m, NonErp), tim || Notable(cfg, s.book, m, false, false, false), true, false);
  }

  lemma StepErp(cfg: Config, s: State, e: Event)
    requires cfg.started && cfg.erpEnable && Drift(s.book, NonErp) >= 0 && ErpInv(s)
    ensures ErpInv(Apply(cfg, s, e))
  {
    match e
    case Join(m, caps) => if m in s.book.stas { JoinErp(cfg, s, m, caps); }
    case Leave(m, tim) => if m in s.book.stas { LeaveErp(cfg, s, m, tim); }
    case Coex(m, body) => if m in s.book.stas { assert Of(Do(s.book, m, CoexMoves(body)).num, NonErp) == Of(s.book.num, NonErp); }
    case Auth(m) =>
    case Free(m) =>
    case AfterScan(_) =>
    case LegacySeen =>
    case ApStart =>
    case Watchdog =>
  }

  /**
   * Over every run with the beacon active, ERP on and an ERP element present,
   * the NonERP_Present and Use_Protection bits are on exactly while the count
   * of non-ERP stations is positive, although the code compares it with 1; the
   * beacon handed over for transmission agrees too.  On careful runs that is
   * exactly while some station is non-ERP.
   */
  lemma {:induction false} NonErpOverRuns(cfg: Config, s: State, es: seq<Event>)
    requires cfg.started && cfg.erpEnable && Covered(s.book) && ErpInv(s)
    ensures ErpInv(Run(cfg, s, es))
    ensures Conserved(s.book) && AllCareful(cfg, s, es) ==>
              var t := Run(cfg, s, es);
              ErpShows(t.beacon, exists m :: m in t.book.stas && NonErp in t.book.stas[m])
  {
    if es != [] {
      var mid := Run(cfg, s, es[..|es| - 1]);
      NonErpOverRuns(cfg, s, es[..|es| - 1]);
      LeaksOnlyGrow(cfg, s, es[..|es| - 1], NonErp);
      StepErp(cfg, mid, es[|es| - 1]);
    }
    if Conserved(s.book) && AllCareful(cfg, s, es) {
      ConservedExactlyWhenCareful(cfg, s, es);
      PositiveMeansHeld(Run(cfg, s, es).book, NonErp);
    }
  }

  lemma PositiveMeansHeld(b: Book, f: Flag)
    requires Conserved(b)
    ensures Of(b.num, f) > 0 <==> exists m :: m in b.stas && f in b.stas[m]
    ensures Of(b.num, f) != 0 <==> Of(b.num, f) > 0
  {
    assert Drift(b, f) == 0;
    if m :| m in b.stas && f in b.stas[m] {
      assert m in Holders(b.stas, f);
    } else {
      assert Holders(b.stas, f) == {};
    }
  }

  // The stations that said they were non-ERP when they last associated, and
  // have neither left nor been freed since.
  ghost function NonErpClients(cfg: Config, s: State, es: seq<Event>): set<Mac> {
    if es == [] then {}
    else
      var front, e := es[..|es| - 1], es[|es| - 1];
      var before := NonErpClients(cfg, s, front);
      match e
      case Join(m, caps) =>
        if m !in Run(cfg, s, front).book.stas then before
        else if caps.nonErp then before + {m}
        else before - {m}
      case Leave(m, _) => before - {m}
      case Free(m) => before - {m}
      case _ => before
  }

  lemma HoldersMoved(b: Book, m: Mac, xs: Moves, f: Flag)
    requires m in b.stas
    ensures var before := Holders(b.stas, f);
            Holders(Do(b, m, xs).stas, f) == if f !in xs then before else if xs[f] then before + {m} else before - {m}
  {
  }

  lemma NonErpStep(htAllowed: bool, b: Book, e: Event, before: set<Mac>)
    requires Holders(b.stas, NonErp) == before
    ensures Holders(BookStep(htAllowed, b, e).stas, NonErp)
         == match e
            case Join(m, caps) => if m !in b.stas then before else if caps.nonErp then before + {m} else before - {m}
            case Leave(m, _) => before - {m}
            case Free(m) => before - {m}
            case _ => before
  {
    match e
    case Auth(m) => assert Holders(b.stas[m := if m in b.stas then b.stas[m] else {}], NonErp) == Holders(b.stas, NonErp);
    case Join(m, caps) => if m in b.stas { HoldersMoved(b, m, JoinMoves(htAllowed, caps), NonErp); }
    case Leave(m, _) =>
      if m in b.stas {
        HoldersMoved(b, m, LeaveMoves(), NonErp);
      } else {
        assert m !in before;
      }
    case Coex(m, body) => if m in b.stas { HoldersMoved(b, m, CoexMoves(body), NonErp); }
    case Free(m) => assert Holders(b.stas - {m}, NonErp) == Holders(b.stas, NonErp) - {m};
    case _ =>
  }

  lemma {:induction false} HoldersAreClients(cfg: Config, s: State, es: seq<Event>)
    requires s.book.stas == map[]
    ensures Holders(Run(cfg, s, es).book.stas, NonErp) == NonErpClients(cfg, s, es)
  {
    if es == [] {
      assert Holders(s.book.stas, NonErp) == {};
    } else {
      var front := es[..|es| - 1];
      HoldersAreClients(cfg, s, front);
      BookOf(cfg, Run(cfg, s, front), es[|es| - 1]);
      NonErpStep(cfg.htAllowed, Run(cfg, s, front).book, es[|es| - 1], NonErpClients(cfg, s, front));
    }
  }

  /**
   * From the first frame to the last: starting without stations, after every
   * careful run protection is announced exactly when some client is associated
   * whose latest association said non-ERP.
   */
  lemma ProtectionMeansClients(cfg: Config, s: State, es: seq<Event>)
    requires cfg.started && cfg.erpEnable && s.book.stas == map[] && Conserved(s.book) && ErpInv(s)
    requires AllCareful(cfg, s, es)
    ensures var t := Run(cfg, s, es);
            ErpShows(t.beacon, NonErpClients(cfg, s, es) != {}) && ErpShows(t.air, NonErpClients(cfg, s, es) != {})
  {
    NonErpOverRuns(cfg, s, es);
    ConservedExactlyWhenCareful(cfg, s, es);
    HoldersAreClients(cfg, s, es);
    assert Drift(Run(cfg, s, es).book, NonErp) == 0;
  }

  predicate BarkerShows(s: State) {
    s.beacon.erp.Some? && (2 in s.beacon.erp.value <==> Of(s.book.num, NoShortPreamble) > 0)
  }

  /**
   * The Barker_Preamble_Mode bit is written only when the NonERP bits are, so a
   * join keeps it right exactly when the non-ERP count crosses too or the
   * long-preamble count does not change sign.
   */
  lemma BarkerExactly(cfg: Config, s: State, m: Mac, caps: Caps)
    requires cfg.started && cfg.erpEnable && m in s.book.stas && BarkerShows(s)
    ensures BarkerShows(JoinStep(cfg, s, m, caps))
       <==> || Crosses(caps.nonErp, s.book, m, NonErp)
            || (Moved(s.book, m, NoShortPreamble, !caps.shortPreamble) > 0 <==> Of(s.book.num, NoShortPreamble) > 0)
  {
    var b := Do(s.book, m, JoinMoves(cfg.htAllowed, caps));
    assert Of(b.num, NoShortPreamble) == Moved(s.book, m, NoShortPreamble, !caps.shortPreamble);
    PublishBarker(cfg, s, b, Crosses(caps.nonErp, s.book, m, NonErp),
                  Notable(cfg, s.book, m, !caps.shortPreamble, caps.nonErp, !caps.shortSlot), cfg.htAllowed, true);
  }

  // A station that needs the long preamble joins an ERP network: the bit stays off.
  lemma BarkerStale()
    ensures var cfg := Config(true, true, true, true, true, true, true, true, true, true, false);
            var fields := Fields(Some({}), None);
            var s := State(Book(map[1 := {}], map[], false), {}, false, false, false, fields, fields, false, 1);
            BarkerShows(s) && !BarkerShows(JoinStep(cfg, s, 1, Caps(false, false, true, true, true, true, false)))
  {
    var cfg := Config(true, true, true, true, true, true, true, true, true, true, false);
    var fields := Fields(Some({}), None);
    var s := State(Book(map[1 := {}], map[], false), {}, false, false, false, fields, fields, false, 1);
    BarkerExactly(cfg, s, 1, Caps(false, false, true, true, true, true, false));
  }

  lemma PublishBarker(cfg: Config, s: State, b: Book, erp: bool, told: bool, ht: bool, tellHt: bool)
    requires cfg.started && cfg.erpEnable && BarkerShows(s)
    ensures BarkerShows(Publish(cfg, s, b, erp, told, ht, tellHt))
       <==> erp || (Of(b.num, NoShortPreamble) > 0 <==> Of(s.book.num, NoShortPreamble) > 0)
  {
  }

  // ------------------------------------------------------------------
  // HT operation mode
  // ------------------------------------------------------------------

  predicate HtExact(cfg: Config, s: State) {
    && s.op * OP_MODE_MASK == WantedMode(cfg, s)
    && (2 in s.op <==> Of(s.book.num, NoGf) != 0)
    && (4 in s.op <==> Of(s.book.num, NoHt) != 0 || s.legacy)
  }

  // Joins and leaves bring the word up to date; the rest that matters can only outdate it.
  predicate Settles(cfg: Config, s: State, e: Event) {
    match e
    case Join(m, _) => cfg.htAllowed && m in s.book.stas
    case Leave(m, _) => m in s.book.stas
    case _ => false
  }

  predicate Outdates(e: Event) {
    e.AfterScan? || e.LegacySeen? || e.ApStart? || e.Watchdog?
  }

  lemma PublishHt(cfg: Config, s: State, b: Book, erp: bool, told: bool, ht: bool, tellHt: bool)
    requires cfg.htOption
    ensures ht ==> HtExact(cfg, Publish(cfg, s, b, erp, told, ht, tellHt))
    ensures var t := Publish(cfg, s, b, erp, told, ht, tellHt);
            !ht && HtExact(cfg, s) && SameHt(s.book, b) ==> HtExact(cfg, t)
  {
  }

  predicate SameHt(b: Book, c: Book) {
    Of(b.num, NoHt) == Of(c.num, NoHt) && Of(b.num, NoGf) == Of(c.num, NoGf) && Of(b.num, Ht20) == Of(c.num, Ht20)
  }

  lemma DoSameHt(b: Book, m: Mac, xs: Moves)
    requires m in b.stas && NoHt !in xs && NoGf !in xs && Ht20 !in xs
    ensures SameHt(b, Do(b, m, xs))
  {
  }

  lemma JoinKeepsHt(cfg: Config, s: State, m: Mac, caps: Caps)
    requires cfg.htOption && m in s.book.stas && (cfg.htAllowed || HtExact(cfg, s))
    ensures HtExact(cfg, JoinStep(cfg, s, m, caps))
  {
    if !cfg.htAllowed {
      DoSameHt(s.book, m, JoinMoves(false, caps));
    }
    PublishHt(cfg, s, Do(s.book, m, JoinMoves(cfg.htAllowed, caps)), Crosses(caps.nonErp, s.book, m, NonErp),
              Notable(cfg, s.book, m, !caps.shortPreamble, caps.nonErp, !caps.shortSlot), cfg.htAllowed, true);
  }

  lemma LeaveKeepsHt(cfg: Config, s: State, m: Mac, tim: bool)
    requires cfg.htOption && m in s.book.stas
    ensures HtExact(cfg, LeaveStep(cfg, s, m, tim))
  {
    PublishHt(cfg, s, Do(s.book, m, LeaveMoves()), Crosses(false, s.book, m, NonErp),
              tim || Notable(cfg, s.book, m, false, false, false), true, false);
  }

  lemma StepHt(cfg: Config, s: State, e: Event)
    requires cfg.htOption
    requires Settles(cfg, s, e) || (HtExact(cfg, s) && !Outdates(e))
    ensures HtExact(cfg, Apply(cfg, s, e))
  {
    match e
    case Join(m, caps) => if m in s.book.stas { JoinKeepsHt(cfg, s, m, caps); }
    case Leave(m, tim) => if m in s.book.stas { LeaveKeepsHt(cfg, s, m, tim); }
    case Coex(m, body) => if m in s.book.stas { DoSameHt(s.book, m, CoexMoves(body)); }
    case Auth(m) =>
    case Free(m) =>
  }

  /**
   * Over every run with HT on: from the last join or leave until something
   * outside the stations changes, the operation mode describes the counters.
   */
  lemma {:induction false} HtModeOverRuns(cfg: Config, s: State, es: seq<Event>, k: nat)
    requires cfg.htOption && k < |es| && Settles(cfg, Run(cfg, s, es[..k]), es[k])
    requires forall j | k < j < |es| :: !Outdates(es[j])
    ensures HtExact(cfg, Run(cfg, s, es))
  {
    var n := |es| - 1;
    if k < n {
      assert es[..n][..k] == es[..k];
      HtModeOverRuns(cfg, s, es[..n], k);
    }
    StepHt(cfg, Run(cfg, s, es[..n]), es[n]);
  }

  // Where the counters are conserved, the mode speaks of the stations themselves.
  lemma HtModeOfStations(cfg: Config, s: State)
    requires Conserved(s.book) && HtExact(cfg, s)
    ensures s.op * OP_MODE_MASK == MIXED <==> exists m :: m in s.book.stas && NoHt in s.book.stas[m]
    ensures s.op * OP_MODE_MASK == SOME_20 <==>
              && s.op * OP_MODE_MASK != MIXED && cfg.apWidth40
              && exists m :: m in s.book.stas && Ht20 in s.book.stas[m]
    ensures s.op * OP_MODE_MASK == PURE ==> !s.legacy
    ensures 2 in s.op <==> exists m :: m in s.book.stas && NoGf in s.book.stas[m]
    ensures 4 in s.op <==> s.legacy || exists m :: m in s.book.stas && NoHt in s.book.stas[m]
  {
    PositiveMeansHeld(s.book, NoHt);
    PositiveMeansHeld(s.book, Ht20);
    PositiveMeansHeld(s.book, NoGf);
  }

  // The beacon's HT Operation word is the operation mode.
  predicate HtFollows(s: State) {
    s.beacon.ht.Some? && s.beacon.ht.value.op == s.op
  }

  lemma PublishFollows(cfg: Config, s: State, b: Book, erp: bool, told: bool, ht: bool, tellHt: bool)
    requires cfg.htOption ==> cfg.started && cfg.htInfoEnable
    requires HtFollows(s)
    ensures var t := Publish(cfg, s, b, erp, told, ht, tellHt);
            && HtFollows(t)
            && (s.air.ht == s.beacon.ht ==> (t.air.ht == t.beacon.ht <==> !(ht && Shifts(cfg, s, b)) || told || tellHt))
  {
  }

  // The one event that can part them: a start with HT off.
  predicate Stamps(cfg: Config, s: State, e: Event) {
    e.ApStart? && cfg.started && s.legacy && !cfg.htOption && s.op * OP_MODE_MASK != MAY_BE_LEGACY
  }

  lemma StartFollows(cfg: Config, s: State)
    requires cfg.htOption ==> cfg.started && cfg.htInfoEnable
    requires HtFollows(s)
    ensures HtFollows(StartStep(cfg, s)) <==> !Stamps(cfg, s, ApStart)
  {
    assert s.op == (s.op - OP_MODE_MASK) + s.op * OP_MODE_MASK;
    assert ((s.op - OP_MODE_MASK) + MAY_BE_LEGACY) * OP_MODE_MASK == MAY_BE_LEGACY;
  }

  lemma StepFollows(cfg: Config, s: State, e: Event)
    requires cfg.htOption ==> cfg.started && cfg.htInfoEnable
    requires HtFollows(s)
    ensures HtFollows(Apply(cfg, s, e)) <==> !Stamps(cfg, s, e)
    ensures s.air.ht == s.beacon.ht && !e.Leave? ==> Apply(cfg, s, e).air.ht == Apply(cfg, s, e).beacon.ht
  {
    match e
    case Join(m, caps) =>
      if m in s.book.stas {
        PublishFollows(cfg, s, Do(s.book, m, JoinMoves(cfg.htAllowed, caps)), Crosses(caps.nonErp, s.book, m, NonErp),
                       Notable(cfg, s.book, m, !caps.shortPreamble, caps.nonErp, !caps.shortSlot), cfg.htAllowed, true);
      }
    case Leave(m, tim) =>
      if m in s.book.stas {
        LeaveOnAirExactly(cfg, s, m, tim);
      }
    case Coex(m, body) => if m in s.book.stas { CoexFollows(cfg, s, m, body); }
    case Watchdog => WatchdogFollows(cfg, s);
    case ApStart => StartFollows(cfg, s);
    case _ =>
  }

  lemma CoexFollows(cfg: Config, s: State, m: Mac, body: seq<bv8>)
    requires cfg.htOption ==> cfg.started && cfg.htInfoEnable
    requires m in s.book.stas && HtFollows(s)
    ensures var t := CoexStep(cfg, s, m, body); HtFollows(t) && (s.air.ht == s.beacon.ht ==> t.air.ht == t.beacon.ht)
  {
  }

  lemma WatchdogFollows(cfg: Config, s: State)
    requires cfg.htOption ==> cfg.started && cfg.htInfoEnable
    requires HtFollows(s)
    ensures var t := WatchdogStep(cfg, s); HtFollows(t) && (s.air.ht == s.beacon.ht ==> t.air.ht == t.beacon.ht)
  {
  }

  /**
   * A leave refreshes the HT Operation word in the buffer but, unlike a join,
   * does not hand the beacon over for it: the transmitted beacon keeps up
   * exactly when the mode does not change or there is another reason to resend.
   */
  lemma LeaveOnAirExactly(cfg: Config, s: State, m: Mac, tim: bool)
    requires cfg.htOption ==> cfg.started && cfg.htInfoEnable
    requires m in s.book.stas && HtFollows(s)
    ensures var t := LeaveStep(cfg, s, m, tim);
            && HtFollows(t)
            && (s.air.ht == s.beacon.ht ==>
                  (t.air.ht == t.beacon.ht <==>
                     || !Shifts(cfg, s, Do(s.book, m, LeaveMoves()))
                     || tim || Notable(cfg, s.book, m, false, false, false)))
  {
    PublishFollows(cfg, s, Do(s.book, m, LeaveMoves()),
                   Crosses(false, s.book, m, NonErp), tim || Notable(cfg, s.book, m, false, false, false), true, false);
  }

  // The station is the last one to call for something the mode shows: a
  // non-greenfield one, a non-HT one, or a 20 MHz one where that decides.
  predicate LastToShow(cfg: Config, s: State, m: Mac)
    requires m in s.book.stas
  {
    var fs, n := s.book.stas[m], s.book.num;
    || (NoGf in fs && Of(n, NoGf) == 1)
    || (NoHt in fs && Of(n, NoHt) == 1)
    || (Ht20 in fs && Of(n, Ht20) == 1 && Of(n, NoHt) == 0 && cfg.apWidth40)
  }

  // With the counters conserved and the mode up to date, a leave changes the
  // mode exactly when the station is the last one to call for part of it.
  lemma LeaveShiftsExactly(cfg: Config, s: State, m: Mac)
    requires cfg.htOption && HtExact(cfg, s) && Conserved(s.book) && m in s.book.stas
    ensures Shifts(cfg, s, Do(s.book, m, LeaveMoves())) <==> LastToShow(cfg, s, m)
  {
    var b := Do(s.book, m, LeaveMoves());
    CountsAfterLeave(s.book, m, NoGf);
    CountsAfterLeave(s.book, m, NoHt);
    CountsAfterLeave(s.book, m, Ht20);
    ShiftsExactly(cfg, s, b);
  }

  lemma CountsAfterLeave(b: Book, m: Mac, f: Flag)
    requires Conserved(b) && m in b.stas && f != Intolerant40
    ensures Of(b.num, f) >= 0
    ensures f in b.stas[m] ==> Of(b.num, f) > 0
    ensures Of(Do(b, m, LeaveMoves()).num, f) == Of(b.num, f) - if f in b.stas[m] then 1 else 0
  {
    assert Drift(b, f) == 0;
    if f in b.stas[m] {
      HeldIsCounted(b, m, f);
    }
    assert f in LeaveMoves() && !LeaveMoves()[f] by {
      match f case NoShortPreamble | NonErp | NoShortSlot | NoHt | NoGf | Ht20 =>
    }
  }

  // An up-to-date word changes exactly when one of its three parts does.
  lemma ShiftsExactly(cfg: Config, s: State, b: Book)
    requires cfg.htOption && HtExact(cfg, s)
    ensures Shifts(cfg, s, b) <==>
              || WantedMode(cfg, s.(book := b)) != WantedMode(cfg, s)
              || ((Of(b.num, NoGf) != 0) != (Of(s.book.num, NoGf) != 0))
              || (!s.legacy && (Of(b.num, NoHt) != 0) != (Of(s.book.num, NoHt) != 0))
  {
    SameWord(s.op, WantedMode(cfg, s.(book := b)), Of(b.num, NoGf) != 0, Of(b.num, NoHt) != 0 || s.legacy);
  }

  lemma SameWord(w: Word, mode: Word, nonGf: bool, nonHt: bool)
    requires mode <= OP_MODE_MASK
    ensures (w - OP_MODE_MASK - NON_GF - NON_HT) + mode + (if nonGf then NON_GF else {}) + (if nonHt then NON_HT else {}) == w
       <==> w * OP_MODE_MASK == mode && (2 in w <==> nonGf) && (4 in w <==> nonHt)
  {
    var v := (w - OP_MODE_MASK - NON_GF - NON_HT) + mode + (if nonGf then NON_GF else {}) + (if nonHt then NON_HT else {});
    assert forall i :: i in v <==> if i == 2 then nonGf else if i == 4 then nonHt else if i == 0 || i == 1 then i in mode else i in w;
    if w * OP_MODE_MASK == mode && (2 in w <==> nonGf) && (4 in w <==> nonHt) {
      assert forall i :: i in mode <==> i in w && (i == 0 || i == 1);
      assert v == w;
    } else if v == w {
      assert w * OP_MODE_MASK == mode;
    }
  }

  // So on such a state the beacon on the air keeps up with a leave exactly
  // unless that is the only reason to resend it.
  lemma LastLeaveOnAir(cfg: Config, s: State, m: Mac, tim: bool)
    requires cfg.htOption && cfg.started && cfg.htInfoEnable
    requires m in s.book.stas && HtFollows(s) && s.air.ht == s.beacon.ht && HtExact(cfg, s) && Conserved(s.book)
    ensures var t := LeaveStep(cfg, s, m, tim);
            t.air.ht == t.beacon.ht <==> !LastToShow(cfg, s, m) || tim || Notable(cfg, s.book, m, false, false, false)
  {
    LeaveOnAirExactly(cfg, s, m, tim);
    LeaveShiftsExactly(cfg, s, m);
  }

  // Refreshing only on a positive return is enough, over every run with HT on
  // or without a start of the BSS.
  lemma {:induction false} HtFieldOverRuns(cfg: Config, s: State, es: seq<Event>)
    requires cfg.htOption ==> cfg.started && cfg.htInfoEnable
    requires HtFollows(s) && (cfg.htOption || forall i | 0 <= i < |es| :: !es[i].ApStart?)
    ensures HtFollows(Run(cfg, s, es))
  {
    if es != [] {
      HtFieldOverRuns(cfg, s, es[..|es| - 1]);
      StepFollows(cfg, Run(cfg, s, es[..|es| - 1]), es[|es| - 1]);
    }
  }

  // The last client without greenfield leaves: the word in the buffer changes,
  // the beacon on the air does not.
  lemma LeaveNotOnAir()
    ensures var cfg := Config(true, true, true, true, true, true, true, true, true, true, false);
            var fields := Fields(None, Some(HtInfo({}, {2})));
            var s := State(Book(map[1 := {NoGf}], map[NoGf := 1], false), {2}, false, false, false, fields, fields, false, 1);
            var t := LeaveStep(cfg, s, 1, false);
            HtFollows(s) && s.air == s.beacon && HtFollows(t) && t.air.ht != t.beacon.ht
  {
    var cfg := Config(true, true, true, true, true, true, true, true, true, true, false);
    var fields := Fields(None, Some(HtInfo({}, {2})));
    var s := State(Book(map[1 := {NoGf}], map[NoGf := 1], false), {2}, false, false, false, fields, fields, false, 1);
    LeaveOnAirExactly(cfg, s, 1, false);
    LoneLeaves(1, NoGf);
    CallsForNothing(cfg, s.(book := Do(s.book, 1, LeaveMoves())));
  }

  lemma LoneLeaves(m: Mac, f: Flag)
    ensures var r := Do(Book(map[m := {f}], map[f := 1], false), m, LeaveMoves()); forall g: Flag :: Of(r.num, g) == 0
  {
    forall g: Flag ensures Of(Do(Book(map[m := {f}], map[f := 1], false), m, LeaveMoves()).num, g) == 0 {
      match g case NoShortPreamble | NonErp | NoShortSlot | NoHt | NoGf | Ht20 | Intolerant40 =>
    }
  }

  lemma CallsForNothing(cfg: Config, s: State)
    requires !s.legacy && forall g: Flag :: Of(s.book.num, g) == 0
    ensures Wanted(cfg, s) == s.op - {0, 1, 2, 4}
  {
    assert Of(s.book.num, NoHt) == Of(s.book.num, Ht20) == Of(s.book.num, NoGf) == 0;
  }

  // A scan that ends while a non-HT station is associated drives
  // num_sta_no_ht to -1 once the station leaves, and the counter, tested for
  // being nonzero, keeps mixed mode on with nobody associated.
  lemma ScanLeavesNegative(cfg: Config, s: State, m: Mac, tim: bool)
    requires cfg.htOption && Conserved(s.book)
    requires s.book.stas.Keys == {m} && NoHt in s.book.stas[m]
    ensures var t := Run(cfg, s, [AfterScan(false), Leave(m, tim)]);
            t.book.stas == map[m := {}] && Of(t.book.num, NoHt) == -1 && t.op * OP_MODE_MASK == MIXED
  {
    var e1, e2 := AfterScan(false), Leave(m, tim);
    RunSnoc(cfg, s, [], e1);
    RunSnoc(cfg, s, [e1], e2);
    assert [] + [e1] == [e1] && [e1] + [e2] == [e1, e2];
    var s1 := Apply(cfg, s, e1);
    ResetThenLeave(s.book, m);
    LeaveKeepsHt(cfg, s1, m, tim);
  }

  lemma ResetThenLeave(b: Book, m: Mac)
    requires Conserved(b) && b.stas.Keys == {m} && NoHt in b.stas[m]
    ensures var r := Do(b.(num := b.num[NoHt := 0]), m, LeaveMoves());
            r.stas == map[m := {}] && Of(r.num, NoHt) == -1
  {
    var reset := b.(num := b.num[NoHt := 0]);
    LeaveClears(reset, m);
    var r := Do(reset, m, LeaveMoves());
    assert r.stas.Keys == {m} && r.stas[m] == {};
  }

  // ------------------------------------------------------------------
  // Channel width
  // ------------------------------------------------------------------

  // The AP runs at 20 MHz exactly while something asks for it.
  predicate WidthCurrent(s: State) {
    s.narrow <==> Restricted(s)
  }

  // At 20 MHz the HT Operation element says so.
  predicate NarrowShown(s: State) {
    s.beacon.ht.Some? && (s.narrow ==> s.beacon.ht.value.info * (SECONDARY + STA_WIDTH) == {})
  }

  predicate WidthManaged(cfg: Config, s: State) {
    cfg.started && cfg.htOption && cfg.htInfoEnable && cfg.below15 && cfg.bw40 && s.beacon.ht.Some?
  }

  // A refresh decides the width, and shows it.
  lemma RefreshDecidesWidth(cfg: Config, s: State)
    requires WidthManaged(cfg, s) && Of(s.book.num, Intolerant40) >= 0
    ensures WidthCurrent(RefreshHt(cfg, s))
    ensures NarrowShown(s) ==> NarrowShown(RefreshHt(cfg, s))
  {
  }

  /**
   * A join or a leave refreshes the element only when the operation mode
   * changes, so the width stays right exactly then or when the demand for
   * 20 MHz does not change.
   */
  lemma PublishWidthExactly(cfg: Config, s: State, b: Book, erp: bool, told: bool, ht: bool, tellHt: bool)
    requires WidthManaged(cfg, s) && Of(b.num, Intolerant40) >= 0 && WidthCurrent(s)
    ensures var t := Publish(cfg, s, b, erp, told, ht, tellHt);
            WidthCurrent(t) <==> (ht && Shifts(cfg, s, b)) || (Restricted(s.(book := b)) <==> Restricted(s))
  {
    var u := if erp then RefreshErp(cfg, s.(book := b)) else s.(book := b);
    RefreshDecidesWidth(cfg, HtUpdate(cfg, u));
  }

  // The station is the only thing that asks for 20 MHz.
  predicate LastToAsk(s: State, m: Mac)
    requires m in s.book.stas
  {
    Intolerant40 in s.book.stas[m] && Of(s.book.num, Intolerant40) == 1 && !s.widthReq && !s.reported && !s.legacy
  }

  /**
   * After a leave the width is wrong exactly when the station was the last to
   * ask for 20 MHz and nothing else about it showed in the mode.
   */
  lemma LeaveWidthExactly(cfg: Config, s: State, m: Mac, tim: bool)
    requires WidthManaged(cfg, s) && m in s.book.stas && Drift(s.book, Intolerant40) >= 0 && WidthCurrent(s)
    ensures WidthCurrent(LeaveStep(cfg, s, m, tim)) <==>
              Shifts(cfg, s, Do(s.book, m, LeaveMoves())) || !LastToAsk(s, m)
    ensures HtExact(cfg, s) && Conserved(s.book) ==>
              (WidthCurrent(LeaveStep(cfg, s, m, tim)) <==> LastToShow(cfg, s, m) || !LastToAsk(s, m))
  {
    var b := Do(s.book, m, LeaveMoves());
    LeaveAsks(s, m);
    var erp, told := Crosses(false, s.book, m, NonErp), tim || Notable(cfg, s.book, m, false, false, false);
    PublishWidthExactly(cfg, s, b, erp, told, true, false);
    if HtExact(cfg, s) && Conserved(s.book) {
      LeaveShiftsExactly(cfg, s, m);
    }
  }

  lemma LeaveAsks(s: State, m: Mac)
    requires m in s.book.stas && Drift(s.book, Intolerant40) >= 0
    ensures var b := Do(s.book, m, LeaveMoves());
            Of(b.num, Intolerant40) >= 0 && ((Restricted(s.(book := b)) <==> Restricted(s)) <==> !LastToAsk(s, m))
  {
    var b := Do(s.book, m, LeaveMoves());
    assert Of(b.num, Intolerant40) == Moved(s.book, m, Intolerant40, false);
    if Intolerant40 in s.book.stas[m] {
      HeldIsCounted(s.book, m, Intolerant40);
    }
  }

  // A coexistence frame keeps the width right: what it changes it refreshes.
  lemma CoexKeepsWidth(cfg: Config, s: State, m: Mac, body: seq<bv8>)
    requires WidthManaged(cfg, s) && m in s.book.stas && Drift(s.book, Intolerant40) >= 0 && WidthCurrent(s)
    ensures WidthCurrent(CoexStep(cfg, s, m, body))
  {
    DoDrift(s.book, m, CoexMoves(body), Intolerant40);
    RefreshDecidesWidth(cfg, CoexTaken(s, m, body));
  }

  // The only client that asked for 20 MHz leaves, and the AP stays at 20 MHz.
  lemma LeaveStaysNarrow()
    ensures var cfg := Config(true, true, true, true, true, true, true, true, true, true, false);
            var fields := Fields(None, Some(HtInfo({}, {})));
            var s := State(Book(map[1 := {Intolerant40}], map[Intolerant40 := 1], false), {}, false, false, false, fields, fields, true, 1);
            WidthCurrent(s) && !WidthCurrent(LeaveStep(cfg, s, 1, false))
  {
    var cfg := Config(true, true, true, true, true, true, true, true, true, true, false);
    var fields := Fields(None, Some(HtInfo({}, {})));
    var s := State(Book(map[1 := {Intolerant40}], map[Intolerant40 := 1], false), {}, false, false, false, fields, fields, true, 1);
    LoneLeaves(1, Intolerant40);
    var b := Do(s.book, 1, LeaveMoves());
    CallsForNothing(cfg, s.(book := b));
    assert Holders(s.book.stas, Intolerant40) == {1};
    LeaveWidthExactly(cfg, s, 1, false);
  }
}
