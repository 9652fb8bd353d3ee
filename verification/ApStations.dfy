/**
 * The soft AP's station records, counters and beacon octets as an object changed
 * in place (core/rtw_ap.c), proved to follow the specification in `StaCounters`.
 */
module ApStations {
  import opened StaCounters

  // One flag moved, as a plain update of the book.
  lemma DoOne(b: Book, m: Mac, f: Flag, c: bool)
    requires m in b.stas && forall g: Flag :: g in b.num
    ensures Do(b, m, map[f := c])
         == Book(b.stas[m := if c then b.stas[m] + {f} else b.stas[m] - {f}], b.num[f := Moved(b, m, f, c)],
                 b.warned || (f == Intolerant40 && !c && Warns(b, m)))
  {
    var r := Do(b, m, map[f := c]);
    assert r.stas[m] == if c then b.stas[m] + {f} else b.stas[m] - {f};
    assert r.num == b.num[f := Moved(b, m, f, c)];
  }

  lemma ThenAt(b: Book, m: Mac, xs: Moves, f: Flag, c: bool, g: Flag)
    requires m in b.stas && f !in xs
    ensures var s, t := Do(Do(b, m, xs), m, map[f := c]), Do(b, m, xs[f := c]);
            (g in s.stas[m] <==> g in t.stas[m]) && s.num[g] == t.num[g]
  {
  }

  // Moves of different flags made one after the other are made together.
  lemma Then(b: Book, m: Mac, xs: Moves, f: Flag, c: bool)
    requires m in b.stas && f !in xs
    ensures Do(Do(b, m, xs), m, map[f := c]) == Do(b, m, xs[f := c])
  {
    var s, t := Do(Do(b, m, xs), m, map[f := c]), Do(b, m, xs[f := c]);
    forall g: Flag ensures (g in s.stas[m] <==> g in t.stas[m]) && s.num[g] == t.num[g] {
      ThenAt(b, m, xs, f, c, g);
    }
    SameBook(b, m, s, t);
  }

  lemma ThenCrosses(b: Book, m: Mac, xs: Moves, f: Flag, c: bool)
    requires m in b.stas && f !in xs
    ensures Crosses(c, Do(b, m, xs), m, f) == Crosses(c, b, m, f)
  {
  }

  lemma SameBook(b: Book, m: Mac, s: Book, t: Book)
    requires m in s.stas && m in t.stas
    requires s.stas == b.stas[m := s.stas[m]] && t.stas == b.stas[m := t.stas[m]] && s.warned == t.warned
    requires forall g: Flag :: g in s.num && g in t.num && s.num[g] == t.num[g] && (g in s.stas[m] <==> g in t.stas[m])
    ensures s == t
  {
    assert s.stas[m] == t.stas[m] && s.num == t.num;
  }

  lemma DoNone(b: Book, m: Mac)
    requires m in b.stas && forall g: Flag :: g in b.num
    ensures Do(b, m, map[]) == b
  {
    var r := Do(b, m, map[]);
    assert r.stas[m] == b.stas[m];
    assert r.stas == b.stas && r.num == b.num;
  }

  // Some moves made on state `s`, with the ERP element refreshed if NonERP
  // was among them and its count crossed.
  ghost function Staged(cfg: Config, s: State, m: Mac, xs: Moves): (r: State)
    requires m in s.book.stas
    ensures r.book == Do(s.book, m, xs)
  {
    var t := s.(book := Do(s.book, m, xs));
    if NonErp in xs && Crosses(xs[NonErp], s.book, m, NonErp) then RefreshErp(cfg, t) else t
  }

  // The element may be refreshed before counters it does not show are moved.
  lemma StagedMore(cfg: Config, s: State, m: Mac, xs: Moves, f: Flag, c: bool)
    requires m in s.book.stas && f !in xs && f != NonErp && (NonErp in xs ==> f != NoShortPreamble)
    ensures Staged(cfg, s, m, xs).(book := Do(s.book, m, xs[f := c])) == Staged(cfg, s, m, xs[f := c])
  {
    var b, d := Do(s.book, m, xs), Do(s.book, m, xs[f := c]);
    assert Of(d.num, NonErp) == Of(b.num, NonErp);
    assert NonErp in xs ==> Of(d.num, NoShortPreamble) == Of(b.num, NoShortPreamble);
  }

  lemma StagedErp(cfg: Config, s: State, m: Mac, xs: Moves, c: bool)
    requires m in s.book.stas && NonErp !in xs
    ensures var t := Staged(cfg, s, m, xs).(book := Do(s.book, m, xs[NonErp := c]));
            Staged(cfg, s, m, xs[NonErp := c]) == if Crosses(c, s.book, m, NonErp) then RefreshErp(cfg, t) else t
  {
  }

  // Publishing is making the moves, updating the operation mode and handing over.
  lemma PublishIsStaged(cfg: Config, s: State, m: Mac, xs: Moves, told: bool, ht: bool, tellHt: bool)
    requires m in s.book.stas && NonErp in xs
    ensures var t := Staged(cfg, s, m, xs);
            var u := if ht then HtSync(cfg, t) else t;
            && t.op == s.op
            && Publish(cfg, s, Do(s.book, m, xs), Crosses(xs[NonErp], s.book, m, NonErp), told, ht, tellHt)
            == if told || (tellHt && u.op != s.op) then Transmit(cfg, u) else u
  {
  }

  lemma JoinMovesErp(htAllowed: bool, caps: Caps)
    ensures var xs := JoinMoves(htAllowed, caps); NonErp in xs && xs[NonErp] == caps.nonErp
  {
  }

  lemma JoinIsStaged(cfg: Config, s: State, m: Mac, caps: Caps)
    requires m in s.book.stas
    ensures var t := Staged(cfg, s, m, JoinMoves(cfg.htAllowed, caps));
            var u := if cfg.htAllowed then HtSync(cfg, t) else t;
            && t.op == s.op
            && JoinStep(cfg, s, m, caps)
            == if Notable(cfg, s.book, m, !caps.shortPreamble, caps.nonErp, !caps.shortSlot) || u.op != s.op
               then Transmit(cfg, u) else u
  {
    var xs := JoinMoves(cfg.htAllowed, caps);
    JoinMovesErp(cfg.htAllowed, caps);
    PublishIsStaged(cfg, s, m, xs, Notable(cfg, s.book, m, !caps.shortPreamble, caps.nonErp, !caps.shortSlot), cfg.htAllowed, true);
  }

  lemma LeaveIsStaged(cfg: Config, s: State, m: Mac, tim: bool)
    requires m in s.book.stas
    ensures var u := HtSync(cfg, Staged(cfg, s, m, LeaveMoves()));
            LeaveStep(cfg, s, m, tim)
            == if tim || Notable(cfg, s.book, m, false, false, false) then Transmit(cfg, u) else u
  {
    var xs := LeaveMoves();
    assert NonErp in xs && xs[NonErp] == false;
    PublishIsStaged(cfg, s, m, xs, tim || Notable(cfg, s.book, m, false, false, false), true, false);
  }

  lemma HtMovesChain(xs: Moves, caps: Caps)
    requires xs.Keys == {NoShortPreamble, NonErp, NoShortSlot}
    ensures caps.ht ==>
              var ws := xs[NoHt := false];
              var ys := if caps.greenfield then ws else ws[NoGf := true];
              var zs := if caps.width40 then ys else ys[Ht20 := true];
              xs + HtMoves(caps) == if caps.intolerant40 then zs[Intolerant40 := true] else zs
    ensures !caps.ht ==> xs + HtMoves(caps) == xs[NoHt := true]
  {
  }

  lemma LeaveMovesChain()
    ensures LegacyMoves(false, false, false)[NoGf := false][NoHt := false][Ht20 := false][Intolerant40 := false] == LeaveMoves()
  {
  }

  // A mask of one bit, written only where it differs.
  method SetBit(w: Word, bit: nat, on: bool) returns (r: Word, changes: nat)
    ensures r == if on then w + {bit} else w - {bit}
    ensures changes == 0 <==> (bit in w <==> on)
  {
    r, changes := w, 0;
    if w * {bit} == {} && on {
      r, changes := w + {bit}, 1;
    } else if w * {bit} != {} && !on {
      r, changes := w - {bit}, 1;
    }
    assert bit in w <==> bit in w * {bit};
  }

  // The three parts, one after the other, are the word wanted, and it is the
  // old word exactly if each part was right.
  lemma ModeIsWanted(w: Word, nonGf: bool, nonHt: bool, mode: Word)
    requires mode <= OP_MODE_MASK
    ensures var a := if nonGf then w + {2} else w - {2};
            var b := if nonHt then a + {4} else a - {4};
            var c := if b * OP_MODE_MASK != mode then b - OP_MODE_MASK + mode else b;
            && c == (w - OP_MODE_MASK - NON_GF - NON_HT) + mode + (if nonGf then NON_GF else {}) + (if nonHt then NON_HT else {})
            && (c == w <==> (2 in w <==> nonGf) && (4 in w <==> nonHt) && b * OP_MODE_MASK == mode)
  {
    var a := if nonGf then w + {2} else w - {2};
    var b := if nonHt then a + {4} else a - {4};
    var c := if b * OP_MODE_MASK != mode then b - OP_MODE_MASK + mode else b;
    assert forall i :: i in mode ==> i == 0 || i == 1;
    assert forall i :: i in b * OP_MODE_MASK <==> i in b && (i == 0 || i == 1);
    assert c == b - OP_MODE_MASK + mode;
    assert c * OP_MODE_MASK == mode;
    assert b * OP_MODE_MASK == w * OP_MODE_MASK;
  }

  class Ap {
    const cfg: Config
    var stas: map<Mac, set<Flag>>
    var num: Counters
    var op: Word
    var legacy: bool
    var widthReq: bool
    var reported: bool
    var beacon: Fields
    var air: Fields
    var warned: bool
    var narrow: bool
    var ticks: nat

    ghost predicate Valid()
      reads this
    {
      forall f: Flag :: f in num
    }

    ghost function Ledger(): Book
      reads this
    {
      Book(stas, num, warned)
    }

    ghost function Snapshot(): State
      reads this
    {
      State(Ledger(), op, legacy, widthReq, reported, beacon, air, narrow, ticks)
    }

    // The state after a stop: no station, all counters zero.
    constructor (cfg: Config, beacon: Fields)
      ensures Valid() && Conserved(Ledger()) && stas == map[] && this.cfg == cfg && this.beacon == beacon
      ensures !legacy && !widthReq && !reported && !warned && !narrow && ticks == 1
    {
      this.cfg := cfg;
      stas := map[];
      num := map[NoShortPreamble := 0, NonErp := 0, NoShortSlot := 0, NoHt := 0, NoGf := 0, Ht20 := 0, Intolerant40 := 0];
      op, ticks := {}, 1;
      legacy, widthReq, reported, warned, narrow := false, false, false, false, false;
      this.beacon, air := beacon, beacon;
      new;
      forall f: Flag ensures Drift(Ledger(), f) == 0 {
        assert Holders(stas, f) == {};
        match f case NoShortPreamble | NonErp | NoShortSlot | NoHt | NoGf | Ht20 | Intolerant40 =>
      }
      forall f: Flag ensures f in num {
        match f case NoShortPreamble | NonErp | NoShortSlot | NoHt | NoGf | Ht20 | Intolerant40 =>
      }
    }

    // A flag is set and counted; `first` says that the count went from 0 to 1.
    method Raise(m: Mac, f: Flag) returns (first: bool)
      requires Valid() && m in stas
      modifies this`stas, this`num
      ensures Valid() && Ledger() == Do(old(Ledger()), m, map[f := true])
      ensures first == Crosses(true, old(Ledger()), m, f)
    {
      first := false;
      DoOne(Ledger(), m, f, true);
      if f !in stas[m] {
        stas := stas[m := stas[m] + {f}];
        num := num[f := num[f] + 1];
        first := num[f] == 1;
      } else {
        assert stas[m] + {f} == stas[m];
        assert stas == stas[m := stas[m]] && num == num[f := num[f]];
      }
    }

    // A flag is cleared and uncounted; `last` says that the count went from 1 to 0.
    method Lower(m: Mac, f: Flag) returns (last: bool)
      requires Valid() && m in stas && f != Intolerant40
      modifies this`stas, this`num
      ensures Valid() && Ledger() == Do(old(Ledger()), m, map[f := false])
      ensures last == Crosses(false, old(Ledger()), m, f)
    {
      last := false;
      DoOne(Ledger(), m, f, false);
      if f in stas[m] {
        stas := stas[m := stas[m] - {f}];
        num := num[f := num[f] - 1];
        last := num[f] == 0;
      } else {
        assert stas[m] - {f} == stas[m];
        assert stas == stas[m := stas[m]] && num == num[f := num[f]];
      }
    }

    // The same for the counter with the guarded decrement.
    method LowerIntolerant(m: Mac)
      requires Valid() && m in stas
      modifies this`stas, this`num, this`warned
      ensures Valid() && Ledger() == Do(old(Ledger()), m, map[Intolerant40 := false])
    {
      DoOne(Ledger(), m, Intolerant40, false);
      if Intolerant40 in stas[m] {
        stas := stas[m := stas[m] - {Intolerant40}];
        if num[Intolerant40] > 0 {
          num := num[Intolerant40 := num[Intolerant40] - 1];
        } else {
          warned := true;
        }
      } else {
        assert stas[m] - {Intolerant40} == stas[m];
        assert stas == stas[m := stas[m]] && num == num[Intolerant40 := num[Intolerant40]];
      }
    }

    // The two masks of the ERP octet.
    method UpdateErp()
      modifies this`beacon
      ensures Snapshot() == RefreshErp(cfg, old(Snapshot()))
    {
      if !cfg.started || !cfg.erpEnable {
        return;
      }
      if beacon.erp.Some? {
        var octet := beacon.erp.value;
        if Of(num, NonErp) == 1 {
          octet := octet + PROTECTION;
        } else {
          octet := octet - PROTECTION;
        }
        if Of(num, NoShortPreamble) > 0 {
          octet := octet + BARKER;
        } else {
          octet := octet - BARKER;
        }
        assert octet == ErpOctet(beacon.erp.value, Of(num, NonErp) == 1, Of(num, NoShortPreamble) > 0);
        beacon := beacon.(erp := Some(octet));
      }
    }

    // The channel width goes down or back up, and the operation mode is copied.
    method UpdateHt()
      requires Valid()
      modifies this`beacon, this`narrow
      ensures Snapshot() == RefreshHt(cfg, old(Snapshot()))
    {
      if !cfg.htOption || !cfg.htInfoEnable || !cfg.started {
        return;
      }
      if beacon.ht.Some? {
        var info := beacon.ht.value.info;
        if !narrow && cfg.below15 {
          if num[Intolerant40] > 0 || widthReq || reported || legacy {
            info := info - SECONDARY;
            info := info - STA_WIDTH;
            narrow := true;
          }
        } else {
          if num[Intolerant40] == 0 && !widthReq && !reported && !legacy {
            if cfg.bw40 {
              info := info + STA_WIDTH;
              info := (info - SECONDARY) + (if cfg.above then {0} else {0, 1});
              narrow := false;
            }
          }
        }
        assert info == WidthInfo(cfg, old(Snapshot()), beacon.ht.value.info);
        beacon := beacon.(ht := Some(HtInfo(info, op)));
      }
    }

    method Send()
      modifies this`air
      ensures Snapshot() == Transmit(cfg, old(Snapshot()))
    {
      if cfg.started {
        air := beacon;
      }
    }

    // The operation mode is brought up to date mask by mask, and the changes
    // are counted.
    method NewMode() returns (w: Word, changes: nat)
      ensures w == Wanted(cfg, Snapshot())
      ensures changes == 0 <==> w == op
    {
      var n;
      w, changes := SetBit(op, 2, Of(num, NoGf) != 0);
      w, n := SetBit(w, 4, Of(num, NoHt) != 0 || legacy);
      changes := changes + n;
      var mode := PURE;
      if Of(num, NoHt) != 0 {
        mode := MIXED;
      } else if cfg.apWidth40 && Of(num, Ht20) != 0 {
        mode := SOME_20;
      } else if legacy {
        mode := MAY_BE_LEGACY;
      }
      if w * OP_MODE_MASK != mode {
        w := w - OP_MODE_MASK;
        w := w + mode;
        changes := changes + 1;
      }
      ModeIsWanted(op, Of(num, NoGf) != 0, Of(num, NoHt) != 0 || legacy, mode);
    }

    // The count returned is zero exactly when nothing changed; after a call
    // nothing is left to change, so a second call in a row returns zero.
    method HtOperationUpdate() returns (changes: nat)
      modifies this`op
      ensures Snapshot() == HtUpdate(cfg, old(Snapshot()))
      ensures changes == 0 <==> op == old(op)
      ensures changes == 0 <==> HtUpdate(cfg, old(Snapshot())) == old(Snapshot())
      ensures HtUpdate(cfg, Snapshot()) == Snapshot()
    {
      UpdateTwice(cfg, Snapshot());
      changes := 0;
      if cfg.htOption {
        op, changes := NewMode();
      }
    }

    // An update, and a refresh of the beacon's copy where it changed something.
    method HtSync() returns (changed: bool)
      requires Valid()
      modifies this`op, this`beacon, this`narrow
      ensures Snapshot() == StaCounters.HtSync(cfg, old(Snapshot()))
      ensures changed <==> op != old(op)
    {
      var changes := HtOperationUpdate();
      changed := changes > 0;
      if changed {
        UpdateHt();
      }
    }

    // Sets or clears a flag after the moves `xs` were made on state `s`.
    method Next(m: Mac, f: Flag, c: bool, ghost s: State, ghost xs: Moves) returns (crossed: bool)
      requires Valid() && m in s.book.stas && Snapshot() == Staged(cfg, s, m, xs)
      requires f !in xs && f != NonErp && (NonErp in xs ==> f != NoShortPreamble) && (f == Intolerant40 ==> c)
      modifies this`stas, this`num
      ensures Valid() && Snapshot() == Staged(cfg, s, m, xs[f := c])
      ensures crossed == Crosses(c, s.book, m, f)
    {
      Then(s.book, m, xs, f, c);
      ThenCrosses(s.book, m, xs, f, c);
      StagedMore(cfg, s, m, xs, f, c);
      if c {
        crossed := Raise(m, f);
      } else {
        crossed := Lower(m, f);
      }
    }

    // The same for NonERP, whose crossing is shown in the beacon.
    method NextErp(m: Mac, c: bool, ghost s: State, ghost xs: Moves) returns (crossed: bool)
      requires Valid() && m in s.book.stas && Snapshot() == Staged(cfg, s, m, xs) && NonErp !in xs
      modifies this`stas, this`num, this`beacon
      ensures Valid() && Snapshot() == Staged(cfg, s, m, xs[NonErp := c])
      ensures crossed == Crosses(c, s.book, m, NonErp)
    {
      Then(s.book, m, xs, NonErp, c);
      ThenCrosses(s.book, m, xs, NonErp, c);
      StagedErp(cfg, s, m, xs, c);
      if c {
        crossed := Raise(m, NonErp);
      } else {
        crossed := Lower(m, NonErp);
      }
      if crossed {
        UpdateErp();
      }
    }

    // Preamble and NonERP of a station that joins or leaves.
    method PreambleAndErp(m: Mac, noPreamble: bool, nonErp: bool) returns (updated: bool)
      requires Valid() && m in stas
      modifies this`stas, this`num, this`beacon
      ensures Valid()
      ensures Snapshot() == Staged(cfg, old(Snapshot()), m, map[NoShortPreamble := noPreamble, NonErp := nonErp])
      ensures var b := old(Ledger());
              updated == ((cfg.beyond11b && Crosses(noPreamble, b, m, NoShortPreamble)) || Crosses(nonErp, b, m, NonErp))
    {
      ghost var s := Snapshot();
      DoNone(s.book, m);
      var crossed := Next(m, NoShortPreamble, noPreamble, s, map[]);
      updated := cfg.beyond11b && crossed;
      crossed := NextErp(m, nonErp, s, map[NoShortPreamble := noPreamble]);
      updated := updated || crossed;
    }

    // Then its slot time.
    method Legacy(m: Mac, noPreamble: bool, nonErp: bool, noSlot: bool) returns (updated: bool)
      requires Valid() && m in stas
      modifies this`stas, this`num, this`beacon
      ensures Valid() && Snapshot() == Staged(cfg, old(Snapshot()), m, LegacyMoves(noPreamble, nonErp, noSlot))
      ensures updated == Notable(cfg, old(Ledger()), m, noPreamble, nonErp, noSlot)
    {
      ghost var s := Snapshot();
      updated := PreambleAndErp(m, noPreamble, nonErp);
      var crossed := Next(m, NoShortSlot, noSlot, s, map[NoShortPreamble := noPreamble, NonErp := nonErp]);
      updated := updated || (cfg.beyond11b && crossed);
    }

    method NextIf(wanted: bool, m: Mac, f: Flag, ghost s: State, ghost xs: Moves) returns (ghost ys: Moves)
      requires Valid() && m in s.book.stas && Snapshot() == Staged(cfg, s, m, xs)
      requires f !in xs && f != NonErp && f != NoShortPreamble
      modifies this`stas, this`num
      ensures ys == if wanted then xs[f := true] else xs
      ensures Valid() && Snapshot() == Staged(cfg, s, m, ys)
    {
      ys := xs;
      if wanted {
        var crossed := Next(m, f, true, s, xs);
        ys := xs[f := true];
      }
    }

    method HtDetails(m: Mac, caps: Caps, ghost s: State, ghost xs: Moves)
      requires Valid() && m in s.book.stas && Snapshot() == Staged(cfg, s, m, xs)
      requires NoGf !in xs && Ht20 !in xs && Intolerant40 !in xs
      modifies this`stas, this`num
      ensures var ys := if caps.greenfield then xs else xs[NoGf := true];
              var zs := if caps.width40 then ys else ys[Ht20 := true];
              Valid() && Snapshot() == Staged(cfg, s, m, if caps.intolerant40 then zs[Intolerant40 := true] else zs)
    {
      ghost var ys := NextIf(!caps.greenfield, m, NoGf, s, xs);
      ys := NextIf(!caps.width40, m, Ht20, s, ys);
      ys := NextIf(caps.intolerant40, m, Intolerant40, s, ys);
    }

    method JoinHt(m: Mac, caps: Caps, ghost s: State, ghost xs: Moves)
      requires Valid() && m in s.book.stas && Snapshot() == Staged(cfg, s, m, xs)
      requires xs.Keys == {NoShortPreamble, NonErp, NoShortSlot}
      modifies this`stas, this`num
      ensures Valid() && Snapshot() == Staged(cfg, s, m, xs + HtMoves(caps))
    {
      HtMovesChain(xs, caps);
      if caps.ht {
        var crossed := Next(m, NoHt, false, s, xs);
        HtDetails(m, caps, s, xs[NoHt := false]);
      } else {
        var crossed := Next(m, NoHt, true, s, xs);
      }
    }

    method MakeJoinMoves(m: Mac, caps: Caps) returns (updated: bool)
      requires Valid() && m in stas
      modifies this`stas, this`num, this`beacon
      ensures Valid() && Snapshot() == Staged(cfg, old(Snapshot()), m, JoinMoves(cfg.htAllowed, caps))
      ensures updated == Notable(cfg, old(Ledger()), m, !caps.shortPreamble, caps.nonErp, !caps.shortSlot)
    {
      ghost var s := Snapshot();
      ghost var xs := LegacyMoves(!caps.shortPreamble, caps.nonErp, !caps.shortSlot);
      updated := Legacy(m, !caps.shortPreamble, caps.nonErp, !caps.shortSlot);
      if cfg.htAllowed {
        JoinHt(m, caps, s, xs);
      } else {
        assert xs + map[] == xs;
      }
    }

    // A station (re)associates.
    method Join(m: Mac, caps: Caps)
      requires Valid() && m in stas
      modifies this`stas, this`num, this`op, this`beacon, this`narrow, this`air
      ensures Valid() && Snapshot() == Apply(cfg, old(Snapshot()), Event.Join(m, caps))
    {
      JoinIsStaged(cfg, Snapshot(), m, caps);
      var updated := MakeJoinMoves(m, caps);
      if cfg.htAllowed {
        var changed := HtSync();
        updated := updated || changed;
      }
      if updated {
        Send();
      }
    }

    // The last move of a leave, with the guarded decrement.
    method LastMove(m: Mac, ghost s: State, ghost xs: Moves)
      requires Valid() && m in s.book.stas && Snapshot() == Staged(cfg, s, m, xs) && Intolerant40 !in xs
      modifies this`stas, this`num, this`warned
      ensures Valid() && Snapshot() == Staged(cfg, s, m, xs[Intolerant40 := false])
    {
      Then(s.book, m, xs, Intolerant40, false);
      StagedMore(cfg, s, m, xs, Intolerant40, false);
      LowerIntolerant(m);
    }

    method LeaveHt(m: Mac, ghost s: State, ghost xs: Moves)
      requires Valid() && m in s.book.stas && Snapshot() == Staged(cfg, s, m, xs)
      requires NoGf !in xs && NoHt !in xs && Ht20 !in xs && Intolerant40 !in xs
      modifies this`stas, this`num, this`warned
      ensures Valid()
      ensures Snapshot() == Staged(cfg, s, m, xs[NoGf := false][NoHt := false][Ht20 := false][Intolerant40 := false])
    {
      var crossed := Next(m, NoGf, false, s, xs);
      crossed := Next(m, NoHt, false, s, xs[NoGf := false]);
      crossed := Next(m, Ht20, false, s, xs[NoGf := false][NoHt := false]);
      LastMove(m, s, xs[NoGf := false][NoHt := false][Ht20 := false]);
    }

    method MakeLeaveMoves(m: Mac) returns (notable: bool)
      requires Valid() && m in stas
      modifies this`stas, this`num, this`beacon, this`warned
      ensures Valid() && Snapshot() == Staged(cfg, old(Snapshot()), m, LeaveMoves())
      ensures notable == Notable(cfg, old(Ledger()), m, false, false, false)
    {
      ghost var s := Snapshot();
      notable := Legacy(m, false, false, false);
      LeaveHt(m, s, LegacyMoves(false, false, false));
      LeaveMovesChain();
    }

    // A station leaves; the result says that the beacon was handed over.
    method Leave(m: Mac, tim: bool) returns (updated: bool)
      requires Valid() && m in stas
      modifies this`stas, this`num, this`op, this`beacon, this`narrow, this`air, this`warned
      ensures Valid() && Snapshot() == Apply(cfg, old(Snapshot()), Event.Leave(m, tim))
      ensures updated == (tim || Notable(cfg, old(Ledger()), m, false, false, false))
    {
      LeaveIsStaged(cfg, Snapshot(), m, tim);
      updated := MakeLeaveMoves(m);
      updated := tim || updated;
      var changed := HtSync();
      if updated {
        Send();
      }
    }

    // The first information field of a 20/40 BSS Coexistence frame.
    method CoexRequest(m: Mac, body: seq<bv8>) returns (news: bool)
      requires Valid() && m in stas
      modifies this`stas, this`num, this`widthReq
      ensures Valid() && Ledger() == Do(old(Ledger()), m, CoexMoves(body))
      ensures widthReq == (old(widthReq) || AsksWidth(body))
      ensures news == ((AsksIntolerant(body) && Intolerant40 !in old(stas[m])) || (AsksWidth(body) && !old(widthReq)))
    {
      DoNone(Ledger(), m);
      news := false;
      if AsksIntolerant(body) {
        news := Intolerant40 !in stas[m];
        var crossed := Raise(m, Intolerant40);
      } else if AsksWidth(body) {
        news := !widthReq;
        widthReq := true;
      }
    }

    method Resend()
      requires Valid()
      modifies this`beacon, this`narrow, this`air
      ensures Valid() && Snapshot() == Transmit(cfg, RefreshHt(cfg, old(Snapshot())))
    {
      UpdateHt();
      Send();
    }

    method TakeCoex(m: Mac, body: seq<bv8>) returns (news: bool)
      requires Valid() && m in stas
      modifies this`stas, this`num, this`widthReq, this`reported
      ensures Valid() && Snapshot() == CoexTaken(old(Snapshot()), m, body)
      ensures news == CoexNews(old(Snapshot()), m, body)
    {
      news := CoexRequest(m, body);
      if ReportsChannels(body) {
        news := news || !reported;
        reported := true;
      }
    }

    // The whole frame.
    method Coex(m: Mac, body: seq<bv8>)
      requires Valid()
      modifies this`stas, this`num, this`widthReq, this`reported, this`beacon, this`narrow, this`air
      ensures Valid() && Snapshot() == Apply(cfg, old(Snapshot()), Event.Coex(m, body))
    {
      if m in stas {
        var news := TakeCoex(m, body);
        if news {
          Resend();
        }
      }
    }

    // A station record is allocated, is released, a scan ended.
    method Authenticate(m: Mac)
      requires Valid()
      modifies this`stas
      ensures Valid() && Snapshot() == Apply(cfg, old(Snapshot()), Auth(m))
    {
      if m !in stas {
        stas := stas[m := {}];
      }
    }

    method Release(m: Mac)
      requires Valid()
      modifies this`stas
      ensures Valid() && Snapshot() == Apply(cfg, old(Snapshot()), Free(m))
    {
      stas := stas - {m};
    }

    method ScanDone(found: bool)
      requires Valid()
      modifies this`num, this`legacy
      ensures Valid() && Snapshot() == Apply(cfg, old(Snapshot()), AfterScan(found))
    {
      if found {
        legacy := true;
      }
      num := num[NoHt := 0];
    }

    method LegacyBeacon()
      requires Valid()
      modifies this`legacy
      ensures Valid() && Snapshot() == Apply(cfg, old(Snapshot()), LegacySeen)
    {
      legacy := true;
    }

    // The BSS is started.
    method Start()
      requires Valid()
      modifies this`op, this`beacon, this`narrow, this`air
      ensures Valid() && Snapshot() == Apply(cfg, old(Snapshot()), ApStart)
    {
      if cfg.started && legacy {
        op := op - OP_MODE_MASK;
        op := op + MAY_BE_LEGACY;
        UpdateHt();
      }
      air := beacon;
    }

    // The watchdog, every two seconds, with its counter.
    method Tick()
      requires Valid()
      modifies this`op, this`beacon, this`narrow, this`air, this`legacy, this`ticks
      ensures Valid() && Snapshot() == Apply(cfg, old(Snapshot()), Watchdog)
    {
      if !cfg.wifiSpec || !cfg.htAllowed || !cfg.started {
        return;
      }
      var count := ticks;
      if count % 10 == 0 {
        count := 1;
        if !legacy {
          SyncAndSend();
        }
      }
      if legacy {
        SyncAndSend();
        legacy := false;
        count := 0;
      }
      ticks := count + 1;
    }

    method SyncAndSend()
      requires Valid()
      modifies this`op, this`beacon, this`narrow, this`air
      ensures Valid()
      ensures Snapshot() == StaCounters.SyncAndSend(cfg, old(Snapshot()))
    {
      var changed := HtSync();
      if changed {
        Send();
      }
    }
  }
}
