/**
 * Broadcast and multicast frames held back while stations sleep
 * (core/rtw_ap.c, rtw_ap_bmc_frames_hdl, and the buffering side in
 * core/rtw_xmit.c).
 */
module BmcDrain {

  const HIQ_XMIT_COUNTS: nat := 6

  datatype Frame = Frame(id: nat, moreData: bool, triggered: bool, highQueue: bool)

  // sleepq and sleepqLen of the broadcast station, bit 0 of the TIM and doze
  // bitmaps, and everything handed on for transmission so far.
  datatype State = State(sleepq: seq<Frame>, sleepqLen: int, tim0: bool, doze0: bool, out: seq<Frame>)

  datatype Event =
    | Arrive(frame: Frame, someoneDozing: bool)
    | Drain
    | AllAwake   // the last dozing station woke up

  // A released batch: More Data on all but the last frame.
  function Marked(xs: seq<Frame>): seq<Frame> {
    seq(|xs|, i requires 0 <= i < |xs| => Released(xs[i], i < |xs| - 1))
  }

  function Released(f: Frame, more: bool): Frame {
    f.(moreData := more, triggered := true, highQueue := true)
  }

  // Everything at once, marked the same way, on the queue each frame has.
  function Woken(xs: seq<Frame>): seq<Frame> {
    seq(|xs|, i requires 0 <= i < |xs| => xs[i].(moreData := i < |xs| - 1, triggered := true))
  }

  function Batch(n: nat): nat {
    if n < HIQ_XMIT_COUNTS then n else HIQ_XMIT_COUNTS
  }

  function Apply(s: State, e: Event): State {
    match e
    case Arrive(f, someoneDozing) =>
      if someoneDozing || s.doze0
      then s.(sleepq := s.sleepq + [f], sleepqLen := s.sleepqLen + 1, tim0 := true, doze0 := true)
      else s.(out := s.out + [f])
    case Drain =>
      if s.tim0 && s.sleepqLen > 0 then
        var k := Batch(|s.sleepq|);
        s.(sleepq := s.sleepq[k..], sleepqLen := s.sleepqLen - k, out := s.out + Marked(s.sleepq[..k]))
      else if s.sleepqLen == 0 then s.(tim0 := false, doze0 := false)
      else s
    case AllAwake => State([], 0, false, false, s.out + Woken(s.sleepq))
  }

  function Run(s: State, es: seq<Event>): State {
    if es == [] then s else Apply(Run(s, es[..|es| - 1]), es[|es| - 1])
  }

  // While frames are held back, both bits are set.
  ghost predicate Inv(s: State) {
    s.sleepqLen == |s.sleepq| && (s.sleepq != [] ==> s.tim0 && s.doze0)
  }

  function Ids(xs: seq<Frame>): seq<nat> {
    seq(|xs|, i requires 0 <= i < |xs| => xs[i].id)
  }

  function Arrivals(es: seq<Event>): seq<nat> {
    if es == [] then []
    else
      var front := Arrivals(es[..|es| - 1]);
      if es[|es| - 1].Arrive? then front + [es[|es| - 1].frame.id] else front
  }

  lemma StepConserves(s: State, e: Event)
    requires Inv(s)
    ensures var t := Apply(s, e);
            && Inv(t)
            && Ids(t.out) + Ids(t.sleepq) == Ids(s.out) + Ids(s.sleepq) + if e.Arrive? then [e.frame.id] else []
  {
    var t := Apply(s, e);
    match e
    case Arrive(f, dozing) =>
      if !(dozing || s.doze0) {
        assert s.sleepq == [];
      }
    case Drain => if s.tim0 && s.sleepqLen > 0 { Moves(s.out, s.sleepq, Batch(|s.sleepq|)); }
    case AllAwake => assert Ids(s.out + Woken(s.sleepq)) == Ids(s.out) + Ids(s.sleepq);
  }

  lemma Moves(out: seq<Frame>, q: seq<Frame>, k: nat)
    requires k <= |q|
    ensures Ids(out + Marked(q[..k])) + Ids(q[k..]) == Ids(out) + Ids(q)
  {
    assert Ids(out + Marked(q[..k])) == Ids(out) + Ids(q)[..k];
    assert Ids(q[k..]) == Ids(q)[k..];
  }

  /**
   * Over every run of arrivals, drains and wake-ups no frame is lost, doubled or
   * overtaken, directly sent ones included, and the length kept is the length
   * of the queue.
   */
  lemma {:induction false} FifoOverRuns(s: State, es: seq<Event>)
    requires Inv(s)
    ensures var t := Run(s, es); Inv(t) && Ids(t.out) + Ids(t.sleepq) == Ids(s.out) + Ids(s.sleepq) + Arrivals(es)
  {
    if es != [] {
      var front := es[..|es| - 1];
      FifoOverRuns(s, front);
      StepConserves(Run(s, front), es[|es| - 1]);
    } else {
      assert Ids(s.out) + Ids(s.sleepq) + [] == Ids(s.out) + Ids(s.sleepq);
    }
  }

  // A batch as the stations hear it: the frames of `xs` in order, each saying
  // exactly whether another one of the batch follows.
  predicate Announces(batch: seq<Frame>, xs: seq<Frame>) {
    |batch| == |xs| &&
    forall i | 0 <= i < |xs| :: batch[i].id == xs[i].id && batch[i].triggered && (batch[i].moreData <==> i + 1 < |xs|)
  }

  /**
   * Over every run: a drain hands over the first min(6, length) frames held back,
   * on the high queue, and the last wake-up all of them, each frame with More
   * Data exactly where another of its batch follows; a frame sent at once is
   * not touched, and nothing else is handed over.
   */
  lemma BatchesAnnounce(s: State, es: seq<Event>, e: Event)
    requires Inv(s)
    ensures var mid := Run(s, es);
            var t := Apply(mid, e);
            && mid.out <= t.out
            && var batch := t.out[|mid.out|..];
               match e
               case Arrive(f, dozing) => batch == if dozing || mid.doze0 then [] else [f]
               case Drain =>
                 var n := if |mid.sleepq| < 6 then |mid.sleepq| else 6;
                 Announces(batch, mid.sleepq[..n]) && forall f | f in batch :: f.highQueue
               case AllAwake =>
                 Announces(batch, mid.sleepq) && forall i | 0 <= i < |batch| :: batch[i].highQueue == mid.sleepq[i].highQueue
  {
    FifoOverRuns(s, es);
    var mid := Run(s, es);
    var t := Apply(mid, e);
    var batch := t.out[|mid.out|..];
    if e.Drain? && mid.sleepq != [] {
      assert batch == Marked(mid.sleepq[..Batch(|mid.sleepq|)]);
    }
    if e.AllAwake? {
      assert batch == Woken(mid.sleepq);
    }
  }

  // A number of drains in a row.
  function Drains(n: nat): (es: seq<Event>)
    ensures |es| == n && forall i | 0 <= i < n :: es[i] == Drain
  {
    seq(n, _ => Drain)
  }

  // n drains in a row release the first 6n frames, or all there are.
  lemma {:induction false} DrainsRelease(s: State, n: nat)
    requires Inv(s)
    ensures var t := Run(s, Drains(n));
            && Inv(t)
            && t.sleepq == s.sleepq[if HIQ_XMIT_COUNTS * n < |s.sleepq| then HIQ_XMIT_COUNTS * n else |s.sleepq|..]
  {
    if n > 0 {
      assert Drains(n)[..n - 1] == Drains(n - 1);
      DrainsRelease(s, n - 1);
      StepConserves(Run(s, Drains(n - 1)), Drain);
    }
  }

  /**
   * With no more arrivals, k frames are all out after n drains exactly when
   * 6n >= k, and the broadcast bit of the TIM is off exactly one drain later, and
   * with it the one that holds frames back.
   */
  lemma DrainedExactly(s: State, n: nat)
    requires Inv(s) && s.tim0
    ensures var t := Run(s, Drains(n));
            && (t.sleepq == [] <==> 6 * n >= |s.sleepq|)
            && (!t.tim0 <==> n > 0 && 6 * (n - 1) >= |s.sleepq|)
            && (t.doze0 <==> s.doze0 && t.tim0)
    decreases n
  {
    DrainsRelease(s, n);
    if n > 0 {
      assert Drains(n)[..n - 1] == Drains(n - 1);
      DrainedExactly(s, n - 1);
      DrainsRelease(s, n - 1);
    }
  }

  class Buffer {
    var sleepq: seq<Frame>
    var sleepqLen: int
    var tim0: bool
    var doze0: bool
    var out: seq<Frame>

    ghost function Snapshot(): State
      reads this
    {
      State(sleepq, sleepqLen, tim0, doze0, out)
    }

    method Hold(f: Frame, someoneDozing: bool)
      modifies this
      ensures Snapshot() == Apply(old(Snapshot()), Arrive(f, someoneDozing))
    {
      if someoneDozing || doze0 {
        sleepq := sleepq + [f];
        sleepqLen := sleepqLen + 1;
        tim0, doze0 := true, true;
      } else {
        out := out + [f];
      }
    }

    /**
     * The drain loop: frames leave one at a time from the head of the queue, at
     * most six, each marked as it goes.  Only the certification setting uses it.
     */
    method DrainSome(wifiSpec: bool)
      requires Inv(Snapshot())
      modifies this
      ensures Inv(Snapshot()) && Snapshot() == if wifiSpec then Apply(old(Snapshot()), Drain) else old(Snapshot())
    {
      if !wifiSpec {
        return;
      }
      if tim0 && sleepqLen > 0 {
        var txCounts: nat := 0;
        ghost var q, sent := sleepq, out;
        while sleepq != []
          invariant txCounts < HIQ_XMIT_COUNTS && txCounts <= |q| && tim0 && doze0
          invariant sleepq == q[txCounts..] && sleepqLen == |sleepq|
          invariant out == sent + seq(txCounts, i requires 0 <= i < txCounts => Released(q[i], i < Batch(|q|) - 1))
          decreases |sleepq|
        {
          var f := sleepq[0];
          sleepq := sleepq[1..];
          sleepqLen := sleepqLen - 1;
          txCounts := txCounts + 1;
          f := f.(moreData := sleepqLen > 0);
          if txCounts == HIQ_XMIT_COUNTS {
            f := f.(moreData := false);
          }
          f := f.(triggered := true, highQueue := true);
          out := out + [f];
          if txCounts == HIQ_XMIT_COUNTS {
            break;
          }
        }
      } else if sleepqLen == 0 {
        tim0, doze0 := false, false;
      }
    }

    // The other way out of the queue, when nobody dozes any more.
    method WakeAll()
      requires Inv(Snapshot())
      modifies this
      ensures Inv(Snapshot()) && Snapshot() == Apply(old(Snapshot()), AllAwake)
    {
      ghost var q, sent, n := sleepq, out, 0;
      while sleepq != []
        invariant n <= |q| && sleepq == q[n..] && sleepqLen == |sleepq|
        invariant out == sent + seq(n, i requires 0 <= i < n => q[i].(moreData := i < |q| - 1, triggered := true))
        decreases |sleepq|
      {
        var f := sleepq[0];
        sleepq := sleepq[1..];
        sleepqLen := sleepqLen - 1;
        out := out + [f.(moreData := sleepqLen > 0, triggered := true)];
        n := n + 1;
      }
      tim0, doze0 := false, false;
    }
  }
}
