/** The congestion window over whole runs. */
module Congestion {
  // Slow start, congestion avoidance, fast recovery and the retransmission time-out (section 3 of
  // RFC 5681), as statements about what any number of acknowledgements in a run of EndToEnd do to cwnd,
  // whatever else is written, sent, lost or received between them.

  import opened SequenceNumbers
  import opened TcpConfig
  import opened ReceiverSpec
  import opened SendQueues
  import opened SendInvariants
  import opened Acknowledgement
  import opened OutputLaws
  import opened EndToEnd

  // ---------- Steps that leave the congestion window alone ----------

  /** No step but an acknowledgement and the retransmission timer changes these. */
  predicate SameCongestion(st: SndState, r: SndState) {
    && r.cwnd == st.cwnd && r.ssthresh == st.ssthresh && r.mss == st.mss && r.infr == st.infr
    && r.dupacks == st.dupacks && r.lastack == st.lastack && r.wnd == st.wnd && r.wl1 == st.wl1 && r.wl2 == st.wl2
    && (st.timerOn ==> r.timerOn) && (st.unacked != [] ==> r.unacked != [])
  }

  lemma {:induction false} InsertNonEmpty(q: seq<TxSeg>, s: TxSeg)
    ensures InsertUnacked(q, s) != []
  {}

  lemma {:induction false} LoopSame(st: SndState, link: nat)
    ensures SameCongestion(st, OutputLoop(st, link).st)
    decreases |st.unsent|
  {
    if SendsNext(st) && link > 0 {
      InsertNonEmpty(st.unacked, st.unsent[0]);
      LoopSame(SendHead(st), link - 1);
    }
  }

  lemma OutputSame(st: SndState, link: nat, ackAlloc: bool)
    ensures SameCongestion(st, Output(st, link, ackAlloc).st)
  {
    LoopSame(st, link);
  }

  lemma WriteSame(st: SndState, data: seq<byte>, copy: bool, more: bool, budget: nat)
    requires TailFits(st) && |data| <= 0xffff
    ensures SameCongestion(st, Write(st, data, copy, more, budget).0)
  {
    hide PlanWrite, PlanAllocs, PlanPbufs, Committed, SameCongestion, TailFits, MssLocal;
    Reflexive(st);
    MemErrSame(st);
    if |data| <= st.buf { CommittedSame(st, data, copy, more); }
  }

  lemma CommittedSame(st: SndState, data: seq<byte>, copy: bool, more: bool)
    requires TailFits(st) && |data| <= st.buf
    ensures SameCongestion(st, Committed(st, data, copy, more))
  {
    hide PlanWrite, PlanPbufs, UnsentAfter, OversizeAfter, U16;
  }

  lemma MemErrSame(st: SndState)
    ensures SameCongestion(st, st.(memErr := true))
  {}

  lemma SendFinSame(st: SndState, budget: nat)
    ensures SameCongestion(st, SendFin(st, budget).0)
  {
    hide FinMerged, FinAppended, SameCongestion;
    Reflexive(st);
    MemErrSame(st);
    if st.unsent != [] { FinMergedSame(st); }
    if st.buf > 0 { FinAppendedSame(st); }
  }

  lemma FinMergedSame(st: SndState)
    requires st.unsent != []
    ensures SameCongestion(st, FinMerged(st))
  {}

  lemma FinAppendedSame(st: SndState)
    requires st.buf > 0
    ensures SameCongestion(st, FinAppended(st))
  {}

  predicate Quiet(step: Step) { !step.AckArrives? && !step.Timeout? }

  lemma QuietSame(sys: Sys, step: Step)
    requires sys.snd.cwnd >= 1 && sys.snd.ssthresh >= 1 && Quiet(step)
    ensures SameCongestion(sys.snd, Next(sys, step).snd)
  {
    hide SameCongestion, Write, SendFin, Output, Input, TailFits;
    Reflexive(sys.snd);
    match step
    case WriteData(data, copy, more, budget) =>
      if |data| <= 0xffff && TailFits(sys.snd) { WriteSame(sys.snd, data, copy, more, budget); }
    case Close(budget) =>
      SendFinSame(sys.snd, budget);
      StateSame(sys.snd, SendFin(sys.snd, budget).0, FinWait1);
    case Transmit(link, ackAlloc) => OutputSame(sys.snd, link, ackAlloc);
    case _ =>
  }

  lemma Reflexive(st: SndState)
    ensures SameCongestion(st, st)
  {}

  lemma StateSame(st: SndState, r: SndState, state: State)
    requires SameCongestion(st, r)
    ensures SameCongestion(st, r.(state := state))
  {}

  // ---------- One acknowledgement ----------

  /** Growth by one acknowledgement at or above ssthresh. */
  function Avoid(cwnd: nat, mss: nat): nat
    requires cwnd >= 1
  {
    mss * mss / cwnd
  }

  /** An acknowledgement for new data: one segment more below ssthresh, a fraction of one from there on, and
      nothing when 16 bits do not hold the result. After a fast retransmission it starts from ssthresh. */
  lemma NewAckGrows(st: SndState, m: AckMsg, ackAlloc: bool)
    requires st.cwnd >= 1 && st.ssthresh >= 1 && st.lastack < m.ackno <= st.nxt
    ensures var r := OnAck(st, m, ackAlloc);
            var from := if st.infr then st.ssthresh else st.cwnd;
            var more := if from < st.ssthresh then st.mss else Avoid(from, st.mss);
            && !r.infr && r.ssthresh == st.ssthresh && r.mss == st.mss && r.dupacks == 0
            && (from + more <= 0xffff ==> r.cwnd == from + more)
            && from <= r.cwnd && r.cwnd >= 1
            && (from < st.ssthresh && from + more > 0xffff ==> r.cwnd == from)
            && r.cwnd <= from + more
            && (r.timerOn <==> r.unacked != [])
  {
    hide NewAck, DropUnsent, UpdateWnd, NextState, Avoid;
    UpdateSame(st, m);
    NewAckFollows(UpdateWnd(st, st.wl1, m.ackno, m.wnd), m.ackno);
    GrowthIs(if st.infr then st.ssthresh else st.cwnd, st.ssthresh, st.mss);
  }

  lemma UpdateSame(st: SndState, m: AckMsg)
    ensures var r := UpdateWnd(st, st.wl1, m.ackno, m.wnd);
            && r.cwnd == st.cwnd && r.ssthresh == st.ssthresh && r.mss == st.mss && r.infr == st.infr
            && r.dupacks == st.dupacks && r.lastack == st.lastack && r.nxt == st.nxt && r.timerOn == st.timerOn
            && r.unacked == st.unacked
  {}

  lemma NewAckFollows(st: SndState, ackno: int)
    requires st.cwnd >= 1 && st.ssthresh >= 1 && ackno <= st.nxt
    ensures var r := DropUnsent(NewAck(st, ackno), ackno);
            && !r.infr && r.ssthresh == st.ssthresh && r.mss == st.mss && r.dupacks == 0
            && r.cwnd == GrowCwnd(if st.infr then st.ssthresh else st.cwnd, st.ssthresh, st.mss)
            && (r.timerOn <==> r.unacked != [])
  {
    hide DropAcked, GrowCwnd, U16;
  }

  lemma GrowthIs(cwnd: u16, ssthresh: u16, mss: u16)
    requires cwnd >= 1
    ensures var r := GrowCwnd(cwnd, ssthresh, mss);
            var more := if cwnd < ssthresh then mss else Avoid(cwnd, mss);
            && (cwnd + more <= 0xffff ==> r == cwnd + more) && cwnd <= r <= cwnd + more
            && (cwnd < ssthresh && cwnd + more > 0xffff ==> r == cwnd)
  {}

  // ---------- Runs with acknowledgements for new data only ----------

  /** In this run every acknowledgement that arrives is for new data, and the retransmission timer does
      not expire. */
  ghost predicate Smooth(sys: Sys, steps: seq<Step>)
    requires SysInv(sys)
    decreases |steps|
  {
    steps != [] ==>
      && !steps[0].Timeout?
      && (steps[0].AckArrives? ==> steps[0].msg in sys.acks && sys.snd.lastack < steps[0].msg.ackno)
      && (NextKeeps(sys, steps[0]); Smooth(Next(sys, steps[0]), steps[1..]))
  }

  /** How many acknowledgements arrive. */
  ghost function Arrivals(steps: seq<Step>): nat
    decreases |steps|
  {
    if steps == [] then 0 else (if steps[0].AckArrives? then 1 else 0) + Arrivals(steps[1..])
  }

  /** One arrival in a run. */
  lemma ArrivalStep(sys: Sys, m: AckMsg, link: nat, ackAlloc: bool)
    requires SysInv(sys) && m in sys.acks
    ensures sys.snd.cwnd >= 1 && sys.snd.ssthresh >= 1 && sys.snd.wl2 == sys.snd.lastack
    ensures m.ackno <= sys.snd.nxt && SameCongestion(OnAck(sys.snd, m, ackAlloc), Next(sys, AckArrives(m, link, ackAlloc)).snd)
  {
    hide OnAck, Output, SndInv, SentInside, SameCongestion;
    SysInvMeans(sys);
    NextOnAck(sys, m, link, ackAlloc);
    OutputSame(OnAck(sys.snd, m, ackAlloc), link + 1, ackAlloc);
  }

  /** One step of a smooth run. */
  lemma SmoothStep(sys: Sys, step: Step)
    requires SysInv(sys) && Smooth(sys, [step])
    ensures sys.snd.cwnd >= 1
    ensures var st, r := sys.snd, Next(sys, step).snd;
            var from := if st.infr then st.ssthresh else st.cwnd;
            var more := if from < st.ssthresh then st.mss else Avoid(from, st.mss);
            && r.ssthresh == st.ssthresh && r.mss == st.mss
            && (if step.AckArrives? then
                  && !r.infr && from <= r.cwnd <= from + more
                  && (from + more <= 0xffff ==> r.cwnd == from + more)
                  && (from < st.ssthresh && from + more > 0xffff ==> r.cwnd == from)
                else r.cwnd == st.cwnd && r.infr == st.infr)
  {
    hide SysInv, Next, Avoid, OnAck;
    SysInvMeans(sys);
    if step.AckArrives? {
      ArrivalStep(sys, step.msg, step.link, step.ackAlloc);
      NewAckGrows(sys.snd, step.msg, step.ackAlloc);
    } else {
      QuietSame(sys, step);
    }
  }

  lemma SmoothSplit(sys: Sys, steps: seq<Step>)
    requires SysInv(sys) && steps != [] && Smooth(sys, steps)
    ensures Smooth(sys, [steps[0]]) && SysInv(Next(sys, steps[0])) && Smooth(Next(sys, steps[0]), steps[1..])
    ensures Run(sys, steps) == Run(Next(sys, steps[0]), steps[1..])
  {
    hide SysInv, Next;
    NextKeeps(sys, steps[0]);
    assert [steps[0]][1..] == [];
  }

  /** c and up to n segments more, as far as 16 bits go. */
  function Grown(c: nat, mss: nat, n: nat): nat
    decreases n
  {
    if n == 0 || c + mss > 0xffff then c else Grown(c + mss, mss, n - 1)
  }

  /** How many segments more 16 bits can hold. */
  function Room(c: u16, mss: nat): nat
    requires mss >= 1
  {
    (0xffff - c) / mss
  }

  lemma RoomStep(c: u16, mss: nat)
    requires mss >= 1
    ensures if c + mss > 0xffff then Room(c, mss) == 0 else Room(c, mss) == Room(c + mss, mss) + 1
  {
    if c + mss > 0xffff { SmallQuotient(0xffff - c, mss); } else { Divide(0xffff - (c + mss), mss); }
  }

  lemma {:induction false} GrownIs(c: u16, mss: nat, n: nat)
    requires mss >= 1
    ensures Grown(c, mss, n) == c + mss * Min(n, Room(c, mss)) && c <= Grown(c, mss, n) <= 0xffff
    decreases n
  {
    hide Room;
    RoomStep(c, mss);
    if n > 0 && c + mss <= 0xffff {
      GrownIs(c + mss, mss, n - 1);
      Distributes(mss, Min(n - 1, Room(c + mss, mss)));
    } else {
      assert Min(n, Room(c, mss)) == 0;
      assert mss * 0 == 0;
    }
  }

  lemma Distributes(m: int, k: int)
    ensures m * (k + 1) == m * k + m
  {}

  lemma {:induction false} SmoothGrows(sys: Sys, steps: seq<Step>)
    requires SysInv(sys) && Smooth(sys, steps) && !sys.snd.infr
    requires Arrivals(steps) >= 1 ==> Grown(sys.snd.cwnd, sys.snd.mss, Arrivals(steps) - 1) < sys.snd.ssthresh
    ensures var r := Run(sys, steps).snd;
            r.cwnd == Grown(sys.snd.cwnd, sys.snd.mss, Arrivals(steps)) && r.ssthresh == sys.snd.ssthresh && !r.infr
    decreases |steps|
  {
    hide SysInv, Next, Smooth, Avoid;
    if steps != [] {
      SysInvMeans(sys);
      SmoothSplit(sys, steps);
      SmoothStep(sys, steps[0]);
      if steps[0].AckArrives? { GrownMono(sys.snd.cwnd, sys.snd.mss, Arrivals(steps) - 1); }
      SmoothGrows(Next(sys, steps[0]), steps[1..]);
    }
  }

  lemma {:induction false} GrownMono(c: nat, mss: nat, n: nat)
    ensures c <= Grown(c, mss, n)
    decreases n
  {
    if n > 0 && c + mss <= 0xffff { GrownMono(c + mss, mss, n - 1); }
  }

  /** Slow start: n acknowledgements add exactly n segments, as far as 16 bits hold them. */
  lemma SlowStart(sys: Sys, steps: seq<Step>)
    requires SysInv(sys) && Smooth(sys, steps) && !sys.snd.infr && sys.snd.mss >= 1
    requires var (n, room) := (Arrivals(steps), Room(sys.snd.cwnd, sys.snd.mss));
             n >= 1 ==> sys.snd.cwnd + sys.snd.mss * Min(n - 1, room) < sys.snd.ssthresh
    ensures var (n, room, r) := (Arrivals(steps), Room(sys.snd.cwnd, sys.snd.mss), Run(sys, steps).snd);
            r.cwnd == sys.snd.cwnd + sys.snd.mss * Min(n, room) && r.ssthresh == sys.snd.ssthresh && !r.infr
  {
    hide SysInv, Smooth;
    var n := Arrivals(steps);
    GrownIs(sys.snd.cwnd, sys.snd.mss, n);
    if n >= 1 { GrownIs(sys.snd.cwnd, sys.snd.mss, n - 1); }
    SmoothGrows(sys, steps);
  }

  // ---------- Congestion avoidance ----------

  lemma AvoidMono(c: nat, d: nat, mss: nat)
    requires 1 <= c <= d
    ensures Avoid(d, mss) <= Avoid(c, mss)
  {
    QuotientMono(mss * mss, c, d);
  }

  /** n times x. */
  function Times(n: nat, x: nat): nat { n * x }

  lemma TimesStep(n: nat, x: nat)
    ensures Times(n, x) == if n == 0 then 0 else Times(n - 1, x) + x
  {}

  lemma TimesMono(n: nat, x: nat, y: nat)
    requires x <= y
    ensures Times(n, x) <= Times(n, y)
  {}

  /** n acknowledgements that together cover at most the window add at most one segment. */
  lemma AvoidWindow(c: nat, mss: nat, n: nat)
    requires c >= 1 && n * mss <= c
    ensures Times(n, Avoid(c, mss)) <= mss
  {
    var q := Avoid(c, mss);
    assert q * c <= mss * mss;
    TimesMono(n, q * c, mss * mss);
    TimesMono(mss, n * mss, c);
    assert (n * q) * c == n * (q * c);
    assert n * (mss * mss) == mss * (n * mss);
    Cancel(n * q, mss, c);
  }

  lemma Cancel(a: nat, b: nat, c: nat)
    requires c >= 1 && a * c <= b * c
    ensures a <= b
  {
    var e := a - b;
    assert e * c == a * c - b * c;
    assert e >= 1 ==> e * c >= c;
  }

  /** Between c and hi every acknowledgement adds at least what it adds at hi and at most what it adds at c. */
  lemma {:induction false} AvoidanceRun(sys: Sys, steps: seq<Step>, c: nat, hi: nat)
    requires SysInv(sys) && Smooth(sys, steps) && !sys.snd.infr
    requires 1 <= c <= sys.snd.cwnd && sys.snd.ssthresh <= sys.snd.cwnd
    requires sys.snd.cwnd + Times(Arrivals(steps), Avoid(c, sys.snd.mss)) <= hi <= 0xffff
    ensures hi >= 1
    ensures var (n, st, r) := (Arrivals(steps), sys.snd, Run(sys, steps).snd);
            st.cwnd + Times(n, Avoid(hi, st.mss)) <= r.cwnd <= st.cwnd + Times(n, Avoid(c, st.mss)) && !r.infr
    decreases |steps|
  {
    hide SysInv, Next, Smooth, Avoid, Times;
    var (n, mss) := (Arrivals(steps), sys.snd.mss);
    TimesStep(n, Avoid(c, mss));
    TimesStep(n, Avoid(hi, mss));
    if steps != [] {
      SysInvMeans(sys);
      SmoothSplit(sys, steps);
      SmoothStep(sys, steps[0]);
      if steps[0].AckArrives? {
        AvoidMono(c, sys.snd.cwnd, mss);
        AvoidMono(sys.snd.cwnd, hi, mss);
      }
      AvoidanceRun(Next(sys, steps[0]), steps[1..], c, hi);
    }
  }

  /** Congestion avoidance: the acknowledgements of one window add at most one segment, each of them at most
      mss * mss / cwnd and at least that of the window one segment larger; so at least one byte each, while
      the window is below mss * mss. */
  lemma CongestionAvoidance(sys: Sys, steps: seq<Step>)
    requires SysInv(sys) && Smooth(sys, steps) && !sys.snd.infr && sys.snd.cwnd >= sys.snd.ssthresh
    requires Arrivals(steps) * sys.snd.mss <= sys.snd.cwnd && sys.snd.cwnd + sys.snd.mss <= 0xffff
    ensures sys.snd.cwnd >= 1
    ensures var (n, st, r) := (Arrivals(steps), sys.snd, Run(sys, steps).snd);
            && st.cwnd + Times(n, Avoid(st.cwnd + st.mss, st.mss)) <= r.cwnd <= st.cwnd + Times(n, Avoid(st.cwnd, st.mss))
            && r.cwnd <= st.cwnd + st.mss
            && (st.cwnd + st.mss <= Times(st.mss, st.mss) ==> r.cwnd >= st.cwnd + n)
  {
    SysInvMeans(sys);
    AvoidWindow(sys.snd.cwnd, sys.snd.mss, Arrivals(steps));
    GrowsWithin(sys, steps);
  }

  lemma GrowsWithin(sys: Sys, steps: seq<Step>)
    requires SysInv(sys) && Smooth(sys, steps) && !sys.snd.infr && 1 <= sys.snd.cwnd && sys.snd.ssthresh <= sys.snd.cwnd
    requires Times(Arrivals(steps), Avoid(sys.snd.cwnd, sys.snd.mss)) <= sys.snd.mss && sys.snd.cwnd + sys.snd.mss <= 0xffff
    ensures var (n, st, r) := (Arrivals(steps), sys.snd, Run(sys, steps).snd);
            && st.cwnd + Times(n, Avoid(st.cwnd + st.mss, st.mss)) <= r.cwnd <= st.cwnd + Times(n, Avoid(st.cwnd, st.mss))
            && (st.cwnd + st.mss <= Times(st.mss, st.mss) ==> r.cwnd >= st.cwnd + n)
  {
    hide SysInv, Smooth, Avoid, Times, Next;
    var (c, mss) := (sys.snd.cwnd, sys.snd.mss);
    AvoidanceRun(sys, steps, c, c + mss);
    if c + mss <= Times(mss, mss) { AtLeastOne(Arrivals(steps), c + mss, mss); }
  }

  lemma AtLeastOne(n: nat, c: nat, mss: nat)
    requires 1 <= c <= Times(mss, mss)
    ensures n <= Times(n, Avoid(c, mss))
  {
    AtMostQuotient(mss * mss, c, 1);
    TimesMono(n, 1, Avoid(c, mss));
  }

  /** The first acknowledgement for new data after a fast retransmission ends the recovery: the window falls
      back to ssthresh and grows from there as in congestion avoidance. */
  lemma RecoveryEnds(sys: Sys, m: AckMsg, link: nat, ackAlloc: bool)
    requires SysInv(sys) && m in sys.acks && sys.snd.lastack < m.ackno && sys.snd.infr
    ensures sys.snd.ssthresh >= 1
    ensures var (st, r) := (sys.snd, Next(sys, AckArrives(m, link, ackAlloc)).snd);
            && !r.infr && r.ssthresh == st.ssthresh
            && st.ssthresh <= r.cwnd <= st.ssthresh + Avoid(st.ssthresh, st.mss)
            && (st.ssthresh + Avoid(st.ssthresh, st.mss) <= 0xffff ==> r.cwnd == st.ssthresh + Avoid(st.ssthresh, st.mss))
  {
    hide SysInv, Next, Avoid, OnAck;
    ArrivalStep(sys, m, link, ackAlloc);
    NewAckGrows(sys.snd, m, ackAlloc);
  }

  // ---------- Duplicate acknowledgements ----------

  /** In this run every acknowledgement that arrives is a duplicate: it repeats lastack and does not open
      the window. The retransmission timer does not expire. */
  ghost predicate AllDuplicates(sys: Sys, steps: seq<Step>)
    requires SysInv(sys)
    decreases |steps|
  {
    steps != [] ==>
      && !steps[0].Timeout?
      && (steps[0].AckArrives? ==>
          steps[0].msg in sys.acks && steps[0].msg.ackno == sys.snd.lastack && steps[0].msg.wnd <= sys.snd.wnd)
      && (NextKeeps(sys, steps[0]); AllDuplicates(Next(sys, steps[0]), steps[1..]))
  }

  /** The threshold a loss sets: half the smaller window, but at least two segments. */
  function Halved(cwnd: nat, wnd: nat, mss: nat): nat { Max(Min(cwnd, wnd) / 2, 2 * mss) }

  /** The sender after k duplicates, when the windows were cwnd and ssthresh before the first. */
  predicate After(st: SndState, k: nat, cwnd: u16, ssthresh: u16) {
    && 1 <= st.mss <= TCP_MSS && st.timerOn && st.dupacks == Min(k, 0xff)
    && (if k < 3 then !st.infr && st.unacked != [] && st.cwnd == cwnd && st.ssthresh == ssthresh
        else
          var t := Halved(cwnd, st.wnd, st.mss);
          st.infr && st.ssthresh == t && t <= 0x7fff && st.cwnd == Grown(t, st.mss, k))
  }

  lemma {:induction false} GrownOnce(c: nat, mss: nat, n: nat)
    requires c <= 0xffff
    ensures var g := Grown(c, mss, n);
            Grown(c, mss, n + 1) == if g + mss > 0xffff then g else g + mss
    decreases n
  {
    if n > 0 && c + mss <= 0xffff { GrownOnce(c + mss, mss, n - 1); }
  }

  lemma DuplicateCounts(st: SndState, m: AckMsg, ackAlloc: bool, k: nat, cwnd: u16, ssthresh: u16)
    requires After(st, k, cwnd, ssthresh) && st.cwnd >= 1 && st.ssthresh >= 1
    requires m.ackno == st.lastack == st.wl2 && m.wnd <= st.wnd
    ensures After(OnAck(st, m, ackAlloc), k + 1, cwnd, ssthresh)
  {
    hide DropAcked, NextState, Grown, Rexmit, Halved;
    var st0 := st.(acked := 0);
    assert UpdateWnd(st, st.wl1, m.ackno, m.wnd) == st;
    assert AckWith(st, m.ackno, true, ackAlloc) == DropUnsent(DupAck(st0), m.ackno);
    DuplicateGrows(st0, k, cwnd, ssthresh);
    DropSame(DupAck(st0), m.ackno);
  }

  lemma DropSame(st: SndState, ackno: int)
    ensures var r := DropUnsent(st, ackno);
            && r.cwnd == st.cwnd && r.ssthresh == st.ssthresh && r.mss == st.mss && r.infr == st.infr && r.wnd == st.wnd
            && r.dupacks == st.dupacks && r.timerOn == st.timerOn && r.unacked == st.unacked
  {
    hide DropAcked;
  }

  lemma DuplicateGrows(st: SndState, k: nat, cwnd: u16, ssthresh: u16)
    requires After(st, k, cwnd, ssthresh)
    ensures After(DupAck(st), k + 1, cwnd, ssthresh)
  {
    hide Rexmit, RexmitFast;
    var t := Halved(cwnd, st.wnd, st.mss);
    if k >= 3 {
      hide Grown, Halved;
      GrownOnce(t, st.mss, k);
    } else if k == 2 {
      ThirdRetransmits(st.(dupacks := 3));
      hide Grown, Halved;
      GrownThree(t, st.mss);
    }
  }

  lemma GrownThree(t: nat, mss: nat)
    requires t <= 0x7fff && mss <= TCP_MSS
    ensures Grown(t, mss, 3) == t + 3 * mss
  {
    assert Grown(t + 2 * mss, mss, 1) == t + 3 * mss;
  }

  lemma ThirdRetransmits(st: SndState)
    requires st.unacked != [] && !st.infr && 1 <= st.mss <= TCP_MSS
    ensures var (r, t) := (RexmitFast(st), Halved(st.cwnd, st.wnd, st.mss));
            && r.infr && r.ssthresh == t <= 0x7fff && r.cwnd == t + 3 * st.mss
            && r.mss == st.mss && r.wnd == st.wnd && r.dupacks == st.dupacks && r.timerOn == st.timerOn
  {
    hide Rexmit;
    RexmitSame(st);
  }

  lemma RexmitSame(st: SndState)
    ensures var r := Rexmit(st);
            r.mss == st.mss && r.wnd == st.wnd && r.dupacks == st.dupacks && r.timerOn == st.timerOn
  {}

  lemma DuplicatesStep(sys: Sys, step: Step, k: nat, cwnd: u16, ssthresh: u16)
    requires SysInv(sys) && AllDuplicates(sys, [step]) && After(sys.snd, k, cwnd, ssthresh)
    ensures sys.snd.cwnd >= 1 && sys.snd.ssthresh >= 1
    ensures var r := Next(sys, step).snd;
            After(r, if step.AckArrives? then k + 1 else k, cwnd, ssthresh) && r.wnd == sys.snd.wnd && r.mss == sys.snd.mss
  {
    hide SysInv, Next, OnAck, Grown, Halved;
    SysInvMeans(sys);
    if step.AckArrives? {
      ArrivalStep(sys, step.msg, step.link, step.ackAlloc);
      DuplicateCounts(sys.snd, step.msg, step.ackAlloc, k, cwnd, ssthresh);
      DuplicateWnd(sys.snd, step.msg, step.ackAlloc);
    } else {
      QuietSame(sys, step);
    }
  }

  lemma DuplicateWnd(st: SndState, m: AckMsg, ackAlloc: bool)
    requires st.cwnd >= 1 && st.ssthresh >= 1 && m.ackno == st.lastack == st.wl2 && m.wnd <= st.wnd
    ensures OnAck(st, m, ackAlloc).wnd == st.wnd && OnAck(st, m, ackAlloc).mss == st.mss
  {
    hide NextState, DropUnsent, OldAck;
    OldAckSame(st, m.ackno);
    DropSame(OldAck(st, m.ackno, true), m.ackno);
  }

  lemma OldAckSame(st: SndState, ackno: int)
    ensures var r := OldAck(st, ackno, true); r.wnd == st.wnd && r.mss == st.mss
  {
    hide Rexmit;
    RexmitSame(st.(acked := 0, dupacks := 3));
  }

  lemma {:induction false} DuplicatesRun(sys: Sys, steps: seq<Step>, k: nat, cwnd: u16, ssthresh: u16)
    requires SysInv(sys) && AllDuplicates(sys, steps) && After(sys.snd, k, cwnd, ssthresh)
    ensures var r := Run(sys, steps).snd;
            After(r, k + Arrivals(steps), cwnd, ssthresh) && r.wnd == sys.snd.wnd && r.mss == sys.snd.mss
    decreases |steps|
  {
    hide SysInv, Next, After;
    if steps != [] {
      NextKeeps(sys, steps[0]);
      assert [steps[0]][1..] == [];
      SysInvMeans(sys);
      DuplicatesStep(sys, steps[0], k, cwnd, ssthresh);
      DuplicatesRun(Next(sys, steps[0]), steps[1..], if steps[0].AckArrives? then k + 1 else k, cwnd, ssthresh);
    }
  }

  /** Fast retransmission and fast recovery: while something is unacked, the first two duplicates change
      nothing; the third halves the window; and after n of them it is inflated by n segments, as far as 16
      bits hold them. */
  lemma FastRecovery(sys: Sys, steps: seq<Step>)
    requires SysInv(sys) && AllDuplicates(sys, steps)
    requires sys.snd.dupacks == 0 && !sys.snd.infr && sys.snd.unacked != [] && sys.snd.timerOn && sys.snd.mss >= 1
    ensures var (n, st, r) := (Arrivals(steps), sys.snd, Run(sys, steps).snd);
            && (n < 3 ==> !r.infr && r.cwnd == st.cwnd && r.ssthresh == st.ssthresh)
            && (n >= 3 ==>
                && r.infr && r.ssthresh == Max(Min(st.cwnd, st.wnd) / 2, 2 * st.mss)
                && r.cwnd == r.ssthresh + st.mss * Min(n, Room(r.ssthresh, st.mss)))
  {
    hide SysInv, Grown, Room, Next;
    MssRange(sys);
    DuplicatesRun(sys, steps, 0, sys.snd.cwnd, sys.snd.ssthresh);
    GrownIs(Run(sys, steps).snd.ssthresh, sys.snd.mss, Arrivals(steps));
  }

  lemma MssRange(sys: Sys)
    requires SysInv(sys)
    ensures 1 <= sys.snd.mss <= TCP_MSS
  {}

  // ---------- The retransmission timer ----------

  /** The timer expires with something unacked: the threshold is halved, the window is one segment, and
      only what lies within that segment of lastack is sent. */
  lemma TimeoutShrinks(sys: Sys, link: nat, ackAlloc: bool, k: nat)
    requires SysInv(sys) && sys.snd.unacked != []
    ensures sys.snd.cwnd >= 1 && sys.snd.ssthresh >= 1
    ensures var (st, r) := (sys.snd, Next(sys, Timeout(link, ackAlloc)).snd);
            && r.cwnd == r.mss == st.mss && r.ssthresh == Max(Min(st.cwnd, st.wnd) / 2, 2 * st.mss) && r.infr == st.infr
    ensures var segs := Output(RexmitRto(sys.snd), link, ackAlloc).segs;
            k < |segs| ==> 0 <= segs[k].DataEnd() - sys.snd.lastack <= sys.snd.mss
  {
    hide Output, SysInv;
    SysInvMeans(sys);
    MssRange(sys);
    var st := RexmitRto(sys.snd);
    OutputSame(st, link, ackAlloc);
    if k < |Output(st, link, ackAlloc).segs| { OnlyWhatMay(st, link, ackAlloc, k); }
  }

  /** After it, n acknowledgements make the window n + 1 segments, up to the threshold, if no fast
      retransmission was under way. */
  lemma SlowStartAfterTimeout(sys: Sys, link: nat, ackAlloc: bool, steps: seq<Step>)
    requires SysInv(sys) && sys.snd.unacked != [] && !sys.snd.infr && sys.snd.cwnd >= 1 && sys.snd.ssthresh >= 1
    requires SysInv(Next(sys, Timeout(link, ackAlloc))) && Smooth(Next(sys, Timeout(link, ackAlloc)), steps)
    requires Times(Arrivals(steps), sys.snd.mss) < Max(Min(sys.snd.cwnd, sys.snd.wnd) / 2, 2 * sys.snd.mss)
    ensures Run(Next(sys, Timeout(link, ackAlloc)), steps).snd.cwnd == Times(Arrivals(steps) + 1, sys.snd.mss)
  {
    hide SysInv, Next, Smooth, Times;
    TimeoutShrinks(sys, link, ackAlloc, 0);
    MssRange(sys);
    var (n, next) := (Arrivals(steps), Next(sys, Timeout(link, ackAlloc)));
    TimesStep(n + 1, next.snd.mss);
    GrownTimes(1, next.snd.mss, n);
    TimesStep(1, next.snd.mss);
    TimesStep(0, next.snd.mss);
    if n >= 1 { GrownTimes(1, next.snd.mss, n - 1); }
    SmoothGrows(next, steps);
  }

  lemma {:induction false} GrownTimes(k: nat, mss: nat, n: nat)
    requires Times(k + n, mss) <= 0xffff
    ensures Grown(Times(k, mss), mss, n) == Times(k + n, mss)
    decreases n
  {
    hide Times;
    if n > 0 {
      TimesStep(k + 1, mss);
      TimesGrow(k + 1, k + n, mss);
      GrownTimes(k + 1, mss, n - 1);
    }
  }

  lemma TimesGrow(m: nat, n: nat, x: nat)
    requires m <= n
    ensures Times(m, x) <= Times(n, x)
  {}

  /** TF_INFR survives the timer: the first acknowledgement for new data after it makes the window two
      segments, as slow start does, if and only if no fast retransmission was under way; otherwise it sets
      the window to the threshold and beyond. (With segments of one byte both may be two bytes.) */
  lemma FirstAckAfterTimeout(sys: Sys, link: nat, ackAlloc: bool, m: AckMsg, link': nat, ackAlloc': bool)
    requires SysInv(sys) && sys.snd.unacked != [] && sys.snd.cwnd >= 1 && sys.snd.ssthresh >= 1
    requires SysInv(Next(sys, Timeout(link, ackAlloc))) && m in sys.acks && sys.snd.lastack < m.ackno
    ensures var next := Next(sys, Timeout(link, ackAlloc));
            next.snd.cwnd >= 1 && next.snd.ssthresh >= 1 && m in next.acks
    ensures var next := Next(sys, Timeout(link, ackAlloc));
            var (r, t) := (Next(next, AckArrives(m, link', ackAlloc')).snd, next.snd.ssthresh);
            && (r.cwnd == 2 * sys.snd.mss <==> !sys.snd.infr || (sys.snd.mss == 1 && t == 2))
            && (sys.snd.infr ==> r.cwnd >= t)
  {
    hide SysInv, Next, OnAck, Avoid;
    TimeoutShrinks(sys, link, ackAlloc, 0);
    MssRange(sys);
    TimeoutFrame(sys, link, ackAlloc);
    var next := Next(sys, Timeout(link, ackAlloc));
    ArrivalStep(next, m, link', ackAlloc');
    NewAckGrows(next.snd, m, ackAlloc');
    AboveTwo(next.snd.ssthresh, sys.snd.mss);
  }

  lemma TimeoutFrame(sys: Sys, link: nat, ackAlloc: bool)
    requires sys.snd.cwnd >= 1 && sys.snd.ssthresh >= 1
    ensures var next := Next(sys, Timeout(link, ackAlloc)); next.acks == sys.acks && next.snd.lastack == sys.snd.lastack
  {
    hide Output;
    OutputSame(RexmitRto(sys.snd), link, ackAlloc);
  }

  lemma AboveTwo(t: nat, mss: nat)
    requires 1 <= mss <= TCP_MSS && 2 * mss <= t <= 0xffff
    ensures t + Avoid(t, mss) == 2 * mss <==> mss == 1 && t == 2
    ensures t <= 0x7fff ==> t + Avoid(t, mss) <= 0xffff
  {
    hide Avoid;
    AvoidAtMost(t, mss);
    if t == 2 * mss && mss >= 2 { AvoidAtLeast(t, mss); }
    if mss == 1 && t == 2 { AvoidNone(); }
  }

  lemma AvoidAtMost(t: nat, mss: nat)
    requires 1 <= mss <= t
    ensures Avoid(t, mss) <= mss
  {
    QuotientMono(mss * mss, mss, t);
    Quotient(mss * mss, mss, mss, 0);
  }

  lemma AvoidAtLeast(t: nat, mss: nat)
    requires mss >= 2 && t == 2 * mss
    ensures Avoid(t, mss) >= 1
  {
    AtMostQuotient(mss * mss, t, 1);
  }

  lemma AvoidNone()
    ensures Avoid(2, 1) == 0
  {}

  // ---------- The send window ----------

  /** The sender learns every promise: after an acknowledgement arrives the right edge it knows is the larger
      of what it knew and what that acknowledgement says, however late it comes; no other step moves it. */
  lemma EdgeLearned(sys: Sys, step: Step)
    requires SysInv(sys)
    ensures sys.snd.cwnd >= 1 && sys.snd.ssthresh >= 1
    ensures var (st, r) := (sys.snd, Next(sys, step).snd);
            r.lastack + r.wnd == if step.AckArrives? && step.msg in sys.acks then Max(st.lastack + st.wnd, step.msg.Edge())
                                 else st.lastack + st.wnd
  {
    hide SndInv, Output, OnAck, Write, SendFin, Input, Recved, Reoffer, SentInside;
    SysInvMeans(sys);
    if step.AckArrives? {
      if step.msg in sys.acks {
        ArrivalStep(sys, step.msg, step.link, step.ackAlloc);
        AckTakesWindow(sys.snd, step.msg, step.ackAlloc);
      }
    } else if step.Timeout? {
      OutputSame(RexmitRto(sys.snd), step.link, step.ackAlloc);
    } else {
      QuietSame(sys, step);
    }
  }

  lemma AckTakesWindow(st: SndState, m: AckMsg, ackAlloc: bool)
    requires st.cwnd >= 1 && st.ssthresh >= 1 && m.ackno <= st.nxt && st.wl2 == st.lastack
    ensures var r := OnAck(st, m, ackAlloc);
            && r.lastack == Max(st.lastack, m.ackno)
            && r.wnd == if m.ackno > st.lastack || (m.ackno == st.lastack && m.wnd > st.wnd) then m.wnd else st.wnd
  {
    hide DropAcked, NextState, GrowCwnd, U16, DupAck;
    DupAckFieldsSame(UpdateWnd(st, st.wl1, m.ackno, m.wnd).(acked := 0));
  }

  lemma DupAckFieldsSame(st: SndState)
    ensures DupAck(st).lastack == st.lastack && DupAck(st).wnd == st.wnd
  {}

  // ---------- The timer is armed ----------

  predicate Armed(st: SndState) { st.unacked != [] ==> st.timerOn }

  lemma {:induction false} LoopArmed(st: SndState, link: nat)
    requires Armed(st)
    ensures Armed(OutputLoop(st, link).st)
    decreases |st.unsent|
  {
    if SendsNext(st) && link > 0 { LoopArmed(SendHead(st), link - 1); }
  }

  lemma OutputArmed(st: SndState, link: nat, ackAlloc: bool)
    requires Armed(st)
    ensures Armed(Output(st, link, ackAlloc).st)
  {
    LoopArmed(st, link);
  }

  lemma OnAckArmed(st: SndState, m: AckMsg, ackAlloc: bool)
    requires Armed(st) && st.cwnd >= 1 && st.ssthresh >= 1
    ensures Armed(OnAck(st, m, ackAlloc))
  {
    hide NewAck, OldAck, DropUnsent, UpdateWnd, NextState;
    UpdateSame(st, m);
    var st1 := UpdateWnd(st, st.wl1, m.ackno, m.wnd);
    var dup := st1.wl2 + st1.wnd == st.wl2 + st.wnd;
    if m.ackno <= st.lastack {
      OldAckArmed(st1, m.ackno, dup);
      DropSame(OldAck(st1, m.ackno, dup), m.ackno);
    } else if m.ackno <= st.nxt {
      NewAckFollows(st1, m.ackno);
    } else {
      DropSame(st1.(acked := 0, ackNow := !ackAlloc), m.ackno);
    }
  }

  lemma OldAckArmed(st: SndState, ackno: int, dup: bool)
    requires Armed(st)
    ensures Armed(OldAck(st, ackno, dup))
  {
    hide Rexmit;
    RexmitSame(st.(acked := 0, dupacks := 3));
    assert Rexmit(st.(acked := 0, dupacks := 3)).unacked != [] ==> st.unacked != [] by { RexmitShorter(st.(acked := 0, dupacks := 3)); }
  }

  lemma RexmitShorter(st: SndState)
    ensures st.unacked == [] ==> Rexmit(st).unacked == []
  {}

  lemma WriteArmed(st: SndState, data: seq<byte>, copy: bool, more: bool, budget: nat)
    requires Armed(st) && TailFits(st) && |data| <= 0xffff
    ensures Armed(Write(st, data, copy, more, budget).0)
  {
    hide Write;
    WriteSame(st, data, copy, more, budget);
    WriteFields(st, data, copy, more, budget);
  }

  lemma RexmitRtoArmed(st: SndState)
    requires Armed(st)
    ensures Armed(RexmitRto(st))
  {}

  lemma CloseArmed(st: SndState, budget: nat)
    requires Armed(st)
    ensures var r := SendFin(st, budget).0; Armed(r) && Armed(r.(state := FinWait1))
  {
    hide SendFin;
    SendFinSame(st, budget);
    SendFinFields(st, budget);
  }

  lemma ArmedStep(sys: Sys, step: Step)
    requires SysInv(sys) && Armed(sys.snd) && sys.snd.cwnd >= 1 && sys.snd.ssthresh >= 1
    ensures Armed(Next(sys, step).snd)
  {
    hide SysInv, Write, SendFin, Output, OnAck, Input, TailFits, SameCongestion, RexmitRto, Armed;
    match step
    case WriteData(data, copy, more, budget) =>
      if |data| <= 0xffff && TailFits(sys.snd) { WriteArmed(sys.snd, data, copy, more, budget); }
    case Close(budget) => CloseArmed(sys.snd, budget);
    case Transmit(link, ackAlloc) => OutputArmed(sys.snd, link, ackAlloc);
    case Timeout(link, ackAlloc) =>
      RexmitRtoArmed(sys.snd);
      OutputArmed(RexmitRto(sys.snd), link, ackAlloc);
    case AckArrives(m, link, ackAlloc) =>
      OnAckArmed(sys.snd, m, ackAlloc);
      OutputArmed(OnAck(sys.snd, m, ackAlloc), link + 1, ackAlloc);
    case _ =>
  }

  /** After every run the retransmission timer is running whenever something is unacked. */
  lemma {:induction false} TimerArmed(sys: Sys, steps: seq<Step>)
    requires SysInv(sys) && (sys.snd.unacked != [] ==> sys.snd.timerOn)
    ensures Run(sys, steps).snd.unacked != [] ==> Run(sys, steps).snd.timerOn
    decreases |steps|
  {
    hide SysInv, Next;
    if steps != [] {
      SysInvMeans(sys);
      NextKeeps(sys, steps[0]);
      ArmedStep(sys, steps[0]);
      TimerArmed(Next(sys, steps[0]), steps[1..]);
    }
  }
}
