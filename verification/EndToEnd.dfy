/** Both ends and the network. */
module EndToEnd {
  // One direction of data over datagrams that may be lost, duplicated, reordered and delayed without
  // bound. The network keeps every message ever sent; any of them may arrive at any time, any number
  // of times, or never.

  import opened SequenceNumbers
  import opened TcpConfig
  import opened Reassembly
  import opened ReceiverSpec
  import opened ReceiveWindow
  import opened SendQueues
  import opened SendInvariants
  import opened Transmission
  import opened Acknowledgement
  import opened LocalMss

  /** stream is everything tcp_write() accepted; closed says that tcp_send_fin() succeeded. */
  datatype Sys = Sys(snd: SndState, rcv: RcvState, stream: seq<byte>, closed: bool, net: set<Seg>, acks: set<AckMsg>)

  /** What can happen. The environment chooses the step and everything the program does not
      determine: the arriving message, memory, link failures, the application's answers. */
  datatype Step =
    | WriteData(data: seq<byte>, copy: bool, more: bool, budget: nat)
    | Close(budget: nat)
    | Transmit(link: nat, ackAlloc: bool)
    | Timeout(link: nat, ackAlloc: bool)
    | DataArrives(seg: Seg, env: Env)
    | AckArrives(msg: AckMsg, link: nat, ackAlloc: bool)
    | AckLeaves
    | AppConsumes(len: u16)
    | AppRetries(take: bool)
    | OoseqExpires

  function Sending(sys: Sys, sent: Sent): Sys {
    sys.(snd := sent.st, net := sys.net + (set s | s in sent.segs))
  }

  /** An acknowledgement is processed by tcp_process(). */
  function OnAck(st: SndState, m: AckMsg, ackAlloc: bool): SndState
    requires st.cwnd >= 1 && st.ssthresh >= 1
  {
    var st1 := Ack(st, st.wl1, m.ackno, m.wnd, 0, ackAlloc);
    st1.(state := NextState(st1.state, false, m.ackno == st1.nxt))
  }

  /** A call of tcp_write() whose assertions about the last unsent segment fail stops the program; it
      changes nothing here. TailAlwaysFits says that this does not happen if the first window is at least 2. */
  function Next(sys: Sys, step: Step): Sys
    requires sys.snd.cwnd >= 1 && sys.snd.ssthresh >= 1
  {
    match step
    case WriteData(data, copy, more, budget) =>
      if |data| > 0xffff || !TailFits(sys.snd) then sys
      else
        var (st, err) := Write(sys.snd, data, copy, more, budget);
        sys.(snd := st, stream := if err == ErrOk then sys.stream + data else sys.stream)
    case Close(budget) =>
      if !sys.snd.state.Established? then sys
      else
        var (st, err) := SendFin(sys.snd, budget);
        if err == ErrOk then sys.(snd := st.(state := FinWait1), closed := true) else sys.(snd := st)
    case Transmit(link, ackAlloc) => Sending(sys, Output(sys.snd, link, ackAlloc))
    case Timeout(link, ackAlloc) => Sending(sys, Output(RexmitRto(sys.snd), link, ackAlloc))
    case DataArrives(seg, env) =>
      if seg !in sys.net then sys
      else
        var (st, ack) := Input(sys.rcv, seg, false, env);
        sys.(rcv := st, acks := if ack.Some? then sys.acks + {ack.value} else sys.acks)
    case AckArrives(m, link, ackAlloc) =>
      // tcp_input() ends with tcp_output(); the link takes at least its first segment.
      if m !in sys.acks then sys else Sending(sys, Output(OnAck(sys.snd, m, ackAlloc), link + 1, ackAlloc))
    case AckLeaves => sys.(rcv := Announce(sys.rcv), acks := sys.acks + {AckOf(sys.rcv)})
    case AppConsumes(len) => sys.(rcv := Recved(sys.rcv, len))
    case AppRetries(take) => sys.(rcv := Reoffer(sys.rcv, take))
    case OoseqExpires => sys.(rcv := DropOoseq(sys.rcv))
  }

  // ---------- The invariant ----------

  ghost predicate NetOk(net: set<Seg>, stream: seq<byte>, closed: bool, nxt: int) {
    forall s :: s in net ==> True(s, stream, closed) && s.End() <= nxt && |s.data| <= TCP_MSS
  }

  /** Acknowledgements never acknowledge or promise more than the receiver has, and later ones
      never take back what earlier ones promised. */
  ghost predicate AcksOk(acks: set<AckMsg>, nxt: int, edge: int) {
    && (forall m :: m in acks ==> m.ackno <= nxt && m.Edge() <= edge)
    && (forall m, n :: m in acks && n in acks && m.ackno < n.ackno ==> m.Edge() <= n.Edge())
  }

  /** Every segment of q was sent inside the window that ends at edge. */
  ghost predicate SentInside(q: seq<TxSeg>, edge: int)
    decreases |q|
  {
    q != [] ==> q[0].DataEnd() <= edge && SentInside(q[1..], edge)
  }

  /** The sender's queues are in order or, when fast, the retransmitted segment waits in front of
      unsent and can be sent. */
  ghost predicate Ready(st: SndState, fast: bool, stream: seq<byte>, closed: bool) {
    if fast then RexInv(st, stream, closed) && HeadSendable(st) && st.infr else SndInv(st, stream, closed)
  }

  /** Nothing was sent beyond the window, but for a FIN. */
  ghost predicate Inside(st: SndState) {
    SentInside(st.unacked, st.lastack + st.wnd) && st.nxt <= st.lastack + st.wnd + 1
  }

  ghost predicate SndOk(st: SndState, fast: bool, stream: seq<byte>, closed: bool, acks: set<AckMsg>) {
    && Ready(st, fast, stream, closed)
    && AckMsg(st.lastack, st.wnd) in acks && st.wl2 == st.lastack
    && Inside(st)
    && (if closed then st.state.FinWait1? || st.state.FinWait2? else st.state.Established?)
  }

  ghost predicate RcvOk(st: RcvState, stream: seq<byte>, closed: bool, sndNxt: int) {
    && RcvInv(st, stream, closed) && AnnOk(st)
    && (st.state.Established? || st.state.CloseWait?)
    && st.nxt <= sndNxt && AllEndBy(st.ooseq, sndNxt)
  }

  ghost predicate SysInv(sys: Sys) {
    && SndOk(sys.snd, false, sys.stream, sys.closed, sys.acks)
    && RcvOk(sys.rcv, sys.stream, sys.closed, sys.snd.nxt)
    && NetOk(sys.net, sys.stream, sys.closed, sys.snd.nxt)
    && AcksOk(sys.acks, sys.rcv.nxt, sys.rcv.annEdge)
  }

  /** Both ends after the handshake: the sender knows the window the receiver announced. */
  ghost predicate Init(sys: Sys) {
    && sys.stream == [] && !sys.closed && sys.net == {} && sys.acks == {AckMsg(0, sys.snd.wnd)}
    && var st := sys.snd;
    && st.lastack == st.nxt == st.lbb == st.wl2 == 0 && st.unsent == [] && st.unacked == []
    && st.buf == TCP_SND_BUF && st.queuelen == 0 && st.oversize == 0 && !st.finQueued && st.state == Established
    && 1 <= st.mss <= TCP_MSS && st.cwnd >= 1 && st.ssthresh >= 1
    && var r := sys.rcv;
    && r.nxt == 0 && r.ooseq == [] && r.state == Established && r.refused == None && r.accepted == [] && r.eofs == 0
    && r.annEdge == r.annWnd == sys.snd.wnd
  }

  lemma InitKeeps(sys: Sys)
    requires Init(sys)
    ensures SysInv(sys)
  {
    InitialSndInv(sys.snd);
    InitialInv(sys.rcv);
  }

  lemma SysInvMeans(s: Sys)
    requires SysInv(s)
    ensures s.snd.cwnd >= 1 && s.snd.ssthresh >= 1 && (s.snd.unsent == [] ==> s.snd.oversize == 0)
    ensures SndOk(s.snd, false, s.stream, s.closed, s.acks) && s.rcv.nxt <= s.snd.nxt
    ensures AcksOk(s.acks, s.rcv.nxt, s.rcv.annEdge)
  {}

  // ---------- The stream grows ----------

  lemma NetGrows(net: set<Seg>, stream: seq<byte>, data: seq<byte>, closed: bool, nxt: int)
    requires NetOk(net, stream, false, nxt)
    ensures NetOk(net, stream + data, closed, nxt)
  {
    forall s | s in net ensures True(s, stream + data, closed) {
      MatchesGrows(s.data, stream, data, s.start);
    }
  }

  lemma MemErrKeeps(st: SndState, stream: seq<byte>)
    ensures SndInv(st.(memErr := true), stream, false) <==> SndInv(st, stream, false)
  {}

  lemma WriteStep(sys: Sys, data: seq<byte>, copy: bool, more: bool, budget: nat)
    requires SysInv(sys) && |data| <= 0xffff
    ensures SysInv(Next(sys, WriteData(data, copy, more, budget)))
  {
    hide Write, TailFits, RcvInv, AllEndBy, SndInv, SentInside;
    if TailFits(sys.snd) { WriteFields(sys.snd, data, copy, more, budget); }
    if !sys.closed && TailFits(sys.snd) {
      WriteKeeps(sys.snd, data, copy, more, budget, sys.stream);
      MemErrKeeps(sys.snd, sys.stream);
      NetGrows(sys.net, sys.stream, data, false, sys.snd.nxt);
      StreamGrows(sys.rcv, sys.stream, data, false);
    }
  }

  lemma SendFinFields(st: SndState, budget: nat)
    ensures var r := SendFin(st, budget).0;
            && r.lastack == st.lastack && r.nxt == st.nxt && r.wnd == st.wnd && r.wl2 == st.wl2
            && r.unacked == st.unacked && r.state == st.state
  {
    hide U16, Last, FinMerged, FinAppended;
    if st.unsent != [] { FinMergedFields(st); }
    if st.buf > 0 { FinAppendedFields(st); }
  }

  lemma FinMergedFields(st: SndState)
    requires st.unsent != []
    ensures var r := FinMerged(st);
            && r.lastack == st.lastack && r.nxt == st.nxt && r.wnd == st.wnd && r.wl2 == st.wl2
            && r.unacked == st.unacked && r.state == st.state
  {}

  lemma FinAppendedFields(st: SndState)
    requires st.buf > 0
    ensures var r := FinAppended(st);
            && r.lastack == st.lastack && r.nxt == st.nxt && r.wnd == st.wnd && r.wl2 == st.wl2
            && r.unacked == st.unacked && r.state == st.state
  {}

  lemma StateKeeps(st: SndState, state: State, stream: seq<byte>, closed: bool)
    ensures SndInv(st.(state := state), stream, closed) <==> SndInv(st, stream, closed)
    ensures RexInv(st.(state := state), stream, closed) <==> RexInv(st, stream, closed)
  {}

  lemma CloseStep(sys: Sys, budget: nat)
    requires SysInv(sys) && !sys.closed
    ensures SysInv(Next(sys, Close(budget)))
  {
    var (st, err) := SendFin(sys.snd, budget);
    SendFinKeeps(sys.snd, budget, sys.stream);
    SendFinFields(sys.snd, budget);
    if err == ErrOk {
      StateKeeps(st, FinWait1, sys.stream, true);
      assert sys.stream + [] == sys.stream;
      NetGrows(sys.net, sys.stream, [], true, sys.snd.nxt);
      StreamGrows(sys.rcv, sys.stream, [], true);
    }
  }

  // ---------- Sending ----------

  lemma {:induction false} NetTrueMember(segs: seq<Seg>, stream: seq<byte>, closed: bool, nxt: int, s: Seg)
    requires NetTrue(segs, stream, closed, nxt) && s in segs
    ensures True(s, stream, closed) && s.End() <= nxt
    decreases |segs|
  {
    if s != segs[0] {
      assert s in segs[1..];
      NetTrueMember(segs[1..], stream, closed, nxt, s);
    }
  }

  lemma NetSent(net: set<Seg>, segs: seq<Seg>, stream: seq<byte>, closed: bool, nxt: int, nxt': int)
    requires NetOk(net, stream, closed, nxt) && NetTrue(segs, stream, closed, nxt') && nxt <= nxt'
    requires forall s :: s in segs ==> |s.data| <= TCP_MSS
    ensures NetOk(net + (set s | s in segs), stream, closed, nxt')
  {
    forall s | s in segs ensures True(s, stream, closed) && s.End() <= nxt' {
      NetTrueMember(segs, stream, closed, nxt', s);
    }
  }

  /** What is sent was queued. */
  lemma {:induction false} LoopFits(st: SndState, link: nat, mss: int)
    requires AllFit(st.unsent, mss)
    ensures forall s :: s in OutputLoop(st, link).segs ==> |s.data| <= mss
    decreases |st.unsent|
  {
    if SendsNext(st) && link > 0 { LoopFits(SendHead(st), link - 1, mss); }
  }

  lemma UnsentFits(st: SndState, fast: bool, stream: seq<byte>, closed: bool)
    requires Ready(st, fast, stream, closed)
    ensures AllFit(st.unsent, TCP_MSS)
  {
    hide HoldsFrom, Numbers, EndsBy;
    if fast {
      assert st.unsent == [st.unsent[0]] + st.unsent[1..];
      var s, tail := [st.unsent[0]], st.unsent[1..];
      ReadyFits(s + st.unacked + tail, st, stream, closed);
      FitConcat(s + st.unacked, tail, TCP_MSS);
      FitConcat(s, st.unacked, TCP_MSS);
      FitConcat(s, tail, TCP_MSS);
    } else {
      ReadyFits(st.unacked + st.unsent, st, stream, closed);
      FitConcat(st.unacked, st.unsent, TCP_MSS);
    }
  }

  lemma ReadyFits(all: seq<TxSeg>, st: SndState, stream: seq<byte>, closed: bool)
    requires Core(st, all, stream, closed)
    ensures AllFit(all, TCP_MSS)
  {
    AllFitGrows(all, st.mss, TCP_MSS);
  }

  lemma {:induction false} InsertInside(q: seq<TxSeg>, s: TxSeg, edge: int)
    requires SentInside(q, edge) && s.DataEnd() <= edge
    ensures SentInside(InsertSorted(q, s), edge) && SentInside(q + [s], edge)
    decreases |q|
  {
    assert [s][1..] == [] && ([s] + q)[1..] == q;
    if q != [] {
      InsertInside(q[1..], s, edge);
      assert (q + [s])[1..] == q[1..] + [s];
      assert ([q[0]] + InsertSorted(q[1..], s))[1..] == InsertSorted(q[1..], s);
    } else {
      assert q + [s] == [s];
    }
  }

  lemma {:induction false} InsideGrows(q: seq<TxSeg>, edge: int, edge': int)
    requires SentInside(q, edge) && edge <= edge'
    ensures SentInside(q, edge')
    decreases |q|
  {
    if q != [] { InsideGrows(q[1..], edge, edge'); }
  }

  /** tcp_output() only sends inside the window, so what is unacked stays inside it. */
  lemma {:induction false} LoopInside(st: SndState, link: nat)
    requires Inside(st)
    ensures var r := OutputLoop(st, link).st;
            && Inside(r)
            && r.wnd == st.wnd && r.wl2 == st.wl2 && r.state == st.state && r.lastack == st.lastack
    decreases |st.unsent|
  {
    if SendsNext(st) && link > 0 {
      InsertInside(st.unacked, st.unsent[0], st.lastack + st.wnd);
      LoopInside(SendHead(st), link - 1);
    }
  }

  lemma OutputInside(st: SndState, link: nat, ackAlloc: bool)
    requires Inside(st) && AllFit(st.unsent, TCP_MSS)
    ensures var (r, segs) := (Output(st, link, ackAlloc).st, Output(st, link, ackAlloc).segs);
            && Inside(r) && (forall s :: s in segs ==> |s.data| <= TCP_MSS)
            && r.wnd == st.wnd && r.wl2 == st.wl2 && r.state == st.state && r.lastack == st.lastack
  {
    hide SentInside;
    LoopInside(st, link);
    LoopFits(st, link, TCP_MSS);
  }

  /** A sender state that transmits: the new messages and snd_nxt keep the invariant. */
  lemma SendingKeeps(sys: Sys, sent: Sent)
    requires SysInv(sys) && SndOk(sent.st, false, sys.stream, sys.closed, sys.acks)
    requires NetTrue(sent.segs, sys.stream, sys.closed, sent.st.nxt) && sys.snd.nxt <= sent.st.nxt
    requires forall s :: s in sent.segs ==> |s.data| <= TCP_MSS
    ensures SysInv(Sending(sys, sent))
  {
    NetSent(sys.net, sent.segs, sys.stream, sys.closed, sys.snd.nxt, sent.st.nxt);
    EndByGrows(sys.rcv.ooseq, sys.snd.nxt, sent.st.nxt);
  }

  lemma TransmitStep(sys: Sys, link: nat, ackAlloc: bool)
    requires SysInv(sys)
    ensures SysInv(Next(sys, Transmit(link, ackAlloc)))
  {
    OutputKeeps(sys.snd, link, ackAlloc, sys.stream, sys.closed);
    UnsentFits(sys.snd, false, sys.stream, sys.closed);
    OutputInside(sys.snd, link, ackAlloc);
    SendingKeeps(sys, Output(sys.snd, link, ackAlloc));
  }

  lemma TimeoutStep(sys: Sys, link: nat, ackAlloc: bool)
    requires SysInv(sys)
    ensures SysInv(Next(sys, Timeout(link, ackAlloc)))
  {
    var st := RexmitRto(sys.snd);
    RexmitRtoKeeps(sys.snd, sys.stream, sys.closed);
    OutputKeeps(st, link, ackAlloc, sys.stream, sys.closed);
    UnsentFits(st, false, sys.stream, sys.closed);
    OutputInside(st, link, ackAlloc);
    SendingKeeps(sys, Output(st, link, ackAlloc));
  }

  // ---------- Acknowledgements ----------

  lemma {:induction false} DropInside(q: seq<TxSeg>, ackno: int, acked: u16, edge: int)
    requires SentInside(q, edge)
    ensures SentInside(DropAcked(q, ackno, acked).rest, edge)
    decreases |q|
  {
    if q != [] && q[0].End() <= ackno {
      DropInside(q[1..], ackno, if acked != 0 && q[0].fin then acked - 1 else acked, edge);
    }
  }

  lemma DupAckInside(st: SndState, edge: int)
    requires SentInside(st.unacked, edge)
    ensures var r := DupAck(st);
            SentInside(r.unacked, edge) && r.wl1 == st.wl1 && r.wl2 == st.wl2 && r.state == st.state
  {}

  lemma AckWithInside(st: SndState, ackno: int, dup: bool, ackAlloc: bool, edge: int)
    requires SentInside(st.unacked, edge) && st.cwnd >= 1 && st.ssthresh >= 1
    ensures var r := AckWith(st, ackno, dup, ackAlloc);
            SentInside(r.unacked, edge) && r.wl1 == st.wl1 && r.wl2 == st.wl2 && r.state == st.state
  {
    if ackno <= st.lastack {
      DupAckInside(st.(acked := 0), edge);
    } else if ackno <= st.nxt {
      DropInside(st.unacked, ackno, U16(ackno - st.lastack), edge);
    }
  }

  /** What the window update does with a genuine acknowledgement: the right edge never moves left. */
  lemma EdgeOnlyGrows(st: SndState, m: AckMsg, acks: set<AckMsg>, nxt: int, edge: int)
    requires AcksOk(acks, nxt, edge) && m in acks
    requires AckMsg(st.lastack, st.wnd) in acks && st.wl2 == st.lastack
    ensures var r := UpdateWnd(st, st.wl1, m.ackno, m.wnd);
            && st.lastack + st.wnd <= r.wl2 + r.wnd && AckMsg(r.wl2, r.wnd) in acks
            && r.wl2 == Max(st.lastack, m.ackno) && m.ackno <= nxt
            && (m.ackno == st.lastack && r.wl2 + r.wnd == st.wl2 + st.wnd ==> r.wnd == st.wnd)
  {
    var last := AckMsg(st.lastack, st.wnd);
    if m.ackno > st.lastack { assert last.Edge() <= m.Edge(); }
    assert m == AckMsg(m.ackno, m.wnd);
  }

  /** The retransmitted segment always fits the window: it was sent inside it, the window does not
      shrink, and a fast retransmission sets cwnd to at least five segments. */
  lemma RetransmittedFits(st: SndState, r: SndState, stream: seq<byte>, closed: bool)
    requires SndInv(st, stream, closed) && st.unacked != []
    requires SentInside(st.unacked, st.lastack + st.wnd)
    requires r.unsent != [] && r.unsent[0] == st.unacked[0] && r.lastack == st.lastack && r.wnd == st.wnd
    requires r.cwnd >= 5 * r.mss && r.mss == st.mss
    ensures HeadSendable(r)
  {
    var s := st.unacked[0];
    assert (st.unacked + st.unsent)[0] == s;
    assert |s.data| <= st.mss;
  }

  /** What an acknowledgement leaves of the window invariant. */
  lemma AckWindow(st: SndState, m: AckMsg, ackAlloc: bool, edge: int)
    requires SentInside(st.unacked, edge) && st.cwnd >= 1 && st.ssthresh >= 1
    ensures var r := Ack(st, st.wl1, m.ackno, m.wnd, 0, ackAlloc);
            SentInside(r.unacked, edge) && r.wl2 == UpdateWnd(st, st.wl1, m.ackno, m.wnd).wl2 && r.state == st.state
  {
    var st0 := UpdateWnd(st, st.wl1, m.ackno, m.wnd);
    UpdateWndFields(st, st.wl1, m.ackno, m.wnd);
    AckWithInside(st0, m.ackno, st0.wl2 + st0.wnd == st.wl2 + st.wnd, ackAlloc, edge);
  }

  lemma AckReady(st: SndState, r: SndState, m: AckMsg, ackAlloc: bool, stream: seq<byte>, closed: bool)
    requires SndInv(st, stream, closed) && SentInside(st.unacked, st.lastack + st.wnd)
    requires r == Ack(st, st.wl1, m.ackno, m.wnd, 0, ackAlloc)
    requires m.ackno == st.lastack && r.wl2 + r.wnd == st.wl2 + st.wnd ==> r.wnd == st.wnd
    requires r.wl2 == UpdateWnd(st, st.wl1, m.ackno, m.wnd).wl2
    ensures Ready(r, FastRetransmits(st, st.wl1, m.ackno, m.wnd, 0), stream, closed)
  {
    AckKeeps(st, st.wl1, m.ackno, m.wnd, 0, ackAlloc, stream, closed);
    if FastRetransmits(st, st.wl1, m.ackno, m.wnd, 0) {
      RetransmittedFits(st, r, stream, closed);
    }
  }

  lemma SndInvMeans(st: SndState, stream: seq<byte>, closed: bool)
    requires SndInv(st, stream, closed)
    ensures st.cwnd >= 1 && st.ssthresh >= 1
  {}

  lemma OnAckKeeps(st: SndState, m: AckMsg, ackAlloc: bool, stream: seq<byte>, closed: bool, acks: set<AckMsg>, nxt: int, edge: int)
    requires SndOk(st, false, stream, closed, acks) && AcksOk(acks, nxt, edge) && m in acks && nxt <= st.nxt
    ensures SndOk(OnAck(st, m, ackAlloc), FastRetransmits(st, st.wl1, m.ackno, m.wnd, 0), stream, closed, acks)
    ensures OnAck(st, m, ackAlloc).nxt == st.nxt
  {
    hide Ack, UpdateWnd, SndInv, RexInv, SentInside, AcksOk, FastRetransmits;
    SndInvMeans(st, stream, closed);
    var r := Ack(st, st.wl1, m.ackno, m.wnd, 0, ackAlloc);
    AckKeeps(st, st.wl1, m.ackno, m.wnd, 0, ackAlloc, stream, closed);
    EdgeOnlyGrows(st, m, acks, nxt, edge);
    InsideGrows(st.unacked, st.lastack + st.wnd, r.lastack + r.wnd);
    AckWindow(st, m, ackAlloc, r.lastack + r.wnd);
    AckReady(st, r, m, ackAlloc, stream, closed);
    StateKeeps(r, NextState(r.state, false, m.ackno == r.nxt), stream, closed);
  }

  lemma ReadySends(sys: Sys, st: SndState, fast: bool, link: nat, ackAlloc: bool)
    requires SysInv(sys) && SndOk(st, fast, sys.stream, sys.closed, sys.acks) && link >= 1 && sys.snd.nxt == st.nxt
    ensures SysInv(Sending(sys, Output(st, link, ackAlloc)))
  {
    UnsentFits(st, fast, sys.stream, sys.closed);
    OutputInside(st, link, ackAlloc);
    if fast {
      OutputRestores(st, link, ackAlloc, sys.stream, sys.closed);
    } else {
      OutputKeeps(st, link, ackAlloc, sys.stream, sys.closed);
    }
    SendingKeeps(sys, Output(st, link, ackAlloc));
  }

  lemma AckStep(sys: Sys, m: AckMsg, link: nat, ackAlloc: bool)
    requires SysInv(sys)
    ensures SysInv(Next(sys, AckArrives(m, link, ackAlloc)))
  {
    hide SysInv, Next, Sending, OnAck, Output, FastRetransmits, SndOk, AcksOk, RcvOk, NetOk;
    SysInvMeans(sys);
    NextOnAck(sys, m, link, ackAlloc);
    if m in sys.acks {
      var st, fast := OnAck(sys.snd, m, ackAlloc), FastRetransmits(sys.snd, sys.snd.wl1, m.ackno, m.wnd, 0);
      OnAckKeeps(sys.snd, m, ackAlloc, sys.stream, sys.closed, sys.acks, sys.rcv.nxt, sys.rcv.annEdge);
      ReadySends(sys, st, fast, link + 1, ackAlloc);
    }
  }

  lemma NextOnAck(sys: Sys, m: AckMsg, link: nat, ackAlloc: bool)
    requires sys.snd.cwnd >= 1 && sys.snd.ssthresh >= 1
    ensures Next(sys, AckArrives(m, link, ackAlloc)) ==
            if m in sys.acks then Sending(sys, Output(OnAck(sys.snd, m, ackAlloc), link + 1, ackAlloc)) else sys
  {}

  /** FIN_WAIT_2 is entered by the acknowledgement whose number is snd_nxt. That acknowledges the FIN if and
      only if the FIN has been sent by then. */
  lemma FinWait2Means(sys: Sys, m: AckMsg, link: nat, ackAlloc: bool)
    requires SysInv(sys) && sys.closed && sys.snd.state.FinWait1? && m in sys.acks
    ensures sys.snd.cwnd >= 1 && sys.snd.ssthresh >= 1
    ensures var r := Next(sys, AckArrives(m, link, ackAlloc)).snd;
            && (r.state.FinWait2? <==> m.ackno == sys.snd.nxt)
            && (r.state.FinWait2? ==> (r.lastack == |sys.stream| + 1 <==> sys.snd.nxt == |sys.stream| + 1))
  {
    hide SndInv, RexInv, Ack, Output, SentInside, FastRetransmits, UpdateWnd;
    SysInvMeans(sys);
    NextOnAck(sys, m, link, ackAlloc);
    var st, fast := OnAck(sys.snd, m, ackAlloc), FastRetransmits(sys.snd, sys.snd.wl1, m.ackno, m.wnd, 0);
    OnAckKeeps(sys.snd, m, ackAlloc, sys.stream, sys.closed, sys.acks, sys.rcv.nxt, sys.rcv.annEdge);
    AckKeeps(sys.snd, sys.snd.wl1, m.ackno, m.wnd, 0, ackAlloc, sys.stream, sys.closed);
    AckWindow(sys.snd, m, ackAlloc, sys.snd.lastack + sys.snd.wnd);
    UnsentFits(st, fast, sys.stream, sys.closed);
    OutputInside(st, link + 1, ackAlloc);
    LastackSent(sys.snd, sys.stream, sys.closed);
  }

  lemma LastackSent(st: SndState, stream: seq<byte>, closed: bool)
    requires SndInv(st, stream, closed)
    ensures st.lastack <= st.nxt
  {}

  // ---------- The receiver's steps ----------

  /** rcv_nxt and the queue never pass what the peer has sent. */
  lemma ReceiveBound(st: RcvState, seg: Seg, env: Env, stream: seq<byte>, closed: bool, bound: int)
    requires QueueOk(st.nxt, st.ooseq) && AllTrue(st.ooseq, stream, closed) && True(seg, stream, closed)
    requires st.nxt <= bound && seg.End() <= bound && AllEndBy(st.ooseq, bound)
    ensures var o := Receive(st, seg, env);
            o.st.nxt <= bound && AllEndBy(o.st.ooseq, bound)
  {
    if seg.Len() > 0 && st.state.AcceptsText() {
      var s := TrimFront(st.nxt, seg);
      TrimFrontTrue(st.nxt, seg, stream, closed);
      if st.nxt <= s.start <= st.nxt + st.wnd - 1 {
        if s.start == st.nxt {
          InOrderBound(st, s, stream, closed, bound);
        } else if env.segAlloc && st.ooseq != [] {
          PlaceTrue(st.nxt, st.ooseq, s, st.Edge(), stream, closed, bound);
        }
      }
    }
  }

  lemma InputBound(st: RcvState, seg: Seg, env: Env, stream: seq<byte>, closed: bool, bound: int)
    requires RcvOk(st, stream, closed, bound) && True(seg, stream, closed) && seg.End() <= bound
    ensures var r := Input(st, seg, false, env).0;
            r.nxt <= bound && AllEndBy(r.ooseq, bound) && (r.state.Established? || r.state.CloseWait?)
  {
    var st1 := Reoffer(st, env.takeRefused);
    StateAfter(st, seg, env);
    if st1.refused.None? || seg.Len() == 0 {
      ReceiveBound(st1, seg, env, stream, closed, bound);
      CallbackFrame(st1, seg, false, env);
    }
  }

  lemma StateAfter(st: RcvState, seg: Seg, env: Env)
    requires st.state.Established? || st.state.CloseWait?
    ensures var r := Input(st, seg, false, env).0; r.state.Established? || r.state.CloseWait?
  {}

  lemma AcksGrow(acks: set<AckMsg>, nxt: int, edge: int, m: AckMsg, nxt': int, edge': int)
    requires AcksOk(acks, nxt, edge) && nxt == m.ackno <= nxt' && edge <= m.Edge() == edge'
    ensures AcksOk(acks + {m}, nxt', edge')
  {}

  lemma DataStep(sys: Sys, seg: Seg, env: Env)
    requires SysInv(sys)
    ensures SysInv(Next(sys, DataArrives(seg, env)))
  {
    if seg in sys.net {
      var (r, ack) := Input(sys.rcv, seg, false, env);
      InputKeeps(sys.rcv, seg, false, env, sys.stream, sys.closed);
      InputKeepsAnn(sys.rcv, seg, false, env, sys.stream, sys.closed);
      InputBound(sys.rcv, seg, env, sys.stream, sys.closed, sys.snd.nxt);
      if ack.Some? {
        AcksGrow(sys.acks, sys.rcv.nxt, sys.rcv.annEdge, ack.value, r.nxt, r.annEdge);
      }
    }
  }

  lemma ReceiverSteps(sys: Sys, step: Step)
    requires SysInv(sys)
    requires step.AckLeaves? || step.AppConsumes? || step.AppRetries? || step.OoseqExpires?
    ensures SysInv(Next(sys, step))
  {
    match step
    case AckLeaves =>
      AcksGrow(sys.acks, sys.rcv.nxt, sys.rcv.annEdge, AckOf(sys.rcv), sys.rcv.nxt, Announce(sys.rcv).annEdge);
    case AppConsumes(len) => AnnWndRange(sys.rcv.nxt, Recved(sys.rcv, len).wnd, sys.rcv.annEdge, sys.rcv.mss);
    case AppRetries(take) => ReofferKeeps(sys.rcv, take, sys.stream, sys.closed);
    case OoseqExpires =>
  }

  // ---------- Whole runs ----------

  lemma NextKeeps(sys: Sys, step: Step)
    requires SysInv(sys)
    ensures SysInv(Next(sys, step))
  {
    match step
    case WriteData(data, copy, more, budget) => if |data| <= 0xffff { WriteStep(sys, data, copy, more, budget); }
    case Close(budget) => if !sys.closed { CloseStep(sys, budget); }
    case Transmit(link, ackAlloc) => TransmitStep(sys, link, ackAlloc);
    case Timeout(link, ackAlloc) => TimeoutStep(sys, link, ackAlloc);
    case DataArrives(seg, env) => DataStep(sys, seg, env);
    case AckArrives(m, link, ackAlloc) => AckStep(sys, m, link, ackAlloc);
    case _ => ReceiverSteps(sys, step);
  }

  /** The state after a run. */
  ghost function Run(sys: Sys, steps: seq<Step>): (r: Sys)
    requires SysInv(sys)
    ensures SysInv(r)
    decreases |steps|
  {
    if steps == [] then sys
    else
      NextKeeps(sys, steps[0]);
      Run(Next(sys, steps[0]), steps[1..])
  }

  /** End-to-end safety: after every run, what the receiving application was given is a prefix of
      what the sending application wrote; EOF was reported at most once, and only after all of it. */
  lemma AcceptedIsPrefix(init: Sys, steps: seq<Step>)
    requires Init(init)
    ensures var s := (InitKeeps(init); Run(init, steps));
            && s.rcv.accepted <= s.stream
            && s.rcv.eofs <= 1 && (s.rcv.eofs == 1 ==> s.closed && s.rcv.accepted == s.stream)
  {
    InitKeeps(init);
    var s := Run(init, steps);
    assert s.rcv.accepted <= s.rcv.accepted + s.rcv.Pending();
    assert s.rcv.refused.None? ==> s.rcv.accepted + [] == s.rcv.accepted;
  }

  /** Nothing is abandoned: after every run lastack <= rcv_nxt <= snd_nxt, every acknowledged byte
      has reached the receiver, and every byte from lastack on is still held by the sender. */
  lemma NothingLost(init: Sys, steps: seq<Step>)
    requires Init(init)
    ensures var s := (InitKeeps(init); Run(init, steps));
            && s.snd.lastack <= s.rcv.nxt <= s.snd.nxt
            && s.stream[..Min(s.snd.lastack, |s.stream|)] <= s.rcv.accepted + s.rcv.Pending()
            && var all := s.snd.unacked + s.snd.unsent;
               if all == [] then s.snd.lastack == Limit(s.stream, s.closed)
               else 0 <= all[0].start <= s.snd.lastack && Payload(all) == s.stream[all[0].start..]
  {
    InitKeeps(init);
    var s := Run(init, steps);
    assert AckMsg(s.snd.lastack, s.snd.wnd) in s.acks;
    NothingAbandoned(s.snd, s.snd.unacked + s.snd.unsent, s.stream, s.closed);
  }

  /** The announced window never shrinks, as far as the sender can see: whatever it sent and has not
      had acknowledged lies inside the window it currently believes in. */
  lemma SentStaysInside(init: Sys, steps: seq<Step>)
    requires Init(init)
    ensures var s := (InitKeeps(init); Run(init, steps));
            SentInside(s.snd.unacked, s.snd.lastack + s.snd.wnd) && s.snd.lastack + s.snd.wnd <= s.rcv.annEdge
  {
    hide SysInv, Init, Next;
    InitKeeps(init);
    EdgePromised(Run(init, steps));
  }

  lemma EdgePromised(sys: Sys)
    requires SysInv(sys)
    ensures SentInside(sys.snd.unacked, sys.snd.lastack + sys.snd.wnd) && sys.snd.lastack + sys.snd.wnd <= sys.rcv.annEdge
  {
    var m := AckMsg(sys.snd.lastack, sys.snd.wnd);
    assert m in sys.acks && m.Edge() <= sys.rcv.annEdge;
  }

  /** Sender accounting: after every run snd_buf and what is between lastack and snd_lbb add up to
      TCP_SND_BUF; snd_queuelen is the number of buffers on both queues and at most one more than
      TCP_SND_QUEUELEN; and the queues, one behind the other, are a gap-free sequence of non-empty
      segments from the one that holds lastack to the end of the stream. */
  lemma SenderAccounts(init: Sys, steps: seq<Step>)
    requires Init(init)
    ensures var s := (InitKeeps(init); Run(init, steps));
            var all := s.snd.unacked + s.snd.unsent;
            && s.snd.buf + (s.snd.lbb - s.snd.lastack) == TCP_SND_BUF
            && s.snd.queuelen == SumClen(all) <= TCP_SND_QUEUELEN + 1
            && Covers(all, s.snd.lastack, Limit(s.stream, s.closed)) && AllFit(all, s.snd.mss)
  {
    InitKeeps(init);
    SenderMeans(Run(init, steps));
  }

  lemma SenderMeans(s: Sys)
    requires SysInv(s)
    ensures SndInv(s.snd, s.stream, s.closed)
  {}

  // ---------- The assertions of tcp_write() ----------

  ghost predicate Wide(st: SndState) { Snug(st) && st.wndMax >= 2 }

  lemma NextWide(sys: Sys, step: Step)
    requires SysInv(sys) && Wide(sys.snd)
    ensures Wide(Next(sys, step).snd)
  {
    hide SysInv, Snug, Write, SendFin, Output, Ack, RexmitRto, FastRetransmits, Input;
    var st := sys.snd;
    SysInvMeans(sys);
    match step
    case WriteData(data, copy, more, budget) =>
      if |data| <= 0xffff && TailFits(st) { WriteSnug(st, data, copy, more, budget); }
    case Close(budget) =>
      SendFinSnug(st, budget);
      StateSnug(SendFin(st, budget).0, FinWait1);
    case Transmit(link, ackAlloc) => OutputSnug(st, link, ackAlloc);
    case Timeout(link, ackAlloc) =>
      RexmitRtoSnug(st);
      OutputSnug(RexmitRto(st), link, ackAlloc);
    case AckArrives(m, link, ackAlloc) =>
      AckSnug(st, st.wl1, m.ackno, m.wnd, 0, ackAlloc);
      var r := Ack(st, st.wl1, m.ackno, m.wnd, 0, ackAlloc);
      StateSnug(r, NextState(r.state, false, m.ackno == r.nxt));
      OutputSnug(OnAck(st, m, ackAlloc), link + 1, ackAlloc);
    case _ =>
  }

  lemma StateSnug(st: SndState, state: State)
    ensures Snug(st.(state := state)) <==> Snug(st)
  {}

  lemma {:induction false} RunWide(sys: Sys, steps: seq<Step>)
    requires SysInv(sys) && Wide(sys.snd)
    ensures Wide(Run(sys, steps).snd)
    decreases |steps|
  {
    if steps != [] {
      NextKeeps(sys, steps[0]);
      NextWide(sys, steps[0]);
      RunWide(Next(sys, steps[0]), steps[1..]);
    }
  }

  /** If the handshake announced a window of at least 2, the assertions of tcp_write() hold after every
      run, and everything queued fits mss_local. */
  lemma TailAlwaysFits(init: Sys, steps: seq<Step>)
    requires Init(init) && init.snd.wndMax >= 2
    ensures var s := (InitKeeps(init); Run(init, steps));
            TailFits(s.snd) && AllFit(s.snd.unacked + s.snd.unsent, MssLocal(s.snd))
  {
    InitKeeps(init);
    RunWide(init, steps);
    var s := Run(init, steps);
    SnugTail(s.snd, s.stream, s.closed);
    FitConcat(s.snd.unacked, s.snd.unsent, MssLocal(s.snd));
  }

  /** A run, one step at a time and in two parts. */
  lemma RunStep(sys: Sys, step: Step, rest: seq<Step>)
    requires SysInv(sys)
    ensures SysInv(Next(sys, step)) && Run(sys, [step] + rest) == Run(Next(sys, step), rest)
    ensures Run(sys, []) == sys
  {
    hide Next, SysInv;
    NextKeeps(sys, step);
    assert ([step] + rest)[0] == step && ([step] + rest)[1..] == rest;
  }

  lemma {:induction false} RunConcat(sys: Sys, a: seq<Step>, b: seq<Step>)
    requires SysInv(sys)
    ensures Run(sys, a + b) == Run(Run(sys, a), b)
    decreases |a|
  {
    hide Next, SysInv;
    SysInvMeans(sys);
    if a == [] {
      assert a + b == b;
    } else {
      NextKeeps(sys, a[0]);
      assert (a + b)[0] == a[0] && (a + b)[1..] == a[1..] + b;
      RunConcat(Next(sys, a[0]), a[1..], b);
    }
  }
}
