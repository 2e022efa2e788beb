/** One end of a connection as a receiver. */
module ReceiverSpec {
  // tcp_receive(), tcp_process(), the delivery part of tcp_input(), tcp_process_refused_data(),
  // tcp_recved() and the window announcements, as functions on a state with unbounded stream offsets.

  import opened SequenceNumbers
  import opened TcpConfig
  import opened Reassembly

  /** The part of an acknowledgement that matters to the data sender. */
  datatype AckMsg = AckMsg(ackno: int, wnd: u16) {
    function Edge(): int { ackno + wnd }
  }

  /** pcb->refused_data with its PBUF_FLAG_TCP_FIN mark. */
  datatype Held = Held(data: seq<byte>, fin: bool)

  /** The receive half of struct tcp_pcb, and what the application has been given:
      the concatenation of the buffers it took, and how often it was told EOF. */
  datatype RcvState = RcvState(
    nxt: int,                // rcv_nxt
    wnd: u16,                // rcv_wnd
    annWnd: u16,             // rcv_ann_wnd
    annEdge: int,            // rcv_ann_right_edge
    mss: u16,
    ooseq: seq<Seg>,
    state: State,
    refused: Option<Held>,
    accepted: seq<byte>,
    eofs: nat)
  {
    function Edge(): int { nxt + wnd }

    function Pending(): seq<byte> { if refused.Some? then refused.value.data else [] }
  }

  /** What the environment decides while a segment is processed: memory for the queue entry and
      for an empty ACK, and the application's answers to the old and to the new buffer. */
  datatype Env = Env(segAlloc: bool, ackAlloc: bool, takeRefused: bool, takeNew: bool)

  /** The result of tcp_receive(): recv_data, TF_GOT_FIN, and an empty ACK it sent. */
  datatype Outcome = Outcome(st: RcvState, data: seq<byte>, fin: bool, ack: Option<AckMsg>)

  /** tcp_update_rcv_ann_wnd(): the window to announce. */
  function AnnWnd(nxt: int, wnd: u16, annEdge: int, mss: u16): u16 {
    if nxt + wnd >= annEdge + Min(TCP_WND / 2, mss) then wnd
    else if nxt > annEdge then 0
    else U16(annEdge - nxt)
  }

  function UpdateAnn(st: RcvState): RcvState {
    st.(annWnd := AnnWnd(st.nxt, st.wnd, st.annEdge, st.mss))
  }

  /** Sending any segment announces the right edge. */
  function Announce(st: RcvState): RcvState { st.(annEdge := st.nxt + st.annWnd) }

  function AckOf(st: RcvState): AckMsg { AckMsg(st.nxt, st.annWnd) }

  function InOrder(st: RcvState, s: Seg): Outcome {
    var (t, rest) := Absorb(TrimToWindow(s, st.wnd), st.ooseq);
    var d := Drain(t.End(), rest);
    var st' := UpdateAnn(st.(nxt := d.nxt, wnd := U16(st.wnd - (d.nxt - st.nxt)), ooseq := d.rest,
                             state := if d.fin && st.state.Established? then CloseWait else st.state));
    Outcome(st', t.data + d.data, t.fin || d.fin, None)
  }

  /** tcp_send_empty_ack(): on an allocation failure nothing is announced. */
  function EmptyAck(st: RcvState, alloc: bool): Outcome {
    if alloc then Outcome(Announce(st), [], false, Some(AckOf(st))) else Outcome(st, [], false, None)
  }

  /** The data half of tcp_receive(), once what lies before rcv_nxt has been cut off. */
  function ReceiveFrom(st: RcvState, s: Seg, env: Env): Outcome {
    if !(st.nxt <= s.start <= st.nxt + st.wnd - 1) then EmptyAck(st, env.ackAlloc)
    else if s.start == st.nxt then InOrder(st, s)
    else
      var o := EmptyAck(st, env.ackAlloc);
      o.(st := o.st.(ooseq := Place(st.ooseq, s, st.Edge(), env.segAlloc)))
  }

  /** The data half of tcp_receive(). */
  function Receive(st: RcvState, seg: Seg, env: Env): Outcome {
    if seg.Len() == 0 || !st.state.AcceptsText() then Outcome(st, [], false, None)
    else ReceiveFrom(st, TrimFront(st.nxt, seg), env)
  }

  /** The state changes of tcp_process() once tcp_receive() has run; finAcked says that the
      segment acknowledges everything sent, our FIN included. */
  function NextState(state: State, gotFin: bool, finAcked: bool): State {
    match state
    case Established => if gotFin then CloseWait else Established
    case CloseWait => CloseWait
    case FinWait1 =>
      if gotFin then (if finAcked then TimeWait else Closing)
      else if finAcked then FinWait2 else FinWait1
    case FinWait2 => if gotFin then TimeWait else FinWait2
    case Closing => if finAcked then TimeWait else Closing
    case LastAck => if finAcked then Closed else LastAck
    case TimeWait => TimeWait
    case Closed => Closed
  }

  /** tcp_process(): leaving the active states purges the queue and any refused data. */
  function Process(st: RcvState, seg: Seg, finAcked: bool, env: Env): Outcome {
    var o := Receive(st, seg, env);
    var state := NextState(st.state, o.fin, finAcked);
    o.(st := if state.Active() then o.st.(state := state)
             else o.st.(state := state, ooseq := [], refused := None))
  }

  /** The window correction for a FIN, for which the application does not call tcp_recved(). */
  function TellEof(st: RcvState): RcvState {
    st.(eofs := st.eofs + 1, wnd := if st.wnd != TCP_WND then U16(st.wnd + 1) else st.wnd)
  }

  /** The recv callbacks of tcp_input(). */
  function Deliver(st: RcvState, data: seq<byte>, fin: bool, take: bool): RcvState {
    var st1 :=
      if data == [] then st
      else if take then st.(accepted := st.accepted + data)
      else st.(refused := Some(Held(data, false)));
    if !fin then st1
    else if st1.refused.Some? then st1.(refused := Some(Held(st1.refused.value.data, true)))
    else TellEof(st1)
  }

  /** tcp_process_refused_data(). */
  function Reoffer(st: RcvState, take: bool): RcvState {
    if st.refused.None? || !take then st
    else
      var st1 := st.(refused := None, accepted := st.accepted + st.refused.value.data);
      if st.refused.value.fin then TellEof(st1) else st1
  }

  /** tcp_input() for a segment of an active connection. */
  function Input(st: RcvState, seg: Seg, finAcked: bool, env: Env): (RcvState, Option<AckMsg>) {
    var st1 := Reoffer(st, env.takeRefused);
    if st1.refused.Some? && seg.Len() > 0 then (st1, None)
    else
      var o := Process(st1, seg, finAcked, env);
      (Deliver(o.st, o.data, o.fin, env.takeNew), o.ack)
  }

  /** tcp_recved(): the application has consumed len bytes. */
  function Recved(st: RcvState, len: u16): RcvState {
    var w := U16(st.wnd + len);
    var w' := if w > TCP_WND then TCP_WND
              else if w == 0 && (st.state.CloseWait? || st.state.LastAck?) then TCP_WND
              else w;
    UpdateAnn(st.(wnd := w'))
  }

  /** tcp_slowtmr() drops out-of-sequence data of an idle connection. */
  function DropOoseq(st: RcvState): RcvState { st.(ooseq := []) }

  // ---------- The in-sequence path as a whole ----------

  lemma TrimFrontTrue(nxt: int, s: Seg, stream: seq<byte>, closed: bool)
    requires True(s, stream, closed)
    ensures True(TrimFront(nxt, s), stream, closed) && TrimFront(nxt, s).End() == s.End()
    ensures s.Len() >= 1 ==> TrimFront(nxt, s).Len() >= 1
  {}

  lemma TrimToWindowTrue(s: Seg, wnd: nat, stream: seq<byte>, closed: bool)
    requires True(s, stream, closed) && s.Len() >= 1 && wnd >= 1
    ensures var t := TrimToWindow(s, wnd);
            && True(t, stream, closed) && 1 <= t.Len() <= wnd && t.start == s.start
            && t.End() == Min(s.End(), s.start + wnd)
  {}

  /** The two halves of the in-sequence path: the segment made disjoint from the queue, and the
      queue's run behind it. */
  lemma InOrderParts(st: RcvState, s: Seg, stream: seq<byte>, closed: bool, bound: int)
    requires QueueOk(st.nxt, st.ooseq) && AllTrue(st.ooseq, stream, closed)
    requires True(s, stream, closed) && s.start == st.nxt && s.Len() >= 1 && st.wnd >= 1
    requires s.End() <= bound && AllEndBy(st.ooseq, bound)
    ensures var (t, rest) := Absorb(TrimToWindow(s, st.wnd), st.ooseq);
            && t.start == st.nxt && t.Len() >= 1
            && True(t, stream, closed) && AllTrue(rest, stream, closed)
            && t.End() <= bound && AllEndBy(rest, bound)
            && QueueOk(t.End() - 1, rest)
            && (t.fin ==> rest == [])
  {
    var w := TrimToWindow(s, st.wnd);
    TrimToWindowTrue(s, st.wnd, stream, closed);
    AbsorbOk(st.nxt, w, st.ooseq);
    AbsorbKeeps(st.nxt, w, st.ooseq, stream, closed, bound);
  }

  ghost function Bound(s: Seg, q: seq<Seg>): (b: int)
    ensures s.End() <= b && AllEndBy(q, b)
    decreases |q|
  {
    if q == [] then s.End()
    else
      var b := Bound(s, q[1..]);
      EndByGrows(q[1..], b, Max(b, q[0].End()));
      Max(b, q[0].End())
  }

  /** An in-sequence segment delivers stream bytes from rcv_nxt on, moves rcv_nxt behind them and
      leaves the queue strictly above it. */
  lemma InOrderDelivers(st: RcvState, s: Seg, stream: seq<byte>, closed: bool)
    requires QueueOk(st.nxt, st.ooseq) && AllTrue(st.ooseq, stream, closed)
    requires True(s, stream, closed) && s.start == st.nxt && s.Len() >= 1 && st.wnd >= 1
    ensures var o := InOrder(st, s);
            && QueueOk(o.st.nxt, o.st.ooseq) && AllTrue(o.st.ooseq, stream, closed)
            && Matches(o.data, stream, st.nxt)
            && o.st.nxt == st.nxt + |o.data| + (if o.fin then 1 else 0)
            && o.st.nxt > st.nxt
            && (o.fin ==> closed && o.st.nxt == |stream| + 1)
  {
    InOrderParts(st, s, stream, closed, Bound(s, st.ooseq));
    var (t, rest) := Absorb(TrimToWindow(s, st.wnd), st.ooseq);
    Assemble(st.nxt, t, rest, stream, closed);
  }

  lemma Assemble(nxt: int, t: Seg, rest: seq<Seg>, stream: seq<byte>, closed: bool)
    requires t.start == nxt && t.Len() >= 1 && True(t, stream, closed)
    requires QueueOk(t.End() - 1, rest) && AllTrue(rest, stream, closed)
    requires t.fin ==> rest == []
    ensures var d := Drain(t.End(), rest);
            && QueueOk(d.nxt, d.rest) && AllTrue(d.rest, stream, closed)
            && Matches(t.data + d.data, stream, nxt)
            && d.nxt == nxt + |t.data + d.data| + (if t.fin || d.fin then 1 else 0)
            && d.nxt > nxt
            && (t.fin || d.fin ==> closed && d.nxt == |stream| + 1)
  {
    DrainKeepsQueue(t.End(), rest);
    DrainDelivers(t.End(), rest, stream, closed);
    MatchesConcat(t.data, Drain(t.End(), rest).data, stream, nxt);
  }

  /** Delivery is as early as possible and loses nothing: the window-trimmed segment is delivered
      whole, every delivered byte came from it or from the queue, the queue keeps what it held
      above the new rcv_nxt, and it does not hold the byte at rcv_nxt. */
  lemma InOrderExact(st: RcvState, s: Seg, stream: seq<byte>, closed: bool, pos: int)
    requires QueueOk(st.nxt, st.ooseq) && AllTrue(st.ooseq, stream, closed)
    requires True(s, stream, closed) && s.start == st.nxt && s.Len() >= 1 && st.wnd >= 1
    ensures var o := InOrder(st, s);
            && (st.nxt <= pos < st.nxt + |o.data| ==> InData(s, pos) || Holds(st.ooseq, pos))
            && o.st.nxt >= Min(s.DataEnd(), st.Edge())
            && (pos >= o.st.nxt ==> (Holds(o.st.ooseq, pos) <==> Holds(st.ooseq, pos)))
            && !Holds(o.st.ooseq, o.st.nxt)
  {
    hide QueueOk, AllTrue, True, Holds, Absorb, Drain, Bound;
    InOrderParts(st, s, stream, closed, Bound(s, st.ooseq));
    var w := TrimToWindow(s, st.wnd);
    TrimToWindowTrue(s, st.wnd, stream, closed);
    AbsorbOk(st.nxt, w, st.ooseq);
    var (t, rest) := Absorb(w, st.ooseq);
    var d := Drain(t.End(), rest);
    DrainKeepsQueue(t.End(), rest);
    NothingBelow(d.nxt, d.rest, d.nxt);
    DrainExact(t.End(), rest, pos);
    AbsorbExact(st.nxt, w, st.ooseq, stream, closed, pos);
    DrainNothing(t.End());
    if t.data != w.data { DrainTakesFirst(t.End(), rest); }
  }

  lemma DrainNothing(nxt: int)
    ensures Drain(nxt, []) == Drained(nxt, [], false, [])
  {}

  lemma DrainTakesFirst(nxt: int, q: seq<Seg>)
    requires QueueOk(nxt - 1, q) && q != [] && q[0].start == nxt
    ensures Drain(nxt, q).nxt >= q[0].DataEnd()
  {
    DrainExact(q[0].End(), q[1..], nxt);
  }

  /** rcv_nxt never passes the last sequence number that was ever sent. */
  lemma InOrderBound(st: RcvState, s: Seg, stream: seq<byte>, closed: bool, bound: int)
    requires QueueOk(st.nxt, st.ooseq) && AllTrue(st.ooseq, stream, closed)
    requires True(s, stream, closed) && s.start == st.nxt && s.Len() >= 1 && st.wnd >= 1
    requires s.End() <= bound && AllEndBy(st.ooseq, bound)
    ensures InOrder(st, s).st.nxt <= bound && AllEndBy(InOrder(st, s).st.ooseq, bound)
  {
    InOrderParts(st, s, stream, closed, bound);
    var (t, rest) := Absorb(TrimToWindow(s, st.wnd), st.ooseq);
    DrainBound(t.End(), rest, bound);
  }

  // ---------- The receiver invariant ----------

  /** What holds between any two events at the receiver of a stream: the queue is in order and
      carries stream bytes; what the application took is a prefix of the stream, and together
      with a refused buffer it is everything below rcv_nxt; EOF comes once, after all data. */
  ghost predicate RcvInv(st: RcvState, stream: seq<byte>, closed: bool) {
    && QueueOk(st.nxt, st.ooseq) && AllTrue(st.ooseq, stream, closed)
    && 0 <= st.nxt <= |stream| + (if closed then 1 else 0)
    && st.accepted + st.Pending() <= stream
    && (st.state.Active() ==> |st.accepted + st.Pending()| == Min(st.nxt, |stream|))
    && (st.state.AcceptsText() ==> st.nxt <= |stream|)
    && st.eofs <= 1
    && (FinPending(st) || st.eofs == 1 ==> st.nxt == |stream| + 1 && st.accepted + st.Pending() == stream)
    && (st.eofs == 1 ==> st.refused.None?)
    && (st.state.Active() && st.nxt == |stream| + 1 ==> FinPending(st) || st.eofs == 1)
  }

  predicate FinPending(st: RcvState) { st.refused.Some? && st.refused.value.fin }

  lemma InitialInv(st: RcvState)
    requires st.nxt == 0 && st.ooseq == [] && st.state == Established
    requires st.refused == None && st.accepted == [] && st.eofs == 0
    ensures RcvInv(st, [], false)
  {}

  /** The stream may grow until it is closed, and closing it adds the FIN at its end. */
  lemma StreamGrows(st: RcvState, stream: seq<byte>, data: seq<byte>, closed: bool)
    requires RcvInv(st, stream, false)
    ensures RcvInv(st, stream + data, closed)
  {
    TrueGrows(st.ooseq, stream, data, closed);
  }

  /** Offering a refused buffer again, with either answer, keeps the invariant. */
  lemma ReofferKeeps(st: RcvState, take: bool, stream: seq<byte>, closed: bool)
    requires RcvInv(st, stream, closed)
    ensures RcvInv(Reoffer(st, take), stream, closed)
  {}

  /** Queueing an out-of-sequence segment, or failing to, keeps the queue. */
  lemma OutOfOrderKeeps(st: RcvState, s: Seg, alloc: bool, stream: seq<byte>, closed: bool)
    requires QueueOk(st.nxt, st.ooseq) && AllTrue(st.ooseq, stream, closed)
    requires True(s, stream, closed) && s.Len() >= 1 && st.nxt < s.start < st.Edge()
    ensures var q := Place(st.ooseq, s, st.Edge(), alloc);
            QueueOk(st.nxt, q) && AllTrue(q, stream, closed)
  {
    if alloc && st.ooseq != [] {
      PlaceKeepsQueue(st.nxt, st.ooseq, s, st.Edge());
      PlaceTrue(st.nxt, st.ooseq, s, st.Edge(), stream, closed, Bound(s, st.ooseq));
    }
  }

  /** tcp_receive() on any true segment: what it hands up continues exactly where the
      application and the refused buffer left off. */
  lemma ReceiveDelivers(st: RcvState, seg: Seg, env: Env, stream: seq<byte>, closed: bool)
    requires QueueOk(st.nxt, st.ooseq) && AllTrue(st.ooseq, stream, closed)
    requires True(seg, stream, closed)
    requires 0 <= st.nxt
    ensures var o := Receive(st, seg, env);
            && QueueOk(o.st.nxt, o.st.ooseq) && AllTrue(o.st.ooseq, stream, closed)
            && o.st.nxt == st.nxt + |o.data| + (if o.fin then 1 else 0)
            && (o.data != [] ==> Matches(o.data, stream, st.nxt))
            && (o.fin ==> closed && o.st.nxt == |stream| + 1)
            && (o.data != [] || o.fin ==> seg.Len() > 0 && st.state.AcceptsText())
            && o.st.refused == st.refused && o.st.accepted == st.accepted && o.st.eofs == st.eofs
            && (o.st.state == st.state || (o.fin && o.st.state == CloseWait))
  {
    if seg.Len() > 0 && st.state.AcceptsText() {
      var s := TrimFront(st.nxt, seg);
      TrimFrontTrue(st.nxt, seg, stream, closed);
      if st.nxt <= s.start <= st.nxt + st.wnd - 1 {
        if s.start == st.nxt {
          InOrderDelivers(st, s, stream, closed);
        } else {
          OutOfOrderKeeps(st, s, env.segAlloc, stream, closed);
        }
      }
    }
  }

  /** Delivering a continuation of the stream to the application keeps the invariant, whichever
      way the application answers. */
  lemma DeliverKeeps(st: RcvState, st0: RcvState, data: seq<byte>, fin: bool, take: bool,
                     stream: seq<byte>, closed: bool)
    requires RcvInv(st0, stream, closed) && st0.state.AcceptsText() && st0.refused == None
    requires st.accepted == st0.accepted && st.refused == None && st.eofs == st0.eofs
    requires QueueOk(st.nxt, st.ooseq) && AllTrue(st.ooseq, stream, closed)
    requires st.nxt == st0.nxt + |data| + (if fin then 1 else 0)
    requires data != [] ==> Matches(data, stream, st0.nxt)
    requires fin ==> closed && st.nxt == |stream| + 1 && !st.state.AcceptsText()
    ensures RcvInv(Deliver(st, data, fin, take), stream, closed)
  {
    if data != [] {
      assert st0.accepted == stream[..st0.nxt];
      assert stream[..st0.nxt] + stream[st0.nxt..st0.nxt + |data|] == stream[..st0.nxt + |data|];
    }
    assert st0.accepted + [] == st0.accepted;
  }

  /** tcp_process() and the callbacks after it keep the invariant. */
  lemma ProcessKeeps(st: RcvState, seg: Seg, finAcked: bool, env: Env, stream: seq<byte>, closed: bool)
    requires RcvInv(st, stream, closed) && st.state.Active() && True(seg, stream, closed)
    requires st.refused.None? || seg.Len() == 0
    ensures var o := Process(st, seg, finAcked, env);
            RcvInv(Deliver(o.st, o.data, o.fin, env.takeNew), stream, closed)
  {
    ReceiveDelivers(st, seg, env, stream, closed);
    var r, o := Receive(st, seg, env), Process(st, seg, finAcked, env);
    if o.data != [] || o.fin {
      assert AllTrue(o.st.ooseq, stream, closed) && QueueOk(o.st.nxt, o.st.ooseq);
      DeliverKeeps(o.st, st, o.data, o.fin, env.takeNew, stream, closed);
    } else {
      QuietKeeps(st, r.st, o.st, stream, closed);
    }
  }

  lemma QuietKeeps(st: RcvState, r: RcvState, st': RcvState, stream: seq<byte>, closed: bool)
    requires RcvInv(st, stream, closed)
    requires QueueOk(r.nxt, r.ooseq) && AllTrue(r.ooseq, stream, closed)
    requires r.nxt == st.nxt && r.refused == st.refused && r.accepted == st.accepted && r.eofs == st.eofs
    requires st'.state.Active() ==> st' == r.(state := st'.state) && st.state.Active()
    requires !st'.state.Active() ==> st' == r.(state := st'.state, ooseq := [], refused := None)
    requires st'.state.AcceptsText() ==> st.state.AcceptsText()
    ensures RcvInv(st', stream, closed)
  {
    assert st'.accepted + [] == st'.accepted;
    assert st'.accepted <= st'.accepted + st.Pending();
  }

  /** tcp_input() on any true segment, with any answers of the application and any allocation
      failures, keeps the receiver invariant. */
  lemma InputKeeps(st: RcvState, seg: Seg, finAcked: bool, env: Env, stream: seq<byte>, closed: bool)
    requires RcvInv(st, stream, closed) && st.state.Active()
    requires True(seg, stream, closed)
    ensures RcvInv(Input(st, seg, finAcked, env).0, stream, closed)
  {
    ReofferKeeps(st, env.takeRefused, stream, closed);
    var st1 := Reoffer(st, env.takeRefused);
    if st1.refused.None? || seg.Len() == 0 {
      ProcessKeeps(st1, seg, finAcked, env, stream, closed);
    }
  }

  /** Section 3.9 of RFC 793: once the FIN has been received rcv_nxt stays where it is, nothing
      more is delivered, and there is at most one EOF. */
  lemma NothingAfterFin(st: RcvState, seg: Seg, finAcked: bool, env: Env, stream: seq<byte>, closed: bool)
    requires RcvInv(st, stream, closed) && st.state.Active() && st.nxt == |stream| + 1
    requires True(seg, stream, closed)
    ensures var r := Input(st, seg, finAcked, env).0;
            && r.nxt == st.nxt
            && r.accepted + r.Pending() <= st.accepted + st.Pending()
            && st.eofs <= r.eofs <= 1
  {
    InputKeeps(st, seg, finAcked, env, stream, closed);
  }

  /** New data is never handed up while an older buffer is still refused. */
  lemma RefusedFirst(st: RcvState, seg: Seg, finAcked: bool, env: Env, stream: seq<byte>, closed: bool)
    requires RcvInv(st, stream, closed) && st.state.Active() && True(seg, stream, closed)
    requires st.refused.Some? && !env.takeRefused
    ensures var r := Input(st, seg, finAcked, env).0;
            && r.accepted == st.accepted && r.eofs == st.eofs && r.nxt == st.nxt
            && (r.refused == st.refused || !r.state.Active())
  {
    ReceiveDelivers(st, seg, env, stream, closed);
  }
}
