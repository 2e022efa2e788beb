/** The send half of a connection: pcb->unsent and pcb->unacked with the numbers that describe
    them, as functions on unbounded stream offsets. tcp_write(), tcp_send_fin(), tcp_output(),
    tcp_rexmit*() and the ACK half of tcp_receive(). Offset 0 is the first byte ever written. */
module SendQueues {
  import opened SequenceNumbers
  import opened TcpConfig
  import opened Reassembly

  /** A struct tcp_seg on a send queue; clen is pbuf_clen() of its buffer chain. */
  datatype TxSeg = TxSeg(start: int, data: seq<byte>, fin: bool, clen: nat) {
    function DataEnd(): int { start + |data| }

    function Len(): nat { |data| + if fin then 1 else 0 }

    function End(): int { start + Len() }

    /** What is put on the network. */
    function Seg(): Seg { Reassembly.Seg.Seg(start, data, fin) }
  }

  datatype SndState = SndState(
    lastack: int,
    nxt: int,           // snd_nxt
    lbb: int,           // snd_lbb
    wnd: u16,           // snd_wnd
    wndMax: u16,        // snd_wnd_max
    wl1: int,           // snd_wl1, a position in the peer's stream
    wl2: int,           // snd_wl2
    cwnd: u16,
    ssthresh: u16,
    mss: u16,
    buf: u16,           // snd_buf
    queuelen: u16,      // snd_queuelen
    oversize: u16,      // unsent_oversize
    acked: u16,
    dupacks: u8,
    timerOn: bool,      // rtime >= 0
    infr: bool,         // TF_INFR
    finQueued: bool,    // TF_FIN
    noDelay: bool,      // TF_NODELAY
    memErr: bool,       // TF_NAGLEMEMERR
    ackNow: bool,       // TF_ACK_NOW
    state: State,
    unsent: seq<TxSeg>,
    unacked: seq<TxSeg>)

  datatype Err = ErrOk | ErrMem | ErrConn

  const TCP_OVERSIZE: u16 := TCP_MSS

  // ---------- tcp_write() ----------

  /** Segments are at most half the largest window the peer ever announced. */
  function MssLocal(st: SndState): u16 {
    var m := Min(st.mss, st.wndMax / 2);
    if m == 0 then st.mss else m
  }

  function Last(q: seq<TxSeg>): TxSeg
    requires q != []
  {
    q[|q| - 1]
  }

  /** How much of a call to tcp_write() goes where: used bytes into the oversized tail of the last
      unsent segment, concat bytes into a buffer chained to it, the rest into new segments. */
  datatype Plan = Plan(used: nat, concat: nat, queue: seq<TxSeg>)

  /** Phase 3: new segments, each as long as allowed. */
  function Segments(start: int, data: seq<byte>, mss: nat, clen: nat): (q: seq<TxSeg>)
    requires mss >= 1
    ensures forall s :: s in q ==> 1 <= |s.data| <= mss
    decreases |data|
  {
    if data == [] then []
    else
      var n := Min(|data|, mss);
      [TxSeg(start, data[..n], false, clen)] + Segments(start + n, data[n..], mss, clen)
  }

  function Used(st: SndState, len: nat): nat {
    if st.unsent == [] then 0 else Min(st.oversize, len)
  }

  function Concat(st: SndState, len: nat): nat {
    if st.unsent == [] then 0
    else
      var used, space := Used(st, len), MssLocal(st) - |Last(st.unsent).data|;
      if used < len && space - used > 0 && |Last(st.unsent).data| > 0 then Min(space - used, len - used) else 0
  }

  function PlanWrite(st: SndState, data: seq<byte>, copy: bool): Plan
    requires MssLocal(st) >= 1
  {
    var used, concat := Used(st, |data|), Concat(st, |data|);
    var pos := used + concat;
    Plan(used, concat, Segments(st.lbb + pos, data[pos..], MssLocal(st), if copy then 1 else 2))
  }

  /** Allocations for n new segments: a buffer and a segment each, or a header, a reference and a
      segment if the data is not copied. */
  function AllocsFor(n: nat, copy: bool): nat { if copy then 2 * n else 3 * n }

  /** The buffers among them. */
  function PbufsFor(n: nat, copy: bool): nat { if copy then n else 2 * n }

  /** How many allocations the plan makes; the first that fails fails the call. */
  function PlanAllocs(p: Plan, copy: bool): nat {
    (if p.concat > 0 then 1 else 0) + AllocsFor(|p.queue|, copy)
  }

  function PlanPbufs(p: Plan, copy: bool): nat {
    (if p.concat > 0 then 1 else 0) + PbufsFor(|p.queue|, copy)
  }

  /** tcp_pbuf_prealloc(): unused bytes behind the payload of a buffer of this length. */
  function Extra(st: SndState, length: nat, max: nat, more: bool, first: bool): nat
    requires length <= max
  {
    if length < max && (more || (!st.noDelay && (!first || st.unsent != [] || st.unacked != [])))
    then Min(max, length + TCP_OVERSIZE) - length
    else 0
  }

  /** What tcp_write() asserts: the last unsent segment and its spare tail fit a segment. */
  predicate TailFits(st: SndState) {
    && st.mss >= 1
    && (st.unsent == [] ==> st.oversize == 0)
    && (st.unsent != [] ==> |Last(st.unsent).data| + st.oversize <= MssLocal(st))
  }

  /** The oversize left behind the last unsent segment. */
  function OversizeAfter(st: SndState, p: Plan, copy: bool, more: bool): nat
    requires TailFits(st) && p.used <= st.oversize
    requires forall s :: s in p.queue ==> |s.data| <= MssLocal(st)
    requires p.concat > 0 ==> st.unsent != [] && p.concat <= MssLocal(st) - |Last(st.unsent).data| - p.used
  {
    if p.queue != [] then
      if copy then Extra(st, |Last(p.queue).data|, MssLocal(st), more, |p.queue| == 1) else 0
    else if p.concat > 0 && copy then
      Extra(st, p.concat, MssLocal(st) - |Last(st.unsent).data| - p.used, more, true)
    else st.oversize - p.used
  }

  /** The last unsent segment after phases 1 and 2. */
  function Extend(s: TxSeg, data: seq<byte>, concat: bool): TxSeg {
    s.(data := s.data + data, clen := s.clen + if concat then 1 else 0)
  }

  function UnsentAfter(st: SndState, data: seq<byte>, p: Plan): seq<TxSeg>
    requires p.used + p.concat <= |data|
  {
    if st.unsent == [] then p.queue
    else
      st.unsent[..|st.unsent| - 1] + [Extend(Last(st.unsent), data[..p.used + p.concat], p.concat > 0)] + p.queue
  }

  /** tcp_write(); budget is the number of allocations that succeed before one fails. */
  function Write(st: SndState, data: seq<byte>, copy: bool, more: bool, budget: nat): (SndState, Err)
    requires TailFits(st) && |data| <= 0xffff
  {
    if !st.state.Established? && !st.state.CloseWait? then (st, ErrConn)
    else if data == [] then (st, ErrOk)
    else if |data| > st.buf || st.queuelen >= TCP_SND_QUEUELEN then (st.(memErr := true), ErrMem)
    else
      var p := PlanWrite(st, data, copy);
      if PlanAllocs(p, copy) > budget || (p.queue != [] && st.queuelen + PlanPbufs(p, copy) > TCP_SND_QUEUELEN)
      then (st.(memErr := true), ErrMem)
      else (Committed(st, data, copy, more), ErrOk)
  }

  /** The state a successful call leaves. */
  function Committed(st: SndState, data: seq<byte>, copy: bool, more: bool): SndState
    requires TailFits(st) && |data| <= st.buf
  {
    var p := PlanWrite(st, data, copy);
    st.(unsent := UnsentAfter(st, data, p), oversize := OversizeAfter(st, p, copy, more),
        lbb := st.lbb + |data|, buf := st.buf - |data|, queuelen := U16(st.queuelen + PlanPbufs(p, copy)))
  }

  // ---------- tcp_send_fin() ----------

  /** tcp_send_fin(): onto the last unsent segment if it has none yet, else a segment of its own. */
  function SendFin(st: SndState, budget: nat): (SndState, Err) {
    if st.unsent != [] && !Last(st.unsent).fin then (FinMerged(st), ErrOk)
    else if st.buf == 0 then (st, ErrMem)
    else if budget < 2 then (st.(memErr := true), ErrMem)
    else (FinAppended(st), ErrOk)
  }

  function FinMerged(st: SndState): SndState
    requires st.unsent != []
  {
    var n := |st.unsent| - 1;
    st.(unsent := st.unsent[..n] + [st.unsent[n].(fin := true)], finQueued := true)
  }

  function FinAppended(st: SndState): SndState
    requires st.buf > 0
  {
    st.(unsent := st.unsent + [TxSeg(st.lbb, [], true, 1)], oversize := 0, lbb := st.lbb + 1,
        buf := st.buf - 1, queuelen := U16(st.queuelen + 1), finQueued := true)
  }

  // ---------- tcp_output() ----------

  /** The window in force. */
  function Wnd(st: SndState): u16 { Min(st.wnd, st.cwnd) }

  /** The head of unsent lies within the window; a FIN is not counted. The comparison is unsigned. */
  predicate HeadSendable(st: SndState)
    requires st.unsent != []
  {
    0 <= st.unsent[0].DataEnd() - st.lastack <= Wnd(st)
  }

  /** tcp_do_output_nagle() */
  predicate NagleAllows(st: SndState) {
    || st.unacked == [] || st.noDelay || st.infr
    || (st.unsent != [] && (|st.unsent| > 1 || |st.unsent[0].data| >= st.mss))
    || st.buf == 0 || st.queuelen >= TCP_SND_QUEUELEN
  }

  /** Insertion in front of the first segment that does not start earlier. */
  function InsertSorted(q: seq<TxSeg>, s: TxSeg): seq<TxSeg>
    decreases |q|
  {
    if q != [] && q[0].start < s.start then [q[0]] + InsertSorted(q[1..], s) else [s] + q
  }

  /** Where a sent segment goes on unacked: normally the tail, a retransmitted one before it. */
  function InsertUnacked(q: seq<TxSeg>, s: TxSeg): seq<TxSeg> {
    if q == [] || s.start >= Last(q).start then q + [s] else InsertSorted(q, s)
  }

  /** One segment has left: it moves from unsent to unacked. */
  function SendHead(st: SndState): SndState
    requires st.unsent != []
  {
    var s := st.unsent[0];
    st.(unsent := st.unsent[1..], unacked := if s.Len() > 0 then InsertUnacked(st.unacked, s) else st.unacked,
        nxt := Max(st.nxt, s.End()), ackNow := false, timerOn := true)
  }

  predicate SendsNext(st: SndState) {
    st.unsent != [] && HeadSendable(st) && (NagleAllows(st) || st.memErr || st.finQueued)
  }

  /** The loop of tcp_output(): the state after it, what was transmitted, and whether the link
      took everything; link is the number of transmissions that succeed before one fails. */
  datatype Sent = Sent(st: SndState, segs: seq<Seg>, ok: bool)

  function OutputLoop(st: SndState, link: nat): Sent
    decreases |st.unsent|
  {
    if !SendsNext(st) then Sent(st, [], true)
    else if link == 0 then Sent(st.(memErr := true, timerOn := true), [], false)
    else
      var r := OutputLoop(SendHead(st), link - 1);
      r.(segs := [st.unsent[0].Seg()] + r.segs)
  }

  /** The end of tcp_output(). */
  function Finish(st: SndState): SndState {
    st.(memErr := false, oversize := if st.unsent == [] then 0 else st.oversize)
  }

  /** tcp_output(); with nothing sendable a pending ACK leaves on its own. */
  function Output(st: SndState, link: nat, ackAlloc: bool): Sent {
    if st.ackNow && (st.unsent == [] || !HeadSendable(st)) then
      Sent(st.(ackNow := !ackAlloc), [], ackAlloc)
    else
      var r := OutputLoop(st, link);
      if r.ok then r.(st := Finish(r.st)) else r
  }

  // ---------- Retransmission ----------

  predicate AllStartBefore(q: seq<TxSeg>, start: int)
    decreases |q|
  {
    q != [] ==> q[0].start < start && AllStartBefore(q[1..], start)
  }

  /** tcp_rexmit(): the first unacked segment goes back to unsent, at its place. */
  function Rexmit(st: SndState): SndState {
    if st.unacked == [] then st
    else
      var s := st.unacked[0];
      st.(unacked := st.unacked[1..], unsent := InsertSorted(st.unsent, s),
          oversize := if AllStartBefore(st.unsent, s.start) then 0 else st.oversize)
  }

  /** tcp_rexmit_fast() */
  function RexmitFast(st: SndState): SndState {
    if st.unacked == [] || st.infr then st
    else
      var half := if st.cwnd > st.wnd then st.wnd / 2 else st.cwnd / 2;
      var ssthresh := if half < 2 * st.mss then U16(2 * st.mss) else half;
      Rexmit(st).(ssthresh := ssthresh, cwnd := U16(ssthresh + 3 * st.mss), infr := true)
  }

  /** The retransmission timer of tcp_slowtmr() fires: everything unacked goes back in front of
      unsent, before tcp_output(). */
  function RexmitRto(st: SndState): SndState {
    if st.unacked == [] then st
    else
      var half := Min(st.cwnd, st.wnd) / 2;
      st.(ssthresh := if half < U16(2 * st.mss) then U16(2 * st.mss) else half, cwnd := st.mss,
          unsent := st.unacked + st.unsent, unacked := [])
  }

  // ---------- The ACK half of tcp_receive() ----------

  /** Removing acknowledged segments: the rest, acked without the FINs removed, pbufs freed. */
  datatype Dropped = Dropped(rest: seq<TxSeg>, acked: u16, clen: nat)

  function DropAcked(q: seq<TxSeg>, ackno: int, acked: u16): Dropped
    decreases |q|
  {
    if q != [] && q[0].End() <= ackno then
      var d := DropAcked(q[1..], ackno, if acked != 0 && q[0].fin then acked - 1 else acked);
      d.(clen := q[0].clen + d.clen)
    else Dropped(q, acked, 0)
  }

  predicate UpdatesWnd(st: SndState, seqno: int, ackno: int, wnd: u16) {
    st.wl1 < seqno || (st.wl1 == seqno && st.wl2 < ackno) || (st.wl2 == ackno && wnd > st.wnd)
  }

  /** The window update. */
  function UpdateWnd(st: SndState, seqno: int, ackno: int, wnd: u16): SndState {
    if UpdatesWnd(st, seqno, ackno, wnd)
    then st.(wnd := wnd, wndMax := Max(st.wndMax, wnd), wl1 := seqno, wl2 := ackno)
    else st
  }

  /** A duplicate ACK: count it, and act on the third and on later ones. */
  function DupAck(st: SndState): SndState {
    var n := if st.dupacks + 1 <= 0xff then st.dupacks + 1 else st.dupacks;
    if n == 3 then RexmitFast(st.(dupacks := 3))
    else st.(dupacks := n, cwnd := if n > 3 then Max(U16(st.cwnd + st.mss), st.cwnd) else st.cwnd)
  }

  /** Slow start and congestion avoidance. */
  function GrowCwnd(cwnd: u16, ssthresh: u16, mss: u16): u16
    requires cwnd >= 1
  {
    var c := if cwnd < ssthresh then U16(cwnd + mss) else U16(cwnd + mss * mss / cwnd);
    if c > cwnd then c else cwnd
  }

  /** An ACK for new data. */
  function NewAck(st: SndState, ackno: int): SndState
    requires st.cwnd >= 1 && st.ssthresh >= 1
  {
    var cwnd := if st.infr then st.ssthresh else st.cwnd;
    var acked := U16(ackno - st.lastack);
    var d := DropAcked(st.unacked, ackno, acked);
    st.(infr := false, acked := d.acked, buf := U16(st.buf + acked), dupacks := 0, lastack := ackno,
        cwnd := GrowCwnd(cwnd, st.ssthresh, st.mss),
        unacked := d.rest, queuelen := U16(st.queuelen - d.clen), timerOn := d.rest != [])
  }

  /** Segments put back on unsent may be acknowledged too. */
  function DropUnsent(st: SndState, ackno: int): SndState {
    if ackno > st.nxt then st
    else
      var d := DropAcked(st.unsent, ackno, st.acked);
      st.(unsent := d.rest, acked := d.acked, queuelen := U16(st.queuelen - d.clen),
          oversize := if st.unsent != [] && d.rest == [] then 0 else st.oversize)
  }

  /** An ACK for nothing new; dup says that it carries no data and leaves the window edge alone. */
  function OldAck(st: SndState, ackno: int, dup: bool): SndState {
    if dup && st.timerOn && ackno == st.lastack then DupAck(st.(acked := 0)) else st.(acked := 0, dupacks := 0)
  }

  /** The ACK half of tcp_receive() after the window update. An ACK for something never sent is
      answered with an empty ACK, if there is memory for it. */
  function AckWith(st: SndState, ackno: int, dup: bool, ackAlloc: bool): SndState
    requires st.cwnd >= 1 && st.ssthresh >= 1
  {
    DropUnsent(
      if ackno <= st.lastack then OldAck(st, ackno, dup)
      else if ackno <= st.nxt then NewAck(st, ackno)
      else st.(acked := 0, ackNow := !ackAlloc),
      ackno)
  }

  /** The ACK half of tcp_receive() for a segment with these header fields and TCP_TCPLEN. */
  function Ack(st: SndState, seqno: int, ackno: int, wnd: u16, tcplen: nat, ackAlloc: bool): SndState
    requires st.cwnd >= 1 && st.ssthresh >= 1
  {
    var st1 := UpdateWnd(st, seqno, ackno, wnd);
    AckWith(st1, ackno, tcplen == 0 && st1.wl2 + st1.wnd == st.wl2 + st.wnd, ackAlloc)
  }
}
