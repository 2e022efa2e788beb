/** The receive half of struct tcp_pcb and the code that updates it, on the 32-bit and 16-bit
    fields of the original. Every method is proved to do what ReceiverSpec says of the view:
    the same state with unbounded stream offsets. */
module Receiver {
  import opened SequenceNumbers
  import opened TcpConfig
  import opened Reassembly
  import opened ReceiverSpec
  import opened ReceiveWindow
  import opened WireFormat
  import opened OutOfSequence

  /** An acknowledgement as sent: ackno and wnd of the TCP header. */
  datatype WireAck = WireAck(ackno: u32, wnd: u16)

  function WireAckOf(base: int, a: Option<AckMsg>): Option<WireAck> {
    if a.Some? then Some(WireAck(U32(base + a.value.ackno), a.value.wnd)) else None
  }

  /** TF_ACK_DELAY and TF_ACK_NOW. */
  datatype AckFlags = AckFlags(delay: bool, now: bool)

  /** A segment taken in sequence: its acknowledgement is delayed, unless one is delayed already. */
  function Delayed(f: AckFlags): AckFlags { AckFlags(!f.delay, f.now || f.delay) }

  /** The flags after any segment. Text that is not taken in sequence is answered at once, and by the fast
      timer if there is no memory. */
  function FlagsAfter(f: AckFlags, st: RcvState, seg: Seg, env: Env): AckFlags {
    if seg.Len() == 0 || !st.state.AcceptsText() then
      f.(now := f.now || !(st.nxt <= seg.start < st.Edge()))
    else if st.wnd >= 1 && seg.start <= st.nxt < seg.End() then Delayed(f)
    else AckFlags(!env.ackAlloc, !env.ackAlloc)
  }

  lemma FlagsAre(f: AckFlags, st: RcvState, seg: Seg, env: Env)
    ensures FlagsAfter(f, st, seg, env) ==
            if seg.Len() == 0 || !st.state.AcceptsText() then f.(now := f.now || !(st.nxt <= seg.start < st.Edge()))
            else if TrimFront(st.nxt, seg).start == st.nxt && st.wnd >= 1 then Delayed(f)
            else AckFlags(!env.ackAlloc, !env.ackAlloc)
  {}

  lemma ReceiveIs(st: RcvState, seg: Seg, env: Env)
    ensures Receive(st, seg, env) ==
            if seg.Len() == 0 || !st.state.AcceptsText() then Outcome(st, [], false, None)
            else ReceiveFrom(st, TrimFront(st.nxt, seg), env)
  {}

  /** An acknowledgement is never delayed twice: after a segment taken in sequence one is pending, and after
      two at once, whatever the flags were. */
  lemma SecondAtOnce(f: AckFlags, st: RcvState, seg: Seg, env: Env, st': RcvState, seg': Seg, env': Env)
    requires st.state.AcceptsText() && st.wnd >= 1 && seg.start <= st.nxt < seg.End()
    requires st'.state.AcceptsText() && st'.wnd >= 1 && seg'.start <= st'.nxt < seg'.End()
    ensures var g := FlagsAfter(f, st, seg, env); (g.delay || g.now) && FlagsAfter(g, st', seg', env').now
  {}

  class TcpReceiver {
    ghost const base: int    // the sequence number of stream offset 0, modulo 2^32
    const mss: u16
    var rcvNxt: u32
    var rcvWnd: u16
    var rcvAnnWnd: u16
    var rcvAnnRightEdge: u32
    var ooseq: seq<WireSeg>
    var state: State
    var refusedData: Option<Held>
    var ackDelay: bool       // TF_ACK_DELAY
    var ackNow: bool         // TF_ACK_NOW
    var accepted: seq<byte>  // what the recv callback has taken
    var eofs: nat            // how often it was called with no buffer
    ghost var view: RcvState

    ghost predicate Valid()
      reads this
    {
      && FieldsMatch(view)
      && QueueOk(view.nxt, view.ooseq)
      && Queued(view.nxt, view.ooseq)
      && AnnOk(view)
    }

    /** The fields are the 32-bit images of v. */
    ghost predicate FieldsMatch(v: RcvState)
      reads this
    {
      && rcvNxt == U32(base + v.nxt) && rcvWnd == v.wnd && rcvAnnWnd == v.annWnd
      && rcvAnnRightEdge == U32(base + v.annEdge) && mss == v.mss
      && ooseq == WireAll(base, v.ooseq) && state == v.state
      && refusedData == v.refused && accepted == v.accepted && eofs == v.eofs
    }

    /** The last announced edge is within reach of the 32-bit comparisons: the peer has not sent far
        beyond it. */
    ghost predicate EdgeInReach()
      reads this
    {
      view.nxt <= view.annEdge + 0x2000_0000
    }

    constructor (ghost base: int, irs: u32, mss: u16)
      requires irs == U32(base - 1)
      ensures Valid() && this.base == base
      ensures view == RcvState(0, TCP_WND, TCP_WND, 0, mss, [], Established, None, [], 0)
    {
      this.base := base;
      this.mss := mss;
      rcvNxt := U32(irs + 1);
      rcvWnd, rcvAnnWnd := TCP_WND, TCP_WND;
      rcvAnnRightEdge := U32(irs + 1);
      ooseq, state, refusedData, accepted, eofs := [], Established, None, [], 0;
      ackDelay, ackNow := false, false;
      view := RcvState(0, TCP_WND, TCP_WND, 0, mss, [], Established, None, [], 0);
      new;
      RepresentsPlus(U32(base - 1), base - 1, 1);
    }

    /** tcp_update_rcv_ann_wnd() */
    method UpdateRcvAnnWnd(ghost nxt: int, ghost edge: int) returns (inflation: u32)
      requires rcvNxt == U32(base + nxt) && rcvAnnRightEdge == U32(base + edge)
      requires -0x3000_0000 <= edge - nxt <= 0xffff
      modifies this`rcvAnnWnd
      ensures rcvAnnWnd == AnnWnd(nxt, rcvWnd, edge, mss)
      ensures inflation == if nxt + rcvWnd >= edge + Min(TCP_WND / 2, mss) then nxt + rcvWnd - edge else 0
    {
      hide U16, U32, S32, SeqGeq, SeqGt, Min;
      AnnCompares(base, nxt, rcvWnd, edge, mss);
      var newRightEdge := U32(rcvNxt + rcvWnd);
      if SeqGeq(newRightEdge, rcvAnnRightEdge + Min(TCP_WND / 2, mss)) {
        rcvAnnWnd := rcvWnd;
        inflation := U32(newRightEdge - rcvAnnRightEdge);
      } else {
        if SeqGt(rcvNxt, rcvAnnRightEdge) {
          rcvAnnWnd := 0;
        } else {
          var newRcvAnnWnd := U32(rcvAnnRightEdge - rcvNxt);
          assert newRcvAnnWnd <= 0xffff;
          rcvAnnWnd := newRcvAnnWnd;
        }
        inflation := 0;
      }
    }

    /** tcp_send_empty_ack(); a transmission error shows as loss in the network. */
    method SendEmptyAck(alloc: bool) returns (ack: Option<WireAck>)
      requires Valid()
      modifies this`rcvAnnRightEdge, this`ackDelay, this`ackNow, this`view
      ensures Valid()
      ensures view == EmptyAck(old(view), alloc).st && ack == WireAckOf(base, EmptyAck(old(view), alloc).ack)
      ensures ackDelay == ackNow == !alloc
    {
      if !alloc {
        ackDelay, ackNow := true, true;
        return None;
      }
      rcvAnnRightEdge := U32(rcvNxt + rcvAnnWnd);
      Plus(base, view.nxt, rcvAnnWnd);
      ackDelay, ackNow := false, false;
      view := Announce(view);
      return Some(WireAck(rcvNxt, rcvAnnWnd));
    }

    function Flags(): AckFlags
      reads this`ackDelay, this`ackNow
    {
      AckFlags(ackDelay, ackNow)
    }

    /** tcp_ack(): delay the first acknowledgement, send the second. */
    method Ack()
      modifies this`ackDelay, this`ackNow
      ensures Flags() == Delayed(old(Flags()))
    {
      if ackDelay {
        ackDelay, ackNow := false, true;
      } else {
        ackDelay := true;
      }
    }

    /** One round of the drain loop: the queue head is in sequence. */
    method DrainHead(ghost nxt0: int, ghost m: int, ghost r: seq<Seg>, ghost edge: int) returns (cseg: WireSeg)
      requires rcvNxt == U32(base + m) && ooseq == WireAll(base, r) && rcvAnnRightEdge == U32(base + edge)
      requires r != [] && r[0].start == m && |r[0].data| <= 0xffff && nxt0 <= m <= nxt0 + 0xffff
      requires -0x2000_0000 <= edge - nxt0 <= 0xffff
      modifies this`rcvNxt, this`rcvWnd, this`rcvAnnWnd, this`ooseq, this`state
      ensures rcvNxt == U32(base + r[0].End()) && rcvWnd == U16(old(rcvWnd) - r[0].Len())
      ensures rcvAnnWnd == AnnWnd(r[0].End(), rcvWnd, edge, mss)
      ensures ooseq == WireAll(base, r[1..]) && cseg == Wire(base, r[0])
      ensures state == if cseg.fin && old(state).Established? then CloseWait else old(state)
    {
      cseg := ooseq[0];
      rcvNxt := U32(rcvNxt + cseg.Tcplen());
      Plus(base, m, r[0].Len());
      rcvWnd := U16(rcvWnd - cseg.Tcplen());
      var _ := UpdateRcvAnnWnd(r[0].End(), edge);
      if cseg.fin {
        if state.Established? { state := CloseWait; }
      }
      ooseq := ooseq[1..];
    }

    /** The drain loop of tcp_receive(): what it adds to recv_data, and whether it found a FIN. */
    method DrainOoseq(ghost nxt0: int, ghost n: int, ghost q: seq<Seg>, ghost edge: int) returns (data: seq<byte>, fin: bool)
      requires rcvNxt == U32(base + n) && ooseq == WireAll(base, q) && rcvAnnRightEdge == U32(base + edge)
      requires QueueOk(n - 1, q) && Queued(nxt0, q) && nxt0 <= n <= nxt0 + 0x2_0000
      requires -0x2000_0000 <= edge - nxt0 <= 0xffff
      requires rcvAnnWnd == AnnWnd(n, rcvWnd, edge, mss)
      modifies this`rcvNxt, this`rcvWnd, this`rcvAnnWnd, this`ooseq, this`state
      ensures var d := Drain(n, q);
              && rcvNxt == U32(base + d.nxt) && rcvWnd == U16(old(rcvWnd) - (d.nxt - n))
              && rcvAnnWnd == AnnWnd(d.nxt, rcvWnd, edge, mss)
              && ooseq == WireAll(base, d.rest) && data == d.data && fin == d.fin
              && QueueOk(d.nxt, d.rest) && Queued(nxt0, d.rest) && nxt0 <= d.nxt
              && state == if d.fin && old(state).Established? then CloseWait else old(state)
    {
      hide Queued, U32, AnnWnd, Drain, QueueOk, WireAll, U16;
      U16Unchanged(rcvWnd, n);
      data, fin := [], false;
      ghost var m, r := n, q;
      HeadInReach(base, nxt0, m, r);
      while ooseq != [] && ooseq[0].seqno == rcvNxt
        invariant rcvNxt == U32(base + m) && ooseq == WireAll(base, r)
        invariant DrainInv(nxt0, m, r)
        invariant rcvWnd == U16(old(rcvWnd) - (m - n)) && rcvAnnWnd == AnnWnd(m, rcvWnd, edge, mss)
        invariant state == if fin && old(state).Established? then CloseWait else old(state)
        invariant DrainedSoFar(Drain(n, q), data, fin, Drain(m, r))
        invariant HeadCompares(base, m, r)
        decreases |ooseq|
      {
        DrainInvStep(nxt0, m, r);
        U16Sum(old(rcvWnd) - (m - n), 0 - r[0].Len());
        var cseg := DrainHead(nxt0, m, r, edge);
        data, fin := data + cseg.data, fin || cseg.fin;
        m, r := r[0].End(), r[1..];
        HeadInReach(base, nxt0, m, r);
      }
      DrainInvStop(nxt0, m, r);
    }

    /** Cut an in-sequence segment at the window and make it and the queue disjoint. */
    method TrimInOrder(inseg0: WireSeg, ghost s: Seg) returns (inseg: WireSeg, ghost t: Seg, ghost rest: seq<Seg>)
      requires Valid()
      requires inseg0 == Wire(base, s) && s.start == view.nxt && 1 <= s.Len() < 0xffff && rcvWnd >= 1
      modifies this`ooseq
      ensures (t, rest) == Absorb(TrimToWindow(s, rcvWnd), view.ooseq)
      ensures inseg == Wire(base, t) && ooseq == WireAll(base, rest)
      ensures t.start == view.nxt && 1 <= t.Len() <= 0xffff
      ensures QueueOk(t.End() - 1, rest) && Queued(view.nxt, rest)
    {
      inseg := inseg0;
      ghost var w := TrimToWindow(s, rcvWnd);
      if inseg.Tcplen() > rcvWnd {
        inseg := WireSeg(inseg.seqno, Take(inseg.data, rcvWnd), false);
      }
      t, rest := w, view.ooseq;
      if ooseq != [] {
        if inseg.fin {
          ooseq, rest := [], [];
        } else {
          QueuedIsClose(view.nxt, view.ooseq);
          inseg, ooseq, t, rest := AbsorbOoseq(inseg, ooseq, base, view.nxt, w, view.ooseq);
        }
      }
      AbsorbOk(view.nxt, w, view.ooseq);
      AbsorbQueued(view.nxt, w, view.ooseq);
    }

    /** Move rcv_nxt and the window over an in-sequence segment, then drain the queue. */
    method Advance(inseg: WireSeg, ghost v: RcvState, ghost t: Seg, ghost rest: seq<Seg>) returns (data: seq<byte>, fin: bool)
      requires inseg == Wire(base, t) && ooseq == WireAll(base, rest)
      requires rcvWnd == v.wnd && rcvAnnRightEdge == U32(base + v.annEdge) && mss == v.mss && state == v.state
      requires t.start == v.nxt && 1 <= t.Len() <= 0xffff
      requires QueueOk(t.End() - 1, rest) && Queued(v.nxt, rest)
      requires -0x2000_0000 <= v.annEdge - v.nxt <= 0xffff
      modifies this`rcvNxt, this`rcvWnd, this`rcvAnnWnd, this`ooseq, this`state
      ensures var d := Drain(t.End(), rest);
              && rcvNxt == U32(base + d.nxt) && rcvWnd == U16(v.wnd - (d.nxt - v.nxt))
              && rcvAnnWnd == AnnWnd(d.nxt, rcvWnd, v.annEdge, v.mss)
              && ooseq == WireAll(base, d.rest) && data == t.data + d.data && fin == (t.fin || d.fin)
              && QueueOk(d.nxt, d.rest) && Queued(d.nxt, d.rest)
              && state == if d.fin && v.state.Established? then CloseWait else v.state
    {
      hide QueueOk, Queued, AnnWnd, Drain, U16;
      var tcplen := inseg.Tcplen();
      rcvNxt := U32(inseg.seqno + tcplen);
      Plus(base, t.start, t.Len());
      rcvWnd := U16(rcvWnd - tcplen);
      var _ := UpdateRcvAnnWnd(t.End(), v.annEdge);
      var more, moreFin := DrainOoseq(v.nxt, t.End(), rest, v.annEdge);
      data, fin := inseg.data + more, inseg.fin || moreFin;
      ghost var d := Drain(t.End(), rest);
      U16Sum(v.wnd - t.Len(), 0 - (d.nxt - t.End()));
      QueuedLater(v.nxt, d.nxt, d.rest);
    }

    /** The in-sequence branch of tcp_receive(). */
    method DeliverInOrder(inseg0: WireSeg, ghost s: Seg) returns (data: seq<byte>, fin: bool)
      requires Valid() && EdgeInReach()
      requires inseg0 == Wire(base, s) && s.start == view.nxt && 1 <= s.Len() < 0xffff && rcvWnd >= 1
      modifies this
      ensures Valid() && view == InOrder(old(view), s).st
      ensures data == InOrder(old(view), s).data && fin == InOrder(old(view), s).fin
      ensures Flags() == Delayed(old(Flags()))
    {
      hide Absorb, Drain, AnnWnd, TrimToWindow, QueueOk, Queued, U16, U32;
      ghost var v := view;
      var inseg, t, rest := TrimInOrder(inseg0, s);
      data, fin := Advance(inseg, v, t, rest);
      InOrderIs(v, s, t, rest, rcvWnd, state);
      InOrderKeepsAnn(v, s);
      view := InOrder(v, s).st;
      Ack();
    }

    /** The data half of tcp_receive(), for a segment less than 2^31 away from rcv_nxt. */
    method TcpReceive(seg: WireSeg, ghost s0: Seg, env: Env) returns (data: seq<byte>, fin: bool, ack: Option<WireAck>)
      requires Valid() && EdgeInReach() && Arrives(seg, s0)
      modifies this
      ensures Valid()
      ensures var o := Receive(old(view), s0, env);
              view == o.st && data == o.data && fin == o.fin && ack == WireAckOf(base, o.ack)
      ensures Flags() == FlagsAfter(old(Flags()), old(view), s0, env)
    {
      hide Receive, QueueOk, Queued, WireAll, AnnOk, ReceiveFrom;
      ReceiveIs(view, s0, env);
      FlagsAre(Flags(), view, s0, env);
      if seg.Tcplen() > 0 && state.AcceptsText() {
        var inseg := TrimSegment(seg, s0);
        data, fin, ack := ReceiveTrimmed(inseg, TrimFront(view.nxt, s0), env);
      } else {
        data, fin, ack := [], false, None;
        ArrivalCompares(base, view.nxt, rcvWnd, s0);
        if !SeqBetween(seg.seqno, rcvNxt, rcvNxt + rcvWnd - 1) {
          ackNow := true;
        }
      }
    }

    /** What lies before rcv_nxt is cut off, or, when nothing would be left, acknowledged at once. */
    method TrimSegment(seg: WireSeg, ghost s0: Seg) returns (inseg: WireSeg)
      requires Valid() && Arrives(seg, s0) && seg.Tcplen() > 0
      modifies this`ackNow
      ensures Valid() && Arrives(inseg, TrimFront(view.nxt, s0)) && TrimFront(view.nxt, s0).Len() >= 1
      ensures Flags() == old(Flags()) || (Flags() == old(Flags()).(now := true) && TrimFront(view.nxt, s0).start < view.nxt)
    {
      hide QueueOk, Queued, WireAll, AnnOk;
      ArrivalCompares(base, view.nxt, rcvWnd, s0);
      inseg := seg;
      if SeqBetween(rcvNxt, inseg.seqno + 1, inseg.seqno + inseg.Tcplen() - 1) {
        var off := S32(rcvNxt - inseg.seqno);
        inseg := WireSeg(rcvNxt, inseg.data[off..], inseg.fin);
      } else if SeqLt(inseg.seqno, rcvNxt) {
        ackNow := true;
      }
    }

    /** The rest of tcp_receive(): what lies before rcv_nxt has been cut off. */
    method ReceiveTrimmed(inseg: WireSeg, ghost s: Seg, env: Env) returns (data: seq<byte>, fin: bool, ack: Option<WireAck>)
      requires Valid() && EdgeInReach() && Arrives(inseg, s) && s.Len() >= 1
      modifies this
      ensures Valid()
      ensures var o := ReceiveFrom(old(view), s, env);
              view == o.st && data == o.data && fin == o.fin && ack == WireAckOf(base, o.ack)
      ensures Flags() == if s.start == old(view).nxt && old(view).wnd >= 1 then Delayed(old(Flags())) else AckFlags(!env.ackAlloc, !env.ackAlloc)
    {
      data, fin, ack := [], false, None;
      ArrivalCompares(base, view.nxt, rcvWnd, s);
      if SeqBetween(inseg.seqno, rcvNxt, rcvNxt + rcvWnd - 1) {
        if rcvNxt == inseg.seqno {
          data, fin := DeliverInOrder(inseg, s);
        } else {
          ack := SendEmptyAck(env.ackAlloc);
          QueueOoseq(inseg, s, env.segAlloc);
        }
      } else {
        ack := SendEmptyAck(env.ackAlloc);
      }
    }

    /** seg is the image of s0, has a 16-bit length and is within reach of rcv_nxt. */
    ghost predicate Arrives(seg: WireSeg, s0: Seg)
      reads this
    {
      seg == Wire(base, s0) && InReach(view.nxt, s0) && s0.Len() < 0xffff
    }

    /** The out-of-sequence branch of tcp_receive(). */
    method QueueOoseq(inseg: WireSeg, ghost s: Seg, alloc: bool)
      requires Valid() && inseg == Wire(base, s) && s.Len() >= 1
      requires |s.data| <= 0xffff && view.nxt < s.start < view.nxt + rcvWnd
      modifies this`ooseq, this`view
      ensures Valid()
      ensures view == old(view).(ooseq := Place(old(view).ooseq, s, old(view).Edge(), alloc))
    {
      QueuedIsClose(view.nxt, view.ooseq);
      ooseq := QueueOutOfSequence(ooseq, inseg, rcvNxt, rcvWnd, alloc, base, view.nxt, s, view.ooseq);
      PlaceQueued(view.nxt, view.ooseq, s, view.Edge(), alloc);
      view := view.(ooseq := Place(view.ooseq, s, view.Edge(), alloc));
    }

    /** tcp_process() from ESTABLISHED on, and tcp_pcb_purge() when it leaves the active states. */
    method TcpProcess(seg: WireSeg, ghost s0: Seg, finAcked: bool, env: Env)
      returns (data: seq<byte>, fin: bool, ack: Option<WireAck>)
      requires Valid() && EdgeInReach() && Arrives(seg, s0)
      modifies this
      ensures Valid()
      ensures var o := Process(old(view), s0, finAcked, env);
              view == o.st && data == o.data && fin == o.fin && ack == WireAckOf(base, o.ack)
      ensures var f := FlagsAfter(old(Flags()), old(view), s0, env); Flags() == f.(now := f.now || fin)
    {
      hide *;
      StateIs();
      ProcessIs(view, s0, finAcked, env);
      var before := state;
      data, fin, ack := TcpReceive(seg, s0, env);
      EnterState(NextState(before, fin, finAcked));
      if fin { AckNow(); }
      if !state.Active() { Purge(); }
    }

    lemma StateIs()
      requires Valid()
      ensures state == view.state
    {}

    method EnterState(s: State)
      requires Valid()
      modifies this`state, this`view
      ensures Valid() && view == old(view).(state := s) && state == s
    {
      hide QueueOk, Queued, U32;
      state := s;
      view := view.(state := s);
    }

    /** tcp_ack_now() */
    method AckNow()
      requires Valid()
      modifies this`ackNow
      ensures Valid() && Flags() == old(Flags()).(now := true)
    {
      ackNow := true;
    }

    /** tcp_pcb_purge(), as far as the receive half is concerned. */
    method Purge()
      requires Valid()
      modifies this`ooseq, this`refusedData, this`view
      ensures Valid() && view == old(view).(ooseq := [], refused := None)
    {
      hide U32;
      ooseq, refusedData := [], None;
      view := view.(ooseq := [], refused := None);
    }

    /** tcp_slowtmr() gives up on out-of-sequence data that has waited too long. */
    method DropQueued()
      requires Valid()
      modifies this`ooseq, this`view
      ensures Valid() && view == DropOoseq(old(view))
    {
      hide U32;
      ooseq := [];
      view := DropOoseq(view);
    }

    /** The application is told that the peer has closed. */
    method TellClosed()
      requires Valid()
      modifies this`eofs, this`rcvWnd, this`view
      ensures Valid() && view == TellEof(old(view))
    {
      if rcvWnd != TCP_WND {
        rcvWnd := U16(rcvWnd + 1);
      }
      eofs := eofs + 1;
      view := TellEof(view);
    }

    /** tcp_process_refused_data(): take is the answer of the recv callback. */
    method ProcessRefusedData(take: bool)
      requires Valid()
      modifies this`refusedData, this`accepted, this`eofs, this`rcvWnd, this`view
      ensures Valid() && view == Reoffer(old(view), take)
    {
      if refusedData.Some? {
        var refused := refusedData.value;
        if take {
          refusedData := None;
          accepted := accepted + refused.data;
          view := view.(refused := None, accepted := accepted);
          if refused.fin {
            TellClosed();
          }
        }
      }
    }

    /** The recv callbacks at the end of tcp_input(). */
    method NotifyApplication(data: seq<byte>, fin: bool, take: bool)
      requires Valid()
      modifies this`refusedData, this`accepted, this`eofs, this`rcvWnd, this`view
      ensures Valid() && view == Deliver(old(view), data, fin, take)
    {
      if data != [] {
        if take {
          accepted := accepted + data;
          view := view.(accepted := accepted);
        } else {
          refusedData := Some(Held(data, false));
          view := view.(refused := refusedData);
        }
      }
      if fin {
        if refusedData.Some? {
          refusedData := Some(Held(refusedData.value.data, true));
          view := view.(refused := refusedData);
        } else {
          TellClosed();
        }
      }
    }

    /** tcp_input() for a segment of this connection, up to the final tcp_output(). */
    method TcpInput(seg: WireSeg, ghost s0: Seg, finAcked: bool, env: Env) returns (ack: Option<WireAck>)
      requires Valid() && EdgeInReach() && Arrives(seg, s0)
      modifies this
      ensures Valid()
      ensures (view, ack) == (Input(old(view), s0, finAcked, env).0, WireAckOf(base, Input(old(view), s0, finAcked, env).1))
      ensures var (f, st1) := (old(Flags()), Reoffer(old(view), env.takeRefused));
              Flags() == if st1.refused.Some? && s0.Len() > 0 then f
                         else
                           var g := FlagsAfter(f, st1, s0, env);
                           g.(now := g.now || Process(st1, s0, finAcked, env).fin)
    {
      ProcessRefusedData(env.takeRefused);
      if refusedData.Some? && seg.Tcplen() > 0 {
        return None;
      }
      var data, fin;
      data, fin, ack := TcpProcess(seg, s0, finAcked, env);
      NotifyApplication(data, fin, env.takeNew);
    }

    /** tcp_recved(): a large enough window update is sent at once. */
    method TcpRecved(len: u16, alloc: bool) returns (ack: Option<WireAck>)
      requires Valid() && EdgeInReach()
      modifies this
      ensures Valid()
      ensures ack.Some? <==> alloc && WindowUpdateDue(Recved(old(view), len))
      ensures var r := Recved(old(view), len);
              if ack.Some? then view == Announce(r) && ack == WireAckOf(base, Some(AckOf(r))) else view == r
    {
      hide *;
      RecvedIs(view, len);
      var inflation := OpenWindow(len);
      ack := None;
      if inflation >= Min(TCP_WND / 4, TCP_MSS * 4) {
        AckNow();
        EmptyAckIs(view, alloc);
        AckIsWire(base, view);
        ack := SendEmptyAck(alloc);
        AckFields();
      }
    }

    /** The window of tcp_recved(), and how far the right edge has moved. */
    method OpenWindow(len: u16) returns (inflation: u32)
      requires Valid() && EdgeInReach()
      modifies this`rcvWnd, this`rcvAnnWnd, this`view
      ensures Valid() && view == Recved(old(view), len)
      ensures inflation >= Min(TCP_WND / 4, TCP_MSS * 4) <==> WindowUpdateDue(view)
    {
      hide QueueOk, Queued, U32, U16, AnnWnd, WireAll;
      ghost var st := view;
      AnnWndRange(st.nxt, Recved(st, len).wnd, st.annEdge, st.mss);
      rcvWnd := Consumed(len);
      inflation := UpdateRcvAnnWnd(view.nxt, view.annEdge);
      view := Recved(st, len);
    }

    method Consumed(len: u16) returns (w: u16)
      requires Valid()
      ensures w == Recved(view, len).wnd
    {
      hide QueueOk, Queued, U32, U16, AnnWnd, WireAll;
      w := U16(rcvWnd + len);
      if w > TCP_WND {
        w := TCP_WND;
      } else if w == 0 {
        if state.CloseWait? || state.LastAck? {
          w := TCP_WND;
        }
      }
    }

    lemma AckFields()
      requires Valid()
      ensures rcvNxt == U32(base + view.nxt) && rcvAnnWnd == view.annWnd
    {}

    /** tcp_output() of an end that has nothing to send: only a pending ACK leaves. */
    method AckIfDue(alloc: bool) returns (ack: Option<WireAck>)
      requires Valid()
      modifies this`rcvAnnRightEdge, this`ackDelay, this`ackNow, this`view
      ensures Valid()
      ensures if old(ackNow) then
                view == EmptyAck(old(view), alloc).st && ack == WireAckOf(base, EmptyAck(old(view), alloc).ack)
              else view == old(view) && ack == None
    {
      ack := None;
      if ackNow {
        ack := SendEmptyAck(alloc);
      }
    }

    /** tcp_fasttmr(), for a delayed acknowledgement. */
    method DelayedAck(alloc: bool) returns (ack: Option<WireAck>)
      requires Valid()
      modifies this`rcvAnnRightEdge, this`ackDelay, this`ackNow, this`view
      ensures Valid() && !(old(ackDelay) && (ackDelay || ackNow))
      ensures if old(ackDelay) then
                view == EmptyAck(old(view), alloc).st && ack == WireAckOf(base, EmptyAck(old(view), alloc).ack)
              else view == old(view) && ack == None
    {
      ack := None;
      if ackDelay {
        AckNow();
        ack := SendEmptyAck(alloc);
        ackDelay, ackNow := false, false;
      }
    }
  }

  /** What tcp_update_rcv_ann_wnd() compares and subtracts, on 32-bit images. */
  lemma AnnCompares(base: int, nxt: int, wnd: u16, edge: int, mss: u16)
    requires -0x3000_0000 <= edge - nxt <= 0xffff
    ensures SeqGeq(U32(U32(base + nxt) + wnd), U32(base + edge) + Min(TCP_WND / 2, mss)) <==>
            nxt + wnd >= edge + Min(TCP_WND / 2, mss)
    ensures SeqGt(U32(base + nxt), U32(base + edge)) <==> nxt > edge
    ensures nxt + wnd >= edge + Min(TCP_WND / 2, mss) ==>
              U32(U32(U32(base + nxt) + wnd) - U32(base + edge)) == nxt + wnd - edge
    ensures nxt <= edge ==> U32(U32(base + edge) - U32(base + nxt)) == edge - nxt == U16(edge - nxt)
  {
    hide U32, S32, SeqGeq, SeqGt;
    Plus(base, nxt, wnd);
    Compare(base, nxt + wnd, 0, edge, Min(TCP_WND / 2, mss));
    Compare(base, nxt, 0, edge, 0);
    if nxt + wnd >= edge { ExactDifference(base, nxt + wnd, edge); }
    if nxt <= edge { ExactDifference(base, edge, nxt); }
  }

  /** The explicit update of tcp_recved(): the right edge moved by TCP_WND_UPDATE_THRESHOLD. */
  predicate WindowUpdateDue(st: RcvState) {
    && st.Edge() >= st.annEdge + Min(TCP_WND / 2, st.mss)
    && st.Edge() - st.annEdge >= Min(TCP_WND / 4, TCP_MSS * 4)
  }

  /** Section 3.3 of RFC 793: sequence numbers are compared less than 2^31 apart (here with
      room for a 16-bit length on either side). */
  predicate InReach(nxt: int, s: Seg) { -0x7ffd_0000 <= s.start - nxt <= 0x7ffd_0000 }

  lemma ArrivalCompares(base: int, nxt: int, wnd: u16, s: Seg)
    requires InReach(nxt, s) && s.Len() <= 0xffff
    ensures SeqBetween(U32(base + nxt), U32(base + s.start) + 1, U32(base + s.start) + s.Len() - 1) <==>
            s.start + 1 <= nxt <= s.End() - 1
    ensures s.start <= nxt ==> S32(U32(base + nxt) - U32(base + s.start)) == nxt - s.start
    ensures SeqLt(U32(base + s.start), U32(base + nxt)) <==> s.start < nxt
    ensures SeqBetween(U32(base + s.start), U32(base + nxt), U32(base + nxt) + wnd - 1) <==>
            nxt <= s.start <= nxt + wnd - 1
    ensures U32(base + nxt) == U32(base + s.start) <==> nxt == s.start
  {
    Compare(base, nxt, 0, s.start, 1);
    Compare(base, nxt, 0, s.start, s.Len() - 1);
    Compare(base, nxt, 0, s.start, 0);
    Compare(base, s.start, 0, nxt, 0);
    Compare(base, s.start, 0, nxt, wnd - 1);
    CompareEqual(base, nxt, s.start);
  }

  lemma RecvedIs(st: RcvState, len: u16)
    ensures Recved(st, len).nxt == st.nxt && Recved(st, len).annEdge == st.annEdge
  {}

  lemma EmptyAckIs(st: RcvState, alloc: bool)
    ensures EmptyAck(st, alloc).st == if alloc then Announce(st) else st
    ensures EmptyAck(st, alloc).ack == if alloc then Some(AckOf(st)) else None
    ensures Announce(st).nxt == st.nxt && Announce(st).annWnd == st.annWnd
  {}

  lemma AckIsWire(base: int, st: RcvState)
    ensures WireAckOf(base, None) == None
    ensures WireAckOf(base, Some(AckOf(st))) == Some(WireAck(U32(base + st.nxt), st.annWnd))
  {}

  lemma ProcessIs(st: RcvState, seg: Seg, finAcked: bool, env: Env)
    ensures var (o, p) := (Receive(st, seg, env), Process(st, seg, finAcked, env));
            var s := NextState(st.state, o.fin, finAcked);
            p == o.(st := if s.Active() then o.st.(state := s) else o.st.(state := s).(ooseq := [], refused := None))
  {
    hide Receive;
  }

  lemma PlaceQueued(nxt: int, q: seq<Seg>, s: Seg, edge: int, alloc: bool)
    requires QueueOk(nxt, q) && Queued(nxt, q) && s.Len() >= 1 && |s.data| <= 0xffff
    requires nxt < s.start < edge <= nxt + 0xffff
    ensures Queued(nxt, Place(q, s, edge, alloc)) && QueueOk(nxt, Place(q, s, edge, alloc))
  {
    if alloc && q != [] {
      PlaceKeepsQueue(nxt, q, s, edge);
      PlaceInQueued(nxt, nxt, q, s, edge);
    }
  }

  lemma {:induction false} PlaceInQueued(nxt: int, b: int, q: seq<Seg>, s: Seg, edge: int)
    requires q != [] && Queued(nxt, q) && QueueOk(b, q) && |s.data| <= 0xffff && s.start - nxt <= 0xffff
    ensures Queued(nxt, PlaceIn(q, s, edge))
    decreases |q|
  {
    if s.start <= q[0].start {
      InsertQueued(nxt, s, q);
    } else if |q| == 1 {
      assert PlaceIn(q, s, edge)[1..] == if q[0].fin then [] else [ClipToEdge(s, edge)];
    } else if s.start < q[1].start {
      InsertQueued(nxt, s, q[1..]);
      assert PlaceIn(q, s, edge)[1..] == Insert(s, q[1..]);
    } else {
      PlaceInQueued(nxt, q[0].DataEnd() - 1, q[1..], s, edge);
      assert PlaceIn(q, s, edge)[1..] == PlaceIn(q[1..], s, edge);
    }
  }

  lemma {:induction false} InsertQueued(nxt: int, c: Seg, q: seq<Seg>)
    requires Queued(nxt, q) && |c.data| <= 0xffff && c.start - nxt <= 0xffff
    ensures Queued(nxt, Insert(c, q))
  {
    if !c.fin {
      InsertCoveredQueued(nxt, c, q);
      var (d, rest) := InsertCovered(c, q);
      assert Insert(c, q)[1..] == rest;
    }
  }

  lemma {:induction false} InsertCoveredQueued(nxt: int, c: Seg, q: seq<Seg>)
    requires Queued(nxt, q)
    ensures Queued(nxt, InsertCovered(c, q).1)
    ensures InsertCovered(c, q).0.start == c.start && InsertCovered(c, q).0.data == c.data
    decreases |q|
  {
    if q != [] && c.DataEnd() >= q[0].DataEnd() { InsertCoveredQueued(nxt, c.(fin := c.fin || q[0].fin), q[1..]); }
  }

  ghost predicate DrainedSoFar(whole: Drained, data: seq<byte>, fin: bool, tail: Drained) {
    whole == Drained(tail.nxt, data + tail.data, fin || tail.fin, tail.rest)
  }

  /** The drain guard sees whether the queue head starts at m. */
  ghost predicate HeadCompares(base: int, m: int, r: seq<Seg>) {
    && (r == [] <==> WireAll(base, r) == [])
    && (r != [] ==> (WireAll(base, r)[0].seqno == U32(base + m) <==> r[0].start == m))
  }

  lemma InOrderIs(v: RcvState, s: Seg, t: Seg, rest: seq<Seg>, wnd: u16, state: State)
    requires (t, rest) == Absorb(TrimToWindow(s, v.wnd), v.ooseq)
    requires wnd == U16(v.wnd - (Drain(t.End(), rest).nxt - v.nxt))
    requires state == if Drain(t.End(), rest).fin && v.state.Established? then CloseWait else v.state
    ensures var d := Drain(t.End(), rest);
            InOrder(v, s) == Outcome(
              RcvState(d.nxt, wnd, AnnWnd(d.nxt, wnd, v.annEdge, v.mss), v.annEdge, v.mss, d.rest, state,
                       v.refused, v.accepted, v.eofs),
              t.data + d.data, t.fin || d.fin, None)
  {}

  ghost predicate DrainInv(nxt0: int, m: int, r: seq<Seg>) {
    QueueOk(m - 1, r) && Queued(nxt0, r) && nxt0 <= m <= nxt0 + 0x2_0000
  }

  lemma U16Unchanged(x: u16, n: int)
    ensures U16(x - (n - n)) == x
  {}

  lemma DrainInvStep(nxt0: int, m: int, r: seq<Seg>)
    requires DrainInv(nxt0, m, r) && r != [] && r[0].start == m
    ensures DrainInv(nxt0, r[0].End(), r[1..]) && m <= nxt0 + 0xffff && |r[0].data| <= 0xffff
    ensures Drain(m, r) == Drained(Drain(r[0].End(), r[1..]).nxt, r[0].data + Drain(r[0].End(), r[1..]).data,
                                   r[0].fin || Drain(r[0].End(), r[1..]).fin, Drain(r[0].End(), r[1..]).rest)
  {}

  lemma DrainInvStop(nxt0: int, m: int, r: seq<Seg>)
    requires DrainInv(nxt0, m, r) && (r != [] ==> r[0].start != m)
    ensures Drain(m, r) == Drained(m, [], false, r) && QueueOk(m, r)
  {}

  lemma HeadInReach(base: int, nxt0: int, m: int, r: seq<Seg>)
    requires DrainInv(nxt0, m, r)
    ensures HeadCompares(base, m, r)
  {
    if r != [] { CompareEqual(base, r[0].start, m); }
  }

  lemma {:induction false} QueuedIsClose(nxt: int, q: seq<Seg>)
    requires Queued(nxt, q) && QueueOk(nxt, q)
    ensures AllClose(nxt, q)
    decreases |q|
  {
    QueuedIsCloseFrom(nxt, nxt, q);
  }

  lemma {:induction false} QueuedIsCloseFrom(nxt: int, b: int, q: seq<Seg>)
    requires Queued(nxt, q) && QueueOk(b, q) && b >= nxt
    ensures AllClose(nxt, q)
    decreases |q|
  {
    if q != [] && !q[0].fin { QueuedIsCloseFrom(nxt, q[0].DataEnd() - 1, q[1..]); }
  }

  lemma {:induction false} QueuedLater(nxt: int, nxt': int, q: seq<Seg>)
    requires Queued(nxt, q) && nxt <= nxt'
    ensures Queued(nxt', q)
    decreases |q|
  {
    if q != [] { QueuedLater(nxt, nxt', q[1..]); }
  }

  lemma AbsorbQueued(nxt: int, w: Seg, q: seq<Seg>)
    requires Queued(nxt, q)
    ensures Queued(nxt, Absorb(w, q).1)
  {
    if !w.fin { AbsorbCoveredQueued(nxt, w, q); }
  }

  lemma {:induction false} AbsorbCoveredQueued(nxt: int, w: Seg, q: seq<Seg>)
    requires Queued(nxt, q)
    ensures Queued(nxt, AbsorbCovered(w, q).1)
    decreases |q|
  {
    if q != [] && w.End() >= q[0].DataEnd() { AbsorbCoveredQueued(nxt, w.(fin := w.fin || q[0].fin), q[1..]); }
  }

  /** Every queued segment lies within a 16-bit window of nxt, which is why 32-bit comparisons
      among them are exact. */
  ghost predicate Queued(nxt: int, q: seq<Seg>)
    decreases |q|
  {
    q != [] ==> q[0].start - nxt <= 0xffff && |q[0].data| <= 0xffff && Queued(nxt, q[1..])
  }

  lemma ExactDifference(base: int, x: int, y: int)
    requires 0 <= x - y < TWO_32
    ensures U32(U32(base + x) - U32(base + y)) == x - y
  {
    ModDifference(U32(base + x), U32(base + y), base + x, base + y);
  }
}
