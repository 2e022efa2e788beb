/** How a connection ends. */
module Lifecycle {
  // The states from ESTABLISHED on (section 3.2 of RFC 793), reached by any sequence of segments through
  // tcp_process() and calls of tcp_close(). A state is nothing but a summary of what has happened: which
  // FIN went first, and whether ours is acknowledged.

  import opened SequenceNumbers
  import opened TcpConfig
  import opened Reassembly
  import opened ReceiverSpec
  import PcbLists

  /** A segment is processed; acksAll says that its acknowledgement number is snd_nxt. Or the application
      closes, and tcp_send_fin() succeeds. */
  datatype Event = Arrives(seg: Seg, acksAll: bool, env: Env) | Closes

  /** The state change of tcp_close(). */
  function CloseTo(s: State): State {
    match s
    case Established => FinWait1
    case CloseWait => LastAck
    case _ => s
  }

  /** It is the one the PCB lists know. */
  lemma CloseAgrees(s: State)
    requires s != Closed
    ensures PcbLists.Listed(CloseTo(s)) == PcbLists.CloseState(PcbLists.Listed(s), false, true)
    ensures !PcbLists.CloseFrees(PcbLists.Listed(s), false)
  {}

  function After(st: RcvState, e: Event): RcvState {
    match e
    case Arrives(seg, acksAll, env) => Process(st, seg, acksAll, env).st
    case Closes => st.(state := CloseTo(st.state))
  }

  /** The state after all events, in order. */
  function Follow(st: RcvState, events: seq<Event>): RcvState
    decreases |events|
  {
    if events == [] then st else After(Follow(st, events[..|events| - 1]), events[|events| - 1])
  }

  /** What has happened: the peer's FIN was received; ours was sent; ours was acknowledged; and ours was
      sent before the peer's was received. */
  datatype History = History(received: bool, sent: bool, acked: bool, first: bool)

  /** It is read off the events and rcv_nxt alone: the FIN is received when rcv_nxt passes the stream. */
  ghost function Happened(st: RcvState, events: seq<Event>, stream: seq<byte>): History
    decreases |events|
  {
    if events == [] then History(false, false, false, false)
    else
      var h := Happened(st, events[..|events| - 1], stream);
      match events[|events| - 1]
      case Closes => h.(sent := true, first := h.first || (!h.sent && !h.received))
      case Arrives(seg, acksAll, env) =>
        h.(received := Follow(st, events).nxt > |stream|, acked := h.acked || (h.sent && acksAll))
  }

  /** The state that a history stands for. */
  function Summary(h: History): State {
    if !h.sent then
      if h.received then CloseWait else Established
    else if !h.received then
      if h.acked then FinWait2 else FinWait1
    else if h.first then
      if h.acked then TimeWait else Closing
    else
      if h.acked then Closed else LastAck
  }

  ghost predicate AllGenuine(events: seq<Event>, stream: seq<byte>, closed: bool) {
    forall e :: e in events && e.Arrives? ==> True(e.seg, stream, closed)
  }

  /** What holds after every event. */
  ghost predicate Reached(st: RcvState, h: History, stream: seq<byte>, closed: bool) {
    && QueueOk(st.nxt, st.ooseq) && AllTrue(st.ooseq, stream, closed) && 0 <= st.nxt
    && st.state == Summary(h) && (h.received <==> st.nxt > |stream|)
    && (h.acked || h.first ==> h.sent) && (h.sent && !h.received ==> h.first)
    && (!st.state.Active() ==> st.ooseq == [] && st.refused.None?)
  }

  lemma AfterReached(st: RcvState, h: History, e: Event, stream: seq<byte>, closed: bool)
    requires Reached(st, h, stream, closed) && (e.Arrives? ==> True(e.seg, stream, closed))
    ensures var r := After(st, e);
            var h' := match e
                      case Closes => h.(sent := true, first := h.first || (!h.sent && !h.received))
                      case Arrives(seg, acksAll, env) =>
                        h.(received := r.nxt > |stream|, acked := h.acked || (h.sent && acksAll));
            Reached(r, h', stream, closed)
  {
    if e.Arrives? {
      hide Receive;
      ReceiveDelivers(st, e.seg, e.env, stream, closed);
    }
  }

  lemma {:induction false} FollowReached(st: RcvState, events: seq<Event>, stream: seq<byte>, closed: bool)
    requires Reached(st, History(false, false, false, false), stream, closed) && AllGenuine(events, stream, closed)
    ensures Reached(Follow(st, events), Happened(st, events, stream), stream, closed)
    decreases |events|
  {
    hide Reached, After;
    if events != [] {
      var front, e := events[..|events| - 1], events[|events| - 1];
      assert e in events && forall x :: x in front ==> x in events;
      FollowReached(st, front, stream, closed);
      AfterReached(Follow(st, front), Happened(st, front, stream), e, stream, closed);
    }
  }

  /** After every sequence of segments and closes the state is determined by the history: ESTABLISHED and
      CLOSE_WAIT before we close; FIN_WAIT_1 and FIN_WAIT_2 until the peer's FIN comes; CLOSING and TIME_WAIT
      when ours went first, LAST_ACK and the end when theirs did, in each case before and after ours is
      acknowledged. A connection that has left the active states holds no data. */
  lemma StateIsHistory(st: RcvState, events: seq<Event>, stream: seq<byte>, closed: bool)
    requires st.state == Established && QueueOk(st.nxt, st.ooseq) && AllTrue(st.ooseq, stream, closed)
    requires 0 <= st.nxt <= |stream| && AllGenuine(events, stream, closed)
    ensures var (r, h) := (Follow(st, events), Happened(st, events, stream));
            && (r.state.Established? <==> !h.received && !h.sent)
            && (r.state.CloseWait? <==> h.received && !h.sent)
            && (r.state.FinWait1? <==> h.sent && !h.acked && !h.received)
            && (r.state.FinWait2? <==> h.sent && h.acked && !h.received)
            && (r.state.Closing? <==> h.received && h.sent && h.first && !h.acked)
            && (r.state.TimeWait? <==> h.received && h.sent && h.first && h.acked)
            && (r.state.LastAck? <==> h.received && h.sent && !h.first && !h.acked)
            && (r.state.Closed? <==> h.received && h.sent && !h.first && h.acked)
            && (r.state.TimeWait? || r.state.Closed? ==> r.ooseq == [] && r.refused.None?)
  {
    FollowReached(st, events, stream, closed);
  }
}
