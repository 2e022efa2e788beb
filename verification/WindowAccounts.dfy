/** What the receive window stands for. */
module WindowAccounts {
  // Between the two ends of a connection nobody grants more, or less, than there is: the window is what the
  // application has not been given and not consumed (section 4.2.2.16 of RFC 1122), and it is announced in
  // large steps (section 4.2.3.3).

  import opened SequenceNumbers
  import opened TcpConfig
  import opened Reassembly
  import opened ReceiverSpec
  import opened ReceiveWindow
  import opened SendQueues
  import opened EndToEnd
  import Receiver

  // ---------- The balance ----------

  /** The application has consumed used bytes of what it accepted. The window lacks what it still holds, what
      it has refused, and a FIN it has not been told of. */
  predicate Balanced(st: RcvState, used: int) {
    && used <= |st.accepted|
    && st.wnd + (|st.accepted| - used) + |st.Pending()| + (if FinPending(st) then 1 else 0) == TCP_WND
  }

  /** An event at the receiver. */
  datatype Event =
    | Arrives(seg: Seg, finAcked: bool, env: Env)
    | Consumes(len: u16)
    | Retries(take: bool)

  function After(st: RcvState, e: Event): RcvState {
    match e
    case Arrives(seg, finAcked, env) => Input(st, seg, finAcked, env).0
    case Consumes(len) => Recved(st, len)
    case Retries(take) => Reoffer(st, take)
  }

  function Used(used: int, e: Event): int { if e.Consumes? then used + e.len else used }

  /** The peer does not send past the window, and the application consumes what it has been given. */
  ghost predicate Fair(st: RcvState, used: int, e: Event, stream: seq<byte>, closed: bool) {
    match e
    case Arrives(seg, finAcked, env) => True(seg, stream, closed) && (seg.End() <= st.Edge() || seg.start <= st.nxt)
    case Consumes(len) => 1 <= len <= |st.accepted| - used
    case Retries(take) => true
  }

  ghost predicate Kept(st: RcvState, used: int, stream: seq<byte>, closed: bool) {
    RcvInv(st, stream, closed) && WndInv(st) && (st.state.Active() ==> Balanced(st, used))
  }

  lemma RetryKeeps(st: RcvState, used: int, take: bool, stream: seq<byte>, closed: bool)
    requires Kept(st, used, stream, closed) && st.state.Active()
    ensures Kept(Reoffer(st, take), used, stream, closed)
  {
    hide QueueOk, AllTrue;
    ReofferKeeps(st, take, stream, closed);
    WndInvGrows(st, Reoffer(st, take));
  }

  lemma ConsumeKeeps(st: RcvState, used: int, len: u16, stream: seq<byte>, closed: bool)
    requires Kept(st, used, stream, closed) && st.state.Active() && 1 <= len <= |st.accepted| - used
    ensures Kept(Recved(st, len), used + len, stream, closed) && Recved(st, len).wnd == st.wnd + len
  {
    var r := Recved(st, len);
    EndByGrows(st.ooseq, st.Edge(), r.Edge());
    AnnWndRange(st.nxt, r.wnd, st.annEdge, st.mss);
  }

  /** What tcp_receive() hands up is paid for by the window. */
  lemma ReceivePays(st: RcvState, seg: Seg, env: Env, stream: seq<byte>, closed: bool)
    requires RcvInv(st, stream, closed) && WndInv(st) && True(seg, stream, closed)
    requires seg.End() <= st.Edge() || seg.start <= st.nxt
    ensures var o := Receive(st, seg, env);
            && o.st.wnd + |o.data| + (if o.fin then 1 else 0) == st.wnd && WndInv(o.st)
            && o.st.accepted == st.accepted && o.st.refused == st.refused
  {
    hide QueueOk, AllTrue, WndInv;
    ReceiveKeepsEdge(st, seg, env, stream, closed);
    ReceiveDelivers(st, seg, env, stream, closed);
  }

  lemma ProcessPays(st: RcvState, used: int, seg: Seg, finAcked: bool, env: Env, stream: seq<byte>, closed: bool)
    requires Kept(st, used, stream, closed) && st.state.Active() && True(seg, stream, closed)
    requires seg.End() <= st.Edge() || seg.start <= st.nxt
    requires st.refused.None? || seg.Len() == 0
    ensures var o := Process(st, seg, finAcked, env);
            var r := Deliver(o.st, o.data, o.fin, env.takeNew);
            r.state.Active() ==> Balanced(r, used)
  {
    hide Receive, NextState, QueueOk, AllTrue, WndInv;
    WndMost(st);
    ReceivePays(st, seg, env, stream, closed);
    ReceiveDelivers(st, seg, env, stream, closed);
  }

  lemma WndMost(st: RcvState)
    requires WndInv(st)
    ensures st.wnd <= TCP_WND
  {}

  lemma ArriveKeeps(st: RcvState, used: int, seg: Seg, finAcked: bool, env: Env, stream: seq<byte>, closed: bool)
    requires Kept(st, used, stream, closed) && st.state.Active() && True(seg, stream, closed)
    requires seg.End() <= st.Edge() || seg.start <= st.nxt
    ensures Kept(Input(st, seg, finAcked, env).0, used, stream, closed)
  {
    hide Process, Deliver, RcvInv, WndInv, Balanced, AllTrue, QueueOk, True;
    var st1 := Reoffer(st, env.takeRefused);
    InputKeeps(st, seg, finAcked, env, stream, closed);
    RetryKeeps(st, used, env.takeRefused, stream, closed);
    InputWnd(st, seg, finAcked, env, stream, closed);
    if st1.refused.None? || seg.Len() == 0 {
      ReofferEdge(st, env.takeRefused);
      ProcessPays(st1, used, seg, finAcked, env, stream, closed);
    }
  }

  lemma InputWnd(st: RcvState, seg: Seg, finAcked: bool, env: Env, stream: seq<byte>, closed: bool)
    requires RcvInv(st, stream, closed) && WndInv(st) && True(seg, stream, closed)
    requires seg.End() <= st.Edge() || seg.start <= st.nxt
    ensures WndInv(Input(st, seg, finAcked, env).0)
  {
    InputKeepsEdge(st, seg, finAcked, env, stream, closed);
  }

  lemma ReofferEdge(st: RcvState, take: bool)
    requires WndInv(st)
    ensures var r := Reoffer(st, take); r.nxt == st.nxt && r.Edge() >= st.Edge() && r.state == st.state
  {}

  // ---------- Over any sequence of events ----------

  function Follow(st: RcvState, events: seq<Event>): RcvState
    decreases |events|
  {
    if events == [] then st else Follow(After(st, events[0]), events[1..])
  }

  function Consumed(used: int, events: seq<Event>): int
    decreases |events|
  {
    if events == [] then used else Consumed(Used(used, events[0]), events[1..])
  }

  ghost predicate AllFair(st: RcvState, used: int, events: seq<Event>, stream: seq<byte>, closed: bool)
    decreases |events|
  {
    events != [] ==>
      && Fair(st, used, events[0], stream, closed) && st.state.Active()
      && AllFair(After(st, events[0]), Used(used, events[0]), events[1..], stream, closed)
  }

  /** Conservation: however segments arrive, and however the application refuses, takes and consumes, the
      window, what the application holds, what it has refused and a FIN held back add up to TCP_WND. So when
      everything is taken and consumed the window is whole again. */
  lemma {:induction false} WindowConserved(st: RcvState, used: int, events: seq<Event>, stream: seq<byte>, closed: bool)
    requires Kept(st, used, stream, closed) && st.state.Active() && AllFair(st, used, events, stream, closed)
    ensures var (r, u) := (Follow(st, events), Consumed(used, events));
            && Kept(r, u, stream, closed)
            && (r.state.Active() && r.refused.None? && u == |r.accepted| ==> r.wnd == TCP_WND)
    decreases |events|
  {
    if events != [] {
      hide Kept, Input, Recved, Reoffer;
      KeptStep(st, used, events[0], stream, closed);
      if events[1..] == [] { KeptMeans(After(st, events[0]), Used(used, events[0]), stream, closed); }
      else { WindowConserved(After(st, events[0]), Used(used, events[0]), events[1..], stream, closed); }
    }
  }

  lemma KeptMeans(st: RcvState, used: int, stream: seq<byte>, closed: bool)
    requires Kept(st, used, stream, closed)
    ensures st.state.Active() && st.refused.None? && used == |st.accepted| ==> st.wnd == TCP_WND
  {}

  lemma KeptStep(st: RcvState, used: int, e: Event, stream: seq<byte>, closed: bool)
    requires Kept(st, used, stream, closed) && st.state.Active() && Fair(st, used, e, stream, closed)
    ensures Kept(After(st, e), Used(used, e), stream, closed)
  {
    hide Kept, Input, Recved, Reoffer;
    match e
    case Arrives(seg, finAcked, env) => ArriveKeeps(st, used, seg, finAcked, env, stream, closed);
    case Consumes(len) => ConsumeKeeps(st, used, len, stream, closed);
    case Retries(take) => RetryKeeps(st, used, take, stream, closed);
  }

  /** What tcp_close() takes for data that was not received, a refused buffer or a window that is not whole:
      it resets the connection exactly if the application has not taken and consumed everything. */
  lemma UnreadIsUnread(st: RcvState, used: int)
    requires Balanced(st, used)
    ensures st.refused.Some? || st.wnd != TCP_WND <==> st.refused.Some? || used < |st.accepted|
  {}

  /** An application that takes everything has everything: after each segment it has been given all that
      rcv_nxt has passed, and told of the FIN if that is among it. */
  lemma TakersGetAll(st: RcvState, seg: Seg, finAcked: bool, env: Env, stream: seq<byte>, closed: bool)
    requires RcvInv(st, stream, closed) && st.state.Active() && True(seg, stream, closed)
    requires env.takeRefused && env.takeNew
    ensures var r := Input(st, seg, finAcked, env).0;
            r.state.Active() ==> r.refused.None? && r.accepted <= stream && |r.accepted| == Min(r.nxt, |stream|) && (r.eofs == 1 <==> r.nxt == |stream| + 1)
  {
    InputKeeps(st, seg, finAcked, env, stream, closed);
    var r := Input(st, seg, finAcked, env).0;
    if r.state.Active() {
      NoneRefused(st, seg, finAcked, env);
      assert r.accepted + [] == r.accepted;
    }
  }

  lemma NoneRefused(st: RcvState, seg: Seg, finAcked: bool, env: Env)
    requires env.takeRefused && env.takeNew
    ensures Input(st, seg, finAcked, env).0.refused.None?
  {
    hide Receive, NextState;
    var st1 := Reoffer(st, env.takeRefused);
    assert st1.refused.None?;
    ReceiveFrame(st1, seg, env);
  }

  lemma ReceiveFrame(st: RcvState, seg: Seg, env: Env)
    ensures Receive(st, seg, env).st.refused == st.refused
  {
    hide Absorb, Drain, Place, TrimFront, AnnWnd, TrimToWindow;
  }

  // ---------- Announcements ----------

  /** The step in which the right edge is announced. */
  function Granule(mss: u16): nat { Min(TCP_WND / 2, mss) }

  /** The edge that would be announced now is the one announced last (or rcv_nxt, if that has passed it), or
      it lies a whole granule further. */
  predicate InSteps(st: RcvState) {
    || st.nxt + st.annWnd == Max(st.annEdge, st.nxt)
    || st.nxt + st.annWnd >= st.annEdge + Granule(st.mss)
  }

  /** Whenever the window is evaluated: the whole window is announced if that moves the edge by a granule,
      and otherwise the edge stays. */
  lemma EvaluatedInSteps(st: RcvState)
    requires st.annEdge <= st.nxt + 0xffff
    ensures var r := UpdateAnn(st);
            && InSteps(r)
            && (if st.Edge() - st.annEdge >= Granule(st.mss) then r.annWnd == st.wnd
                else r.nxt + r.annWnd == Max(st.annEdge, st.nxt))
  {}

  /** tcp_recved() sends an update of its own exactly when the edge has moved by a quarter of TCP_WND or four
      segments, whichever is less, and by a granule: so an application that consumes leaves at most that much
      unannounced. */
  lemma UpdateExactly(st: RcvState)
    ensures Receiver.WindowUpdateDue(st) <==>
            st.Edge() - st.annEdge >= Max(Min(TCP_WND / 4, 4 * TCP_MSS), Granule(st.mss))
  {}

  lemma InputInSteps(st: RcvState, seg: Seg, finAcked: bool, env: Env)
    requires InSteps(st) && AnnOk(st)
    ensures InSteps(Input(st, seg, finAcked, env).0) && Input(st, seg, finAcked, env).0.mss == st.mss
  {
    hide Receive, NextState, Granule;
    var st1 := Reoffer(st, env.takeRefused);
    ReceiveInSteps(st1, seg, env);
  }

  lemma ReceiveInSteps(st: RcvState, seg: Seg, env: Env)
    requires InSteps(st) && AnnOk(st)
    ensures InSteps(Receive(st, seg, env).st) && Receive(st, seg, env).st.mss == st.mss
  {
    hide InOrder, Place;
    var s := TrimFront(st.nxt, seg);
    if s.start == st.nxt && st.wnd >= 1 && s.Len() >= 1 { InOrderInSteps(st, s); }
  }

  lemma InOrderInSteps(st: RcvState, s: Seg)
    requires AnnOk(st) && s.start == st.nxt
    ensures InSteps(InOrder(st, s).st) && InOrder(st, s).st.mss == st.mss
  {
    hide Absorb, Drain, AnnWnd, InSteps;
    var (t, rest) := Absorb(TrimToWindow(s, st.wnd), st.ooseq);
    AbsorbStart(TrimToWindow(s, st.wnd), st.ooseq);
    DrainGrows(t.End(), rest);
    var d := Drain(t.End(), rest);
    EvaluatedInSteps(st.(nxt := d.nxt, wnd := U16(st.wnd - (d.nxt - st.nxt)), ooseq := d.rest,
                         state := if d.fin && st.state.Established? then CloseWait else st.state));
  }

  lemma AbsorbStart(s: Seg, q: seq<Seg>)
    ensures Absorb(s, q).0.start == s.start
  {
    AbsorbCoveredStart(s, q);
  }

  /** Two edges that were announced are a granule apart or equal, unless the further one closes the window. */
  predicate Apart(m: AckMsg, n: AckMsg, step: nat) {
    m.Edge() < n.Edge() ==> n.Edge() - m.Edge() >= step || n.wnd == 0
  }

  ghost predicate Spaced(sys: Sys) {
    && InSteps(sys.rcv)
    && (exists m :: m in sys.acks && m.Edge() == sys.rcv.annEdge)
    && (forall m, n :: m in sys.acks && n in sys.acks ==> Apart(m, n, Granule(sys.rcv.mss)))
  }

  lemma AckSpaced(sys: Sys, r: RcvState, acks: set<AckMsg>)
    requires SysInv(sys) && Spaced(sys)
    requires acks == sys.acks + {AckMsg(sys.rcv.nxt, sys.rcv.annWnd)}
    requires InSteps(r) && r.mss == sys.rcv.mss && r.annEdge == sys.rcv.nxt + sys.rcv.annWnd
    ensures Spaced(sys.(rcv := r, acks := acks))
  {
    var a := AckMsg(sys.rcv.nxt, sys.rcv.annWnd);
    var last :| last in sys.acks && last.Edge() == sys.rcv.annEdge;
    AcksBelow(sys);
    assert a in acks && a.Edge() == r.annEdge;
    forall m, n | m in acks && n in acks ensures Apart(m, n, Granule(r.mss)) {
      if m in sys.acks && n == a {
        assert Apart(m, last, Granule(r.mss));
      } else if m == a && n in sys.acks {
        assert n.Edge() <= a.Edge();
      }
    }
  }

  lemma AcksBelow(sys: Sys)
    requires SysInv(sys)
    ensures forall m :: m in sys.acks ==> m.ackno <= sys.rcv.nxt && m.Edge() <= sys.rcv.annEdge
    ensures AnnOk(sys.rcv)
  {}

  /** An acknowledgement says what was to be announced when the segment came. */
  lemma InputAnnounces(st: RcvState, seg: Seg, finAcked: bool, env: Env)
    ensures var (r, ack) := Input(st, seg, finAcked, env);
            && (ack.None? ==> r.annEdge == st.annEdge)
            && (ack.Some? ==> ack.value == AckMsg(st.nxt, st.annWnd) && r.annEdge == st.nxt + st.annWnd)
  {
    hide Absorb, Drain, Place, TrimFront, AnnWnd, TrimToWindow, NextState, Deliver;
    var st1 := Reoffer(st, env.takeRefused);
    CallbackFrame(st1, seg, finAcked, env);
  }

  lemma RecvedInSteps(st: RcvState, len: u16)
    requires AnnOk(st)
    ensures InSteps(Recved(st, len)) && Recved(st, len).mss == st.mss
  {}

  /** What does not touch the announcement. */
  lemma OthersInSteps(st: RcvState, take: bool)
    requires InSteps(st)
    ensures InSteps(Reoffer(st, take)) && InSteps(DropOoseq(st)) && InSteps(Announce(st))
    ensures Reoffer(st, take).mss == st.mss && Reoffer(st, take).annEdge == st.annEdge
  {}

  lemma SpacedStep(sys: Sys, step: Step)
    requires SysInv(sys) && Spaced(sys) && sys.snd.cwnd >= 1 && sys.snd.ssthresh >= 1
    ensures Spaced(Next(sys, step)) && Next(sys, step).rcv.mss == sys.rcv.mss
  {
    hide SysInv, Write, SendFin, Output, OnAck, Input, InSteps, TailFits, RexmitRto, AnnWnd, U16;
    AcksBelow(sys);
    match step
    case DataArrives(seg, env) =>
      if seg in sys.net {
        var (r, ack) := Input(sys.rcv, seg, false, env);
        InputInSteps(sys.rcv, seg, false, env);
        InputAnnounces(sys.rcv, seg, false, env);
        if ack.Some? {
          AckSpaced(sys, r, Next(sys, step).acks);
        }
      }
    case AckLeaves =>
      OthersInSteps(sys.rcv, false);
      AckSpaced(sys, Announce(sys.rcv), Next(sys, step).acks);
    case AppConsumes(len) => RecvedInSteps(sys.rcv, len);
    case AppRetries(take) => OthersInSteps(sys.rcv, take);
    case OoseqExpires => OthersInSteps(sys.rcv, false);
    case _ =>
  }

  lemma {:induction false} SpacedRun(sys: Sys, steps: seq<Step>)
    requires SysInv(sys) && Spaced(sys)
    ensures Spaced(Run(sys, steps)) && Run(sys, steps).rcv.mss == sys.rcv.mss
    decreases |steps|
  {
    hide SysInv, Spaced, Next;
    if steps != [] {
      SysInvMeans(sys);
      NextKeeps(sys, steps[0]);
      SpacedStep(sys, steps[0]);
      SpacedRun(Next(sys, steps[0]), steps[1..]);
    }
  }

  /** No silly windows: in every run, any two right edges the receiver has announced are equal or at least
      min(TCP_WND / 2, mss) apart, unless the further one is announced with a closed window. */
  lemma NoSillyWindow(init: Sys, steps: seq<Step>, m: AckMsg, n: AckMsg)
    requires Init(init)
    ensures SysInv(init)
    ensures m in Run(init, steps).acks && n in Run(init, steps).acks && m.Edge() < n.Edge() ==>
            n.Edge() - m.Edge() >= Min(TCP_WND / 2, init.rcv.mss) || n.wnd == 0
  {
    hide SysInv, InSteps;
    InitKeeps(init);
    InitSpaced(init);
    SpacedRun(init, steps);
    assert Spaced(Run(init, steps));
    if m in Run(init, steps).acks && n in Run(init, steps).acks { assert Apart(m, n, Granule(init.rcv.mss)); }
  }

  lemma InitSpaced(init: Sys)
    requires Init(init)
    ensures Spaced(init)
  {
    assert AckMsg(0, init.snd.wnd) in init.acks;
  }
}
