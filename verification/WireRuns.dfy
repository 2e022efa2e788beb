/** Runs of both ends on the 32-bit fields, as refinements of those on offsets. */
module WireRuns {
  // A TcpSender and a TcpReceiver, joined by a network of 32-bit messages. Every method below is one call
  // into the program, and takes one or two steps of EndToEnd; so whatever calls are made in whatever order,
  // the connection is always in the state after a run. All that is asked of the environment is that
  // messages were sent, and are not so old that their numbers can no longer be compared.

  import opened SequenceNumbers
  import opened TcpConfig
  import opened Reassembly
  import opened ReceiverSpec
  import opened ReceiveWindow
  import opened WireFormat
  import opened SendQueues
  import opened SendInvariants
  import opened Acknowledgement
  import opened EndToEnd
  import Sender
  import Transmission
  import Receiver

  // ---------- Runs and their images on the wire ----------

  /** sys is the state after steps. */
  ghost predicate Reached(init: Sys, steps: seq<Step>, sys: Sys) {
    Init(init) && SysInv(init) && Run(init, steps) == sys && sys.snd.cwnd >= 1 && sys.snd.ssthresh >= 1
  }

  lemma ReachedNext(init: Sys, steps: seq<Step>, sys: Sys, step: Step)
    requires Reached(init, steps, sys)
    ensures SysInv(sys) && Reached(init, steps + [step], Next(sys, step))
  {
    hide SysInv, Next, Init;
    SysInvMeans(sys);
    RunConcat(init, steps, [step]);
    RunStep(sys, step, []);
    assert [step] + [] == [step];
    assert SysInv(Next(sys, step));
    SysInvMeans(Next(sys, step));
    assert Run(Next(sys, step), []) == Next(sys, step);
  }

  ghost function WireNet(base: int, net: set<Seg>): set<WireSeg> { set s | s in net :: Wire(base, s) }

  function WireAck(base: int, m: AckMsg): Receiver.WireAck { Receiver.WireAck(U32(base + m.ackno), m.wnd) }

  ghost function WireAcks(base: int, acks: set<AckMsg>): set<Receiver.WireAck> { set m | m in acks :: WireAck(base, m) }

  lemma {:induction false} WireMember(base: int, segs: seq<Seg>, w: WireSeg)
    ensures w in WireAll(base, segs) <==> exists s :: s in segs && w == Wire(base, s)
    decreases |segs|
  {
    if segs != [] {
      WireMember(base, segs[1..], w);
      assert w in WireAll(base, segs) <==> w == Wire(base, segs[0]) || w in WireAll(base, segs[1..]);
      assert forall s :: s in segs <==> s == segs[0] || s in segs[1..];
    }
  }

  lemma WireNetSent(base: int, net: set<Seg>, segs: seq<Seg>)
    ensures WireNet(base, net + (set s | s in segs)) == WireNet(base, net) + (set w | w in WireAll(base, segs))
  {
    var now, then' := WireNet(base, net + (set s | s in segs)), WireNet(base, net) + (set w | w in WireAll(base, segs));
    forall w | w in now ensures w in then' { WireMember(base, segs, w); }
    forall w | w in then' ensures w in now { WireMember(base, segs, w); }
  }

  lemma WireAcksSent(base: int, acks: set<AckMsg>, m: AckMsg)
    ensures WireAcks(base, acks + {m}) == WireAcks(base, acks) + {WireAck(base, m)}
  {}

  // ---------- What is in reach ----------

  /** The receiver has never received beyond the edge it announced, but for a FIN. */
  lemma EdgeReached(sys: Sys)
    requires SysInv(sys)
    ensures sys.rcv.nxt <= sys.rcv.annEdge + 1
  {
    EdgePromised(sys);
  }

  lemma SenderInReach(sys: Sys)
    requires SysInv(sys)
    ensures Sender.InReach(sys.snd) && sys.snd.wl2 == sys.snd.lastack && sys.snd.cwnd >= 1 && sys.snd.ssthresh >= 1
  {
    hide Sender.InReach;
    Sender.InvariantInReach(sys.snd, sys.stream, sys.closed);
  }

  // ---------- What the steps do ----------

  lemma TakesWrite(sys: Sys, data: seq<byte>, copy: bool, more: bool, budget: nat)
    requires SysInv(sys) && sys.snd.cwnd >= 1 && sys.snd.ssthresh >= 1 && |data| <= 0xffff && TailFits(sys.snd)
    ensures var (st, err) := Write(sys.snd, data, copy, more, budget);
            Next(sys, Step.WriteData(data, copy, more, budget)) ==
            sys.(snd := st, stream := if err == ErrOk then sys.stream + data else sys.stream)
  {
    hide SysInv, TailFits, Write;
  }

  lemma TakesClose(sys: Sys, budget: nat)
    requires sys.snd.cwnd >= 1 && sys.snd.ssthresh >= 1
    ensures var next := Next(sys, Step.Close(budget));
            if !sys.snd.state.Established? then next == sys
            else
              var (st, err) := SendFin(sys.snd, budget);
              next == if err == ErrOk then sys.(snd := st.(state := FinWait1), closed := true) else sys.(snd := st)
  {
    hide SendFin;
  }

  lemma TakesSending(sys: Sys, link: nat, ackAlloc: bool)
    requires sys.snd.cwnd >= 1 && sys.snd.ssthresh >= 1
    ensures Next(sys, Step.Transmit(link, ackAlloc)) == Sending(sys, Output(sys.snd, link, ackAlloc))
    ensures Next(sys, Step.Timeout(link, ackAlloc)) == Sending(sys, Output(RexmitRto(sys.snd), link, ackAlloc))
  {
    hide Output, RexmitRto, Sending;
  }

  lemma SendingFields(sys: Sys, sent: Sent, base: int)
    ensures var r := Sending(sys, sent);
            && r.snd == sent.st && r.rcv == sys.rcv && r.stream == sys.stream && r.closed == sys.closed && r.acks == sys.acks
            && WireNet(base, r.net) == WireNet(base, sys.net) + (set w | w in WireAll(base, sent.segs))
  {
    WireNetSent(base, sys.net, sent.segs);
  }

  lemma AcksInside(sys: Sys, m: AckMsg)
    requires SysInv(sys) && m in sys.acks
    ensures m.ackno <= sys.snd.lastack + 0x2000_0000
    ensures Sender.InReach(sys.snd) && sys.snd.lastack <= sys.snd.nxt <= sys.snd.lastack + 0x2000_0000
    ensures sys.snd.wl2 == sys.snd.lastack
  {
    hide Sender.InReach;
    SenderInReach(sys);
    SysInvMeans(sys);
    assert m.ackno <= sys.rcv.nxt;
    SentNear(sys.snd);
  }

  lemma SentNear(st: SndState)
    requires Sender.InReach(st)
    ensures st.nxt <= st.lastack + 0x2000_0000
  {}

  /** What an arriving acknowledgement does to the sender, and that its result is in reach. */
  lemma OnAckIs(sys: Sys, m: AckMsg, link: nat, ackAlloc: bool)
    requires SysInv(sys) && m in sys.acks && sys.snd.cwnd >= 1 && sys.snd.ssthresh >= 1
    ensures var r := Ack(sys.snd, sys.snd.wl1, m.ackno, m.wnd, 0, ackAlloc);
            && OnAck(sys.snd, m, ackAlloc) == r.(state := NextState(r.state, false, m.ackno == r.nxt))
            && r.nxt == sys.snd.nxt && Sender.InReach(OnAck(sys.snd, m, ackAlloc))
    ensures Next(sys, Step.AckArrives(m, link, ackAlloc)) == Sending(sys, Output(OnAck(sys.snd, m, ackAlloc), link + 1, ackAlloc))
  {
    hide Ack, Sender.InReach, Output, SysInv, Next, Sending, FastRetransmits, SndInv, RexInv;
    NextOnAck(sys, m, link, ackAlloc);
    SysInvMeans(sys);
    OnAckKeeps(sys.snd, m, ackAlloc, sys.stream, sys.closed, sys.acks, sys.rcv.nxt, sys.rcv.annEdge);
    Sender.InvariantInReach(OnAck(sys.snd, m, ackAlloc), sys.stream, sys.closed);
  }

  lemma TakesData(sys: Sys, s: Seg, env: Env)
    requires sys.snd.cwnd >= 1 && sys.snd.ssthresh >= 1 && s in sys.net
    ensures var (st, ack) := Input(sys.rcv, s, false, env);
            Next(sys, Step.DataArrives(s, env)) == sys.(rcv := st, acks := if ack.Some? then sys.acks + {ack.value} else sys.acks)
  {
    hide Input;
  }

  lemma TakesReceiver(sys: Sys, len: u16, take: bool)
    requires sys.snd.cwnd >= 1 && sys.snd.ssthresh >= 1
    ensures Next(sys, AckLeaves) == sys.(rcv := Announce(sys.rcv), acks := sys.acks + {AckOf(sys.rcv)})
    ensures Next(sys, AppConsumes(len)) == sys.(rcv := Recved(sys.rcv, len))
    ensures Next(sys, AppRetries(take)) == sys.(rcv := Reoffer(sys.rcv, take))
    ensures Next(sys, OoseqExpires) == sys.(rcv := DropOoseq(sys.rcv))
  {
    hide Recved, Reoffer;
  }

  lemma AnnounceIs(sys: Sys, alloc: bool)
    requires sys.snd.cwnd >= 1 && sys.snd.ssthresh >= 1
    ensures Next(sys, AckLeaves) == sys.(rcv := Announce(sys.rcv), acks := sys.acks + {AckOf(sys.rcv)})
    ensures EmptyAck(sys.rcv, alloc).st == if alloc then Announce(sys.rcv) else sys.rcv
    ensures EmptyAck(sys.rcv, alloc).ack == if alloc then Some(AckOf(sys.rcv)) else None
  {}

  lemma SegmentsNear(sys: Sys, s: Seg)
    requires SysInv(sys) && s in sys.net
    ensures s.start <= sys.rcv.nxt + 0x2000_0000 && |s.data| <= TCP_MSS
  {
    hide Sender.InReach;
    SenderInReach(sys);
    SentNear(sys.snd);
    assert AckMsg(sys.snd.lastack, sys.snd.wnd) in sys.acks;
  }

  lemma RexmitRtoReach(sys: Sys)
    requires SysInv(sys)
    ensures Sender.InReach(RexmitRto(sys.snd))
  {
    hide Sender.InReach, RexmitRto, SndInv;
    Transmission.RexmitRtoKeeps(sys.snd, sys.stream, sys.closed);
    Sender.InvariantInReach(RexmitRto(sys.snd), sys.stream, sys.closed);
  }

  /** A connection: two ends and everything ever sent. */
  class Connection {
    const sender: Sender.TcpSender
    const receiver: Receiver.TcpReceiver
    ghost const base: int
    var net: set<WireSeg>             // every segment sent
    var acks: set<Receiver.WireAck>   // every acknowledgement sent
    var written: seq<byte>            // what tcp_write() has accepted
    var closed: bool                  // tcp_send_fin() has succeeded
    ghost const init: Sys
    ghost var steps: seq<Step>
    ghost var sys: Sys

    ghost predicate Valid()
      reads this, sender, receiver
    {
      && Reached(init, steps, sys) && init.snd.wndMax >= 2
      && sender.base == base && receiver.base == base
      && sender.Valid() && sender.view == sys.snd
      && receiver.Valid() && receiver.view == sys.rcv
      && Sent()
    }

    /** The messages on the wire are the images of those sent. */
    ghost predicate Sent()
      reads this`net, this`acks, this`written, this`closed, this`sys
    {
      net == WireNet(base, sys.net) && acks == WireAcks(base, sys.acks) && written == sys.stream && closed == sys.closed
    }

    lemma Parts()
      requires Valid()
      ensures Reached(init, steps, sys) && init.snd.wndMax >= 2 && SysInv(sys) && sys.snd.cwnd >= 1 && sys.snd.ssthresh >= 1
      ensures sender.base == base && receiver.base == base
      ensures sender.Valid() && sender.view == sys.snd && receiver.Valid() && receiver.view == sys.rcv
      ensures net == WireNet(base, sys.net) && acks == WireAcks(base, sys.acks) && written == sys.stream && closed == sys.closed
    {}

    lemma Whole()
      requires Reached(init, steps, sys) && init.snd.wndMax >= 2
      requires sender.base == base && receiver.base == base
      requires sender.Valid() && sender.view == sys.snd && receiver.Valid() && receiver.view == sys.rcv
      requires net == WireNet(base, sys.net) && acks == WireAcks(base, sys.acks) && written == sys.stream && closed == sys.closed
      ensures Valid()
    {}

    /** Both ends after the handshake: the acknowledgement that ended it announced the receiver's window. */
    constructor (ghost base: int, ghost peerBase: int, iss: u32, irs: u32, sndMss: u16, rcvMss: u16, cwnd: u16, ssthresh: u16)
      requires iss == U32(base - 1) && irs == U32(peerBase)
      requires 1 <= sndMss <= TCP_MSS && cwnd >= 1 && ssthresh >= 1
      ensures Valid() && fresh(sender) && fresh(receiver) && written == [] && !closed && steps == []
    {
      hide SysInv, U32, Run;
      var r := new Receiver.TcpReceiver(base, iss, rcvMss);
      var ack := r.SendEmptyAck(true);
      var s := new Sender.TcpSender(base, peerBase, 0, iss, irs, sndMss, ack.value.wnd, cwnd, ssthresh);
      sender, receiver, this.base := s, r, base;
      net, acks, written, closed := {}, {ack.value}, [], false;
      init, steps := EndToEnd.Sys(s.view, r.view, [], false, {}, {AckMsg(0, s.view.wnd)}), [];
      sys := EndToEnd.Sys(s.view, r.view, [], false, {}, {AckMsg(0, s.view.wnd)});
      new;
      InitKeeps(init);
      assert Run(init, []) == init by { SysInvMeans(init); RunStep(init, AckLeaves, []); }
    }

    /** One step of the run; the caller has done to the fields what it does. */
    ghost method Take(step: Step)
      requires Reached(init, steps, sys)
      modifies this`steps, this`sys
      ensures Reached(init, steps, sys) && steps == old(steps) + [step] && sys == Next(old(sys), step)
    {
      hide SysInv, Next, Init;
      ReachedNext(init, steps, sys, step);
      steps, sys := steps + [step], Next(sys, step);
    }

    // ---------- The sending application and its timers ----------

    /** The assertions of tcp_write() hold, since the handshake announced TCP_WND. */
    lemma TailsFit()
      requires Valid()
      ensures TailFits(sys.snd)
    {
      hide SysInv;
      TailAlwaysFits(init, steps);
    }

    /** tcp_write() */
    method WriteData(data: seq<byte>, copy: bool, more: bool, budget: nat) returns (err: Err)
      requires Valid() && |data| <= 0xffff
      modifies this, sender
      ensures Valid() && steps == old(steps) + [Step.WriteData(data, copy, more, budget)]
      ensures written == if err == ErrOk then old(written) + data else old(written)
    {
      hide *;
      Parts();
      TailsFit();
      TakesWrite(sys, data, copy, more, budget);
      err := sender.TcpWrite(data, copy, more, budget);
      Take(Step.WriteData(data, copy, more, budget));
      if err == ErrOk { written := written + data; }
      Whole();
    }

    /** tcp_close(), as far as it sends the FIN. */
    method Close(budget: nat) returns (err: Err)
      requires Valid()
      modifies this, sender
      ensures Valid() && steps == old(steps) + [Step.Close(budget)]
      ensures closed == (old(closed) || err == ErrOk)
    {
      hide *;
      Parts();
      sender.StateIs();
      TakesClose(sys, budget);
      err := ErrConn;
      if sender.state == Established {
        err := sender.TcpSendFin(budget);
        if err == ErrOk {
          sender.EnterState(FinWait1);
          closed := true;
        }
      }
      Take(Step.Close(budget));
      Whole();
    }

    /** tcp_output() */
    method Transmit(link: nat, ackAlloc: bool)
      requires Valid()
      modifies this, sender
      ensures Valid() && steps == old(steps) + [Step.Transmit(link, ackAlloc)]
    {
      hide *;
      Parts();
      SenderInReach(sys);
      TakesSending(sys, link, ackAlloc);
      SendingFields(sys, Output(sys.snd, link, ackAlloc), base);
      var segs, _ := sender.TcpOutput(link, ackAlloc);
      net := net + (set s | s in segs);
      Take(Step.Transmit(link, ackAlloc));
      Whole();
    }

    /** The retransmission timer */
    method Timeout(link: nat, ackAlloc: bool)
      requires Valid()
      modifies this, sender
      ensures Valid() && steps == old(steps) + [Step.Timeout(link, ackAlloc)]
    {
      hide *;
      Parts();
      RexmitRtoReach(sys);
      TakesSending(sys, link, ackAlloc);
      SendingFields(sys, Output(RexmitRto(sys.snd), link, ackAlloc), base);
      sender.RetransmissionTimeout();
      var segs, _ := sender.TcpOutput(link, ackAlloc);
      net := net + (set s | s in segs);
      Take(Step.Timeout(link, ackAlloc));
      Whole();
    }

    /** The acknowledgement m, as ack, may arrive: it was sent, and not more than 2^29 bytes ago. */
    ghost predicate AckComes(ack: Receiver.WireAck, m: AckMsg)
      reads this`sys
    {
      m in sys.acks && ack == WireAck(base, m) && sys.snd.lastack - m.ackno <= 0x2000_0000
    }

    /** tcp_input() for an acknowledgement. The peer sends no data, so all of them carry the number
        that is in snd_wl1; the link takes at least the first segment of the final tcp_output(). */
    method AckArrives(ack: Receiver.WireAck, link: nat, ackAlloc: bool, ghost m: AckMsg)
      requires Valid() && AckComes(ack, m)
      modifies this, sender
      ensures Valid() && steps == old(steps) + [Step.AckArrives(m, link, ackAlloc)]
    {
      hide *;
      Parts();
      AckInWindow(ack, m);
      OnAckIs(sys, m, link, ackAlloc);
      SendingFields(sys, Output(OnAck(sys.snd, m, ackAlloc), link + 1, ackAlloc), base);
      sender.StateIs();
      sender.ReceiveAck(sender.sndWl1, ack.ackno, ack.wnd, 0, ackAlloc, sys.snd.wl1, m.ackno);
      sender.StateIs();
      FinAcked(m, ack.ackno);
      sender.EnterState(NextState(sender.state, false, ack.ackno == sender.sndNxt));
      var segs, _ := sender.TcpOutput(link + 1, ackAlloc);
      net := net + (set s | s in segs);
      Take(Step.AckArrives(m, link, ackAlloc));
      Whole();
    }

    lemma AckInWindow(ack: Receiver.WireAck, m: AckMsg)
      requires Valid() && AckComes(ack, m)
      ensures m in sys.acks && ack.ackno == U32(base + m.ackno) && ack.wnd == m.wnd
      ensures Sender.InReach(sender.view) && -TWO_31 <= m.ackno - sys.snd.nxt < TWO_31
      ensures sender.AckInReach(sender.sndWl1, ack.ackno, sys.snd.wl1, m.ackno)
    {
      hide Sender.InReach, SysInv, U32;
      Parts();
      AcksInside(sys, m);
      AckNumbers(ack.ackno, m.ackno);
    }

    lemma AckNumbers(ackno: u32, n: int)
      requires sender.Valid() && sender.base == base && ackno == U32(base + n)
      requires sender.view.wl2 == sender.view.lastack && -0x2000_0000 <= n - sender.view.lastack <= 0x2000_0000
      ensures sender.AckInReach(sender.sndWl1, ackno, sender.view.wl1, n)
    {}

    /** The 32-bit test for the acknowledgement of everything sent. */
    lemma FinAcked(m: AckMsg, ackno: u32)
      requires sender.Valid() && sender.base == base && ackno == U32(base + m.ackno)
      requires -TWO_31 <= m.ackno - sender.view.nxt < TWO_31
      ensures ackno == sender.sndNxt <==> m.ackno == sender.view.nxt
    {
      CompareEqual(base, m.ackno, sender.view.nxt);
    }

    // ---------- The receiving application, its timers, and what arrives ----------

    /** The segment s, as seg, may arrive: it was sent, and not more than about 2^31 bytes ago. */
    ghost predicate DataComes(seg: WireSeg, s: Seg)
      reads this`sys
    {
      s in sys.net && seg == Wire(base, s) && sys.rcv.nxt - s.start <= 0x7ffd_0000
    }

    /** tcp_input() for a data segment; what has to be acknowledged at once is, at its end. */
    method DataArrives(seg: WireSeg, env: Env, ackAlloc: bool, ghost s: Seg)
      requires Valid() && DataComes(seg, s)
      modifies this, receiver
      ensures Valid() && Goes(old(steps), Step.DataArrives(s, env))
    {
      hide *;
      Parts();
      DataInReach(seg, s);
      TakesData(sys, s, env);
      var ack := receiver.TcpInput(seg, s, false, env);
      Record(ack, Input(sys.rcv, s, false, env).1);
      Take(Step.DataArrives(s, env));
      Whole();
      Pending(ackAlloc);
      GoesOn(old(steps), Step.DataArrives(s, env));
    }

    /** The run has gone on by one step, and perhaps by sending an acknowledgement. */
    ghost predicate Goes(before: seq<Step>, step: Step)
      reads this`steps
    {
      steps == before + [step] || steps == before + [step, AckLeaves]
    }

    lemma GoesOn(before: seq<Step>, step: Step)
      requires steps == before + [step] || steps == before + [step] + [AckLeaves]
      ensures Goes(before, step)
    {
      assert before + [step] + [AckLeaves] == before + [step, AckLeaves];
    }

    /** What the receiver has sent is on the wire. */
    method Record(ack: Option<Receiver.WireAck>, ghost m: Option<AckMsg>)
      requires acks == WireAcks(base, sys.acks) && ack == Receiver.WireAckOf(base, m)
      modifies this`acks
      ensures acks == WireAcks(base, if m.Some? then sys.acks + {m.value} else sys.acks)
    {
      hide WireAcks;
      if ack.Some? {
        WireAcksSent(base, sys.acks, m.value);
        acks := acks + {ack.value};
      }
    }

    lemma DataInReach(seg: WireSeg, s: Seg)
      requires Valid() && DataComes(seg, s)
      ensures receiver.EdgeInReach() && receiver.Arrives(seg, s) && s in sys.net
    {
      hide SysInv, U32, QueueOk;
      Parts();
      EdgeReached(sys);
      SegmentsNear(sys, s);
    }

    /** tcp_output() of the receiving end: only a pending acknowledgement leaves. */
    method Pending(alloc: bool)
      requires Valid()
      modifies this, receiver
      ensures Valid() && (steps == old(steps) || steps == old(steps) + [AckLeaves])
    {
      hide *;
      Parts();
      AnnounceIs(sys, alloc);
      Receiver.AckIsWire(base, sys.rcv);
      var ack := receiver.AckIfDue(alloc);
      if ack.Some? {
        Record(ack, Some(AckOf(sys.rcv)));
        Take(AckLeaves);
      }
      Whole();
    }

    /** tcp_fasttmr(): a delayed acknowledgement leaves. */
    method FastTimer(alloc: bool)
      requires Valid()
      modifies this, receiver
      ensures Valid() && (steps == old(steps) || steps == old(steps) + [AckLeaves])
    {
      hide *;
      Parts();
      AnnounceIs(sys, alloc);
      Receiver.AckIsWire(base, sys.rcv);
      var ack := receiver.DelayedAck(alloc);
      if ack.Some? {
        Record(ack, Some(AckOf(sys.rcv)));
        Take(AckLeaves);
      }
      Whole();
    }

    /** tcp_recved(): a large enough update of the window is sent at once. */
    method AppConsumes(len: u16, alloc: bool)
      requires Valid()
      modifies this, receiver
      ensures Valid() && Goes(old(steps), Step.AppConsumes(len))
    {
      hide *;
      Parts();
      EdgeIsInReach();
      TakesReceiver(sys, len, false);
      Receiver.AckIsWire(base, Recved(sys.rcv, len));
      var ack := receiver.TcpRecved(len, alloc);
      Take(Step.AppConsumes(len));
      if ack.Some? {
        AnnounceIs(sys, true);
        Record(ack, Some(AckOf(sys.rcv)));
        Take(AckLeaves);
      }
      Whole();
      GoesOn(old(steps), Step.AppConsumes(len));
    }

    lemma EdgeIsInReach()
      requires Valid()
      ensures receiver.EdgeInReach()
    {
      hide SysInv, U32, QueueOk;
      Parts();
      EdgeReached(sys);
    }

    /** tcp_process_refused_data() */
    method AppRetries(take: bool)
      requires Valid()
      modifies this, receiver
      ensures Valid() && steps == old(steps) + [Step.AppRetries(take)]
    {
      hide *;
      Parts();
      TakesReceiver(sys, 0, take);
      receiver.ProcessRefusedData(take);
      Take(Step.AppRetries(take));
      Whole();
    }

    /** tcp_slowtmr() drops what has waited too long out of sequence. */
    method OoseqExpires()
      requires Valid()
      modifies this, receiver
      ensures Valid() && steps == old(steps) + [Step.OoseqExpires]
    {
      hide *;
      Parts();
      TakesReceiver(sys, 0, false);
      receiver.DropQueued();
      Take(Step.OoseqExpires);
      Whole();
    }

    // ---------- What holds whatever calls were made ----------

    /** End-to-end safety of the program on its 32-bit fields. */
    lemma PrefixDelivered()
      requires Valid()
      ensures receiver.accepted <= written
      ensures receiver.eofs <= 1 && (receiver.eofs == 1 ==> closed && receiver.accepted == written)
    {
      hide SysInv;
      AcceptedIsPrefix(init, steps);
    }

    /** Every acknowledged byte was received, and the first byte not acknowledged is still queued,
        however often the sequence numbers have wrapped. */
    lemma NothingForgotten()
      requires Valid()
      ensures var n := sys.snd.lastack;
              && sender.lastack == U32(base + n) && n <= sys.rcv.nxt && receiver.rcvNxt == U32(base + sys.rcv.nxt)
              && written[..Min(n, |written|)] <= receiver.accepted + sys.rcv.Pending()
    {
      hide SysInv;
      NothingLost(init, steps);
    }
  }
}
