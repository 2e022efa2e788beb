/** Runs of the whole system that show something. */
module NotableRuns {
  // One that delivers, so that the whole-run theorems are not vacuous; one in which an assertion of
  // tcp_receive() about the window fails; one in which an assertion of tcp_write() fails; and one that
  // reaches FIN_WAIT_2 too early.

  import opened SequenceNumbers
  import opened TcpConfig
  import opened Reassembly
  import opened ReceiverSpec
  import opened ReceiveWindow
  import opened SendQueues
  import opened SendInvariants
  import opened LocalMss
  import opened EndToEnd

  // ---------- The system does deliver ----------

  lemma FirstWrite(st: SndState, x: byte)
    requires st.state == Established && st.unsent == [] && st.unacked == [] && st.oversize == 0
    requires st.buf == TCP_SND_BUF && st.queuelen == 0 && st.lbb == 0 && 1 <= st.mss <= TCP_MSS
    ensures TailFits(st)
    ensures var (r, err) := Write(st, [x], true, false, 2);
            && err == ErrOk && r.unsent == [TxSeg(0, [x], false, 1)] && r.unacked == [] && r.lastack == st.lastack
            && r.wnd == st.wnd && r.cwnd == st.cwnd && r.ackNow == st.ackNow
  {
    var s := TxSeg(0, [x], false, 1);
    assert [x][0..] == [x] && [x][..1] == [x] && [x][1..] == [];
    assert Segments(0, [x], MssLocal(st), 1) == [s] + Segments(1, [x][1..], MssLocal(st), 1);
  }

  lemma FirstTransmission(st: SndState, s: TxSeg)
    requires st.unsent == [s] && st.unacked == [] && s.start == st.lastack && s.data != [] && s.DataEnd() - st.lastack <= Wnd(st)
    ensures Output(st, 1, true).segs == [s.Seg()]
  {
    assert SendsNext(st);
    assert SendHead(st).unsent == [];
    assert OutputLoop(SendHead(st), 0) == Sent(SendHead(st), [], true);
  }

  lemma FirstArrival(st: RcvState, x: byte, env: Env)
    requires st.nxt == 0 && st.ooseq == [] && st.state == Established && st.refused == None && st.accepted == []
    requires st.wnd >= 1 && env.takeNew
    ensures Input(st, Seg(0, [x], false), false, env).0.accepted == [x]
  {
    var s := Seg(0, [x], false);
    assert TrimFront(0, s) == s && TrimToWindow(s, st.wnd) == s;
    assert InOrder(st, s).data == [x];
  }

  /** A byte is written, sent, and arrives. */
  function FirstByte(x: byte, env: Env): seq<Step> {
    [WriteData([x], true, false, 2), Transmit(1, true), DataArrives(Seg(0, [x], false), env)]
  }

  /** The runs are not vacuous: with any open window a byte that is written, sent and arrives is
      accepted by the other application. */
  lemma ByteArrives(init: Sys, x: byte, env: Env)
    requires Init(init) && init.snd.wnd >= 1 && init.rcv.wnd >= 1 && !init.snd.ackNow && env.takeNew
    ensures SysInv(init) && Run(init, FirstByte(x, env)).stream == Run(init, FirstByte(x, env)).rcv.accepted == [x]
  {
    hide Next, SysInv;
    InitKeeps(init);
    var a, b, c := WriteData([x], true, false, 2), Transmit(1, true), DataArrives(Seg(0, [x], false), env);
    var s1, s2, s3 := FirstStates(init, x, env);
    RunStep(init, a, [b, c]);
    RunStep(s1, b, [c]);
    RunStep(s2, c, []);
    RunStep(s3, c, []);
    assert [a] + [b, c] == FirstByte(x, env) && [b] + [c] == [b, c] && [c] + [] == [c];
  }

  lemma FirstStates(init: Sys, x: byte, env: Env) returns (s1: Sys, s2: Sys, s3: Sys)
    requires Init(init) && SysInv(init) && init.snd.wnd >= 1 && init.rcv.wnd >= 1 && !init.snd.ackNow && env.takeNew
    ensures SysInv(s1) && SysInv(s2) && SysInv(s3)
    ensures s1 == Next(init, WriteData([x], true, false, 2)) && s2 == Next(s1, Transmit(1, true))
    ensures s3 == Next(s2, DataArrives(Seg(0, [x], false), env))
    ensures s3.stream == s3.rcv.accepted == [x]
  {
    hide Write, Output, Input, SysInv;
    FirstWrite(init.snd, x);
    s1 := Next(init, WriteData([x], true, false, 2));
    NextKeeps(init, WriteData([x], true, false, 2));
    assert s1.stream == [x] by { assert [] + [x] == [x]; }
    FirstTransmission(s1.snd, TxSeg(0, [x], false, 1));
    SysInvMeans(s1);
    s2 := Next(s1, Transmit(1, true));
    NextKeeps(s1, Transmit(1, true));
    SysInvMeans(s2);
    FirstArrival(s2.rcv, x, env);
    s3 := Next(s2, DataArrives(Seg(0, [x], false), env));
    NextKeeps(s2, DataArrives(Seg(0, [x], false), env));
  }

  // ---------- A FIN beyond the window ----------

  /** Ten full segments' worth of bytes: all the receiver announced after the handshake. */
  const WINDOWFUL: nat := 5360

  /** The i-th of ten segments; the last one carries the FIN. */
  function Piece(data: seq<byte>, i: nat): Seg
    requires |data| == WINDOWFUL && i < 10
  {
    Seg(536 * i, data[536 * i..536 * (i + 1)], i == 9)
  }

  /** Segments from the i-th to the eighth arrive. */
  function Arrivals(data: seq<byte>, env: Env, i: nat): seq<Step>
    requires |data| == WINDOWFUL && i <= 8
    decreases 8 - i
  {
    if i == 8 then [] else [DataArrives(Piece(data, i), env)] + Arrivals(data, env, i + 1)
  }

  /** The stream is written and closed and ten segments are sent, of which the last one arrives first,
      then those from the first to the eighth. */
  function LastFirst(data: seq<byte>, env: Env): seq<Step>
    requires |data| == WINDOWFUL
  {
    [WriteData(data, true, false, 20)] + ([Close(0)] + ([Transmit(10, true)] +
      ([DataArrives(Piece(data, 9), env)] + Arrivals(data, env, 0))))
  }

  lemma {:induction false} FullSegments(start: int, data: seq<byte>, n: nat, i: nat)
    requires |data| == 536 * n && i < n
    ensures |Segments(start, data, 536, 1)| == n
    ensures Segments(start, data, 536, 1)[i] == TxSeg(start + 536 * i, data[536 * i..536 * (i + 1)], false, 1)
    decreases n
  {
    var s := TxSeg(start, data[..536], false, 1);
    assert Segments(start, data, 536, 1) == [s] + Segments(start + 536, data[536..], 536, 1);
    if n > 1 {
      FullSegments(start + 536, data[536..], n - 1, if i > 0 then i - 1 else 0);
      if i > 0 { assert data[536..][536 * (i - 1)..536 * i] == data[536 * i..536 * (i + 1)]; }
    } else {
      assert data[536..] == [];
    }
  }

  /** With a FIN queued nothing holds back what fits the window. */
  lemma {:induction false} SendsAll(st: SndState, link: nat, i: nat)
    requires st.finQueued && link >= |st.unsent| && i < |st.unsent|
    requires forall j :: 0 <= j < |st.unsent| ==> 0 <= st.unsent[j].DataEnd() - st.lastack <= Wnd(st)
    ensures |OutputLoop(st, link).segs| == |st.unsent| && OutputLoop(st, link).segs[i] == st.unsent[i].Seg()
    decreases |st.unsent|
  {
    var st1 := SendHead(st);
    assert SendsNext(st) && st1.unsent == st.unsent[1..];
    if |st.unsent| > 1 {
      SendsAll(st1, link - 1, if i > 0 then i - 1 else 0);
    } else {
      assert OutputLoop(st1, link - 1) == Sent(st1, [], true);
    }
  }

  /** The sender after the write and the close. */
  ghost predicate AllQueued(st: SndState, data: seq<byte>)
    requires |data| == WINDOWFUL
  {
    && st.finQueued && st.lastack == 0 && Wnd(st) == WINDOWFUL && !st.ackNow
    && |st.unsent| == 10 && (forall i :: 0 <= i < 10 ==> st.unsent[i].Seg() == Piece(data, i))
  }

  lemma WriteAll(st: SndState, data: seq<byte>)
    requires st.state == Established && st.unsent == [] && st.unacked == [] && st.oversize == 0 && st.lbb == 0
    requires st.buf == TCP_SND_BUF && st.queuelen == 0 && st.mss == 536 && st.wndMax == WINDOWFUL && |data| == WINDOWFUL
    ensures TailFits(st)
    ensures var (r, err) := Write(st, data, true, false, 20);
            && err == ErrOk && r.unsent == Segments(0, data, 536, 1)
            && r.lastack == st.lastack && r.wnd == st.wnd && r.cwnd == st.cwnd && r.ackNow == st.ackNow && r.state == st.state
  {
    assert data[0..] == data;
    FullSegments(0, data, 10, 9);
  }

  lemma TenSegments(data: seq<byte>)
    requires |data| == WINDOWFUL
    ensures |Segments(0, data, 536, 1)| == 10
    ensures forall i :: 0 <= i < 10 ==>
              Segments(0, data, 536, 1)[i] == TxSeg(536 * i, data[536 * i..536 * (i + 1)], false, 1)
  {
    FullSegments(0, data, 10, 9);
    forall i | 0 <= i < 10
      ensures Segments(0, data, 536, 1)[i] == TxSeg(536 * i, data[536 * i..536 * (i + 1)], false, 1)
    {
      FullSegments(0, data, 10, i);
    }
  }

  lemma CloseAll(st: SndState, data: seq<byte>)
    requires |data| == WINDOWFUL && |st.unsent| == 10
    requires forall i :: 0 <= i < 10 ==> st.unsent[i] == TxSeg(536 * i, data[536 * i..536 * (i + 1)], false, 1)
    requires st.lastack == 0 && Wnd(st) == WINDOWFUL && !st.ackNow
    ensures SendFin(st, 0).1 == ErrOk && AllQueued(SendFin(st, 0).0.(state := FinWait1), data)
  {}

  lemma SendAll(st: SndState, data: seq<byte>, i: nat)
    requires |data| == WINDOWFUL && AllQueued(st, data) && i < 10
    ensures Piece(data, i) in Output(st, 10, true).segs
  {
    forall j | 0 <= j < 10 ensures 0 <= st.unsent[j].DataEnd() - st.lastack <= Wnd(st) {
      assert st.unsent[j].Seg() == Piece(data, j);
    }
    SendsAll(st, 10, i);
  }

  /** The receiver holds the last segment and has taken i others in sequence. */
  ghost predicate Waiting(st: RcvState, data: seq<byte>, i: nat)
    requires |data| == WINDOWFUL
  {
    && i <= 9 && st.nxt == 536 * i && st.wnd == WINDOWFUL - 536 * i && st.ooseq == [Piece(data, 9)]
    && st.state == Established && st.refused == None
  }

  lemma LastArrives(st: RcvState, data: seq<byte>, env: Env)
    requires |data| == WINDOWFUL && env.segAlloc
    requires st.nxt == 0 && st.wnd == WINDOWFUL && st.ooseq == [] && st.state == Established && st.refused == None
    ensures Waiting(Input(st, Piece(data, 9), false, env).0, data, 0)
  {
    var s := Piece(data, 9);
    assert TrimFront(0, s) == s && Receive(st, s, env).st.ooseq == [s];
  }

  lemma NextArrives(st: RcvState, data: seq<byte>, env: Env, i: nat)
    requires |data| == WINDOWFUL && Waiting(st, data, i) && i < 8 && env.takeNew
    ensures Waiting(Input(st, Piece(data, i), false, env).0, data, i + 1)
  {
    var s, last := Piece(data, i), Piece(data, 9);
    assert TrimFront(st.nxt, s) == s && TrimToWindow(s, st.wnd) == s;
    assert Absorb(s, [last]) == (s, [last]);
    assert Drain(s.End(), [last]) == Drained(s.End(), [], false, [last]);
    assert InOrder(st, s).data == s.data + [];
  }

  lemma {:induction false} AllArrive(sys: Sys, data: seq<byte>, env: Env, i: nat)
    requires SysInv(sys) && |data| == WINDOWFUL && i <= 8 && Waiting(sys.rcv, data, i) && env.takeNew
    requires forall j :: 0 <= j < 9 ==> Piece(data, j) in sys.net
    ensures var s := Run(sys, Arrivals(data, env, i));
            Waiting(s.rcv, data, 8) && s.net == sys.net && s.stream == sys.stream && s.closed == sys.closed
    decreases 8 - i
  {
    hide SysInv, Input, Waiting;
    SysInvMeans(sys);
    RunStep(sys, DataArrives(Piece(data, i), env), []);
    if i < 8 {
      NextArrives(sys.rcv, data, env, i);
      RunStep(sys, DataArrives(Piece(data, i), env), Arrivals(data, env, i + 1));
      AllArrive(Next(sys, DataArrives(Piece(data, i), env)), data, env, i + 1);
    }
  }

  /** Then the ninth segment, on its way, makes the assertion "ooseq tcplen > rcv_wnd" fail; with
      assertions compiled out the window wraps around. */
  lemma NinthFails(st: RcvState, data: seq<byte>, env: Env)
    requires |data| == WINDOWFUL && Waiting(st, data, 8)
    ensures !AssertsHold(st, Piece(data, 8)) && Receive(st, Piece(data, 8), env).st.wnd == 0xffff
  {
    var s, last := Piece(data, 8), Piece(data, 9);
    assert TrimFront(st.nxt, s) == s && TrimToWindow(s, st.wnd) == s;
    assert Absorb(s, [last]) == (s, [last]);
    assert last.start == s.End() && last.Len() == 537;
    assert [last][1..] == [] && Drain(last.End(), []) == Drained(last.End(), [], false, []);
    assert Drain(s.End(), [last]).nxt == last.End();
  }

  lemma FourStates(init: Sys, data: seq<byte>, env: Env) returns (s1: Sys, s2: Sys, s3: Sys, s4: Sys)
    requires Init(init) && SysInv(init) && |data| == WINDOWFUL && env.segAlloc
    requires init.snd.wnd == init.snd.wndMax == WINDOWFUL <= init.snd.cwnd && init.snd.mss == 536 && !init.snd.ackNow
    requires init.rcv.wnd == TCP_WND
    ensures SysInv(s1) && SysInv(s2) && SysInv(s3) && SysInv(s4)
    ensures s1 == Next(init, WriteData(data, true, false, 20)) && s2 == Next(s1, Close(0))
    ensures s3 == Next(s2, Transmit(10, true)) && s4 == Next(s3, DataArrives(Piece(data, 9), env))
    ensures s4.stream == data && s4.closed && Waiting(s4.rcv, data, 0)
    ensures forall j :: 0 <= j < 10 ==> Piece(data, j) in s4.net
  {
    hide Write, SendFin, Output, Input, SysInv, Waiting, AllQueued, Piece;
    s1 := Next(init, WriteData(data, true, false, 20));
    NextKeeps(init, WriteData(data, true, false, 20));
    WriteAll(init.snd, data);
    TenSegments(data);
    assert s1.stream == data by { assert [] + data == data; }
    SysInvMeans(s1);
    s2 := Next(s1, Close(0));
    NextKeeps(s1, Close(0));
    CloseAll(s1.snd, data);
    SysInvMeans(s2);
    s3 := Next(s2, Transmit(10, true));
    NextKeeps(s2, Transmit(10, true));
    forall j | 0 <= j < 10 ensures Piece(data, j) in s3.net { SendAll(s2.snd, data, j); }
    SysInvMeans(s3);
    s4 := Next(s3, DataArrives(Piece(data, 9), env));
    NextKeeps(s3, DataArrives(Piece(data, 9), env));
    LastArrives(s3.rcv, data, env);
  }

  /** Between two ends that both follow the code, from the handshake on with the window TCP_WND: the
      sender may send a FIN one past the window, because tcp_output() does not count it; when that
      segment comes first it is stored whole; and when everything in front of it has come, the
      assertion about the window fails. */
  lemma FinBeyondWindow(init: Sys, data: seq<byte>, env: Env)
    requires Init(init) && |data| == WINDOWFUL && env.segAlloc && env.takeNew
    requires init.snd.wnd == init.snd.wndMax == WINDOWFUL <= init.snd.cwnd && init.snd.mss == 536 && !init.snd.ackNow
    requires init.rcv.wnd == TCP_WND
    ensures SysInv(init)
    ensures var s := Run(init, LastFirst(data, env));
            && Piece(data, 8) in s.net && Piece(data, 8).start == s.rcv.nxt && Piece(data, 8).End() <= s.rcv.Edge()
            && !AssertsHold(s.rcv, Piece(data, 8)) && Receive(s.rcv, Piece(data, 8), env).st.wnd == 0xffff
  {
    hide Next, SysInv, Init, AssertsHold, Receive;
    InitKeeps(init);
    var s1, s2, s3, s4 := FourStates(init, data, env);
    var arrivals := Arrivals(data, env, 0);
    RunStep(init, WriteData(data, true, false, 20), [Close(0)] + ([Transmit(10, true)] + ([DataArrives(Piece(data, 9), env)] + arrivals)));
    RunStep(s1, Close(0), [Transmit(10, true)] + ([DataArrives(Piece(data, 9), env)] + arrivals));
    RunStep(s2, Transmit(10, true), [DataArrives(Piece(data, 9), env)] + arrivals);
    RunStep(s3, DataArrives(Piece(data, 9), env), arrivals);
    AllArrive(s4, data, env, 0);
    NinthFails(Run(s4, arrivals).rcv, data, env);
  }

  // ---------- A handshake window of 0 or 1 ----------

  /** Two segments are written, the receiver opens its window to 1000 and says so. */
  function WindowOpens(data: seq<byte>): seq<Step> {
    [WriteData(data, true, false, 4)] + ([AppConsumes(0)] + ([AckLeaves] + [AckArrives(AckMsg(0, 1000), 0, true)]))
  }

  /** The write, with mss_local fallen back to mss. */
  lemma WriteTwo(st: SndState, data: seq<byte>)
    requires st.state == Established && st.unsent == [] && st.unacked == [] && st.oversize == 0 && st.lbb == 0
    requires st.buf == TCP_SND_BUF && st.queuelen == 0 && st.mss == 536 && st.wndMax < 2 && |data| == 1072
    ensures TailFits(st)
    ensures var (r, err) := Write(st, data, true, false, 4);
            && err == ErrOk && r.unsent == Segments(0, data, 536, 1) && r.oversize == 0 && r.unacked == []
            && r.lastack == st.lastack && r.nxt == st.nxt && r.wnd == st.wnd && r.wl1 == st.wl1 && r.wl2 == st.wl2
            && r.wndMax == st.wndMax && r.mss == 536 && r.ackNow == st.ackNow && r.state == st.state
            && r.dupacks == st.dupacks && r.timerOn == st.timerOn
  {
    assert data[0..] == data;
    FullSegments(0, data, 2, 1);
  }

  /** The receiver announces its window of 1000. */
  lemma OpensWindow(st: RcvState)
    requires st.nxt == 0 && st.wnd == 1000 && st.annEdge <= 1 && st.mss <= 536 && st.state == Established
    ensures AckOf(Recved(st, 0)) == AckMsg(0, 1000)
  {}

  /** The update makes mss_local 500; the first segment of 536 bytes leaves at most. */
  lemma UpdateShrinks(st: SndState, data: seq<byte>)
    requires |data| == 1072 && st.unsent == Segments(0, data, 536, 1) && st.oversize == 0 && st.unacked == [] && st.mss == 536
    requires st.lastack == st.nxt == st.wl2 == 0 && st.wnd < 2 && st.wndMax < 2 && st.cwnd >= 1 && st.ssthresh >= 1
    requires !st.ackNow
    ensures !TailFits(Output(OnAck(st, AckMsg(0, 1000), true), 1, true).st)
  {
    hide U16, GrowCwnd, DupAck;
    FullSegments(0, data, 2, 0);
    FullSegments(0, data, 2, 1);
    var r := OnAck(st, AckMsg(0, 1000), true);
    assert r.unsent == st.unsent && r.wnd == r.wndMax == 1000 && r.oversize == 0 && !r.ackNow && r.mss == 536;
    SecondStays(r);
  }

  lemma SecondStays(st: SndState)
    requires |st.unsent| == 2 && |st.unsent[0].data| == |st.unsent[1].data| == 536 && st.unsent[1].start == 536
    requires st.lastack == 0 && st.wnd == st.wndMax == 1000 && st.oversize == 0 && !st.ackNow && st.mss == 536
    ensures !TailFits(Output(st, 1, true).st)
  {
    if SendsNext(st) {
      var st1 := SendHead(st);
      assert st1.unsent == [st.unsent[1]] && !SendsNext(st1);
      assert OutputLoop(st1, 0) == Sent(st1, [], true);
      assert OutputLoop(st, 1) == Sent(st1, [st.unsent[0].Seg()], true);
    } else {
      assert OutputLoop(st, 1) == Sent(st, [], true);
    }
  }

  lemma SmallStates(init: Sys, data: seq<byte>) returns (s1: Sys, s2: Sys, s3: Sys, s4: Sys)
    requires Init(init) && SysInv(init) && |data| == 1072 && init.snd.wnd == init.snd.wndMax < 2
    requires init.snd.mss == init.rcv.mss == 536 && !init.snd.ackNow && init.rcv.wnd == 1000
    ensures SysInv(s1) && SysInv(s2) && SysInv(s3) && SysInv(s4)
    ensures s1 == Next(init, WriteData(data, true, false, 4)) && s2 == Next(s1, AppConsumes(0)) && s3 == Next(s2, AckLeaves)
    ensures s4 == Next(s3, AckArrives(AckMsg(0, 1000), 0, true))
    ensures TailFits(init.snd) && s1.stream == data && !TailFits(s4.snd)
  {
    hide Write, Output, OnAck, SysInv, Segments, TailFits, Recved, AckOf;
    WriteTwo(init.snd, data);
    s1 := Next(init, WriteData(data, true, false, 4));
    NextKeeps(init, WriteData(data, true, false, 4));
    assert s1.stream == data by { assert [] + data == data; }
    SysInvMeans(s1);
    s2 := Next(s1, AppConsumes(0));
    NextKeeps(s1, AppConsumes(0));
    OpensWindow(s1.rcv);
    s3 := Next(s2, AckLeaves);
    NextKeeps(s2, AckLeaves);
    assert AckMsg(0, 1000) in s3.acks && s3.snd == s1.snd;
    s4 := Next(s3, AckArrives(AckMsg(0, 1000), 0, true));
    NextKeeps(s3, AckArrives(AckMsg(0, 1000), 0, true));
    UpdateShrinks(s3.snd, data);
  }

  /** When the handshake announced a window of 0 or 1, full segments are queued, and when the peer then
      opens its window to less than two segments, the next tcp_write() fails its assertion "mss_local
      is too small". */
  lemma TailMayNotFit(init: Sys, data: seq<byte>)
    requires Init(init) && |data| == 1072 && init.snd.wnd == init.snd.wndMax < 2
    requires init.snd.mss == init.rcv.mss == 536 && !init.snd.ackNow && init.rcv.wnd == 1000
    ensures SysInv(init) && TailFits(init.snd) && !TailFits(Run(init, WindowOpens(data)).snd)
  {
    hide Next, SysInv, Init, TailFits;
    InitKeeps(init);
    var s1, s2, s3, s4 := SmallStates(init, data);
    var last := AckArrives(AckMsg(0, 1000), 0, true);
    RunStep(init, WriteData(data, true, false, 4), [AppConsumes(0)] + ([AckLeaves] + [last]));
    RunStep(s1, AppConsumes(0), [AckLeaves] + [last]);
    RunStep(s2, AckLeaves, [last]);
    RunStep(s3, last, []);
    RunStep(s4, last, []);
    assert [last] + [] == [last];
  }

  // ---------- FIN_WAIT_2 without a FIN ----------

  /** A byte is written and the connection closed while the window is closed; an acknowledgement arrives. */
  function ClosedWindow(x: byte): seq<Step> {
    [WriteData([x], true, false, 2)] + ([Close(0)] + ([Transmit(1, true)] + [AckArrives(AckMsg(0, 0), 0, true)]))
  }

  /** The window is closed and the first unsent segment has data. */
  predicate Waits(st: SndState) {
    && st.unsent != [] && st.unsent[0].start == st.lastack == st.nxt == st.wl2 && st.unsent[0].data != []
    && st.wnd == 0 && !st.ackNow && st.unacked == [] && st.cwnd >= 1 && st.ssthresh >= 1
  }

  lemma WaitsOn(st: SndState, link: nat)
    requires Waits(st)
    ensures var r := Output(st, link, true);
            Waits(r.st) && r.segs == [] && r.st.state == st.state && r.st.lastack == st.lastack
  {
    assert OutputLoop(st, link) == Sent(st, [], true);
  }

  lemma RepeatedAck(st: SndState, m: AckMsg)
    requires Waits(st) && m.ackno == st.lastack && m.wnd == 0
    ensures Waits(OnAck(st, m, true)) && OnAck(st, m, true).lastack == st.lastack
  {
    hide OldAck, NextState, Waits;
    assert UpdateWnd(st, st.wl1, m.ackno, m.wnd) == st by { SameWindow(st, m); }
    OldWaits(st);
    NothingDropped(OldAck(st, m.ackno, true), m.ackno);
    WaitsMeans(st);
    StateWaits(OldAck(st, m.ackno, true), NextState(st.state, false, true));
    StateWaits(OldAck(st, m.ackno, true), NextState(st.state, false, false));
  }

  lemma SameWindow(st: SndState, m: AckMsg)
    requires Waits(st) && m.ackno == st.lastack && m.wnd == 0
    ensures UpdateWnd(st, st.wl1, m.ackno, m.wnd) == st
  {}

  lemma WaitsMeans(st: SndState)
    requires Waits(st)
    ensures st.cwnd >= 1 && st.ssthresh >= 1 && st.nxt == st.lastack
  {}

  lemma OldWaits(st: SndState)
    requires Waits(st)
    ensures var r := OldAck(st, st.lastack, true); Waits(r) && r.lastack == st.lastack && r.state == st.state
  {
    hide Rexmit, U16;
  }

  lemma NothingDropped(st: SndState, ackno: int)
    requires Waits(st) && ackno == st.lastack
    ensures DropUnsent(st, ackno) == st
  {
    assert DropAcked(st.unsent, ackno, st.acked) == Dropped(st.unsent, st.acked, 0);
  }

  lemma StateWaits(st: SndState, state: State)
    requires Waits(st)
    ensures Waits(st.(state := state))
  {}

  lemma CloseWaits(st: SndState)
    requires Waits(st) && |st.unsent| == 1 && !st.unsent[0].fin
    ensures SendFin(st, 0) == (FinMerged(st), ErrOk) && Waits(FinMerged(st))
  {}

  /** The third clause of tcp_process() for FIN_WAIT_1 tests only that the acknowledgement number is snd_nxt:
      when the FIN could not be sent yet, any acknowledgement of what was sent moves on to FIN_WAIT_2, with
      data and FIN still unsent. */
  lemma FinNeverSent(init: Sys, x: byte)
    requires Init(init) && init.snd.wnd == 0 && !init.snd.ackNow
    ensures SysInv(init)
    ensures var s := Run(init, ClosedWindow(x));
            s.stream == [x] && s.closed && s.snd.state == FinWait2 && s.snd.lastack == 0 && s.net == {}
  {
    hide Next, SysInv, Init, Waits;
    InitKeeps(init);
    var last := AckArrives(AckMsg(0, 0), 0, true);
    var s1, s2, s3, s4 := WaitingStates(init, x);
    RunStep(init, WriteData([x], true, false, 2), [Close(0)] + ([Transmit(1, true)] + [last]));
    RunStep(s1, Close(0), [Transmit(1, true)] + [last]);
    RunStep(s2, Transmit(1, true), [last]);
    RunStep(s3, last, []);
    RunStep(s4, last, []);
    assert [last] + [] == [last];
  }

  lemma WaitingStates(init: Sys, x: byte) returns (s1: Sys, s2: Sys, s3: Sys, s4: Sys)
    requires Init(init) && SysInv(init) && init.snd.wnd == 0 && !init.snd.ackNow
    ensures SysInv(s1) && SysInv(s2) && SysInv(s3) && SysInv(s4)
    ensures s1 == Next(init, WriteData([x], true, false, 2)) && s2 == Next(s1, Close(0)) && s3 == Next(s2, Transmit(1, true))
    ensures s4 == Next(s3, AckArrives(AckMsg(0, 0), 0, true))
    ensures s4.stream == [x] && s4.closed && s4.snd.state == FinWait2 && s4.snd.lastack == 0 && s4.net == {}
  {
    hide Write, SendFin, Output, OnAck, SysInv;
    FirstWrite(init.snd, x);
    WriteFields(init.snd, [x], true, false, 2);
    WriteWindows(init.snd, x);
    s1 := Next(init, WriteData([x], true, false, 2));
    NextKeeps(init, WriteData([x], true, false, 2));
    assert s1.stream == [x] by { assert [] + [x] == [x]; }
    CloseWaits(s1.snd);
    s2 := Next(s1, Close(0));
    NextKeeps(s1, Close(0));
    WaitsOn(s2.snd, 1);
    s3 := Next(s2, Transmit(1, true));
    NextKeeps(s2, Transmit(1, true));
    s4 := Next(s3, AckArrives(AckMsg(0, 0), 0, true));
    NextKeeps(s3, AckArrives(AckMsg(0, 0), 0, true));
    RepeatedAck(s3.snd, AckMsg(0, 0));
    WaitsOn(OnAck(s3.snd, AckMsg(0, 0), true), 1);
    FinWait2Means(s3, AckMsg(0, 0), 0, true);
  }

  lemma WriteWindows(st: SndState, x: byte)
    requires st.state == Established && TailFits(st) && st.cwnd >= 1 && st.ssthresh >= 1
    ensures var r := Write(st, [x], true, false, 2).0; r.cwnd >= 1 && r.ssthresh >= 1
  {
    hide PlanWrite, PlanAllocs, PlanPbufs, UnsentAfter, OversizeAfter;
  }
}
