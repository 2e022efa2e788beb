/** The receive window (section 4.2.2.16 of RFC 1122). */
module ReceiveWindow {
  // What tcp_receive(), tcp_recved() and the announcements do to its right edge, and when the window
  // assertions of tcp_receive() hold.

  import opened SequenceNumbers
  import opened TcpConfig
  import opened Reassembly
  import opened ReceiverSpec

  /** The window is at most TCP_WND, covers the queue, and the announced right edge is at most
      what would be announced now, which is at most the real edge. */
  ghost predicate WndInv(st: RcvState) {
    && st.wnd <= TCP_WND
    && st.annEdge <= st.nxt + st.annWnd <= st.Edge()
    && AllEndBy(st.ooseq, st.Edge())
  }

  /** What is left of it when a peer sends past the window: announcements still never shrink. */
  predicate AnnOk(st: RcvState) { st.annEdge <= st.nxt + st.annWnd }

  lemma AnnWndRange(nxt: int, wnd: u16, annEdge: int, mss: u16)
    requires annEdge <= nxt + 0xffff
    ensures annEdge <= nxt + AnnWnd(nxt, wnd, annEdge, mss)
    ensures annEdge <= nxt + wnd ==> AnnWnd(nxt, wnd, annEdge, mss) <= wnd
  {}

  // ---------- The assertion "new_rcv_ann_wnd <= 0xffff" ----------

  /** It holds in one evaluation of tcp_update_rcv_ann_wnd(). */
  predicate AnnFits(nxt: int, wnd: u16, annEdge: int, mss: u16) {
    nxt + wnd < annEdge + Min(TCP_WND / 2, mss) && nxt <= annEdge ==> annEdge - nxt <= 0xffff
  }

  /** It holds in every round of the drain loop. */
  predicate DrainAnnFits(nxt: int, wnd: u16, annEdge: int, mss: u16, q: seq<Seg>)
    decreases |q|
  {
    q != [] && q[0].start == nxt ==>
      var w := U16(wnd - q[0].Len());
      AnnFits(q[0].End(), w, annEdge, mss) && DrainAnnFits(q[0].End(), w, annEdge, mss, q[1..])
  }

  /** It holds wherever it is evaluated while s is taken in sequence. */
  predicate AnnAssertsHold(st: RcvState, s: Seg) {
    var (t, rest) := Absorb(TrimToWindow(s, st.wnd), st.ooseq);
    var w := U16(st.wnd - t.Len());
    AnnFits(t.End(), w, st.annEdge, st.mss) && DrainAnnFits(t.End(), w, st.annEdge, st.mss, rest)
  }

  lemma {:induction false} DrainAnnounces(nxt: int, wnd: u16, annEdge: int, mss: u16, q: seq<Seg>)
    requires annEdge <= nxt + 0xffff
    ensures DrainAnnFits(nxt, wnd, annEdge, mss, q)
    decreases |q|
  {
    if q != [] && q[0].start == nxt {
      DrainAnnounces(q[0].End(), U16(wnd - q[0].Len()), annEdge, mss, q[1..]);
    }
  }

  lemma {:induction false} AbsorbCoveredStart(s: Seg, q: seq<Seg>)
    ensures AbsorbCovered(s, q).0.start == s.start
    decreases |q|
  {
    if q != [] && s.End() >= q[0].DataEnd() { AbsorbCoveredStart(s.(fin := s.fin || q[0].fin), q[1..]); }
  }

  /** The announced window always fits 16 bits: at every point of tcp_receive() where it is computed,
      whatever arrives in sequence, and in tcp_recved(); so the value assigned is not truncated. */
  lemma AnnouncementFits16Bits(st: RcvState, s: Seg, len: u16)
    requires AnnOk(st)
    ensures s.start == st.nxt ==> AnnAssertsHold(st, s)
    ensures AnnFits(st.nxt, Recved(st, len).wnd, st.annEdge, st.mss)
  {
    if s.start == st.nxt {
      AbsorbCoveredStart(TrimToWindow(s, st.wnd), st.ooseq);
      var (t, rest) := Absorb(TrimToWindow(s, st.wnd), st.ooseq);
      DrainAnnounces(t.End(), U16(st.wnd - t.Len()), st.annEdge, st.mss, rest);
    }
  }

  // ---------- The assertions about the window ----------

  /** The assertions "ooseq tcplen > rcv_wnd" of the drain loop. */
  predicate DrainFits(nxt: int, wnd: int, q: seq<Seg>)
    decreases |q|
  {
    q != [] && q[0].start == nxt ==> q[0].Len() <= wnd && DrainFits(q[0].End(), wnd - q[0].Len(), q[1..])
  }

  /** All window assertions executed while s is taken in sequence. */
  predicate AssertsHold(st: RcvState, s: Seg) {
    var (t, rest) := Absorb(TrimToWindow(s, st.wnd), st.ooseq);
    t.Len() <= st.wnd && DrainFits(t.End(), st.wnd - t.Len(), rest)
  }

  lemma InOrderPartsFit(st: RcvState, s: Seg, stream: seq<byte>, closed: bool)
    requires QueueOk(st.nxt, st.ooseq) && AllTrue(st.ooseq, stream, closed)
    requires True(s, stream, closed) && s.start == st.nxt && s.Len() >= 1 && st.wnd >= 1
    requires AllEndBy(st.ooseq, st.Edge())
    ensures var (t, rest) := Absorb(TrimToWindow(s, st.wnd), st.ooseq);
            t.start == st.nxt && t.End() <= st.Edge() && AllEndBy(rest, st.Edge())
  {
    var w := TrimToWindow(s, st.wnd);
    TrimToWindowTrue(s, st.wnd, stream, closed);
    AbsorbOk(st.nxt, w, st.ooseq);
    AbsorbKeeps(st.nxt, w, st.ooseq, stream, closed, st.Edge());
  }

  lemma TakenWithinWindow(st: RcvState, r: RcvState)
    requires WndInv(st) && st.nxt <= r.nxt <= st.Edge()
    requires r.wnd == U16(st.wnd - (r.nxt - st.nxt)) && r.annEdge == st.annEdge
    requires r.annWnd == AnnWnd(r.nxt, r.wnd, st.annEdge, st.mss)
    requires AllEndBy(r.ooseq, st.Edge())
    ensures WndInv(r) && r.Edge() == st.Edge()
  {
    AnnWndRange(r.nxt, r.wnd, st.annEdge, st.mss);
  }

  /** An in-sequence segment leaves the right edge where it is. */
  lemma InOrderKeepsEdge(st: RcvState, s: Seg, stream: seq<byte>, closed: bool)
    requires QueueOk(st.nxt, st.ooseq) && AllTrue(st.ooseq, stream, closed)
    requires True(s, stream, closed) && s.start == st.nxt && s.Len() >= 1 && st.wnd >= 1
    requires WndInv(st)
    ensures var o := InOrder(st, s);
            WndInv(o.st) && o.st.Edge() == st.Edge() && o.st.annEdge == st.annEdge
  {
    InOrderPartsFit(st, s, stream, closed);
    var (t, rest) := Absorb(TrimToWindow(s, st.wnd), st.ooseq);
    DrainBound(t.End(), rest, st.Edge());
    DrainGrows(t.End(), rest);
    TakenWithinWindow(st, InOrder(st, s).st);
  }

  lemma {:induction false} DrainGrows(nxt: int, q: seq<Seg>)
    ensures Drain(nxt, q).nxt >= nxt
    decreases |q|
  {
    if q != [] && q[0].start == nxt { DrainGrows(q[0].End(), q[1..]); }
  }

  /** tcp_receive() leaves rcv_nxt + rcv_wnd unchanged for every segment that ends, FIN included,
      at or before it, and for every one that starts at or before rcv_nxt, which is trimmed. */
  lemma ReceiveKeepsEdge(st: RcvState, seg: Seg, env: Env, stream: seq<byte>, closed: bool)
    requires QueueOk(st.nxt, st.ooseq) && AllTrue(st.ooseq, stream, closed)
    requires True(seg, stream, closed) && WndInv(st)
    requires seg.End() <= st.Edge() || seg.start <= st.nxt
    ensures var o := Receive(st, seg, env);
            WndInv(o.st) && o.st.Edge() == st.Edge() && o.st.annEdge >= st.annEdge
  {
    if seg.Len() > 0 && st.state.AcceptsText() {
      var s := TrimFront(st.nxt, seg);
      TrimFrontTrue(st.nxt, seg, stream, closed);
      if st.nxt <= s.start <= st.nxt + st.wnd - 1 {
        if s.start == st.nxt {
          InOrderKeepsEdge(st, s, stream, closed);
        } else if env.segAlloc && st.ooseq != [] {
          PlaceTrue(st.nxt, st.ooseq, s, st.Edge(), stream, closed, st.Edge());
        }
      }
    }
  }

  /** tcp_process() and the callbacks leave the window alone but for the FIN correction. */
  lemma CallbackFrame(st: RcvState, seg: Seg, finAcked: bool, env: Env)
    ensures var o, p := Receive(st, seg, env), Process(st, seg, finAcked, env);
            var r := Deliver(p.st, p.data, p.fin, env.takeNew);
            && r.nxt == o.st.nxt && r.annWnd == o.st.annWnd && r.annEdge == o.st.annEdge && p.ack == o.ack
            && (r.wnd == o.st.wnd || (o.st.wnd != TCP_WND && r.wnd == U16(o.st.wnd + 1)))
            && (r.ooseq == o.st.ooseq || r.ooseq == [])
  {}

  lemma WndInvGrows(st: RcvState, r: RcvState)
    requires WndInv(st)
    requires r.nxt == st.nxt && r.annWnd == st.annWnd && r.annEdge == st.annEdge
    requires r.wnd == st.wnd || (st.wnd != TCP_WND && r.wnd == U16(st.wnd + 1))
    requires r.ooseq == st.ooseq || r.ooseq == []
    ensures WndInv(r) && r.Edge() >= st.Edge()
  {
    EndByGrows(st.ooseq, st.Edge(), r.Edge());
  }

  /** Over a whole tcp_input() the right edge and the announced edge only move right. */
  lemma InputKeepsEdge(st: RcvState, seg: Seg, finAcked: bool, env: Env, stream: seq<byte>, closed: bool)
    requires QueueOk(st.nxt, st.ooseq) && AllTrue(st.ooseq, stream, closed)
    requires True(seg, stream, closed) && WndInv(st) && (seg.End() <= st.Edge() || seg.start <= st.nxt)
    ensures var r := Input(st, seg, finAcked, env).0;
            WndInv(r) && r.Edge() >= st.Edge() && r.annEdge >= st.annEdge
  {
    hide Receive, Process, Deliver, Input, Reoffer, QueueOk, AllTrue, True, AllEndBy, U16;
    var st1 := Reoffer(st, env.takeRefused);
    InputFrame(st, seg, finAcked, env);
    WndInvGrows(st, st1);
    if st1.refused.None? || seg.Len() == 0 {
      ReceiveKeepsEdge(st1, seg, env, stream, closed);
      CallbackFrame(st1, seg, finAcked, env);
      WndInvGrows(Receive(st1, seg, env).st, Input(st, seg, finAcked, env).0);
    }
  }

  /** What tcp_input() does around tcp_process(). */
  lemma InputFrame(st: RcvState, seg: Seg, finAcked: bool, env: Env)
    ensures var st1 := Reoffer(st, env.takeRefused);
            && st1.nxt == st.nxt && st1.annWnd == st.annWnd && st1.annEdge == st.annEdge && st1.ooseq == st.ooseq
            && (st1.wnd == st.wnd || (st.wnd != TCP_WND && st1.wnd == U16(st.wnd + 1)))
            && Input(st, seg, finAcked, env).0 ==
               if st1.refused.Some? && seg.Len() > 0 then st1
               else
                 var o := Process(st1, seg, finAcked, env);
                 Deliver(o.st, o.data, o.fin, env.takeNew)
  {}

  /** tcp_recved() moves the right edge to the left exactly when the 16-bit sum wraps around,
      unless it wraps to 0 after a passive close, which the code repairs. */
  lemma RecvedKeepsEdge(st: RcvState, len: u16)
    requires WndInv(st)
    ensures WndInv(Recved(st, len)) && Recved(st, len).Edge() >= st.Edge() <==>
            st.wnd + len < TWO_16 || (st.wnd + len == TWO_16 && (st.state.CloseWait? || st.state.LastAck?))
  {
    var r := Recved(st, len);
    if r.wnd >= st.wnd {
      AnnWndRange(r.nxt, r.wnd, st.annEdge, st.mss);
      EndByGrows(st.ooseq, st.Edge(), r.Edge());
    }
  }

  /** Sending a segment never moves the announced edge left, nor beyond the real one. */
  lemma AnnounceKeeps(st: RcvState)
    requires WndInv(st)
    ensures WndInv(Announce(st))
    ensures st.annEdge <= Announce(st).annEdge == AckOf(st).Edge() <= st.Edge()
  {}

  lemma InOrderKeepsAnn(st: RcvState, s: Seg)
    requires AnnOk(st) && s.start == st.nxt
    ensures AnnOk(InOrder(st, s).st)
  {
    var o := InOrder(st, s);
    AbsorbCoveredStart(TrimToWindow(s, st.wnd), st.ooseq);
    var (t, rest) := Absorb(TrimToWindow(s, st.wnd), st.ooseq);
    DrainGrows(t.End(), rest);
    AnnWndRange(o.st.nxt, o.st.wnd, st.annEdge, st.mss);
  }

  lemma ReceiveKeepsAnn(st: RcvState, seg: Seg, env: Env)
    requires AnnOk(st)
    ensures var o := Receive(st, seg, env);
            && AnnOk(o.st)
            && (o.ack.None? ==> o.st.annEdge == st.annEdge)
            && (o.ack.Some? ==> o.st.nxt == st.nxt == o.ack.value.ackno && o.st.annEdge == o.ack.value.Edge() >= st.annEdge)
  {
    var s := TrimFront(st.nxt, seg);
    if seg.Len() > 0 && st.state.AcceptsText() && s.start == st.nxt <= st.nxt + st.wnd - 1 {
      InOrderKeepsAnn(st, s);
    }
  }

  /** The announcements never shrink even for a peer that sends past the window. */
  lemma InputKeepsAnn(st: RcvState, seg: Seg, finAcked: bool, env: Env, stream: seq<byte>, closed: bool)
    requires RcvInv(st, stream, closed) && st.state.Active() && True(seg, stream, closed)
    requires AnnOk(st)
    ensures var (r, ack) := Input(st, seg, finAcked, env);
            && AnnOk(r) && r.nxt >= st.nxt
            && (ack.None? ==> r.annEdge == st.annEdge)
            && (ack.Some? ==> ack.value.ackno == st.nxt && r.annEdge == ack.value.Edge() >= st.annEdge)
  {
    ReofferKeeps(st, env.takeRefused, stream, closed);
    var st1 := Reoffer(st, env.takeRefused);
    if st1.refused.None? || seg.Len() == 0 {
      CallbackFrame(st1, seg, finAcked, env);
      ReceiveDelivers(st1, seg, env, stream, closed);
      ReceiveKeepsAnn(st1, seg, env);
    }
  }

  // ---------- When the window assertions can fail ----------

  /** The arriving segment is stored with its whole length: memory was there, and it did not go
      behind a non-empty queue (where it is cut) nor was it dropped. */
  predicate StoredUncut(q: seq<Seg>, s: Seg, alloc: bool) {
    alloc && (q == [] || (s.start <= q[|q| - 1].start && !Ditched(q, s)))
  }

  lemma {:induction false} InsertOverruns(b: int, c: Seg, q: seq<Seg>, edge: int)
    requires QueueOk(b, q) && AllEndBy(q, edge) && c.End() > edge
    ensures Insert(c, q)[0].End() > edge
    decreases |q|
  {
    if !c.fin && q != [] {
      InsertStep(c, q);
      if !q[0].fin { InsertOverruns(q[0].DataEnd() - 1, c, q[1..], edge); }
    }
  }

  lemma {:induction false} PlaceOverruns(b: int, q: seq<Seg>, s: Seg, edge: int)
    requires QueueOk(b, q) && q != [] && s.Len() >= 1
    requires AllEndBy(q, edge) && s.End() > edge
    requires s.start <= q[|q| - 1].start && !Ditched(q, s)
    ensures !AllEndBy(PlaceIn(q, s, edge), edge)
    decreases |q|
  {
    if s.start <= q[0].start {
      InsertOverruns(b, s, q, edge);
    } else if s.start < q[1].start {
      InsertOverruns(q[0].DataEnd() - 1, s, q[1..], edge);
      assert PlaceIn(q, s, edge)[1..] == Insert(s, q[1..]);
    } else {
      PlaceOverruns(q[0].DataEnd() - 1, q[1..], s, edge);
      assert PlaceIn(q, s, edge)[1..] == PlaceIn(q[1..], s, edge);
    }
  }

  lemma {:induction false} PlaceWithin(b: int, q: seq<Seg>, s: Seg, edge: int)
    requires QueueOk(b, q) && q != [] && s.Len() >= 1
    requires AllEndBy(q, edge) && s.start > q[|q| - 1].start && s.start <= edge
    ensures AllEndBy(PlaceIn(q, s, edge), edge)
    decreases |q|
  {
    LastAbove(b, q);
    if |q| > 1 {
      LastAbove(q[0].DataEnd() - 1, q[1..]);
      PlaceWithin(q[0].DataEnd() - 1, q[1..], s, edge);
      assert PlaceIn(q, s, edge)[1..] == PlaceIn(q[1..], s, edge);
    } else {
      assert PlaceIn(q, s, edge)[1..] == if q[0].fin then [] else [ClipToEdge(s, edge)];
    }
  }

  /** Queueing an out-of-sequence segment keeps the queue within the window if and only if the
      segment ends within it, FIN included, or is not stored uncut. */
  lemma QueueWithinWindow(st: RcvState, s: Seg, alloc: bool, stream: seq<byte>, closed: bool)
    requires QueueOk(st.nxt, st.ooseq) && AllTrue(st.ooseq, stream, closed) && True(s, stream, closed)
    requires AllEndBy(st.ooseq, st.Edge()) && s.Len() >= 1
    requires st.nxt < s.start < st.Edge()
    ensures AllEndBy(Place(st.ooseq, s, st.Edge(), alloc), st.Edge()) <==>
            s.End() <= st.Edge() || !StoredUncut(st.ooseq, s, alloc)
  {
    var q, edge := st.ooseq, st.Edge();
    if alloc && q == [] {
      assert Place(q, s, edge, alloc)[0] == s;
    } else if alloc {
      if s.End() <= edge {
        PlaceTrue(st.nxt, q, s, edge, stream, closed, edge);
      } else if s.start > q[|q| - 1].start {
        PlaceWithin(st.nxt, q, s, edge);
      } else if Ditched(q, s) {
        PlaceDitched(q, s, edge);
      } else {
        PlaceOverruns(st.nxt, q, s, edge);
      }
    }
  }

  // ---------- Exactly when the window assertions hold ----------

  /** What of the queue starts inside the window, the edge included, ends inside it. */
  ghost predicate StartedFit(q: seq<Seg>, edge: int)
    decreases |q|
  {
    q != [] ==> (q[0].start <= edge ==> q[0].End() <= edge) && StartedFit(q[1..], edge)
  }

  /** Everything in the queue was inside the window when it was stored, and while the edge does not
      move left this is the same as that all of it ends inside the window. */
  lemma {:induction false} StartedIsAll(b: int, q: seq<Seg>, edge: int)
    requires QueueOk(b, q) && q != [] && q[|q| - 1].start <= edge
    ensures StartedFit(q, edge) <==> AllEndBy(q, edge)
    decreases |q|
  {
    if |q| > 1 {
      assert q[1..][|q| - 2] == q[|q| - 1];
      StartedIsAll(q[0].DataEnd() - 1, q[1..], edge);
      LastAbove(b, q);
    }
  }

  /** A genuine segment that is the next one expected. */
  ghost predicate InSequence(st: RcvState, s: Seg, stream: seq<byte>, closed: bool) {
    True(s, stream, closed) && s.start == st.nxt && s.Len() >= 1
  }

  lemma {:induction false} DrainFitsStarted(nxt: int, wnd: int, q: seq<Seg>)
    requires wnd >= 0 && StartedFit(q, nxt + wnd)
    ensures DrainFits(nxt, wnd, q)
    decreases |q|
  {
    if q != [] && q[0].start == nxt { DrainFitsStarted(q[0].End(), wnd - q[0].Len(), q[1..]); }
  }

  lemma {:induction false} AbsorbStarted(b: int, s: Seg, q: seq<Seg>, edge: int, stream: seq<byte>, closed: bool)
    requires QueueOk(b, q) && (s.fin ==> q == []) && True(s, stream, closed) && AllTrue(q, stream, closed)
    requires s.End() <= edge && StartedFit(q, edge)
    ensures var (t, rest) := AbsorbCovered(s, q);
            t.start == s.start && t.data == s.data && t.End() <= edge && StartedFit(rest, edge)
    decreases |q|
  {
    if q != [] && s.End() >= q[0].DataEnd() {
      AbsorbStarted(q[0].DataEnd() - 1, s.(fin := s.fin || q[0].fin), q[1..], edge, stream, closed);
    }
  }

  lemma StartedSuffices(st: RcvState, s: Seg, stream: seq<byte>, closed: bool)
    requires QueueOk(st.nxt, st.ooseq) && AllTrue(st.ooseq, stream, closed) && st.wnd >= 1
    requires InSequence(st, s, stream, closed) && StartedFit(st.ooseq, st.Edge())
    ensures AssertsHold(st, s)
  {
    hide True, AllTrue, QueueOk, StartedFit, AbsorbCovered, DrainFits;
    var w := TrimToWindow(s, st.wnd);
    TrimToWindowTrue(s, st.wnd, stream, closed);
    StartedNone(st.Edge());
    if !w.fin { AbsorbStarted(st.nxt, w, st.ooseq, st.Edge(), stream, closed); }
    var (t, rest) := Absorb(w, st.ooseq);
    DrainFitsStarted(t.End(), st.wnd - t.Len(), rest);
  }

  lemma StartedNone(edge: int)
    ensures StartedFit([], edge)
  {}

  /** A queued segment that starts inside the window and ends outside it. */
  lemma {:induction false} Overrunning(b: int, q: seq<Seg>, edge: int) returns (k: nat)
    requires QueueOk(b, q) && !StartedFit(q, edge)
    ensures k < |q| && q[k].start <= edge < q[k].End() && b < q[k].start
    decreases |q|
  {
    if q[0].start <= edge < q[0].End() {
      k := 0;
    } else {
      k := Overrunning(q[0].DataEnd() - 1, q[1..], edge);
      k := k + 1;
    }
  }

  /** A segment that fills the gap in front of the k-th queued one swallows those before, and the k-th
      as well if that is a FIN alone. */
  lemma {:induction false} AbsorbUpTo(b: int, s: Seg, q: seq<Seg>, k: nat)
    requires QueueOk(b, q) && k < |q| && !s.fin && s.End() == q[k].start
    ensures AbsorbCovered(s, q) == if q[k].data == [] then (s.(fin := true), []) else (s, q[k..])
    decreases k
  {
    if k > 0 {
      QueueOkMeans(b, q);
      AbsorbUpTo(q[0].DataEnd() - 1, s, q[1..], k - 1);
      assert q[1..][k - 1..] == q[k..];
      assert s.(fin := s.fin || q[0].fin) == s;
    } else if q[0].data == [] {
      assert q[1..] == [];
    } else {
      assert q[0..] == q;
    }
  }

  lemma OverrunFails(st: RcvState, k: nat, s: Seg)
    requires QueueOk(st.nxt, st.ooseq) && k < |st.ooseq| && st.nxt < s.End() == st.ooseq[k].start <= st.Edge() < st.ooseq[k].End()
    requires s.start == st.nxt && !s.fin
    ensures !AssertsHold(st, s)
  {
    hide QueueOk, AbsorbCovered;
    AbsorbUpTo(st.nxt, s, st.ooseq, k);
    assert TrimToWindow(s, st.wnd) == s;
  }

  /** The assertions about the window hold for every genuine segment that may arrive in sequence, if
      and only if nothing in the queue starts inside the window and ends outside it. */
  lemma NoWindowAssertFails(st: RcvState, stream: seq<byte>, closed: bool)
    requires QueueOk(st.nxt, st.ooseq) && AllTrue(st.ooseq, stream, closed) && st.nxt >= 0 && st.wnd >= 1
    ensures (forall s: Seg :: InSequence(st, s, stream, closed) ==> AssertsHold(st, s)) <==> StartedFit(st.ooseq, st.Edge())
  {
    if StartedFit(st.ooseq, st.Edge()) {
      forall s: Seg | InSequence(st, s, stream, closed) ensures AssertsHold(st, s) {
        StartedSuffices(st, s, stream, closed);
      }
    } else {
      var k := Overrunning(st.nxt, st.ooseq, st.Edge());
      TrueAt(st.ooseq, k, stream, closed);
      var s := Seg(st.nxt, stream[st.nxt..st.ooseq[k].start], false);
      OverrunFails(st, k, s);
      assert InSequence(st, s, stream, closed);
    }
  }

  lemma {:induction false} TrueAt(q: seq<Seg>, k: nat, stream: seq<byte>, closed: bool)
    requires AllTrue(q, stream, closed) && k < |q|
    ensures True(q[k], stream, closed)
    decreases k
  {
    if k > 0 { TrueAt(q[1..], k - 1, stream, closed); }
  }
}
