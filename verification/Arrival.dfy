/** What a segment changes. */
module Arrival {
  // tcp_receive() as a whole, for every genuine segment: what it hands up, what it keeps, and what it
  // answers, in terms of stream offsets alone.

  import opened SequenceNumbers
  import opened TcpConfig
  import opened Reassembly
  import opened ReceiverSpec

  /** The queue holds the peer's FIN. */
  ghost predicate HasFin(q: seq<Seg>)
    decreases |q|
  {
    q != [] && (q[0].fin || HasFin(q[1..]))
  }

  // ---------- The FIN is neither lost nor invented ----------

  lemma {:induction false} AbsorbCoveredFin(s: Seg, q: seq<Seg>)
    ensures var (t, rest) := AbsorbCovered(s, q);
            t.fin || HasFin(rest) <==> s.fin || HasFin(q)
    decreases |q|
  {
    if q != [] && s.End() >= q[0].DataEnd() { AbsorbCoveredFin(s.(fin := s.fin || q[0].fin), q[1..]); }
  }

  lemma AbsorbFin(s: Seg, q: seq<Seg>)
    ensures var (t, rest) := Absorb(s, q);
            t.fin || HasFin(rest) <==> s.fin || HasFin(q)
  {
    AbsorbCoveredFin(s, q);
  }

  lemma {:induction false} DrainFin(nxt: int, q: seq<Seg>)
    ensures Drain(nxt, q).fin || HasFin(Drain(nxt, q).rest) <==> HasFin(q)
    decreases |q|
  {
    if q != [] && q[0].start == nxt { DrainFin(q[0].End(), q[1..]); }
  }

  lemma {:induction false} InsertFin(c: Seg, q: seq<Seg>)
    requires QueueOk(c.start, q)
    ensures HasFin(Insert(c, q)) <==> c.fin || HasFin(q)
    decreases |q|
  {
    if !c.fin {
      if q != [] && c.DataEnd() >= q[0].DataEnd() {
        InsertStep(c, q);
        if !q[0].fin { InsertFin(c, q[1..]); }
      } else {
        InsertStop(c, q);
        assert Insert(c, q)[1..] == q;
      }
    }
  }

  /** A FIN that arrives out of sequence is queued, unless its segment is appended behind the whole queue
      and reaches beyond the window. */
  lemma {:induction false} PlaceFin(b: int, q: seq<Seg>, s: Seg, edge: int)
    requires QueueOk(b, q) && q != [] && s.start < edge && s.Len() >= 1 && !Ditched(q, s)
    ensures HasFin(PlaceIn(q, s, edge)) <==> HasFin(q) || (s.fin && (s.End() <= edge || s.start <= q[|q| - 1].start))
    decreases |q|
  {
    LastAbove(b, q);
    if s.start == q[0].start {
      if !s.fin {
        InsertOverEqual(s, q);
        if !q[0].fin { InsertFin(s, q[1..]); }
      }
    } else if s.start < q[0].start {
      InsertFin(s, q);
    } else if |q| == 1 {
      assert PlaceIn(q, s, edge)[1..] == [ClipToEdge(s, edge)] && [ClipToEdge(s, edge)][1..] == [];
    } else if s.start < q[1].start {
      LastAbove(b, q[1..]);
      InsertFin(s, q[1..]);
      assert PlaceIn(q, s, edge)[1..] == Insert(s, q[1..]);
    } else {
      PlaceFin(q[0].DataEnd() - 1, q[1..], s, edge);
      assert PlaceIn(q, s, edge)[1..] == PlaceIn(q[1..], s, edge);
    }
  }

  // ---------- The three cases of tcp_receive() ----------

  /** A segment that reaches into the window from rcv_nxt or before it: whatever of it lies between
      rcv_nxt and the right edge is handed up, with everything queued that continues it, and nothing
      else; delivery stops only at an offset that has not arrived; what lies above stays queued. The
      FIN counts if it lies within the window. */
  lemma InSequenceTaken(st: RcvState, seg: Seg, env: Env, stream: seq<byte>, closed: bool, pos: int)
    requires QueueOk(st.nxt, st.ooseq) && AllTrue(st.ooseq, stream, closed) && True(seg, stream, closed)
    requires st.state.AcceptsText() && st.wnd >= 1 && seg.start <= st.nxt < seg.End()
    ensures var o := Receive(st, seg, env);
            && o.st.nxt > st.nxt && o.st.nxt >= Min(seg.DataEnd(), st.Edge())
            && Matches(o.data, stream, st.nxt) && o.st.nxt == st.nxt + |o.data| + (if o.fin then 1 else 0)
            && (st.nxt <= pos < st.nxt + |o.data| ==> (InData(seg, pos) && pos < st.Edge()) || Holds(st.ooseq, pos))
            && QueueOk(o.st.nxt, o.st.ooseq) && !Holds(st.ooseq, o.st.nxt)
            && (pos >= o.st.nxt ==> (Holds(o.st.ooseq, pos) <==> Holds(st.ooseq, pos)))
            && (o.fin || HasFin(o.st.ooseq) <==> (seg.fin && seg.End() <= st.Edge()) || HasFin(st.ooseq))
            && o.st.wnd == U16(st.wnd - (o.st.nxt - st.nxt)) && o.ack == None && o.st.annEdge == st.annEdge
  {
    hide QueueOk, AllTrue, Holds, HasFin, Absorb, Drain, AnnWnd;
    var s := Rest(st.nxt, seg);
    RestIs(st, seg, env, stream, closed);
    var w := Within(s, st.wnd);
    WithinIs(st, s, stream, closed);
    InOrderDelivers(st, w, stream, closed);
    InOrderExact(st, w, stream, closed, pos);
    InOrderExact(st, w, stream, closed, InOrder(st, w).st.nxt);
    var (t, rest) := Absorb(w, st.ooseq);
    AbsorbFin(w, st.ooseq);
    DrainFin(t.End(), rest);
    assert TrimToWindow(w, st.wnd) == w;
  }

  /** What of seg lies at or behind nxt. */
  function Rest(nxt: int, seg: Seg): Seg
    requires seg.start <= nxt < seg.End()
  {
    Seg(nxt, seg.data[nxt - seg.start..], seg.fin)
  }

  /** What of s lies within a window of wnd bytes. */
  function Within(s: Seg, wnd: nat): Seg {
    if s.Len() <= wnd then s else Seg(s.start, if |s.data| <= wnd then s.data else s.data[..wnd], false)
  }

  lemma RestIs(st: RcvState, seg: Seg, env: Env, stream: seq<byte>, closed: bool)
    requires True(seg, stream, closed) && st.state.AcceptsText() && st.wnd >= 1 && seg.start <= st.nxt < seg.End()
    ensures Receive(st, seg, env) == InOrder(st, Rest(st.nxt, seg)) && True(Rest(st.nxt, seg), stream, closed)
  {
    hide InOrder;
    assert seg.data[0..] == seg.data;
    assert TrimFront(st.nxt, seg) == Rest(st.nxt, seg);
  }

  lemma WithinIs(st: RcvState, s: Seg, stream: seq<byte>, closed: bool)
    requires True(s, stream, closed) && s.Len() >= 1 && st.wnd >= 1
    ensures var w := Within(s, st.wnd);
            && InOrder(st, s) == InOrder(st, w) && True(w, stream, closed) && w.Len() >= 1
  {
    hide Absorb, Drain, UpdateAnn;
    var w := Within(s, st.wnd);
    assert TrimToWindow(s, st.wnd) == w == TrimToWindow(w, st.wnd);
  }

  /** A segment that starts above rcv_nxt inside the window: nothing is handed up, and exactly these
      offsets are held afterwards. */
  lemma OutOfSequenceHeld(st: RcvState, seg: Seg, env: Env, stream: seq<byte>, closed: bool, pos: int)
    requires QueueOk(st.nxt, st.ooseq) && AllTrue(st.ooseq, stream, closed) && True(seg, stream, closed)
    requires st.state.AcceptsText() && seg.Len() >= 1 && st.nxt < seg.start < st.Edge()
    ensures var o := Receive(st, seg, env);
            var q := o.st.ooseq;
            && Answered(st.(ooseq := q), env, o)
            && (if !env.segAlloc then q == st.ooseq
                else if st.ooseq == [] then
                  (Holds(q, pos) <==> InData(seg, pos)) && (HasFin(q) <==> seg.fin)
                else if Ditched(st.ooseq, seg) then q == st.ooseq
                else
                  && (Holds(q, pos) <==> Lands(st.ooseq, seg, st.Edge(), pos) || (Holds(st.ooseq, pos) && !CutTail(st.ooseq, seg, pos)))
                  && (HasFin(q) <==>
                      HasFin(st.ooseq) || (seg.fin && (seg.End() <= st.Edge() || seg.start <= st.ooseq[|st.ooseq| - 1].start))))
  {
    hide QueueOk, AllTrue, PlaceIn, CutTail, Lands, Ditched;
    assert TrimFront(st.nxt, seg) == seg;
    assert [seg][1..] == [];
    if env.segAlloc && st.ooseq != [] {
      if Ditched(st.ooseq, seg) {
        PlaceDitched(st.ooseq, seg, st.Edge());
      } else {
        if pos >= seg.DataEnd() && seg.fin { NothingBeyondEnd(st.ooseq, pos, stream, closed); }
        PlaceExact(st.nxt, st.ooseq, seg, st.Edge(), pos);
        PlaceFin(st.nxt, st.ooseq, seg, st.Edge());
      }
    }
  }

  /** Every other segment, and every segment while the window is closed, only has the state repeated. */
  lemma OthersAnswered(st: RcvState, seg: Seg, env: Env)
    requires st.state.AcceptsText() && seg.Len() >= 1
    requires st.wnd == 0 || seg.End() <= st.nxt || seg.start >= st.Edge()
    ensures Answered(st, env, Receive(st, seg, env))
  {}

  /** Nothing is handed up; rcv_nxt and the announced window are sent, if there is memory, and with them
      the right edge is announced. */
  predicate Answered(st: RcvState, env: Env, o: Outcome) {
    && o.data == [] && !o.fin
    && o.ack == (if env.ackAlloc then Some(AckMsg(st.nxt, st.annWnd)) else None)
    && o.st == (if env.ackAlloc then st.(annEdge := st.nxt + st.annWnd) else st)
  }

  /** A segment without text, and every segment after the FIN, changes nothing. */
  lemma NothingTaken(st: RcvState, seg: Seg, env: Env)
    requires seg.Len() == 0 || !st.state.AcceptsText()
    ensures Receive(st, seg, env) == Outcome(st, [], false, None)
  {}
}
