/** When tcp_output() sends. */
module OutputLaws {
  // The window test and the algorithm of Nagle (section 4.2.3.4 of RFC 1122), stated about the segments
  // that leave and those that stay.

  import opened SequenceNumbers
  import opened TcpConfig
  import opened Reassembly
  import opened SendQueues

  /** The data of s ends within the window, counted from lastack. */
  predicate Inside(st: SndState, s: Seg) {
    0 <= s.start + |s.data| - st.lastack <= Min(st.wnd, st.cwnd)
  }

  /** Short segments need not wait: TF_NODELAY or TF_INFR is set, a FIN is queued, an allocation failed
      or the send buffer or queue is full. */
  predicate Overridden(st: SndState) {
    || st.noDelay || st.infr || st.finQueued || st.memErr
    || st.buf == 0 || st.queuelen >= TCP_SND_QUEUELEN
  }

  /** Nothing has been sent when the k-th unsent segment's turn comes. */
  predicate NothingOut(st: SndState, k: nat)
    requires k <= |st.unsent|
  {
    st.unacked == [] && forall j :: 0 <= j < k ==> st.unsent[j].Len() == 0
  }

  /** What is not sent although the link takes everything: it lies outside the window, or it is a single
      short segment that waits for what is unacked. */
  predicate Stays(st: SndState) {
    || st.unsent == []
    || !Inside(st, st.unsent[0].Seg())
    || (!Overridden(st) && st.unacked != [] && |st.unsent| == 1 && |st.unsent[0].data| < st.mss)
  }

  lemma {:induction false} LoopStops(st: SndState, link: nat)
    requires link >= |st.unsent|
    ensures OutputLoop(st, link).ok && Stays(OutputLoop(st, link).st)
    decreases |st.unsent|
  {
    if SendsNext(st) { LoopStops(SendHead(st), link - 1); }
  }

  /** A transmission may be the k-th: the segment fits the window, and it is full, or another one stands
      behind it, or nothing is unacked, or waiting is overridden. */
  ghost predicate MaySend(st: SndState, k: nat, s: Seg) {
    && k < |st.unsent| && s == st.unsent[k].Seg() && Inside(st, s)
    && (|s.data| >= st.mss || k + 1 < |st.unsent| || NothingOut(st, k) || Overridden(st))
  }

  lemma {:induction false} LoopSends(st: SndState, link: nat, k: nat)
    requires k < |OutputLoop(st, link).segs|
    ensures MaySend(st, k, OutputLoop(st, link).segs[k]) && k < link
    decreases |st.unsent|
  {
    hide NothingOut, InsertUnacked;
    NothingYet(st);
    if k > 0 {
      LoopSends(SendHead(st), link - 1, k - 1);
      OneLater(st, k);
    }
  }

  lemma NothingYet(st: SndState)
    ensures NothingOut(st, 0) <==> st.unacked == []
  {}

  lemma OneLater(st: SndState, k: nat)
    requires 0 < k <= |st.unsent|
    ensures NothingOut(SendHead(st), k - 1) ==> NothingOut(st, k)
  {
    HeadOut(st);
    assert forall j :: 0 < j < k ==> st.unsent[j] == SendHead(st).unsent[j - 1];
  }

  /** A segment that is not empty is unacked once it is sent. */
  lemma HeadOut(st: SndState)
    requires st.unsent != []
    ensures SendHead(st).unacked == [] ==> st.unacked == [] && st.unsent[0].Len() == 0
  {}

  /** With the link up, everything leaves but what Stays allows to stay. With TF_NODELAY set that is what
      lies outside the window. */
  lemma EverythingLeaves(st: SndState, link: nat, ackAlloc: bool)
    requires link >= |st.unsent|
    ensures var r := Output(st, link, ackAlloc).st;
            Stays(r.(memErr := st.memErr)) && (st.noDelay ==> r.unsent == [] || !Inside(r, r.unsent[0].Seg()))
  {
    LoopStops(st, link);
    LoopKeeps(st, link);
  }

  /** What decides about sending is not changed by it. */
  lemma {:induction false} LoopKeeps(st: SndState, link: nat)
    ensures var r := OutputLoop(st, link);
            && r.st.noDelay == st.noDelay && r.st.infr == st.infr && r.st.finQueued == st.finQueued
            && r.st.buf == st.buf && r.st.queuelen == st.queuelen && r.st.lastack == st.lastack
            && r.st.wnd == st.wnd && r.st.cwnd == st.cwnd && r.st.mss == st.mss
            && (r.ok ==> r.st.memErr == st.memErr)
    decreases |st.unsent|
  {
    if SendsNext(st) && link > 0 { LoopKeeps(SendHead(st), link - 1); }
  }

  /** Whatever the link takes, the k-th segment that leaves is the k-th unsent one, and it may: a segment
      shorter than mss leaves only in the cases of MaySend. */
  lemma OnlyWhatMay(st: SndState, link: nat, ackAlloc: bool, k: nat)
    requires k < |Output(st, link, ackAlloc).segs|
    ensures MaySend(st, k, Output(st, link, ackAlloc).segs[k]) && k < link
  {
    LoopSends(st, link, k);
  }

  lemma {:induction false} LoopAckNow(st: SndState, link: nat)
    ensures var r := OutputLoop(st, link);
            && (r.st.ackNow <==> st.ackNow && r.segs == [])
            && (!r.ok ==> |r.segs| == link && r.st.memErr && r.st.timerOn)
            && (r.segs != [] ==> r.st.timerOn)
    decreases |st.unsent|
  {
    if SendsNext(st) && link > 0 {
      LoopAckNow(SendHead(st), link - 1);
      if OutputLoop(SendHead(st), link - 1).segs == [] { assert !SendHead(st).ackNow; }
    }
  }

  /** A pending ACK leaves, on its own or with data, unless the call fails or there is data inside the
      window that does not leave: then the ACK stays behind with it. */
  lemma PendingAckLeaves(st: SndState, link: nat, ackAlloc: bool)
    ensures var r := Output(st, link, ackAlloc);
            && (r.ok ==> (r.st.ackNow <==> st.ackNow && r.segs == [] && st.unsent != [] && Inside(st, st.unsent[0].Seg())))
            && (r.ok ==> r.st.memErr == (st.memErr && st.ackNow && (st.unsent == [] || !Inside(st, st.unsent[0].Seg()))))
            && (!r.ok ==> (r.st.ackNow && !ackAlloc && r.segs == []) || (|r.segs| == link && r.st.memErr && r.st.timerOn))
            && (r.segs != [] ==> r.st.timerOn)
  {
    LoopAckNow(st, link);
    LoopKeeps(st, link);
  }
}
