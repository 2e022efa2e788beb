/** The assertions of tcp_write() about the last unsent segment. */
module LocalMss {
  // tcp_write() cuts segments of mss_local bytes, half the largest window the peer has announced. It
  // asserts that the last unsent segment, oversized tail included, is not longer than that.

  import opened SequenceNumbers
  import opened TcpConfig
  import opened Reassembly
  import opened SendQueues
  import opened SendInvariants
  import opened Transmission
  import opened Acknowledgement

  /** Every queued segment, and the last unsent one with its spare tail, fits mss_local. */
  ghost predicate Snug(st: SndState) {
    && AllFit(st.unacked, MssLocal(st)) && AllFit(st.unsent, MssLocal(st))
    && (st.unsent != [] ==> |Last(st.unsent).data| + st.oversize <= MssLocal(st))
  }

  /** Then the assertions hold. */
  lemma SnugTail(st: SndState, stream: seq<byte>, closed: bool)
    requires Snug(st) && SndInv(st, stream, closed)
    ensures TailFits(st)
  {}

  lemma {:induction false} FitConcat(p: seq<TxSeg>, q: seq<TxSeg>, mss: int)
    ensures AllFit(p + q, mss) <==> AllFit(p, mss) && AllFit(q, mss)
    decreases |p|
  {
    if p == [] {
      assert p + q == q;
    } else {
      assert (p + q)[1..] == p[1..] + q;
      FitConcat(p[1..], q, mss);
    }
  }

  lemma FitOne(s: TxSeg, mss: int)
    ensures AllFit([s], mss) <==> |s.data| <= mss
  {
    assert [s][1..] == [];
  }

  lemma {:induction false} LastFits(q: seq<TxSeg>, mss: int)
    requires AllFit(q, mss) && q != []
    ensures |Last(q).data| <= mss
    decreases |q|
  {
    if |q| > 1 { LastFits(q[1..], mss); }
  }

  // ---------- tcp_write() and tcp_send_fin() ----------

  lemma {:induction false} SegmentsFit(start: int, data: seq<byte>, mss: nat, clen: nat)
    requires mss >= 1
    ensures AllFit(Segments(start, data, mss, clen), mss)
    decreases |data|
  {
    if data != [] {
      var n := Min(|data|, mss);
      SegmentsFit(start + n, data[n..], mss, clen);
      var s, tail := TxSeg(start, data[..n], false, clen), Segments(start + n, data[n..], mss, clen);
      assert ([s] + tail)[1..] == tail;
    }
  }

  lemma WriteSnug(st: SndState, data: seq<byte>, copy: bool, more: bool, budget: nat)
    requires Snug(st) && TailFits(st) && |data| <= 0xffff
    ensures Snug(Write(st, data, copy, more, budget).0) && Write(st, data, copy, more, budget).0.wndMax == st.wndMax
  {
    if Write(st, data, copy, more, budget).1 == ErrOk && data != [] {
      WrittenFits(st, data, copy);
      WrittenTail(st, data, copy, more, budget);
      WriteFields(st, data, copy, more, budget);
    }
  }

  lemma WrittenFits(st: SndState, data: seq<byte>, copy: bool)
    requires Snug(st) && TailFits(st)
    ensures AllFit(UnsentAfter(st, data, PlanWrite(st, data, copy)), MssLocal(st))
  {
    var p, mss := PlanWrite(st, data, copy), MssLocal(st);
    var k := p.used + p.concat;
    SegmentsFit(st.lbb + k, data[k..], mss, if copy then 1 else 2);
    if st.unsent != [] {
      UnsentAfterSplit(st, data, p);
      ExtendedFits(st.unsent[..|st.unsent| - 1], Last(st.unsent), data[..k], p.concat > 0, p.queue, mss);
    }
  }

  lemma ExtendedFits(front: seq<TxSeg>, last: TxSeg, data: seq<byte>, concat: bool, q: seq<TxSeg>, mss: int)
    requires AllFit(front + [last], mss) && |last.data| + |data| <= mss && AllFit(q, mss)
    ensures AllFit(front + [Extend(last, data, concat)] + q, mss)
  {
    hide AllFit;
    var last' := Extend(last, data, concat);
    FitConcat(front, [last], mss);
    FitOne(last', mss);
    FitConcat(front, [last'], mss);
    FitConcat(front + [last'], q, mss);
  }

  lemma WrittenTail(st: SndState, data: seq<byte>, copy: bool, more: bool, budget: nat)
    requires TailFits(st) && 0 < |data| <= 0xffff
    requires Write(st, data, copy, more, budget).1 == ErrOk
    ensures var r := Write(st, data, copy, more, budget).0;
            && MssLocal(r) == MssLocal(st) && r.wndMax == st.wndMax && r.unsent == UnsentAfter(st, data, PlanWrite(st, data, copy))
            && (r.unsent != [] ==> |Last(r.unsent).data| + r.oversize <= MssLocal(r))
  {
    hide Segments;
    var r, p := Write(st, data, copy, more, budget).0, PlanWrite(st, data, copy);
    if p.queue != [] {
      assert Last(p.queue) in p.queue;
      assert Last(r.unsent) == Last(p.queue);
    } else if st.unsent != [] {
      assert Last(r.unsent) == Extend(Last(st.unsent), data[..p.used + p.concat], p.concat > 0);
    }
  }

  lemma SendFinSnug(st: SndState, budget: nat)
    requires Snug(st)
    ensures Snug(SendFin(st, budget).0) && SendFin(st, budget).0.wndMax == st.wndMax
  {
    hide Snug, FinMerged, FinAppended;
    SnugFlags(st, st.(memErr := true));
    if st.unsent != [] && !Last(st.unsent).fin {
      MergedSnug(st);
    } else if st.buf > 0 {
      AppendedSnug(st);
    }
  }

  lemma MergedSnug(st: SndState)
    requires Snug(st) && st.unsent != []
    ensures Snug(FinMerged(st)) && FinMerged(st).wndMax == st.wndMax
  {
    hide AllFit;
    FinFits(st.unsent, TxSeg(st.lbb, [], true, 1), MssLocal(st));
  }

  lemma AppendedSnug(st: SndState)
    requires Snug(st) && st.buf > 0
    ensures Snug(FinAppended(st)) && FinAppended(st).wndMax == st.wndMax
  {
    hide AllFit, U16;
    FinFits(st.unsent, TxSeg(st.lbb, [], true, 1), MssLocal(st));
  }

  lemma FinFits(q: seq<TxSeg>, fin: TxSeg, mss: nat)
    requires AllFit(q, mss) && fin.data == []
    ensures AllFit(q + [fin], mss) && (q != [] ==> AllFit(q[..|q| - 1] + [Last(q).(fin := true)], mss))
  {
    FitOne(fin, mss);
    FitConcat(q, [fin], mss);
    if q != [] {
      var n := |q| - 1;
      assert q == q[..n] + [q[n]];
      FitConcat(q[..n], [q[n]], mss);
      FitOne(q[n], mss);
      FitOne(q[n].(fin := true), mss);
      FitConcat(q[..n], [q[n].(fin := true)], mss);
    }
  }

  // ---------- tcp_output() and retransmission ----------

  lemma {:induction false} InsertFits(q: seq<TxSeg>, s: TxSeg, mss: int)
    requires AllFit(q, mss) && |s.data| <= mss
    ensures AllFit(InsertSorted(q, s), mss)
    ensures AllStartBefore(q, s.start) || (q != [] && Last(InsertSorted(q, s)) == Last(q))
    decreases |q|
  {
    if q != [] && q[0].start < s.start {
      InsertFits(q[1..], s, mss);
      assert ([q[0]] + InsertSorted(q[1..], s))[1..] == InsertSorted(q[1..], s);
    } else {
      assert ([s] + q)[1..] == q;
    }
  }

  lemma {:induction false} InsertIsLast(q: seq<TxSeg>, s: TxSeg)
    requires AllStartBefore(q, s.start)
    ensures InsertSorted(q, s) == q + [s]
    decreases |q|
  {
    if q != [] { InsertIsLast(q[1..], s); }
  }

  lemma SendHeadSnug(st: SndState)
    requires Snug(st) && st.unsent != []
    ensures Snug(SendHead(st)) && SendHead(st).wndMax == st.wndMax
  {
    var s, mss := st.unsent[0], MssLocal(st);
    InsertFits(st.unacked, s, mss);
    FitOne(s, mss);
    FitConcat(st.unacked, [s], mss);
  }

  lemma {:induction false} OutputLoopSnug(st: SndState, link: nat)
    requires Snug(st)
    ensures Snug(OutputLoop(st, link).st) && OutputLoop(st, link).st.wndMax == st.wndMax
    decreases |st.unsent|
  {
    hide Snug, SendHead;
    if SendsNext(st) && link > 0 {
      SendHeadSnug(st);
      HeadLeaves(st);
      OutputLoopSnug(SendHead(st), link - 1);
    } else {
      SnugFlags(st, st.(memErr := true, timerOn := true));
    }
  }

  lemma HeadLeaves(st: SndState)
    requires st.unsent != []
    ensures |SendHead(st).unsent| < |st.unsent|
  {}

  lemma SnugFlags(st: SndState, r: SndState)
    requires Snug(st) && r.unsent == st.unsent && r.unacked == st.unacked && r.mss == st.mss && r.wndMax == st.wndMax
    requires r.oversize == st.oversize || r.unsent == []
    ensures Snug(r)
  {}

  lemma OutputSnug(st: SndState, link: nat, ackAlloc: bool)
    requires Snug(st)
    ensures Snug(Output(st, link, ackAlloc).st) && Output(st, link, ackAlloc).st.wndMax == st.wndMax
  {
    hide Snug, OutputLoop;
    OutputLoopSnug(st, link);
    var r := OutputLoop(st, link).st;
    SnugFlags(r, Finish(r));
    SnugFlags(st, st.(ackNow := !ackAlloc));
  }

  lemma RexmitSnug(st: SndState)
    requires Snug(st)
    ensures Snug(Rexmit(st)) && Rexmit(st).wndMax == st.wndMax
  {
    if st.unacked != [] {
      var s, mss := st.unacked[0], MssLocal(st);
      InsertFits(st.unsent, s, mss);
      if AllStartBefore(st.unsent, s.start) { InsertIsLast(st.unsent, s); }
    }
  }

  lemma RexmitRtoSnug(st: SndState)
    requires Snug(st) && (st.unsent == [] ==> st.oversize == 0)
    ensures Snug(RexmitRto(st)) && RexmitRto(st).wndMax == st.wndMax
  {
    FitConcat(st.unacked, st.unsent, MssLocal(st));
    if st.unacked != [] {
      if st.unsent == [] {
        assert st.unacked + st.unsent == st.unacked;
        LastFits(st.unacked, MssLocal(st));
      } else {
        assert Last(st.unacked + st.unsent) == Last(st.unsent);
      }
    }
  }

  // ---------- Acknowledgements ----------

  lemma {:induction false} DropFits(q: seq<TxSeg>, ackno: int, acked: u16, mss: int)
    requires AllFit(q, mss)
    ensures var rest := DropAcked(q, ackno, acked).rest;
            AllFit(rest, mss) && (rest != [] ==> q != [] && Last(rest) == Last(q))
    decreases |q|
  {
    if q != [] && q[0].End() <= ackno {
      DropFits(q[1..], ackno, if acked != 0 && q[0].fin then acked - 1 else acked, mss);
    }
  }

  lemma DropUnsentSnug(st: SndState, ackno: int)
    requires Snug(st)
    ensures Snug(DropUnsent(st, ackno)) && DropUnsent(st, ackno).wndMax == st.wndMax
  {
    DropFits(st.unsent, ackno, st.acked, MssLocal(st));
  }

  lemma NewAckSnug(st: SndState, ackno: int)
    requires Snug(st) && st.cwnd >= 1 && st.ssthresh >= 1
    ensures Snug(NewAck(st, ackno)) && NewAck(st, ackno).wndMax == st.wndMax
  {
    hide GrowCwnd, U16;
    DropFits(st.unacked, ackno, U16(ackno - st.lastack), MssLocal(st));
  }

  lemma OldAckSnug(st: SndState, ackno: int, dup: bool)
    requires Snug(st)
    ensures Snug(OldAck(st, ackno, dup)) && OldAck(st, ackno, dup).wndMax == st.wndMax
  {
    hide Snug, DupAck;
    SnugFlags(st, st.(acked := 0));
    SnugFlags(st, st.(acked := 0, dupacks := 0));
    DupAckSnug(st.(acked := 0));
  }

  lemma DupAckSnug(st: SndState)
    requires Snug(st)
    ensures Snug(DupAck(st)) && DupAck(st).wndMax == st.wndMax
  {
    hide Snug, U16, Rexmit;
    var st3 := st.(dupacks := 3);
    SnugFlags(st, st3);
    RexmitSnug(st3);
    if st3.unacked != [] && !st3.infr { SnugFlags(Rexmit(st3), RexmitFast(st3)); }
    if DupAck(st) != RexmitFast(st3) { SnugFlags(st, DupAck(st)); }
  }

  lemma AckWithSnug(st: SndState, ackno: int, dup: bool, ackAlloc: bool)
    requires Snug(st) && st.cwnd >= 1 && st.ssthresh >= 1
    ensures Snug(AckWith(st, ackno, dup, ackAlloc)) && AckWith(st, ackno, dup, ackAlloc).wndMax == st.wndMax
  {
    hide Snug, OldAck, NewAck, DropUnsent;
    var r := if ackno <= st.lastack then OldAck(st, ackno, dup)
             else if ackno <= st.nxt then NewAck(st, ackno)
             else st.(acked := 0, ackNow := !ackAlloc);
    OldAckSnug(st, ackno, dup);
    NewAckSnug(st, ackno);
    SnugFlags(st, st.(acked := 0, ackNow := !ackAlloc));
    DropUnsentSnug(r, ackno);
  }

  /** Later windows make mss_local smaller in one case only: the largest one was 0 or 1, so that
      mss_local fell back to mss, and the new one is at least 2. */
  lemma UpdatedMss(st: SndState, seqno: int, ackno: int, wnd: u16)
    ensures MssLocal(UpdateWnd(st, seqno, ackno, wnd)) ==
            if UpdatesWnd(st, seqno, ackno, wnd) && wnd > st.wndMax && wnd >= 2 then Min(st.mss, wnd / 2) else MssLocal(st)
    ensures st.wndMax >= 2 ==> MssLocal(UpdateWnd(st, seqno, ackno, wnd)) >= MssLocal(st)
  {}

  /** A window update keeps the assertions if and only if it is none of the kind that makes mss_local
      smaller, or nothing is unsent, or the last unsent segment with its tail fits half the new window. */
  lemma UpdateKeepsTail(st: SndState, seqno: int, ackno: int, wnd: u16)
    requires TailFits(st)
    ensures TailFits(UpdateWnd(st, seqno, ackno, wnd)) <==>
            || !UpdatesWnd(st, seqno, ackno, wnd) || st.wndMax >= 2 || wnd < 2
            || st.unsent == [] || |Last(st.unsent).data| + st.oversize <= wnd / 2
  {}

  /** In any other case an ACK keeps everything queued within mss_local. */
  lemma AckSnug(st: SndState, seqno: int, ackno: int, wnd: u16, tcplen: nat, ackAlloc: bool)
    requires Snug(st) && st.cwnd >= 1 && st.ssthresh >= 1
    requires st.wndMax >= 2 || wnd < 2 || !UpdatesWnd(st, seqno, ackno, wnd)
    ensures Snug(Ack(st, seqno, ackno, wnd, tcplen, ackAlloc)) && Ack(st, seqno, ackno, wnd, tcplen, ackAlloc).wndMax >= st.wndMax
  {
    hide AckWith;
    var st1 := UpdateWnd(st, seqno, ackno, wnd);
    UpdatedMss(st, seqno, ackno, wnd);
    AllFitGrows(st.unacked, MssLocal(st), MssLocal(st1));
    AllFitGrows(st.unsent, MssLocal(st), MssLocal(st1));
    AckWithSnug(st1, ackno, tcplen == 0 && st1.wl2 + st1.wnd == st.wl2 + st.wnd, ackAlloc);
  }
}
