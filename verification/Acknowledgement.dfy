/** The ACK half of tcp_receive(). */
module Acknowledgement {
  // It keeps the sender invariant.

  // What an acknowledgement removes, how it is counted, and what a duplicate one triggers.

  import opened SequenceNumbers
  import opened TcpConfig
  import opened Reassembly
  import opened SendQueues
  import opened SendInvariants
  import opened Transmission

  // ---------- Removing acknowledged segments ----------

  /** Walking unacked and then unsent is walking one queue. */
  lemma {:induction false} DropConcat(p: seq<TxSeg>, q: seq<TxSeg>, a: int, b: int, ackno: int, acked: u16)
    requires Tiles(p + q, a, b)
    ensures var d1 := DropAcked(p, ackno, acked);
            var d2 := DropAcked(q, ackno, d1.acked);
            DropAcked(p + q, ackno, acked) == Dropped(d1.rest + d2.rest, d2.acked, d1.clen + d2.clen)
    decreases |p|
  {
    if p == [] {
      assert p + q == q;
    } else {
      assert (p + q)[1..] == p[1..] + q;
      if p[0].End() <= ackno {
        DropConcat(p[1..], q, p[0].End(), b, ackno, if acked != 0 && p[0].fin then acked - 1 else acked);
      } else if q != [] {
        assert p[1..] + q == p[1..] + [q[0]] + q[1..];
        StartAfter(p[1..], q[0], q[1..], p[0].End(), b);
        TilesBefore(p, q[0], q[1..], a, b) by { assert p + q == p + [q[0]] + q[1..]; }
      }
    }
  }

  /** What is left runs from a segment holding the acknowledged offset to the same end. */
  lemma {:induction false} DropCovers(q: seq<TxSeg>, a: int, b: int, ackno: int, acked: u16)
    requires Tiles(q, a, b) && a <= ackno <= b
    ensures Covers(DropAcked(q, ackno, acked).rest, ackno, b)
    decreases |q|
  {
    if q != [] && q[0].End() <= ackno {
      DropCovers(q[1..], q[0].End(), b, ackno, if acked != 0 && q[0].fin then acked - 1 else acked);
    }
  }

  /** Facts about every segment survive, and the buffers freed are counted. */
  lemma {:induction false} DropKeeps(q: seq<TxSeg>, ackno: int, acked: u16, stream: seq<byte>, closed: bool, mss: int, b: int)
    ensures var d := DropAcked(q, ackno, acked);
            && (TxTrue(q, stream, closed) ==> TxTrue(d.rest, stream, closed))
            && (AllFit(q, mss) ==> AllFit(d.rest, mss))
            && (EndsBy(q, b) ==> EndsBy(d.rest, b))
            && SumClen(q) == d.clen + SumClen(d.rest)
            && (d.rest != [] ==> q != [] && Last(d.rest) == Last(q))
    decreases |q|
  {
    if q != [] && q[0].End() <= ackno {
      DropKeeps(q[1..], ackno, if acked != 0 && q[0].fin then acked - 1 else acked, stream, closed, mss, b);
    }
  }

  /** The FIN is subtracted exactly when it is acknowledged. */
  lemma {:induction false} DropCountsFin(q: seq<TxSeg>, a: int, ackno: int, acked: u16, stream: seq<byte>, closed: bool)
    requires Tiles(q, a, Limit(stream, closed)) && TxTrue(q, stream, closed) && acked >= 1
    requires ackno <= Limit(stream, closed)
    ensures DropAcked(q, ackno, acked).acked ==
            if q != [] && closed && ackno == Limit(stream, closed) then acked - 1 else acked
    decreases |q|
  {
    if q != [] {
      TilesGrow(q[1..], q[0].End(), Limit(stream, closed));
      if q[0].End() <= ackno {
        if q[0].fin {
          assert q[1..] == [];
        } else {
          DropCountsFin(q[1..], q[0].End(), ackno, acked, stream, closed);
        }
      }
    }
  }

  lemma {:induction false} NothingToDrop(q: seq<TxSeg>, ackno: int, acked: u16)
    requires q != [] ==> q[0].End() > ackno
    ensures DropAcked(q, ackno, acked) == Dropped(q, acked, 0)
    decreases |q|
  {}

  // ---------- The window update ----------

  /** r differs from st only in windows, thresholds and flags. */
  predicate SameQueues(st: SndState, r: SndState) {
    && r.unsent == st.unsent && r.unacked == st.unacked && r.oversize == st.oversize
    && r.lastack == st.lastack && r.nxt == st.nxt && r.lbb == st.lbb && r.buf == st.buf
    && r.queuelen == st.queuelen && r.mss == st.mss && r.finQueued == st.finQueued
    && r.wndMax >= st.wndMax && r.cwnd >= 1 && r.ssthresh >= 1
  }

  /** Windows, thresholds and flags do not matter to the invariant. */
  lemma SameQueuesKeep(st: SndState, r: SndState, stream: seq<byte>, closed: bool)
    requires SndInv(st, stream, closed) && SameQueues(st, r)
    ensures SndInv(r, stream, closed)
  {}

  // ---------- An ACK for new data ----------

  /** Both walks of an ACK for new data, without the numbers. */
  lemma NewAckQueues(st: SndState, ackno: int, stream: seq<byte>, closed: bool)
    requires SndInv(st, stream, closed) && st.lastack < ackno <= st.nxt
    ensures var d1 := DropAcked(st.unacked, ackno, U16(ackno - st.lastack));
            var d2 := DropAcked(st.unsent, ackno, d1.acked);
            && HoldsFrom(d1.rest + d2.rest, ackno, stream, closed, st.mss)
            && st.queuelen == d1.clen + d2.clen + SumClen(d1.rest + d2.rest)
            && EndsBy(d1.rest, st.nxt)
            && d2.acked == Min(ackno, |stream|) - Min(st.lastack, |stream|)
            && (d2.rest != [] ==> st.unsent != [] && Last(d2.rest) == Last(st.unsent))
  {
    var all, acked, mss := st.unacked + st.unsent, U16(ackno - st.lastack), st.mss;
    var a, b := all[0].start, Limit(stream, closed);
    assert acked == ackno - st.lastack;
    var d1 := DropAcked(st.unacked, ackno, acked);
    DropConcat(st.unacked, st.unsent, a, b, ackno, acked);
    DropCovers(all, a, b, ackno, acked);
    DropKeeps(all, ackno, acked, stream, closed, mss, 0);
    DropKeeps(st.unacked, ackno, acked, stream, closed, mss, st.nxt);
    DropKeeps(st.unsent, ackno, d1.acked, stream, closed, mss, 0);
    DropCountsFin(all, a, ackno, acked, stream, closed);
  }

  /** An ACK for new data moves lastack there, counts the payload acknowledged, the FIN excluded,
      and keeps the invariant. */
  lemma NewAckKeeps(st: SndState, ackno: int, stream: seq<byte>, closed: bool)
    requires SndInv(st, stream, closed) && st.lastack < ackno <= st.nxt
    ensures var r := DropUnsent(NewAck(st, ackno), ackno);
            && SndInv(r, stream, closed)
            && r.lastack == ackno && r.nxt == st.nxt && r.wnd == st.wnd && r.mss == st.mss
            && r.acked == Min(ackno, |stream|) - Min(st.lastack, |stream|)
  {
    hide HoldsFrom, Numbers, EndsBy, SumClen, DropAcked, U16, GrowCwnd;
    NewAckQueues(st, ackno, stream, closed);
    NewAckNumbers(st, ackno, stream, closed);
    NewAckQueuelen(st, ackno, stream, closed);
  }

  lemma NewAckNumbers(st: SndState, ackno: int, stream: seq<byte>, closed: bool)
    requires SndInv(st, stream, closed) && st.lastack < ackno <= st.nxt
    ensures var r := DropUnsent(NewAck(st, ackno), ackno);
            Numbers(r, stream, closed) && (r.unsent == [] ==> r.oversize == 0)
  {
    hide HoldsFrom, EndsBy, SumClen, DropAcked, U16, GrowCwnd;
    NewAckQueues(st, ackno, stream, closed);
    BufAfter(st.buf, st.lbb, st.lastack, ackno);
    NewAckQueuelen(st, ackno, stream, closed);
    NewAckFields(st, ackno);
  }

  lemma NewAckQueuelen(st: SndState, ackno: int, stream: seq<byte>, closed: bool)
    requires SndInv(st, stream, closed) && st.lastack < ackno <= st.nxt
    ensures var r := DropUnsent(NewAck(st, ackno), ackno);
            r.queuelen == SumClen(r.unacked + r.unsent) <= st.queuelen
  {
    NewAckQueues(st, ackno, stream, closed);
    var d1 := DropAcked(st.unacked, ackno, U16(ackno - st.lastack));
    var d2 := DropAcked(st.unsent, ackno, d1.acked);
    QueuelenAfter(st.queuelen, d1.clen, d2.clen, SumClen(d1.rest + d2.rest));
    NewAckFields(st, ackno);
  }

  lemma BufAfter(buf: u16, lbb: int, lastack: int, ackno: int)
    requires buf + (lbb - lastack) == TCP_SND_BUF && lastack < ackno <= lbb + 1
    ensures U16(buf + U16(ackno - lastack)) + (lbb - ackno) == TCP_SND_BUF
  {}

  lemma QueuelenAfter(queuelen: u16, clen1: nat, clen2: nat, left: nat)
    requires queuelen == clen1 + clen2 + left
    ensures U16(U16(queuelen - clen1) - clen2) == left
  {}

  /** The fields an ACK for new data changes. */
  lemma NewAckFields(st: SndState, ackno: int)
    requires st.cwnd >= 1 && st.ssthresh >= 1 && st.lastack < ackno <= st.nxt
    ensures var d1 := DropAcked(st.unacked, ackno, U16(ackno - st.lastack));
            var d2 := DropAcked(st.unsent, ackno, d1.acked);
            var r := DropUnsent(NewAck(st, ackno), ackno);
            && r.unacked == d1.rest && r.unsent == d2.rest && r.acked == d2.acked
            && r.queuelen == U16(U16(st.queuelen - d1.clen) - d2.clen)
            && r.oversize == (if st.unsent != [] && d2.rest == [] then 0 else st.oversize)
            && r.cwnd >= 1 && r.ssthresh == st.ssthresh && r.buf == U16(st.buf + U16(ackno - st.lastack))
  {}

  // ---------- A duplicate or old ACK ----------

  lemma FrontUnacked(st: SndState, stream: seq<byte>, closed: bool)
    requires InOrderQueues(st, stream, closed) && st.unsent != []
    ensures st.unsent[0].End() > st.lastack
  {
    var all := st.unacked + st.unsent;
    assert all == st.unacked + [st.unsent[0]] + st.unsent[1..];
    if st.unacked != [] {
      assert all[0] == st.unacked[0] && all[1..] == st.unacked[1..] + [st.unsent[0]] + st.unsent[1..];
      StartAfter(st.unacked[1..], st.unsent[0], st.unsent[1..], all[0].End(), Limit(stream, closed));
      TilesBefore(st.unacked, st.unsent[0], st.unsent[1..], all[0].start, Limit(stream, closed));
    }
  }

  /** The condition under which tcp_receive() counts a duplicate ACK, and its third one
      retransmits. */
  predicate Retransmits(st: SndState) { st.dupacks == 2 && st.unacked != [] && !st.infr }

  lemma DupAckFields(st: SndState)
    requires st.cwnd >= 1 && st.ssthresh >= 1
    ensures Retransmits(st) ==> DupAck(st) == RexmitFast(st.(dupacks := 3))
    ensures !Retransmits(st) ==> SameQueues(st, DupAck(st)) && DupAck(st).acked == st.acked && DupAck(st).wnd == st.wnd
  {}

  lemma DupAckKeeps(st: SndState, stream: seq<byte>, closed: bool)
    requires SndInv(st, stream, closed)
    ensures var r := DupAck(st);
            && (if Retransmits(st) then RexInv(r, stream, closed) && r.infr && r.unsent[0] == st.unacked[0] && r.cwnd >= 5 * st.mss
                else SndInv(r, stream, closed))
            && r.lastack == st.lastack && r.nxt == st.nxt && r.wnd == st.wnd && r.mss == st.mss && r.acked == st.acked
  {
    DupAckFields(st);
    if Retransmits(st) {
      var st1 := st.(dupacks := 3);
      SameQueuesKeep(st, st1, stream, closed);
      RexmitFastKeeps(st1, stream, closed);
    } else {
      SameQueuesKeep(st, DupAck(st), stream, closed);
    }
  }

  /** An ACK that acknowledges nothing new removes nothing. */
  lemma OldAckDropsNothing(st: SndState, ackno: int, stream: seq<byte>, closed: bool)
    requires SndInv(st, stream, closed) || RexInv(st, stream, closed)
    requires ackno <= st.lastack
    ensures DropUnsent(st, ackno) == st
  {
    if st.unsent != [] {
      if InOrderQueues(st, stream, closed) { FrontUnacked(st, stream, closed); }
      assert st.unsent[0].End() > ackno by {
        if RexInv(st, stream, closed) {
          assert ([st.unsent[0]] + st.unacked + st.unsent[1..])[0] == st.unsent[0];
        }
      }
    }
    NothingToDrop(st.unsent, ackno, st.acked);
  }

  // ---------- The whole ACK half ----------

  /** tcp_receive() takes this ACK for the third duplicate and retransmits. */
  predicate FastRetransmits(st: SndState, seqno: int, ackno: int, wnd: u16, tcplen: nat) {
    var st1 := UpdateWnd(st, seqno, ackno, wnd);
    && ackno == st.lastack && tcplen == 0 && st.timerOn
    && st1.wl2 + st1.wnd == st.wl2 + st.wnd
    && Retransmits(st)
  }

  /** Every ACK: lastack moves exactly to an acknowledgement of something sent and not yet
      acknowledged; acked counts exactly the payload bytes it newly covers, the FIN excluded; and
      the queues again hold the stream from there on, in order unless a fast retransmission put the
      first unacked segment in front of unsent. */
  lemma AckKeeps(st: SndState, seqno: int, ackno: int, wnd: u16, tcplen: nat, ackAlloc: bool,
                 stream: seq<byte>, closed: bool)
    requires SndInv(st, stream, closed)
    ensures var r := Ack(st, seqno, ackno, wnd, tcplen, ackAlloc);
            && r.lastack == (if st.lastack < ackno <= st.nxt then ackno else st.lastack)
            && r.acked == Min(r.lastack, |stream|) - Min(st.lastack, |stream|)
            && r.nxt == st.nxt && r.wnd == UpdateWnd(st, seqno, ackno, wnd).wnd && r.mss == st.mss
            && (if FastRetransmits(st, seqno, ackno, wnd, tcplen)
                then RexInv(r, stream, closed) && r.infr && r.unsent[0] == st.unacked[0] && r.cwnd >= 5 * r.mss
                else SndInv(r, stream, closed))
  {
    var st1 := UpdateWnd(st, seqno, ackno, wnd);
    UpdateWndFields(st, seqno, ackno, wnd);
    SameQueuesKeep(st, st1, stream, closed);
    AckWithKeeps(st1, ackno, tcplen == 0 && st1.wl2 + st1.wnd == st.wl2 + st.wnd, ackAlloc, stream, closed);
  }

  lemma UpdateWndFields(st: SndState, seqno: int, ackno: int, wnd: u16)
    requires st.cwnd >= 1 && st.ssthresh >= 1
    ensures var r := UpdateWnd(st, seqno, ackno, wnd);
            SameQueues(st, r) && r.timerOn == st.timerOn && r.dupacks == st.dupacks && r.infr == st.infr
            && r.cwnd == st.cwnd && r.ssthresh == st.ssthresh
  {}

  lemma AckWithKeeps(st: SndState, ackno: int, dup: bool, ackAlloc: bool, stream: seq<byte>, closed: bool)
    requires SndInv(st, stream, closed)
    ensures var r := AckWith(st, ackno, dup, ackAlloc);
            && r.lastack == (if st.lastack < ackno <= st.nxt then ackno else st.lastack)
            && r.acked == Min(r.lastack, |stream|) - Min(st.lastack, |stream|)
            && r.nxt == st.nxt && r.wnd == st.wnd && r.mss == st.mss
            && (if dup && st.timerOn && ackno == st.lastack && Retransmits(st)
                then RexInv(r, stream, closed) && r.infr && r.unsent[0] == st.unacked[0] && r.cwnd >= 5 * r.mss
                else SndInv(r, stream, closed))
  {
    if ackno <= st.lastack {
      OldAckKeeps(st, ackno, dup, stream, closed);
    } else if ackno <= st.nxt {
      NewAckKeeps(st, ackno, stream, closed);
    } else {
      SameQueuesKeep(st, st.(acked := 0, ackNow := !ackAlloc), stream, closed);
    }
  }

  lemma OldAckKeeps(st: SndState, ackno: int, dup: bool, stream: seq<byte>, closed: bool)
    requires SndInv(st, stream, closed) && ackno <= st.lastack
    ensures var r := DropUnsent(OldAck(st, ackno, dup), ackno);
            && r.lastack == st.lastack && r.acked == 0 && r.nxt == st.nxt && r.wnd == st.wnd && r.mss == st.mss
            && (if dup && st.timerOn && ackno == st.lastack && Retransmits(st)
                then RexInv(r, stream, closed) && r.infr && r.unsent[0] == st.unacked[0] && r.cwnd >= 5 * r.mss
                else SndInv(r, stream, closed))
  {
    if dup && st.timerOn && ackno == st.lastack {
      var st0 := st.(acked := 0);
      SameQueuesKeep(st, st0, stream, closed);
      DupAckKeeps(st0, stream, closed);
    } else {
      SameQueuesKeep(st, st.(acked := 0, dupacks := 0), stream, closed);
    }
    OldAckDropsNothing(OldAck(st, ackno, dup), ackno, stream, closed);
  }

  /** An ACK for something never sent takes nothing off the queues, moves neither lastack nor the windows of
      congestion control, and is answered: by an empty ACK now, or if there is no memory with the next one. */
  lemma NeverSentAnswered(st: SndState, seqno: int, ackno: int, wnd: u16, tcplen: nat, ackAlloc: bool)
    requires st.cwnd >= 1 && st.ssthresh >= 1 && ackno > st.nxt >= st.lastack
    ensures var r := Ack(st, seqno, ackno, wnd, tcplen, ackAlloc);
            && r.unacked == st.unacked && r.unsent == st.unsent && r.lastack == st.lastack && r.buf == st.buf
            && r.cwnd == st.cwnd && r.ssthresh == st.ssthresh && r.dupacks == st.dupacks && r.infr == st.infr
            && r.acked == 0 && (r.ackNow <==> !ackAlloc)
  {
    hide UpdateWnd, NewAck, OldAck, DropAcked;
    UpdateWndFields(st, seqno, ackno, wnd);
  }

  /** An ACK for nothing new that is no duplicate starts the count again, and otherwise changes no more. */
  lemma OthersResetCount(st: SndState, seqno: int, ackno: int, wnd: u16, tcplen: nat, ackAlloc: bool)
    requires st.cwnd >= 1 && st.ssthresh >= 1 && ackno <= st.lastack
    requires var st1 := UpdateWnd(st, seqno, ackno, wnd);
             tcplen > 0 || st1.wl2 + st1.wnd != st.wl2 + st.wnd || !st.timerOn || ackno < st.lastack
    ensures var r := Ack(st, seqno, ackno, wnd, tcplen, ackAlloc);
            r.dupacks == 0 && r.unacked == st.unacked && r.cwnd == st.cwnd && r.ssthresh == st.ssthresh && r.infr == st.infr
  {
    hide UpdateWnd, NewAck, DupAck, DropAcked;
    UpdateWndFields(st, seqno, ackno, wnd);
  }
}
