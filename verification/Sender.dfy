/** The send half of struct tcp_pcb and the code that updates it, on the 32-bit and 16-bit fields
    of the original. Every method is proved to do what SendQueues says of the view: the same state
    with unbounded stream offsets. */
module Sender {
  import opened SequenceNumbers
  import opened TcpConfig
  import opened Reassembly
  import opened WireFormat
  import opened SendQueues
  import opened SendInvariants
  import opened SendSegments

  class TcpSender {
    ghost const base: int      // the sequence number of stream offset 0, modulo 2^32
    ghost const peerBase: int  // the same for the peer's stream, which acknowledgements are part of
    const mss: u16
    var lastack: u32
    var sndNxt: u32
    var sndLbb: u32
    var sndWnd: u16
    var sndWndMax: u16
    var sndWl1: u32
    var sndWl2: u32
    var cwnd: u16
    var ssthresh: u16
    var sndBuf: u16
    var sndQueuelen: u16
    var unsentOversize: u16
    var acked: u16
    var dupacks: u8
    var timerOn: bool          // rtime >= 0
    var infr: bool             // TF_INFR
    var finQueued: bool        // TF_FIN
    var noDelay: bool          // TF_NODELAY
    var memErr: bool           // TF_NAGLEMEMERR
    var ackNow: bool           // TF_ACK_NOW
    var state: State
    var unsent: seq<WireTx>
    var unacked: seq<WireTx>
    ghost var view: SndState

    /** The fields are the images of the view. */
    ghost predicate Valid()
      reads this
    {
      && mss == view.mss
      && NumbersAre(view.lastack, view.nxt, view.lbb) && WindowsAre(view.wnd, view.wndMax, view.wl1, view.wl2)
      && CongestionIs(view.cwnd, view.ssthresh, view.infr) && CountersAre(view.buf, view.queuelen, view.oversize)
      && AcksAre(view.acked, view.dupacks, view.timerOn) && FlagsAre(view.finQueued, view.noDelay, view.memErr, view.ackNow, view.state)
      && unsent == TxImages(base, view.unsent) && unacked == TxImages(base, view.unacked)
    }

    ghost predicate NumbersAre(la: int, nxt: int, lbb: int)
      reads this`lastack, this`sndNxt, this`sndLbb
    {
      lastack == U32(base + la) && sndNxt == U32(base + nxt) && sndLbb == U32(base + lbb)
    }

    ghost predicate WindowsAre(wnd: u16, wndMax: u16, wl1: int, wl2: int)
      reads this`sndWnd, this`sndWndMax, this`sndWl1, this`sndWl2
    {
      sndWnd == wnd && sndWndMax == wndMax && sndWl1 == U32(peerBase + wl1) && sndWl2 == U32(base + wl2)
    }

    ghost predicate CongestionIs(c: u16, t: u16, fast: bool)
      reads this`cwnd, this`ssthresh, this`infr
    {
      cwnd == c && ssthresh == t && infr == fast
    }

    ghost predicate CountersAre(buf: u16, len: u16, spare: u16)
      reads this`sndBuf, this`sndQueuelen, this`unsentOversize
    {
      sndBuf == buf && sndQueuelen == len && unsentOversize == spare
    }

    ghost predicate AcksAre(a: u16, d: u8, timer: bool)
      reads this`acked, this`dupacks, this`timerOn
    {
      acked == a && dupacks == d && timerOn == timer
    }

    ghost predicate FlagsAre(fin: bool, eager: bool, err: bool, due: bool, s: State)
      reads this`finQueued, this`noDelay, this`memErr, this`ackNow, this`state
    {
      finQueued == fin && noDelay == eager && memErr == err && ackNow == due && state == s
    }

    constructor (ghost base: int, ghost peerBase: int, ghost wl1: int, iss: u32, irs: u32, mss: u16, wnd: u16, cwnd: u16, ssthresh: u16)
      requires iss == U32(base - 1) && irs == U32(peerBase + wl1)
      ensures Valid() && this.base == base && this.peerBase == peerBase
      ensures view == SndState(0, 0, 0, wnd, wnd, wl1, 0, cwnd, ssthresh, mss, TCP_SND_BUF, 0, 0, 0, 0,
                               false, false, false, false, false, false, Established, [], [])
    {
      this.base, this.peerBase, this.mss := base, peerBase, mss;
      lastack, sndNxt, sndLbb, sndWl2 := U32(iss + 1), U32(iss + 1), U32(iss + 1), U32(iss + 1);
      sndWnd, sndWndMax, sndWl1, this.cwnd, this.ssthresh := wnd, wnd, irs, cwnd, ssthresh;
      sndBuf, sndQueuelen, unsentOversize, acked, dupacks := TCP_SND_BUF, 0, 0, 0, 0;
      timerOn, infr, finQueued, noDelay, memErr, ackNow := false, false, false, false, false, false;
      state, unsent, unacked := Established, [], [];
      view := SndState(0, 0, 0, wnd, wnd, wl1, 0, cwnd, ssthresh, mss, TCP_SND_BUF, 0, 0, 0, 0,
                       false, false, false, false, false, false, Established, [], []);
      new;
      RepresentsPlus(U32(base - 1), base - 1, 1);
    }

    // ---------- tcp_output() ----------

    /** tcp_do_output_nagle() */
    predicate NaglePermits()
      reads this
    {
      || unacked == [] || noDelay || infr
      || (unsent != [] && (|unsent| > 1 || |unsent[0].data| >= mss))
      || sndBuf == 0 || sndQueuelen >= TCP_SND_QUEUELEN
    }

    lemma NagleAgrees()
      requires Valid()
      ensures NaglePermits() <==> NagleAllows(view)
    {}

    /** snd_nxt moves to the end of the segment just sent, unless it was sent before. */
    method AdvanceNxt(seg: WireTx, ghost s: TxSeg)
      requires sndNxt == U32(base + view.nxt) && seg == TxImage(base, s)
      requires -0x4000_0000 <= view.nxt - s.End() <= 0x4000_0000
      modifies this`sndNxt
      ensures sndNxt == U32(base + Max(view.nxt, s.End()))
    {
      var next := U32(seg.seqno + seg.Tcplen());
      Plus(base, s.start, s.Len());
      Compare(base, view.nxt, 0, s.End(), 0);
      if SeqLt(sndNxt, next) {
        sndNxt := next;
      }
    }

    /** One transmission of the loop: the segment leaves and moves to unacked. */
    method SendFirst() returns (sent: WireSeg)
      requires Valid() && InReach(view) && unsent != []
      modifies this`unsent, this`unacked, this`sndNxt, this`ackNow, this`timerOn, this`view
      ensures Valid() && InReach(view) && view == SendHead(old(view))
      ensures sent == Wire(base, old(view).unsent[0].Seg())
    {
      hide WindowsAre, CongestionIs, CountersAre, TxImages, InsertUnacked, U32, U16;
      SendHeadInReach(view);
      sent := MoveFirst(view.unsent[0]);
      view := SendHead(view);
    }

    method MoveFirst(ghost s: TxSeg) returns (sent: WireSeg)
      requires Valid() && InReach(view) && unsent != [] && s == view.unsent[0]
      modifies this`unsent, this`unacked, this`sndNxt, this`ackNow, this`timerOn
      ensures sent == Wire(base, s.Seg())
      ensures var v := SendHead(view);
              && unsent == TxImages(base, v.unsent) && unacked == TxImages(base, v.unacked)
              && sndNxt == U32(base + v.nxt) && !ackNow && timerOn
    {
      hide InsertUnacked, Max, U32;
      var seg := unsent[0];
      sent := seg.OnWire();
      timerOn := true;
      unsent := unsent[1..];
      ackNow := false;
      AdvanceNxt(seg, s);
      if seg.Tcplen() > 0 {
        PutUnacked(seg, s);
      }
    }

    /** Onto unacked: behind its last segment, or in front of it for a fast retransmission. */
    method PutUnacked(seg: WireTx, ghost s: TxSeg)
      requires unacked == TxImages(base, view.unacked) && AllNear(view.lastack, view.unacked)
      requires seg == TxImage(base, s) && Near(view.lastack, s)
      modifies this`unacked
      ensures unacked == TxImages(base, InsertUnacked(view.unacked, s))
    {
      ghost var q := view.unacked;
      TxImagesOne(base, s);
      TxImagesConcat(base, q, [s]);
      if unacked == [] {
        unacked := [seg];
      } else {
        var useg := unacked[|unacked| - 1];
        TxImagesLast(base, q);
        NearAt(view.lastack, q, |q| - 1);
        Compare(base, s.start, 0, Last(q).start, 0);
        if SeqLt(seg.seqno, useg.seqno) {
          var last;
          unacked, last := InsertInOrder(unacked, seg, base, view.lastack, q, s);
        } else {
          unacked := unacked + [seg];
        }
      }
    }

    /** What is sendable now is what the unsigned 32-bit comparison of tcp_output() admits. */
    predicate Fits(wnd: u16)
      reads this
    {
      unsent != [] && U32(unsent[0].seqno - lastack + |unsent[0].data|) <= wnd
    }

    lemma FitsAgrees()
      requires Valid() && InReach(view)
      ensures Fits(Wnd(view)) <==> view.unsent != [] && HeadSendable(view)
    {
      if view.unsent != [] {
        UnsignedDistance(base, view.unsent[0].start, |view.unsent[0].data|, view.lastack);
      }
    }

    /** tcp_output() when it is not called from tcp_input(); link is the number of segments the
        link takes before it fails. */
    method TcpOutput(link: nat, ackAlloc: bool) returns (segs: seq<WireSeg>, ok: bool)
      requires Valid() && InReach(view)
      modifies this
      ensures Valid()
      ensures var r := Output(old(view), link, ackAlloc);
              view == r.st && segs == WireAll(base, r.segs) && ok == r.ok
    {
      hide *;
      FitsAgrees();
      OutputFields();
      OutputIs(view, link, ackAlloc);
      var wnd := Min(sndWnd, cwnd);
      if ackNow && !Fits(wnd) {
        SendPendingAck(ackAlloc);
        return [], ackAlloc;
      }
      segs, ok := SendLoop(wnd, link);
      if ok {
        FinishOutput();
      }
    }

    lemma OutputFields()
      requires Valid()
      ensures Min(sndWnd, cwnd) == Wnd(view) && ackNow == view.ackNow
    {}

    /** tcp_send_empty_ack() */
    method SendPendingAck(ackAlloc: bool)
      requires Valid()
      modifies this`ackNow, this`view
      ensures Valid() && view == old(view).(ackNow := !ackAlloc)
    {
      hide NumbersAre, WindowsAre, CongestionIs, CountersAre, AcksAre, TxImages;
      ackNow := !ackAlloc;
      view := view.(ackNow := ackNow);
    }

    /** The link has refused a segment. */
    method FailOutput()
      requires Valid()
      modifies this`timerOn, this`memErr, this`view
      ensures Valid() && view == old(view).(memErr := true, timerOn := true)
    {
      timerOn, memErr := true, true;
      view := view.(memErr := true, timerOn := true);
    }

    method FinishOutput()
      requires Valid()
      modifies this`unsentOversize, this`memErr, this`view
      ensures Valid() && view == Finish(old(view))
    {
      if unsent == [] {
        unsentOversize := 0;
      }
      memErr := false;
      view := Finish(view);
    }

    /** The loop of tcp_output(). */
    method SendLoop(wnd: u16, link: nat) returns (segs: seq<WireSeg>, ok: bool)
      requires Valid() && InReach(view) && wnd == Wnd(view)
      modifies this`unsent, this`unacked, this`sndNxt, this`ackNow, this`timerOn, this`memErr, this`view
      ensures Valid()
      ensures var r := OutputLoop(old(view), link);
              view == r.st && segs == WireAll(base, r.segs) && ok == r.ok
    {
      hide *;
      var left := link;
      segs := [];
      ghost var sent: seq<Seg>, whole := [], OutputLoop(view, link);
      GuardAgrees(wnd);
      LoopStart(base, whole);
      while Fits(wnd)
        invariant Valid() && InReach(view) && wnd == Wnd(view)
        invariant segs == WireAll(base, sent)
        invariant Resumes(whole, sent, OutputLoop(view, left))
        invariant Fits(wnd) && Unhindered() <==> SendsNext(view)
        decreases |unsent|
      {
        if !Unhindered() {
          break;
        }
        FitsMeans(wnd);
        if left == 0 {
          LoopFails(whole, sent, view);
          FailOutput();
          return segs, false;
        }
        LoopStep(base, whole, sent, view, left);
        var seg;
        seg, sent := SendRound(wnd, sent);
        segs, left := segs + [seg], left - 1;
      }
      LoopEnds(whole, sent, view, left);
      ok := true;
    }

    method SendRound(wnd: u16, ghost sent0: seq<Seg>) returns (seg: WireSeg, ghost sent: seq<Seg>)
      requires Valid() && InReach(view) && unsent != [] && view.unsent != [] && wnd == Wnd(view)
      modifies this`unsent, this`unacked, this`sndNxt, this`ackNow, this`timerOn, this`view
      ensures Valid() && InReach(view) && view == SendHead(old(view)) && wnd == Wnd(view)
      ensures seg == Wire(base, old(view).unsent[0].Seg()) && sent == sent0 + [old(view).unsent[0].Seg()]
      ensures Fits(wnd) && Unhindered() <==> SendsNext(view)
      ensures |unsent| < |old(unsent)|
    {
      SendHeadWnd(view);
      sent := sent0 + [view.unsent[0].Seg()];
      seg := SendFirst();
      GuardAgrees(wnd);
    }

    /** The Nagle algorithm, an earlier memory error or a queued FIN lets the next segment go. */
    predicate Unhindered()
      reads this
    {
      NaglePermits() || memErr || finQueued
    }

    lemma GuardAgrees(wnd: u16)
      requires Valid() && InReach(view) && wnd == Wnd(view)
      ensures Fits(wnd) && Unhindered() <==> SendsNext(view)
    {
      FitsAgrees();
      NagleAgrees();
    }

    lemma FitsMeans(wnd: u16)
      requires Valid() && Fits(wnd)
      ensures unsent != [] && view.unsent != []
    {}

    // ---------- Retransmission ----------

    /** tcp_rexmit() */
    method TcpRexmit()
      requires Valid() && InReach(view)
      modifies this`unacked, this`unsent, this`unsentOversize, this`view
      ensures Valid() && view == Rexmit(old(view))
    {
      hide NumbersAre, WindowsAre, CongestionIs, AcksAre, FlagsAre, TxImages, InsertSorted, AllStartBefore;
      if unacked != [] {
        MoveBack();
        view := Rexmit(view);
      }
    }

    /** The first unacked segment goes to its place on unsent. */
    method MoveBack()
      requires Valid() && InReach(view) && unacked != []
      modifies this`unacked, this`unsent, this`unsentOversize
      ensures var v := Rexmit(view);
              && unacked == TxImages(base, v.unacked) && unsent == TxImages(base, v.unsent)
              && unsentOversize == v.oversize
    {
      hide NumbersAre, WindowsAre, CongestionIs, AcksAre, FlagsAre, InsertSorted, AllStartBefore, U32, U16;
      var seg, last := unacked[0], false;
      unacked := unacked[1..];
      unsent, last := InsertInOrder(unsent, seg, base, view.lastack, view.unsent, view.unacked[0]);
      if last {
        unsentOversize := 0;
      }
    }

    /** tcp_rexmit_fast() */
    method TcpRexmitFast()
      requires Valid() && InReach(view)
      modifies this`unacked, this`unsent, this`unsentOversize, this`ssthresh, this`cwnd, this`infr, this`view
      ensures Valid() && view == RexmitFast(old(view))
    {
      hide *;
      ghost var st := view;
      FastFields();
      RexmitFastIs(st);
      if unacked != [] && !infr {
        TcpRexmit();
        EnterRecovery();
      }
    }

    lemma FastFields()
      requires Valid()
      ensures (unacked == [] <==> view.unacked == []) && infr == view.infr
    {}

    /** The thresholds of a fast retransmission. */
    method EnterRecovery()
      requires Valid()
      modifies this`ssthresh, this`cwnd, this`infr, this`view
      ensures Valid() && view == InRecovery(old(view))
    {
      hide U32, U16, TxImages, NumbersAre, CountersAre, AcksAre, FlagsAre;
      ssthresh := HalfWindow();
      cwnd := U16(ssthresh + 3 * mss);
      infr := true;
      view := InRecovery(view);
    }

    /** Half the smaller window, but not less than two segments. */
    method HalfWindow() returns (t: u16)
      ensures var half := if cwnd > sndWnd then sndWnd / 2 else cwnd / 2;
              t == if half < 2 * mss then U16(2 * mss) else half
    {
      if cwnd > sndWnd {
        t := sndWnd / 2;
      } else {
        t := cwnd / 2;
      }
      if t < 2 * mss {
        t := U16(2 * mss);
      }
    }

    /** The retransmission timer of tcp_slowtmr() expires: thresholds, then tcp_rexmit_rto() up to
        its tcp_output(). */
    method RetransmissionTimeout()
      requires Valid()
      modifies this`unacked, this`unsent, this`ssthresh, this`cwnd, this`view
      ensures Valid() && view == RexmitRto(old(view))
    {
      hide U32, U16, TxImages, NumbersAre, CountersAre, AcksAre, FlagsAre;
      if unacked != [] {
        SetThresholds();
        RexmitRtoIs(old(view));
        TcpRexmitRto();
      }
    }

    /** What tcp_slowtmr() does to the congestion window first. */
    method SetThresholds()
      requires Valid()
      modifies this`ssthresh, this`cwnd, this`view
      ensures Valid() && view == WithThresholds(old(view))
    {
      hide U16, TxImages, NumbersAre, CountersAre, AcksAre, FlagsAre;
      var effWnd := Min(cwnd, sndWnd);
      ssthresh := Threshold(effWnd / 2, U16(2 * mss));
      cwnd := mss;
      view := WithThresholds(view);
    }

    /** tcp_rexmit_rto(), up to its tcp_output(). */
    method TcpRexmitRto()
      requires Valid()
      modifies this`unacked, this`unsent, this`view
      ensures Valid() && view == old(view).(unsent := old(view).unacked + old(view).unsent, unacked := [])
    {
      hide NumbersAre, WindowsAre, CongestionIs, CountersAre, AcksAre, FlagsAre;
      TxImagesConcat(base, view.unacked, view.unsent);
      unsent, unacked := unacked + unsent, [];
      view := view.(unsent := view.unacked + view.unsent, unacked := []);
    }

    /** Half the window, but not less than two segments. */
    method Threshold(half: u16, least: u16) returns (t: u16)
      ensures t == if half < least then least else half
    {
      t := half;
      if t < least {
        t := least;
      }
    }

    // ---------- tcp_write() ----------

    /** tcp_write(); budget is the number of allocations that succeed before one fails. */
    method TcpWrite(data: seq<byte>, copy: bool, more: bool, budget: nat) returns (err: Err)
      requires Valid() && TailFits(view) && |data| <= 0xffff
      modifies this`unsent, this`unsentOversize, this`sndLbb, this`sndBuf, this`sndQueuelen, this`memErr, this`view
      ensures Valid() && (view, err) == Write(old(view), data, copy, more, budget)
    {
      var mssLocal := Min(mss, sndWndMax / 2);
      if mssLocal == 0 {
        mssLocal := mss;
      }
      err := TcpWriteChecks(|data|);
      if err == ErrOk && data != [] {
        err := Enqueue(data, mssLocal, copy, more, budget);
      }
    }

    /** The three phases of tcp_write(), and the commit or the way back. */
    method Enqueue(data: seq<byte>, mssLocal: nat, copy: bool, more: bool, budget: nat) returns (err: Err)
      requires Valid() && TailFits(view) && mssLocal == MssLocal(view) && Admitted(view, data)
      modifies this`unsent, this`unsentOversize, this`sndLbb, this`sndBuf, this`sndQueuelen, this`memErr, this`view
      ensures Valid() && (view, err) == Write(old(view), data, copy, more, budget)
    {
      hide *;
      AdmittedMeans(view, data);
      var ok, used, seglen, oversize, queuelen, left := PlanTail(|data|, mssLocal, copy, more, budget);
      if ok {
        err := EnqueueRest(data, used, seglen, mssLocal, copy, more, left, queuelen, oversize, budget);
      } else {
        PlanFailsAtOnce(view, data, copy, more, budget);
        NoteMemErr();
        err := ErrMem;
      }
    }

    /** Phase 3, once the tail has been planned, and the commit. */
    method EnqueueRest(data: seq<byte>, used: nat, seglen: nat, mssLocal: nat, copy: bool, more: bool, left: nat, queuelen: nat,
                       oversize: nat, ghost budget: nat) returns (err: Err)
      requires Valid() && TailFits(view) && mssLocal == MssLocal(view) && Admitted(view, data)
      requires used == Used(view, |data|) && seglen == Concat(view, |data|) && used + seglen <= |data| && (seglen == 0 || budget > 0)
      requires left == budget - (if seglen > 0 then 1 else 0) && queuelen == view.queuelen + if seglen > 0 then 1 else 0
      requires oversize == TailOversize(view, used, seglen, copy, more) && (used + seglen < |data| ==> oversize == 0 || copy)
      modifies this`unsent, this`unsentOversize, this`sndLbb, this`sndBuf, this`sndQueuelen, this`memErr, this`view
      ensures Valid() && (view, err) == Write(old(view), data, copy, more, budget)
    {
      hide *;
      AdmittedMeans(view, data);
      ghost var c := Phase3(view, data, used + seglen, mssLocal, copy, more, left, queuelen, oversize);
      var ok, queue, len, spare := NewSegments(c, data, used + seglen, mssLocal, copy, more, left, queuelen, oversize);
      PlanDecides(view, c, used, seglen, budget);
      if ok {
        PlanCommits(view, c, used, seglen, budget);
        Commit(Write(view, data, copy, more, budget).0, data, used, seglen, queue, spare, len, PlanWrite(view, data, copy));
        err := ErrOk;
      } else {
        NoteMemErr();
        err := ErrMem;
      }
    }

    method NoteMemErr()
      requires Valid()
      modifies this`memErr, this`view
      ensures Valid() && view == old(view).(memErr := true)
    {
      memErr := true;
      view := view.(memErr := true);
    }

    /** tcp_write_checks() */
    method TcpWriteChecks(len: u16) returns (err: Err)
      requires Valid()
      modifies this`memErr, this`view
      ensures Valid()
      ensures if !state.Established? && !state.CloseWait? then err == ErrConn && view == old(view)
              else if len > 0 && (len > sndBuf || sndQueuelen >= TCP_SND_QUEUELEN) then
                err == ErrMem && view == old(view).(memErr := true)
              else err == ErrOk && view == old(view)
    {
      if !state.Established? && !state.CloseWait? { return ErrConn; }
      if len == 0 { return ErrOk; }
      if len > sndBuf || sndQueuelen >= TCP_SND_QUEUELEN {
        memErr := true;
        view := view.(memErr := true);
        return ErrMem;
      }
      err := ErrOk;
    }

    /** tcp_pbuf_prealloc(): how many bytes more than length the buffer gets. */
    method PbufPrealloc(length: nat, max: nat, more: bool, first: bool) returns (oversize: nat)
      requires Valid() && length <= max
      ensures oversize == Extra(view, length, max, more, first)
    {
      var alloc := length;
      if length < max {
        if more || (!noDelay && (!first || unsent != [] || unacked != [])) {
          alloc := Min(max, length + TCP_OVERSIZE);
        }
      }
      return alloc - length;
    }

    /** Phases 1 and 2: what goes into the oversized tail of the last unsent segment, and what into
        a buffer chained to it. */
    method PlanTail(len: nat, mssLocal: nat, copy: bool, more: bool, budget: nat)
      returns (ok: bool, used: nat, seglen: nat, oversize: nat, queuelen: nat, left: nat)
      requires Valid() && TailFits(view) && mssLocal == MssLocal(view) && 0 < len <= 0xffff
      ensures used == Used(view, len) && seglen == Concat(view, len)
      ensures ok <==> seglen == 0 || budget > 0
      ensures ok ==> left == budget - if seglen > 0 then 1 else 0
      ensures ok ==> queuelen == view.queuelen + if seglen > 0 then 1 else 0
      ensures ok ==> oversize == TailOversize(view, used, seglen, copy, more)
      ensures ok && used + seglen < len ==> oversize == 0 || copy
    {
      ok, used, seglen, oversize, queuelen, left := true, 0, 0, 0, sndQueuelen, budget;
      if unsent != [] {
        TxImagesLast(base, view.unsent);
        var lastUnsent := unsent[|unsent| - 1];
        var space := mssLocal - |lastUnsent.data|;
        oversize := unsentOversize;
        if oversize > 0 {
          used := Min(oversize, len);
          oversize, space := oversize - used, space - used;
        }
        if used < len && space > 0 && |lastUnsent.data| > 0 {
          seglen := Min(space, len - used);
          if left == 0 {
            ok := false;
            return;
          }
          left := left - 1;
          if copy {
            oversize := PbufPrealloc(seglen, space, more, true);
          }
          queuelen := queuelen + 1;
        }
      }
    }

    /** The allocations for one new segment of n bytes. */
    method AllocSegment(n: nat, mssLocal: nat, copy: bool, more: bool, first: bool, budget: nat, queuelen0: nat, oversize0: nat)
      returns (ok: bool, left: nat, queuelen: nat, oversize: nat)
      requires Valid() && n <= mssLocal
      ensures ok <==> AllocsFor(1, copy) <= budget && queuelen0 + PbufsFor(1, copy) <= TCP_SND_QUEUELEN
      ensures ok ==> left == budget - AllocsFor(1, copy) && queuelen == queuelen0 + PbufsFor(1, copy)
      ensures ok ==> oversize == if copy then Extra(view, n, mssLocal, more, first) else oversize0
    {
      ok, left, queuelen, oversize := false, budget, queuelen0, oversize0;
      if copy {
        if left == 0 { return; }
        left := left - 1;
        oversize := PbufPrealloc(n, mssLocal, more, first);
      } else {
        if left < 2 { return; }
        left := left - 2;
      }
      queuelen := queuelen + if copy then 1 else 2;
      if queuelen > TCP_SND_QUEUELEN { return; }
      if left == 0 { return; }
      left := left - 1;
      ok := true;
    }

    /** Phase 3: new segments, in a queue of their own until all of them have been allocated. */
    method NewSegments(ghost c: Phase3, data: seq<byte>, pos0: nat, mssLocal: nat, copy: bool, more: bool, budget: nat,
                       queuelen0: nat, oversize0: nat)
      returns (ok: bool, queue: seq<WireTx>, queuelen: nat, oversize: nat)
      requires Valid() && mssLocal >= 1 && pos0 <= |data|
      requires c == Phase3(view, data, pos0, mssLocal, copy, more, budget, queuelen0, oversize0)
      ensures ok <==> c.Succeeds()
      ensures ok ==> queue == TxImages(base, c.All()) && queuelen == c.Queuelen(c.All()) && oversize == c.Oversize(c.All())
    {
      hide *;
      var pos, left := pos0, budget;
      queue, queuelen, oversize, ok := [], queuelen0, oversize0, true;
      ghost var made: seq<TxSeg> := [];
      Phase3Start(base, c);
      while pos < |data|
        invariant pos0 <= pos <= |data|
        invariant c.Made(pos, made, left, queuelen, oversize) && queue == TxImages(base, made)
        invariant |queue| == |made|
      {
        Phase3Step(c, pos, made, left, queuelen, oversize);
        var n := SegmentLength(|data| - pos, mssLocal);
        ok, left, queuelen, oversize := AllocSegment(n, mssLocal, copy, more, queue == [], left, queuelen, oversize);
        if !ok { return; }
        queue := queue + [WireTx(SeqnoAt(pos), data[pos..pos + n], false, if copy then 1 else 2)];
        made := Extended(c, pos, n, made, queue);
        pos := pos + n;
      }
      Phase3End(c, pos, made, left, queuelen, oversize);
    }

    /** The sequence number pos bytes behind snd_lbb. */
    function SeqnoAt(pos: nat): u32
      reads this
    {
      U32(sndLbb + pos)
    }

    /** The commit of tcp_write(): the tail first, then the new segments, then the numbers. */
    method Commit(ghost v: SndState, data: seq<byte>, used: nat, seglen: nat, queue: seq<WireTx>, oversize: u16, queuelen: u16, ghost p: Plan)
      requires Valid() && used == p.used && seglen == p.concat && queue == TxImages(base, p.queue)
      requires used + seglen <= |data| <= view.buf && (view.unsent == [] ==> used + seglen == 0)
      requires v == view.(unsent := UnsentAfter(view, data, p), oversize := oversize, lbb := view.lbb + |data|,
                          buf := view.buf - |data|, queuelen := queuelen)
      modifies this`unsent, this`unsentOversize, this`sndLbb, this`sndBuf, this`sndQueuelen, this`view
      ensures Valid() && view == v
    {
      hide UnsentAfter, Extend, TxImages, TailFits, MssLocal, NumbersAre, CountersAre, WindowsAre, CongestionIs, AcksAre, FlagsAre;
      unsent := ExtendedUnsent(data, used, seglen, queue, p);
      CommitNumbers(|data|, oversize, queuelen);
      view := v;
    }

    method CommitNumbers(len: nat, oversize: u16, queuelen: u16)
      requires NumbersAre(view.lastack, view.nxt, view.lbb) && CountersAre(view.buf, view.queuelen, view.oversize) && len <= view.buf
      modifies this`unsentOversize, this`sndLbb, this`sndBuf, this`sndQueuelen
      ensures NumbersAre(view.lastack, view.nxt, view.lbb + len) && CountersAre(view.buf - len, queuelen, oversize)
    {
      hide U32;
      Plus(base, view.lbb, len);
      unsentOversize := oversize;
      sndLbb := U32(sndLbb + len);
      sndBuf := sndBuf - len;
      sndQueuelen := queuelen;
    }

    /** pcb->unsent with the last segment extended and the new segments behind it. */
    method ExtendedUnsent(data: seq<byte>, used: nat, seglen: nat, queue: seq<WireTx>, ghost p: Plan) returns (q: seq<WireTx>)
      requires unsent == TxImages(base, view.unsent)
      requires used == p.used && seglen == p.concat && queue == TxImages(base, p.queue)
      requires used + seglen <= |data| && (view.unsent == [] ==> used + seglen == 0)
      ensures q == TxImages(base, UnsentAfter(view, data, p))
    {
      hide TxImages, U32;
      UnsentImages();
      if unsent == [] { return queue; }
      var n := |unsent| - 1;
      TxImagesLast(base, view.unsent);
      ghost var last' := Extend(Last(view.unsent), data[..used + seglen], seglen > 0);
      var lastUnsent := unsent[n];
      if used > 0 {
        lastUnsent := lastUnsent.(data := lastUnsent.data + data[..used]);
      }
      if seglen > 0 {
        lastUnsent := lastUnsent.(data := lastUnsent.data + data[used..used + seglen], clen := lastUnsent.clen + 1);
      }
      ExtendedTwice(Last(view.unsent).data, data, used, seglen);
      assert lastUnsent == TxImage(base, last');
      Snoc(base, view.unsent[..n], last');
      TxImagesConcat(base, view.unsent[..n] + [last'], p.queue);
      return unsent[..n] + [lastUnsent] + queue;
    }

    lemma UnsentImages()
      requires unsent == TxImages(base, view.unsent)
      ensures unsent == [] <==> view.unsent == []
    {}

    /** The ghost list of new segments grows like the real one. */
    lemma Extended(c: Phase3, pos: nat, n: nat, made: seq<TxSeg>, queue: seq<WireTx>) returns (made': seq<TxSeg>)
      requires Valid() && c.st == view && pos + n <= |c.data| && queue != []
      requires queue[..|queue| - 1] == TxImages(base, made)
      requires queue[|queue| - 1] == WireTx(SeqnoAt(pos), c.data[pos..pos + n], false, if c.copy then 1 else 2)
      ensures made' == made + [c.Segment(pos, n)] && queue == TxImages(base, made') && |queue| == |made'|
    {
      made' := made + [c.Segment(pos, n)];
      Plus(base, view.lbb, pos);
      Snoc(base, made, c.Segment(pos, n));
      assert queue == queue[..|queue| - 1] + [queue[|queue| - 1]];
    }

    // ---------- tcp_send_fin() ----------

    /** tcp_send_fin(); budget is the number of allocations that succeed before one fails. */
    method TcpSendFin(budget: nat) returns (err: Err)
      requires Valid()
      modifies this`unsent, this`unsentOversize, this`sndLbb, this`sndBuf, this`sndQueuelen, this`finQueued, this`memErr, this`view
      ensures Valid() && (view, err) == SendFin(old(view), budget)
    {
      hide *;
      LastUnsent();
      if unsent != [] && !unsent[|unsent| - 1].fin {
        MergeFin();
        FinOnTail(old(view), budget);
        err := ErrOk;
      } else {
        err := TcpEnqueueFin(budget);
      }
    }

    lemma LastUnsent()
      requires Valid()
      ensures |unsent| == |view.unsent| && (unsent != [] ==> (unsent[|unsent| - 1].fin <==> Last(view.unsent).fin))
    {
      if unsent != [] { TxImagesLast(base, view.unsent); }
    }

    /** The FIN flag of the last unsent segment. */
    method MergeFin()
      requires Valid() && unsent != [] && view.unsent != []
      modifies this`unsent, this`finQueued, this`view
      ensures Valid() && view == FinMerged(old(view))
    {
      hide NumbersAre, WindowsAre, CongestionIs, CountersAre, AcksAre, TxImages, U32, U16;
      var n := |unsent| - 1;
      LastUnsent();
      TxImagesLast(base, view.unsent);
      ghost var last := Last(view.unsent).(fin := true);
      TxImagesOne(base, last);
      TxImagesConcat(base, view.unsent[..n], [last]);
      unsent := unsent[..n] + [unsent[n].(fin := true)];
      finQueued := true;
      view := FinMerged(view);
    }

    /** tcp_enqueue_flags() for a FIN. */
    method TcpEnqueueFin(budget: nat) returns (err: Err)
      requires Valid() && (unsent != [] ==> view.unsent != [] && Last(view.unsent).fin) && |unsent| == |view.unsent|
      modifies this`unsent, this`unsentOversize, this`sndLbb, this`sndBuf, this`sndQueuelen, this`finQueued, this`memErr, this`view
      ensures Valid() && (view, err) == SendFin(old(view), budget)
    {
      hide *;
      FinOnItsOwn(view, budget);
      Buffers();
      if sndBuf == 0 { return ErrMem; }
      if budget < 2 {
        NoteMemErr();
        return ErrMem;
      }
      AppendFin();
      err := ErrOk;
    }

    lemma Buffers()
      requires Valid()
      ensures sndBuf == view.buf && sndQueuelen == view.queuelen && unsentOversize == view.oversize
    {}

    method AppendFin()
      requires Valid() && sndBuf > 0 && view.buf > 0
      modifies this`unsent, this`unsentOversize, this`sndLbb, this`sndBuf, this`sndQueuelen, this`finQueued, this`view
      ensures Valid() && view == FinAppended(old(view))
    {
      hide WindowsAre, CongestionIs, AcksAre, CountersAre, FlagsAre, TxImages, U32, U16;
      ghost var fin := TxSeg(view.lbb, [], true, 1);
      TxImagesOne(base, fin);
      TxImagesConcat(base, view.unsent, [fin]);
      unsent := unsent + [WireTx(sndLbb, [], true, 1)];
      CountFin();
      view := FinAppended(view);
    }

    /** The numbers and the flag of tcp_enqueue_flags() for a FIN. */
    method CountFin()
      requires NumbersAre(view.lastack, view.nxt, view.lbb) && CountersAre(view.buf, view.queuelen, view.oversize) && view.buf > 0
      requires FlagsAre(view.finQueued, view.noDelay, view.memErr, view.ackNow, view.state)
      modifies this`unsentOversize, this`sndLbb, this`sndBuf, this`sndQueuelen, this`finQueued
      ensures NumbersAre(view.lastack, view.nxt, view.lbb + 1) && CountersAre(view.buf - 1, U16(view.queuelen + 1), 0)
      ensures FlagsAre(true, view.noDelay, view.memErr, view.ackNow, view.state)
    {
      hide U32, U16;
      Plus(base, view.lbb, 1);
      unsentOversize := 0;
      sndLbb := U32(sndLbb + 1);
      sndBuf := sndBuf - 1;
      finQueued := true;
      sndQueuelen := U16(sndQueuelen + 1);
    }

    method EnterState(s: State)
      requires Valid()
      modifies this`state, this`view
      ensures Valid() && view == old(view).(state := s)
    {
      hide NumbersAre, WindowsAre, CongestionIs, CountersAre, AcksAre, TxImages;
      state := s;
      view := view.(state := s);
    }

    lemma StateIs()
      requires Valid()
      ensures state == view.state
    {}

    // ---------- The ACK half of tcp_receive() ----------

    /** The positions an acknowledgement carries, and that they can be compared. */
    ghost predicate AckInReach(seqno: u32, ackno: u32, seqPos: int, ackPos: int)
      reads this
    {
      && seqno == U32(peerBase + seqPos) && ackno == U32(base + ackPos)
      && -0x2000_0000 <= ackPos - view.lastack <= 0x2000_0000
      && -0x2000_0000 <= view.wl2 - view.lastack <= 0x2000_0000
      && -0x2000_0000 <= seqPos - view.wl1 <= 0x2000_0000
    }

    /** The ACK half of tcp_receive(); seqno, ackno, wnd and tcplen are the globals tcp_input() has
        set from the header. */
    method ReceiveAck(seqno: u32, ackno: u32, wnd: u16, tcplen: nat, ackAlloc: bool, ghost seqPos: int, ghost ackPos: int)
      requires Valid() && InReach(view) && AckInReach(seqno, ackno, seqPos, ackPos)
      requires view.cwnd >= 1 && view.ssthresh >= 1
      modifies this
      ensures Valid() && view == Ack(old(view), seqPos, ackPos, wnd, tcplen, ackAlloc)
    {
      hide *;
      ghost var st := view;
      WindowFields();
      AckIs(seqno, ackno, seqPos, ackPos, wnd, tcplen, ackAlloc);
      var rightWndEdge := U32(sndWl2 + sndWnd);
      UpdateWindow(seqno, ackno, wnd, seqPos, ackPos);
      WindowFields();
      UpdateWndInReach(st, seqPos, ackPos, wnd);
      EdgesCompare(base, st.wl2, st.wnd, view.wl2, view.wnd);
      ProcessAck(ackno, tcplen == 0 && U32(sndWl2 + sndWnd) == rightWndEdge, ackAlloc, ackPos);
    }

    lemma WindowFields()
      requires Valid()
      ensures sndWl2 == U32(base + view.wl2) && sndWnd == view.wnd
    {}

    lemma AckIs(seqno: u32, ackno: u32, seqPos: int, ackPos: int, wnd: u16, tcplen: nat, ackAlloc: bool)
      requires AckInReach(seqno, ackno, seqPos, ackPos) && view.cwnd >= 1 && view.ssthresh >= 1
      ensures ackno == U32(base + ackPos) && -0x2000_0000 <= ackPos - view.lastack <= 0x2000_0000
      ensures -0x2000_0000 <= view.wl2 - view.lastack <= 0x2000_0000
      ensures var st1 := UpdateWnd(view, seqPos, ackPos, wnd);
              && st1.cwnd >= 1 && st1.ssthresh >= 1
              && Ack(view, seqPos, ackPos, wnd, tcplen, ackAlloc) ==
                 AckWith(st1, ackPos, tcplen == 0 && st1.wl2 + st1.wnd == view.wl2 + view.wnd, ackAlloc)
    {
      hide AckWith;
    }

    /** The window update. */
    method UpdateWindow(seqno: u32, ackno: u32, wnd: u16, ghost seqPos: int, ghost ackPos: int)
      requires Valid() && AckInReach(seqno, ackno, seqPos, ackPos)
      modifies this`sndWnd, this`sndWndMax, this`sndWl1, this`sndWl2, this`view
      ensures Valid() && view == UpdateWnd(old(view), seqPos, ackPos, wnd)
    {
      WindowAgrees(seqno, ackno, wnd, seqPos, ackPos);
      if SeqLt(sndWl1, seqno) || (sndWl1 == seqno && SeqLt(sndWl2, ackno)) || (sndWl2 == ackno && wnd > sndWnd) {
        TakeWindow(seqno, ackno, wnd, seqPos, ackPos);
      }
    }

    lemma WindowAgrees(seqno: u32, ackno: u32, wnd: u16, seqPos: int, ackPos: int)
      requires Valid() && AckInReach(seqno, ackno, seqPos, ackPos)
      ensures SeqLt(sndWl1, seqno) || (sndWl1 == seqno && SeqLt(sndWl2, ackno)) || (sndWl2 == ackno && wnd > sndWnd) <==>
              UpdatesWnd(view, seqPos, ackPos, wnd)
    {
      Compare(peerBase, view.wl1, 0, seqPos, 0);
      CompareEqual(peerBase, view.wl1, seqPos);
      Compare(base, view.wl2, 0, ackPos, 0);
      CompareEqual(base, view.wl2, ackPos);
    }

    method TakeWindow(seqno: u32, ackno: u32, wnd: u16, ghost seqPos: int, ghost ackPos: int)
      requires Valid() && seqno == U32(peerBase + seqPos) && ackno == U32(base + ackPos)
      modifies this`sndWnd, this`sndWndMax, this`sndWl1, this`sndWl2, this`view
      ensures Valid()
      ensures view == old(view).(wnd := wnd, wndMax := Max(old(view).wndMax, wnd), wl1 := seqPos, wl2 := ackPos)
    {
      hide U32, U16, TxImages, NumbersAre, CongestionIs, CountersAre, AcksAre, FlagsAre;
      sndWnd := wnd;
      sndWndMax := Max(sndWndMax, wnd);
      sndWl1, sndWl2 := seqno, ackno;
      view := view.(wnd := wnd, wndMax := sndWndMax, wl1 := seqPos, wl2 := ackPos);
    }

    /** The acknowledgement itself; dup says that it carries no data and did not move the edge. */
    method ProcessAck(ackno: u32, dup: bool, ackAlloc: bool, ghost ackPos: int)
      requires Valid() && InReach(view) && ackno == U32(base + ackPos)
      requires -0x2000_0000 <= ackPos - view.lastack <= 0x2000_0000
      requires view.cwnd >= 1 && view.ssthresh >= 1
      modifies this
      ensures Valid() && view == AckWith(old(view), ackPos, dup, ackAlloc)
    {
      hide *;
      ghost var st := view;
      Counters();
      AckCases(ackno, dup, ackAlloc, ackPos);
      if SeqLeq(ackno, lastack) {
        OldAcknowledgement(ackno, dup, ackPos);
        OldAckNear(st, ackPos, dup);
      } else if SeqBetween(ackno, lastack + 1, sndNxt) {
        NewAcknowledgement(ackno, ackPos);
      } else {
        SetAckNow(!ackAlloc);
      }
      DropUnsentSegments(ackno, st.lastack, ackPos);
    }

    /** The three kinds of acknowledgements, told apart by 32-bit comparisons. */
    lemma AckCases(ackno: u32, dup: bool, ackAlloc: bool, ackPos: int)
      requires Valid() && InReach(view) && ackno == U32(base + ackPos)
      requires -0x2000_0000 <= ackPos - view.lastack <= 0x2000_0000 && view.cwnd >= 1 && view.ssthresh >= 1
      ensures SeqLeq(ackno, lastack) <==> ackPos <= view.lastack
      ensures SeqBetween(ackno, lastack + 1, sndNxt) <==> view.lastack < ackPos <= view.nxt
      ensures AllNear(view.lastack, view.unsent) && -0x2000_0000 <= view.nxt - view.lastack <= 0x2000_0000
      ensures AckWith(view, ackPos, dup, ackAlloc) ==
              DropUnsent(if ackPos <= view.lastack then OldAck(view, ackPos, dup)
                         else if ackPos <= view.nxt then NewAck(view, ackPos)
                         else view.(acked := 0, ackNow := !ackAlloc), ackPos)
    {
      hide DropUnsent, OldAck, NewAck, U32, S32;
      Compare(base, ackPos, 0, view.lastack, 0);
      Compare(base, ackPos, 0, view.lastack, 1);
      Compare(base, ackPos, 0, view.nxt, 0);
    }

    method SetAckNow(due: bool)
      requires Valid()
      modifies this`acked, this`ackNow, this`view
      ensures Valid() && view == old(view).(acked := 0, ackNow := due)
    {
      acked, ackNow := 0, due;
      view := view.(acked := 0, ackNow := due);
    }

    /** An ACK for nothing new, perhaps a duplicate one. */
    method OldAcknowledgement(ackno: u32, dup: bool, ghost ackPos: int)
      requires Valid() && InReach(view) && ackno == U32(base + ackPos)
      requires -0x2000_0000 <= ackPos - view.lastack <= 0x2000_0000
      modifies this
      ensures Valid() && view == OldAck(old(view), ackPos, dup)
    {
      CompareEqual(base, view.lastack, ackPos);
      if dup && timerOn && lastack == ackno {
        ResetAcked(dupacks);
        CountDuplicate();
      } else {
        ResetAcked(0);
      }
    }

    method ResetAcked(count: u8)
      requires Valid()
      modifies this`acked, this`dupacks, this`view
      ensures Valid() && view == old(view).(acked := 0, dupacks := count)
    {
      acked, dupacks := 0, count;
      view := view.(acked := 0, dupacks := count);
    }

    /** A duplicate ACK is counted; the third one retransmits, later ones inflate the window. */
    method CountDuplicate()
      requires Valid() && InReach(view)
      modifies this
      ensures Valid() && view == DupAck(old(view))
    {
      hide *;
      DupAckCases(view);
      Counters();
      var n := if dupacks + 1 <= 0xff then dupacks + 1 else dupacks;
      if n == 3 {
        SetDupacks(3, cwnd);
        TcpRexmitFast();
      } else if n > 3 && U16(cwnd + mss) > cwnd {
        SetDupacks(n, U16(cwnd + mss));
      } else {
        SetDupacks(n, cwnd);
      }
    }

    lemma Counters()
      requires Valid()
      ensures dupacks == view.dupacks && cwnd == view.cwnd && mss == view.mss
      ensures lastack == U32(base + view.lastack) && sndNxt == U32(base + view.nxt) && timerOn == view.timerOn
    {}

    method SetDupacks(n: u8, c: u16)
      requires Valid()
      modifies this`dupacks, this`cwnd, this`view
      ensures Valid() && view == old(view).(dupacks := n, cwnd := c)
    {
      dupacks, cwnd := n, c;
      view := view.(dupacks := n, cwnd := c);
    }

    /** An ACK for new data. */
    method NewAcknowledgement(ackno: u32, ghost ackPos: int)
      requires Valid() && InReach(view) && ackno == U32(base + ackPos)
      requires view.lastack < ackPos <= view.nxt
      requires view.cwnd >= 1 && view.ssthresh >= 1
      modifies this
      ensures Valid() && view == NewAck(old(view), ackPos)
      ensures view.nxt == old(view).nxt && AllNear(old(view).lastack, view.unsent)
    {
      hide *;
      ghost var la := view.lastack;
      ReachMeans(view);
      NewAckIs(view, ackPos);
      LeaveRecovery();
      CountAcked(ackno, ackPos);
      RemoveAcked(ackno, la, ackPos);
    }

    /** The congestion window: fast recovery ends, and the window grows. */
    method LeaveRecovery()
      requires Valid() && view.cwnd >= 1 && view.ssthresh >= 1
      modifies this`infr, this`cwnd, this`view
      ensures Valid() && view == Recovered(old(view))
    {
      hide TxImages, U32, U16, GrowCwnd, NumbersAre, WindowsAre, CountersAre, AcksAre, FlagsAre;
      if infr {
        infr := false;
        cwnd := ssthresh;
      }
      cwnd := GrownCwnd(cwnd);
      view := Recovered(view);
    }

    /** The number of bytes acknowledged. */
    method CountAcked(ackno: u32, ghost ackPos: int)
      requires Valid() && ackno == U32(base + ackPos)
      modifies this`acked, this`sndBuf, this`dupacks, this`lastack, this`view
      ensures Valid() && view == Counted(old(view), ackPos)
    {
      hide TxImages, U32, U16, WindowsAre, CongestionIs, FlagsAre, Counted;
      CountedIs(view, ackPos);
      acked := U16(U32(ackno - lastack));
      Difference16Mod(base, ackPos, 0, view.lastack);
      sndBuf := U16(sndBuf + acked);
      dupacks := 0;
      lastack := ackno;
      view := Counted(view, ackPos);
    }

    /** The acknowledged segments leave unacked. */
    method RemoveAcked(ackno: u32, ghost la: int, ghost ackPos: int)
      requires Valid() && ackno == U32(base + ackPos) && -0x2000_0000 <= ackPos - la <= 0x2000_0000
      requires AllNear(la, view.unacked)
      modifies this`unacked, this`acked, this`sndQueuelen, this`timerOn, this`view
      ensures Valid() && view == Removed(old(view), ackPos)
    {
      hide TxImages, U32, U16, NumbersAre, WindowsAre, CongestionIs, FlagsAre, AllNear, DropAcked;
      ghost var v := Removed(view, ackPos);
      DropUnackedSegments(ackno, la, ackPos);
      NoImages(base, v.unacked);
      timerOn := unacked != [];
      view := v;
    }

    /** Slow start and congestion avoidance. */
    method GrownCwnd(c: u16) returns (r: u16)
      requires c >= 1
      ensures r == GrowCwnd(c, ssthresh, mss)
    {
      r := c;
      if c < ssthresh {
        if U16(c + mss) > c {
          r := U16(c + mss);
        }
      } else {
        var newCwnd := U16(c + mss * mss / c);
        if newCwnd > c {
          r := newCwnd;
        }
      }
    }

    /** The loop over unacked. */
    method DropUnackedSegments(ackno: u32, ghost la: int, ghost ackPos: int)
      requires ackno == U32(base + ackPos) && -0x2000_0000 <= ackPos - la <= 0x2000_0000
      requires unacked == TxImages(base, view.unacked) && AllNear(la, view.unacked)
      modifies this`unacked, this`acked, this`sndQueuelen
      ensures var d := DropAcked(view.unacked, ackPos, old(acked));
              && unacked == TxImages(base, d.rest) && acked == d.acked
              && sndQueuelen == U16(old(sndQueuelen) - d.clen)
    {
      hide *;
      ghost var r, whole := view.unacked, DropAcked(view.unacked, ackPos, acked);
      EndsCompare(base, la, r, ackPos, ackPos);
      DropStart(whole, sndQueuelen);
      while unacked != [] && SeqLeq(unacked[0].seqno + unacked[0].Tcplen(), ackno)
        invariant unacked == TxImages(base, r) && AllNear(la, r) && (unacked == [] <==> r == [])
        invariant DropResumes(whole, old(sndQueuelen), DropAcked(r, ackPos, acked), sndQueuelen)
        invariant unacked != [] ==> (SeqLeq(unacked[0].seqno + unacked[0].Tcplen(), ackno) <==> r[0].End() <= ackPos)
        decreases |unacked|
      {
        HeadImage(base, la, r);
        var next := unacked[0];
        unacked := unacked[1..];
        DropStep(whole, old(sndQueuelen), r, ackPos, acked, sndQueuelen);
        if acked != 0 && next.fin {
          acked := acked - 1;
        }
        sndQueuelen := Minus16(sndQueuelen, next.clen);
        r := r[1..];
        EndsCompare(base, la, r, ackPos, ackPos);
      }
      DropEnds(whole, old(sndQueuelen), r, ackPos, acked, sndQueuelen);
    }

    /** The loop over unsent: after a retransmission its segments may have been sent once. */
    method DropUnsentSegments(ackno: u32, ghost la: int, ghost ackPos: int)
      requires Valid() && ackno == U32(base + ackPos) && -0x2000_0000 <= ackPos - la <= 0x2000_0000
      requires AllNear(la, view.unsent) && -0x2000_0000 <= view.nxt - la <= 0x2000_0000
      modifies this`unsent, this`unsentOversize, this`acked, this`sndQueuelen, this`view
      ensures Valid() && view == DropUnsent(old(view), ackPos)
    {
      hide U32, U16, TxImages, DropAcked, S32;
      ghost var v := DropUnsent(view, ackPos);
      Compare(base, ackPos, 0, view.nxt, 0);
      if SeqLeq(ackno, sndNxt) {
        DropUnsentLoop(ackno, la, ackPos);
        view := v;
      }
    }

    method DropUnsentLoop(ackno: u32, ghost la: int, ghost ackPos: int)
      requires ackno == U32(base + ackPos) && -0x2000_0000 <= ackPos - la <= 0x2000_0000 && ackPos <= view.nxt
      requires unsent == TxImages(base, view.unsent) && AllNear(la, view.unsent)
      requires sndNxt == U32(base + view.nxt) && -0x2000_0000 <= view.nxt - la <= 0x2000_0000
      modifies this`unsent, this`unsentOversize, this`acked, this`sndQueuelen
      ensures var d := DropAcked(view.unsent, ackPos, old(acked));
              && unsent == TxImages(base, d.rest) && acked == d.acked
              && sndQueuelen == U16(old(sndQueuelen) - d.clen)
              && unsentOversize == if view.unsent != [] && d.rest == [] then 0 else old(unsentOversize)
    {
      hide *;
      ghost var r, whole := view.unsent, DropAcked(view.unsent, ackPos, acked);
      EndsCompare(base, la, r, ackPos, view.nxt);
      DropStart(whole, sndQueuelen);
      while unsent != [] && SeqBetween(ackno, unsent[0].seqno + unsent[0].Tcplen(), sndNxt)
        invariant unsent == TxImages(base, r) && AllNear(la, r) && (unsent == [] <==> r == [])
        invariant DropResumes(whole, old(sndQueuelen), DropAcked(r, ackPos, acked), sndQueuelen)
        invariant unsentOversize == if view.unsent != [] && r == [] then 0 else old(unsentOversize)
        invariant unsent != [] ==>
                    (SeqBetween(ackno, unsent[0].seqno + unsent[0].Tcplen(), sndNxt) <==> r[0].End() <= ackPos)
        decreases |unsent|
      {
        HeadImage(base, la, r);
        var next := unsent[0];
        unsent := unsent[1..];
        if unsent == [] {
          unsentOversize := 0;
        }
        DropStep(whole, old(sndQueuelen), r, ackPos, acked, sndQueuelen);
        if acked != 0 && next.fin {
          acked := acked - 1;
        }
        sndQueuelen := Minus16(sndQueuelen, next.clen);
        r := r[1..];
        EndsCompare(base, la, r, ackPos, view.nxt);
      }
      DropEnds(whole, old(sndQueuelen), r, ackPos, acked, sndQueuelen);
    }
  }

  function Minus16(a: u16, b: nat): u16 { U16(a - b) }

  /** The spare bytes behind the last unsent segment after phases 1 and 2 of tcp_write(). */
  function TailOversize(st: SndState, used: nat, concat: nat, copy: bool, more: bool): nat
    requires used <= st.oversize
    requires concat > 0 ==> st.unsent != [] && concat <= MssLocal(st) - |Last(st.unsent).data| - used
  {
    if concat > 0 && copy then Extra(st, concat, MssLocal(st) - |Last(st.unsent).data| - used, more, true)
    else st.oversize - used
  }

  lemma Snoc(base: int, q: seq<TxSeg>, s: TxSeg)
    ensures TxImages(base, q + [s]) == TxImages(base, q) + [TxImage(base, s)]
  {
    TxImagesOne(base, s);
    TxImagesConcat(base, q, [s]);
  }

  function SegmentLength(left: nat, mss: nat): nat { Min(left, mss) }

  /** What phase 3 of tcp_write() starts from. */
  datatype Phase3 = Phase3(st: SndState, data: seq<byte>, pos: nat, mss: nat, copy: bool, more: bool, budget: nat,
                           queuelen: nat, oversize: nat)
  {
    function Clen(): nat { if copy then 1 else 2 }

    function From(at: nat): seq<TxSeg>
      requires mss >= 1 && at <= |data|
    {
      Segments(st.lbb + at, data[at..], mss, Clen())
    }

    function All(): seq<TxSeg>
      requires mss >= 1 && pos <= |data|
    {
      From(pos)
    }

    function Segment(at: nat, n: nat): TxSeg
      requires at + n <= |data|
    {
      TxSeg(st.lbb + at, data[at..at + n], false, Clen())
    }

    function Queuelen(q: seq<TxSeg>): nat { queuelen + PbufsFor(|q|, copy) }

    function Oversize(q: seq<TxSeg>): nat
      requires forall s :: s in q ==> |s.data| <= mss
    {
      if q != [] && copy then Extra(st, |Last(q).data|, mss, more, |q| == 1) else oversize
    }

    predicate Fits(q: seq<TxSeg>) { AllocsFor(|q|, copy) <= budget && (q == [] || Queuelen(q) <= TCP_SND_QUEUELEN) }

    predicate Succeeds()
      requires mss >= 1 && pos <= |data|
    {
      Fits(All())
    }

    /** made are the new segments up to offset at. */
    ghost predicate Made(at: nat, made: seq<TxSeg>, left: nat, len: nat, spare: nat) {
      && mss >= 1 && pos <= at <= |data| && made + From(at) == All() && Fits(made)
      && left == budget - AllocsFor(|made|, copy) && len == Queuelen(made)
      && (forall s :: s in made ==> |s.data| <= mss) && spare == Oversize(made)
    }
  }

  lemma Phase3Start(base: int, c: Phase3)
    requires c.mss >= 1 && c.pos <= |c.data|
    ensures c.Made(c.pos, [], c.budget, c.queuelen, c.oversize) && TxImages(base, []) == []
  {
    assert [] + c.All() == c.All();
  }

  /** One more segment either fits, and the loop goes on, or the whole call fails. */
  lemma Phase3Step(c: Phase3, pos: nat, made: seq<TxSeg>, left: nat, len: nat, spare: nat)
    requires c.Made(pos, made, left, len, spare) && pos < |c.data|
    ensures var n := SegmentLength(|c.data| - pos, c.mss);
            && 1 <= n <= c.mss && pos + n <= |c.data|
            && (AllocsFor(1, c.copy) <= left && len + PbufsFor(1, c.copy) <= TCP_SND_QUEUELEN ==>
                  c.Made(pos + n, made + [c.Segment(pos, n)], left - AllocsFor(1, c.copy), len + PbufsFor(1, c.copy),
                         if c.copy then Extra(c.st, n, c.mss, c.more, made == []) else spare))
            && (!(AllocsFor(1, c.copy) <= left && len + PbufsFor(1, c.copy) <= TCP_SND_QUEUELEN) ==> !c.Succeeds())
  {
    var n := SegmentLength(|c.data| - pos, c.mss);
    var s := c.Segment(pos, n);
    SegmentsStep(c, pos);
    assert made + ([s] + c.From(pos + n)) == made + [s] + c.From(pos + n);
    assert |c.All()| == |made| + 1 + |c.From(pos + n)|;
  }

  lemma SegmentsStep(c: Phase3, pos: nat)
    requires c.mss >= 1 && pos < |c.data|
    ensures var n := SegmentLength(|c.data| - pos, c.mss);
            c.From(pos) == [c.Segment(pos, n)] + c.From(pos + n)
  {
    var n := SegmentLength(|c.data| - pos, c.mss);
    assert c.data[pos..][..n] == c.data[pos..pos + n] && c.data[pos..][n..] == c.data[pos + n..];
  }

  lemma Phase3End(c: Phase3, pos: nat, made: seq<TxSeg>, left: nat, len: nat, spare: nat)
    requires c.Made(pos, made, left, len, spare) && pos == |c.data|
    ensures made == c.All() && c.Succeeds() && len == c.Queuelen(made) && spare == c.Oversize(made)
  {
    assert c.data[pos..] == [] && c.From(pos) == [];
    assert made + [] == made;
  }

  /** tcp_write_checks() lets the call through. */
  predicate Admitted(st: SndState, data: seq<byte>) {
    && (st.state.Established? || st.state.CloseWait?)
    && 0 < |data| <= st.buf && st.queuelen < TCP_SND_QUEUELEN
  }

  lemma FinOnTail(st: SndState, budget: nat)
    requires st.unsent != [] && !Last(st.unsent).fin
    ensures SendFin(st, budget) == (FinMerged(st), ErrOk)
  {}

  lemma FinOnItsOwn(st: SndState, budget: nat)
    requires st.unsent != [] ==> Last(st.unsent).fin
    ensures SendFin(st, budget) == if st.buf == 0 then (st, ErrMem) else if budget < 2 then (st.(memErr := true), ErrMem)
                                   else (FinAppended(st), ErrOk)
  {
    hide FinAppended;
  }

  lemma OutputIs(st: SndState, link: nat, ackAlloc: bool)
    ensures Output(st, link, ackAlloc) ==
            if st.ackNow && !(st.unsent != [] && HeadSendable(st)) then Sent(st.(ackNow := !ackAlloc), [], ackAlloc)
            else
              var r := OutputLoop(st, link);
              if r.ok then Sent(Finish(r.st), r.segs, r.ok) else r
  {
    hide OutputLoop, Finish;
  }

  function WithThresholds(st: SndState): SndState {
    var half := Min(st.cwnd, st.wnd) / 2;
    st.(ssthresh := if half < U16(2 * st.mss) then U16(2 * st.mss) else half, cwnd := st.mss)
  }

  lemma RexmitRtoIs(st: SndState)
    requires st.unacked != []
    ensures RexmitRto(st) == WithThresholds(st).(unsent := st.unacked + st.unsent, unacked := [])
    ensures WithThresholds(st).unacked == st.unacked && WithThresholds(st).unsent == st.unsent
  {}

  // The three parts of NewAck.

  function Recovered(st: SndState): SndState
    requires st.cwnd >= 1 && st.ssthresh >= 1
  {
    st.(infr := false, cwnd := GrowCwnd(if st.infr then st.ssthresh else st.cwnd, st.ssthresh, st.mss))
  }

  function Counted(st: SndState, ackno: int): SndState {
    var acked := U16(ackno - st.lastack);
    st.(acked := acked, buf := U16(st.buf + acked), dupacks := 0, lastack := ackno)
  }

  /** The thresholds tcp_rexmit_fast() sets. */
  function InRecovery(st: SndState): SndState {
    var half := if st.cwnd > st.wnd then st.wnd / 2 else st.cwnd / 2;
    var ssthresh := if half < 2 * st.mss then U16(2 * st.mss) else half;
    st.(ssthresh := ssthresh, cwnd := U16(ssthresh + 3 * st.mss), infr := true)
  }

  lemma RexmitFastIs(st: SndState)
    ensures RexmitFast(st) == if st.unacked == [] || st.infr then st else InRecovery(Rexmit(st))
  {}

  lemma CountedIs(st: SndState, ackno: int)
    ensures var r, n := Counted(st, ackno), U16(ackno - st.lastack);
            && r == st.(acked := n, buf := U16(st.buf + n), dupacks := 0, lastack := ackno)
  {}

  function Removed(st: SndState, ackno: int): SndState {
    var d := DropAcked(st.unacked, ackno, st.acked);
    st.(unacked := d.rest, acked := d.acked, queuelen := U16(st.queuelen - d.clen), timerOn := d.rest != [])
  }

  lemma NewAckIs(st: SndState, ackno: int)
    requires st.cwnd >= 1 && st.ssthresh >= 1
    requires -0x2000_0000 <= st.nxt - st.lastack <= 0x2000_0000 && st.lastack < ackno <= st.nxt
    ensures NewAck(st, ackno) == Removed(Counted(Recovered(st), ackno), ackno)
    ensures Counted(Recovered(st), ackno).unacked == st.unacked
    ensures NewAck(st, ackno).nxt == st.nxt && NewAck(st, ackno).unsent == st.unsent
    ensures -0x2000_0000 <= ackno - st.lastack <= 0x2000_0000
  {
    hide GrowCwnd, DropAcked, U16;
  }

  lemma ReachMeans(st: SndState)
    requires InReach(st)
    ensures -0x2000_0000 <= st.nxt - st.lastack <= 0x2000_0000
    ensures AllNear(st.lastack, st.unsent) && AllNear(st.lastack, st.unacked)
  {}

  lemma NoImages(base: int, q: seq<TxSeg>)
    ensures TxImages(base, q) == [] <==> q == []
  {}

  lemma AdmittedMeans(st: SndState, data: seq<byte>)
    requires Admitted(st, data) && TailFits(st)
    ensures 0 < |data| <= st.buf && MssLocal(st) >= 1
    ensures Used(st, |data|) + Concat(st, |data|) <= |data|
  {}

  /** Whether the call succeeds depends on the plan alone. */
  lemma PlanDecides(st: SndState, c: Phase3, used: nat, concat: nat, budget: nat)
    requires TailFits(st) && Admitted(st, c.data) && c.st == st && c.mss == MssLocal(st) && c.pos == used + concat <= |c.data|
    requires used == Used(st, |c.data|) && concat == Concat(st, |c.data|) && (concat == 0 || budget > 0)
    requires c.budget == budget - (if concat > 0 then 1 else 0) && c.queuelen == st.queuelen + if concat > 0 then 1 else 0
    ensures Write(st, c.data, c.copy, c.more, budget).1 == (if c.Succeeds() then ErrOk else ErrMem)
    ensures !c.Succeeds() ==> Write(st, c.data, c.copy, c.more, budget).0 == st.(memErr := true)
  {
    hide Segments, UnsentAfter;
    assert c.All() == [] <==> c.pos == |c.data| by { SegmentsNone(st.lbb + c.pos, c.data[c.pos..], c.mss, c.Clen()); }
    assert PlanWrite(st, c.data, c.copy).queue == c.All();
  }

  lemma SegmentsNone(start: int, data: seq<byte>, mss: nat, clen: nat)
    requires mss >= 1
    ensures Segments(start, data, mss, clen) == [] <==> data == []
  {}

  lemma PlanFailsAtOnce(st: SndState, data: seq<byte>, copy: bool, more: bool, budget: nat)
    requires TailFits(st) && Admitted(st, data) && Concat(st, |data|) > 0 && budget == 0
    ensures Write(st, data, copy, more, budget) == (st.(memErr := true), ErrMem)
  {}

  /** The state a successful call commits. */
  lemma PlanCommits(st: SndState, c: Phase3, used: nat, concat: nat, budget: nat)
    requires TailFits(st) && Admitted(st, c.data) && c.st == st && c.mss == MssLocal(st) && c.pos == used + concat <= |c.data|
    requires used == Used(st, |c.data|) && concat == Concat(st, |c.data|) && (concat == 0 || budget > 0)
    requires c.budget == budget - (if concat > 0 then 1 else 0) && c.queuelen == st.queuelen + if concat > 0 then 1 else 0
    requires c.oversize == TailOversize(st, used, concat, c.copy, c.more) && c.Succeeds()
    requires used + concat < |c.data| ==> c.oversize == 0 || c.copy
    ensures var p := PlanWrite(st, c.data, c.copy);
            && p.used == used && p.concat == concat && p.queue == c.All()
            && (st.unsent == [] ==> used + concat == 0)
            && c.Oversize(c.All()) <= 0xffff && c.Queuelen(c.All()) <= 0xffff
            && Write(st, c.data, c.copy, c.more, budget) ==
               (st.(unsent := UnsentAfter(st, c.data, p), oversize := c.Oversize(c.All()), lbb := st.lbb + |c.data|,
                    buf := st.buf - |c.data|, queuelen := c.Queuelen(c.All())), ErrOk)
  {
    hide Segments, UnsentAfter;
    assert c.All() == [] <==> c.pos == |c.data| by { SegmentsNone(st.lbb + c.pos, c.data[c.pos..], c.mss, c.Clen()); }
    assert PlanWrite(st, c.data, c.copy).queue == c.All();
  }

  lemma ExtendedTwice(d: seq<byte>, data: seq<byte>, used: nat, seglen: nat)
    requires used + seglen <= |data|
    ensures d + data[..used] + data[used..used + seglen] == d + data[..used + seglen]
    ensures d + data[..0] == d && data[..used] + [] == data[..used]
  {}

  /** The walk over acknowledged segments goes on from the tail of the whole one. */
  ghost predicate DropResumes(whole: Dropped, queuelen0: u16, tail: Dropped, queuelen: u16) {
    whole.rest == tail.rest && whole.acked == tail.acked && Minus16(queuelen0, whole.clen) == Minus16(queuelen, tail.clen)
  }

  lemma DropStart(whole: Dropped, queuelen: u16)
    ensures DropResumes(whole, queuelen, whole, queuelen)
  {}

  lemma DropStep(whole: Dropped, queuelen0: u16, r: seq<TxSeg>, ackno: int, acked: u16, queuelen: u16)
    requires r != [] && r[0].End() <= ackno
    requires DropResumes(whole, queuelen0, DropAcked(r, ackno, acked), queuelen)
    ensures DropResumes(whole, queuelen0, DropAcked(r[1..], ackno, if acked != 0 && r[0].fin then acked - 1 else acked),
                        Minus16(queuelen, r[0].clen))
  {
    var tail := DropAcked(r[1..], ackno, if acked != 0 && r[0].fin then acked - 1 else acked);
    U16Sum(queuelen - r[0].clen, 0 - tail.clen);
  }

  lemma DropEnds(whole: Dropped, queuelen0: u16, r: seq<TxSeg>, ackno: int, acked: u16, queuelen: u16)
    requires DropResumes(whole, queuelen0, DropAcked(r, ackno, acked), queuelen) && (r != [] ==> r[0].End() > ackno)
    ensures whole.rest == r && whole.acked == acked && queuelen == U16(queuelen0 - whole.clen)
  {}

  lemma HeadImage(base: int, la: int, r: seq<TxSeg>)
    requires r != [] && AllNear(la, r)
    ensures TxImages(base, r)[0] == WireTx(U32(base + r[0].start), r[0].data, r[0].fin, r[0].clen)
    ensures TxImages(base, r)[1..] == TxImages(base, r[1..]) && |TxImages(base, r)| == |r| && AllNear(la, r[1..])
  {}

  /** The loop guards see the true order of the segment ends. */
  lemma EndsCompare(base: int, la: int, r: seq<TxSeg>, ackPos: int, nxt: int)
    requires AllNear(la, r) && -0x2000_0000 <= ackPos - la <= 0x2000_0000
    requires ackPos <= nxt <= la + 0x2000_0000
    ensures var w := TxImages(base, r);
            |w| == |r| &&
            (r != [] ==>
               && (SeqLeq(w[0].seqno + w[0].Tcplen(), U32(base + ackPos)) <==> r[0].End() <= ackPos)
               && (SeqBetween(U32(base + ackPos), w[0].seqno + w[0].Tcplen(), U32(base + nxt)) <==> r[0].End() <= ackPos))
  {
    if r != [] {
      Compare(base, r[0].start, r[0].Len(), ackPos, 0);
      Compare(base, ackPos, 0, r[0].start, r[0].Len());
      Compare(base, ackPos, 0, nxt, 0);
    }
  }

  lemma UpdateWndInReach(st: SndState, seqno: int, ackno: int, wnd: u16)
    requires InReach(st)
    ensures InReach(UpdateWnd(st, seqno, ackno, wnd)) && UpdateWnd(st, seqno, ackno, wnd).lastack == st.lastack
    ensures UpdateWnd(st, seqno, ackno, wnd).cwnd == st.cwnd && UpdateWnd(st, seqno, ackno, wnd).ssthresh == st.ssthresh
    ensures UpdateWnd(st, seqno, ackno, wnd).wl2 == st.wl2 || UpdateWnd(st, seqno, ackno, wnd).wl2 == ackno
  {}

  /** Equality of the window edges is seen on 32-bit images. */
  lemma EdgesCompare(base: int, x: int, m: u16, y: int, n: u16)
    requires -0x4000_0000 <= x - y <= 0x4000_0000
    ensures U32(U32(base + x) + m) == U32(U32(base + y) + n) <==> x + m == y + n
  {
    Plus(base, x, m);
    Plus(base, y, n);
    CompareEqual(base, x + m, y + n);
  }

  lemma DupAckCases(st: SndState)
    ensures var n := if st.dupacks + 1 <= 0xff then st.dupacks + 1 else st.dupacks;
            DupAck(st) == if n == 3 then RexmitFast(st.(dupacks := 3, cwnd := st.cwnd))
                          else if n > 3 && U16(st.cwnd + st.mss) > st.cwnd then st.(dupacks := n, cwnd := U16(st.cwnd + st.mss))
                          else st.(dupacks := n, cwnd := st.cwnd)
    ensures InReach(st) ==> InReach(st.(dupacks := 3, cwnd := st.cwnd))
  {}

  lemma OldAckNear(st: SndState, ackno: int, dup: bool)
    requires InReach(st)
    ensures AllNear(st.lastack, OldAck(st, ackno, dup).unsent) && OldAck(st, ackno, dup).nxt == st.nxt
  {
    if st.unacked != [] {
      InsertSortedNear(st.lastack, st.unsent, st.unacked[0]);
    }
  }

  /** The loop goes on from the tail of the whole run. */
  ghost predicate Resumes(whole: Sent, sent: seq<Seg>, tail: Sent) {
    whole == Sent(tail.st, sent + tail.segs, tail.ok)
  }

  lemma LoopStep(base: int, whole: Sent, sent: seq<Seg>, st: SndState, left: nat)
    requires Resumes(whole, sent, OutputLoop(st, left)) && SendsNext(st) && left > 0
    ensures Resumes(whole, sent + [st.unsent[0].Seg()], OutputLoop(SendHead(st), left - 1))
    ensures WireAll(base, sent + [st.unsent[0].Seg()]) == WireAll(base, sent) + [Wire(base, st.unsent[0].Seg())]
  {
    var s, tail := st.unsent[0].Seg(), OutputLoop(SendHead(st), left - 1);
    assert sent + ([s] + tail.segs) == sent + [s] + tail.segs;
    WireAllConcat(base, sent, [s]);
    assert [s][1..] == [];
  }

  lemma LoopStart(base: int, whole: Sent)
    ensures Resumes(whole, [], whole) && WireAll(base, []) == []
  {
    assert [] + whole.segs == whole.segs;
  }

  lemma LoopFails(whole: Sent, sent: seq<Seg>, st: SndState)
    requires Resumes(whole, sent, OutputLoop(st, 0)) && SendsNext(st)
    ensures whole == Sent(st.(memErr := true, timerOn := true), sent, false)
  {
    assert sent + [] == sent;
  }

  lemma LoopEnds(whole: Sent, sent: seq<Seg>, st: SndState, left: nat)
    requires Resumes(whole, sent, OutputLoop(st, left)) && !SendsNext(st)
    ensures whole == Sent(st, sent, true)
  {
    assert sent + [] == sent;
  }

  /** Section 3.3 of RFC 793: sequence numbers are compared less than 2^31 apart. */
  ghost predicate InReach(st: SndState) {
    && -0x2000_0000 <= st.nxt - st.lastack <= 0x2000_0000
    && AllNear(st.lastack, st.unsent) && AllNear(st.lastack, st.unacked)
  }

  lemma SendHeadWnd(st: SndState)
    requires st.unsent != []
    ensures Wnd(SendHead(st)) == Wnd(st)
  {}

  lemma SendHeadInReach(st: SndState)
    requires InReach(st) && st.unsent != []
    ensures InReach(SendHead(st))
  {
    InsertSortedNear(st.lastack, st.unacked, st.unsent[0]);
  }

  /** The unsigned 32-bit distance of a segment end, compared with a 16-bit window. */
  lemma UnsignedDistance(base: int, x: int, m: int, y: int)
    requires -TWO_31 <= x + m - y < TWO_31
    ensures var d := U32(U32(base + x) - U32(base + y) + m);
            d == if x + m - y >= 0 then x + m - y else x + m - y + TWO_32
  {
    RepresentsPlus(U32(base + x), base + x, m);
    ModDifference(U32(base + x) + m, U32(base + y), base + x + m, base + y);
    assert U32(base + x) - U32(base + y) + m == U32(base + x) + m - U32(base + y);
  }

  // ---------- What the methods require holds in every run ----------

  lemma {:induction false} TilesNear(q: seq<TxSeg>, a: int, b: int, lastack: int, mss: nat)
    requires Tiles(q, a, b) && AllFit(q, mss) && mss <= 0xffff
    requires lastack - 0x1_0000 <= a && b <= lastack + 0x1_0000
    ensures AllNear(lastack, q)
    decreases |q|
  {
    if q != [] {
      TilesGrow(q[1..], q[0].End(), b);
      TilesNear(q[1..], q[0].End(), b, lastack, mss);
    }
  }

  lemma {:induction false} NearSplit(lastack: int, p: seq<TxSeg>, q: seq<TxSeg>)
    requires AllNear(lastack, p + q)
    ensures AllNear(lastack, p) && AllNear(lastack, q)
    decreases |p|
  {
    if p == [] {
      assert p + q == q;
    } else {
      assert (p + q)[1..] == p[1..] + q;
      NearSplit(lastack, p[1..], q);
    }
  }

  lemma CoreNear(st: SndState, all: seq<TxSeg>, stream: seq<byte>, closed: bool)
    requires Core(st, all, stream, closed)
    ensures AllNear(st.lastack, all) && 0 <= st.nxt - st.lastack <= 0x1_0000
  {
    if all != [] {
      assert |all[0].data| <= st.mss <= TCP_MSS;
      TilesNear(all, all[0].start, Limit(stream, closed), st.lastack, st.mss);
    }
  }

  /** In every state of a run, with or without a fast retransmission under way, all comparisons of
      the send half are between sequence numbers less than 2^31 apart. */
  lemma InvariantInReach(st: SndState, stream: seq<byte>, closed: bool)
    requires SndInv(st, stream, closed) || RexInv(st, stream, closed)
    ensures InReach(st)
  {
    if SndInv(st, stream, closed) {
      CoreNear(st, st.unacked + st.unsent, stream, closed);
      NearSplit(st.lastack, st.unacked, st.unsent);
    } else {
      var s, tail := st.unsent[0], st.unsent[1..];
      CoreNear(st, [s] + st.unacked + tail, stream, closed);
      NearSplit(st.lastack, [s] + st.unacked, tail);
      NearSplit(st.lastack, [s], st.unacked);
      assert [s] + tail == st.unsent;
    }
  }
}
