/** Sending and sending again. */
module Transmission {
  // tcp_output() and the retransmissions keep the sender invariant.

  import opened SequenceNumbers
  import opened TcpConfig
  import opened Reassembly
  import opened SendQueues
  import opened SendInvariants

  /** Segments put on the network: stream bytes at their offsets, none beyond snd_nxt. */
  ghost predicate NetTrue(segs: seq<Seg>, stream: seq<byte>, closed: bool, nxt: int)
    decreases |segs|
  {
    segs != [] ==>
      True(segs[0], stream, closed) && segs[0].End() <= nxt && segs[0].Len() >= 1 && NetTrue(segs[1..], stream, closed, nxt)
  }

  // ---------- tcp_output() ----------

  /** In a tiling every earlier segment starts and ends before a later one. */
  lemma {:induction false} TilesBefore(p: seq<TxSeg>, s: TxSeg, q: seq<TxSeg>, a: int, b: int)
    requires Tiles(p + [s] + q, a, b)
    ensures EndsBy(p, s.start) && s.End() <= b && s.Len() >= 1
    ensures p != [] ==> Last(p).start < s.start
    decreases |p|
  {
    if p == [] {
      assert p + [s] + q == [s] + q && ([s] + q)[1..] == q;
      TilesGrow(q, s.End(), b);
    } else {
      assert (p + [s] + q)[1..] == p[1..] + [s] + q;
      TilesBefore(p[1..], s, q, p[0].End(), b);
      TilesGrow(p[1..] + [s] + q, p[0].End(), b);
      StartAfter(p[1..], s, q, p[0].End(), b);
    }
  }

  lemma {:induction false} StartAfter(p: seq<TxSeg>, s: TxSeg, q: seq<TxSeg>, a: int, b: int)
    requires Tiles(p + [s] + q, a, b)
    ensures a <= s.start
    decreases |p|
  {
    if p == [] {
      assert p + [s] + q == [s] + q;
    } else {
      assert (p + [s] + q)[1..] == p[1..] + [s] + q;
      StartAfter(p[1..], s, q, p[0].End(), b);
    }
  }

  /** Sending the head of unsent moves it behind the unacked segments and changes nothing else of
      the tiling. */
  lemma SendHeadKeeps(st: SndState, stream: seq<byte>, closed: bool)
    requires InOrderQueues(st, stream, closed) && st.unsent != []
    ensures InOrderQueues(SendHead(st), stream, closed)
    ensures SendHead(st).unacked + SendHead(st).unsent == st.unacked + st.unsent
    ensures True(st.unsent[0].Seg(), stream, closed) && st.unsent[0].End() <= SendHead(st).nxt
    ensures st.unsent[0].Len() >= 1
  {
    var s, all := st.unsent[0], st.unacked + st.unsent;
    assert st.unsent == [s] + st.unsent[1..] && all == st.unacked + [s] + st.unsent[1..];
    TilesBefore(st.unacked, s, st.unsent[1..], all[0].start, Limit(stream, closed));
    assert (st.unacked + [s]) + st.unsent[1..] == all;
    Concatenation(st.unacked, [s] + st.unsent[1..], stream, closed, 0, 0);
    EndsByGrows(st.unacked, st.nxt, SendHead(st).nxt);
    Concatenation(st.unacked, [s], stream, closed, 0, SendHead(st).nxt);
    assert [s][1..] == [];
  }

  /** tcp_output(), wherever the link fails: the invariant holds, nothing is added to or lost from
      the queues, and only true segments that end by snd_nxt are transmitted. */
  lemma {:induction false} OutputLoopKeeps(st: SndState, link: nat, stream: seq<byte>, closed: bool)
    requires InOrderQueues(st, stream, closed)
    ensures var r := OutputLoop(st, link);
            && InOrderQueues(r.st, stream, closed)
            && r.st.unacked + r.st.unsent == st.unacked + st.unsent
            && NetTrue(r.segs, stream, closed, r.st.nxt) && r.st.nxt >= st.nxt
            && r.st.lastack == st.lastack && r.st.lbb == st.lbb
            && (!r.ok ==> r.st.unsent != [])
    decreases |st.unsent|
  {
    if SendsNext(st) && link > 0 {
      SendHeadKeeps(st, stream, closed);
      var st1 := SendHead(st);
      OutputLoopKeeps(st1, link - 1, stream, closed);
      var r1 := OutputLoop(st1, link - 1);
      NetTrueCons(st.unsent[0].Seg(), r1.segs, stream, closed, r1.st.nxt);
    }
  }

  lemma OutputKeeps(st: SndState, link: nat, ackAlloc: bool, stream: seq<byte>, closed: bool)
    requires SndInv(st, stream, closed)
    ensures var r := Output(st, link, ackAlloc);
            && SndInv(r.st, stream, closed)
            && r.st.unacked + r.st.unsent == st.unacked + st.unsent
            && NetTrue(r.segs, stream, closed, r.st.nxt) && r.st.nxt >= st.nxt && r.st.lastack == st.lastack
  {
    OutputLoopKeeps(st, link, stream, closed);
  }

  // ---------- tcp_output() on any queues ----------

  ghost predicate SortedByStart(q: seq<TxSeg>)
    decreases |q|
  {
    |q| > 1 ==> q[0].start <= q[1].start && SortedByStart(q[1..])
  }

  /** The segments of a queue that occupy sequence numbers; tcp_output() frees others. */
  ghost function Occupying(q: seq<TxSeg>): multiset<TxSeg>
    decreases |q|
  {
    if q == [] then multiset{}
    else (if q[0].Len() > 0 then multiset{q[0]} else multiset{}) + Occupying(q[1..])
  }

  ghost function MaxEnd(nxt: int, q: seq<TxSeg>): int
    decreases |q|
  {
    if q == [] then nxt else MaxEnd(Max(nxt, q[0].End()), q[1..])
  }

  /** What the wire sees of the first n segments, all of them within the window. */
  ghost predicate SentWithin(segs: seq<Seg>, q: seq<TxSeg>, lastack: int, wnd: nat)
    decreases |segs|
  {
    segs != [] ==>
      && q != [] && segs[0] == q[0].Seg() && 0 <= q[0].DataEnd() - lastack <= wnd
      && SentWithin(segs[1..], q[1..], lastack, wnd)
  }

  lemma {:induction false} InsertSortedKeeps(q: seq<TxSeg>, s: TxSeg)
    requires SortedByStart(q)
    ensures SortedByStart(InsertSorted(q, s))
    ensures Occupying(InsertSorted(q, s)) == Occupying([s]) + Occupying(q)
    ensures InsertSorted(q, s)[0] == s || (q != [] && InsertSorted(q, s)[0] == q[0])
    decreases |q|
  {
    OccupyingFront(s, []);
    if q != [] && q[0].start < s.start {
      InsertSortedKeeps(q[1..], s);
      OccupyingFront(q[0], InsertSorted(q[1..], s));
    } else {
      OccupyingFront(s, q);
    }
  }

  lemma OccupyingFront(s: TxSeg, q: seq<TxSeg>)
    ensures ([s] + q)[1..] == q && [s] + [] == [s]
    ensures Occupying([s] + q) == (if s.Len() > 0 then multiset{s} else multiset{}) + Occupying(q)
    ensures Occupying([s]) == if s.Len() > 0 then multiset{s} else multiset{}
  {
    assert ([s] + q)[1..] == q && [s][1..] == [];
  }

  lemma {:induction false} AppendSorted(q: seq<TxSeg>, s: TxSeg)
    requires SortedByStart(q) && (q != [] ==> Last(q).start <= s.start)
    ensures SortedByStart(q + [s]) && Occupying(q + [s]) == Occupying([s]) + Occupying(q)
    decreases |q|
  {
    OccupyingFront(s, []);
    if q == [] {
      assert q + [s] == [s];
    } else {
      assert q + [s] == [q[0]] + (q[1..] + [s]);
      AppendSorted(q[1..], s);
      OccupyingFront(q[0], q[1..] + [s]);
      OccupyingFront(q[0], q[1..]);
      assert q == [q[0]] + q[1..];
    }
  }

  lemma InsertUnackedKeeps(q: seq<TxSeg>, s: TxSeg)
    requires SortedByStart(q)
    ensures SortedByStart(InsertUnacked(q, s)) && Occupying(InsertUnacked(q, s)) == Occupying([s]) + Occupying(q)
  {
    if q == [] || s.start >= Last(q).start { AppendSorted(q, s); } else { InsertSortedKeeps(q, s); }
  }

  lemma SendHeadSorted(st: SndState)
    requires SortedByStart(st.unsent) && SortedByStart(st.unacked) && st.unsent != []
    ensures var r := SendHead(st);
            && SortedByStart(r.unsent) && SortedByStart(r.unacked)
            && Occupying(r.unacked) + Occupying(r.unsent) == Occupying(st.unacked) + Occupying(st.unsent)
  {
    var s := st.unsent[0];
    InsertUnackedKeeps(st.unacked, s);
    assert [s][1..] == [];
  }

  lemma {:induction false} OutputSorted(st: SndState, link: nat)
    requires SortedByStart(st.unsent) && SortedByStart(st.unacked)
    ensures var r := OutputLoop(st, link).st;
            && SortedByStart(r.unsent) && SortedByStart(r.unacked)
            && Occupying(r.unacked) + Occupying(r.unsent) == Occupying(st.unacked) + Occupying(st.unsent)
    decreases |st.unsent|
  {
    hide SortedByStart, Occupying, InsertUnacked, InsertSorted;
    if SendsNext(st) && link > 0 {
      SendHeadSorted(st);
      OutputSorted(SendHead(st), link - 1);
    }
  }

  lemma {:induction false} OutputPrefix(st: SndState, link: nat)
    ensures var (r, n) := (OutputLoop(st, link), |OutputLoop(st, link).segs|);
            && n <= |st.unsent| && n <= link
            && r.st.unsent == st.unsent[n..]
            && SentWithin(r.segs, st.unsent, st.lastack, Wnd(st))
            && r.st.nxt == MaxEnd(st.nxt, st.unsent[..n])
    decreases |st.unsent|
  {
    if SendsNext(st) && link > 0 {
      OutputPrefix(SendHead(st), link - 1);
      var n := |OutputLoop(st, link).segs|;
      PrefixStep(st.unsent, n);
    }
  }

  lemma PrefixStep(q: seq<TxSeg>, n: nat)
    requires 1 <= n <= |q|
    ensures q[..n][1..] == q[1..][..n - 1] && q[1..][n - 1..] == q[n..]
  {}

  lemma {:induction false} OutputStops(st: SndState, link: nat)
    ensures var r := OutputLoop(st, link);
            if r.ok then !SendsNext(r.st) else |r.segs| == link && r.st.memErr && SendsNext(r.st)
    decreases |st.unsent|
  {
    if SendsNext(st) && link > 0 { OutputStops(SendHead(st), link - 1); }
  }

  /** tcp_output() on any sorted queues, wherever the link fails: it transmits a prefix of unsent,
      every segment of which ends (its FIN not counted) within the smaller window of lastack; both
      queues stay sorted; no segment is lost or added; snd_nxt becomes the largest end sent; and it
      stops only where the window or the Nagle algorithm says so, or where the link fails. */
  lemma OutputAny(st: SndState, link: nat)
    requires SortedByStart(st.unsent) && SortedByStart(st.unacked)
    ensures var (r, n) := (OutputLoop(st, link), |OutputLoop(st, link).segs|);
            && n <= |st.unsent| && n <= link
            && SentWithin(r.segs, st.unsent, st.lastack, Wnd(st))
            && SortedByStart(r.st.unsent) && SortedByStart(r.st.unacked)
            && Occupying(r.st.unacked) + Occupying(r.st.unsent) == Occupying(st.unacked) + Occupying(st.unsent)
            && r.st.unsent == st.unsent[n..]
            && r.st.nxt == MaxEnd(st.nxt, st.unsent[..n])
            && (if r.ok then !SendsNext(r.st) else n == link && r.st.memErr)
  {
    OutputSorted(st, link);
    OutputPrefix(st, link);
    OutputStops(st, link);
  }

  // ---------- Retransmission ----------

  /** The retransmission timer: everything goes back to unsent, in order. */
  lemma RexmitRtoKeeps(st: SndState, stream: seq<byte>, closed: bool)
    requires SndInv(st, stream, closed)
    ensures SndInv(RexmitRto(st), stream, closed)
    ensures RexmitRto(st).unacked == [] && RexmitRto(st).unsent == st.unacked + st.unsent
  {
    var r := RexmitRto(st);
    assert st.unacked != [] ==> r.unacked + r.unsent == st.unacked + st.unsent;
    assert st.unacked == [] ==> st.unacked + st.unsent == st.unsent;
  }

  /** tcp_rexmit() puts the first unacked segment in front of unsent. */
  lemma RexmitFront(st: SndState, stream: seq<byte>, closed: bool)
    requires InOrderQueues(st, stream, closed) && st.unacked != []
    ensures Rexmit(st).unsent == [st.unacked[0]] + st.unsent && Rexmit(st).unacked == st.unacked[1..]
    ensures Rexmit(st).oversize == if st.unsent == [] then 0 else st.oversize
  {
    if st.unsent != [] {
      var s, t := st.unacked[0], st.unsent[0];
      var all := st.unacked + st.unsent;
      assert all == st.unacked + [t] + st.unsent[1..];
      TilesBefore(st.unacked, t, st.unsent[1..], all[0].start, Limit(stream, closed));
      TilesBefore([], s, all[1..], s.start, Limit(stream, closed));
      assert [] + [s] + all[1..] == all;
      assert s.End() <= t.start by {
        assert all == [s] + st.unacked[1..] + [t] + st.unsent[1..];
        assert all[1..] == st.unacked[1..] + [t] + st.unsent[1..];
        StartAfter(st.unacked[1..], t, st.unsent[1..], s.End(), Limit(stream, closed));
      }
    }
  }

  lemma RexmitKeeps(st: SndState, stream: seq<byte>, closed: bool)
    requires InOrderQueues(st, stream, closed) && st.unacked != []
    ensures RexInv(Rexmit(st), stream, closed)
  {
    RexmitFront(st, stream, closed);
    var r, s := Rexmit(st), st.unacked[0];
    assert r.unsent[1..] == st.unsent;
    assert [s] + r.unacked == st.unacked;
    assert [r.unsent[0]] + r.unacked + r.unsent[1..] == st.unacked + st.unsent;
  }

  /** A fast retransmission leaves the retransmitted segment in front of unsent, or does nothing. */
  lemma RexmitFastKeeps(st: SndState, stream: seq<byte>, closed: bool)
    requires SndInv(st, stream, closed)
    ensures var r := RexmitFast(st);
            if st.unacked == [] || st.infr then r == st
            else
              && RexInv(r, stream, closed) && r.infr && r.unsent[0] == st.unacked[0]
              && r.cwnd >= 5 * st.mss && r.lastack == st.lastack && r.wnd == st.wnd
  {
    if st.unacked != [] && !st.infr {
      RexmitKeeps(st, stream, closed);
      RexmitFront(st, stream, closed);
      Thresholds(st.cwnd, st.wnd, st.mss);
    }
  }

  /** 5 MSS fit the 16-bit congestion window. */
  lemma Thresholds(cwnd: u16, wnd: u16, mss: u16)
    requires 1 <= mss <= TCP_MSS
    ensures var half := if cwnd > wnd then wnd / 2 else cwnd / 2;
            var t := if half < 2 * mss then U16(2 * mss) else half;
            2 * mss <= t <= 0x7fff && U16(t + 3 * mss) == t + 3 * mss
  {}

  /** A segment in front of all unacked ones is put back there. */
  lemma InsertedFirst(s: TxSeg, q: seq<TxSeg>, rest: seq<TxSeg>, b: int)
    requires Tiles([s] + q + rest, s.start, b)
    ensures InsertUnacked(q, s) == [s] + q
  {
    if q != [] {
      var n := |q| - 1;
      assert ([s] + q + rest)[1..] == q[..n] + [q[n]] + rest == [] + [q[0]] + (q[1..] + rest);
      StartAfter(q[..n], q[n], rest, s.End(), b);
      StartAfter([], q[0], q[1..] + rest, s.End(), b);
    }
  }

  /** Sending the retransmitted segment restores the order of the queues. */
  lemma SendHeadRestores(st: SndState, stream: seq<byte>, closed: bool)
    requires RexInv(st, stream, closed)
    ensures InOrderQueues(SendHead(st), stream, closed) && SendHead(st).nxt == st.nxt
    ensures SendHead(st).unacked == [st.unsent[0]] + st.unacked
    ensures True(st.unsent[0].Seg(), stream, closed) && st.unsent[0].End() <= st.nxt && st.unsent[0].Len() >= 1
  {
    var s := st.unsent[0];
    var all := [s] + st.unacked + st.unsent[1..];
    assert all[0] == s;
    InsertedFirst(s, st.unacked, st.unsent[1..], Limit(stream, closed));
    assert ([s] + st.unacked)[0] == s;
  }

  /** The first round of the loop sends the retransmitted segment; the others find the queues in order. */
  lemma LoopRestores(st: SndState, link: nat, stream: seq<byte>, closed: bool)
    requires RexInv(st, stream, closed) && HeadSendable(st) && st.infr && link >= 1
    ensures var r := OutputLoop(st, link);
            && InOrderQueues(r.st, stream, closed) && (!r.ok ==> r.st.unsent != [])
            && NetTrue(r.segs, stream, closed, r.st.nxt) && r.st.nxt >= st.nxt && r.st.lastack == st.lastack
  {
    SendHeadRestores(st, stream, closed);
    var st1, r := SendHead(st), OutputLoop(st, link);
    OutputLoopKeeps(st1, link - 1, stream, closed);
    var r1 := OutputLoop(st1, link - 1);
    assert SendsNext(st) && r.st == r1.st && r.ok == r1.ok;
    NetTrueCons(st.unsent[0].Seg(), r1.segs, stream, closed, r.st.nxt);
  }

  lemma NetTrueCons(s: Seg, segs: seq<Seg>, stream: seq<byte>, closed: bool, nxt: int)
    requires True(s, stream, closed) && s.End() <= nxt && s.Len() >= 1 && NetTrue(segs, stream, closed, nxt)
    ensures NetTrue([s] + segs, stream, closed, nxt)
  {
    assert ([s] + segs)[1..] == segs;
  }

  /** tcp_output() after a fast retransmission: if the window admits the retransmitted segment and
      the link takes it, the invariant holds again. */
  lemma OutputRestores(st: SndState, link: nat, ackAlloc: bool, stream: seq<byte>, closed: bool)
    requires RexInv(st, stream, closed) && HeadSendable(st) && st.infr && link >= 1
    ensures var r := Output(st, link, ackAlloc);
            && SndInv(r.st, stream, closed)
            && NetTrue(r.segs, stream, closed, r.st.nxt) && r.st.nxt >= st.nxt && r.st.lastack == st.lastack
  {
    LoopRestores(st, link, stream, closed);
  }

  // ---------- What tcp_write() may not do before the retransmitted segment has left ----------

  /** The queues between tcp_rexmit() and tcp_output(), merged. */
  function Merged(unsent: seq<TxSeg>, unacked: seq<TxSeg>): seq<TxSeg>
    requires unsent != []
  {
    [unsent[0]] + unacked + unsent[1..]
  }

  /** The queues a successful tcp_write() leaves there. */
  ghost function MergedAfterWrite(st: SndState, data: seq<byte>, copy: bool): seq<TxSeg>
    requires MssLocal(st) >= 1 && st.unsent != []
  {
    Merged(UnsentAfter(st, data, PlanWrite(st, data, copy)), st.unacked)
  }

  /** The plan of tcp_write(): it extends the last unsent segment exactly when that is not full. */
  lemma PlanExtends(st: SndState, data: seq<byte>, copy: bool)
    requires TailFits(st) && MssLocal(st) >= 1 && st.unsent != [] && Last(st.unsent).data != [] && data != []
    ensures var k := PlanWrite(st, data, copy).used + PlanWrite(st, data, copy).concat;
            && k <= |data| && |Last(st.unsent).data| + k <= MssLocal(st)
            && (k == 0 <==> |Last(st.unsent).data| == MssLocal(st))
  {}

  lemma LastHasData(q: seq<TxSeg>, s: TxSeg, a: int, b: int, stream: seq<byte>)
    requires Tiles(q + [s], a, b) && TxTrue(q + [s], stream, false)
    ensures s.data != []
  {
    assert q + [s] + [] == q + [s];
    TilesBefore(q, s, [], a, b);
    Concatenation(q, [s], stream, false, 0, 0);
  }

  /** Writing behind the last of the merged queues. */
  lemma WriteBehind(st: SndState, front: seq<TxSeg>, data: seq<byte>, copy: bool, stream: seq<byte>)
    requires st.unsent != [] && data != [] && TailFits(st) && st.lbb == |stream|
    requires HoldsFrom(front + [Last(st.unsent)], st.lastack, stream, false, st.mss)
    ensures var p := PlanWrite(st, data, copy);
            var last' := Extend(Last(st.unsent), data[..p.used + p.concat], p.concat > 0);
            HoldsFrom(front + [last'] + p.queue, st.lastack, stream + data, false, st.mss)
  {
    hide Segments, AllFit, EndsBy, SumClen, TxTrue, Payload, Used, Concat;
    var last, p := Last(st.unsent), PlanWrite(st, data, copy);
    LastHasData(front, last, (front + [last])[0].start, |stream|, stream);
    PlanExtends(st, data, copy);
    PlanQueue(st.lbb, data, p.used + p.concat, MssLocal(st), if copy then 1 else 2, stream);
    AllFitGrows(p.queue, MssLocal(st), st.mss);
    WriteToTail(front, last, st.lastack, data, p.used + p.concat, p.concat > 0, p.queue, stream, st.mss);
  }

  /** With other segments behind the retransmitted one, or none unacked, writing is harmless. */
  lemma WriteAtTail(st: SndState, data: seq<byte>, copy: bool, stream: seq<byte>)
    requires RexInv(st, stream, false) && TailFits(st) && (|st.unsent| > 1 || st.unacked == []) && data != []
    ensures HoldsFrom(MergedAfterWrite(st, data, copy), st.lastack, stream + data, false, st.mss)
  {
    var n := |st.unsent| - 1;
    var s := st.unsent[0];
    var front := if n == 0 then [] else [s] + st.unacked + st.unsent[1..n];
    assert front + [Last(st.unsent)] == [s] + st.unacked + st.unsent[1..];
    WriteBehind(st, front, data, copy, stream);
    MergedTail(st, front, data, copy);
  }

  lemma MergedTail(st: SndState, front: seq<TxSeg>, data: seq<byte>, copy: bool)
    requires TailFits(st) && st.unsent != [] && (|st.unsent| > 1 || st.unacked == [])
    requires front == if |st.unsent| == 1 then [] else [st.unsent[0]] + st.unacked + st.unsent[1..|st.unsent| - 1]
    ensures var p := PlanWrite(st, data, copy);
            var last' := Extend(Last(st.unsent), data[..p.used + p.concat], p.concat > 0);
            MergedAfterWrite(st, data, copy) == front + [last'] + p.queue
  {}

  /** A retransmitted segment of full length is not extended; the new ones follow the unacked ones. */
  lemma WriteBehindFull(st: SndState, data: seq<byte>, copy: bool, stream: seq<byte>)
    requires RexInv(st, stream, false) && TailFits(st)
    requires |st.unsent| == 1 && |st.unsent[0].data| == MssLocal(st) && data != []
    ensures HoldsFrom(MergedAfterWrite(st, data, copy), st.lastack, stream + data, false, st.mss)
  {
    hide Segments, HoldsFrom, Tiles;
    var s, p := st.unsent[0], PlanWrite(st, data, copy);
    PlanQueue(st.lbb, data, 0, MssLocal(st), if copy then 1 else 2, stream);
    AllFitGrows(p.queue, MssLocal(st), st.mss);
    assert Extend(s, data[..0], false) == s by { assert s.data + data[..0] == s.data; }
    var all := [s] + st.unacked;
    assert all == [s] + st.unacked + st.unsent[1..];
    assert MergedAfterWrite(st, data, copy) == all + p.queue;
    WriteToEmpty(all, st.lastack, data, p.queue, stream, st.mss);
  }

  /** A shorter one is extended over the segment that follows it on unacked, and carries the true
      bytes there only if those happen to be the same. */
  lemma WriteOverlaps(st: SndState, data: seq<byte>, copy: bool, stream: seq<byte>)
    requires RexInv(st, stream, false) && TailFits(st)
    requires |st.unsent| == 1 && st.unacked != [] && |st.unsent[0].data| < MssLocal(st) && data != []
    ensures !HoldsFrom(MergedAfterWrite(st, data, copy), st.lastack, stream + data, false, st.mss)
    ensures var (s, t) := (st.unsent[0], MergedAfterWrite(st, data, copy)[0]);
            var k := |t.data| - |s.data|;
            && 1 <= k <= |data| && t.start == s.start && s.End() + k <= |stream + data|
            && (True(t.Seg(), stream + data, false) <==> data[..k] == (stream + data)[s.End()..s.End() + k])
  {
    hide Segments, AllFit, EndsBy, SumClen, True;
    var s, p, t := st.unsent[0], PlanWrite(st, data, copy), st.unacked[0];
    var k := p.used + p.concat;
    FollowsAtOnce(st, stream);
    PlanExtends(st, data, copy);
    var merged := MergedAfterWrite(st, data, copy);
    assert merged == [Extend(s, data[..k], p.concat > 0)] + (st.unacked + p.queue);
    Overlapping(merged, st.lastack, |stream + data|);
    ExtendedTrue(s, data, k, p.concat > 0, stream);
  }

  /** The unacked segment behind the retransmitted one starts where that ends. */
  lemma FollowsAtOnce(st: SndState, stream: seq<byte>)
    requires RexInv(st, stream, false) && |st.unsent| == 1 && st.unacked != []
    ensures var s := st.unsent[0];
            && !s.fin && s.data != [] && st.unacked[0].start == s.End() <= |stream| && True(s.Seg(), stream, false)
  {
    var s := st.unsent[0];
    var all := [s] + st.unacked + st.unsent[1..];
    assert all[0] == s && all[1..] == st.unacked;
    TilesGrow(st.unacked, s.End(), |stream|);
  }

  lemma Overlapping(q: seq<TxSeg>, from: int, b: int)
    requires |q| > 1 && q[0].End() > q[1].start
    ensures !Covers(q, from, b)
  {
    assert q[1..][0] == q[1];
    assert Tiles(q, q[0].start, b) ==> Tiles(q[1..], q[0].End(), b);
  }

  /** Bytes put behind a segment that is not the last: the result is true if and only if they are
      the bytes of the stream there. */
  lemma ExtendedTrue(s: TxSeg, data: seq<byte>, k: nat, concat: bool, stream: seq<byte>)
    requires True(s.Seg(), stream, false) && k <= |data| && s.DataEnd() <= |stream|
    ensures s.DataEnd() + k <= |stream + data|
    ensures True(Extend(s, data[..k], concat).Seg(), stream + data, false) <==>
            data[..k] == (stream + data)[s.DataEnd()..s.DataEnd() + k]
  {
    var whole, e := stream + data, s.DataEnd();
    MatchesGrows(s.data, stream, data, s.start);
    assert whole[s.start..e + k] == whole[s.start..e] + whole[e..e + k];
    assert (s.data + data[..k])[|s.data|..] == data[..k];
    assert (whole[s.start..e] + whole[e..e + k])[|s.data|..] == whole[e..e + k];
  }

  /** Between tcp_rexmit() and tcp_output() a call of tcp_write() keeps the queues, merged, a tiling
      of the stream if and only if it fails, or the retransmitted segment is not the last unsent one,
      or nothing else is unacked, or it has full length. Otherwise the retransmitted segment is
      extended over the unacked one behind it, and its next transmission carries the new bytes at
      the offsets of the old ones. */
  lemma WriteAfterRexmit(st: SndState, data: seq<byte>, copy: bool, more: bool, budget: nat, stream: seq<byte>)
    requires RexInv(st, stream, false) && TailFits(st) && 0 < |data| <= 0xffff
    ensures var (r, err) := Write(st, data, copy, more, budget);
            && r.unsent != [] && r.unacked == st.unacked && r.lastack == st.lastack
            && (HoldsFrom(Merged(r.unsent, r.unacked), r.lastack, if err == ErrOk then stream + data else stream, false, st.mss) <==>
                err != ErrOk || |st.unsent| > 1 || st.unacked == [] || |st.unsent[0].data| == MssLocal(st))
    ensures var (r, err) := Write(st, data, copy, more, budget);
            var (s, t) := (st.unsent[0], r.unsent[0]);
            var k := |t.data| - |s.data|;
            err == ErrOk && |st.unsent| == 1 && st.unacked != [] && |s.data| < MssLocal(st) ==>
              && 1 <= k <= |data| && t.start == s.start && s.End() + k <= |stream + data|
              && (True(t.Seg(), stream + data, false) <==> data[..k] == (stream + data)[s.End()..s.End() + k])
  {
    hide Tiles, TxTrue, AllFit, EndsBy, SumClen, HoldsFrom, Segments, True, UnsentAfter, OversizeAfter, MssLocal;
    WriteOutcome(st, data, copy, more, budget);
    if Write(st, data, copy, more, budget).1 == ErrOk {
      if |st.unsent| > 1 || st.unacked == [] {
        WriteAtTail(st, data, copy, stream);
      } else if |st.unsent[0].data| == MssLocal(st) {
        WriteBehindFull(st, data, copy, stream);
      } else {
        ShorterThanLocal(st);
        WriteOverlaps(st, data, copy, stream);
      }
    }
  }

  lemma ShorterThanLocal(st: SndState)
    requires TailFits(st) && |st.unsent| == 1
    ensures |st.unsent[0].data| <= MssLocal(st)
  {}

  lemma WriteOutcome(st: SndState, data: seq<byte>, copy: bool, more: bool, budget: nat)
    requires TailFits(st) && st.unsent != [] && 0 < |data| <= 0xffff
    ensures var (r, err) := Write(st, data, copy, more, budget);
            && r.unacked == st.unacked && r.lastack == st.lastack && r.unsent != []
            && (err != ErrOk ==> r.unsent == st.unsent)
            && (err == ErrOk ==> Merged(r.unsent, r.unacked) == MergedAfterWrite(st, data, copy)
                                 && r.unsent[0] == MergedAfterWrite(st, data, copy)[0])
  {
    hide PlanWrite, Write, UnsentAfter, Extend;
    WriteQueued(st, data, copy, more, budget);
    WriteFields(st, data, copy, more, budget);
    PlanWithin(st, data, copy);
    UnsentStays(st, data, PlanWrite(st, data, copy));
  }

  lemma PlanWithin(st: SndState, data: seq<byte>, copy: bool)
    requires TailFits(st)
    ensures PlanWrite(st, data, copy).used + PlanWrite(st, data, copy).concat <= |data|
  {}

  lemma UnsentStays(st: SndState, data: seq<byte>, p: Plan)
    requires st.unsent != [] && p.used + p.concat <= |data|
    ensures UnsentAfter(st, data, p) != []
  {}

  lemma WriteQueued(st: SndState, data: seq<byte>, copy: bool, more: bool, budget: nat)
    requires TailFits(st) && 0 < |data| <= 0xffff
    ensures var (r, err) := Write(st, data, copy, more, budget);
            r.unsent == if err == ErrOk then UnsentAfter(st, data, PlanWrite(st, data, copy)) else st.unsent
  {
    hide PlanAllocs, PlanPbufs, OversizeAfter, Segments, U16, Extend, UnsentAfter;
  }
}
