/** The loops of tcp_receive() and tcp_oos_insert_segment() over pcb->ooseq, on 32-bit sequence
    numbers. Each method is proved to compute what Reassembly says on unbounded offsets. */
module OutOfSequence {
  import opened SequenceNumbers
  import opened TcpConfig
  import opened Reassembly
  import opened WireFormat

  /** tcp_oos_insert_segment() */
  method OosInsertSegment(cseg0: WireSeg, next0: seq<WireSeg>, ghost base: int, ghost nxt: int, ghost c: Seg, ghost q: seq<Seg>)
    returns (r: seq<WireSeg>)
    requires cseg0 == Wire(base, c) && next0 == WireAll(base, q)
    requires Close(nxt, c) && AllClose(nxt, q)
    requires QueueOk(c.start - 1, q)
    ensures r == WireAll(base, Insert(c, q))
  {
    var cseg, next := cseg0, next0;
    ghost var d, rest := c, q;
    if cseg.fin {
      next, rest := [], [];
    } else {
      cseg, next, d, rest := DeleteCovered(cseg, next, base, nxt, c, q);
      if next != [] {
        Compare(base, d.start, |d.data|, rest[0].start, 0);
        if SeqGt(cseg.seqno + |cseg.data|, next[0].seqno) {
          Difference16(base, rest[0].start, 0, d.start);
          cseg := cseg.(data := Take(cseg.data, U16(next[0].seqno - cseg.seqno)));
          d := TrimTo(d, rest[0].start);
        }
      }
    }
    assert ([d] + rest)[1..] == rest;
    return [cseg] + next;
  }

  /** The loop of tcp_oos_insert_segment() over the segments the new one covers. */
  method DeleteCovered(cseg0: WireSeg, next0: seq<WireSeg>, ghost base: int, ghost nxt: int, ghost c: Seg, ghost q: seq<Seg>)
    returns (cseg: WireSeg, next: seq<WireSeg>, ghost d: Seg, ghost rest: seq<Seg>)
    requires cseg0 == Wire(base, c) && next0 == WireAll(base, q)
    requires Close(nxt, c) && AllClose(nxt, q)
    requires QueueOk(c.start - 1, q)
    ensures (d, rest) == InsertCovered(c, q)
    ensures cseg == Wire(base, d) && next == WireAll(base, rest)
    ensures d.start == c.start && d.data == c.data && AllClose(nxt, rest)
    ensures QueueOk(c.start - 1, rest)
  {
    cseg, next, d, rest := cseg0, next0, c, q;
    CompareEnds(base, nxt, d, rest);
    while next != [] && SeqGeq(cseg.seqno + |cseg.data|, next[0].seqno + |next[0].data|)
      invariant cseg == Wire(base, d) && next == WireAll(base, rest)
      invariant d.start == c.start && d.data == c.data && AllClose(nxt, rest)
      invariant InsertCovered(d, rest) == InsertCovered(c, q)
      invariant QueueOk(c.start - 1, rest)
      invariant EndsCompare(cseg, next, d, rest)
      decreases |next|
    {
      if next[0].fin { cseg := cseg.(fin := true); }
      next := next[1..];
      d, rest := d.(fin := d.fin || rest[0].fin), rest[1..];
      CompareEnds(base, nxt, d, rest);
    }
  }

  /** The loop guard sees the true order of the payload ends. */
  ghost predicate EndsCompare(cseg: WireSeg, next: seq<WireSeg>, d: Seg, rest: seq<Seg>) {
    next != [] && rest != [] ==>
      (SeqGeq(cseg.seqno + |cseg.data|, next[0].seqno + |next[0].data|) <==> d.DataEnd() >= rest[0].DataEnd())
  }

  lemma CompareEnds(base: int, nxt: int, d: Seg, rest: seq<Seg>)
    requires Close(nxt, d) && AllClose(nxt, rest)
    ensures EndsCompare(Wire(base, d), WireAll(base, rest), d, rest)
  {
    if rest != [] { Compare(base, d.start, |d.data|, rest[0].start, |rest[0].data|); }
  }

  lemma {:induction false} Suffix(nxt: int, q: seq<Seg>, i: nat)
    requires QueueOk(nxt, q) && AllClose(nxt, q) && i < |q|
    ensures QueueOk(q[i].start - 1, q[i..]) && AllClose(nxt, q[i..]) && Close(nxt, q[i]) && q[i].start > nxt
    ensures i + 1 < |q| ==> q[i].start < q[i + 1].start
    decreases i
  {
    if i > 0 {
      SuffixClose(nxt, q[1..], i - 1);
      SuffixQueue(nxt, q, i);
      assert q[1..][i - 1..] == q[i..];
    }
  }

  lemma {:induction false} SuffixClose(nxt: int, q: seq<Seg>, i: nat)
    requires AllClose(nxt, q) && i < |q|
    ensures AllClose(nxt, q[i..]) && Close(nxt, q[i])
    decreases i
  {
    if i > 0 {
      SuffixClose(nxt, q[1..], i - 1);
      assert q[1..][i - 1..] == q[i..];
    }
  }

  lemma {:induction false} SuffixQueue(nxt: int, q: seq<Seg>, i: nat)
    requires QueueOk(nxt, q) && i < |q|
    ensures QueueOk(q[i].start - 1, q[i..]) && q[i].start > nxt
    ensures i + 1 < |q| ==> q[i].start < q[i + 1].start
    decreases i
  {
    if i > 0 {
      SuffixQueue(q[0].DataEnd() - 1, q[1..], i - 1);
      assert q[1..][i - 1..] == q[i..];
    }
  }

  /** PlaceIn, seen from next: everything before it is below the segment. */
  lemma {:induction false} WalkHere(nxt: int, q: seq<Seg>, s: Seg, edge: int, i: nat)
    requires QueueOk(nxt, q) && i < |q| && (i > 0 ==> s.start >= q[i].start)
    ensures PlaceIn(q, s, edge) == q[..i] + PlaceIn(q[i..], s, edge)
    decreases i
  {
    if i == 0 {
      assert q[0..] == q && q[..0] + PlaceIn(q, s, edge) == PlaceIn(q, s, edge);
    } else {
      var tail := q[1..];
      assert tail[i - 1] == q[i];
      StartsGrow(q[0].DataEnd() - 1, tail, i - 1);
      WalkHere(q[0].DataEnd() - 1, tail, s, edge, i - 1);
      FrontOfTail(q, i, PlaceIn(q[i..], s, edge));
      assert PlaceIn(q, s, edge) == [q[0]] + PlaceIn(tail, s, edge);
    }
  }

  lemma FrontOfTail<T>(q: seq<T>, i: nat, x: seq<T>)
    requires 0 < i <= |q|
    ensures q[1..][i - 1..] == q[i..] && [q[0]] + (q[1..][..i - 1] + x) == q[..i] + x
  {
    assert q[..i] == [q[0]] + q[1..][..i - 1];
  }

  /** PlaceIn, when the segment lies between prev and next. */
  lemma WalkBetween(nxt: int, q: seq<Seg>, s: Seg, edge: int, i: nat)
    requires QueueOk(nxt, q) && 0 < i < |q| && q[i - 1].start < s.start < q[i].start
    ensures PlaceIn(q, s, edge) == q[..i - 1] + [TrimTo(q[i - 1], s.start)] + Insert(s, q[i..])
  {
    hide QueueOk, Insert, TrimTo;
    WalkHere(nxt, q, s, edge, i - 1);
    var tail := q[i - 1..];
    assert tail[0] == q[i - 1] && tail[1] == q[i] && tail[1..] == q[i..];
    assert PlaceIn(tail, s, edge) == [TrimTo(q[i - 1], s.start)] + Insert(s, q[i..]);
  }

  lemma {:induction false} StartsGrow(nxt: int, q: seq<Seg>, i: nat)
    requires QueueOk(nxt, q) && i < |q|
    ensures q[0].start <= q[i].start
    decreases i
  {
    if i > 0 { StartsGrow(q[0].DataEnd() - 1, q[1..], i - 1); }
  }

  /** The walk stops at a queued segment with the same start. */
  lemma StopAtEqual(nxt: int, q: seq<Seg>, s: Seg, edge: int, i: nat, base: int)
    requires QueueOk(nxt, q) && i < |q| && (i > 0 ==> q[i - 1].start < s.start) && q[i].start == s.start
    ensures |s.data| <= |q[i].data| ==> PlaceIn(q, s, edge) == q
    ensures |s.data| > |q[i].data| ==>
              WireAll(base, PlaceIn(q, s, edge)) == WireAll(base, q)[..i] + WireAll(base, Insert(s, q[i..]))
  {
    WalkHere(nxt, q, s, edge, i);
    WireAllSlice(base, q, i);
    WireAllConcat(base, q[..i], Insert(s, q[i..]));
    assert q[..i] + q[i..] == q;
  }

  /** The walk stops at the last queued segment, which is below. */
  lemma StopAtLast(nxt: int, q: seq<Seg>, s: Seg, edge: int, i: nat, base: int)
    requires QueueOk(nxt, q) && i == |q| - 1 && (i > 0 ==> q[i - 1].start < s.start) && q[i].start < s.start
    ensures q[i].fin ==> PlaceIn(q, s, edge) == q
    ensures !q[i].fin ==>
              WireAll(base, PlaceIn(q, s, edge)) ==
              WireAll(base, q)[..i] + [Wire(base, TrimTo(q[i], s.start)), Wire(base, ClipToEdge(s, edge))]
  {
    WalkHere(nxt, q, s, edge, i);
    assert q[i..] == [q[i]];
    WireAllSlice(base, q, i);
    AppendedWire(base, q[..i], TrimTo(q[i], s.start), ClipToEdge(s, edge));
    assert q[..i] + q[i..] == q;
  }

  /** The in-sequence segment and pcb->ooseq are made disjoint; inseg has no FIN yet. */
  method AbsorbOoseq(inseg0: WireSeg, ooseq: seq<WireSeg>, ghost base: int, ghost nxt: int, ghost s: Seg, ghost q: seq<Seg>)
    returns (inseg: WireSeg, next: seq<WireSeg>, ghost t: Seg, ghost rest: seq<Seg>)
    requires inseg0 == Wire(base, s) && ooseq == WireAll(base, q) && !s.fin
    requires Close(nxt, s) && AllClose(nxt, q) && QueueOk(s.start, q)
    ensures (t, rest) == Absorb(s, q) && AllClose(nxt, rest)
    ensures inseg == Wire(base, t) && next == WireAll(base, rest)
  {
    inseg, next, t, rest := RemoveCovered(inseg0, ooseq, base, nxt, s, q);
    if next != [] {
      Compare(base, t.start, t.Len(), rest[0].start, 0);
      if SeqGt(inseg.seqno + inseg.Tcplen(), next[0].seqno) {
        Difference16(base, rest[0].start, 0, t.start);
        inseg := inseg.(data := Take(inseg.data, U16(next[0].seqno - inseg.seqno)));
        t := TrimTo(t, rest[0].start);
      }
    }
  }

  /** The loop of tcp_receive() over the queued segments that inseg covers. */
  method RemoveCovered(inseg0: WireSeg, ooseq: seq<WireSeg>, ghost base: int, ghost nxt: int, ghost s: Seg, ghost q: seq<Seg>)
    returns (inseg: WireSeg, next: seq<WireSeg>, ghost t: Seg, ghost rest: seq<Seg>)
    requires inseg0 == Wire(base, s) && ooseq == WireAll(base, q)
    requires Close(nxt, s) && AllClose(nxt, q) && QueueOk(s.start, q)
    ensures (t, rest) == AbsorbCovered(s, q) && AllClose(nxt, rest) && QueueOk(s.start, rest)
    ensures t.start == s.start && t.data == s.data
    ensures inseg == Wire(base, t) && next == WireAll(base, rest)
  {
    inseg, next, t, rest := inseg0, ooseq, s, q;
    var tcplen := inseg.Tcplen();
    CompareReach(base, nxt, t, rest);
    while next != [] && SeqGeq(inseg.seqno + tcplen, next[0].seqno + |next[0].data|)
      invariant inseg == Wire(base, t) && next == WireAll(base, rest) && tcplen == t.Len()
      invariant t.start == s.start && t.data == s.data
      invariant AllClose(nxt, rest) && QueueOk(s.start, rest)
      invariant AbsorbCovered(t, rest) == AbsorbCovered(s, q)
      invariant ReachCompares(inseg, next, t, rest)
      decreases |next|
    {
      if next[0].fin {
        inseg := inseg.(fin := true);
        tcplen := inseg.Tcplen();
      }
      next := next[1..];
      t, rest := t.(fin := t.fin || rest[0].fin), rest[1..];
      CompareReach(base, nxt, t, rest);
    }
  }

  /** The loop guard sees whether the segment, FIN included, reaches the queue head's payload end. */
  ghost predicate ReachCompares(inseg: WireSeg, next: seq<WireSeg>, t: Seg, rest: seq<Seg>) {
    next != [] && rest != [] ==>
      (SeqGeq(inseg.seqno + inseg.Tcplen(), next[0].seqno + |next[0].data|) <==> t.End() >= rest[0].DataEnd())
  }

  lemma CompareReach(base: int, nxt: int, t: Seg, rest: seq<Seg>)
    requires Close(nxt, t) && AllClose(nxt, rest)
    ensures ReachCompares(Wire(base, t), WireAll(base, rest), t, rest)
  {
    if rest != [] { Compare(base, t.start, t.Len(), rest[0].start, |rest[0].data|); }
  }

  /** Shortening a segment at a sequence number inside it. */
  method TrimSegment(seg: WireSeg, seqno: u32, ghost base: int, ghost p: Seg, ghost end: int) returns (r: WireSeg)
    requires seg == Wire(base, p) && seqno == U32(base + end)
    requires |p.data| <= 0xffff && 0 < end - p.start <= 0x20_0000
    ensures r == Wire(base, TrimTo(p, end))
  {
    r := seg;
    Compare(base, p.start, |p.data|, end, 0);
    if SeqGt(seg.seqno + |seg.data|, seqno) {
      Difference16(base, end, 0, p.start);
      r := seg.(data := Take(seg.data, U16(seqno - seg.seqno)));
    }
  }

  /** The segment lands between prev == ooseq[i - 1] and next == ooseq[i]. */
  method InsertBetween(ooseq: seq<WireSeg>, inseg: WireSeg, i: nat,
                       ghost base: int, ghost nxt: int, ghost s: Seg, ghost q: seq<Seg>)
    returns (r: seq<WireSeg>)
    requires ooseq == WireAll(base, q) && inseg == Wire(base, s)
    requires QueueOk(nxt, q) && AllClose(nxt, q) && Close(nxt, s)
    requires 0 < i < |q| && q[i - 1].start < s.start < q[i].start
    ensures r == WireAll(base, q[..i - 1] + [TrimTo(q[i - 1], s.start)] + Insert(s, q[i..]))
  {
    WireAllAt(base, q, i - 1);
    WireAllSlice(base, q, i - 1);
    WireAllSlice(base, q, i);
    Suffix(nxt, q, i - 1);
    Suffix(nxt, q, i);
    var prev := TrimSegment(ooseq[i - 1], inseg.seqno, base, q[i - 1], s.start);
    var tail := OosInsertSegment(inseg, ooseq[i..], base, nxt, s, q[i..]);
    r := ooseq[..i - 1] + [prev] + tail;
    ghost var t := TrimTo(q[i - 1], s.start);
    WireAllConcat(base, q[..i - 1] + [t], Insert(s, q[i..]));
    WireAllConcat(base, q[..i - 1], [t]);
    assert [t][1..] == [];
  }

  /** The segment goes behind the last queued one and is cut at the window edge. */
  method AppendOoseq(next: WireSeg, inseg: WireSeg, rcvNxt: u32, rcvWnd: u16,
                     ghost base: int, ghost nxt: int, ghost s: Seg, ghost t: Seg)
    returns (last: WireSeg, added: WireSeg)
    requires next == Wire(base, t) && inseg == Wire(base, s) && rcvNxt == U32(base + nxt)
    requires Close(nxt, t) && Close(nxt, s) && t.start < s.start && nxt < s.start < nxt + rcvWnd
    ensures last == Wire(base, TrimTo(t, s.start)) && added == Wire(base, ClipToEdge(s, nxt + rcvWnd))
  {
    last := TrimSegment(next, inseg.seqno, base, t, s.start);
    added := inseg;
    Compare(base, s.start, s.Len(), nxt, rcvWnd);
    if SeqGt(inseg.Tcplen() + inseg.seqno, rcvNxt + rcvWnd) {
      Difference16(base, nxt, rcvWnd, s.start);
      added := added.(fin := false, data := Take(added.data, U16(rcvNxt + rcvWnd - inseg.seqno)));
    }
  }

  lemma AppendedWire(base: int, q: seq<Seg>, t: Seg, u: Seg)
    ensures WireAll(base, q + [t, u]) == WireAll(base, q) + [Wire(base, t), Wire(base, u)]
  {
    WireAllConcat(base, q, [t, u]);
    assert [t, u][1..] == [u] && [u][1..] == [];
  }

  /** The three comparisons made at a queued segment t with predecessor p. */
  lemma CompareAt(base: int, nxt: int, s: Seg, t: Seg)
    requires Close(nxt, s) && Close(nxt, t)
    ensures Wire(base, s).seqno == Wire(base, t).seqno <==> s.start == t.start
    ensures SeqLt(Wire(base, s).seqno, Wire(base, t).seqno) <==> s.start < t.start
    ensures SeqGt(Wire(base, s).seqno, Wire(base, t).seqno) <==> s.start > t.start
  {
    CompareEqual(base, s.start, t.start);
    Compare(base, s.start, 0, t.start, 0);
  }

  lemma CompareBetween(base: int, nxt: int, s: Seg, p: Seg, t: Seg)
    requires Close(nxt, s) && Close(nxt, p) && Close(nxt, t)
    ensures SeqBetween(Wire(base, s).seqno, Wire(base, p).seqno + 1, Wire(base, t).seqno - 1) <==>
            p.start < s.start < t.start
  {
    Compare(base, s.start, 0, p.start, 1);
    Compare(base, s.start, 0, t.start, -1);
  }

  /** The walk of tcp_receive() along pcb->ooseq for a segment that is not in sequence. */
  method QueueOutOfSequence(ooseq: seq<WireSeg>, inseg: WireSeg, rcvNxt: u32, rcvWnd: u16, alloc: bool,
                            ghost base: int, ghost nxt: int, ghost s: Seg, ghost q: seq<Seg>)
    returns (r: seq<WireSeg>)
    requires ooseq == WireAll(base, q) && inseg == Wire(base, s) && rcvNxt == U32(base + nxt)
    requires QueueOk(nxt, q) && AllClose(nxt, q) && Close(nxt, s)
    requires nxt < s.start < nxt + rcvWnd
    ensures r == WireAll(base, Place(q, s, nxt + rcvWnd, alloc))
  {
    ghost var edge := nxt + rcvWnd;
    ghost var goal := WireAll(base, Place(q, s, edge, alloc));
    assert ooseq != [] ==> goal == if alloc then WireAll(base, PlaceIn(q, s, edge)) else ooseq;
    r := ooseq;
    if ooseq == [] {
      if alloc {
        r := [inseg];
        assert [s][1..] == [];
      }
      return;
    }
    var i := 0;  // next is ooseq[i], prev is ooseq[i - 1]
    while i < |ooseq|
      invariant i < |ooseq| && (i > 0 ==> q[i - 1].start < s.start)
      invariant r == ooseq
      decreases |ooseq| - i
    {
      var next := ooseq[i];
      WireAllAt(base, q, i);
      Suffix(nxt, q, i);
      CompareAt(base, nxt, s, q[i]);
      if inseg.seqno == next.seqno {
        if |inseg.data| > |next.data| && alloc {
          WireAllSlice(base, q, i);
          var tail := OosInsertSegment(inseg, ooseq[i..], base, nxt, s, q[i..]);
          r := ooseq[..i] + tail;
        }
        StopAtEqual(nxt, q, s, edge, i, base);
        assert r == goal;
        break;
      }
      if i == 0 {
        if SeqLt(inseg.seqno, next.seqno) {
          if alloc {
            assert q[0..] == q;
            r := OosInsertSegment(inseg, ooseq, base, nxt, s, q);
          }
          assert r == goal;
          break;
        }
      } else {
        WireAllAt(base, q, i - 1);
        Suffix(nxt, q, i - 1);
        CompareBetween(base, nxt, s, q[i - 1], q[i]);
        if SeqBetween(inseg.seqno, ooseq[i - 1].seqno + 1, next.seqno - 1) {
          if alloc {
            r := InsertBetween(ooseq, inseg, i, base, nxt, s, q);
            WalkBetween(nxt, q, s, edge, i);
          }
          assert r == goal;
          break;
        }
      }
      if i == |ooseq| - 1 && SeqGt(inseg.seqno, next.seqno) {
        if !next.fin && alloc {
          var last, added := AppendOoseq(next, inseg, rcvNxt, rcvWnd, base, nxt, s, q[i]);
          r := ooseq[..i] + [last, added];
        }
        StopAtLast(nxt, q, s, edge, i, base);
        assert r == goal;
        break;
      }
      i := i + 1;
    }
  }
}
