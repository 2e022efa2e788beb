/** What both send queues hold between any two calls: a tiling of the stream. */
module SendInvariants {
  // unacked and unsent together hold exactly the stream from the first byte not yet acknowledged to the
  // last byte written, cut into numbered segments without gap or overlap, and the counters agree.

  import opened SequenceNumbers
  import opened TcpConfig
  import opened Reassembly
  import opened SendQueues

  // ---------- Tilings ----------

  /** q runs from offset a to offset b without gap or overlap, no segment is empty, and only the
      last may carry a FIN. */
  ghost predicate Tiles(q: seq<TxSeg>, a: int, b: int)
    decreases |q|
  {
    if q == [] then a == b
    else
      && q[0].start == a && q[0].Len() >= 1
      && (q[0].fin ==> |q| == 1)
      && Tiles(q[1..], q[0].End(), b)
  }

  /** q tiles from a segment containing from up to b. */
  ghost predicate Covers(q: seq<TxSeg>, from: int, b: int) {
    if q == [] then from == b
    else q[0].start <= from < q[0].End() && Tiles(q, q[0].start, b)
  }

  ghost predicate TxTrue(q: seq<TxSeg>, stream: seq<byte>, closed: bool)
    decreases |q|
  {
    q != [] ==> True(q[0].Seg(), stream, closed) && TxTrue(q[1..], stream, closed)
  }

  /** Every payload fits a segment. */
  ghost predicate AllFit(q: seq<TxSeg>, mss: int)
    decreases |q|
  {
    q != [] ==> |q[0].data| <= mss && AllFit(q[1..], mss)
  }

  lemma {:induction false} AllFitGrows(q: seq<TxSeg>, m: int, n: int)
    requires AllFit(q, m) && m <= n
    ensures AllFit(q, n)
    decreases |q|
  {
    if q != [] { AllFitGrows(q[1..], m, n); }
  }

  ghost predicate EndsBy(q: seq<TxSeg>, b: int)
    decreases |q|
  {
    q != [] ==> q[0].End() <= b && EndsBy(q[1..], b)
  }

  ghost predicate NoFin(q: seq<TxSeg>)
    decreases |q|
  {
    q != [] ==> !q[0].fin && NoFin(q[1..])
  }

  /** The payload bytes of a queue, one segment after the other. */
  ghost function Payload(q: seq<TxSeg>): seq<byte>
    decreases |q|
  {
    if q == [] then [] else q[0].data + Payload(q[1..])
  }

  ghost function SumClen(q: seq<TxSeg>): nat
    decreases |q|
  {
    if q == [] then 0 else q[0].clen + SumClen(q[1..])
  }

  /** Where q ends if it starts at a. */
  ghost function EndFrom(q: seq<TxSeg>, a: int): int
    decreases |q|
  {
    if q == [] then a else EndFrom(q[1..], q[0].End())
  }

  /** Facts about one segment and those behind it that hold of p + q when they hold of p and q. */
  lemma Concatenation(p: seq<TxSeg>, q: seq<TxSeg>, stream: seq<byte>, closed: bool, mss: int, b: int)
    ensures TxTrue(p + q, stream, closed) <==> TxTrue(p, stream, closed) && TxTrue(q, stream, closed)
    ensures AllFit(p + q, mss) <==> AllFit(p, mss) && AllFit(q, mss)
    ensures EndsBy(p + q, b) <==> EndsBy(p, b) && EndsBy(q, b)
    ensures SumClen(p + q) == SumClen(p) + SumClen(q)
    ensures Payload(p + q) == Payload(p) + Payload(q)
  {
    hide *;
    ConcatTrue(p, q, stream, closed);
    ConcatFits(p, q, mss, b);
    ConcatPayload(p, q);
  }

  lemma {:induction false} ConcatTrue(p: seq<TxSeg>, q: seq<TxSeg>, stream: seq<byte>, closed: bool)
    ensures TxTrue(p + q, stream, closed) <==> TxTrue(p, stream, closed) && TxTrue(q, stream, closed)
    decreases |p|
  {
    hide True;
    if p == [] {
      assert p + q == q;
    } else {
      assert (p + q)[1..] == p[1..] + q;
      ConcatTrue(p[1..], q, stream, closed);
    }
  }

  lemma {:induction false} ConcatFits(p: seq<TxSeg>, q: seq<TxSeg>, mss: int, b: int)
    ensures AllFit(p + q, mss) <==> AllFit(p, mss) && AllFit(q, mss)
    ensures EndsBy(p + q, b) <==> EndsBy(p, b) && EndsBy(q, b)
    ensures SumClen(p + q) == SumClen(p) + SumClen(q)
    decreases |p|
  {
    if p == [] {
      assert p + q == q;
    } else {
      assert (p + q)[1..] == p[1..] + q;
      ConcatFits(p[1..], q, mss, b);
    }
  }

  lemma {:induction false} ConcatPayload(p: seq<TxSeg>, q: seq<TxSeg>)
    ensures Payload(p + q) == Payload(p) + Payload(q)
    decreases |p|
  {
    if p == [] {
      assert p + q == q;
    } else {
      assert (p + q)[1..] == p[1..] + q;
      ConcatPayload(p[1..], q);
    }
  }

  lemma {:induction false} TilesSplit(p: seq<TxSeg>, q: seq<TxSeg>, a: int, b: int)
    requires Tiles(p + q, a, b)
    ensures Tiles(p, a, EndFrom(p, a)) && Tiles(q, EndFrom(p, a), b)
    ensures q != [] ==> NoFin(p)
    ensures a <= EndFrom(p, a) && (p != [] ==> a < EndFrom(p, a))
    decreases |p|
  {
    if p == [] {
      assert p + q == q;
    } else {
      assert (p + q)[1..] == p[1..] + q;
      TilesSplit(p[1..], q, p[0].End(), b);
    }
  }

  lemma {:induction false} TilesJoin(p: seq<TxSeg>, q: seq<TxSeg>, a: int, m: int, b: int)
    requires Tiles(p, a, m) && Tiles(q, m, b) && (q != [] ==> NoFin(p))
    ensures Tiles(p + q, a, b)
    decreases |p|
  {
    if p == [] {
      assert p + q == q;
    } else {
      assert (p + q)[1..] == p[1..] + q;
      TilesJoin(p[1..], q, p[0].End(), m, b);
    }
  }

  lemma {:induction false} TilesGrow(q: seq<TxSeg>, a: int, b: int)
    requires Tiles(q, a, b)
    ensures a <= b && (q != [] ==> a < b) && EndsBy(q, b) && EndFrom(q, a) == b
    decreases |q|
  {
    if q != [] { TilesGrow(q[1..], q[0].End(), b); }
  }

  lemma {:induction false} EndsByGrows(q: seq<TxSeg>, b: int, c: int)
    requires EndsBy(q, b) && b <= c
    ensures EndsBy(q, c)
    decreases |q|
  {
    if q != [] { EndsByGrows(q[1..], b, c); }
  }

  /** A true tiling carries exactly the stream between its ends. */
  lemma {:induction false} TilingIsStream(q: seq<TxSeg>, a: int, b: int, stream: seq<byte>, closed: bool)
    requires Tiles(q, a, b) && TxTrue(q, stream, closed)
    requires b == |stream| + (if closed then 1 else 0)
    requires 0 <= a <= |stream|
    ensures Payload(q) == stream[a..]
    decreases |q|
  {
    if q != [] {
      var n := q[0].DataEnd();
      assert q[0].data == stream[a..n];
      if q[0].fin {
        assert q[1..] == [];
      } else {
        TilesGrow(q[1..], q[0].End(), b);
        if n <= |stream| {
          TilingIsStream(q[1..], n, b, stream, closed);
          assert stream[a..n] + stream[n..] == stream[a..];
        }
      }
    } else {
      assert !closed;
    }
  }

  // ---------- The sender invariant ----------

  /** The sequence number after the last one queued: a FIN occupies one. */
  function Limit(stream: seq<byte>, closed: bool): int { |stream| + if closed then 1 else 0 }

  /** The counters. snd_buf and snd_lbb - lastack add up to the buffer size (a FIN put on the last
      unsent segment is not counted in snd_lbb). */
  ghost predicate Numbers(st: SndState, stream: seq<byte>, closed: bool) {
    && 0 <= st.lastack <= st.nxt <= Limit(stream, closed)
    && (st.lbb == Limit(stream, closed) || (closed && st.lbb == Limit(stream, closed) - 1))
    && st.buf + (st.lbb - st.lastack) == TCP_SND_BUF
    && st.queuelen <= TCP_SND_QUEUELEN + (if closed then 1 else 0)
    && 1 <= st.mss <= TCP_MSS && st.cwnd >= 1 && st.ssthresh >= 1
    && st.finQueued == closed
  }

  /** A queue holds the stream from offset from on, cut into segments of at most mss bytes. */
  ghost predicate HoldsFrom(all: seq<TxSeg>, from: int, stream: seq<byte>, closed: bool, mss: int) {
    Covers(all, from, Limit(stream, closed)) && TxTrue(all, stream, closed) && AllFit(all, mss)
  }

  /** all is everything queued, in order. */
  ghost predicate Core(st: SndState, all: seq<TxSeg>, stream: seq<byte>, closed: bool) {
    && HoldsFrom(all, st.lastack, stream, closed, st.mss)
    && SumClen(all) == st.queuelen
    && Numbers(st, stream, closed)
  }

  /** The queues are in order: every unacked segment precedes every unsent one. */
  ghost predicate InOrderQueues(st: SndState, stream: seq<byte>, closed: bool) {
    Core(st, st.unacked + st.unsent, stream, closed) && EndsBy(st.unacked, st.nxt)
  }

  /** The sender invariant. */
  ghost predicate SndInv(st: SndState, stream: seq<byte>, closed: bool) {
    InOrderQueues(st, stream, closed) && (st.unsent == [] ==> st.oversize == 0)
  }

  /** The exception, from tcp_rexmit() until the segment it put in front of unsent is sent again. */
  ghost predicate RexInv(st: SndState, stream: seq<byte>, closed: bool) {
    && st.unsent != []
    && Core(st, [st.unsent[0]] + st.unacked + st.unsent[1..], stream, closed)
    && EndsBy([st.unsent[0]] + st.unacked, st.nxt)
  }

  lemma InitialSndInv(st: SndState)
    requires st.lastack == st.nxt == st.lbb == 0 && st.unsent == [] && st.unacked == []
    requires st.buf == TCP_SND_BUF && st.queuelen == 0 && st.oversize == 0 && !st.finQueued
    requires 1 <= st.mss <= TCP_MSS && st.cwnd >= 1 && st.ssthresh >= 1
    ensures SndInv(st, [], false)
  {}

  /** Nothing is abandoned: the queues hold every stream byte from lastack on, in order. */
  lemma NothingAbandoned(st: SndState, all: seq<TxSeg>, stream: seq<byte>, closed: bool)
    requires Core(st, all, stream, closed)
    ensures all != [] ==> 0 <= all[0].start <= st.lastack && Payload(all) == stream[all[0].start..]
    ensures all == [] ==> st.lastack == Limit(stream, closed)
  {
    if all != [] {
      assert True(all[0].Seg(), stream, closed);
      TilingIsStream(all, all[0].start, Limit(stream, closed), stream, closed);
    }
  }

  lemma {:induction false} NoFinWhileOpen(q: seq<TxSeg>, stream: seq<byte>)
    requires TxTrue(q, stream, false)
    ensures NoFin(q)
    decreases |q|
  {
    if q != [] { NoFinWhileOpen(q[1..], stream); }
  }

  lemma {:induction false} TxTrueGrows(q: seq<TxSeg>, stream: seq<byte>, data: seq<byte>, closed: bool)
    requires TxTrue(q, stream, false)
    ensures TxTrue(q, stream + data, closed)
    decreases |q|
  {
    if q != [] {
      MatchesGrows(q[0].data, stream, data, q[0].start);
      TxTrueGrows(q[1..], stream, data, closed);
    }
  }

  // ---------- tcp_write() ----------

  lemma MatchesSplit(data: seq<byte>, n: nat, stream: seq<byte>, from: int)
    requires Matches(data, stream, from) && n <= |data|
    ensures Matches(data[..n], stream, from) && Matches(data[n..], stream, from + n)
  {}

  /** The new segments of phase 3 are numbered from start without gap, each at most mss long. */
  lemma {:induction false} SegmentsTile(start: int, data: seq<byte>, mss: nat, clen: nat)
    requires mss >= 1
    ensures Tiles(Segments(start, data, mss, clen), start, start + |data|)
    ensures NoFin(Segments(start, data, mss, clen)) && AllFit(Segments(start, data, mss, clen), mss)
    decreases |data|
  {
    if data != [] {
      hide Segments;
      var n := Min(|data|, mss);
      SegmentsTile(start + n, data[n..], mss, clen);
      SegmentsFirst(start, data, mss, clen);
    }
  }

  lemma SegmentsFirst(start: int, data: seq<byte>, mss: nat, clen: nat)
    requires mss >= 1 && data != []
    ensures var (n, q) := (Min(|data|, mss), Segments(start, data, mss, clen));
            q != [] && q[0] == TxSeg(start, data[..n], false, clen) && q[1..] == Segments(start + n, data[n..], mss, clen)
  {}

  lemma {:induction false} SegmentsClen(start: int, data: seq<byte>, mss: nat, copy: bool)
    requires mss >= 1
    ensures var q := Segments(start, data, mss, if copy then 1 else 2);
            SumClen(q) == PbufsFor(|q|, copy)
    decreases |data|
  {
    if data != [] {
      hide Segments;
      var n, clen := Min(|data|, mss), if copy then 1 else 2;
      SegmentsClen(start + n, data[n..], mss, copy);
      SegmentsFirst(start, data, mss, clen);
    }
  }

  /** They carry the data, in order and at its place in the stream. */
  lemma {:induction false} SegmentsTrue(start: int, data: seq<byte>, mss: nat, clen: nat, stream: seq<byte>)
    requires mss >= 1 && Matches(data, stream, start)
    ensures TxTrue(Segments(start, data, mss, clen), stream, false)
    decreases |data|
  {
    if data != [] {
      var n := Min(|data|, mss);
      MatchesSplit(data, n, stream, start);
      SegmentsTrue(start + n, data[n..], mss, clen, stream);
    }
  }

  lemma {:induction false} SegmentsPayload(start: int, data: seq<byte>, mss: nat, clen: nat)
    requires mss >= 1
    ensures Payload(Segments(start, data, mss, clen)) == data
    decreases |data|
  {
    if data != [] {
      var n := Min(|data|, mss);
      SegmentsPayload(start + n, data[n..], mss, clen);
      assert data[..n] + data[n..] == data;
    }
  }

  /** Making the last segment longer and adding others behind it extends the tiling. */
  lemma TilesExtend(p: seq<TxSeg>, last: TxSeg, last': TxSeg, q: seq<TxSeg>, from: int, b: int, b': int)
    requires Covers(p + [last], from, b) && NoFin(p + [last])
    requires last'.start == last.start && last'.Len() >= last.Len() && (last'.fin ==> q == [])
    requires Tiles(q, last'.End(), b')
    ensures Covers(p + [last'] + q, from, b')
  {
    var all := p + [last];
    var a := all[0].start;
    TilesSplit(p, [last], a, b);
    assert [last'][1..] == [] && [last][1..] == [];
    assert Tiles([last'], last.start, last'.End());
    NoFinSplit(p, [last]);
    TilesJoin(p, [last'], a, last.start, last'.End());
    if q != [] { NoFinJoin(p, [last']); }
    TilesJoin(p + [last'], q, a, last'.End(), b');
  }

  lemma {:induction false} NoFinSplit(p: seq<TxSeg>, q: seq<TxSeg>)
    requires NoFin(p + q)
    ensures NoFin(p) && NoFin(q)
    decreases |p|
  {
    if p == [] { assert p + q == q; } else {
      assert (p + q)[1..] == p[1..] + q;
      NoFinSplit(p[1..], q);
    }
  }

  lemma {:induction false} NoFinJoin(p: seq<TxSeg>, q: seq<TxSeg>)
    requires NoFin(p) && NoFin(q)
    ensures NoFin(p + q)
    decreases |p|
  {
    if p == [] { assert p + q == q; } else {
      assert (p + q)[1..] == p[1..] + q;
      NoFinJoin(p[1..], q);
    }
  }

  lemma MatchesEnd(stream: seq<byte>, data: seq<byte>, k: nat)
    requires k <= |data|
    ensures Matches(data[..k], stream + data, |stream|) && Matches(data[k..], stream + data, |stream| + k)
  {}

  /** The queue a successful tcp_write() leaves, the last segment extended by the first k bytes
      and new segments q for the rest, is again a tiling. */
  lemma WriteCovers(p: seq<TxSeg>, last: TxSeg, data: seq<byte>, k: nat, concat: bool, q: seq<TxSeg>,
                    lastack: int, stream: seq<byte>)
    requires Covers(p + [last], lastack, |stream|) && TxTrue(p + [last], stream, false) && k <= |data|
    requires Tiles(q, |stream| + k, |stream| + |data|)
    ensures Covers(p + [Extend(last, data[..k], concat)] + q, lastack, |stream + data|)
  {
    NoFinWhileOpen(p + [last], stream);
    LastEnds(p, last, (p + [last])[0].start, |stream|);
    NoFinSplit(p, [last]);
    TilesExtend(p, last, Extend(last, data[..k], concat), q, lastack, |stream|, |stream + data|);
  }

  /** It carries the stream extended by the data. */
  lemma WriteTrue(p: seq<TxSeg>, last: TxSeg, data: seq<byte>, k: nat, concat: bool, q: seq<TxSeg>,
                  lastack: int, stream: seq<byte>, mss: int)
    requires Covers(p + [last], lastack, |stream|) && TxTrue(p + [last], stream, false) && k <= |data|
    requires TxTrue(q, stream + data, false)
    ensures TxTrue(p + [Extend(last, data[..k], concat)] + q, stream + data, false)
  {
    var last' := Extend(last, data[..k], concat);
    LastEnds(p, last, (p + [last])[0].start, |stream|);
    Concatenation(p, [last], stream, false, 0, 0);
    Singleton(last, stream, false, 0);
    ExtendTrue(last, data, k, concat, stream);
    Singleton(last', stream + data, false, 0);
    TxTrueGrows(p, stream, data, false);
    Concatenation(p, [last'], stream + data, false, 0, 0);
    Concatenation(p + [last'], q, stream + data, false, 0, 0);
  }

  /** Its payloads fit, add up to the old ones followed by the data, and its buffers are counted. */
  lemma WriteCounts(p: seq<TxSeg>, last: TxSeg, data: seq<byte>, k: nat, concat: bool, q: seq<TxSeg>, mss: int)
    requires AllFit(p + [last], mss) && |last.data| + k <= mss && k <= |data|
    requires AllFit(q, mss) && Payload(q) == data[k..]
    ensures var all := p + [Extend(last, data[..k], concat)] + q;
            && AllFit(all, mss) && Payload(all) == Payload(p + [last]) + data
            && SumClen(all) == SumClen(p + [last]) + (if concat then 1 else 0) + SumClen(q)
  {
    var last' := Extend(last, data[..k], concat);
    Concatenation(p, [last], [], false, mss, 0);
    Concatenation(p, [last'], [], false, mss, 0);
    Concatenation(p + [last'], q, [], false, mss, 0);
    Singleton(last, [], false, mss);
    Singleton(last', [], false, mss);
    assert Payload(p) + (last.data + data[..k]) + data[k..] == Payload(p) + last.data + data;
  }

  lemma LastEnds(p: seq<TxSeg>, last: TxSeg, a: int, b: int)
    requires Tiles(p + [last], a, b)
    ensures last.End() == b && EndFrom(p, a) == last.start
  {
    TilesSplit(p, [last], a, b);
    assert [last][1..] == [];
  }

  lemma Singleton(s: TxSeg, stream: seq<byte>, closed: bool, mss: int)
    ensures TxTrue([s], stream, closed) <==> True(s.Seg(), stream, closed)
    ensures AllFit([s], mss) <==> |s.data| <= mss
    ensures SumClen([s]) == s.clen && Payload([s]) == s.data
    ensures NoFin([s]) <==> !s.fin
  {
    assert [s][1..] == [];
  }

  lemma ExtendTrue(last: TxSeg, data: seq<byte>, k: nat, concat: bool, stream: seq<byte>)
    requires True(last.Seg(), stream, false) && last.DataEnd() == |stream| && k <= |data|
    ensures True(Extend(last, data[..k], concat).Seg(), stream + data, false)
  {
    MatchesGrows(last.data, stream, data, last.start);
    MatchesEnd(stream, data, k);
    MatchesConcat(last.data, data[..k], stream + data, last.start);
  }

  /** Appending a tiling to one that ends where it starts. */
  lemma CoversJoin(p: seq<TxSeg>, q: seq<TxSeg>, from: int, m: int, b: int)
    requires Covers(p, from, m) && Tiles(q, m, b) && NoFin(p)
    requires p == [] ==> q != [] || m == b
    ensures Covers(p + q, from, b)
  {
    if p == [] {
      assert p + q == q;
      TilesGrow(q, m, b);
    } else {
      TilesJoin(p, q, p[0].start, m, b);
      assert (p + q)[0] == p[0];
    }
  }

  lemma TilesNonEmpty(q: seq<TxSeg>, a: int, b: int)
    requires Tiles(q, a, b) && a != b
    ensures q != []
  {}

  /** Writing when nothing is unsent: the new segments follow the unacked ones. */
  lemma WriteToEmpty(unacked: seq<TxSeg>, from: int, data: seq<byte>, q: seq<TxSeg>, stream: seq<byte>, mss: int)
    requires HoldsFrom(unacked, from, stream, false, mss) && data != []
    requires Tiles(q, |stream|, |stream| + |data|) && TxTrue(q, stream + data, false) && AllFit(q, mss)
    ensures HoldsFrom(unacked + q, from, stream + data, false, mss)
  {
    hide Tiles, TxTrue, AllFit, NoFin, EndsBy, Payload, SumClen;
    NoFinWhileOpen(unacked, stream);
    TilesNonEmpty(q, |stream|, |stream| + |data|);
    CoversJoin(unacked, q, from, |stream|, |stream + data|);
    TxTrueGrows(unacked, stream, data, false);
    Concatenation(unacked, q, stream + data, false, mss, 0);
  }

  /** Writing behind an unsent segment. */
  lemma WriteToTail(front: seq<TxSeg>, last: TxSeg, from: int, data: seq<byte>, k: nat, concat: bool, q: seq<TxSeg>,
                    stream: seq<byte>, mss: int)
    requires HoldsFrom(front + [last], from, stream, false, mss) && k <= |data|
    requires Tiles(q, |stream| + k, |stream| + |data|) && TxTrue(q, stream + data, false)
    requires AllFit(q, mss) && Payload(q) == data[k..]
    requires |last.data| + k <= mss
    ensures var all := front + [Extend(last, data[..k], concat)] + q;
            && HoldsFrom(all, from, stream + data, false, mss)
            && SumClen(all) == SumClen(front + [last]) + (if concat then 1 else 0) + SumClen(q)
  {
    hide *;
    HoldsMeans(front + [last], from, stream, false, mss);
    WriteCovers(front, last, data, k, concat, q, from, stream);
    WriteTrue(front, last, data, k, concat, q, from, stream, mss);
    WriteCounts(front, last, data, k, concat, q, mss);
    HoldsJoined(front + [Extend(last, data[..k], concat)] + q, from, stream + data, false, mss);
  }

  lemma HoldsMeans(all: seq<TxSeg>, from: int, stream: seq<byte>, closed: bool, mss: int)
    requires HoldsFrom(all, from, stream, closed, mss)
    ensures Covers(all, from, Limit(stream, closed)) && TxTrue(all, stream, closed) && AllFit(all, mss)
    ensures !closed ==> Limit(stream, closed) == |stream|
  {}

  lemma HoldsJoined(all: seq<TxSeg>, from: int, stream: seq<byte>, closed: bool, mss: int)
    requires Covers(all, from, |stream| + if closed then 1 else 0) && TxTrue(all, stream, closed) && AllFit(all, mss)
    ensures HoldsFrom(all, from, stream, closed, mss)
  {}

  /** What the new segments of a plan carry. */
  lemma PlanQueue(lbb: int, data: seq<byte>, k: nat, mss: nat, clen: nat, stream: seq<byte>)
    requires lbb == |stream| && k <= |data| && mss >= 1
    ensures var q := Segments(lbb + k, data[k..], mss, clen);
            && Tiles(q, |stream| + k, |stream| + |data|) && TxTrue(q, stream + data, false)
            && AllFit(q, mss) && Payload(q) == data[k..]
  {
    hide Segments, Tiles, TxTrue, AllFit, Payload;
    var start, rest := lbb + k, data[k..];
    SegmentsTile(start, rest, mss, clen);
    SegmentsPayload(start, rest, mss, clen);
    assert TxTrue(Segments(start, rest, mss, clen), stream + data, false) by {
      MatchesEnd(stream, data, k);
      SegmentsTrue(start, rest, mss, clen, stream + data);
    }
  }

  /** unsent after a tcp_write() behind the segments in front of the last one. */
  lemma UnsentAfterSplit(st: SndState, data: seq<byte>, p: Plan)
    requires st.unsent != [] && p.used + p.concat <= |data|
    ensures var n := |st.unsent| - 1;
            var last' := Extend(st.unsent[n], data[..p.used + p.concat], p.concat > 0);
            && st.unsent == st.unsent[..n] + [st.unsent[n]]
            && UnsentAfter(st, data, p) == st.unsent[..n] + [last'] + p.queue
            && st.unacked + st.unsent == (st.unacked + st.unsent[..n]) + [st.unsent[n]]
            && st.unacked + UnsentAfter(st, data, p) == (st.unacked + st.unsent[..n]) + [last'] + p.queue
  {}

  /** The queues after a successful tcp_write(). */
  lemma WriteQueues(st: SndState, data: seq<byte>, copy: bool, stream: seq<byte>)
    requires SndInv(st, stream, false) && TailFits(st) && data != []
    ensures var p := PlanWrite(st, data, copy);
            var all := st.unacked + UnsentAfter(st, data, p);
            && HoldsFrom(all, st.lastack, stream + data, false, st.mss)
            && SumClen(all) == st.queuelen + PlanPbufs(p, copy)
  {
    hide Tiles, TxTrue, AllFit, NoFin, EndsBy, Payload, SumClen, Covers, UnsentAfter, Segments;
    var p, clen := PlanWrite(st, data, copy), if copy then 1 else 2;
    PlanQueue(st.lbb, data, p.used + p.concat, MssLocal(st), clen, stream);
    SegmentsClen(st.lbb + p.used + p.concat, data[p.used + p.concat..], MssLocal(st), copy);
    AllFitGrows(p.queue, MssLocal(st), st.mss);
    QueuesAfter(st, data, p, stream);
  }

  lemma QueuesAfter(st: SndState, data: seq<byte>, p: Plan, stream: seq<byte>)
    requires HoldsFrom(st.unacked + st.unsent, st.lastack, stream, false, st.mss) && data != []
    requires p.used + p.concat <= |data| && (st.unsent == [] ==> p.used + p.concat == 0)
    requires st.unsent != [] ==> |Last(st.unsent).data| + p.used + p.concat <= st.mss
    requires Tiles(p.queue, |stream| + p.used + p.concat, |stream| + |data|) && TxTrue(p.queue, stream + data, false)
    requires AllFit(p.queue, st.mss) && Payload(p.queue) == data[p.used + p.concat..]
    ensures var all := st.unacked + UnsentAfter(st, data, p);
            && HoldsFrom(all, st.lastack, stream + data, false, st.mss)
            && SumClen(all) == SumClen(st.unacked + st.unsent) + (if p.concat > 0 then 1 else 0) + SumClen(p.queue)
  {
    hide Tiles, TxTrue, AllFit, NoFin, EndsBy, Payload, SumClen, HoldsFrom, Segments;
    if st.unsent == [] {
      assert st.unacked + st.unsent == st.unacked;
      WriteToEmpty(st.unacked, st.lastack, data, p.queue, stream, st.mss);
      Concatenation(st.unacked, p.queue, [], false, 0, 0);
    } else {
      var n := |st.unsent| - 1;
      UnsentAfterSplit(st, data, p);
      WriteToTail(st.unacked + st.unsent[..n], st.unsent[n], st.lastack, data, p.used + p.concat, p.concat > 0,
                  p.queue, stream, st.mss);
    }
  }

  lemma PayloadReplaced(p: seq<TxSeg>, last: TxSeg, data: seq<byte>, k: nat, concat: bool, q: seq<TxSeg>)
    requires k <= |data| && Payload(q) == data[k..]
    ensures Payload(p + [Extend(last, data[..k], concat)] + q) == Payload(p + [last]) + data
  {
    hide Payload, SumClen, TxTrue, AllFit, NoFin;
    var last' := Extend(last, data[..k], concat);
    ConcatPayload(p, [last]);
    ConcatPayload(p, [last']);
    ConcatPayload(p + [last'], q);
    Singleton(last, [], false, 0);
    Singleton(last', [], false, 0);
    assert Payload(p) + (last.data + data[..k]) + data[k..] == Payload(p) + last.data + data;
  }

  /** A successful tcp_write() appends exactly the data to the unsent payload. */
  lemma WriteAppends(st: SndState, data: seq<byte>, copy: bool)
    requires TailFits(st)
    ensures Payload(UnsentAfter(st, data, PlanWrite(st, data, copy))) == Payload(st.unsent) + data
  {
    var p := PlanWrite(st, data, copy);
    SegmentsPayload(st.lbb + p.used + p.concat, data[p.used + p.concat..], MssLocal(st), if copy then 1 else 2);
    if st.unsent == [] {
      assert data[0..] == data && Payload(st.unsent) + data == data;
    } else {
      UnsentAfterSplit(st, data, p);
      PayloadReplaced(st.unsent[..|st.unsent| - 1], Last(st.unsent), data, p.used + p.concat, p.concat > 0, p.queue);
    }
  }

  /** tcp_write() appends to the stream or fails: on success the queues hold the longer stream, on
      failure nothing but the memory-error flag has changed. */
  lemma WriteKeeps(st: SndState, data: seq<byte>, copy: bool, more: bool, budget: nat, stream: seq<byte>)
    requires SndInv(st, stream, false) && TailFits(st) && |data| <= 0xffff
    ensures var (r, err) := Write(st, data, copy, more, budget);
            && (err == ErrOk ==> SndInv(r, stream + data, false))
            && (err == ErrOk ==> r.unacked == st.unacked && Payload(r.unsent) == Payload(st.unsent) + data)
            && (err != ErrOk ==> r == st || r == st.(memErr := true))
  {
    var (r, err) := Write(st, data, copy, more, budget);
    if err == ErrOk {
      if data == [] {
        assert stream + data == stream && Payload(st.unsent) + data == Payload(st.unsent);
      } else {
        WriteQueues(st, data, copy, stream);
        WriteAppends(st, data, copy);
        WriteNumbers(st, data, copy, more, budget, stream);
      }
    }
  }

  lemma WriteNumbers(st: SndState, data: seq<byte>, copy: bool, more: bool, budget: nat, stream: seq<byte>)
    requires SndInv(st, stream, false) && TailFits(st) && 0 < |data| <= 0xffff
    requires Write(st, data, copy, more, budget).1 == ErrOk
    ensures Numbers(Write(st, data, copy, more, budget).0, stream + data, false)
    ensures var r := Write(st, data, copy, more, budget).0;
            r.queuelen == st.queuelen + PlanPbufs(PlanWrite(st, data, copy), copy) <= TCP_SND_QUEUELEN
  {
    hide UnsentAfter, OversizeAfter, Segments;
  }

  /** What tcp_write() does not touch. */
  lemma WriteFields(st: SndState, data: seq<byte>, copy: bool, more: bool, budget: nat)
    requires TailFits(st) && |data| <= 0xffff
    ensures var r := Write(st, data, copy, more, budget).0;
            && r.lastack == st.lastack && r.nxt == st.nxt && r.wnd == st.wnd && r.wl2 == st.wl2
            && r.unacked == st.unacked && r.state == st.state
    ensures !st.state.Established? && !st.state.CloseWait? ==> Write(st, data, copy, more, budget) == (st, ErrConn)
  {
    hide PlanWrite, PlanAllocs, PlanPbufs, Committed;
    if 0 < |data| <= st.buf { CommittedFields(st, data, copy, more); }
  }

  lemma CommittedFields(st: SndState, data: seq<byte>, copy: bool, more: bool)
    requires TailFits(st) && |data| <= st.buf
    ensures var r := Committed(st, data, copy, more);
            && r.lastack == st.lastack && r.nxt == st.nxt && r.wnd == st.wnd && r.wl2 == st.wl2
            && r.unacked == st.unacked && r.state == st.state
  {
    hide PlanWrite, PlanAllocs, PlanPbufs, UnsentAfter, OversizeAfter, U16, Segments;
  }

  /** tcp_write() cuts the data into segments of full length, but for the last. */
  lemma {:induction false} SegmentsFull(start: int, data: seq<byte>, mss: nat, clen: nat, i: nat)
    requires mss >= 1 && i + 1 < |Segments(start, data, mss, clen)|
    ensures |Segments(start, data, mss, clen)[i].data| == mss
    decreases i
  {
    var n := Min(|data|, mss);
    assert data[n..] != [];
    if i > 0 { SegmentsFull(start + n, data[n..], mss, clen, i - 1); }
  }

  // ---------- tcp_send_fin() ----------

  /** tcp_send_fin() puts the FIN behind the last byte of the stream, whether it goes onto the last
      unsent segment or into one of its own; when it fails nothing but a flag has changed. */
  lemma SendFinKeeps(st: SndState, budget: nat, stream: seq<byte>)
    requires SndInv(st, stream, false)
    ensures var (r, err) := SendFin(st, budget);
            && (err == ErrOk ==> SndInv(r, stream, true))
            && (err != ErrOk ==> r == st || r == st.(memErr := true))
  {
    NoFinWhileOpen(st.unacked + st.unsent, stream);
    NoFinSplit(st.unacked, st.unsent);
    if st.unsent != [] {
      UnsentHasNoFin(st.unsent);
      SendFinMerged(st, budget, stream);
    } else if SendFin(st, budget).1 == ErrOk {
      SendFinOwn(st, budget, stream);
    }
  }

  lemma {:induction false} UnsentHasNoFin(q: seq<TxSeg>)
    requires NoFin(q) && q != []
    ensures !Last(q).fin
    decreases |q|
  {
    if |q| > 1 { UnsentHasNoFin(q[1..]); }
  }

  lemma SendFinMerged(st: SndState, budget: nat, stream: seq<byte>)
    requires SndInv(st, stream, false) && st.unsent != [] && !Last(st.unsent).fin
    ensures SendFin(st, budget).1 == ErrOk && SndInv(SendFin(st, budget).0, stream, true)
  {
    var r, n := SendFin(st, budget).0, |st.unsent| - 1;
    var front, last := st.unacked + st.unsent[..n], st.unsent[n];
    assert st.unacked + st.unsent == front + [last];
    FinOnLast(front, last, st.lastack, stream, st.mss);
    assert r.unacked + r.unsent == front + [last.(fin := true)];
    assert Numbers(r, stream, true);
  }

  lemma SendFinOwn(st: SndState, budget: nat, stream: seq<byte>)
    requires SndInv(st, stream, false) && st.unsent == [] && SendFin(st, budget).1 == ErrOk
    ensures SndInv(SendFin(st, budget).0, stream, true)
  {
    var r := SendFin(st, budget).0;
    assert st.unacked + st.unsent == st.unacked;
    FinBehind(st.unacked, st.lastack, stream, st.mss);
    assert r.unacked + r.unsent == st.unacked + [TxSeg(st.lbb, [], true, 1)];
    assert Numbers(r, stream, true);
  }

  lemma FinOnLast(front: seq<TxSeg>, last: TxSeg, from: int, stream: seq<byte>, mss: int)
    requires HoldsFrom(front + [last], from, stream, false, mss)
    ensures var all := front + [last.(fin := true)];
            HoldsFrom(all, from, stream, true, mss) && SumClen(all) == SumClen(front + [last])
  {
    var last' := last.(fin := true);
    NoFinWhileOpen(front + [last], stream);
    LastEnds(front, last, (front + [last])[0].start, |stream|);
    Singleton(last, stream, false, mss);
    Singleton(last', stream, true, mss);
    Concatenation(front, [last], stream, false, mss, 0);
    TxTrueGrows(front, stream, [], true);
    assert stream + [] == stream;
    Concatenation(front, [last'], stream, true, mss, 0);
    NoFinSplit(front, [last]);
    TilesExtend(front, last, last', [], from, |stream|, |stream| + 1);
    assert front + [last'] + [] == front + [last'];
  }

  lemma FinBehind(all: seq<TxSeg>, from: int, stream: seq<byte>, mss: nat)
    requires HoldsFrom(all, from, stream, false, mss)
    ensures var s := TxSeg(|stream|, [], true, 1);
            HoldsFrom(all + [s], from, stream, true, mss) && SumClen(all + [s]) == SumClen(all) + 1
  {
    var s := TxSeg(|stream|, [], true, 1);
    NoFinWhileOpen(all, stream);
    TxTrueGrows(all, stream, [], true);
    assert stream + [] == stream && stream[|stream|..] == [];
    Singleton(s, stream, true, mss);
    Concatenation(all, [s], stream, true, mss, 0);
    assert [s][1..] == [];
    CoversJoin(all, [s], from, |stream|, |stream| + 1);
  }
}
