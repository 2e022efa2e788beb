/** Queued segments as in struct tcp_seg, with 32-bit sequence numbers, and the loops of tcp_output()
    and tcp_rexmit() that put one into a sorted list. */
module SendSegments {
  import opened SequenceNumbers
  import opened TcpConfig
  import opened WireFormat
  import opened SendQueues

  datatype WireTx = WireTx(seqno: u32, data: seq<byte>, fin: bool, clen: nat) {
    /** TCP_TCPLEN */
    function Tcplen(): nat { |data| + if fin then 1 else 0 }

    function OnWire(): WireSeg { WireSeg(seqno, data, fin) }
  }

  function TxImage(base: int, s: TxSeg): WireTx { WireTx(U32(base + s.start), s.data, s.fin, s.clen) }

  function TxImages(base: int, q: seq<TxSeg>): (w: seq<WireTx>)
    ensures |w| == |q|
    decreases |q|
  {
    if q == [] then [] else [TxImage(base, q[0])] + TxImages(base, q[1..])
  }

  lemma {:induction false} TxImagesConcat(base: int, p: seq<TxSeg>, q: seq<TxSeg>)
    ensures TxImages(base, p + q) == TxImages(base, p) + TxImages(base, q)
    decreases |p|
  {
    if p == [] {
      assert p + q == q;
    } else {
      assert (p + q)[0] == p[0] && (p + q)[1..] == p[1..] + q;
      TxImagesConcat(base, p[1..], q);
      var image := [TxImage(base, p[0])];
      assert image + (TxImages(base, p[1..]) + TxImages(base, q)) == image + TxImages(base, p[1..]) + TxImages(base, q);
    }
  }

  lemma TxImagesSlice(base: int, q: seq<TxSeg>, i: nat)
    requires i <= |q|
    ensures TxImages(base, q)[..i] == TxImages(base, q[..i])
    ensures TxImages(base, q)[i..] == TxImages(base, q[i..])
  {
    TxImagesConcat(base, q[..i], q[i..]);
    assert q == q[..i] + q[i..];
  }

  lemma TxImagesOne(base: int, s: TxSeg)
    ensures TxImages(base, [s]) == [TxImage(base, s)]
  {
    assert [s][1..] == [];
  }

  lemma {:induction false} TxImagesAt(base: int, q: seq<TxSeg>, i: nat)
    requires i < |q|
    ensures TxImages(base, q)[i] == TxImage(base, q[i])
    decreases |q|
  {
    if i > 0 { TxImagesAt(base, q[1..], i - 1); }
  }

  lemma TxImagesLast(base: int, q: seq<TxSeg>)
    requires q != []
    ensures TxImages(base, q)[|q| - 1] == TxImage(base, Last(q))
    ensures TxImages(base, q)[..|q| - 1] == TxImages(base, q[..|q| - 1])
  {
    TxImagesAt(base, q, |q| - 1);
    TxImagesSlice(base, q, |q| - 1);
  }

  /** s has a 16-bit length and starts where 32-bit comparisons with lastack are exact. */
  predicate Near(lastack: int, s: TxSeg) { -0x1000_0000 <= s.start - lastack <= 0x1000_0000 && |s.data| <= 0xffff }

  ghost predicate AllNear(lastack: int, q: seq<TxSeg>)
    decreases |q|
  {
    q != [] ==> Near(lastack, q[0]) && AllNear(lastack, q[1..])
  }

  lemma {:induction false} NearAt(lastack: int, q: seq<TxSeg>, i: nat)
    requires AllNear(lastack, q) && i < |q|
    ensures Near(lastack, q[i])
    decreases i
  {
    if i > 0 { NearAt(lastack, q[1..], i - 1); }
  }

  lemma {:induction false} InsertSortedNear(lastack: int, q: seq<TxSeg>, s: TxSeg)
    requires AllNear(lastack, q) && Near(lastack, s)
    ensures AllNear(lastack, InsertSorted(q, s)) && AllNear(lastack, q + [s])
    decreases |q|
  {
    assert [s][1..] == [] && ([s] + q)[1..] == q;
    if q == [] {
      assert q + [s] == [s];
    } else {
      InsertSortedNear(lastack, q[1..], s);
      assert (q + [s])[1..] == q[1..] + [s];
      assert ([q[0]] + InsertSorted(q[1..], s))[1..] == InsertSorted(q[1..], s);
    }
  }

  // ---------- The insertion loop ----------

  /** Where the insertion loop stands: everything in front of i starts before s. */
  lemma {:induction false} InsertSortedFrom(q: seq<TxSeg>, s: TxSeg, i: nat)
    requires i <= |q| && AllStartBefore(q[..i], s.start)
    ensures InsertSorted(q, s) == q[..i] + InsertSorted(q[i..], s)
    ensures AllStartBefore(q, s.start) <==> AllStartBefore(q[i..], s.start)
    decreases i
  {
    if i == 0 {
      assert q[0..] == q && q[..0] + InsertSorted(q, s) == InsertSorted(q, s);
    } else {
      assert q[..i][1..] == q[1..][..i - 1] && q[1..][i - 1..] == q[i..];
      InsertSortedFrom(q[1..], s, i - 1);
      assert [q[0]] + (q[1..][..i - 1] + InsertSorted(q[i..], s)) == q[..i] + InsertSorted(q[i..], s);
    }
  }

  lemma {:induction false} BeforeOneMore(q: seq<TxSeg>, start: int, i: nat)
    requires i < |q| && AllStartBefore(q[..i], start) && q[i].start < start
    ensures AllStartBefore(q[..i + 1], start)
    decreases i
  {
    if i == 0 {
      assert q[..1] == [q[0]] && [q[0]][1..] == [];
    } else {
      assert q[..i][1..] == q[1..][..i - 1] && q[..i + 1][1..] == q[1..][..i];
      BeforeOneMore(q[1..], start, i - 1);
    }
  }

  lemma StopHere(base: int, q: seq<TxSeg>, s: TxSeg, i: nat)
    requires i <= |q| && AllStartBefore(q[..i], s.start) && (i < |q| ==> q[i].start >= s.start)
    ensures TxImages(base, InsertSorted(q, s)) == TxImages(base, q)[..i] + [TxImage(base, s)] + TxImages(base, q)[i..]
    ensures AllStartBefore(q, s.start) <==> i == |q|
  {
    InsertSortedFrom(q, s, i);
    TxImagesSlice(base, q, i);
    TxImagesOne(base, s);
    assert InsertSorted(q, s) == q[..i] + [s] + q[i..];
    TxImagesConcat(base, q[..i], [s]);
    TxImagesConcat(base, q[..i] + [s], q[i..]);
  }

  /** The loop over cur_seg in tcp_output() and tcp_rexmit(); last says that it ran to the end. */
  method InsertInOrder(q0: seq<WireTx>, seg: WireTx, ghost base: int, ghost lastack: int, ghost q: seq<TxSeg>, ghost s: TxSeg)
    returns (r: seq<WireTx>, last: bool)
    requires q0 == TxImages(base, q) && seg == TxImage(base, s)
    requires AllNear(lastack, q) && Near(lastack, s)
    ensures r == TxImages(base, InsertSorted(q, s))
    ensures last <==> AllStartBefore(q, s.start)
  {
    var i := 0;
    StartsCompare(base, lastack, q, s, 0);
    while i < |q0| && SeqLt(q0[i].seqno, seg.seqno)
      invariant 0 <= i <= |q0|
      invariant AllStartBefore(q[..i], s.start)
      invariant i < |q| ==> (SeqLt(q0[i].seqno, seg.seqno) <==> q[i].start < s.start)
    {
      BeforeOneMore(q, s.start, i);
      i := i + 1;
      if i < |q| { StartsCompare(base, lastack, q, s, i); }
    }
    StopHere(base, q, s, i);
    return q0[..i] + [seg] + q0[i..], i == |q0|;
  }

  lemma StartsCompare(base: int, lastack: int, q: seq<TxSeg>, s: TxSeg, i: nat)
    requires AllNear(lastack, q) && Near(lastack, s)
    ensures i < |q| ==> (SeqLt(TxImages(base, q)[i].seqno, U32(base + s.start)) <==> q[i].start < s.start)
  {
    if i < |q| {
      TxImagesAt(base, q, i);
      NearAt(lastack, q, i);
      Compare(base, q[i].start, 0, s.start, 0);
    }
  }
}
