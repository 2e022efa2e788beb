/** Segments as they are on the wire and in struct tcp_seg, with 32-bit sequence numbers, and
    how they represent segments at unbounded offsets: base is the sequence number of offset 0. */
module WireFormat {
  import opened SequenceNumbers
  import opened Reassembly

  datatype WireSeg = WireSeg(seqno: u32, data: seq<byte>, fin: bool) {
    /** TCP_TCPLEN */
    function Tcplen(): nat { |data| + if fin then 1 else 0 }
  }

  function Wire(base: int, s: Seg): WireSeg { WireSeg(U32(base + s.start), s.data, s.fin) }

  function WireAll(base: int, q: seq<Seg>): (w: seq<WireSeg>)
    ensures |w| == |q|
    decreases |q|
  {
    if q == [] then [] else [Wire(base, q[0])] + WireAll(base, q[1..])
  }

  lemma {:induction false} WireAllConcat(base: int, p: seq<Seg>, q: seq<Seg>)
    ensures WireAll(base, p + q) == WireAll(base, p) + WireAll(base, q)
    decreases |p|
  {
    if p == [] {
      assert p + q == q;
    } else {
      WireAllConcat(base, p[1..], q);
      assert (p + q)[1..] == p[1..] + q;
    }
  }

  lemma {:induction false} WireAllAt(base: int, q: seq<Seg>, i: nat)
    requires i < |q|
    ensures WireAll(base, q)[i] == Wire(base, q[i])
    decreases |q|
  {
    if i > 0 { WireAllAt(base, q[1..], i - 1); }
  }

  lemma WireAllSlice(base: int, q: seq<Seg>, i: nat)
    requires i <= |q|
    ensures WireAll(base, q)[..i] == WireAll(base, q[..i])
    ensures WireAll(base, q)[i..] == WireAll(base, q[i..])
  {
    WireAllConcat(base, q[..i], q[i..]);
    assert q == q[..i] + q[i..];
  }

  /** Comparing two sequence numbers, each with a length added, compares the true positions. */
  lemma Compare(base: int, x: int, m: int, y: int, n: int)
    requires -TWO_31 <= x + m - (y + n) < TWO_31
    ensures SeqLt(U32(base + x) + m, U32(base + y) + n) <==> x + m < y + n
    ensures SeqLeq(U32(base + x) + m, U32(base + y) + n) <==> x + m <= y + n
    ensures SeqGt(U32(base + x) + m, U32(base + y) + n) <==> x + m > y + n
    ensures SeqGeq(U32(base + x) + m, U32(base + y) + n) <==> x + m >= y + n
    ensures S32(U32(base + x) + m - (U32(base + y) + n)) == x + m - (y + n)
  {
    RepresentsPlus(U32(base + x), base + x, m);
    RepresentsPlus(U32(base + y), base + y, n);
    ComparisonsExact(U32(base + x) + m, U32(base + y) + n, base + x + m, base + y + n);
    DifferenceExact(U32(base + x) + m, U32(base + y) + n, base + x + m, base + y + n);
  }

  /** Equality of sequence numbers is equality of positions. */
  lemma CompareEqual(base: int, x: int, y: int)
    requires -TWO_31 <= x - y < TWO_31
    ensures U32(base + x) == U32(base + y) <==> x == y
  {
    if U32(base + x) == U32(base + y) { Compare(base, x, 0, y, 0); }
  }

  /** The 16-bit difference of two sequence numbers less than 2^16 apart is exact. */
  lemma Difference16(base: int, x: int, m: int, y: int)
    requires 0 <= x + m - y < TWO_16
    ensures U16(U32(base + x) + m - U32(base + y)) == x + m - y
  {
    Difference16Mod(base, x, m, y);
  }

  /** However far apart the positions are, the 16-bit difference is that of the positions. */
  lemma Difference16Mod(base: int, x: int, m: int, y: int)
    ensures U16(U32(base + x) + m - U32(base + y)) == U16(x + m - y)
    ensures U16(U32(U32(base + x) + m - U32(base + y))) == U16(x + m - y)
  {
    var i, j := (base + x) / TWO_32, (base + y) / TWO_32;
    var d := U32(base + x) + m - U32(base + y);
    assert d == (x + m - y) + ((j - i) * TWO_16) * TWO_16;
    ModShift16(x + m - y, (j - i) * TWO_16);
    assert d == U32(d) + ((d / TWO_32) * TWO_16) * TWO_16;
    ModShift16(U32(d), (d / TWO_32) * TWO_16);
  }

  /** A sum reduced to 32 bits is the image of the sum of the positions. */
  lemma Plus(base: int, x: int, n: int)
    ensures U32(U32(base + x) + n) == U32(base + (x + n))
  {
    RepresentsPlus(U32(base + x), base + x, n);
  }

  /** s is a segment with a 16-bit length whose start is within the window range of nxt. */
  predicate Close(nxt: int, s: Seg) { -0x10_0000 <= s.start - nxt <= 0x10_0000 && |s.data| <= 0xffff }

  ghost predicate AllClose(nxt: int, q: seq<Seg>)
    decreases |q|
  {
    q != [] ==> Close(nxt, q[0]) && AllClose(nxt, q[1..])
  }
}
