/** The data half of tcp_receive(). */
module Reassembly {
  // What it computes, and what that guarantees.
  // Unbounded stream offsets: offset 0 is the first byte of the peer's stream; a FIN occupies one offset
  // after the last byte. The class TcpReceiver runs the same steps on 32-bit fields.

  import opened SequenceNumbers
  import opened TcpConfig

  /** A segment on the network or on pcb->ooseq: its sequence number, payload and FIN flag. */
  datatype Seg = Seg(start: int, data: seq<byte>, fin: bool) {
    function DataEnd(): int { start + |data| }

    /** TCP_TCPLEN: the FIN occupies one sequence number. */
    function Len(): nat { |data| + if fin then 1 else 0 }

    function End(): int { start + Len() }
  }

  /** pbuf_realloc(): shrink to n bytes; never grows. */
  function Take(data: seq<byte>, n: int): seq<byte> {
    if n <= 0 then [] else if n < |data| then data[..n] else data
  }

  /** Shorten a segment so that its payload ends at offset end. */
  function TrimTo(s: Seg, end: int): Seg { s.(data := Take(s.data, end - s.start)) }

  /** Drop what lies before nxt, when only part of the segment does. */
  function TrimFront(nxt: int, s: Seg): Seg {
    if s.start + 1 <= nxt <= s.End() - 1
    then Seg(nxt, s.data[nxt - s.start..], s.fin)
    else s
  }

  /** Cut an in-sequence segment at the right window edge; the FIN goes first. */
  function TrimToWindow(s: Seg, wnd: nat): Seg {
    if s.Len() > wnd then Seg(s.start, Take(s.data, wnd), false) else s
  }

  /** The in-sequence segment swallows the queued segments it covers, FIN included. */
  function AbsorbCovered(s: Seg, q: seq<Seg>): (Seg, seq<Seg>)
    decreases |q|
  {
    if q != [] && s.End() >= q[0].DataEnd()
    then AbsorbCovered(s.(fin := s.fin || q[0].fin), q[1..])
    else (s, q)
  }

  /** Make an in-sequence segment and the queue disjoint. */
  function Absorb(s: Seg, q: seq<Seg>): (Seg, seq<Seg>) {
    if s.fin then (s, [])
    else
      var (t, rest) := AbsorbCovered(s, q);
      (if rest != [] && t.End() > rest[0].start then TrimTo(t, rest[0].start) else t, rest)
  }

  /** The deletion loop of tcp_oos_insert_segment(): like AbsorbCovered, but on payload ends. */
  function InsertCovered(c: Seg, q: seq<Seg>): (Seg, seq<Seg>)
    decreases |q|
  {
    if q != [] && c.DataEnd() >= q[0].DataEnd()
    then InsertCovered(c.(fin := c.fin || q[0].fin), q[1..])
    else (c, q)
  }

  /** tcp_oos_insert_segment(). */
  function Insert(c: Seg, q: seq<Seg>): seq<Seg> {
    if c.fin then [c]
    else
      var (d, rest) := InsertCovered(c, q);
      [if rest != [] && d.DataEnd() > rest[0].start then TrimTo(d, rest[0].start) else d] + rest
  }

  /** The cut applied to a segment appended behind the whole queue. */
  function ClipToEdge(s: Seg, edge: int): Seg {
    if s.End() > edge then Seg(s.start, Take(s.data, edge - s.start), false) else s
  }

  /** Where an out-of-sequence segment goes in a non-empty queue. */
  function PlaceIn(q: seq<Seg>, s: Seg, edge: int): seq<Seg>
    requires q != []
  {
    if s.start == q[0].start then
      if |s.data| > |q[0].data| then Insert(s, q) else q
    else if s.start < q[0].start then
      Insert(s, q)
    else if |q| == 1 then
      if q[0].fin then q else [TrimTo(q[0], s.start), ClipToEdge(s, edge)]
    else if s.start < q[1].start then
      [TrimTo(q[0], s.start)] + Insert(s, q[1..])
    else
      [q[0]] + PlaceIn(q[1..], s, edge)
  }

  /** Queueing an out-of-sequence segment; alloc says whether tcp_seg_copy() succeeds. */
  function Place(q: seq<Seg>, s: Seg, edge: int, alloc: bool): seq<Seg> {
    if !alloc then q else if q == [] then [s] else PlaceIn(q, s, edge)
  }

  /** Hand over the queued segments that have become in-sequence. */
  datatype Drained = Drained(nxt: int, data: seq<byte>, fin: bool, rest: seq<Seg>)

  function Drain(nxt: int, q: seq<Seg>): Drained
    decreases |q|
  {
    if q != [] && q[0].start == nxt then
      var d := Drain(q[0].End(), q[1..]);
      Drained(d.nxt, q[0].data + d.data, q[0].fin || d.fin, d.rest)
    else
      Drained(nxt, [], false, q)
  }

  // ---------- What the queue must look like ----------

  /** The ooseq invariant: strictly above nxt, no empty segment, FIN on the last
      element at most, increasing and disjoint. */
  ghost predicate QueueOk(nxt: int, q: seq<Seg>)
    decreases |q|
  {
    q != [] ==>
      && nxt < q[0].start && q[0].Len() >= 1
      && (q[0].fin ==> |q| == 1)
      && QueueOk(q[0].DataEnd() - 1, q[1..])
  }

  /** data is what the stream holds from offset from on. */
  ghost predicate Matches(data: seq<byte>, stream: seq<byte>, from: int) {
    && 0 <= from && from + |data| <= |stream|
    && data == stream[from..from + |data|]
  }

  /** s carries bytes of this stream at their own offsets, and FIN only at its very end. */
  ghost predicate True(s: Seg, stream: seq<byte>, closed: bool) {
    && Matches(s.data, stream, s.start)
    && (s.fin ==> closed && s.DataEnd() == |stream|)
  }

  ghost predicate AllTrue(q: seq<Seg>, stream: seq<byte>, closed: bool)
    decreases |q|
  {
    q != [] ==> True(q[0], stream, closed) && AllTrue(q[1..], stream, closed)
  }

  /** Every queued segment, FIN included, ends at or before bound. */
  ghost predicate AllEndBy(q: seq<Seg>, bound: int)
    decreases |q|
  {
    q != [] ==> q[0].End() <= bound && AllEndBy(q[1..], bound)
  }

  predicate InData(s: Seg, pos: int) { s.start <= pos < s.DataEnd() }

  /** Offset pos is held by the queue. */
  ghost predicate Holds(q: seq<Seg>, pos: int)
    decreases |q|
  {
    q != [] && (InData(q[0], pos) || Holds(q[1..], pos))
  }

  /** QueueOk, element by element and pair by pair. */
  lemma {:induction false} QueueOkMeans(nxt: int, q: seq<Seg>)
    ensures QueueOk(nxt, q) <==>
            && (forall i :: 0 <= i < |q| ==> nxt < q[i].start && q[i].Len() >= 1)
            && (forall i :: 0 <= i < |q| - 1 ==> !q[i].fin)
            && (forall i, j :: 0 <= i < j < |q| ==> q[i].DataEnd() <= q[j].start)
    decreases |q|
  {
    if q != [] {
      QueueOkMeans(q[0].DataEnd() - 1, q[1..]);
      assert forall i :: 0 <= i < |q[1..]| ==> q[1..][i] == q[i + 1];
      forall i, j | 0 <= i < j < |q| && QueueOk(nxt, q) ensures q[i].DataEnd() <= q[j].start && !q[i].fin {
        assert q[j] == q[1..][j - 1];
        if i > 0 { assert q[i] == q[1..][i - 1]; }
      }
      forall i | 0 <= i < |q| && QueueOk(nxt, q) ensures nxt < q[i].start && q[i].Len() >= 1 {
        if i > 0 { assert q[i] == q[1..][i - 1]; }
      }
    }
  }

  // ---------- Helper facts ----------

  lemma {:induction false} NothingBelow(nxt: int, q: seq<Seg>, pos: int)
    requires QueueOk(nxt, q) && pos <= nxt
    ensures !Holds(q, pos)
    decreases |q|
  {
    if q != [] && q[0].Len() >= 1 && |q| > 1 { NothingBelow(q[0].DataEnd() - 1, q[1..], pos); }
  }

  lemma {:induction false} NothingBeyondEnd(q: seq<Seg>, pos: int, stream: seq<byte>, closed: bool)
    requires AllTrue(q, stream, closed) && pos >= |stream|
    ensures !Holds(q, pos)
    decreases |q|
  {
    if q != [] { NothingBeyondEnd(q[1..], pos, stream, closed); }
  }

  lemma {:induction false} EndByGrows(q: seq<Seg>, b: int, c: int)
    requires AllEndBy(q, b) && b <= c
    ensures AllEndBy(q, c)
    decreases |q|
  {
    if q != [] { EndByGrows(q[1..], b, c); }
  }

  lemma {:induction false} TrueGrows(q: seq<Seg>, stream: seq<byte>, data: seq<byte>, closed: bool)
    requires AllTrue(q, stream, false)
    ensures AllTrue(q, stream + data, closed)
    decreases |q|
  {
    if q != [] {
      MatchesGrows(q[0].data, stream, data, q[0].start);
      TrueGrows(q[1..], stream, data, closed);
    }
  }

  lemma MatchesGrows(d: seq<byte>, stream: seq<byte>, data: seq<byte>, from: int)
    requires Matches(d, stream, from)
    ensures Matches(d, stream + data, from)
  {}

  lemma MatchesConcat(a: seq<byte>, b: seq<byte>, stream: seq<byte>, from: int)
    requires Matches(a, stream, from) && (b != [] ==> Matches(b, stream, from + |a|))
    ensures Matches(a + b, stream, from)
  {
    if b == [] {
      assert a + b == a;
    } else {
      var m, n := from + |a|, from + |a| + |b|;
      assert stream[from..m] + stream[m..n] == stream[from..n];
    }
  }

  lemma TakeMatches(a: seq<byte>, n: int, stream: seq<byte>, from: int)
    requires Matches(a, stream, from)
    ensures Matches(Take(a, n), stream, from)
  {}

  // ---------- The in-sequence path ----------

  /** The segments swallowed lie within the segment; what remains reaches beyond it. */
  lemma {:induction false} AbsorbCoveredOk(nxt: int, s: Seg, q: seq<Seg>)
    requires QueueOk(nxt, q)
    requires s.fin ==> q == []
    ensures var (t, rest) := AbsorbCovered(s, q);
            && t.start == s.start && t.data == s.data
            && QueueOk(nxt, rest)
            && (rest != [] ==> !t.fin && t.End() < rest[0].DataEnd())
            && (t.fin ==> rest == [])
    decreases |q|
  {
    if q != [] && s.End() >= q[0].DataEnd() {
      AbsorbCoveredOk(nxt, s.(fin := s.fin || q[0].fin), q[1..]);
    }
  }

  lemma {:induction false} AbsorbCoveredKeeps(nxt: int, s: Seg, q: seq<Seg>, stream: seq<byte>, closed: bool, bound: int)
    requires QueueOk(nxt, q) && (s.fin ==> q == [])
    requires True(s, stream, closed) && AllTrue(q, stream, closed)
    requires s.End() <= bound && AllEndBy(q, bound)
    ensures var (t, rest) := AbsorbCovered(s, q);
            && True(t, stream, closed) && AllTrue(rest, stream, closed)
            && t.End() <= bound && AllEndBy(rest, bound)
    decreases |q|
  {
    if q != [] && s.End() >= q[0].DataEnd() {
      assert True(q[0], stream, closed) && q[0].End() <= bound;
      AbsorbCoveredKeeps(nxt, s.(fin := s.fin || q[0].fin), q[1..], stream, closed, bound);
    }
  }

  lemma {:induction false} AbsorbCoveredHolds(nxt: int, s: Seg, q: seq<Seg>, pos: int)
    requires QueueOk(nxt, q)
    requires s.fin ==> q == []
    ensures Holds(AbsorbCovered(s, q).1, pos) ==> Holds(q, pos)
    ensures pos >= s.DataEnd() && Holds(q, pos) ==> Holds(AbsorbCovered(s, q).1, pos)
    decreases |q|
  {
    if q != [] && s.End() >= q[0].DataEnd() {
      AbsorbCoveredHolds(q[0].DataEnd() - 1, s.(fin := s.fin || q[0].fin), q[1..], pos);
    }
  }

  /** What an in-sequence segment and the queue become before rcv_nxt moves. */
  lemma AbsorbOk(nxt: int, s: Seg, q: seq<Seg>)
    requires QueueOk(nxt, q) && s.start == nxt && s.Len() >= 1
    ensures var (t, rest) := Absorb(s, q);
            && t.start == nxt && t.Len() >= 1 && t.DataEnd() <= s.DataEnd()
            && QueueOk(t.End() - 1, rest)
            && (t.fin ==> rest == [] && t.data == s.data)
            && (t.data != s.data ==> rest != [] && rest[0].start == t.End() && s.DataEnd() <= rest[0].DataEnd())
  {
    if !s.fin { AbsorbCoveredOk(nxt, s, q); }
  }

  lemma AbsorbKeeps(nxt: int, s: Seg, q: seq<Seg>, stream: seq<byte>, closed: bool, bound: int)
    requires QueueOk(nxt, q) && s.start == nxt && s.Len() >= 1
    requires True(s, stream, closed) && AllTrue(q, stream, closed)
    requires s.End() <= bound && AllEndBy(q, bound)
    ensures var (t, rest) := Absorb(s, q);
            && True(t, stream, closed) && AllTrue(rest, stream, closed)
            && t.End() <= bound && AllEndBy(rest, bound)
  {
    if !s.fin {
      AbsorbCoveredOk(nxt, s, q);
      AbsorbCoveredKeeps(nxt, s, q, stream, closed, bound);
      var (u, rest) := AbsorbCovered(s, q);
      if rest != [] { TakeMatches(u.data, rest[0].start - u.start, stream, u.start); }
    }
  }

  /** Nothing held beyond the segment is lost, and the queue gains nothing. */
  lemma AbsorbExact(nxt: int, s: Seg, q: seq<Seg>, stream: seq<byte>, closed: bool, pos: int)
    requires QueueOk(nxt, q) && s.start == nxt && s.Len() >= 1
    requires True(s, stream, closed) && AllTrue(q, stream, closed)
    ensures var (t, rest) := Absorb(s, q);
            && (Holds(rest, pos) ==> Holds(q, pos))
            && (pos >= t.DataEnd() && Holds(q, pos) ==> Holds(rest, pos))
  {
    AbsorbOk(nxt, s, q);
    if s.fin {
      if pos >= s.DataEnd() { NothingBeyondEnd(q, pos, stream, closed); }
    } else {
      AbsorbCoveredHolds(nxt, s, q, pos);
      var (t, rest) := Absorb(s, q);
      if t.DataEnd() <= pos < s.DataEnd() { assert InData(rest[0], pos); }
    }
  }

  /** Draining leaves the queue strictly above the new nxt. */
  lemma {:induction false} DrainKeepsQueue(nxt: int, q: seq<Seg>)
    requires QueueOk(nxt - 1, q)
    ensures QueueOk(Drain(nxt, q).nxt, Drain(nxt, q).rest)
    decreases |q|
  {
    if q != [] && q[0].start == nxt { DrainKeepsQueue(q[0].End(), q[1..]); }
  }

  /** Draining hands over the stream's bytes from nxt on, and the FIN only after the last one. */
  lemma {:induction false} DrainDelivers(nxt: int, q: seq<Seg>, stream: seq<byte>, closed: bool)
    requires QueueOk(nxt - 1, q) && AllTrue(q, stream, closed)
    ensures var d := Drain(nxt, q);
            && AllTrue(d.rest, stream, closed)
            && d.nxt == nxt + |d.data| + (if d.fin then 1 else 0)
            && (d.data != [] ==> Matches(d.data, stream, nxt))
            && (d.fin ==> closed && d.nxt == |stream| + 1)
    decreases |q|
  {
    if q != [] && q[0].start == nxt {
      DrainDelivers(q[0].End(), q[1..], stream, closed);
      var e := Drain(q[0].End(), q[1..]);
      if q[0].fin { assert q[1..] == []; }
      MatchesConcat(q[0].data, e.data, stream, nxt);
    }
  }

  /** Draining takes exactly the longest run of held offsets that starts at nxt: none of it is lost,
      the offset behind it is not held, and nothing above it is touched. */
  lemma {:induction false} DrainExact(nxt: int, q: seq<Seg>, pos: int)
    requires QueueOk(nxt - 1, q)
    ensures var d := Drain(nxt, q);
            && d.nxt >= nxt + |d.data|
            && (pos >= d.nxt ==> (Holds(d.rest, pos) <==> Holds(q, pos)))
            && (nxt <= pos < nxt + |d.data| ==> Holds(q, pos))
            && !Holds(d.rest, d.nxt)
    decreases |q|
  {
    if q != [] && q[0].start == nxt {
      DrainExact(q[0].End(), q[1..], pos);
      if q[0].fin { assert q[1..] == []; }
    } else {
      NothingBelow(nxt, q, nxt);
    }
  }

  lemma {:induction false} DrainBound(nxt: int, q: seq<Seg>, bound: int)
    requires nxt <= bound && AllEndBy(q, bound)
    ensures Drain(nxt, q).nxt <= bound && AllEndBy(Drain(nxt, q).rest, bound)
    decreases |q|
  {
    if q != [] && q[0].start == nxt { DrainBound(q[0].End(), q[1..], bound); }
  }

  // ---------- The out-of-sequence path ----------

  /** What insertion does when c covers the head of the queue: the head goes, its FIN stays. */
  lemma InsertStep(c: Seg, q: seq<Seg>)
    requires !c.fin && q != [] && c.DataEnd() >= q[0].DataEnd() && (q[0].fin ==> |q| == 1)
    ensures Insert(c, q) == if q[0].fin then [c.(fin := true)] else Insert(c, q[1..])
  {
    if q[0].fin {
      assert q[1..] == [];
      assert InsertCovered(c.(fin := true), q[1..]) == (c.(fin := true), []);
    } else {
      assert c.(fin := c.fin || q[0].fin) == c;
    }
  }

  /** What it does when c ends before the head's end. */
  lemma InsertStop(c: Seg, q: seq<Seg>)
    requires !c.fin && (q == [] || c.DataEnd() < q[0].DataEnd())
    ensures Insert(c, q) == [if q != [] && c.DataEnd() > q[0].start then TrimTo(c, q[0].start) else c] + q
  {
    assert InsertCovered(c, q) == (c, q);
  }

  /** tcp_oos_insert_segment() puts c in front of what lies above it. */
  lemma {:induction false} InsertKeepsQueue(b: int, c: Seg, q: seq<Seg>)
    requires QueueOk(c.start, q) && b < c.start && c.Len() >= 1
    ensures QueueOk(b, Insert(c, q)) && Insert(c, q)[0].start == c.start
    decreases |q|
  {
    if !c.fin {
      if q != [] && c.DataEnd() >= q[0].DataEnd() {
        InsertStep(c, q);
        if !q[0].fin { InsertKeepsQueue(b, c, q[1..]); }
      } else {
        InsertStop(c, q);
        assert Insert(c, q)[1..] == q;
      }
    }
  }

  /** After an insertion exactly the old offsets and the new ones are held; a FIN removes
      everything behind it. */
  lemma {:induction false} InsertExact(c: Seg, q: seq<Seg>, pos: int)
    requires QueueOk(c.start, q)
    ensures Holds(Insert(c, q), pos) <==> InData(c, pos) || (!c.fin && Holds(q, pos))
    decreases |q|
  {
    if !c.fin {
      if q != [] && c.DataEnd() >= q[0].DataEnd() {
        InsertStep(c, q);
        if !q[0].fin { InsertExact(c, q[1..], pos); }
      } else {
        InsertStop(c, q);
        assert Insert(c, q)[1..] == q;
      }
    }
  }

  /** Insertion keeps true segments true and ends within any common bound. */
  lemma {:induction false} InsertTrue(c: Seg, q: seq<Seg>, stream: seq<byte>, closed: bool, bound: int)
    requires QueueOk(c.start, q)
    requires True(c, stream, closed) && AllTrue(q, stream, closed)
    requires c.End() <= bound && AllEndBy(q, bound)
    ensures AllTrue(Insert(c, q), stream, closed) && AllEndBy(Insert(c, q), bound)
    decreases |q|
  {
    if !c.fin {
      if q != [] && c.DataEnd() >= q[0].DataEnd() {
        InsertStep(c, q);
        assert True(q[0], stream, closed) && q[0].End() <= bound;
        if !q[0].fin { InsertTrue(c, q[1..], stream, closed, bound); }
      } else {
        InsertStop(c, q);
        assert Insert(c, q)[1..] == q;
        if q != [] { TakeMatches(c.data, q[0].start - c.start, stream, c.start); }
      }
    }
  }

  /** Where the arriving segment has the start of the queue's head it replaces it. */
  lemma InsertOverEqual(c: Seg, q: seq<Seg>)
    requires q != [] && q[0].start == c.start && |c.data| > |q[0].data| && !c.fin
    requires QueueOk(c.start - 1, q)
    ensures QueueOk(c.start, q[1..])
    ensures Insert(c, q) == if q[0].fin then [c.(fin := true)] else Insert(c, q[1..])
  {
    InsertStep(c, q);
  }

  /** Queueing keeps the queue invariant, for any arriving segment whatever it carries. */
  lemma {:induction false} PlaceKeepsQueue(b: int, q: seq<Seg>, s: Seg, edge: int)
    requires QueueOk(b, q) && q != []
    requires b < s.start < edge && s.Len() >= 1
    ensures var r := PlaceIn(q, s, edge);
            QueueOk(b, r) && r != [] && r[0].start == Min(s.start, q[0].start)
    decreases |q|
  {
    if s.start == q[0].start {
      if |s.data| > |q[0].data| && !s.fin {
        InsertOverEqual(s, q);
        if !q[0].fin { InsertKeepsQueue(b, s, q[1..]); }
      }
    } else if s.start < q[0].start {
      InsertKeepsQueue(b, s, q);
    } else if |q| == 1 {
      assert [TrimTo(q[0], s.start), ClipToEdge(s, edge)][1..] == [ClipToEdge(s, edge)];
    } else if s.start < q[1].start {
      var t := TrimTo(q[0], s.start);
      InsertKeepsQueue(t.DataEnd() - 1, s, q[1..]);
      assert PlaceIn(q, s, edge)[1..] == Insert(s, q[1..]);
    } else {
      PlaceKeepsQueue(q[0].DataEnd() - 1, q[1..], s, edge);
      assert PlaceIn(q, s, edge)[1..] == PlaceIn(q[1..], s, edge);
    }
  }

  lemma TrimToTrue(s: Seg, at: int, stream: seq<byte>, closed: bool, bound: int)
    requires True(s, stream, closed) && s.End() <= bound && s.start < at && !s.fin
    ensures True(TrimTo(s, at), stream, closed) && TrimTo(s, at).End() <= bound
  {
    TakeMatches(s.data, at - s.start, stream, s.start);
  }

  lemma NothingBehindFin(f: Seg, s: Seg, stream: seq<byte>, closed: bool)
    requires True(f, stream, closed) && True(s, stream, closed) && s.DataEnd() > f.DataEnd()
    ensures !f.fin
  {}

  lemma ClipTrue(s: Seg, edge: int, stream: seq<byte>, closed: bool, bound: int)
    requires True(s, stream, closed) && s.End() <= bound
    ensures True(ClipToEdge(s, edge), stream, closed) && ClipToEdge(s, edge).End() <= bound
  {
    TakeMatches(s.data, edge - s.start, stream, s.start);
  }

  /** Queueing keeps every held byte a byte of the stream. */
  lemma {:induction false} PlaceTrue(b: int, q: seq<Seg>, s: Seg, edge: int, stream: seq<byte>, closed: bool, bound: int)
    requires QueueOk(b, q) && q != []
    requires True(s, stream, closed) && AllTrue(q, stream, closed)
    requires s.End() <= bound && AllEndBy(q, bound)
    ensures AllTrue(PlaceIn(q, s, edge), stream, closed) && AllEndBy(PlaceIn(q, s, edge), bound)
    decreases |q|
  {
    hide True, TrimTo, ClipToEdge;
    if s.start == q[0].start {
      if |s.data| > |q[0].data| && !s.fin {
        InsertOverEqual(s, q);
        NothingBehindFin(q[0], s, stream, closed);
        InsertTrue(s, q[1..], stream, closed, bound);
      }
    } else if s.start < q[0].start {
      InsertTrue(s, q, stream, closed, bound);
    } else if |q| == 1 {
      if !q[0].fin { TrimToTrue(q[0], s.start, stream, closed, bound); }
      ClipTrue(s, edge, stream, closed, bound);
      if !q[0].fin {
        assert PlaceIn(q, s, edge)[1..] == [ClipToEdge(s, edge)] && [ClipToEdge(s, edge)][1..] == [];
      }
    } else if s.start < q[1].start {
      TrimToTrue(q[0], s.start, stream, closed, bound);
      InsertTrue(s, q[1..], stream, closed, bound);
      assert PlaceIn(q, s, edge)[1..] == Insert(s, q[1..]);
    } else {
      PlaceTrue(q[0].DataEnd() - 1, q[1..], s, edge, stream, closed, bound);
      assert PlaceIn(q, s, edge)[1..] == PlaceIn(q[1..], s, edge);
    }
  }

  /** The arriving segment is dropped: a queued one with the same start is at least as
      long, or the queue already ends with a FIN below it. */
  predicate Ditched(q: seq<Seg>, s: Seg)
    requires q != []
    decreases |q|
  {
    if s.start == q[0].start then |s.data| <= |q[0].data|
    else if |q| == 1 then q[0].fin && s.start > q[0].start
    else s.start > q[0].start && Ditched(q[1..], s)
  }

  /** A ditched segment leaves the queue alone. */
  lemma {:induction false} PlaceDitched(q: seq<Seg>, s: Seg, edge: int)
    requires q != [] && Ditched(q, s)
    ensures PlaceIn(q, s, edge) == q
    decreases |q|
  {
    if |q| > 1 && s.start > q[0].start {
      PlaceDitched(q[1..], s, edge);
      assert s.start >= q[1].start;
      assert q == [q[0]] + q[1..];
    }
  }

  /** The offsets at which an older segment is cut because a new one starts inside it. What
      the new one does not cover of them is lost until it is retransmitted. */
  predicate CutTail(q: seq<Seg>, s: Seg, pos: int)
    decreases |q|
  {
    q != [] && ((q[0].start < s.start <= pos && InData(q[0], pos)) || CutTail(q[1..], s, pos))
  }

  lemma {:induction false} NoCutTail(q: seq<Seg>, s: Seg, pos: int)
    requires QueueOk(s.start - 1, q)
    ensures !CutTail(q, s, pos)
    decreases |q|
  {
    if q != [] && q[0].Len() >= 1 && |q| > 1 { NoCutTail(q[1..], s, pos); }
  }

  lemma {:induction false} CutTailAbove(q: seq<Seg>, s: Seg, pos: int)
    requires CutTail(q, s, pos)
    ensures s.start <= pos
    decreases |q|
  {
    if !(q[0].start < s.start <= pos && InData(q[0], pos)) { CutTailAbove(q[1..], s, pos); }
  }

  /** The offsets of an arriving segment that get queued: all of them, except that a segment
      appended behind the whole queue is cut at the window edge. */
  predicate Lands(q: seq<Seg>, s: Seg, edge: int, pos: int)
    requires q != []
  {
    InData(s, pos) && (pos < edge || s.start <= q[|q| - 1].start)
  }

  lemma LastAbove(b: int, q: seq<Seg>)
    requires QueueOk(b, q) && q != []
    ensures q[0].start <= q[|q| - 1].start
  {
    QueueOkMeans(b, q);
    if |q| > 1 { assert q[0].DataEnd() <= q[|q| - 1].start; }
  }

  /** Exactly what the queue holds after an out-of-sequence segment was queued. */
  lemma {:induction false} PlaceExact(b: int, q: seq<Seg>, s: Seg, edge: int, pos: int)
    requires QueueOk(b, q) && q != []
    requires s.start < edge && s.Len() >= 1
    requires s.fin && pos >= s.DataEnd() ==> !Holds(q, pos)
    requires !Ditched(q, s)
    ensures Holds(PlaceIn(q, s, edge), pos) <==>
            Lands(q, s, edge, pos) || (Holds(q, pos) && !CutTail(q, s, pos))
    decreases |q|
  {
    LastAbove(b, q);
    if s.start <= q[0].start {
      NoCutTail(q, s, pos);
      PlaceFront(b, q, s, edge, pos);
    } else if |q| == 1 {
      PlaceLast(q[0], s, edge, pos);
      assert q == [q[0]];
    } else if s.start < q[1].start {
      PlaceBetween(b, q, s, edge, pos);
    } else {
      PlaceExact(b, q[1..], s, edge, pos);
      if CutTail(q[1..], s, pos) { CutTailAbove(q[1..], s, pos); }
      assert PlaceIn(q, s, edge)[1..] == PlaceIn(q[1..], s, edge);
    }
  }

  lemma PlaceBetween(b: int, q: seq<Seg>, s: Seg, edge: int, pos: int)
    requires QueueOk(b, q) && |q| > 1 && q[0].start < s.start < q[1].start && s.start < edge && s.Len() >= 1
    requires s.fin && pos >= s.DataEnd() ==> !Holds(q, pos)
    requires !Ditched(q, s)
    ensures Holds(PlaceIn(q, s, edge), pos) <==>
            Lands(q, s, edge, pos) || (Holds(q, pos) && !CutTail(q, s, pos))
  {
    LastAbove(b, q);
    LastAbove(b, q[1..]);
    NoCutTail(q[1..], s, pos);
    InsertExact(s, q[1..], pos);
    if pos <= s.start { NothingBelow(s.start, q[1..], pos); }
    if pos < q[0].DataEnd() { NothingBelow(q[0].DataEnd() - 1, q[1..], pos); }
    var t := TrimTo(q[0], s.start);
    assert PlaceIn(q, s, edge) == [t] + Insert(s, q[1..]);
    assert ([t] + Insert(s, q[1..]))[1..] == Insert(s, q[1..]);
    assert Holds(q, pos) <==> InData(q[0], pos) || Holds(q[1..], pos);
    assert CutTail(q, s, pos) <==> s.start <= pos && InData(q[0], pos);
  }

  lemma PlaceFront(b: int, q: seq<Seg>, s: Seg, edge: int, pos: int)
    requires QueueOk(b, q) && q != [] && s.start <= q[0].start
    requires s.start == q[0].start ==> |s.data| > |q[0].data|
    requires s.fin && pos >= s.DataEnd() ==> !Holds(q, pos)
    ensures Holds(PlaceIn(q, s, edge), pos) <==> InData(s, pos) || Holds(q, pos)
  {
    if s.fin {
      assert PlaceIn(q, s, edge) == [s];
      if pos < s.start { NothingBelow(s.start - 1, q, pos); }
    } else if s.start < q[0].start {
      InsertExact(s, q, pos);
    } else {
      InsertOverEqual(s, q);
      if !q[0].fin { InsertExact(s, q[1..], pos); }
    }
  }

  lemma PlaceLast(p: Seg, s: Seg, edge: int, pos: int)
    requires p.start < s.start < edge && !p.fin
    ensures Holds(PlaceIn([p], s, edge), pos) <==>
            Lands([p], s, edge, pos) || (Holds([p], pos) && !CutTail([p], s, pos))
  {
    var t, u := TrimTo(p, s.start), ClipToEdge(s, edge);
    assert [t, u][1..] == [u] && [u][1..] == [] && [p][1..] == [];
    assert Holds([u], pos) <==> InData(u, pos);
    assert Holds([p], pos) <==> InData(p, pos);
    assert CutTail([p], s, pos) <==> s.start <= pos && InData(p, pos);
  }
}
