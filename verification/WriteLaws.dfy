/** How tcp_write() cuts. */
module WriteLaws {
  // The queue a call leaves, when it fails, and what the next call finds, as functions of the call's
  // arguments alone: without the three phases.

  import opened SequenceNumbers
  import opened TcpConfig
  import opened SendQueues
  import opened SendInvariants

  /** The bytes the last unsent segment can still take. A segment without data takes only what is
      reserved behind it. */
  function Room(st: SndState): nat
    requires TailFits(st)
  {
    if st.unsent == [] then 0
    else if |Last(st.unsent).data| > 0 then MssLocal(st) - |Last(st.unsent).data|
    else st.oversize
  }

  /** How many of len bytes go there. */
  function Taken(st: SndState, len: nat): nat
    requires TailFits(st)
  {
    Min(len, Room(st))
  }

  /** Those among them that need no new buffer. */
  function Spare(st: SndState, len: nat): nat
    requires TailFits(st)
  {
    if st.unsent == [] then 0 else Min(len, st.oversize)
  }

  /** a / m, rounded up. */
  function Ceil(a: nat, m: nat): nat
    requires m >= 1
  {
    (a + m - 1) / m
  }

  /** The number of segments for the others. */
  function Pieces(st: SndState, len: nat): nat
    requires TailFits(st)
  {
    Ceil(len - Taken(st, len), MssLocal(st))
  }

  /** Buffers and allocations the call needs: one buffer if the last segment is extended beyond its spare
      bytes, and for each new segment one buffer and a segment, or two buffers and a segment if the data
      is only referenced. */
  function Buffers(st: SndState, len: nat, copy: bool): nat
    requires TailFits(st)
  {
    (if Taken(st, len) > Spare(st, len) then 1 else 0) + Pieces(st, len) * (if copy then 1 else 2)
  }

  // ---------- The plan ----------

  lemma PlanTakes(st: SndState, len: nat)
    requires TailFits(st)
    ensures Used(st, len) == Spare(st, len) && Used(st, len) + Concat(st, len) == Taken(st, len)
  {}

  lemma CeilStep(a: nat, m: nat)
    requires m >= 1
    ensures Ceil(a, m) == if a == 0 then 0 else 1 + Ceil(a - Min(a, m), m)
  {
    SmallQuotient(m - 1, m);
    if a > 0 { Divide(a - 1, m); }
    if 0 < a <= m { SmallQuotient(a - 1, m); }
  }

  lemma {:induction false} SegmentCount(start: int, data: seq<byte>, mss: nat, clen: nat)
    requires mss >= 1
    ensures |Segments(start, data, mss, clen)| == Ceil(|data|, mss)
    decreases |data|
  {
    hide Ceil;
    CeilStep(|data|, mss);
    if data != [] {
      var n := Min(|data|, mss);
      SegmentCount(start + n, data[n..], mss, clen);
      SegmentsFirst(start, data, mss, clen);
    }
  }

  /** What a successful call leaves, in terms of the plan. */
  lemma Written(st: SndState, data: seq<byte>, copy: bool, more: bool, budget: nat)
    requires TailFits(st) && 0 < |data| <= 0xffff && Write(st, data, copy, more, budget).1 == ErrOk
    ensures var r, p := Write(st, data, copy, more, budget).0, PlanWrite(st, data, copy);
            && p.used == Spare(st, |data|) && p.used + p.concat == Taken(st, |data|) && |p.queue| == Pieces(st, |data|)
            && r.unsent == UnsentAfter(st, data, p) && r.queuelen == U16(st.queuelen + PlanPbufs(p, copy))
            && r.oversize == OversizeAfter(st, p, copy, more) && r.mss == st.mss && r.wndMax == st.wndMax
            && r.buf == st.buf - |data| && r.state == st.state
  {
    hide Ceil, Segments;
    PlanTakes(st, |data|);
    var k := Taken(st, |data|);
    SegmentCount(st.lbb + k, data[k..], MssLocal(st), if copy then 1 else 2);
  }

  // ---------- What a call leaves ----------

  /** A successful tcp_write(): the segments in front of the last unsent one stay; that one takes all it has
      room for; no segment is started while the one in front of it has room; and the buffer count grows by
      the buffers needed. */
  lemma NoRoomLeft(st: SndState, data: seq<byte>, copy: bool, more: bool, budget: nat, i: nat)
    requires TailFits(st) && 0 < |data| <= 0xffff
    ensures var (r, err) := Write(st, data, copy, more, budget);
            var n, k := |st.unsent|, Taken(st, |data|);
            err == ErrOk ==>
              && |r.unsent| == n + Pieces(st, |data|) && r.queuelen == st.queuelen + Buffers(st, |data|, copy)
              && (i + 1 < n ==> r.unsent[i] == st.unsent[i])
              && (i + 1 == n ==> r.unsent[i].data == st.unsent[i].data + data[..k] && r.unsent[i].start == st.unsent[i].start)
              && (n <= i + 1 < |r.unsent| && (i >= n || st.unsent[i].data != []) ==> |r.unsent[i].data| == MssLocal(st))
  {
    if Write(st, data, copy, more, budget).1 == ErrOk {
      hide Write, PlanWrite, OversizeAfter, Pieces, MssLocal, Segments, UnsentAfter;
      Written(st, data, copy, more, budget);
      CountFits(st, data, copy, more, budget);
      QueueAt(st, data, PlanWrite(st, data, copy), i);
      QueueFull(st, data, copy, i);
    }
  }

  /** The new queue, one segment at a time. */
  lemma QueueAt(st: SndState, data: seq<byte>, p: Plan, i: nat)
    requires p.used + p.concat <= |data|
    ensures var (q, n) := (UnsentAfter(st, data, p), |st.unsent|);
            && |q| == n + |p.queue|
            && (i + 1 < n ==> q[i] == st.unsent[i])
            && (i + 1 == n ==> q[i].data == st.unsent[i].data + data[..p.used + p.concat] && q[i].start == st.unsent[i].start)
            && (n <= i < |q| ==> q[i] == p.queue[i - n])
  {}

  /** What lies behind the old last segment is full but for the last; the old last one is if anything does. */
  lemma QueueFull(st: SndState, data: seq<byte>, copy: bool, i: nat)
    requires TailFits(st)
    ensures var (p, n) := (PlanWrite(st, data, copy), |st.unsent|);
            && (n <= i && i + 1 < n + |p.queue| ==> |p.queue[i - n].data| == MssLocal(st))
            && (i + 1 == n && st.unsent[i].data != [] && p.queue != [] ==>
                |st.unsent[i].data| + Taken(st, |data|) == MssLocal(st))
  {
    hide MssLocal, PlanWrite, Segments;
    PlanRest(st, data, copy);
    var (p, n, k) := (PlanWrite(st, data, copy), |st.unsent|, Taken(st, |data|));
    if n <= i && i + 1 < n + |p.queue| {
      SegmentsFull(st.lbb + k, data[k..], MssLocal(st), if copy then 1 else 2, i - n);
    }
  }

  lemma PlanRest(st: SndState, data: seq<byte>, copy: bool)
    requires TailFits(st)
    ensures var k := Taken(st, |data|);
            && PlanWrite(st, data, copy).queue == Segments(st.lbb + k, data[k..], MssLocal(st), if copy then 1 else 2)
            && (PlanWrite(st, data, copy).queue != [] ==> |data| > Room(st))
            && MssLocal(st) >= 1
  {
    hide Used, Concat, Segments;
    PlanTakes(st, |data|);
    var k := Taken(st, |data|);
    if k == |data| {
      assert data[k..] == [];
      NoSegments(st.lbb + k, MssLocal(st), if copy then 1 else 2);
    }
  }

  lemma NoSegments(start: int, mss: nat, clen: nat)
    requires mss >= 1
    ensures Segments(start, [], mss, clen) == []
  {}

  /** New segments are started only when the room is used up. */
  lemma PiecesMean(st: SndState, len: nat)
    requires TailFits(st)
    ensures Pieces(st, len) > 0 <==> len > Room(st)
  {
    hide Ceil;
    CeilStep(len - Taken(st, len), MssLocal(st));
  }

  lemma CountFits(st: SndState, data: seq<byte>, copy: bool, more: bool, budget: nat)
    requires TailFits(st) && 0 < |data| <= 0xffff && Write(st, data, copy, more, budget).1 == ErrOk
    ensures var p := PlanWrite(st, data, copy);
            PlanPbufs(p, copy) == Buffers(st, |data|, copy) && st.queuelen + PlanPbufs(p, copy) <= TCP_SND_QUEUELEN
  {
    Written(st, data, copy, more, budget);
  }

  /** Exactly when a call that has something to write succeeds: the connection can send, the data fits the
      send buffer, the queue has room for the buffers, and memory suffices. When it does not, nothing has
      changed but TF_NAGLEMEMERR. */
  lemma SucceedsIff(st: SndState, data: seq<byte>, copy: bool, more: bool, budget: nat)
    requires TailFits(st) && 0 < |data| <= 0xffff
    ensures var (r, err) := Write(st, data, copy, more, budget);
            && (err == ErrOk <==>
                && (st.state.Established? || st.state.CloseWait?)
                && |data| <= st.buf && st.queuelen < TCP_SND_QUEUELEN
                && (Pieces(st, |data|) > 0 ==> st.queuelen + Buffers(st, |data|, copy) <= TCP_SND_QUEUELEN)
                && Buffers(st, |data|, copy) + Pieces(st, |data|) <= budget)
            && (err == ErrConn <==> !st.state.Established? && !st.state.CloseWait?)
            && (err == ErrConn ==> r == st) && (err == ErrMem ==> r == st.(memErr := true))
  {
    hide Ceil, Committed, Segments, Used, Concat;
    PlanTakes(st, |data|);
    var k := Taken(st, |data|);
    SegmentCount(st.lbb + k, data[k..], MssLocal(st), if copy then 1 else 2);
  }

  // ---------- What the next call finds ----------

  /** The bytes reserved behind the last segment: when a buffer was allocated for copied data, all the room
      there is, if more data is announced or expected; else what was reserved before and not used. */
  lemma Reserved(st: SndState, data: seq<byte>, copy: bool, more: bool, budget: nat)
    requires TailFits(st) && 0 < |data| <= 0xffff && MssLocal(st) <= TCP_MSS
    requires Write(st, data, copy, more, budget).1 == ErrOk
    ensures var r := Write(st, data, copy, more, budget).0;
            var pieces := Pieces(st, |data|);
            && r.unsent != []
            && r.oversize ==
               if pieces == 0 && (!copy || Taken(st, |data|) == Spare(st, |data|)) then st.oversize - Spare(st, |data|)
               else if copy && (more || (!st.noDelay && (pieces != 1 || st.unsent != [] || st.unacked != [])))
               then MssLocal(st) - |Last(r.unsent).data|
               else 0
  {
    hide Write, Segments;
    Written(st, data, copy, more, budget);
    PlanRest(st, data, copy);
    var p := PlanWrite(st, data, copy);
    if p.queue != [] {
      assert Last(UnsentAfter(st, data, p)) == Last(p.queue);
    } else {
      PiecesMean(st, |data|);
      assert Last(UnsentAfter(st, data, p)).data == Last(st.unsent).data + data[..p.used + p.concat];
    }
  }

  /** TCP_WRITE_FLAG_MORE: after copied data for which a buffer was allocated, further calls need no memory
      and start no segment until the last one is full. */
  lemma MoreNeedsNoMemory(st: SndState, data: seq<byte>, budget: nat, next: seq<byte>, copy: bool, more: bool)
    requires TailFits(st) && 0 < |data| <= 0xffff && MssLocal(st) <= TCP_MSS
    requires Pieces(st, |data|) > 0 || Taken(st, |data|) > Spare(st, |data|)
    requires var (r, err) := Write(st, data, true, true, budget);
             err == ErrOk && r.unsent != [] && 0 < |next| <= MssLocal(st) - |Last(r.unsent).data|
             && |next| <= r.buf && r.queuelen < TCP_SND_QUEUELEN
    ensures TailFits(Write(st, data, true, true, budget).0)
    ensures var r := Write(st, data, true, true, budget).0;
            var (s, err) := Write(r, next, copy, more, 0);
            err == ErrOk && |s.unsent| == |r.unsent| && s.queuelen == r.queuelen && Last(s.unsent).data == Last(r.unsent).data + next
  {
    hide Write;
    Reserved(st, data, true, true, budget);
    Written(st, data, true, true, budget);
    var r := Write(st, data, true, true, budget).0;
    SucceedsIff(st, data, true, true, budget);
    PiecesMean(r, |next|);
    SucceedsIff(r, next, copy, more, 0);
    NoRoomLeft(r, next, copy, more, 0, |r.unsent| - 1);
    assert next[..|next|] == next;
  }

  // ---------- The FIN ----------

  /** tcp_send_fin() needs no memory while something without a FIN is unsent, and then adds no segment;
      otherwise it needs a free byte of the send buffer and two allocations. */
  lemma FinPlaced(st: SndState, budget: nat)
    ensures var (r, err) := SendFin(st, budget);
            var merges := st.unsent != [] && !Last(st.unsent).fin;
            && (err == ErrOk <==> merges || (st.buf > 0 && budget >= 2))
            && (err == ErrOk ==> r.finQueued && r.unsent != [] && Last(r.unsent).fin && r.lbb + r.buf == st.lbb + st.buf)
            && (err == ErrOk ==> |r.unsent| == |st.unsent| + (if merges then 0 else 1) && r.lbb == st.lbb + (if merges then 0 else 1))
            && (err == ErrOk && merges ==> Last(r.unsent).data == Last(st.unsent).data && r.queuelen == st.queuelen)
            && (err == ErrOk && !merges ==> Last(r.unsent).data == [] && Last(r.unsent).start == st.lbb && r.queuelen == U16(st.queuelen + 1))
            && (err != ErrOk ==> r == st.(memErr := st.memErr || st.buf > 0))
  {}
}
