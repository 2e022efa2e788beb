/** The chain operations of src/pbuf.c on the heap of packet buffers, each with the byte string it
    makes of the chain and its effect on the reference counts. */
module PbufPool {
  import opened SequenceNumbers
  import opened TcpConfig
  import opened PbufHeap
  import opened PbufChains

  class Pool {
    var heap: Heap
    ghost var handles: multiset<Ptr>   // the external references: local variables, struct fields

    ghost predicate Valid()
      reads this
    {
      RefsOk(heap, handles)
    }

    constructor ()
      ensures Valid() && heap == map[] && handles == multiset{}
    {
      heap, handles := map[], multiset{};
    }

    // ---------- Reference counting ----------

    /** pbuf_alloc() of a single buffer at an address that is free. */
    method Alloc(p: Ptr, data: seq<byte>)
      requires Valid() && p !in heap
      modifies this
      ensures Valid() && handles == old(handles) + multiset{p}
      ensures heap == old(heap)[p := Pbuf(None, data, |data|, 1)]
    {
      AllocKeepsRefs(heap, handles, p, Pbuf(None, data, |data|, 1));
      heap := heap[p := Pbuf(None, data, |data|, 1)];
      handles := handles + multiset{p};
    }

    /** pbuf_ref() */
    method Ref(p: Option<Ptr>)
      requires Valid() && (p.Some? ==> p.value in heap)
      modifies this
      ensures Valid()
      ensures p.None? ==> heap == old(heap) && handles == old(handles)
      ensures p.Some? ==> heap == old(heap)[p.value := Counted(old(heap)[p.value], old(heap)[p.value].refs + 1)]
      ensures p.Some? ==> handles == old(handles) + multiset{p.value}
    {
      if p.Some? {
        RefKeepsRefs(heap, handles, p.value);
        heap := heap[p.value := Counted(heap[p.value], heap[p.value].refs + 1)];
        handles := handles + multiset{p.value};
      }
    }

    /** pbuf_free(): gives up one external reference to p. Exactly the pbufs of the maximal run from p
        that nothing else references are released, and the one behind the run loses one reference;
        the 8-bit result counts the run. */
    method Free(p: Option<Ptr>) returns (count: u8, ghost run: seq<Ptr>, ghost after: Option<Ptr>)
      requires Valid() && (p.Some? ==> p.value in handles)
      modifies this
      ensures Valid() && handles == if p.Some? then old(handles) - multiset{p.value} else old(handles)
      ensures SoleRun(old(heap), p, run, after) && heap == Released(old(heap), run, after)
      ensures Stops(old(heap), run, after)
      ensures count == |run| % 0x100
    {
      hide *;
      ghost var h0, rest := heap, if p.Some? then handles - multiset{p.value} else handles;
      ValidMeans();
      FreeStart(h0, handles, p);
      var q := p;
      count, run, after := 0, [], p;
      while q.Some?
        invariant FreeInv(h0, p, run, q, after, heap, rest) && (q.Some? ==> after == q && q.value in heap)
        invariant count == |run| % 0x100
        decreases |heap|, if q.Some? then 1 else 0
      {
        Referenced(h0, p, run, q.value, heap, rest);
        var refs := heap[q.value].refs - 1;
        if refs == 0 {
          var next := heap[q.value].next;
          FreeLast(h0, p, run, q.value, heap, rest);
          FreedSmaller(heap, q.value);
          heap := heap - {q.value};
          count := (count + 1) % 0x100;
          run := run + [q.value];
          q, after := next, next;
        } else {
          FreeShared(h0, p, run, q.value, heap, rest);
          SameSize(heap, q.value, Counted(heap[q.value], refs));
          heap := heap[q.value := Counted(heap[q.value], refs)];
          q := None;
        }
      }
      FreeEnds(h0, p, run, after, heap, rest);
      handles := rest;
      MakeValid();
    }

    lemma ValidMeans()
      requires Valid()
      ensures RefsOk(heap, handles)
    {}

    lemma MakeValid()
      requires RefsOk(heap, handles)
      ensures Valid()
    {}

    /** pbuf_cat(): the tail's bytes follow the head's; the caller's reference to the tail becomes the
        head's. */
    method Cat(h: Ptr, t: Ptr, ghost c: seq<Ptr>, ghost ct: seq<Ptr>)
      requires Valid() && t in handles
      requires IsChain(heap, Some(h), c) && IsChain(heap, Some(t), ct) && (forall q :: q in c ==> q !in ct)
      modifies this
      ensures Valid() && handles == old(handles) - multiset{t}
      ensures IsChain(heap, Some(h), c + ct)
      ensures CatResult(old(heap), heap, c, ct) && SameOutside(old(heap), heap, c)
    {
      hide *;
      ghost var h0, r, held := heap, c, handles;
      ValidMeans();
      CatStart(heap, h, c, t, ct, handles);
      ghost var n := heap[t].totLen;
      var p := h;
      while heap[p].next.Some?
        invariant CatInv(h0, c, heap, p, r, t, ct, handles, n) && p in heap && t in heap && heap[t].totLen == n
        invariant handles == held
        decreases |r|
      {
        CatStep(h0, c, heap, p, r, t, ct, handles, n);
        heap := heap[p := heap[p].(totLen := heap[p].totLen + heap[t].totLen)];
        p := heap[p].next.value;
        r := r[1..];
        CatMeans(h0, c, heap, p, r, t, ct, handles, n);
      }
      CatEnds(h0, c, heap, p, r, t, ct, handles, n);
      LinkedIs(h0, h, c, t, ct);
      LinkedOutside(h0, Some(h), c, t, n);
      heap := heap[p := heap[p].(totLen := heap[p].totLen + heap[t].totLen, next := Some(t))];
      handles := handles - multiset{t};
      MakeValid();
    }

    /** pbuf_chain(): like pbuf_cat(), but the caller keeps its reference. */
    method Chain(h: Ptr, t: Ptr, ghost c: seq<Ptr>, ghost ct: seq<Ptr>)
      requires Valid() && t in handles
      requires IsChain(heap, Some(h), c) && IsChain(heap, Some(t), ct) && (forall q :: q in c ==> q !in ct)
      modifies this
      ensures Valid() && handles == old(handles)
      ensures IsChain(heap, Some(h), c + ct)
      ensures CatResult(old(heap), heap, c, ct) && SameOutside(old(heap), heap, c + [t])
      ensures t in old(heap) && t in heap && heap[t] == Counted(old(heap)[t], old(heap)[t].refs + 1)
    {
      Cat(h, t, c, ct);
      ChainAllocated(heap, Some(h), c + ct);
      assert ct != [] && t == ct[0] && t in c + ct;
      ghost var h1 := heap;
      Ref(Some(t));
      CountAgrees(h1, t, heap[t].refs, Some(h), c + ct);
      AgreeKeeps(h1, heap, Some(h), c + ct);
      assert handles == old(handles);
    }

    /** pbuf_dechain(): p alone, and the rest of the chain unless nothing else references it: pbuf_free()
        releases its run, and the 8-bit count decides what is returned. */
    method Dechain(p: Ptr, ghost c: seq<Ptr>) returns (rest: Option<Ptr>, ghost run: seq<Ptr>, ghost after: Option<Ptr>)
      requires Valid() && IsChain(heap, Some(p), c) && TotLens(heap, c)
      modifies this
      ensures Valid() && handles == old(handles)
      ensures p in heap && heap[p] == Alone(old(heap)[p])
      ensures old(heap)[p].next.None? ==> heap == old(heap)[p := Alone(old(heap)[p])] && run == [] && after == None
      ensures old(heap)[p].next.Some? ==>
                var h := old(heap)[p := Alone(old(heap)[p])];
                SoleRun(h, old(heap)[p].next, run, after) && heap == Released(h, run, after)
      ensures SameOutside(old(heap), heap, c) && (forall q :: q in run ==> q in c && q !in heap)
      ensures rest == if |run| % 0x100 > 0 then None else old(heap)[p].next
      ensures rest.Some? ==> (rest.value in heap <==> run == [])
      ensures rest.Some? && run == [] ==>
                IsChain(heap, rest, c[1..]) && TotLens(heap, c[1..]) && Bytes(heap, c[1..]) == Bytes(old(heap), c[1..])
    {
      hide *;
      ghost var h0, held := heap, handles;
      ValidMeans();
      DechainStart(h0, handles, p, c);
      var q := heap[p].next;
      var count := 1;
      run, after := [], None;
      heap := heap[p := heap[p].(next := None, totLen := |heap[p].data|)];
      AloneIs(h0[p]);
      if q.Some? {
        handles := handles + multiset{q.value};
        MakeValid();
        ghost var h1 := heap;
        count, run, after := Free(q);
        DechainEnds(h0, p, c, h1, run, after);
        HandleBack(held, q.value);
      } else {
        MakeValid();
      }
      rest := if count > 0 then None else q;
    }

    // ---------- Chains as byte strings ----------

    /** pbuf_realloc(): the chain becomes a prefix of itself, the rest is dropped: pbuf_free() releases
        the part of it that nothing else references. */
    method Realloc(p: Ptr, newLen: nat, ghost c: seq<Ptr>)
      returns (ghost kept: seq<Ptr>, ghost run: seq<Ptr>, ghost after: Option<Ptr>)
      requires Valid() && IsChain(heap, Some(p), c) && TotLens(heap, c)
      modifies this
      ensures Valid() && handles == old(handles)
      ensures kept <= c && IsChain(heap, Some(p), kept) && TotLens(heap, kept)
      ensures Bytes(heap, kept) == Prefix(Bytes(old(heap), c), newLen)
      ensures run <= c[|kept|..] && SameOutside(old(heap), heap, c)
      ensures if newLen >= |Bytes(old(heap), c)| then heap == old(heap) && kept == c
              else heap == Released(Shrunk(old(heap), c, newLen, newLen - |Bytes(old(heap), c)|), run, after)
    {
      hide *;
      ghost var h0, r, front, held := heap, c, [], handles;
      ValidMeans();
      ShrinkStart(heap, p, c, newLen, handles);
      PrefixIs(Bytes(heap, c), newLen);
      if newLen >= heap[p].totLen {
        Nothing(heap, c);
        kept, run, after := c, [], None;
        return;
      }
      var grow := newLen - heap[p].totLen;
      var rem, q := newLen, p;
      while rem > |heap[q].data|
        invariant rem >= 0 && ShrinkInv(h0, c, newLen, grow, heap, q, r, front, rem, handles) && q in heap && handles == held
        decreases |r|
      {
        ShrinkStep(h0, c, newLen, grow, heap, q, r, front, rem, handles);
        rem := rem - |heap[q].data|;
        heap := heap[q := heap[q].(totLen := heap[q].totLen + grow)];
        front, q, r := front + [q], heap[q].next.value, r[1..];
        ShrinkMeans(h0, c, newLen, grow, heap, q, r, front, rem, handles);
      }
      kept, run, after := CutAt(q, rem, h0, p, c, newLen, grow, r, front);
    }

    /** The loop of pbuf_realloc() has found the new last pbuf. */
    method CutAt(q: Ptr, rem: nat, ghost h0: Heap, ghost p: Ptr, ghost c: seq<Ptr>, ghost newLen: nat, ghost grow: int,
                 ghost r: seq<Ptr>, ghost front: seq<Ptr>)
      returns (ghost kept: seq<Ptr>, ghost run: seq<Ptr>, ghost after: Option<Ptr>)
      requires ShrinkInv(h0, c, newLen, grow, heap, q, r, front, rem, handles) && q in heap && rem <= |heap[q].data|
      requires IsChain(h0, Some(p), c) && TotLens(h0, c) && newLen < |Bytes(h0, c)| && grow == newLen - |Bytes(h0, c)|
      modifies this
      ensures Valid() && handles == old(handles)
      ensures kept <= c && IsChain(heap, Some(p), kept) && TotLens(heap, kept)
      ensures Bytes(heap, kept) == Bytes(h0, c)[..newLen]
      ensures run <= c[|kept|..] && SameOutside(h0, heap, c)
      ensures heap == Released(Shrunk(h0, c, newLen, grow), run, after)
    {
      hide *;
      ShrinkEnds(h0, p, c, newLen, grow, heap, q, r, front, rem, handles);
      ShrinkWhole(h0, c, newLen, grow, heap, q, r, front, rem, handles);
      ShrunkOutside(h0, Some(p), c, newLen, grow);
      kept := front + [q];
      var next := heap[q].next;
      CutOffIs(heap[q], rem);
      heap := heap[q := heap[q].(data := heap[q].data[..rem], totLen := rem, next := None)];
      ghost var h1 := heap;
      run, after := DropTail(next, p, kept, r[1..]);
      KeptTail(c, kept, r[1..], run);
      SameOutsideTwice(h0, h1, heap, c, r[1..]);
    }

    /** pbuf_free() of what has been cut off leaves the chain in front of it alone. */
    method DropTail(next: Option<Ptr>, ghost p: Ptr, ghost kept: seq<Ptr>, ghost tail: seq<Ptr>)
      returns (ghost run: seq<Ptr>, ghost after: Option<Ptr>)
      requires if next.Some? then RefsOk(heap, handles + multiset{next.value}) else RefsOk(heap, handles)
      requires IsChain(heap, Some(p), kept) && TotLens(heap, kept) && IsChain(heap, next, tail)
      requires forall x :: x in kept ==> x !in tail
      modifies this
      ensures Valid() && handles == old(handles)
      ensures IsChain(heap, Some(p), kept) && TotLens(heap, kept) && Bytes(heap, kept) == Bytes(old(heap), kept)
      ensures run <= tail && heap == Released(old(heap), run, after) && SameOutside(old(heap), heap, tail)
    {
      hide *;
      run, after := [], None;
      ReleasedNothing(heap, tail);
      if next.Some? {
        ghost var h, held := heap, handles;
        handles := handles + multiset{next.value};
        MakeValid();
        HandleThere(held, next.value);
        var freed;
        freed, run, after := Free(next);
        RunOnChain(h, next, tail, run, after);
        RunInside(run, tail, after);
        ReleasedOutside(h, run, after, tail);
        OtherChains(h, heap, tail, Some(p), kept);
        HandleBack(held, next.value);
      } else {
        MakeValid();
      }
    }

    /** pbuf_copy_partial(): the bytes from offset on, at most len of them. */
    method CopyPartial(p: Ptr, len0: nat, offset0: nat, ghost c: seq<Ptr>) returns (copied: seq<byte>)
      requires IsChain(heap, Some(p), c)
      ensures copied == Slice(Bytes(heap, c), offset0, len0)
    {
      hide Slice, Bytes;
      var q: Option<Ptr>, len: nat, offset: nat := Some(p), len0, offset0;
      copied := [];
      ghost var r := c;
      assert [] + Slice(Bytes(heap, c), offset0, len0) == Slice(Bytes(heap, c), offset0, len0);
      while len != 0 && q.Some?
        invariant IsChain(heap, q, r)
        invariant copied + Slice(Bytes(heap, r), offset, len) == Slice(Bytes(heap, c), offset0, len0)
        decreases |r|
      {
        var b := heap[q.value];
        BytesHead(heap, q.value, r);
        if offset != 0 && offset >= |b.data| {
          SliceSkip(b.data, Bytes(heap, r[1..]), offset, len);
          offset := offset - |b.data|;
        } else {
          var n := Min(|b.data| - offset, len);
          SliceTake(b.data, Bytes(heap, r[1..]), offset, len, copied);
          copied := copied + b.data[offset..offset + n];
          len, offset := len - n, 0;
        }
        q, r := b.next, r[1..];
      }
      SliceDone(heap, q, r, offset, len);
    }

    /** pbuf_take(): data overwrites the front of the chain if the chain is long enough. */
    method Take(p: Ptr, data: seq<byte>, ghost c: seq<Ptr>) returns (ok: bool)
      requires Valid() && IsChain(heap, Some(p), c) && TotLens(heap, c)
      modifies this
      ensures Valid() && handles == old(handles)
      ensures ok <==> |data| <= |Bytes(old(heap), c)|
      ensures heap == if ok then Written(old(heap), c, 0, data) else old(heap)
      ensures ok ==> IsChain(heap, Some(p), c) && TotLens(heap, c) && Bytes(heap, c) == Overwritten(Bytes(old(heap), c), 0, data)
      ensures SameOutside(old(heap), heap, c)
    {
      hide RefsOk, IsChain, TotLens, Bytes, Written, Patched, SameOutside;
      ChainStarts(heap, p, c);
      LengthIs(heap, p, c);
      Nothing(heap, c);
      if heap[p].totLen < |data| { return false; }
      WrittenChain(heap, Some(p), c, 0, data);
      WrittenOutside(heap, Some(p), c, 0, data);
      var q, left := Some(p), data;
      ghost var h0, r := heap, c;
      while left != []
        invariant IsChain(heap, q, r) && RefsOk(heap, handles) && |left| <= |Bytes(heap, r)| && handles == old(handles)
        invariant Written(h0, c, 0, data) == Written(heap, r, 0, left)
        decreases |r|
      {
        BytesLeft(heap, q, r, left);
        var b := heap[q.value];
        var n := Min(|left|, |b.data|);
        WriteStep(heap, q.value, r, 0, left, n, handles);
        heap := heap[q.value := Patched(b, 0, left[..n])];
        left, q, r := left[n..], b.next, r[1..];
      }
      NothingWritten(heap, r);
      ok := true;
    }

    /** pbuf_take_at(): data overwrites the chain from offset on, if offset lies inside the chain and
        data does not reach beyond its end. */
    method TakeAt(p: Ptr, data: seq<byte>, offset: nat, ghost c: seq<Ptr>) returns (ok: bool)
      requires Valid() && IsChain(heap, Some(p), c) && TotLens(heap, c)
      modifies this
      ensures Valid() && handles == old(handles)
      ensures ok <==> offset < |Bytes(old(heap), c)| && offset + |data| <= |Bytes(old(heap), c)|
      ensures IsChain(heap, Some(p), c) && TotLens(heap, c)
      ensures Bytes(heap, c) == if ok then Overwritten(Bytes(old(heap), c), offset, data) else Bytes(old(heap), c)
      ensures SameOutside(old(heap), heap, c)
    {
      hide RefsOk;
      var q, target, r := Skip(p, offset, c);
      ghost var h0 := heap;
      Nothing(heap, c);
      if q.None? { return false; }
      ChainAllocated(heap, q, r);
      TotLenIsLength(heap, q, r);
      if heap[q.value].totLen < target + |data| { return false; }
      var b := heap[q.value];
      var n := Min(|b.data| - target, |data|);
      WriteStep(heap, q.value, r, target, data, n, handles);
      heap := heap[q.value := Patched(b, target, data[..n])];
      ok := true;
      if n < |data| {
        ok := Take(b.next.value, data[n..], r[1..]);
      } else {
        assert data[n..] == [];
      }
      assert heap == Written(h0, r, target, data);
      WrittenInside(h0, Some(p), c, q, r, offset, target, data);
      WrittenOutside(h0, q, r, target, data);
      SameOutsideMore(h0, heap, r, c);
    }

    /** pbuf_skip(): the pbuf an offset lies in, and where in it. */
    method Skip(p: Ptr, offset: nat, ghost c: seq<Ptr>) returns (q: Option<Ptr>, left: nat, ghost r: seq<Ptr>)
      requires IsChain(heap, Some(p), c) && TotLens(heap, c)
      ensures IsChain(heap, q, r) && TotLens(heap, r) && Suffix(heap, c, r, offset, left)
      ensures q.Some? <==> offset < |Bytes(heap, c)|
      ensures q.Some? ==> left < |heap[q.value].data| && |Bytes(heap, c)| - offset == |Bytes(heap, r)| - left
    {
      q, left, r := Some(p), offset, c;
      SuffixStart(heap, c, offset);
      while q.Some? && |heap[q.value].data| <= left
        invariant IsChain(heap, q, r) && TotLens(heap, r) && Suffix(heap, c, r, offset, left)
        decreases |r|
      {
        SuffixStep(heap, Some(p), c, r, offset, left);
        left := left - |heap[q.value].data|;
        q, r := heap[q.value].next, r[1..];
      }
      SuffixEnd(heap, Some(p), c, r, offset, left);
    }

    /** pbuf_copy(), between chains without empty buffers: the front of the target becomes the source,
        if the target is long enough. */
    method Copy(to: Ptr, from: Ptr, ghost ct: seq<Ptr>, ghost cf: seq<Ptr>) returns (ok: bool)
      requires Valid() && IsChain(heap, Some(to), ct) && IsChain(heap, Some(from), cf) && (forall q :: q in ct ==> q !in cf)
      requires TotLens(heap, ct) && TotLens(heap, cf) && NoEmpty(heap, ct) && NoEmpty(heap, cf)
      modifies this
      ensures Valid() && handles == old(handles)
      ensures ok <==> |Bytes(old(heap), cf)| <= |Bytes(old(heap), ct)|
      ensures heap == if ok then Written(old(heap), ct, 0, Bytes(old(heap), cf)) else old(heap)
      ensures SameOutside(old(heap), heap, ct)
      ensures ok ==> IsChain(heap, Some(to), ct) && TotLens(heap, ct)
      ensures ok ==> Bytes(heap, ct) == Overwritten(Bytes(old(heap), ct), 0, Bytes(old(heap), cf))
    {
      hide *;
      ghost var whole, held := Written(heap, ct, 0, Bytes(heap, cf)), handles;
      ValidMeans();
      CopyStart(heap, to, ct, from, cf, handles);
      Nothing(heap, ct);
      if heap[to].totLen < heap[from].totLen { return false; }
      WrittenChain(heap, Some(to), ct, 0, Bytes(heap, cf));
      WrittenOutside(heap, Some(to), ct, 0, Bytes(heap, cf));
      var pt: Option<Ptr>, pf: Option<Ptr>, offTo: nat, offFrom: nat := Some(to), Some(from), 0, 0;
      ghost var rt, rf := ct, cf;
      while pf.Some?
        invariant CopyInv(whole, heap, pt, rt, offTo, pf, rf, offFrom, handles) && handles == held
        decreases |rf|, if pf.Some? && pf.value in heap then |heap[pf.value].data| - offFrom else 0
      {
        CopyMeans(whole, heap, pt, rt, offTo, pf, rf, offFrom, handles);
        var bt, bf := heap[pt.value], heap[pf.value];
        var n := if |bt.data| - offTo >= |bf.data| - offFrom then |bf.data| - offFrom else |bt.data| - offTo;
        LesserIs(|bt.data| - offTo, |bf.data| - offFrom);
        CopyStep(whole, heap, pt.value, rt, offTo, pf.value, rf, offFrom, handles, n);
        PatchedIs(bt, offTo, bf.data[offFrom..offFrom + n]);
        heap := heap[pt.value := bt.(data := bt.data[..offTo] + bf.data[offFrom..offFrom + n] + bt.data[offTo + n..])];
        offTo, offFrom := offTo + n, offFrom + n;
        if offFrom >= |bf.data| {
          offFrom, pf, rf := 0, bf.next, rf[1..];
        }
        if offTo == |bt.data| {
          offTo, pt, rt := 0, bt.next, rt[1..];
        }
      }
      CopyEnds(whole, heap, pt, rt, offTo, rf, offFrom, handles);
      MakeValid();
      ok := true;
    }

    /** The front trim of tcp_receive(), over as many buffers as it takes: exactly off bytes go. */
    method TrimFront(p: Ptr, off0: nat, ghost c: seq<Ptr>)
      requires Valid() && IsChain(heap, Some(p), c) && TotLens(heap, c) && off0 <= |Bytes(heap, c)|
      modifies this
      ensures Valid() && handles == old(handles)
      ensures IsChain(heap, Some(p), c) && TotLens(heap, c) && Bytes(heap, c) == Bytes(old(heap), c)[off0..]
      ensures SameOutside(old(heap), heap, c)
    {
      hide *;
      ValidMeans();
      TrimStart(heap, p, c, off0, handles);
      var off, q, newTotLen := off0, p, heap[p].totLen - off0;
      ghost var r, whole, held := c, Trimmed(heap, c, off0, newTotLen), handles;
      LengthIs(heap, p, c);
      TrimmedIs(heap, Some(p), c, off0, newTotLen);
      TrimmedOutside(heap, Some(p), c, off0, newTotLen);
      while |heap[q].data| < off
        invariant off >= 0 && TrimInv(whole, heap, q, r, off, newTotLen, handles) && q in heap && handles == held
        decreases |r|
      {
        TrimStep(whole, heap, q, r, off, newTotLen, handles);
        off := off - |heap[q].data|;
        heap := heap[q := heap[q].(data := [], totLen := newTotLen)];
        q, r := heap[q].next.value, r[1..];
        TrimMeans(whole, heap, q, r, off, newTotLen, handles);
      }
      TrimEnds(whole, heap, q, r, off, newTotLen, handles);
      HideHeader(q, off);
      MakeValid();
    }

    /** pbuf_header() by a negative amount that the buffer holds. */
    method HideHeader(q: Ptr, n: nat)
      requires q in heap && n <= |heap[q].data| && n <= heap[q].totLen
      modifies this`heap
      ensures heap == old(heap)[q := old(heap)[q].(data := old(heap)[q].data[n..], totLen := old(heap)[q].totLen - n)]
    {
      heap := heap[q := heap[q].(data := heap[q].data[n..], totLen := heap[q].totLen - n)];
    }
  }

  lemma LesserIs(a: int, b: int)
    ensures (if a >= b then b else a) == Min(a, b)
  {}

  lemma PatchedIs(b: Pbuf, offset: nat, d: seq<byte>)
    requires offset + |d| <= |b.data|
    ensures Patched(b, offset, d) == b.(data := b.data[..offset] + d + b.data[offset + |d|..])
  {}

  lemma LengthIs(h: Heap, p: Ptr, c: seq<Ptr>)
    requires IsChain(h, Some(p), c) && TotLens(h, c)
    ensures p in h && h[p].totLen == |Bytes(h, c)|
  {
    TotLenIsLength(h, Some(p), c);
  }

  lemma BytesHead(h: Heap, q: Ptr, r: seq<Ptr>)
    requires IsChain(h, Some(q), r)
    ensures q in h && r != [] && Bytes(h, r) == h[q].data + Bytes(h, r[1..]) && IsChain(h, h[q].next, r[1..])
  {}

  lemma SliceDone(h: Heap, q: Option<Ptr>, r: seq<Ptr>, offset: nat, n: nat)
    requires IsChain(h, q, r) && (n == 0 || q.None?)
    ensures Slice(Bytes(h, r), offset, n) == []
  {}

  lemma Nothing(h: Heap, c: seq<Ptr>)
    ensures SameOutside(h, h, c) && c <= c && [] <= c[|c|..]
  {}

  lemma SameOutsideMore(h: Heap, g: Heap, r: seq<Ptr>, c: seq<Ptr>)
    requires SameOutside(h, g, r) && |r| <= |c| && r == c[|c| - |r|..]
    ensures SameOutside(h, g, c)
  {
    assert forall q :: q in r ==> q in c;
  }

  lemma ChainStarts(h: Heap, p: Ptr, c: seq<Ptr>)
    requires IsChain(h, Some(p), c)
    ensures p in h && c != [] && c[0] == p
  {}

  lemma BytesLeft(h: Heap, q: Option<Ptr>, r: seq<Ptr>, left: seq<byte>)
    requires IsChain(h, q, r) && 0 < |left| <= |Bytes(h, r)|
    ensures q.Some? && q.value in h && r != [] && r[0] == q.value && IsChain(h, Some(q.value), r)
  {}

  lemma NothingWritten(h: Heap, r: seq<Ptr>)
    ensures Written(h, r, 0, []) == h
  {}

  // ---------- pbuf_dechain() ----------

  function Alone(b: Pbuf): Pbuf { b.(next := None, totLen := |b.data|) }

  lemma AloneIs(b: Pbuf)
    ensures Alone(b) == b.(next := None, totLen := |b.data|)
  {}

  lemma HandleBack(handles: multiset<Ptr>, q: Ptr)
    ensures handles + multiset{q} - multiset{q} == handles
  {}

  lemma HandleThere(handles: multiset<Ptr>, q: Ptr)
    ensures q in handles + multiset{q}
  {}

  lemma DechainStart(h: Heap, handles: multiset<Ptr>, p: Ptr, c: seq<Ptr>)
    requires RefsOk(h, handles) && IsChain(h, Some(p), c) && TotLens(h, c)
    ensures p in h && c != [] && c[0] == p
    ensures var (g, q) := (h[p := Alone(h[p])], h[p].next);
            && SameOutside(h, g, c)
            && (if q.Some? then RefsOk(g, handles + multiset{q.value}) && q.value in handles + multiset{q.value} else RefsOk(g, handles))
  {
    hide RefsOk;
    var q := h[p].next;
    if q.Some? { UnlinkKeepsRefs(h, handles, p, Alone(h[p]), q.value); } else { DataKeepsRefs(h, handles, p, Alone(h[p])); }
  }

  lemma DechainEnds(h: Heap, p: Ptr, c: seq<Ptr>, h1: Heap, run: seq<Ptr>, after: Option<Ptr>)
    requires IsChain(h, Some(p), c) && TotLens(h, c) && p in h && h1 == h[p := Alone(h[p])] && h[p].next.Some?
    requires SoleRun(h1, h[p].next, run, after) && Stops(h1, run, after)
    ensures var g := Released(h1, run, after);
            && SameOutside(h, g, c) && (forall x :: x in run ==> x in c && x !in g)
            && p in g && g[p] == Alone(h[p])
            && (h[p].next.value in g <==> run == [])
            && (run == [] ==> IsChain(g, h[p].next, c[1..]) && TotLens(g, c[1..]) && Bytes(g, c[1..]) == Bytes(h, c[1..]))
  {
    hide Stops, TotLens, Bytes;
    var q, tail, g := h[p].next, c[1..], Released(h1, run, after);
    TotLensTail(h, c);
    Outside(h, p, Alone(h[p]), q, tail);
    RunOnChain(h1, q, tail, run, after);
    RunInside(run, tail, after);
    ReleasedOutside(h1, run, after, tail);
    SameOutsideTwice(h, h1, g, c, tail);
    ReleasedAt(h1, run, after, p);
    forall x | x in run ensures x !in g { ReleasedAt(h1, run, after, x); }
    ReleasedAt(h1, run, after, q.value);
    if run == [] {
      assert tail[0] == q.value;
      CountOnly(h1, q.value, q, tail);
    }
  }

  lemma TotLensTail(h: Heap, c: seq<Ptr>)
    requires TotLens(h, c) && c != []
    ensures TotLens(h, c[1..])
  {}

  /** Losing one reference of several changes no chain. */
  lemma CountOnly(h: Heap, q: Ptr, p: Option<Ptr>, c: seq<Ptr>)
    requires IsChain(h, p, c) && q in h
    ensures var g := Released(h, [], Some(q));
            IsChain(g, p, c) && (TotLens(h, c) ==> TotLens(g, c)) && Bytes(g, c) == Bytes(h, c)
  {
    var g := Released(h, [], Some(q));
    assert Freed(h, []) == h;
    if g != h {
      CountAgrees(h, q, h[q].refs - 1, p, c);
      AgreeKeeps(h, g, p, c);
    }
  }

  lemma RunInside(run: seq<Ptr>, tail: seq<Ptr>, after: Option<Ptr>)
    requires |run| <= |tail| && run == tail[..|run|] && (after.Some? ==> |run| < |tail| && after.value == tail[|run|])
    ensures (forall q :: q in run ==> q in tail) && (after.Some? ==> after.value in tail) && run <= tail
    ensures run != [] ==> tail[0] == run[0]
  {}

  // ---------- pbuf_realloc() ----------

  lemma ShrinkWhole(h0: Heap, c: seq<Ptr>, n: nat, grow: int, h: Heap, q: Ptr, r: seq<Ptr>, front: seq<Ptr>, rem: nat,
                    handles: multiset<Ptr>)
    requires ShrinkInv(h0, c, n, grow, h, q, r, front, rem, handles) && rem <= |h[q].data|
    ensures h[q := CutOff(h[q], rem)] == Shrunk(h0, c, n, grow)
  {
    ShrunkLast(h, r, rem, grow);
  }

  lemma KeptTail(c: seq<Ptr>, kept: seq<Ptr>, tail: seq<Ptr>, run: seq<Ptr>)
    requires c == kept + tail && run <= tail
    ensures c[|kept|..] == tail && run <= c[|kept|..] && (forall q :: q in tail ==> q in c)
  {}

  lemma ReleasedNothing(h: Heap, tail: seq<Ptr>)
    ensures Released(h, [], None) == h && SameOutside(h, h, tail)
  {}
}
