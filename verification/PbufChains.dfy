/** What the loops of src/pbuf.c make of the byte string of a chain: concatenation, prefixes, slices,
    overwriting and trimming, as functions on the heap with the lemmas that say so. */
module PbufChains {
  import opened SequenceNumbers
  import opened TcpConfig
  import opened PbufHeap

  lemma {:induction false} BytesConcat(h: Heap, a: seq<Ptr>, b: seq<Ptr>)
    requires forall q :: q in a ==> q in h
    ensures Bytes(h, a + b) == Bytes(h, a) + Bytes(h, b)
    decreases |a|
  {
    if a == [] {
      assert a + b == b;
    } else {
      assert (a + b)[1..] == a[1..] + b;
      BytesConcat(h, a[1..], b);
    }
  }

  // ---------- pbuf_cat() ----------

  /** The loop of pbuf_cat(): every pbuf of the head is n bytes longer in total, the last one leads to t. */
  ghost function Linked(h: Heap, c: seq<Ptr>, t: Ptr, n: nat): Heap
    decreases |c|
  {
    if c == [] || c[0] !in h then h
    else
      var b := h[c[0]].(totLen := h[c[0]].totLen + n);
      if |c| == 1 then h[c[0] := b.(next := Some(t))] else Linked(h[c[0] := b], c[1..], t, n)
  }

  ghost predicate CatResult(h: Heap, g: Heap, c: seq<Ptr>, ct: seq<Ptr>) {
    && Bytes(g, c + ct) == Bytes(h, c) + Bytes(h, ct)
    && (TotLens(h, c) && TotLens(h, ct) ==> TotLens(g, c + ct))
  }

  lemma {:induction false} LinkedAt(h: Heap, p: Option<Ptr>, c: seq<Ptr>, t: Ptr, n: nat, q: Ptr)
    requires IsChain(h, p, c)
    ensures q in h <==> q in Linked(h, c, t, n)
    ensures q in h && q !in c ==> Linked(h, c, t, n)[q] == h[q]
    ensures c != [] && q == c[0] ==>
              var b := Linked(h, c, t, n)[q];
              b.totLen == h[q].totLen + n && b.data == h[q].data && b.next == if |c| == 1 then Some(t) else h[q].next
    decreases |c|
  {
    if |c| > 1 {
      var b := h[c[0]].(totLen := h[c[0]].totLen + n);
      Outside(h, c[0], b, h[c[0]].next, c[1..]);
      LinkedAt(h[c[0] := b], h[c[0]].next, c[1..], t, n, q);
    }
  }

  lemma {:induction false} LinkedIs(h: Heap, p: Ptr, c: seq<Ptr>, t: Ptr, ct: seq<Ptr>)
    requires IsChain(h, Some(p), c) && IsChain(h, Some(t), ct) && (forall q :: q in c ==> q !in ct)
    ensures var g := Linked(h, c, t, h[t].totLen);
            IsChain(g, Some(p), c + ct) && CatResult(h, g, c, ct)
    decreases |c|
  {
    var n := h[t].totLen;
    var g := Linked(h, c, t, n);
    var b := h[p].(totLen := h[p].totLen + n);
    assert (c + ct)[0] == p && (c + ct)[1..] == c[1..] + ct;
    LinkedAt(h, Some(p), c, t, n, p);
    if |c| == 1 {
      assert c[1..] == [] && [] + ct == ct && h[p].next == None;
      Outside(h, p, b.(next := Some(t)), Some(t), ct);
      assert h[p].data + [] + Bytes(h, ct) == h[p].data + Bytes(h, ct);
    } else {
      var next := h[p].next;
      Outside(h, p, b, next, c[1..]);
      Outside(h, p, b, Some(t), ct);
      LinkedIs(h[p := b], next.value, c[1..], t, ct);
      LinkedAt(h[p := b], next, c[1..], t, n, c[1]);
      assert h[p].data + (Bytes(h, c[1..]) + Bytes(h, ct)) == h[p].data + Bytes(h, c[1..]) + Bytes(h, ct);
    }
  }

  lemma LinkedOutside(h: Heap, p: Option<Ptr>, c: seq<Ptr>, t: Ptr, n: nat)
    requires IsChain(h, p, c)
    ensures SameOutside(h, Linked(h, c, t, n), c)
  {
    forall q: Ptr | q !in c
      ensures q in h <==> q in Linked(h, c, t, n)
      ensures q in h ==> Linked(h, c, t, n)[q] == h[q]
    {
      LinkedAt(h, p, c, t, n, q);
    }
  }

  /** Where the loop of pbuf_cat() stands: p is the first pbuf of r, the rest of the head. */
  ghost predicate CatInv(h0: Heap, c: seq<Ptr>, h: Heap, p: Ptr, r: seq<Ptr>, t: Ptr, ct: seq<Ptr>, handles: multiset<Ptr>, n: nat) {
    && IsChain(h, Some(p), r) && IsChain(h, Some(t), ct) && (forall q :: q in r ==> q !in ct)
    && p in h && t in h && h[t].totLen == n && RefsOk(h, handles)
    && Linked(h0, c, t, n) == Linked(h, r, t, n)
  }

  lemma CatStart(h: Heap, p: Ptr, c: seq<Ptr>, t: Ptr, ct: seq<Ptr>, handles: multiset<Ptr>)
    requires IsChain(h, Some(p), c) && IsChain(h, Some(t), ct) && (forall q :: q in c ==> q !in ct) && RefsOk(h, handles)
    ensures p in h && t in h && CatInv(h, c, h, p, c, t, ct, handles, h[t].totLen)
  {}

  lemma CatMeans(h0: Heap, c: seq<Ptr>, h: Heap, p: Ptr, r: seq<Ptr>, t: Ptr, ct: seq<Ptr>, handles: multiset<Ptr>, n: nat)
    requires CatInv(h0, c, h, p, r, t, ct, handles, n)
    ensures p in h && t in h && h[t].totLen == n && r != []
  {}

  lemma CatStep(h0: Heap, c: seq<Ptr>, h: Heap, p: Ptr, r: seq<Ptr>, t: Ptr, ct: seq<Ptr>, handles: multiset<Ptr>, n: nat)
    requires CatInv(h0, c, h, p, r, t, ct, handles, n) && h[p].next.Some?
    ensures |r| > 1 && CatInv(h0, c, h[p := h[p].(totLen := h[p].totLen + n)], h[p].next.value, r[1..], t, ct, handles, n)
  {
    hide RefsOk;
    var b := h[p].(totLen := h[p].totLen + n);
    Outside(h, p, b, h[p].next, r[1..]);
    Outside(h, p, b, Some(t), ct);
    DataKeepsRefs(h, handles, p, b);
  }

  lemma CatEnds(h0: Heap, c: seq<Ptr>, h: Heap, p: Ptr, r: seq<Ptr>, t: Ptr, ct: seq<Ptr>, handles: multiset<Ptr>, n: nat)
    requires CatInv(h0, c, h, p, r, t, ct, handles, n) && h[p].next.None? && t in handles
    ensures var g := h[p := h[p].(totLen := h[p].totLen + n, next := Some(t))];
            g == Linked(h0, c, t, n) && RefsOk(g, handles - multiset{t})
  {
    hide RefsOk;
    assert IsChain(h, None, r[1..]);
    LinkKeepsRefs(h, handles, p, h[p].(totLen := h[p].totLen + n, next := Some(t)), t);
  }

  /** A change of a reference count is not seen by any chain. */
  lemma {:induction false} CountAgrees(h: Heap, q: Ptr, n: nat, p: Option<Ptr>, c: seq<Ptr>)
    requires IsChain(h, p, c) && q in h
    ensures Agree(h, h[q := Counted(h[q], n)], c)
    decreases |c|
  {
    if c != [] { CountAgrees(h, q, n, h[c[0]].next, c[1..]); }
  }

  // ---------- pbuf_realloc() ----------

  function Prefix(s: seq<byte>, n: nat): seq<byte> { if n < |s| then s[..n] else s }

  /** The pbufs pbuf_realloc() keeps. */
  ghost function Kept(h: Heap, c: seq<Ptr>, n: nat): seq<Ptr>
    decreases |c|
  {
    if c == [] || c[0] !in h then []
    else if |c| > 1 && n > |h[c[0]].data| then [c[0]] + Kept(h, c[1..], n - |h[c[0]].data|)
    else [c[0]]
  }

  /** The pbuf pbuf_realloc() stops at. */
  function CutOff(b: Pbuf, n: nat): Pbuf { b.(data := Prefix(b.data, n), totLen := n, next := None) }

  ghost function Shrunk(h: Heap, c: seq<Ptr>, n: nat, grow: int): Heap
    decreases |c|
  {
    if c == [] || c[0] !in h then h
    else if |c| > 1 && n > |h[c[0]].data| then
      Shrunk(h[c[0] := h[c[0]].(totLen := Max(h[c[0]].totLen + grow, 0))], c[1..], n - |h[c[0]].data|, grow)
    else h[c[0] := CutOff(h[c[0]], n)]
  }

  lemma {:induction false} KeptAgrees(h: Heap, q: Ptr, b: Pbuf, p: Option<Ptr>, c: seq<Ptr>, n: nat)
    requires IsChain(h, p, c) && q !in c
    ensures Kept(h[q := b], c, n) == Kept(h, c, n) && Kept(h, c, n) <= c
    decreases |c|
  {
    if |c| > 1 && n > |h[c[0]].data| { KeptAgrees(h, q, b, h[c[0]].next, c[1..], n - |h[c[0]].data|); }
  }

  lemma {:induction false} ShrunkAt(h: Heap, p: Option<Ptr>, c: seq<Ptr>, n: nat, grow: int, q: Ptr)
    requires IsChain(h, p, c)
    ensures q in h <==> q in Shrunk(h, c, n, grow)
    ensures q in h && q !in c ==> Shrunk(h, c, n, grow)[q] == h[q]
    decreases |c|
  {
    if |c| > 1 && n > |h[c[0]].data| {
      var b := h[c[0]].(totLen := Max(h[c[0]].totLen + grow, 0));
      Outside(h, c[0], b, h[c[0]].next, c[1..]);
      ShrunkAt(h[c[0] := b], h[c[0]].next, c[1..], n - |h[c[0]].data|, grow, q);
    }
  }

  lemma ShrunkOutside(h: Heap, p: Option<Ptr>, c: seq<Ptr>, n: nat, grow: int)
    requires IsChain(h, p, c)
    ensures SameOutside(h, Shrunk(h, c, n, grow), c)
  {
    forall q: Ptr | q !in c
      ensures q in h <==> q in Shrunk(h, c, n, grow)
      ensures q in h ==> Shrunk(h, c, n, grow)[q] == h[q]
    {
      ShrunkAt(h, p, c, n, grow, q);
    }
  }

  /** pbuf_realloc() to fewer bytes leaves a chain of exactly the first n bytes. */
  lemma {:induction false} ShrunkIs(h: Heap, p: Option<Ptr>, c: seq<Ptr>, n: nat, grow: int)
    requires IsChain(h, p, c) && TotLens(h, c) && n < |Bytes(h, c)| && grow == n - |Bytes(h, c)|
    ensures var (g, kept) := (Shrunk(h, c, n, grow), Kept(h, c, n));
            && kept <= c && kept != [] && IsChain(g, p, kept) && TotLens(g, kept)
            && HeadTotLen(g, kept) == n && Bytes(g, kept) == Bytes(h, c)[..n]
    decreases |c|
  {
    TotLenIsLength(h, p, c);
    var (b, next, tail) := (h[c[0]], h[c[0]].next, c[1..]);
    if |c| > 1 && n > |b.data| {
      var b' := b.(totLen := b.totLen + grow);
      Outside(h, c[0], b', next, tail);
      TotLenIsLength(h, next, tail);
      ShrunkIs(h[c[0] := b'], next, tail, n - |b.data|, grow);
      ShrunkAt(h[c[0] := b'], next, tail, n - |b.data|, grow, c[0]);
      KeptAgrees(h, c[0], b', next, tail, n - |b.data|);
      assert Kept(h, c, n)[1..] == Kept(h, tail, n - |b.data|);
    } else {
      assert tail == [] ==> Bytes(h, tail) == [];
      assert [c[0]][1..] == [];
    }
  }

  /** Where the loop of pbuf_realloc() stands: rem of the n bytes remain for r, the rest of the
      chain behind front. */
  ghost predicate ShrinkInv(h0: Heap, c: seq<Ptr>, n: nat, grow: int, h: Heap, q: Ptr, r: seq<Ptr>, front: seq<Ptr>, rem: nat,
                            handles: multiset<Ptr>) {
    && q in h && IsChain(h, Some(q), r) && TotLens(h, r) && c == front + r && RefsOk(h, handles)
    && rem < h[q].totLen && grow == rem - h[q].totLen
    && Shrunk(h0, c, n, grow) == Shrunk(h, r, rem, grow)
    && Kept(h0, c, n) == front + Kept(h, r, rem)
  }

  lemma ShrinkStart(h: Heap, p: Ptr, c: seq<Ptr>, n: nat, handles: multiset<Ptr>)
    requires IsChain(h, Some(p), c) && TotLens(h, c) && RefsOk(h, handles)
    ensures p in h && h[p].totLen == |Bytes(h, c)|
    ensures n < h[p].totLen ==> ShrinkInv(h, c, n, n - h[p].totLen, h, p, c, [], n, handles)
  {
    TotLenIsLength(h, Some(p), c);
    assert [] + c == c && [] + Kept(h, c, n) == Kept(h, c, n);
  }

  lemma ShrinkStep(h0: Heap, c: seq<Ptr>, n: nat, grow: int, h: Heap, q: Ptr, r: seq<Ptr>, front: seq<Ptr>, rem: nat, handles: multiset<Ptr>)
    requires ShrinkInv(h0, c, n, grow, h, q, r, front, rem, handles) && rem > |h[q].data|
    ensures |r| > 1 && h[q].next.Some? && h[q].totLen + grow >= 0
    ensures ShrinkInv(h0, c, n, grow, h[q := h[q].(totLen := h[q].totLen + grow)], h[q].next.value, r[1..], front + [q],
                      rem - |h[q].data|, handles)
  {
    hide RefsOk;
    var b, tail := h[q].(totLen := h[q].totLen + grow), r[1..];
    assert |r| > 1;
    Outside(h, q, b, h[q].next, tail);
    KeptAgrees(h, q, b, h[q].next, tail, rem - |h[q].data|);
    DataKeepsRefs(h, handles, q, b);
    assert front + r == front + [q] + tail;
    assert front + ([q] + Kept(h, tail, rem - |h[q].data|)) == front + [q] + Kept(h, tail, rem - |h[q].data|);
  }

  lemma ShrunkLast(h: Heap, r: seq<Ptr>, n: nat, grow: int)
    requires r != [] && r[0] in h && n <= |h[r[0]].data|
    ensures Shrunk(h, r, n, grow) == h[r[0] := CutOff(h[r[0]], n)] && Kept(h, r, n) == [r[0]]
  {}

  lemma ShrinkMeans(h0: Heap, c: seq<Ptr>, n: nat, grow: int, h: Heap, q: Ptr, r: seq<Ptr>, front: seq<Ptr>, rem: nat,
                    handles: multiset<Ptr>)
    requires ShrinkInv(h0, c, n, grow, h, q, r, front, rem, handles)
    ensures q in h
  {}

  lemma PrefixIs(s: seq<byte>, n: nat)
    ensures Prefix(s, n) == if n < |s| then s[..n] else s
  {}

  lemma CutOffIs(b: Pbuf, n: nat)
    ensures n <= |b.data| ==> CutOff(b, n) == b.(data := b.data[..n], totLen := n, next := None)
  {}

  /** The loop has found the new last pbuf: cutting there leaves exactly the first n bytes. */
  lemma ShrinkEnds(h0: Heap, p: Ptr, c: seq<Ptr>, n: nat, grow: int, h: Heap, q: Ptr, r: seq<Ptr>, front: seq<Ptr>, rem: nat,
                   handles: multiset<Ptr>)
    requires ShrinkInv(h0, c, n, grow, h, q, r, front, rem, handles) && rem <= |h[q].data|
    requires IsChain(h0, Some(p), c) && TotLens(h0, c) && n < |Bytes(h0, c)| && grow == n - |Bytes(h0, c)|
    ensures var (g, kept, next) := (h[q := CutOff(h[q], rem)], front + [q], h[q].next);
            && r != [] && c == kept + r[1..] && kept <= c
            && IsChain(g, Some(p), kept) && TotLens(g, kept) && Bytes(g, kept) == Bytes(h0, c)[..n]
            && IsChain(g, next, r[1..]) && (forall x :: x in kept ==> x !in r[1..])
            && (if next.Some? then RefsOk(g, handles + multiset{next.value}) else RefsOk(g, handles))
  {
    hide RefsOk, Shrunk, Kept, TotLens, Bytes;
    var b, next, tail := CutOff(h[q], rem), h[q].next, r[1..];
    ShrunkIs(h0, Some(p), c, n, grow);
    ShrunkLast(h, r, rem, grow);
    assert c == (front + [q]) + tail;
    Apart(h0, Some(p), front + [q], tail);
    Outside(h, q, b, next, tail);
    if next.Some? { UnlinkKeepsRefs(h, handles, q, b, next.value); } else { DataKeepsRefs(h, handles, q, b); }
  }

  /** What is kept and what is dropped have no pbuf in common. */
  lemma {:induction false} Apart(h: Heap, p: Option<Ptr>, a: seq<Ptr>, b: seq<Ptr>)
    requires IsChain(h, p, a + b)
    ensures forall q :: q in a ==> q !in b
    decreases |a|
  {
    if a != [] {
      assert (a + b)[1..] == a[1..] + b && (a + b)[0] == a[0];
      Apart(h, h[a[0]].next, a[1..], b);
    }
  }

  // ---------- pbuf_copy_partial() ----------

  /** At most n bytes from offset on. */
  function Slice(s: seq<byte>, offset: nat, n: nat): seq<byte> {
    if offset >= |s| then [] else s[offset..Min(offset + n, |s|)]
  }

  lemma SliceSkip(d: seq<byte>, tail: seq<byte>, offset: nat, n: nat)
    requires offset >= |d|
    ensures Slice(d + tail, offset, n) == Slice(tail, offset - |d|, n)
  {}

  lemma SliceFront(a: seq<byte>, b: seq<byte>, i: nat, j: nat)
    requires i <= j <= |a|
    ensures (a + b)[i..j] == a[i..j]
  {}

  lemma SliceAcross(a: seq<byte>, b: seq<byte>, i: nat, m: nat)
    requires i <= |a| && m <= |b|
    ensures (a + b)[i..|a| + m] == a[i..] + b[..m]
  {}

  lemma SliceSplit(d: seq<byte>, tail: seq<byte>, offset: nat, n: nat)
    requires offset <= |d| && n > 0
    ensures var k := Min(|d| - offset, n);
            Slice(d + tail, offset, n) == d[offset..offset + k] + Slice(tail, 0, n - k)
  {
    if offset + n <= |d| {
      SliceFront(d, tail, offset, offset + n);
    } else {
      SliceAcross(d, tail, offset, Min(n - (|d| - offset), |tail|));
    }
  }

  lemma SliceTake(d: seq<byte>, tail: seq<byte>, offset: nat, n: nat, got: seq<byte>)
    requires offset <= |d| && n > 0
    ensures var k := Min(|d| - offset, n);
            got + Slice(d + tail, offset, n) == got + d[offset..offset + k] + Slice(tail, 0, n - k)
  {
    hide Slice;
    SliceSplit(d, tail, offset, n);
  }

  // ---------- Writing into a chain ----------

  function Overwritten(s: seq<byte>, offset: nat, d: seq<byte>): seq<byte>
    requires offset + |d| <= |s|
  {
    s[..offset] + d + s[offset + |d|..]
  }

  function Patched(b: Pbuf, offset: nat, d: seq<byte>): Pbuf
    requires offset + |d| <= |b.data|
  {
    b.(data := Overwritten(b.data, offset, d))
  }

  /** d written into the chain from offset on, pbuf by pbuf. */
  ghost function Written(h: Heap, c: seq<Ptr>, offset: nat, d: seq<byte>): Heap
    decreases |c|
  {
    if d == [] || c == [] || c[0] !in h || offset > |h[c[0]].data| then h
    else
      var n := Min(|h[c[0]].data| - offset, |d|);
      Written(h[c[0] := Patched(h[c[0]], offset, d[..n])], c[1..], 0, d[n..])
  }

  lemma {:induction false} WrittenAt(h: Heap, p: Option<Ptr>, c: seq<Ptr>, offset: nat, d: seq<byte>, q: Ptr)
    requires IsChain(h, p, c)
    ensures q in h <==> q in Written(h, c, offset, d)
    ensures q in h && q !in c ==> Written(h, c, offset, d)[q] == h[q]
    ensures q in h ==> Written(h, c, offset, d)[q] == h[q].(data := Written(h, c, offset, d)[q].data)
    ensures q in h ==> |Written(h, c, offset, d)[q].data| == |h[q].data|
    decreases |c|
  {
    if d != [] && c != [] && offset <= |h[c[0]].data| {
      var n := Min(|h[c[0]].data| - offset, |d|);
      var b := Patched(h[c[0]], offset, d[..n]);
      Outside(h, c[0], b, h[c[0]].next, c[1..]);
      WrittenAt(h[c[0] := b], h[c[0]].next, c[1..], 0, d[n..], q);
    }
  }

  /** Only payload bytes change. */
  lemma WrittenOutside(h: Heap, p: Option<Ptr>, c: seq<Ptr>, offset: nat, d: seq<byte>)
    requires IsChain(h, p, c)
    ensures SameOutside(h, Written(h, c, offset, d), c)
  {
    forall q: Ptr | q !in c
      ensures q in h <==> q in Written(h, c, offset, d)
      ensures q in h ==> Written(h, c, offset, d)[q] == h[q]
    {
      WrittenAt(h, p, c, offset, d, q);
    }
  }

  lemma {:induction false} WrittenShape(h: Heap, p: Option<Ptr>, c: seq<Ptr>, g: Heap)
    requires IsChain(h, p, c)
    requires forall q :: q in c && q in h ==> q in g && g[q].next == h[q].next && g[q].totLen == h[q].totLen && |g[q].data| == |h[q].data|
    ensures IsChain(g, p, c) && (TotLens(h, c) ==> TotLens(g, c)) && HeadTotLen(g, c) == HeadTotLen(h, c)
    decreases |c|
  {
    if c != [] { WrittenShape(h, h[c[0]].next, c[1..], g); }
  }

  /** The chain then stands for the overwritten byte string. */
  lemma {:induction false} WrittenIs(h: Heap, p: Option<Ptr>, c: seq<Ptr>, offset: nat, d: seq<byte>)
    requires IsChain(h, p, c) && offset + |d| <= |Bytes(h, c)| && (c != [] ==> offset <= |h[c[0]].data|)
    ensures var g := Written(h, c, offset, d);
            Bytes(g, c) == Overwritten(Bytes(h, c), offset, d)
    decreases |c|
  {
    if d != [] && c != [] {
      var (q, tail) := (c[0], c[1..]);
      var n := Min(|h[q].data| - offset, |d|);
      var b := Patched(h[q], offset, d[..n]);
      Outside(h, q, b, h[q].next, tail);
      WrittenIs(h[q := b], h[q].next, tail, 0, d[n..]);
      WrittenAt(h[q := b], h[q].next, tail, 0, d[n..], q);
      OverwriteSplit(h[q].data, Bytes(h, tail), offset, d, n);
    } else {
      assert d == [];
      assert Overwritten(Bytes(h, c), offset, d) == Bytes(h, c);
    }
  }

  /** The whole effect of writing into a chain. */
  lemma WrittenChain(h: Heap, p: Option<Ptr>, c: seq<Ptr>, offset: nat, d: seq<byte>)
    requires IsChain(h, p, c) && offset + |d| <= |Bytes(h, c)| && (c != [] ==> offset <= |h[c[0]].data|)
    ensures var g := Written(h, c, offset, d);
            && IsChain(g, p, c) && (TotLens(h, c) ==> TotLens(g, c))
            && Bytes(g, c) == Overwritten(Bytes(h, c), offset, d)
  {
    var g := Written(h, c, offset, d);
    ChainAllocated(h, p, c);
    forall x | x in c ensures x in g && g[x].next == h[x].next && g[x].totLen == h[x].totLen && |g[x].data| == |h[x].data| {
      WrittenAt(h, p, c, offset, d, x);
    }
    WrittenShape(h, p, c, g);
    WrittenIs(h, p, c, offset, d);
  }

  lemma OverwriteSplit(s: seq<byte>, tail: seq<byte>, offset: nat, d: seq<byte>, n: nat)
    requires offset <= |s| && n == Min(|s| - offset, |d|) && offset + |d| <= |s + tail|
    ensures Overwritten(s, offset, d[..n]) + Overwritten(tail, 0, d[n..]) == Overwritten(s + tail, offset, d)
  {}

  lemma WriteStep(h: Heap, q: Ptr, r: seq<Ptr>, offset: nat, d: seq<byte>, n: nat, handles: multiset<Ptr>)
    requires IsChain(h, Some(q), r) && offset <= |h[q].data| && n == Min(|h[q].data| - offset, |d|)
    requires offset + |d| <= |Bytes(h, r)| && RefsOk(h, handles)
    ensures var g := h[q := Patched(h[q], offset, d[..n])];
            && r != [] && IsChain(g, h[q].next, r[1..]) && RefsOk(g, handles)
            && |d[n..]| <= |Bytes(g, r[1..])| && (d[n..] != [] ==> h[q].next.Some?)
            && (TotLens(h, r) ==> TotLens(g, r[1..]))
            && Written(h, r, offset, d) == Written(g, r[1..], 0, d[n..])
  {
    hide RefsOk;
    var b := Patched(h[q], offset, d[..n]);
    Outside(h, q, b, h[q].next, r[1..]);
    DataKeepsRefs(h, handles, q, b);
    if d == [] {
      assert b.data == h[q].data;
      assert h[q := b] == h;
    }
    if d[n..] != [] { assert r[1..] != []; }
  }

  // ---------- pbuf_skip() ----------

  /** r is the part of the chain whose first pbuf holds offset, left bytes into it. */
  ghost predicate Suffix(h: Heap, c: seq<Ptr>, r: seq<Ptr>, offset: nat, left: nat) {
    |r| <= |c| && r == c[|c| - |r|..] && |Bytes(h, c[..|c| - |r|])| + left == offset
  }

  lemma SuffixStart(h: Heap, c: seq<Ptr>, offset: nat)
    ensures Suffix(h, c, c, offset, offset)
  {
    assert c[0..] == c && c[..0] == [];
  }

  lemma SuffixStep(h: Heap, p: Option<Ptr>, c: seq<Ptr>, r: seq<Ptr>, offset: nat, left: nat)
    requires IsChain(h, p, c) && Suffix(h, c, r, offset, left) && r != [] && r[0] in h && |h[r[0]].data| <= left
    ensures Suffix(h, c, r[1..], offset, left - |h[r[0]].data|)
  {
    var k := |c| - |r|;
    ChainAllocated(h, p, c);
    assert c[k] == r[0] && c[..k + 1] == c[..k] + [r[0]] && c[k + 1..] == r[1..];
    BytesConcat(h, c[..k], [r[0]]);
    assert [r[0]][1..] == [];
  }

  lemma SuffixEnd(h: Heap, p: Option<Ptr>, c: seq<Ptr>, r: seq<Ptr>, offset: nat, left: nat)
    requires IsChain(h, p, c) && Suffix(h, c, r, offset, left) && (r != [] ==> r[0] in h && left < |h[r[0]].data|)
    ensures r != [] <==> offset < |Bytes(h, c)|
    ensures Bytes(h, c) == Bytes(h, c[..|c| - |r|]) + Bytes(h, r)
  {
    ChainAllocated(h, p, c);
    BytesConcat(h, c[..|c| - |r|], r);
    assert c == c[..|c| - |r|] + r;
  }

  /** Writing into the part that pbuf_skip() found overwrites the whole chain at offset. */
  lemma WrittenInside(h: Heap, p: Option<Ptr>, c: seq<Ptr>, q: Option<Ptr>, r: seq<Ptr>, offset: nat, left: nat, d: seq<byte>)
    requires IsChain(h, p, c) && IsChain(h, q, r) && Suffix(h, c, r, offset, left)
    requires r != [] && left < |h[r[0]].data| && left + |d| <= |Bytes(h, r)|
    ensures var g := Written(h, r, left, d);
            && IsChain(g, p, c) && (TotLens(h, c) ==> TotLens(g, c))
            && offset + |d| <= |Bytes(h, c)| && Bytes(g, c) == Overwritten(Bytes(h, c), offset, d)
  {
    hide Written, Overwritten, IsChain, TotLens, Bytes;
    var g, front := Written(h, r, left, d), c[..|c| - |r|];
    assert c == front + r;
    ChainAllocated(h, p, c);
    WrittenOnPart(h, p, front, q, r, left, d);
    BytesConcat(h, front, r);
    BytesConcat(g, front, r);
    WrittenIs(h, q, r, left, d);
    OverwrittenInside(Bytes(h, front), Bytes(h, r), left, d);
  }

  lemma OverwrittenInside(a: seq<byte>, b: seq<byte>, left: nat, d: seq<byte>)
    requires left + |d| <= |b|
    ensures Overwritten(a + b, |a| + left, d) == a + Overwritten(b, left, d)
  {
    assert (a + b)[..|a| + left] == a + b[..left];
    assert (a + b)[|a| + left + |d|..] == b[left + |d|..];
  }

  lemma WrittenOnPart(h: Heap, p: Option<Ptr>, front: seq<Ptr>, q: Option<Ptr>, r: seq<Ptr>, left: nat, d: seq<byte>)
    requires IsChain(h, p, front + r) && IsChain(h, q, r)
    ensures var g := Written(h, r, left, d);
            && IsChain(g, p, front + r) && (TotLens(h, front + r) ==> TotLens(g, front + r))
            && Bytes(g, front) == Bytes(h, front) && (forall x :: x in front ==> x in g)
  {
    var g := Written(h, r, left, d);
    ChainAllocated(h, p, front + r);
    Apart(h, p, front, r);
    forall x | x in front + r
      ensures x in g && g[x].next == h[x].next && g[x].totLen == h[x].totLen && |g[x].data| == |h[x].data|
    {
      WrittenAt(h, q, r, left, d, x);
    }
    WrittenShape(h, p, front + r, g);
    forall x | x in front ensures g[x] == h[x] { WrittenAt(h, q, r, left, d, x); }
    assert forall x :: x in front ==> x in front + r;
    SameBytes(h, g, front);
  }

  lemma {:induction false} SameBytes(h: Heap, g: Heap, c: seq<Ptr>)
    requires forall x :: x in c ==> x in h && x in g && g[x] == h[x]
    ensures Bytes(g, c) == Bytes(h, c)
    decreases |c|
  {
    if c != [] { SameBytes(h, g, c[1..]); }
  }

  /** What pbuf_take_at() has put into a chain is what pbuf_copy_partial() reads back; every other
      byte is as before. */
  lemma TakenIsCopied(s: seq<byte>, offset: nat, d: seq<byte>, other: nat)
    requires offset + |d| <= |s|
    ensures var w := Overwritten(s, offset, d);
            && (d != [] ==> Slice(w, offset, |d|) == d)
            && |w| == |s| && (other < |s| && !(offset <= other < offset + |d|) ==> w[other] == s[other])
  {}

  // ---------- pbuf_copy() ----------

  ghost predicate NoEmpty(h: Heap, c: seq<Ptr>)
    decreases |c|
  {
    c != [] ==> c[0] in h && h[c[0]].data != [] && NoEmpty(h, c[1..])
  }

  lemma {:induction false} NoEmptyOutside(h: Heap, q: Ptr, b: Pbuf, c: seq<Ptr>)
    requires NoEmpty(h, c) && q !in c
    ensures NoEmpty(h[q := b], c)
    decreases |c|
  {
    if c != [] { NoEmptyOutside(h, q, b, c[1..]); }
  }

  /** The checks of pbuf_copy() for packet queues never fire on chains without empty buffers:
      len == tot_len holds of the last buffer only. */
  lemma NoQueue(h: Heap, p: Option<Ptr>, c: seq<Ptr>)
    requires IsChain(h, p, c) && TotLens(h, c) && NoEmpty(h, c) && c != []
    ensures |h[c[0]].data| == h[c[0]].totLen <==> h[c[0]].next == None
  {
    if h[c[0]].next.Some? { assert c[1..] != []; }
    assert h[c[0]].next.None? ==> c[1..] == [];
    assert c[1..] != [] ==> h[c[1]].totLen > 0;
  }

  /** Writing in two pieces, the first of them into one buffer. */
  lemma WrittenTwice(h: Heap, r: seq<Ptr>, offset: nat, d1: seq<byte>, d2: seq<byte>)
    requires r != [] && r[0] in h && offset + |d1| <= |h[r[0]].data| && d1 != []
    ensures var g := h[r[0] := Patched(h[r[0]], offset, d1)];
            Written(h, r, offset, d1 + d2) ==
            if offset + |d1| < |h[r[0]].data| then Written(g, r, offset + |d1|, d2) else Written(g, r[1..], 0, d2)
  {
    var b, d := h[r[0]], d1 + d2;
    var n := Min(|b.data| - offset, |d|);
    var n2 := n - |d1|;
    var g := h[r[0] := Patched(b, offset, d1)];
    assert d[..n] == d1 + d2[..n2] && d[n..] == d2[n2..];
    PatchedTwice(b, offset, d1, d2[..n2]);
    assert g[r[0] := Patched(b, offset, d[..n])] == h[r[0] := Patched(b, offset, d[..n])];
    if d2 == [] { assert d[..n] == d1 && d[n..] == []; }
    if offset + |d1| == |b.data| { assert d2[..0] == [] && d2[0..] == d2 && d[..n] == d1; }
  }

  lemma PatchedTwice(b: Pbuf, offset: nat, d1: seq<byte>, d2: seq<byte>)
    requires offset + |d1| + |d2| <= |b.data|
    ensures Patched(Patched(b, offset, d1), offset + |d1|, d2) == Patched(b, offset, d1 + d2)
  {
    assert Overwritten(Overwritten(b.data, offset, d1), offset + |d1|, d2) == Overwritten(b.data, offset, d1 + d2);
  }

  /** One of the two cursors of pbuf_copy(): a rest of a chain, and how far its first buffer is done. */
  ghost predicate Cursor(h: Heap, p: Option<Ptr>, r: seq<Ptr>, offset: nat) {
    && IsChain(h, p, r) && NoEmpty(h, r)
    && (p.Some? ==> p.value in h && offset < |h[p.value].data|) && (p.None? ==> offset == 0)
  }

  ghost function Left(h: Heap, r: seq<Ptr>, offset: nat): seq<byte> {
    if offset <= |Bytes(h, r)| then Bytes(h, r)[offset..] else []
  }

  /** Where the loop of pbuf_copy() stands. */
  ghost predicate CopyInv(whole: Heap, h: Heap, to: Option<Ptr>, rt: seq<Ptr>, offTo: nat, from: Option<Ptr>, rf: seq<Ptr>,
                          offFrom: nat, handles: multiset<Ptr>) {
    && Cursor(h, to, rt, offTo) && Cursor(h, from, rf, offFrom) && (forall q :: q in rt ==> q !in rf)
    && offTo + |Left(h, rf, offFrom)| <= |Bytes(h, rt)| && RefsOk(h, handles)
    && whole == Written(h, rt, offTo, Left(h, rf, offFrom))
  }

  lemma CopyStart(h: Heap, to: Ptr, ct: seq<Ptr>, from: Ptr, cf: seq<Ptr>, handles: multiset<Ptr>)
    requires IsChain(h, Some(to), ct) && IsChain(h, Some(from), cf) && (forall q :: q in ct ==> q !in cf)
    requires TotLens(h, ct) && TotLens(h, cf) && NoEmpty(h, ct) && NoEmpty(h, cf) && RefsOk(h, handles)
    ensures to in h && from in h && h[to].totLen == |Bytes(h, ct)| && h[from].totLen == |Bytes(h, cf)|
    ensures |Bytes(h, cf)| <= |Bytes(h, ct)| ==>
              CopyInv(Written(h, ct, 0, Bytes(h, cf)), h, Some(to), ct, 0, Some(from), cf, 0, handles)
  {
    TotLenIsLength(h, Some(to), ct);
    TotLenIsLength(h, Some(from), cf);
    assert Left(h, cf, 0) == Bytes(h, cf);
  }

  lemma CopyMeans(whole: Heap, h: Heap, to: Option<Ptr>, rt: seq<Ptr>, offTo: nat, from: Option<Ptr>, rf: seq<Ptr>, offFrom: nat,
                  handles: multiset<Ptr>)
    requires CopyInv(whole, h, to, rt, offTo, from, rf, offFrom, handles) && from.Some?
    ensures to.Some? && to.value in h && from.value in h && to.value != from.value && rt != [] && rf != []
    ensures offTo < |h[to.value].data| && offFrom < |h[from.value].data|
  {
    assert |Left(h, rf, offFrom)| > 0;
    assert rt[0] in rt && rf[0] in rf;
  }

  lemma CopyEnds(whole: Heap, h: Heap, to: Option<Ptr>, rt: seq<Ptr>, offTo: nat, rf: seq<Ptr>, offFrom: nat, handles: multiset<Ptr>)
    requires CopyInv(whole, h, to, rt, offTo, None, rf, offFrom, handles)
    ensures h == whole && RefsOk(h, handles)
  {
    assert Left(h, rf, offFrom) == [];
  }

  /** One round copies the largest piece that lies in one buffer on either side. */
  lemma CopyStep(whole: Heap, h: Heap, to: Ptr, rt: seq<Ptr>, offTo: nat, from: Ptr, rf: seq<Ptr>, offFrom: nat,
                 handles: multiset<Ptr>, n: nat)
    requires CopyInv(whole, h, Some(to), rt, offTo, Some(from), rf, offFrom, handles)
    requires n == Min(|h[to].data| - offTo, |h[from].data| - offFrom)
    ensures var g := h[to := Patched(h[to], offTo, h[from].data[offFrom..offFrom + n])];
            var nextTo, nextFrom := offTo + n == |h[to].data|, offFrom + n == |h[from].data|;
            CopyInv(whole, g, if nextTo then h[to].next else Some(to), if nextTo then rt[1..] else rt, if nextTo then 0 else offTo + n,
                    if nextFrom then h[from].next else Some(from), if nextFrom then rf[1..] else rf,
                    if nextFrom then 0 else offFrom + n, handles)
  {
    hide RefsOk;
    CopyMeans(whole, h, Some(to), rt, offTo, Some(from), rf, offFrom, handles);
    var d1 := h[from].data[offFrom..offFrom + n];
    var g := h[to := Patched(h[to], offTo, d1)];
    DataKeepsRefs(h, handles, to, g[to]);
    PatchedCursor(h, to, rt, offTo, d1);
    OtherCursor(h, to, g[to], from, rf, offFrom);
    CursorStep(g, to, rt, offTo, n);
    CursorStep(g, from, rf, offFrom, n);
    CopyBytes(h, to, rt, offTo, from, rf, offFrom, n);
    var nextTo, nextFrom := offTo + n == |h[to].data|, offFrom + n == |h[from].data|;
    var rt', rf' := if nextTo then rt[1..] else rt, if nextFrom then rf[1..] else rf;
    assert forall q :: q in rt' ==> q in rt;
    assert forall q :: q in rf' ==> q in rf;
  }

  /** The bytes that remain to be written, and that there is room for them. */
  lemma CopyBytes(h: Heap, to: Ptr, rt: seq<Ptr>, offTo: nat, from: Ptr, rf: seq<Ptr>, offFrom: nat, n: nat)
    requires Cursor(h, Some(to), rt, offTo) && Cursor(h, Some(from), rf, offFrom) && to !in rf
    requires n == Min(|h[to].data| - offTo, |h[from].data| - offFrom)
    requires offTo + |Left(h, rf, offFrom)| <= |Bytes(h, rt)|
    ensures var g := h[to := Patched(h[to], offTo, h[from].data[offFrom..offFrom + n])];
            var d2 := if offFrom + n == |h[from].data| then Left(g, rf[1..], 0) else Left(g, rf, offFrom + n);
            && Written(h, rt, offTo, Left(h, rf, offFrom)) ==
               (if offTo + n == |h[to].data| then Written(g, rt[1..], 0, d2) else Written(g, rt, offTo + n, d2))
            && (if offTo + n == |h[to].data| then |d2| <= |Bytes(g, rt[1..])| else offTo + n + |d2| <= |Bytes(g, rt)|)
  {
    var d1 := h[from].data[offFrom..offFrom + n];
    var g := h[to := Patched(h[to], offTo, d1)];
    Outside(h, to, g[to], Some(from), rf);
    Outside(h, to, g[to], h[to].next, rt[1..]);
    assert rf[0] in rf;
    var d2 := if offFrom + n == |h[from].data| then Left(g, rf[1..], 0) else Left(g, rf, offFrom + n);
    LeftStep(g, rf, offFrom, n);
    assert Left(h, rf, offFrom) == d1 + d2;
    WrittenTwice(h, rt, offTo, d1, d2);
  }

  lemma PatchedCursor(h: Heap, to: Ptr, r: seq<Ptr>, offset: nat, d: seq<byte>)
    requires Cursor(h, Some(to), r, offset) && offset + |d| <= |h[to].data|
    ensures Cursor(h[to := Patched(h[to], offset, d)], Some(to), r, offset)
  {
    var b := Patched(h[to], offset, d);
    Outside(h, to, b, h[to].next, r[1..]);
    NoEmptyOutside(h, to, b, r[1..]);
  }

  lemma OtherCursor(h: Heap, q: Ptr, b: Pbuf, p: Ptr, r: seq<Ptr>, offset: nat)
    requires Cursor(h, Some(p), r, offset) && q !in r
    ensures Cursor(h[q := b], Some(p), r, offset) && p != q
  {
    assert r[0] in r;
    Outside(h, q, b, Some(p), r);
    NoEmptyOutside(h, q, b, r);
  }

  /** A cursor moves n bytes on, to the next buffer if its own is done. */
  lemma CursorStep(h: Heap, p: Ptr, r: seq<Ptr>, offset: nat, n: nat)
    requires Cursor(h, Some(p), r, offset) && offset + n <= |h[p].data|
    ensures if offset + n == |h[p].data| then Cursor(h, h[p].next, r[1..], 0) else Cursor(h, Some(p), r, offset + n)
  {
    assert NoEmpty(h, r[1..]) && IsChain(h, h[p].next, r[1..]);
  }

  lemma LeftStep(h: Heap, r: seq<Ptr>, offset: nat, n: nat)
    requires r != [] && r[0] in h && offset + n <= |h[r[0]].data|
    ensures Left(h, r, offset) == h[r[0]].data[offset..offset + n] +
                                  (if offset + n == |h[r[0]].data| then Left(h, r[1..], 0) else Left(h, r, offset + n))
  {
    assert Left(h, r[1..], 0) == Bytes(h, r[1..]);
  }

  // ---------- The front trim of tcp_receive() ----------

  /** The first buffer that keeps bytes. */
  function Beheaded(b: Pbuf, off: nat): Pbuf {
    if off <= |b.data| && off <= b.totLen then b.(data := b.data[off..], totLen := b.totLen - off) else b
  }

  ghost function Trimmed(h: Heap, c: seq<Ptr>, off: nat, newTot: nat): Heap
    decreases |c|
  {
    if c == [] || c[0] !in h then h
    else if |h[c[0]].data| < off then
      Trimmed(h[c[0] := h[c[0]].(data := [], totLen := newTot)], c[1..], off - |h[c[0]].data|, newTot)
    else h[c[0] := Beheaded(h[c[0]], off)]
  }

  lemma {:induction false} TrimmedAt(h: Heap, p: Option<Ptr>, c: seq<Ptr>, off: nat, newTot: nat, q: Ptr)
    requires IsChain(h, p, c)
    ensures q in h <==> q in Trimmed(h, c, off, newTot)
    ensures q in h && q !in c ==> Trimmed(h, c, off, newTot)[q] == h[q]
    decreases |c|
  {
    if c != [] && |h[c[0]].data| < off {
      var b := h[c[0]].(data := [], totLen := newTot);
      Outside(h, c[0], b, h[c[0]].next, c[1..]);
      TrimmedAt(h[c[0] := b], h[c[0]].next, c[1..], off - |h[c[0]].data|, newTot, q);
    }
  }

  lemma TrimmedOutside(h: Heap, p: Option<Ptr>, c: seq<Ptr>, off: nat, newTot: nat)
    requires IsChain(h, p, c)
    ensures SameOutside(h, Trimmed(h, c, off, newTot), c)
  {
    forall q: Ptr | q !in c
      ensures q in h <==> q in Trimmed(h, c, off, newTot)
      ensures q in h ==> Trimmed(h, c, off, newTot)[q] == h[q]
    {
      TrimmedAt(h, p, c, off, newTot, q);
    }
  }

  /** The chain then stands for its bytes from off on, and the cached lengths agree with that. */
  lemma {:induction false} TrimmedIs(h: Heap, p: Option<Ptr>, c: seq<Ptr>, off: nat, newTot: nat)
    requires IsChain(h, p, c) && TotLens(h, c) && off <= |Bytes(h, c)| && newTot == |Bytes(h, c)| - off
    ensures var g := Trimmed(h, c, off, newTot);
            IsChain(g, p, c) && TotLens(g, c) && HeadTotLen(g, c) == newTot && Bytes(g, c) == Bytes(h, c)[off..]
    decreases |c|
  {
    if c != [] {
      var q, next, tail := c[0], h[c[0]].next, c[1..];
      TotLenIsLength(h, p, c);
      if |h[q].data| < off {
        var b := h[q].(data := [], totLen := newTot);
        Outside(h, q, b, next, tail);
        TrimmedIs(h[q := b], next, tail, off - |h[q].data|, newTot);
        TrimmedAt(h[q := b], next, tail, off - |h[q].data|, newTot, q);
      } else {
        Outside(h, q, Beheaded(h[q], off), next, tail);
      }
    }
  }

  /** Where the loop of the front trim stands. */
  ghost predicate TrimInv(whole: Heap, h: Heap, q: Ptr, r: seq<Ptr>, off: nat, newTot: nat, handles: multiset<Ptr>) {
    && q in h && IsChain(h, Some(q), r) && TotLens(h, r) && RefsOk(h, handles)
    && off <= |Bytes(h, r)| && newTot == |Bytes(h, r)| - off
    && whole == Trimmed(h, r, off, newTot)
  }

  lemma TrimStep(whole: Heap, h: Heap, q: Ptr, r: seq<Ptr>, off: nat, newTot: nat, handles: multiset<Ptr>)
    requires TrimInv(whole, h, q, r, off, newTot, handles) && |h[q].data| < off
    ensures |r| > 1 && h[q].next.Some?
    ensures TrimInv(whole, h[q := h[q].(data := [], totLen := newTot)], h[q].next.value, r[1..], off - |h[q].data|, newTot, handles)
  {
    hide RefsOk;
    var b := h[q].(data := [], totLen := newTot);
    assert Bytes(h, r) == h[q].data + Bytes(h, r[1..]);
    Outside(h, q, b, h[q].next, r[1..]);
    DataKeepsRefs(h, handles, q, b);
  }

  lemma TrimMeans(whole: Heap, h: Heap, q: Ptr, r: seq<Ptr>, off: nat, newTot: nat, handles: multiset<Ptr>)
    requires TrimInv(whole, h, q, r, off, newTot, handles)
    ensures q in h
  {}

  lemma TrimEnds(whole: Heap, h: Heap, q: Ptr, r: seq<Ptr>, off: nat, newTot: nat, handles: multiset<Ptr>)
    requires TrimInv(whole, h, q, r, off, newTot, handles) && off <= |h[q].data|
    ensures off <= h[q].totLen && RefsOk(whole, handles)
    ensures whole == h[q := h[q].(data := h[q].data[off..], totLen := h[q].totLen - off)]
  {
    hide RefsOk;
    TotLenIsLength(h, Some(q), r);
    DataKeepsRefs(h, handles, q, Beheaded(h[q], off));
  }

  lemma TrimStart(h: Heap, p: Ptr, c: seq<Ptr>, off: nat, handles: multiset<Ptr>)
    requires IsChain(h, Some(p), c) && TotLens(h, c) && off <= |Bytes(h, c)| && RefsOk(h, handles)
    ensures p in h && off <= h[p].totLen
    ensures TrimInv(Trimmed(h, c, off, h[p].totLen - off), h, p, c, off, h[p].totLen - off, handles)
  {
    TotLenIsLength(h, Some(p), c);
  }
}
