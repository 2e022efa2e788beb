/** Packet buffers (src/pbuf.c) as a heap of linked nodes: the byte string a chain stands for,
    the cached tot_len fields, and the reference counts. */
module PbufHeap {

  import opened SequenceNumbers
  import opened TcpConfig

  type Ptr = nat

  /** struct pbuf: data are the len bytes at payload. */
  datatype Pbuf = Pbuf(next: Option<Ptr>, data: seq<byte>, totLen: nat, refs: nat)

  type Heap = map<Ptr, Pbuf>

  // ---------- Chains ----------

  /** c lists the pbufs reached from p over next, up to the last one. */
  ghost predicate IsChain(h: Heap, p: Option<Ptr>, c: seq<Ptr>)
    decreases |c|
  {
    if c == [] then p == None
    else p == Some(c[0]) && c[0] in h && c[0] !in c[1..] && IsChain(h, h[c[0]].next, c[1..])
  }

  /** The bytes a chain stands for. */
  ghost function Bytes(h: Heap, c: seq<Ptr>): seq<byte>
    decreases |c|
  {
    if c == [] || c[0] !in h then [] else h[c[0]].data + Bytes(h, c[1..])
  }

  /** tot_len == len + (next ? next->tot_len : 0), all along the chain. */
  ghost predicate TotLens(h: Heap, c: seq<Ptr>)
    decreases |c|
  {
    c != [] ==>
      && c[0] in h && h[c[0]].totLen == |h[c[0]].data| + HeadTotLen(h, c[1..])
      && TotLens(h, c[1..])
  }

  ghost function HeadTotLen(h: Heap, c: seq<Ptr>): nat { if c != [] && c[0] in h then h[c[0]].totLen else 0 }

  lemma {:induction false} ChainAllocated(h: Heap, p: Option<Ptr>, c: seq<Ptr>)
    requires IsChain(h, p, c)
    ensures forall q :: q in c ==> q in h
    decreases |c|
  {
    if c != [] { ChainAllocated(h, h[c[0]].next, c[1..]); }
  }

  /** The cached length is the length of the byte string. */
  lemma {:induction false} TotLenIsLength(h: Heap, p: Option<Ptr>, c: seq<Ptr>)
    requires IsChain(h, p, c) && TotLens(h, c)
    ensures |Bytes(h, c)| == HeadTotLen(h, c)
    decreases |c|
  {
    if c != [] { TotLenIsLength(h, h[c[0]].next, c[1..]); }
  }

  /** Two heaps that agree on a chain, reference counts aside. */
  ghost predicate Agree(h: Heap, g: Heap, c: seq<Ptr>)
    decreases |c|
  {
    c != [] ==>
      && c[0] in h && c[0] in g
      && h[c[0]].next == g[c[0]].next && h[c[0]].data == g[c[0]].data && h[c[0]].totLen == g[c[0]].totLen
      && Agree(h, g, c[1..])
  }

  lemma {:induction false} AgreeKeeps(h: Heap, g: Heap, p: Option<Ptr>, c: seq<Ptr>)
    requires IsChain(h, p, c) && Agree(h, g, c)
    ensures (forall q :: q in c ==> q in h && q in g) && IsChain(g, p, c) && Bytes(g, c) == Bytes(h, c)
    ensures TotLens(h, c) ==> TotLens(g, c)
    decreases |c|
  {
    if c != [] { AgreeKeeps(h, g, h[c[0]].next, c[1..]); }
  }

  lemma {:induction false} AgreeOutside(h: Heap, q: Ptr, b: Pbuf, p: Option<Ptr>, c: seq<Ptr>)
    requires IsChain(h, p, c) && q !in c
    ensures Agree(h, h[q := b], c)
    decreases |c|
  {
    if c != [] { AgreeOutside(h, q, b, h[c[0]].next, c[1..]); }
  }

  /** Changing one pbuf that is not on a chain leaves the chain alone. */
  lemma Outside(h: Heap, q: Ptr, b: Pbuf, p: Option<Ptr>, c: seq<Ptr>)
    requires IsChain(h, p, c) && q !in c
    ensures (forall r :: r in c ==> r in h) && IsChain(h[q := b], p, c) && Bytes(h[q := b], c) == Bytes(h, c)
    ensures TotLens(h, c) ==> TotLens(h[q := b], c)
  {
    AgreeOutside(h, q, b, p, c);
    AgreeKeeps(h, h[q := b], p, c);
  }

  /** No pbuf outside c is changed, freed or allocated. */
  ghost predicate SameOutside(h: Heap, g: Heap, c: seq<Ptr>) {
    forall q: Ptr :: q !in c ==> (q in h <==> q in g) && (q in h ==> g[q] == h[q])
  }

  lemma SameOutsideTwice(h: Heap, g: Heap, k: Heap, c: seq<Ptr>, d: seq<Ptr>)
    requires SameOutside(h, g, c) && SameOutside(g, k, d) && (forall q :: q in d ==> q in c)
    ensures SameOutside(h, k, c)
  {}

  /** What other chains stand for stays the same. */
  lemma {:induction false} OutsideAgrees(h: Heap, g: Heap, c: seq<Ptr>, p: Option<Ptr>, o: seq<Ptr>)
    requires SameOutside(h, g, c) && IsChain(h, p, o) && (forall q :: q in o ==> q !in c)
    ensures Agree(h, g, o)
    decreases |o|
  {
    if o != [] { OutsideAgrees(h, g, c, h[o[0]].next, o[1..]); }
  }

  /** A chain that has no pbuf in common with c is the same chain, with the same bytes. */
  lemma OtherChains(h: Heap, g: Heap, c: seq<Ptr>, p: Option<Ptr>, o: seq<Ptr>)
    requires SameOutside(h, g, c) && IsChain(h, p, o) && (forall q :: q in o ==> q !in c)
    ensures IsChain(g, p, o) && Bytes(g, o) == Bytes(h, o) && (TotLens(h, o) ==> TotLens(g, o))
  {
    OutsideAgrees(h, g, c, p, o);
    AgreeKeeps(h, g, p, o);
  }

  // ---------- Reference counts ----------

  /** The pbufs whose next pointer is p. */
  ghost function Pointing(h: Heap, p: Ptr): set<Ptr> { set q | q in h && h[q].next == Some(p) }

  /** Every live pbuf is referenced, and its count is the number of next pointers to it plus the
      external references; no next pointer and no external reference leads to a freed pbuf. */
  ghost predicate RefsOk(h: Heap, handles: multiset<Ptr>) {
    && (forall p :: p in h ==> h[p].refs == |Pointing(h, p)| + handles[p] && h[p].refs > 0)
    && (forall q :: q in h && h[q].next.Some? ==> h[q].next.value in h)
    && (forall p :: p in handles ==> p in h)
  }

  /** A next pointer is set, cleared or redirected: the sets of pointing pbufs. */
  lemma PointingMoves(h: Heap, q: Ptr, b: Pbuf, p: Ptr)
    requires q in h
    ensures Pointing(h[q := b], p) == (if b.next == Some(p) then Pointing(h, p) + {q} else Pointing(h, p) - {q})
  {}

  lemma PointingFreed(h: Heap, q: Ptr, p: Ptr)
    requires q in h
    ensures Pointing(h - {q}, p) == Pointing(h, p) - {q}
  {}

  function Counted(b: Pbuf, n: nat): Pbuf { b.(refs := n) }

  /** Dropping an external reference to a pbuf that has others: pbuf_free() stops there. */
  lemma DropShared(h: Heap, handles: multiset<Ptr>, p: Ptr)
    requires RefsOk(h, handles) && p in handles && h[p].refs > 1
    ensures RefsOk(h[p := Counted(h[p], h[p].refs - 1)], handles - multiset{p})
  {
    var g := h[p := Counted(h[p], h[p].refs - 1)];
    forall q | q in g ensures g[q].refs == |Pointing(g, q)| + (handles - multiset{p})[q] && g[q].refs > 0 {
      PointingMoves(h, p, g[p], q);
      assert Pointing(g, q) == Pointing(h, q);
    }
  }

  /** Dropping the only reference to a pbuf: it is freed, and its next pointer becomes the
      reference to be dropped. */
  lemma DropLast(h: Heap, handles: multiset<Ptr>, p: Ptr)
    requires RefsOk(h, handles) && p in handles && h[p].refs == 1
    ensures var rest := handles - multiset{p};
            RefsOk(h - {p}, if h[p].next.Some? then rest + multiset{h[p].next.value} else rest)
  {
    hide Pointing;
    var g, next := h - {p}, h[p].next;
    var rest := handles - multiset{p};
    var after := if next.Some? then rest + multiset{next.value} else rest;
    assert h[p].refs == |Pointing(h, p)| + handles[p];
    assert Pointing(h, p) == {} && handles[p] == 1;
    forall q | q in g ensures g[q].refs == |Pointing(g, q)| + after[q] && g[q].refs > 0 {
      PointingWithout(h, p, q);
      assert q in h && g[q] == h[q] && rest[q] == handles[q];
    }
    forall q | q in g && g[q].next.Some? ensures g[q].next.value in g {
      PointedAt(h, q);
    }
    if next.Some? { PointedAt(h, p); }
    assert rest[p] == 0;
  }

  lemma PointingWithout(h: Heap, p: Ptr, q: Ptr)
    requires p in h
    ensures |Pointing(h - {p}, q)| == |Pointing(h, q)| - if h[p].next == Some(q) then 1 else 0
  {
    PointingFreed(h, p, q);
    if h[p].next == Some(q) { assert p in Pointing(h, q); } else { assert Pointing(h - {p}, q) == Pointing(h, q); }
  }

  lemma PointedAt(h: Heap, q: Ptr)
    requires q in h && h[q].next.Some?
    ensures q in Pointing(h, h[q].next.value)
  {}

  // ---------- pbuf_free() ----------

  /** run is a path of pbufs from p that are referenced once each; after is where it leads. */
  ghost predicate SoleRun(h: Heap, p: Option<Ptr>, run: seq<Ptr>, after: Option<Ptr>)
    decreases |run|
  {
    if run == [] then p == after
    else
      && p == Some(run[0]) && run[0] in h && h[run[0]].refs == 1
      && SoleRun(h - {run[0]}, h[run[0]].next, run[1..], after)
  }

  ghost function Freed(h: Heap, run: seq<Ptr>): Heap
    decreases |run|
  {
    if run == [] then h else Freed(h - {run[0]}, run[1..])
  }

  /** What pbuf_free(p) leaves: the run is gone, and the pbuf behind it has lost one reference. */
  ghost function Released(h: Heap, run: seq<Ptr>, after: Option<Ptr>): Heap {
    var g := Freed(h, run);
    if after.Some? && after.value in g && g[after.value].refs > 1
    then g[after.value := Counted(g[after.value], g[after.value].refs - 1)] else g
  }

  lemma {:induction false} FreedIs(h: Heap, run: seq<Ptr>, q: Ptr)
    ensures q in Freed(h, run) <==> q in h && q !in run
    ensures q in Freed(h, run) ==> Freed(h, run)[q] == h[q]
    decreases |run|
  {
    if run != [] { FreedIs(h - {run[0]}, run[1..], q); }
  }

  /** The whole effect of pbuf_free() on the counts: one external reference to p is gone. */
  lemma {:induction false} ReleaseKeepsRefs(h: Heap, handles: multiset<Ptr>, p: Ptr, run: seq<Ptr>, after: Option<Ptr>)
    requires RefsOk(h, handles) && p in handles && SoleRun(h, Some(p), run, after)
    requires after.Some? && after.value in Freed(h, run) ==> Freed(h, run)[after.value].refs > 1
    ensures RefsOk(Released(h, run, after), handles - multiset{p})
    decreases |run|
  {
    if run == [] {
      assert Freed(h, run) == h;
      DropShared(h, handles, p);
    } else {
      DropLast(h, handles, p);
      var g, next, rest := h - {p}, h[p].next, handles - multiset{p};
      assert Freed(h, run) == Freed(g, run[1..]);
      if next.Some? {
        ReleaseKeepsRefs(g, rest + multiset{next.value}, next.value, run[1..], after);
        assert rest + multiset{next.value} - multiset{next.value} == rest;
      } else {
        assert run[1..] == [] && Freed(g, []) == g;
      }
    }
  }

  /** The run of a chain is a front part of it, and what follows it is next on the chain. */
  lemma {:induction false} RunOnChain(h: Heap, p: Option<Ptr>, c: seq<Ptr>, run: seq<Ptr>, after: Option<Ptr>)
    requires IsChain(h, p, c) && SoleRun(h, p, run, after)
    ensures |run| <= |c| && run == c[..|run|]
    ensures after.Some? ==> |run| < |c| && after.value == c[|run|]
    decreases |run|
  {
    if run != [] {
      Removed(h, run[0], h[run[0]].next, c[1..]);
      RunOnChain(h - {run[0]}, h[run[0]].next, c[1..], run[1..], after);
    }
  }

  lemma {:induction false} Removed(h: Heap, q: Ptr, p: Option<Ptr>, c: seq<Ptr>)
    requires IsChain(h, p, c) && q !in c
    ensures IsChain(h - {q}, p, c)
    decreases |c|
  {
    if c != [] { Removed(h, q, h[c[0]].next, c[1..]); }
  }

  /** pbuf_free() touches nothing but the run and what follows it. */
  lemma ReleasedAt(h: Heap, run: seq<Ptr>, after: Option<Ptr>, q: Ptr)
    ensures q in run ==> q !in Released(h, run, after)
    ensures q in h && q !in run ==> q in Released(h, run, after)
    ensures q in h && q !in run && after != Some(q) ==> Released(h, run, after)[q] == h[q]
  {
    FreedIs(h, run, q);
    if after.Some? { FreedIs(h, run, after.value); }
  }

  lemma ReleasedOutside(h: Heap, run: seq<Ptr>, after: Option<Ptr>, c: seq<Ptr>)
    requires (forall q :: q in run ==> q in c) && (after.Some? ==> after.value in c)
    ensures SameOutside(h, Released(h, run, after), c)
  {
    forall q: Ptr | q !in c
      ensures q in h <==> q in Released(h, run, after)
      ensures q in h ==> Released(h, run, after)[q] == h[q]
    {
      ReleasedAt(h, run, after, q);
      FreedIs(h, run, q);
    }
  }

  lemma {:induction false} ReleasedElsewhere(h: Heap, run: seq<Ptr>, after: Option<Ptr>, p: Option<Ptr>, c: seq<Ptr>)
    requires IsChain(h, p, c) && (forall q :: q in c ==> q !in run && after != Some(q))
    ensures Agree(h, Released(h, run, after), c)
    decreases |c|
  {
    if c != [] {
      ReleasedAt(h, run, after, c[0]);
      ReleasedElsewhere(h, run, after, h[c[0]].next, c[1..]);
    }
  }

  // ---------- The other operations on counts ----------

  lemma AllocKeepsRefs(h: Heap, handles: multiset<Ptr>, p: Ptr, b: Pbuf)
    requires RefsOk(h, handles) && p !in h && b.next == None && b.refs == 1
    ensures RefsOk(h[p := b], handles + multiset{p})
  {
    var g := h[p := b];
    forall q | q in g ensures g[q].refs == |Pointing(g, q)| + (handles + multiset{p})[q] && g[q].refs > 0 {
      assert Pointing(g, q) == Pointing(h, q);
      if q == p { assert Pointing(h, p) == {}; }
    }
  }

  lemma RefKeepsRefs(h: Heap, handles: multiset<Ptr>, p: Ptr)
    requires RefsOk(h, handles) && p in h
    ensures RefsOk(h[p := Counted(h[p], h[p].refs + 1)], handles + multiset{p})
  {
    var g := h[p := Counted(h[p], h[p].refs + 1)];
    forall q | q in g ensures g[q].refs == |Pointing(g, q)| + (handles + multiset{p})[q] && g[q].refs > 0 {
      PointingMoves(h, p, g[p], q);
      assert Pointing(g, q) == Pointing(h, q);
    }
  }

  /** Changing lengths and bytes does not touch the counts. */
  lemma DataKeepsRefs(h: Heap, handles: multiset<Ptr>, p: Ptr, b: Pbuf)
    requires RefsOk(h, handles) && p in h && b.next == h[p].next && b.refs == h[p].refs
    ensures RefsOk(h[p := b], handles)
  {
    hide Pointing;
    var g := h[p := b];
    forall q | q in g ensures g[q].refs == |Pointing(g, q)| + handles[q] && g[q].refs > 0 {
      SamePointing(h, p, b, q);
      assert q in h && g[q].refs == h[q].refs;
    }
    forall q | q in g && g[q].next.Some? ensures g[q].next.value in g {
      assert q in h && g[q].next == h[q].next;
    }
  }

  lemma SamePointing(h: Heap, p: Ptr, b: Pbuf, q: Ptr)
    requires p in h && b.next == h[p].next
    ensures Pointing(h[p := b], q) == Pointing(h, q)
  {}

  /** An external reference becomes a next pointer. */
  lemma LinkKeepsRefs(h: Heap, handles: multiset<Ptr>, p: Ptr, b: Pbuf, t: Ptr)
    requires RefsOk(h, handles) && p in h && t in handles && h[p].next == None
    requires b.next == Some(t) && b.refs == h[p].refs
    ensures RefsOk(h[p := b], handles - multiset{t})
  {
    var g := h[p := b];
    forall q | q in g ensures g[q].refs == |Pointing(g, q)| + (handles - multiset{t})[q] && g[q].refs > 0 {
      PointingMoves(h, p, b, q);
      assert p !in Pointing(h, q);
    }
  }

  /** A next pointer becomes an external reference. */
  lemma UnlinkKeepsRefs(h: Heap, handles: multiset<Ptr>, p: Ptr, b: Pbuf, t: Ptr)
    requires RefsOk(h, handles) && p in h && h[p].next == Some(t) && b.next == None && b.refs == h[p].refs
    ensures RefsOk(h[p := b], handles + multiset{t})
  {
    var g := h[p := b];
    forall q | q in g ensures g[q].refs == |Pointing(g, q)| + (handles + multiset{t})[q] && g[q].refs > 0 {
      PointingMoves(h, p, b, q);
      assert p in Pointing(h, q) <==> q == t;
    }
  }

  // ---------- The loop of pbuf_free() ----------

  /** Where the loop of pbuf_free() stands: run has been freed; q, if any, is to lose a reference. */
  ghost predicate FreeInv(h0: Heap, p: Option<Ptr>, run: seq<Ptr>, q: Option<Ptr>, after: Option<Ptr>, h: Heap, rest: multiset<Ptr>) {
    && SoleRun(h0, p, run, after)
    && if q.Some? then after == q && q.value in h && h == Freed(h0, run) && RefsOk(h, rest + multiset{q.value})
       else RefsOk(h, rest) && h == Released(h0, run, after) && Stops(h0, run, after)
  }

  /** The pbuf behind the run is still referenced. */
  ghost predicate Stops(h: Heap, run: seq<Ptr>, after: Option<Ptr>) {
    after.Some? ==> after.value in Freed(h, run) && Freed(h, run)[after.value].refs > 1
  }

  lemma FreeStart(h: Heap, handles: multiset<Ptr>, p: Option<Ptr>)
    requires RefsOk(h, handles) && (p.Some? ==> p.value in handles)
    ensures FreeInv(h, p, [], p, p, h, if p.Some? then handles - multiset{p.value} else handles)
    ensures p.Some? ==> p.value in h
  {
    if p.Some? { assert handles - multiset{p.value} + multiset{p.value} == handles; }
  }

  lemma {:induction false} RunGrows(h: Heap, p: Option<Ptr>, run: seq<Ptr>, q: Ptr)
    requires SoleRun(h, p, run, Some(q)) && q in Freed(h, run) && Freed(h, run)[q].refs == 1
    ensures SoleRun(h, p, run + [q], Freed(h, run)[q].next)
    ensures Freed(h, run + [q]) == Freed(h, run) - {q}
    decreases |run|
  {
    if run == [] {
      assert run + [q] == [q] && [q][1..] == [];
    } else {
      assert (run + [q])[1..] == run[1..] + [q];
      RunGrows(h - {run[0]}, h[run[0]].next, run[1..], q);
    }
  }

  lemma HandleLive(h: Heap, handles: multiset<Ptr>, p: Ptr)
    requires RefsOk(h, handles) && p in handles
    ensures p in h
  {}

  /** A round that frees q: its next pointer is the next reference to drop. */
  lemma FreeLast(h0: Heap, p: Option<Ptr>, run: seq<Ptr>, q: Ptr, h: Heap, rest: multiset<Ptr>)
    requires FreeInv(h0, p, run, Some(q), Some(q), h, rest) && h[q].refs == 1
    ensures FreeInv(h0, p, run + [q], h[q].next, h[q].next, h - {q}, rest)
    ensures h[q].next.Some? ==> h[q].next.value in h - {q}
  {
    hide RefsOk;
    var handles, next := rest + multiset{q}, h[q].next;
    assert handles - multiset{q} == rest;
    DropLast(h, handles, q);
    if next.Some? { HandleLive(h - {q}, rest + multiset{next.value}, next.value); }
    RunGrows(h0, p, run, q);
  }

  /** A round that finds another reference to q: the loop ends. */
  lemma FreeShared(h0: Heap, p: Option<Ptr>, run: seq<Ptr>, q: Ptr, h: Heap, rest: multiset<Ptr>)
    requires FreeInv(h0, p, run, Some(q), Some(q), h, rest) && h[q].refs > 1
    ensures FreeInv(h0, p, run, None, Some(q), h[q := Counted(h[q], h[q].refs - 1)], rest)
  {
    hide RefsOk;
    assert rest + multiset{q} - multiset{q} == rest;
    DropShared(h, rest + multiset{q}, q);
  }

  lemma Referenced(h0: Heap, p: Option<Ptr>, run: seq<Ptr>, q: Ptr, h: Heap, rest: multiset<Ptr>)
    requires FreeInv(h0, p, run, Some(q), Some(q), h, rest)
    ensures q in h && h[q].refs >= 1
  {}

  lemma FreeEnds(h0: Heap, p: Option<Ptr>, run: seq<Ptr>, after: Option<Ptr>, h: Heap, rest: multiset<Ptr>)
    requires FreeInv(h0, p, run, None, after, h, rest)
    ensures SoleRun(h0, p, run, after) && h == Released(h0, run, after) && Stops(h0, run, after) && RefsOk(h, rest)
  {}

  lemma FreedSmaller(h: Heap, q: Ptr)
    requires q in h
    ensures |h - {q}| < |h|
  {
    assert (h - {q}).Keys == h.Keys - {q};
  }

  lemma SameSize(h: Heap, q: Ptr, b: Pbuf)
    requires q in h
    ensures |h[q := b]| == |h|
  {
    assert h[q := b].Keys == h.Keys;
  }
}
