/** The four lists of TCP control blocks. */
module PcbLists {
  // The axioms of include/lwip/tcp_impl.h, kept by every operation that moves blocks between the lists
  // when callbacks make no API calls.

  import opened SequenceNumbers
  import opened TcpConfig

  type Ptr = nat

  datatype PcbState = CLOSED | LISTEN | SYN_SENT | SYN_RCVD | ESTABLISHED | FIN_WAIT_1 | FIN_WAIT_2 | CLOSE_WAIT
                    | CLOSING | LAST_ACK | TIME_WAIT

  /** The states in which data can be transferred, among all states; Closed is a PCB being removed. */
  function Listed(s: State): PcbState {
    match s
    case Established => ESTABLISHED
    case FinWait1 => FIN_WAIT_1
    case FinWait2 => FIN_WAIT_2
    case CloseWait => CLOSE_WAIT
    case Closing => CLOSING
    case LastAck => LAST_ACK
    case TimeWait => TIME_WAIT
    case Closed => CLOSED
  }

  /** What the data engine calls active is what belongs on the list of active PCBs, and different states
      stay different. */
  lemma ListedAgrees(s: State, t: State)
    ensures ActiveState(Listed(s)) <==> s.Active()
    ensures Listed(s) == Listed(t) <==> s == t
    ensures !Listed(s).LISTEN?
  {}

  datatype Pcb = Pcb(state: PcbState, localPort: u16)

  datatype Err = ErrOk | ErrVal | ErrBuf | ErrMem | ErrIsConn

  /** A state in which a PCB accepts or sends data, or is about to. */
  predicate ActiveState(s: PcbState) { !s.CLOSED? && !s.LISTEN? && !s.TIME_WAIT? }

  function Times(b: bool): nat { if b then 1 else 0 }

  /** Every live PCB that is not CLOSED is exactly once on the list its state asks for and on no other;
      a CLOSED one is at most once on the list of bound ones, and has a port then; nothing else is on
      any list. */
  ghost predicate Axioms(pcbs: map<Ptr, Pcb>, listen: seq<Ptr>, bound: seq<Ptr>, active: seq<Ptr>, tw: seq<Ptr>) {
    forall p: Ptr :: AxiomsAt(pcbs, listen, bound, active, tw, p)
  }

  ghost predicate AxiomsAt(pcbs: map<Ptr, Pcb>, listen: seq<Ptr>, bound: seq<Ptr>, active: seq<Ptr>, tw: seq<Ptr>, p: Ptr) {
    && multiset(listen)[p] == Times(p in pcbs && pcbs[p].state.LISTEN?)
    && multiset(active)[p] == Times(p in pcbs && ActiveState(pcbs[p].state))
    && multiset(tw)[p] == Times(p in pcbs && pcbs[p].state.TIME_WAIT?)
    && multiset(bound)[p] <= Times(p in pcbs && pcbs[p].state.CLOSED? && pcbs[p].localPort != 0)
  }

  /** The axioms as the header states them. */
  lemma AxiomsMean(pcbs: map<Ptr, Pcb>, listen: seq<Ptr>, bound: seq<Ptr>, active: seq<Ptr>, tw: seq<Ptr>, p: Ptr)
    requires Axioms(pcbs, listen, bound, active, tw)
    ensures multiset(listen + bound + active + tw)[p] <= 1
    ensures p in pcbs && !pcbs[p].state.CLOSED? ==> p in listen + bound + active + tw
    ensures p in listen + bound + active + tw ==> p in pcbs
    ensures p in listen ==> pcbs[p].state.LISTEN?
    ensures p in tw ==> pcbs[p].state.TIME_WAIT?
    ensures p in active ==> ActiveState(pcbs[p].state)
  {
    assert AxiomsAt(pcbs, listen, bound, active, tw, p);
    var all: seq<Ptr> := listen + bound + active + tw;
    assert multiset(all)[p] == multiset(listen)[p] + multiset(bound)[p] + multiset(active)[p] + multiset(tw)[p];
    assert p in all <==> p in multiset(all);
    assert (p in listen <==> p in multiset(listen)) && (p in tw <==> p in multiset(tw)) && (p in active <==> p in multiset(active));
  }

  /** The list without its first p. */
  function Without(l: seq<Ptr>, p: Ptr): (r: seq<Ptr>)
    ensures multiset(r) == multiset(l) - multiset{p}
    decreases |l|
  {
    if l == [] then [] else if l[0] == p then (assert l == [l[0]] + l[1..]; l[1..])
    else (assert l == [l[0]] + l[1..]; [l[0]] + Without(l[1..], p))
  }

  lemma {:induction false} WithoutAt(l: seq<Ptr>, p: Ptr, i: nat)
    requires i < |l| && l[i] == p && (forall j :: 0 <= j < i ==> l[j] != p)
    ensures Without(l, p) == l[..i] + l[i + 1..]
    decreases i
  {
    if i > 0 {
      var rest := l[1..];
      forall j | 0 <= j < i - 1 ensures rest[j] != p { assert rest[j] == l[j + 1]; }
      WithoutAt(rest, p, i - 1);
      CutInTail(l, i);
    }
  }

  lemma CutInTail<T>(l: seq<T>, i: nat)
    requires 0 < i < |l|
    ensures [l[0]] + (l[1..][..i - 1] + l[1..][i..]) == l[..i] + l[i + 1..]
  {
    assert l[..i] == [l[0]] + l[1..][..i - 1];
  }

  lemma {:induction false} WithoutNone(l: seq<Ptr>, p: Ptr)
    requires p !in l
    ensures Without(l, p) == l
    decreases |l|
  {
    if l != [] { WithoutNone(l[1..], p); }
  }

  lemma FirstOut(p: Ptr, l: seq<Ptr>)
    ensures Without([p] + l, p) == l
  {
    assert ([p] + l)[1..] == l;
  }

  lemma NoneAdded(a: seq<Ptr>, b: seq<Ptr>)
    ensures [] + a == a && [] + b == b
  {}

  /** TCP_RMV */
  method TcpRmv(l: seq<Ptr>, p: Ptr) returns (r: seq<Ptr>)
    ensures r == Without(l, p)
  {
    var i := 0;
    while i < |l|
      invariant 0 <= i <= |l| && (forall j :: 0 <= j < i ==> l[j] != p)
    {
      if l[i] == p {
        WithoutAt(l, p, i);
        return l[..i] + l[i + 1..];
      }
      i := i + 1;
    }
    WithoutNone(l, p);
    return l;
  }

  /** Taking a PCB off the list its state asks for, and freeing it. */
  lemma FreeKeeps(pcbs: map<Ptr, Pcb>, listen: seq<Ptr>, bound: seq<Ptr>, active: seq<Ptr>, tw: seq<Ptr>, p: Ptr)
    requires Axioms(pcbs, listen, bound, active, tw) && p in pcbs
    ensures pcbs[p].state.LISTEN? ==> Axioms(pcbs - {p}, Without(listen, p), bound, active, tw)
    ensures pcbs[p].state.CLOSED? && pcbs[p].localPort != 0 ==> Axioms(pcbs - {p}, listen, Without(bound, p), active, tw)
    ensures pcbs[p].state.CLOSED? && pcbs[p].localPort == 0 ==> Axioms(pcbs - {p}, listen, bound, active, tw)
    ensures ActiveState(pcbs[p].state) ==> Axioms(pcbs - {p}, listen, bound, Without(active, p), tw)
    ensures pcbs[p].state.TIME_WAIT? ==> Axioms(pcbs - {p}, listen, bound, active, Without(tw, p))
    ensures !ActiveState(pcbs[p].state) ==> Without(active, p) == active
  {
    var s := pcbs[p].state;
    var l', b' := if s.LISTEN? then Without(listen, p) else listen, if s.CLOSED? && pcbs[p].localPort != 0 then Without(bound, p) else bound;
    var a', t' := if ActiveState(s) then Without(active, p) else active, if s.TIME_WAIT? then Without(tw, p) else tw;
    forall q: Ptr ensures AxiomsAt(pcbs - {p}, l', b', a', t', q) {
      assert AxiomsAt(pcbs, listen, bound, active, tw, q);
    }
    if !ActiveState(pcbs[p].state) {
      assert AxiomsAt(pcbs, listen, bound, active, tw, p);
      assert p in active <==> p in multiset(active);
      WithoutNone(active, p);
    }
  }

  /** A PCB changes from one active state to another, or to TIME-WAIT. */
  lemma ActiveKeeps(pcbs: map<Ptr, Pcb>, listen: seq<Ptr>, bound: seq<Ptr>, active: seq<Ptr>, tw: seq<Ptr>, p: Ptr, s: PcbState)
    requires Axioms(pcbs, listen, bound, active, tw) && p in pcbs && ActiveState(pcbs[p].state)
    ensures ActiveState(s) ==> Axioms(pcbs[p := pcbs[p].(state := s)], listen, bound, active, tw)
    ensures s.TIME_WAIT? ==> Axioms(pcbs[p := pcbs[p].(state := s)], listen, bound, Without(active, p), [p] + tw)
  {
    var a', t' := if s.TIME_WAIT? then Without(active, p) else active, if s.TIME_WAIT? then [p] + tw else tw;
    if ActiveState(s) || s.TIME_WAIT? {
      var pcbs' := pcbs[p := pcbs[p].(state := s)];
      forall q: Ptr ensures AxiomsAt(pcbs', listen, bound, a', t', q) {
        assert AxiomsAt(pcbs, listen, bound, active, tw, q);
      }
    }
  }

  /** Registering a PCB that has just been allocated. */
  lemma NewKeeps(pcbs: map<Ptr, Pcb>, listen: seq<Ptr>, bound: seq<Ptr>, active: seq<Ptr>, tw: seq<Ptr>, p: Ptr, b: Pcb)
    requires Axioms(pcbs, listen, bound, active, tw) && p !in pcbs
    ensures b.state.CLOSED? ==> Axioms(pcbs[p := b], listen, bound, active, tw)
    ensures b.state.LISTEN? ==> Axioms(pcbs[p := b], [p] + listen, bound, active, tw)
    ensures ActiveState(b.state) ==> Axioms(pcbs[p := b], listen, bound, [p] + active, tw)
  {
    var l', a' := if b.state.LISTEN? then [p] + listen else listen, if ActiveState(b.state) then [p] + active else active;
    if !b.state.TIME_WAIT? {
      var pcbs' := pcbs[p := b];
      forall q: Ptr ensures AxiomsAt(pcbs', l', bound, a', tw, q) {
        assert AxiomsAt(pcbs, listen, bound, active, tw, q);
      }
    }
  }

  /** Moving an active PCB to the front. */
  lemma FrontKeeps(pcbs: map<Ptr, Pcb>, listen: seq<Ptr>, bound: seq<Ptr>, active: seq<Ptr>, tw: seq<Ptr>, p: Ptr)
    requires Axioms(pcbs, listen, bound, active, tw) && p in active
    ensures Axioms(pcbs, listen, bound, [p] + Without(active, p), tw)
    ensures p in pcbs && ActiveState(pcbs[p].state) && p !in Without([p] + Without(active, p), p)
  {
    AxiomsMean(pcbs, listen, bound, active, tw, p);
    assert p in multiset(active);
    assert multiset([p] + Without(active, p)) == multiset(active);
    assert AxiomsAt(pcbs, listen, bound, active, tw, p);
    var again := Without([p] + Without(active, p), p);
    assert p in again <==> p in multiset(again);
    forall q: Ptr ensures AxiomsAt(pcbs, listen, bound, [p] + Without(active, p), tw, q) {
      assert AxiomsAt(pcbs, listen, bound, active, tw, q);
    }
  }

  /** A CLOSED PCB gets a port, is bound, or starts to connect. */
  lemma ClosedKeeps(pcbs: map<Ptr, Pcb>, listen: seq<Ptr>, bound: seq<Ptr>, active: seq<Ptr>, tw: seq<Ptr>, p: Ptr, port: u16)
    requires Axioms(pcbs, listen, bound, active, tw) && p in pcbs && pcbs[p].state.CLOSED?
    ensures pcbs[p].localPort == 0 ==> p !in bound && Axioms(pcbs[p := Pcb(CLOSED, port)], listen, bound, active, tw)
    ensures p !in bound ==> Axioms(pcbs[p := Pcb(SYN_SENT, port)], listen, bound, [p] + active, tw)
    ensures Axioms(pcbs[p := Pcb(SYN_SENT, port)], listen, Without(bound, p), [p] + active, tw) && p !in Without(bound, p)
  {
    var syn := pcbs[p := Pcb(SYN_SENT, port)];
    forall q: Ptr ensures AxiomsAt(syn, listen, Without(bound, p), [p] + active, tw, q) {
      assert AxiomsAt(pcbs, listen, bound, active, tw, q);
    }
    if p !in bound { WithoutNone(bound, p); }
    if pcbs[p].localPort == 0 {
      var pcbs' := pcbs[p := Pcb(CLOSED, port)];
      forall q: Ptr ensures AxiomsAt(pcbs', listen, bound, active, tw, q) {
        assert AxiomsAt(pcbs, listen, bound, active, tw, q);
      }
    }
    assert AxiomsAt(pcbs, listen, bound, active, tw, p);
    assert p in bound <==> p in multiset(bound);
    assert p in Without(bound, p) <==> p in multiset(Without(bound, p));
  }

  class Lists {
    var pcbs: map<Ptr, Pcb>   // the live control blocks
    var listen: seq<Ptr>      // tcp_listen_pcbs
    var bound: seq<Ptr>       // tcp_bound_pcbs
    var active: seq<Ptr>      // tcp_active_pcbs
    var tw: seq<Ptr>          // tcp_tw_pcbs

    ghost predicate Valid()
      reads this
    {
      Axioms(pcbs, listen, bound, active, tw)
    }

    constructor ()
      ensures Valid() && pcbs == map[]
    {
      pcbs, listen, bound, active, tw := map[], [], [], [], [];
    }

    /** tcp_new() */
    method New(p: Ptr)
      requires Valid() && p !in pcbs
      modifies this
      ensures Valid() && pcbs == old(pcbs)[p := Pcb(CLOSED, 0)]
      ensures listen == old(listen) && bound == old(bound) && active == old(active) && tw == old(tw)
    {
      hide Axioms;
      NewKeeps(pcbs, listen, bound, active, tw, p, Pcb(CLOSED, 0));
      pcbs := pcbs[p := Pcb(CLOSED, 0)];
    }

    /** tcp_bind(); newPort is the answer of tcp_new_port(). It does not check whether the PCB is bound
        already: the axioms are kept exactly if it fails or the PCB is not. */
    method Bind(p: Ptr, port0: u16, newPort: u16) returns (err: Err)
      requires Valid() && p in pcbs
      modifies this
      ensures Valid() <==> err != ErrOk || p !in old(bound)
      ensures err == ErrOk <==> old(pcbs)[p].state.CLOSED? && (port0 != 0 || newPort != 0)
      ensures err == ErrOk ==> bound == [p] + old(bound) && pcbs == old(pcbs)[p := Pcb(CLOSED, if port0 == 0 then newPort else port0)]
      ensures err != ErrOk ==> pcbs == old(pcbs) && bound == old(bound)
      ensures listen == old(listen) && active == old(active) && tw == old(tw)
    {
      hide Axioms;
      if !pcbs[p].state.CLOSED? { return ErrVal; }
      var port := port0;
      if port == 0 {
        port := newPort;
        if port == 0 { return ErrBuf; }
      }
      BindOnce(pcbs, listen, bound, active, tw, p, port);
      pcbs := pcbs[p := pcbs[p].(localPort := port)];
      bound := [p] + bound;
      err := ErrOk;
    }

    /** tcp_listen_with_backlog(): lpcb is the new block, if there is memory for it; p is freed. */
    method Listen(p: Ptr, lpcb: Option<Ptr>) returns (ok: bool)
      requires Valid() && p in pcbs && (lpcb.Some? ==> lpcb.value !in pcbs)
      modifies this
      ensures Valid()
      ensures ok <==> old(pcbs)[p].state.CLOSED? && lpcb.Some?
      ensures ok ==> pcbs == (old(pcbs) - {p})[lpcb.value := Pcb(LISTEN, old(pcbs)[p].localPort)]
      ensures ok ==> listen == [lpcb.value] + old(listen) && bound == Without(old(bound), p) && p !in bound
      ensures !ok ==> pcbs == old(pcbs) && bound == old(bound) && listen == old(listen)
      ensures active == old(active) && tw == old(tw)
    {
      if !pcbs[p].state.CLOSED? || lpcb.None? { return false; }
      hide Axioms;
      var port := pcbs[p].localPort;
      FreeKeeps(pcbs, listen, bound, active, tw, p);
      ClosedKeeps(pcbs, listen, bound, active, tw, p, port);
      if port != 0 {
        bound := TcpRmv(bound, p);
      } else {
        WithoutNone(bound, p);
      }
      pcbs := pcbs - {p};
      NewKeeps(pcbs, listen, bound, active, tw, lpcb.value, Pcb(LISTEN, port));
      pcbs := pcbs[lpcb.value := Pcb(LISTEN, port)];
      listen := [lpcb.value] + listen;
      ok := true;
    }

    /** tcp_connect(): syn says whether tcp_enqueue_flags() finds memory for the SYN. */
    method Connect(p: Ptr, newPort: u16, syn: bool) returns (err: Err)
      requires Valid() && p in pcbs
      modifies this
      ensures Valid()
      ensures err == ErrOk <==> old(pcbs)[p].state.CLOSED? && (old(pcbs)[p].localPort != 0 || newPort != 0) && syn
      ensures var b := old(pcbs)[p];
              pcbs == if !b.state.CLOSED? then old(pcbs)
                      else old(pcbs)[p := Pcb(if err == ErrOk then SYN_SENT else CLOSED, if b.localPort == 0 then newPort else b.localPort)]
      ensures err == ErrOk ==> active == [p] + old(active) && bound == Without(old(bound), p) && p !in bound
      ensures err != ErrOk ==> active == old(active) && bound == old(bound)
      ensures listen == old(listen) && tw == old(tw)
    {
      hide Axioms;
      if !pcbs[p].state.CLOSED? { return ErrIsConn; }
      var oldLocalPort := pcbs[p].localPort;
      ClosedKeeps(pcbs, listen, bound, active, tw, p, if oldLocalPort == 0 then newPort else oldLocalPort);
      if oldLocalPort == 0 {
        WithoutNone(bound, p);
        pcbs := pcbs[p := pcbs[p].(localPort := newPort)];
        if newPort == 0 { return ErrBuf; }
      }
      assert pcbs == old(pcbs)[p := Pcb(CLOSED, if oldLocalPort == 0 then newPort else oldLocalPort)];
      if !syn { return ErrMem; }
      pcbs := pcbs[p := pcbs[p].(state := SYN_SENT)];
      assert pcbs == old(pcbs)[p := Pcb(SYN_SENT, if oldLocalPort == 0 then newPort else oldLocalPort)];
      if oldLocalPort != 0 {
        bound := TcpRmv(bound, p);
      }
      active := [p] + active;
      err := ErrOk;
    }

    /** tcp_listen_input(): a SYN creates an active PCB, if there is memory for it; synAck says whether
        tcp_enqueue_flags() finds memory for the SYN|ACK, otherwise the new PCB is abandoned. */
    method ListenInput(lpcb: Ptr, npcb: Option<Ptr>, synAck: bool)
      requires Valid() && lpcb in pcbs && (npcb.Some? ==> npcb.value !in pcbs)
      modifies this
      ensures Valid()
      ensures npcb.Some? && synAck ==>
                active == [npcb.value] + old(active) && pcbs == old(pcbs)[npcb.value := Pcb(SYN_RCVD, old(pcbs)[lpcb].localPort)]
      ensures npcb.None? || !synAck ==> pcbs == old(pcbs) && active == old(active)
      ensures listen == old(listen) && bound == old(bound) && tw == old(tw)
    {
      hide Axioms;
      if npcb.Some? {
        NewKeeps(pcbs, listen, bound, active, tw, npcb.value, Pcb(SYN_RCVD, pcbs[lpcb].localPort));
        pcbs := pcbs[npcb.value := Pcb(SYN_RCVD, pcbs[lpcb].localPort)];
        active := [npcb.value] + active;
        if !synAck {
          Abandon(npcb.value);
          FirstOut(npcb.value, old(active));
          assert pcbs == old(pcbs);
        }
      }
    }

    /** tcp_input() for the active PCB p: it moves to the front of its list; next is the state
        tcp_process() leaves it in, CLOSED if it is to be freed. */
    method Input(p: Ptr, next: PcbState)
      requires Valid() && p in active && !next.LISTEN?
      modifies this
      ensures Valid() && p in old(pcbs)
      ensures pcbs == if next.CLOSED? then old(pcbs) - {p} else old(pcbs)[p := old(pcbs)[p].(state := next)]
      ensures active == (if ActiveState(next) then [p] else []) + Without(old(active), p)
      ensures tw == (if next.TIME_WAIT? then [p] else []) + old(tw)
      ensures listen == old(listen) && bound == old(bound)
    {
      hide Axioms, Without;
      AxiomsMean(pcbs, listen, bound, active, tw, p);
      FrontKeeps(pcbs, listen, bound, active, tw, p);
      var rest := TcpRmv(active, p);
      active := [p] + rest;
      ActiveKeeps(pcbs, listen, bound, active, tw, p, next);
      FreeKeeps(pcbs, listen, bound, active, tw, p);
      FirstOut(p, rest);
      NoneAdded(rest, tw);
      if ActiveState(next) {
        pcbs := pcbs[p := pcbs[p].(state := next)];
      } else {
        active := TcpRmv(active, p);
        if next.TIME_WAIT? {
          pcbs := pcbs[p := pcbs[p].(state := TIME_WAIT)];
          tw := [p] + tw;
        } else {
          pcbs := pcbs - {p};
        }
      }
    }

    /** tcp_close(): unread says that received data has not been consumed, finOk whether
        tcp_send_fin() succeeds. */
    method Close(p: Ptr, unread: bool, finOk: bool)
      requires Valid() && p in pcbs
      modifies this
      ensures Valid()
      ensures var b := old(pcbs)[p];
              pcbs == if b.state.CLOSED? || b.state.LISTEN? || b.state.SYN_SENT? || (b.state.CLOSE_WAIT? && unread) then old(pcbs) - {p}
                      else if b.state.ESTABLISHED? && unread then old(pcbs)[p := b.(state := TIME_WAIT)]
                      else if (b.state.SYN_RCVD? || b.state.ESTABLISHED?) && finOk then old(pcbs)[p := b.(state := FIN_WAIT_1)]
                      else if b.state.CLOSE_WAIT? && finOk then old(pcbs)[p := b.(state := LAST_ACK)]
                      else old(pcbs)
      ensures var s := old(pcbs)[p].state;
              var reset := unread && (s.ESTABLISHED? || s.CLOSE_WAIT?);
              && listen == (if s.LISTEN? then Without(old(listen), p) else old(listen))
              && bound == (if s.CLOSED? && old(pcbs)[p].localPort != 0 then Without(old(bound), p) else old(bound))
              && active == (if reset || s.SYN_SENT? then Without(old(active), p) else old(active))
              && tw == (if reset && s.ESTABLISHED? then [p] + old(tw) else old(tw))
    {
      hide Axioms, Without;
      if (pcbs[p].state.ESTABLISHED? || pcbs[p].state.CLOSE_WAIT?) && unread {
        ResetUnread(p);
      } else {
        CloseRest(p, unread, finOk);
      }
    }

    /** Data was not received: after the RST the PCB waits or is freed. */
    method ResetUnread(p: Ptr)
      requires Valid() && p in pcbs && (pcbs[p].state.ESTABLISHED? || pcbs[p].state.CLOSE_WAIT?)
      modifies this
      ensures Valid()
      ensures pcbs == if old(pcbs)[p].state.ESTABLISHED? then old(pcbs)[p := old(pcbs)[p].(state := TIME_WAIT)] else old(pcbs) - {p}
      ensures active == Without(old(active), p) && tw == (if old(pcbs)[p].state.ESTABLISHED? then [p] + old(tw) else old(tw))
      ensures listen == old(listen) && bound == old(bound)
    {
      hide Axioms, Without;
      FreeKeeps(pcbs, listen, bound, active, tw, p);
      ActiveKeeps(pcbs, listen, bound, active, tw, p, TIME_WAIT);
      active := TcpRmv(active, p);
      if pcbs[p].state.ESTABLISHED? {
        pcbs := pcbs[p := pcbs[p].(state := TIME_WAIT)];
        tw := [p] + tw;
      } else {
        pcbs := pcbs - {p};
      }
    }

    /** The switch of tcp_close_shutdown(). */
    method CloseRest(p: Ptr, unread: bool, finOk: bool)
      requires Valid() && p in pcbs && !(unread && (pcbs[p].state.ESTABLISHED? || pcbs[p].state.CLOSE_WAIT?))
      modifies this
      ensures Valid()
      ensures pcbs == if CloseFrees(old(pcbs)[p].state, unread) then old(pcbs) - {p}
                      else old(pcbs)[p := old(pcbs)[p].(state := CloseState(old(pcbs)[p].state, unread, finOk))]
      ensures var s := old(pcbs)[p].state;
              && listen == (if s.LISTEN? then Without(old(listen), p) else old(listen))
              && bound == (if s.CLOSED? && old(pcbs)[p].localPort != 0 then Without(old(bound), p) else old(bound))
              && active == (if s.SYN_SENT? then Without(old(active), p) else old(active))
              && tw == old(tw)
    {
      hide Axioms, Without;
      match pcbs[p].state
      case SYN_RCVD => if finOk { EnterActive(p, FIN_WAIT_1); }
      case ESTABLISHED => if finOk { EnterActive(p, FIN_WAIT_1); }
      case CLOSE_WAIT => if finOk { EnterActive(p, LAST_ACK); }
      case _ => CloseUnconnected(p);
    }

    /** The states without a connection: the PCB leaves its list and is freed. */
    method CloseUnconnected(p: Ptr)
      requires Valid() && p in pcbs
      requires var s := pcbs[p].state; !s.SYN_RCVD? && !s.ESTABLISHED? && !s.CLOSE_WAIT?
      modifies this
      ensures Valid()
      ensures var s := old(pcbs)[p].state;
              && pcbs == (if s.CLOSED? || s.LISTEN? || s.SYN_SENT? then old(pcbs) - {p} else old(pcbs))
              && listen == (if s.LISTEN? then Without(old(listen), p) else old(listen))
              && bound == (if s.CLOSED? && old(pcbs)[p].localPort != 0 then Without(old(bound), p) else old(bound))
              && active == (if s.SYN_SENT? then Without(old(active), p) else old(active))
              && tw == old(tw)
    {
      hide Axioms, Without;
      FreeKeeps(pcbs, listen, bound, active, tw, p);
      match pcbs[p].state
      case CLOSED =>
        if pcbs[p].localPort != 0 {
          bound := TcpRmv(bound, p);
        }
        pcbs := pcbs - {p};
      case LISTEN =>
        listen := TcpRmv(listen, p);
        pcbs := pcbs - {p};
      case SYN_SENT =>
        active := TcpRmv(active, p);
        pcbs := pcbs - {p};
      case _ =>
    }

    method EnterActive(p: Ptr, s: PcbState)
      requires Valid() && p in pcbs && ActiveState(pcbs[p].state) && ActiveState(s)
      modifies this`pcbs
      ensures Valid() && pcbs == old(pcbs)[p := old(pcbs)[p].(state := s)]
    {
      hide Axioms;
      ActiveKeeps(pcbs, listen, bound, active, tw, p, s);
      pcbs := pcbs[p := pcbs[p].(state := s)];
    }

    /** tcp_abandon(): the PCB is taken off whatever list it is on and freed. */
    method Abandon(p: Ptr)
      requires Valid() && p in pcbs && !pcbs[p].state.LISTEN?
      modifies this
      ensures Valid() && pcbs == old(pcbs) - {p}
      ensures var s := old(pcbs)[p].state;
              && listen == old(listen)
              && bound == (if s.CLOSED? && old(pcbs)[p].localPort != 0 then Without(old(bound), p) else old(bound))
              && active == (if ActiveState(s) then Without(old(active), p) else old(active))
              && tw == (if s.TIME_WAIT? then Without(old(tw), p) else old(tw))
    {
      hide Axioms, Without;
      FreeKeeps(pcbs, listen, bound, active, tw, p);
      if pcbs[p].state.TIME_WAIT? {
        tw := TcpRmv(tw, p);
      } else if pcbs[p].state.CLOSED? && pcbs[p].localPort != 0 {
        bound := TcpRmv(bound, p);
      } else {
        active := TcpRmv(active, p);
      }
      pcbs := pcbs - {p};
    }

    /** tcp_slowtmr() removes a PCB that has timed out from the active or the time-wait list. */
    method TimerRemove(p: Ptr)
      requires Valid() && (p in active || p in tw)
      modifies this
      ensures Valid() && p in old(pcbs) && pcbs == old(pcbs) - {p}
      ensures active == (if old(pcbs)[p].state.TIME_WAIT? then old(active) else Without(old(active), p))
      ensures tw == (if old(pcbs)[p].state.TIME_WAIT? then Without(old(tw), p) else old(tw))
      ensures listen == old(listen) && bound == old(bound)
    {
      hide Axioms, Without;
      AxiomsMean(pcbs, listen, bound, active, tw, p);
      FreeKeeps(pcbs, listen, bound, active, tw, p);
      if pcbs[p].state.TIME_WAIT? {
        tw := TcpRmv(tw, p);
      } else {
        active := TcpRmv(active, p);
      }
      pcbs := pcbs - {p};
    }
  }

  /** Whether tcp_close() frees the PCB at once. */
  predicate CloseFrees(s: PcbState, unread: bool) { s.CLOSED? || s.LISTEN? || s.SYN_SENT? || (s.CLOSE_WAIT? && unread) }

  /** The state tcp_close() leaves a PCB in that it does not free. */
  function CloseState(s: PcbState, unread: bool, finOk: bool): PcbState {
    if s.ESTABLISHED? && unread then TIME_WAIT
    else if (s.SYN_RCVD? || s.ESTABLISHED?) && finOk then FIN_WAIT_1
    else if s.CLOSE_WAIT? && finOk then LAST_ACK
    else s
  }

  /** tcp_bind() does not check whether the PCB is bound already: registering it keeps the axioms if
      and only if it is not on the list of bound PCBs. */
  lemma BindOnce(pcbs: map<Ptr, Pcb>, listen: seq<Ptr>, bound: seq<Ptr>, active: seq<Ptr>, tw: seq<Ptr>, p: Ptr, port: u16)
    requires Axioms(pcbs, listen, bound, active, tw) && p in pcbs && pcbs[p].state.CLOSED? && port != 0
    ensures Axioms(pcbs[p := Pcb(CLOSED, port)], listen, [p] + bound, active, tw) <==> p !in bound
  {
    var pcbs' := pcbs[p := Pcb(CLOSED, port)];
    assert multiset([p] + bound)[p] == 1 + multiset(bound)[p];
    assert p in bound <==> p in multiset(bound);
    assert AxiomsAt(pcbs, listen, bound, active, tw, p);
    assert AxiomsAt(pcbs', listen, [p] + bound, active, tw, p) <==> p !in bound;
    forall q: Ptr | q != p ensures AxiomsAt(pcbs', listen, [p] + bound, active, tw, q) {
      assert AxiomsAt(pcbs, listen, bound, active, tw, q);
    }
  }
}
