/** tcp_new_port(): the cyclic search for a free dynamic port. */
module PortAllocation {
  import opened SequenceNumbers

  const TCP_LOCAL_PORT_RANGE_START: u16 := 0xc000
  const TCP_LOCAL_PORT_RANGE_END: u16 := 0xffff
  const RANGE := 0x4000

  predicate Dynamic(p: int) { TCP_LOCAL_PORT_RANGE_START <= p <= TCP_LOCAL_PORT_RANGE_END }

  /** The local ports of the PCBs on the listening, bound, active and time-wait lists. */
  ghost predicate InUse(lists: seq<seq<u16>>, p: u16) { exists i :: 0 <= i < |lists| && p in lists[i] }

  /** The k-th port of the search that starts behind s. */
  function Nth(s: u16, k: nat): u16
    requires Dynamic(s)
  {
    TCP_LOCAL_PORT_RANGE_START + (s - TCP_LOCAL_PORT_RANGE_START + k) % RANGE
  }

  /** Incrementing the 16-bit variable, and the way back to the start of the range. */
  lemma NthNext(s: u16, k: nat)
    requires Dynamic(s)
    ensures Nth(s, 0) == s
    ensures Nth(s, k + 1) == if Nth(s, k) == TCP_LOCAL_PORT_RANGE_END then TCP_LOCAL_PORT_RANGE_START else Nth(s, k) + 1
  {
    var x := s - TCP_LOCAL_PORT_RANGE_START + k;
    assert x + 1 == (x / RANGE) * RANGE + (x % RANGE + 1);
  }

  /** RANGE steps visit every dynamic port. */
  lemma Visited(s: u16, p: u16) returns (k: nat)
    requires Dynamic(s) && Dynamic(p)
    ensures 1 <= k <= RANGE && Nth(s, k) == p
  {
    k := if p > s then p - s else p - s + RANGE;
    var x := s - TCP_LOCAL_PORT_RANGE_START + k;
    assert x == p - TCP_LOCAL_PORT_RANGE_START || x == p - TCP_LOCAL_PORT_RANGE_START + RANGE;
  }

  class PortAllocator {
    var tcpPort: u16

    constructor ()
      ensures tcpPort == TCP_LOCAL_PORT_RANGE_START
    {
      tcpPort := TCP_LOCAL_PORT_RANGE_START;
    }

    /** The scan over all lists: is the port taken? */
    method Taken(lists: seq<seq<u16>>, p: u16) returns (taken: bool)
      ensures taken <==> InUse(lists, p)
    {
      var i := 0;
      while i < |lists|
        invariant 0 <= i <= |lists|
        invariant forall a :: 0 <= a < i ==> p !in lists[a]
      {
        var j := 0;
        while j < |lists[i]|
          invariant 0 <= j <= |lists[i]|
          invariant forall b :: 0 <= b < j ==> lists[i][b] != p
        {
          if lists[i][j] == p { return true; }
          j := j + 1;
        }
        i := i + 1;
      }
      return false;
    }

    /** tcp_new_port(): the first free port behind the last one handed out, cyclically; 0 exactly if
        all 0x4000 dynamic ports are taken. */
    method TcpNewPort(lists: seq<seq<u16>>) returns (port: u16)
      requires Dynamic(tcpPort)
      modifies this
      ensures Dynamic(tcpPort)
      ensures port == 0 <==> forall p: u16 :: Dynamic(p) ==> InUse(lists, p)
      ensures port != 0 ==> port == tcpPort && !InUse(lists, port)
      ensures port != 0 ==>
                exists k: nat :: 1 <= k <= RANGE && port == Nth(old(tcpPort), k) &&
                                 forall j: nat :: 1 <= j < k ==> InUse(lists, Nth(old(tcpPort), j))
    {
      ghost var s, k: nat := tcpPort, 0;
      var n: u16 := 0;
      NthNext(s, 0);
      while true
        invariant Dynamic(s) && Dynamic(tcpPort) && tcpPort == Nth(s, k) && n == k < RANGE
        invariant forall j: nat :: 1 <= j <= k ==> InUse(lists, Nth(s, j))
        decreases RANGE - k
      {
        NthNext(s, k);
        k := k + 1;
        if tcpPort == TCP_LOCAL_PORT_RANGE_END {
          tcpPort := TCP_LOCAL_PORT_RANGE_START;
        } else {
          tcpPort := tcpPort + 1;
        }
        var taken := Taken(lists, tcpPort);
        if !taken { return tcpPort; }
        n := n + 1;
        if n > TCP_LOCAL_PORT_RANGE_END - TCP_LOCAL_PORT_RANGE_START {
          forall p: u16 | Dynamic(p) ensures InUse(lists, p) {
            var j := Visited(s, p);
          }
          return 0;
        }
      }
    }
  }
}
