/** The blocking mailbox. */
module Mailbox {
  // src/sys_arch.c in the NO_SYS==0 build.
  // An interleaving of any number of threads over a ring buffer, a mutex, and two semaphores that
  // saturate at 1. Each step of a thread is one semaphore operation or one access to the shared fields.

  const SYS_MBOX_SIZE := 128

  datatype Op<T> = Post(msg: T) | TryPost(msg: T) | Fetch | TryFetch

  /** Where a thread stands, named by what it does next. */
  datatype Pc<T> =
    | Idle
    // sys_mbox_post()
    | Lock(msg: T)       // sys_arch_sem_wait(mutex)
    | Check(msg: T)      // the loop test, and putting the message
    | Release(msg: T)    // wait_send counted; sys_sem_signal(mutex)
    | Block(msg: T)      // sys_arch_sem_wait(not_full)
    | Relock(msg: T)     // sys_arch_sem_wait(mutex)
    | Uncount(msg: T)    // wait_send--
    // sys_mbox_trypost()
    | TryLock(msg: T)
    | TryCheck(msg: T)
    | Posted(first: bool) // if (first) sys_sem_signal(not_empty)
    // sys_arch_mbox_fetch()
    | FetchLock
    | FetchCheck
    | FetchRelease       // found it empty; sys_sem_signal(mutex)
    | FetchBlock         // sys_arch_sem_wait(not_empty, timeout)
    | FetchRelock
    // sys_arch_mbox_tryfetch()
    | TryFetchLock
    | TryFetchCheck
    | Taken              // if (wait_send) sys_sem_signal(not_full)
    | Unlock             // sys_sem_signal(mutex) and return

  /** The ring buffer, with the history of everything put into it and taken out of it, in order. */
  datatype Ring<T> = Ring(first: nat, last: nat, msgs: seq<T>, posted: seq<T>, fetched: seq<T>) {
    predicate Empty() { first == last }

    predicate Full() { last + 1 >= first + SYS_MBOX_SIZE }

    function Put(m: T): Ring<T>
      requires |msgs| == SYS_MBOX_SIZE
    {
      Ring(first, last + 1, msgs[last % SYS_MBOX_SIZE := m], posted + [m], fetched)
    }

    function Take(): Ring<T>
      requires |msgs| == SYS_MBOX_SIZE
    {
      Ring(first + 1, last, msgs, posted, fetched + [msgs[first % SYS_MBOX_SIZE]])
    }
  }

  /** The counts of the three semaphores, wait_send, and one position per thread. */
  datatype Mbox<T> = Mbox(ring: Ring<T>, notEmpty: nat, notFull: nat, mutex: nat, waitSend: int, pcs: seq<Pc<T>>) {
    function At(i: nat, pc: Pc<T>): Mbox<T>
      requires i < |pcs|
    {
      this.(pcs := pcs[i := pc])
    }
  }

  /** What the scheduler chooses: the thread, the operation an idle thread starts, and whether a
      waiting fetch times out. */
  datatype Choice<T> = Choice(thread: nat, op: Op<T>, timeout: bool)

  // ---------- The steps ----------

  function Start<T>(op: Op<T>): Pc<T> {
    match op
    case Post(m) => Lock(m)
    case TryPost(m) => TryLock(m)
    case Fetch => FetchLock
    case TryFetch => TryFetchLock
  }

  /** sys_arch_sem_wait(mutex): the thread goes on to pc, or stays. */
  function Acquire<T>(s: Mbox<T>, i: nat, pc: Pc<T>): Mbox<T>
    requires i < |s.pcs|
  {
    if s.mutex > 0 then s.At(i, pc).(mutex := s.mutex - 1) else s
  }

  /** sys_sem_signal(mutex) */
  function Give<T>(s: Mbox<T>, i: nat, pc: Pc<T>): Mbox<T>
    requires i < |s.pcs|
  {
    s.At(i, pc).(mutex := 1)
  }

  function PutBy<T>(s: Mbox<T>, i: nat, m: T): Mbox<T>
    requires i < |s.pcs| && |s.ring.msgs| == SYS_MBOX_SIZE
  {
    s.At(i, Posted(s.ring.Empty())).(ring := s.ring.Put(m))
  }

  function TakeBy<T>(s: Mbox<T>, i: nat): Mbox<T>
    requires i < |s.pcs| && |s.ring.msgs| == SYS_MBOX_SIZE
  {
    s.At(i, Taken).(ring := s.ring.Take())
  }

  /** One step of one thread; a thread that has to wait stays where it is. */
  function Step<T>(s: Mbox<T>, c: Choice<T>): Mbox<T>
    requires |s.ring.msgs| == SYS_MBOX_SIZE
  {
    var i := c.thread;
    if i >= |s.pcs| then s
    else
      match s.pcs[i]
      case Idle => s.At(i, Start(c.op))
      case Lock(m) => Acquire(s, i, Check(m))
      case Check(m) => if s.ring.Full() then s.At(i, Release(m)).(waitSend := s.waitSend + 1) else PutBy(s, i, m)
      case Release(m) => Give(s, i, Block(m))
      case Block(m) => if s.notFull > 0 then s.At(i, Relock(m)).(notFull := s.notFull - 1) else s
      case Relock(m) => Acquire(s, i, Uncount(m))
      case Uncount(m) => s.At(i, Check(m)).(waitSend := s.waitSend - 1)
      case TryLock(m) => Acquire(s, i, TryCheck(m))
      case TryCheck(m) => if s.ring.Full() then s.At(i, Unlock) else PutBy(s, i, m)
      case Posted(first) => s.At(i, Unlock).(notEmpty := if first then 1 else s.notEmpty)
      case FetchLock => Acquire(s, i, FetchCheck)
      case FetchCheck => if s.ring.Empty() then s.At(i, FetchRelease) else TakeBy(s, i)
      case FetchRelease => Give(s, i, FetchBlock)
      case FetchBlock =>
        if c.timeout then s.At(i, Idle)
        else if s.notEmpty > 0 then s.At(i, FetchRelock).(notEmpty := s.notEmpty - 1)
        else s
      case FetchRelock => Acquire(s, i, FetchCheck)
      case TryFetchLock => Acquire(s, i, TryFetchCheck)
      case TryFetchCheck => if s.ring.Empty() then s.At(i, Unlock) else TakeBy(s, i)
      case Taken => s.At(i, Unlock).(notFull := if s.waitSend != 0 then 1 else s.notFull)
      case Unlock => Give(s, i, Idle)
  }

  // ---------- Counting threads ----------

  datatype Kind = Holders | Waiters | Rescuers

  predicate Is<T>(k: Kind, pc: Pc<T>) {
    match k
    // between sys_arch_sem_wait(mutex) and sys_sem_signal(mutex)
    case Holders =>
      || pc.Check? || pc.Release? || pc.Uncount? || pc.TryCheck? || pc.Posted? || pc.FetchCheck? || pc.FetchRelease?
      || pc.TryFetchCheck? || pc.Taken? || pc.Unlock?
    // counted in wait_send
    case Waiters => pc.Release? || pc.Block? || pc.Relock? || pc.Uncount?
    // about to look at the ring again, or to signal not_full
    case Rescuers => pc.Relock? || pc.Uncount? || pc.Check? || pc.Taken?
  }

  ghost function Count<T>(pcs: seq<Pc<T>>, k: Kind): nat
    decreases |pcs|
  {
    if pcs == [] then 0 else (if Is(k, pcs[0]) then 1 else 0) + Count(pcs[1..], k)
  }

  lemma {:induction false} CountMoved<T>(pcs: seq<Pc<T>>, i: nat, pc: Pc<T>, k: Kind)
    requires i < |pcs|
    ensures Count(pcs[i := pc], k) == Count(pcs, k) - (if Is(k, pcs[i]) then 1 else 0) + (if Is(k, pc) then 1 else 0)
    decreases i
  {
    if i == 0 {
      assert pcs[0 := pc][1..] == pcs[1..];
    } else {
      assert pcs[i := pc][1..] == pcs[1..][i - 1 := pc];
      CountMoved(pcs[1..], i - 1, pc, k);
    }
  }

  lemma {:induction false} CountAtLeast<T>(pcs: seq<Pc<T>>, i: nat, k: Kind)
    requires i < |pcs| && Is(k, pcs[i])
    ensures Count(pcs, k) >= 1
    decreases i
  {
    if i > 0 { CountAtLeast(pcs[1..], i - 1, k); }
  }

  lemma {:induction false} CountTwo<T>(pcs: seq<Pc<T>>, i: nat, j: nat, k: Kind)
    requires i < j < |pcs| && Is(k, pcs[i]) && Is(k, pcs[j])
    ensures Count(pcs, k) >= 2
    decreases i
  {
    if i == 0 { CountAtLeast(pcs[1..], j - 1, k); } else { CountTwo(pcs[1..], i - 1, j - 1, k); }
  }

  // ---------- The ring ----------

  /** The messages between first and last, oldest first. */
  ghost function Contents<T>(msgs: seq<T>, first: nat, last: nat): seq<T>
    requires |msgs| == SYS_MBOX_SIZE && first <= last
    decreases last - first
  {
    if first == last then [] else [msgs[first % SYS_MBOX_SIZE]] + Contents(msgs, first + 1, last)
  }

  /** Fewer than SYS_MBOX_SIZE messages never share a slot. */
  lemma SlotsDiffer(a: nat, b: nat)
    requires a < b < a + SYS_MBOX_SIZE
    ensures a % SYS_MBOX_SIZE != b % SYS_MBOX_SIZE
  {
    var q := b / SYS_MBOX_SIZE - a / SYS_MBOX_SIZE;
    assert b - a == q * SYS_MBOX_SIZE + (b % SYS_MBOX_SIZE - a % SYS_MBOX_SIZE);
  }

  lemma {:induction false} ContentsPut<T>(msgs: seq<T>, first: nat, last: nat, m: T)
    requires |msgs| == SYS_MBOX_SIZE && first <= last < first + SYS_MBOX_SIZE
    ensures Contents(msgs[last % SYS_MBOX_SIZE := m], first, last + 1) == Contents(msgs, first, last) + [m]
    decreases last - first
  {
    var msgs' := msgs[last % SYS_MBOX_SIZE := m];
    if first == last {
      assert Contents(msgs', first + 1, last + 1) == [];
    } else {
      SlotsDiffer(first, last);
      ContentsPut(msgs, first + 1, last, m);
    }
  }

  // ---------- The invariant ----------

  predicate Fetching<T>(pc: Pc<T>) {
    pc.FetchLock? || pc.FetchCheck? || pc.FetchRelease? || pc.FetchBlock? || pc.FetchRelock?
  }

  predicate SemaphoresOk<T>(s: Mbox<T>) { s.notEmpty <= 1 && s.notFull <= 1 && s.mutex <= 1 }

  /** The ring holds at most 127 messages, and they are the posted ones not yet fetched, in order. */
  ghost predicate RingOk<T>(r: Ring<T>) {
    && |r.msgs| == SYS_MBOX_SIZE && r.first <= r.last <= r.first + SYS_MBOX_SIZE - 1
    && r.posted == r.fetched + Contents(r.msgs, r.first, r.last)
  }

  /** Posters are not forgotten: when the ring is empty and some are counted as waiting, not_full is
      signalled or some thread is about to post or to signal it. */
  ghost predicate PostersOk<T>(s: Mbox<T>) {
    s.ring.Empty() && Count(s.pcs, Waiters) > 0 ==> s.notFull == 1 || Count(s.pcs, Rescuers) > 0
  }

  /** Somebody has just put a message into the empty ring and is about to signal not_empty. */
  ghost predicate SignalComing<T>(s: Mbox<T>) {
    exists j :: 0 <= j < |s.pcs| && s.pcs[j] == Posted(true)
  }

  /** The fetcher is not forgotten: while it goes to sleep or sleeps over a ring that is not empty,
      not_empty is signalled or about to be. */
  ghost predicate FetcherOk<T>(s: Mbox<T>, fetcher: nat) {
    && (forall j :: 0 <= j < |s.pcs| && Fetching(s.pcs[j]) ==> j == fetcher)
    && (fetcher < |s.pcs| && s.pcs[fetcher].FetchRelease? ==> s.ring.Empty())
    && (fetcher < |s.pcs| && s.pcs[fetcher].FetchBlock? && !s.ring.Empty() ==> s.notEmpty == 1 || SignalComing(s))
  }

  ghost predicate Inv<T>(s: Mbox<T>, fetcher: nat) {
    && SemaphoresOk(s) && RingOk(s.ring)
    && s.mutex + Count(s.pcs, Holders) == 1
    && s.waitSend == Count(s.pcs, Waiters)
    && PostersOk(s) && FetcherOk(s, fetcher)
  }

  /** sys_mbox_new(), with n threads. */
  ghost predicate Init<T>(s: Mbox<T>) {
    && s.ring.first == s.ring.last == 0 && |s.ring.msgs| == SYS_MBOX_SIZE
    && s.notEmpty == s.notFull == 0 && s.mutex == 1 && s.waitSend == 0
    && (forall j :: 0 <= j < |s.pcs| ==> s.pcs[j] == Idle)
    && s.ring.posted == [] && s.ring.fetched == []
  }

  lemma InitInv<T>(s: Mbox<T>, fetcher: nat)
    requires Init(s)
    ensures Inv(s, fetcher)
  {
    NoMembers(s.pcs, Holders);
    NoMembers(s.pcs, Waiters);
  }

  /** Mutual exclusion. */
  lemma OneHolder<T>(s: Mbox<T>, fetcher: nat, i: nat, j: nat)
    requires Inv(s, fetcher) && i < |s.pcs| && j < |s.pcs| && i != j
    ensures !(Is(Holders, s.pcs[i]) && Is(Holders, s.pcs[j]))
    ensures Is(Holders, s.pcs[i]) ==> s.mutex == 0
  {
    if Is(Holders, s.pcs[i]) {
      CountAtLeast(s.pcs, i, Holders);
      if Is(Holders, s.pcs[j]) {
        if i < j { CountTwo(s.pcs, i, j, Holders); } else { CountTwo(s.pcs, j, i, Holders); }
      }
    }
  }

  /** Only the fetcher calls sys_arch_mbox_fetch(); any thread may post, trypost and tryfetch. */
  predicate Allowed<T>(c: Choice<T>, fetcher: nat) { c.op.Fetch? ==> c.thread == fetcher }

  // ---------- Every step keeps the invariant ----------

  lemma StepSize<T>(s: Mbox<T>, c: Choice<T>)
    requires |s.ring.msgs| == SYS_MBOX_SIZE
    ensures |Step(s, c).ring.msgs| == SYS_MBOX_SIZE && |Step(s, c).pcs| == |s.pcs|
  {}

  /** A step moves one thread. */
  lemma StepMoves<T>(s: Mbox<T>, c: Choice<T>)
    requires |s.ring.msgs| == SYS_MBOX_SIZE && c.thread < |s.pcs|
    ensures var r := Step(s, c);
            |r.pcs| == |s.pcs| && r.pcs == s.pcs[c.thread := r.pcs[c.thread]]
  {}

  lemma StepMutex<T>(s: Mbox<T>, c: Choice<T>, fetcher: nat)
    requires Inv(s, fetcher)
    ensures Step(s, c).mutex + Count(Step(s, c).pcs, Holders) == 1
  {
    var i := c.thread;
    if i < |s.pcs| {
      hide Step, Is, Count;
      if Is(Holders, s.pcs[i]) { CountAtLeast(s.pcs, i, Holders); }
      StepMoves(s, c);
      StepCountsHolder(s, c);
      CountMoved(s.pcs, i, Step(s, c).pcs[i], Holders);
    }
  }

  /** The mutex and the thread that moves: whoever holds the mutex was let in by it, and gives it back. */
  lemma StepCountsHolder<T>(s: Mbox<T>, c: Choice<T>)
    requires |s.ring.msgs| == SYS_MBOX_SIZE && c.thread < |s.pcs| == |Step(s, c).pcs|
    requires 0 <= s.mutex <= 1 && (Is(Holders, s.pcs[c.thread]) ==> s.mutex == 0)
    ensures Step(s, c).mutex - s.mutex ==
            (if Is(Holders, s.pcs[c.thread]) then 1 else 0) - (if Is(Holders, Step(s, c).pcs[c.thread]) then 1 else 0)
  {
    hide Ring.Put, Ring.Take, Ring.Full, Ring.Empty;
    match s.pcs[c.thread]
    case Idle =>
    case Lock(m) =>
    case Check(m) =>
    case Relock(m) =>
    case TryLock(m) =>
    case _ =>
  }

  /** wait_send counts the thread that moves if and only if it waits. */
  lemma StepCountsWaiter<T>(s: Mbox<T>, c: Choice<T>)
    requires |s.ring.msgs| == SYS_MBOX_SIZE && c.thread < |s.pcs| == |Step(s, c).pcs|
    ensures Step(s, c).waitSend - s.waitSend ==
            (if Is(Waiters, Step(s, c).pcs[c.thread]) then 1 else 0) - (if Is(Waiters, s.pcs[c.thread]) then 1 else 0)
  {
    hide Ring.Put, Ring.Take, Ring.Full, Ring.Empty;
    match s.pcs[c.thread]
    case Idle =>
    case Check(m) =>
    case Uncount(m) =>
    case Block(m) =>
    case _ =>
  }

  lemma StepWaitSend<T>(s: Mbox<T>, c: Choice<T>, fetcher: nat)
    requires Inv(s, fetcher)
    ensures Step(s, c).waitSend == Count(Step(s, c).pcs, Waiters)
  {
    var i := c.thread;
    if i < |s.pcs| {
      hide Step, Is, Count;
      StepMoves(s, c);
      StepCountsWaiter(s, c);
      CountMoved(s.pcs, i, Step(s, c).pcs[i], Waiters);
    }
  }

  lemma StepSemaphores<T>(s: Mbox<T>, c: Choice<T>)
    requires |s.ring.msgs| == SYS_MBOX_SIZE && SemaphoresOk(s)
    ensures SemaphoresOk(Step(s, c))
  {}

  lemma PutKeeps<T>(r: Ring<T>, m: T)
    requires RingOk(r) && !r.Full()
    ensures RingOk(r.Put(m))
  {
    var held := Contents(r.msgs, r.first, r.last);
    ContentsPut(r.msgs, r.first, r.last, m);
    assert (r.fetched + held) + [m] == r.fetched + (held + [m]);
  }

  lemma TakeKeeps<T>(r: Ring<T>)
    requires RingOk(r) && !r.Empty()
    ensures RingOk(r.Take())
  {
    var held := Contents(r.msgs, r.first, r.last);
    assert r.fetched + held == (r.fetched + [held[0]]) + held[1..];
  }

  lemma StepRing<T>(s: Mbox<T>, c: Choice<T>)
    requires RingOk(s.ring)
    ensures RingOk(Step(s, c).ring)
  {
    if c.thread < |s.pcs| {
      if !s.ring.Empty() { TakeKeeps(s.ring); }
      match s.pcs[c.thread]
      case Check(m) => if !s.ring.Full() { PutKeeps(s.ring, m); }
      case TryCheck(m) => if !s.ring.Full() { PutKeeps(s.ring, m); }
      case _ =>
    }
  }

  lemma StepPosters<T>(s: Mbox<T>, c: Choice<T>, fetcher: nat)
    requires Inv(s, fetcher)
    ensures PostersOk(Step(s, c))
  {
    hide Count, Inv, RingOk, FetcherOk, Step;
    RingSize(s, fetcher);
    if c.thread >= |s.pcs| {
      StepOut(s, c);
    } else {
      InvMeans(s, fetcher);
      StepCounts(s, c, Waiters);
      StepCounts(s, c, Rescuers);
      StepRoom(s, c);
      RingAfter(s, c, fetcher);
    }
  }

  lemma StepOneFetcher<T>(s: Mbox<T>, c: Choice<T>, fetcher: nat, j: nat)
    requires Inv(s, fetcher) && Allowed(c, fetcher) && j < |s.pcs|
    ensures j < |Step(s, c).pcs| && (Fetching(Step(s, c).pcs[j]) ==> j == fetcher)
  {
    if c.thread < |s.pcs| { StepMoves(s, c); }
  }

  /** While the fetcher is about to release the mutex over an empty ring nobody can fill it. */
  lemma StepRelease<T>(s: Mbox<T>, c: Choice<T>, fetcher: nat)
    requires Inv(s, fetcher) && fetcher < |s.pcs| == |Step(s, c).pcs| && Step(s, c).pcs[fetcher].FetchRelease?
    ensures Step(s, c).ring.Empty()
  {
    if c.thread < |s.pcs| && c.thread != fetcher {
      StepMoves(s, c);
      OneHolder(s, fetcher, fetcher, c.thread);
    }
  }

  lemma StepAsleep<T>(s: Mbox<T>, c: Choice<T>, fetcher: nat)
    requires Inv(s, fetcher) && fetcher < |s.pcs| == |Step(s, c).pcs|
    requires Step(s, c).pcs[fetcher].FetchBlock? && !Step(s, c).ring.Empty()
    ensures Step(s, c).notEmpty == 1 || SignalComing(Step(s, c))
  {
    var i, r := c.thread, Step(s, c);
    if i < |s.pcs| {
      StepMoves(s, c);
      if r.pcs[i] == Posted(true) { assert SignalComing(r); }
      if SignalComing(s) && s.pcs[i] != Posted(true) {
        var j :| 0 <= j < |s.pcs| && s.pcs[j] == Posted(true);
        assert r.pcs[j] == Posted(true);
      }
      if i != fetcher { OnlyFetcherSleeps(s, c, fetcher); }
    }
  }

  lemma OnlyFetcherSleeps<T>(s: Mbox<T>, c: Choice<T>, fetcher: nat)
    requires FetcherOk(s, fetcher) && |s.ring.msgs| == SYS_MBOX_SIZE && c.thread < |s.pcs| && c.thread != fetcher
    ensures Step(s, c).notEmpty == s.notEmpty || Step(s, c).notEmpty == 1
    ensures s.pcs[c.thread] == Posted(true) ==> Step(s, c).notEmpty == 1
  {}

  lemma StepFetcher<T>(s: Mbox<T>, c: Choice<T>, fetcher: nat)
    requires Inv(s, fetcher) && Allowed(c, fetcher)
    ensures FetcherOk(Step(s, c), fetcher)
  {
    var r := Step(s, c);
    StepSize(s, c);
    forall j | 0 <= j < |r.pcs| && Fetching(r.pcs[j]) ensures j == fetcher {
      StepOneFetcher(s, c, fetcher, j);
    }
    if fetcher < |r.pcs| {
      if r.pcs[fetcher].FetchRelease? { StepRelease(s, c, fetcher); }
      if r.pcs[fetcher].FetchBlock? && !r.ring.Empty() { StepAsleep(s, c, fetcher); }
    }
  }

  lemma StepKeeps<T>(s: Mbox<T>, c: Choice<T>, fetcher: nat)
    requires Inv(s, fetcher) && Allowed(c, fetcher)
    ensures Inv(Step(s, c), fetcher)
  {
    StepMutex(s, c, fetcher);
    StepWaitSend(s, c, fetcher);
    StepSemaphores(s, c);
    StepRing(s, c);
    StepPosters(s, c, fetcher);
    StepFetcher(s, c, fetcher);
  }

  // ---------- Whole runs ----------

  predicate AllAllowed<T>(cs: seq<Choice<T>>, fetcher: nat)
    decreases |cs|
  {
    cs != [] ==> Allowed(cs[0], fetcher) && AllAllowed(cs[1..], fetcher)
  }

  ghost function Run<T>(s: Mbox<T>, cs: seq<Choice<T>>): Mbox<T>
    requires |s.ring.msgs| == SYS_MBOX_SIZE
    decreases |cs|
  {
    if cs == [] then s
    else
      StepSize(s, cs[0]);
      Run(Step(s, cs[0]), cs[1..])
  }

  lemma {:induction false} RunKeeps<T>(s: Mbox<T>, cs: seq<Choice<T>>, fetcher: nat)
    requires Inv(s, fetcher) && AllAllowed(cs, fetcher)
    ensures Inv(Run(s, cs), fetcher)
    decreases |cs|
  {
    if cs != [] {
      StepKeeps(s, cs[0], fetcher);
      RunKeeps(Step(s, cs[0]), cs[1..], fetcher);
    }
  }

  /** For any number of threads and every interleaving: at most 127 messages are held, what was
      fetched is a prefix of what was posted with the rest still in the ring, in order, and at most
      one thread is inside a critical section. */
  lemma FirstInFirstOut<T>(s: Mbox<T>, cs: seq<Choice<T>>, fetcher: nat, i: nat, j: nat)
    requires Init(s) && AllAllowed(cs, fetcher)
    ensures var r := Run(s, cs);
            && |r.ring.msgs| == SYS_MBOX_SIZE && r.ring.first <= r.ring.last <= r.ring.first + 127
            && r.ring.posted == r.ring.fetched + Contents(r.ring.msgs, r.ring.first, r.ring.last)
            && (i < |r.pcs| && j < |r.pcs| && i != j ==> !(Is(Holders, r.pcs[i]) && Is(Holders, r.pcs[j])))
  {
    InitInv(s, fetcher);
    RunKeeps(s, cs, fetcher);
    var r := Run(s, cs);
    if i < |r.pcs| && j < |r.pcs| && i != j { OneHolder(r, fetcher, i, j); }
  }

  /** A thread that cannot take its next step. */
  predicate Blocked<T>(s: Mbox<T>, pc: Pc<T>) {
    || ((pc.Lock? || pc.Relock? || pc.TryLock? || pc.FetchLock? || pc.FetchRelock? || pc.TryFetchLock?) && s.mutex == 0)
    || (pc.Block? && s.notFull == 0)
    || (pc.FetchBlock? && s.notEmpty == 0)
  }

  /** Nothing moves unless an idle thread starts an operation or a fetch times out. */
  ghost predicate Stuck<T>(s: Mbox<T>) {
    forall j :: 0 <= j < |s.pcs| ==> s.pcs[j].Idle? || Blocked(s, s.pcs[j])
  }

  /** No deadlock: when nothing moves, no thread waits for the mutex; a sleeping fetcher sleeps over an
      empty ring and no poster sleeps; and sleeping posters have left a ring that is not empty, so the
      next fetch will wake one. RoomMissed says when the ring they sleep over is not full any more. */
  lemma NoDeadlock<T>(s: Mbox<T>, cs: seq<Choice<T>>, fetcher: nat, i: nat)
    requires Init(s) && AllAllowed(cs, fetcher)
    ensures var r := Run(s, cs);
            Stuck(r) && i < |r.pcs| ==>
              && (r.pcs[i].Idle? || r.pcs[i].Block? || r.pcs[i].FetchBlock?)
              && (r.pcs[i].FetchBlock? ==> r.ring.Empty() && Count(r.pcs, Waiters) == 0)
              && (r.pcs[i].Block? ==> !r.ring.Empty() && r.waitSend > 0)
  {
    InitInv(s, fetcher);
    RunKeeps(s, cs, fetcher);
    var r := Run(s, cs);
    if Stuck(r) && i < |r.pcs| {
      StuckMeans(r, fetcher, i);
    }
  }

  lemma StuckMeans<T>(r: Mbox<T>, fetcher: nat, i: nat)
    requires Inv(r, fetcher) && Stuck(r) && i < |r.pcs|
    ensures r.pcs[i].Idle? || r.pcs[i].Block? || r.pcs[i].FetchBlock?
    ensures r.pcs[i].FetchBlock? ==> r.ring.Empty() && Count(r.pcs, Waiters) == 0
    ensures r.pcs[i].Block? ==> !r.ring.Empty() && r.waitSend > 0
  {
    NoMembers(r.pcs, Holders);
    assert r.mutex == 1;
    NoMembers(r.pcs, Rescuers);
    if r.notFull == 1 { NoMembers(r.pcs, Waiters); }
    if r.pcs[i].Block? { CountAtLeast(r.pcs, i, Waiters); }
  }

  lemma {:induction false} NoMembers<T>(pcs: seq<Pc<T>>, k: Kind)
    requires forall j :: 0 <= j < |pcs| ==> !Is(k, pcs[j])
    ensures Count(pcs, k) == 0
    decreases |pcs|
  {
    if pcs != [] { NoMembers(pcs[1..], k); }
  }

  // ---------- When a poster sleeps although there is room ----------

  /** Posters sleep, the ring is not full, and nobody is about to post or to signal them. */
  ghost predicate RoomMissed<T>(s: Mbox<T>) {
    !s.ring.Full() && Count(s.pcs, Waiters) > 0 && s.notFull == 0 && Count(s.pcs, Rescuers) == 0
  }

  /** The step that brings it about: the only thread that was going to look at the ring posts, not_full
      is not signalled, another poster sleeps, and two slots were free. */
  ghost predicate LastRescuerPosts<T>(s: Mbox<T>, c: Choice<T>) {
    && c.thread < |s.pcs| && s.pcs[c.thread].Check? && s.notFull == 0
    && Count(s.pcs, Rescuers) == 1 && Count(s.pcs, Waiters) > 0 && s.ring.last + 2 < s.ring.first + SYS_MBOX_SIZE
  }

  /** The steps that end it: a thread gets the mutex in order to post, takes a message, or fills the ring. */
  predicate Relieves<T>(s: Mbox<T>, c: Choice<T>) {
    c.thread < |s.pcs| &&
    match s.pcs[c.thread]
    case Lock(m) => s.mutex > 0
    case FetchCheck => !s.ring.Empty()
    case TryFetchCheck => !s.ring.Empty()
    case TryCheck(m) => s.ring.last + 2 >= s.ring.first + SYS_MBOX_SIZE
    case _ => false
  }

  /** Exactly when a step leaves posters asleep over room. */
  lemma RoomMissedStep<T>(s: Mbox<T>, c: Choice<T>, fetcher: nat)
    requires Inv(s, fetcher)
    ensures RoomMissed(Step(s, c)) <==> LastRescuerPosts(s, c) || (RoomMissed(s) && !Relieves(s, c))
  {
    hide Count, Inv, Step;
    RingSize(s, fetcher);
    if c.thread >= |s.pcs| {
      StepOut(s, c);
    } else {
      InvMeans(s, fetcher);
      StepCounts(s, c, Waiters);
      StepCounts(s, c, Rescuers);
      StepRoom(s, c);
    }
  }

  /** Taking the last message leaves its taker a rescuer, and only posting makes the ring fuller. */
  lemma RingAfter<T>(s: Mbox<T>, c: Choice<T>, fetcher: nat)
    requires Inv(s, fetcher) && c.thread < |s.pcs| == |Step(s, c).pcs|
    ensures PostersOk(s)
    ensures Step(s, c).ring.Empty() ==> s.ring.Empty() || s.pcs[c.thread].FetchCheck? || s.pcs[c.thread].TryFetchCheck?
  {}

  lemma RingSize<T>(s: Mbox<T>, fetcher: nat)
    requires Inv(s, fetcher)
    ensures |s.ring.msgs| == SYS_MBOX_SIZE && PostersOk(s)
  {}

  lemma StepOut<T>(s: Mbox<T>, c: Choice<T>)
    requires |s.ring.msgs| == SYS_MBOX_SIZE && c.thread >= |s.pcs|
    ensures Step(s, c) == s
  {}

  lemma InvMeans<T>(s: Mbox<T>, fetcher: nat)
    requires Inv(s, fetcher)
    ensures |s.ring.msgs| == SYS_MBOX_SIZE && s.ring.first <= s.ring.last < s.ring.first + SYS_MBOX_SIZE
    ensures s.waitSend == Count(s.pcs, Waiters) && s.notFull <= 1
  {}

  /** How a step changes the number of threads of a kind. */
  lemma StepCounts<T>(s: Mbox<T>, c: Choice<T>, k: Kind)
    requires |s.ring.msgs| == SYS_MBOX_SIZE && c.thread < |s.pcs|
    ensures |Step(s, c).pcs| == |s.pcs|
    ensures Count(Step(s, c).pcs, k) ==
            Count(s.pcs, k) - (if Is(k, s.pcs[c.thread]) then 1 else 0) + (if Is(k, Step(s, c).pcs[c.thread]) then 1 else 0)
    ensures Is(k, s.pcs[c.thread]) ==> Count(s.pcs, k) >= 1
  {
    hide Step, Is, Count;
    StepMoves(s, c);
    CountMoved(s.pcs, c.thread, Step(s, c).pcs[c.thread], k);
    if Is(k, s.pcs[c.thread]) { CountAtLeast(s.pcs, c.thread, k); }
  }

  /** What a step does to the ring, to not_full and to the kinds its thread belongs to. */
  lemma StepRoom<T>(s: Mbox<T>, c: Choice<T>)
    requires |s.ring.msgs| == SYS_MBOX_SIZE && c.thread < |s.pcs| == |Step(s, c).pcs|
    ensures var (pc, r) := (s.pcs[c.thread], Step(s, c));
            var w := (if Is(Waiters, r.pcs[c.thread]) then 1 else 0) - (if Is(Waiters, pc) then 1 else 0);
            var n := (if Is(Rescuers, r.pcs[c.thread]) then 1 else 0) - (if Is(Rescuers, pc) then 1 else 0);
            match pc
            case Lock(m) => r.ring == s.ring && r.notFull == s.notFull && w == 0 && n == (if s.mutex > 0 then 1 else 0)
            case Check(m) =>
              if s.ring.Full() then r.ring == s.ring && r.notFull == s.notFull && w == 1 && n == -1
              else r.ring.last == s.ring.last + 1 && r.ring.first == s.ring.first && r.notFull == s.notFull && w == 0 && n == -1
            case Block(m) =>
              r.ring == s.ring && w == 0 && (if s.notFull > 0 then r.notFull == s.notFull - 1 && n == 1 else r.notFull == s.notFull && n == 0)
            case Uncount(m) => r.ring == s.ring && r.notFull == s.notFull && w == -1 && n == 0
            case TryCheck(m) =>
              && (if s.ring.Full() then r.ring == s.ring else r.ring.last == s.ring.last + 1 && r.ring.first == s.ring.first)
              && r.notFull == s.notFull && w == 0 && n == 0
            case FetchCheck => r.notFull == s.notFull && w == 0 && (if s.ring.Empty() then r.ring == s.ring && n == 0 else n == 1)
            case TryFetchCheck => r.notFull == s.notFull && w == 0 && (if s.ring.Empty() then r.ring == s.ring && n == 0 else n == 1)
            case Taken => r.ring == s.ring && r.notFull == (if s.waitSend != 0 then 1 else s.notFull) && w == 0 && n == -1
            case _ => r.ring == s.ring && r.notFull == s.notFull && w == 0 && n == 0
  {}

  /** Some step of cs was of the first kind, and none after it of the second. */
  ghost predicate Missed<T>(s: Mbox<T>, cs: seq<Choice<T>>, before: bool)
    requires |s.ring.msgs| == SYS_MBOX_SIZE
    decreases |cs|
  {
    if cs == [] then before
    else
      StepSize(s, cs[0]);
      Missed(Step(s, cs[0]), cs[1..], LastRescuerPosts(s, cs[0]) || (before && !Relieves(s, cs[0])))
  }

  lemma {:induction false} RunMisses<T>(s: Mbox<T>, cs: seq<Choice<T>>, fetcher: nat)
    requires Inv(s, fetcher) && AllAllowed(cs, fetcher)
    ensures RoomMissed(Run(s, cs)) <==> Missed(s, cs, RoomMissed(s))
    decreases |cs|
  {
    hide Step, Inv, RoomMissed, LastRescuerPosts, Relieves;
    if cs != [] {
      RingSize(s, fetcher);
      StepKeeps(s, cs[0], fetcher);
      RoomMissedStep(s, cs[0], fetcher);
      RunMisses(Step(s, cs[0]), cs[1..], fetcher);
    }
  }

  /** Exactly when a poster sleeps over a ring that is not full, and nothing moves: in the run a poster
      that was the only thread about to look at the ring posted while two slots were free and others
      slept, and since then nobody came to look. */
  lemma SleepsOverRoom<T>(s: Mbox<T>, cs: seq<Choice<T>>, fetcher: nat)
    requires Init(s) && AllAllowed(cs, fetcher)
    ensures var r := Run(s, cs);
            Stuck(r) ==> (!r.ring.Full() && (exists i :: 0 <= i < |r.pcs| && r.pcs[i].Block?) <==> Missed(s, cs, false))
  {
    InitInv(s, fetcher);
    NoMembers(s.pcs, Waiters);
    RunMisses(s, cs, fetcher);
    RunKeeps(s, cs, fetcher);
    if Stuck(Run(s, cs)) { StuckOverRoom(Run(s, cs), fetcher); }
  }

  lemma StuckOverRoom<T>(r: Mbox<T>, fetcher: nat)
    requires Inv(r, fetcher) && Stuck(r)
    ensures RoomMissed(r) <==> !r.ring.Full() && (exists i :: 0 <= i < |r.pcs| && r.pcs[i].Block?)
  {
    NoMembers(r.pcs, Holders);
    assert r.mutex == 1;
    NoMembers(r.pcs, Rescuers);
    if exists i :: 0 <= i < |r.pcs| && r.pcs[i].Block? {
      var i :| 0 <= i < |r.pcs| && r.pcs[i].Block?;
      CountAtLeast(r.pcs, i, Waiters);
      assert Blocked(r, r.pcs[i]);
    } else {
      NoMembers(r.pcs, Waiters);
    }
  }

  // ---------- Whole turns of one thread ----------

  /** n steps of one thread. */
  ghost function Turn<T>(s: Mbox<T>, c: Choice<T>, n: nat): (r: Mbox<T>)
    requires |s.ring.msgs| == SYS_MBOX_SIZE
    ensures |r.ring.msgs| == SYS_MBOX_SIZE
    decreases n
  {
    if n == 0 then s
    else
      StepSize(s, c);
      Turn(Step(s, c), c, n - 1)
  }

  lemma FetchSleeps<T>(s: Mbox<T>, i: nat)
    requires |s.ring.msgs| == SYS_MBOX_SIZE && i < |s.pcs| && s.pcs[i] == Idle && s.mutex == 1 && s.ring.Empty()
    ensures Turn(s, Choice(i, Fetch, false), 4) == s.At(i, FetchBlock)
  {
    var c := Choice(i, Fetch, false);
    var s1 := Step(s, c);
    var s2 := Step(s1, c);
    var s3 := Step(s2, c);
    assert Turn(s3, c, 1) == Turn(Step(s3, c), c, 0);
    assert s3.pcs[i := FetchBlock] == s.pcs[i := FetchBlock];
  }

  lemma PostReturns<T>(s: Mbox<T>, i: nat, m: T)
    requires |s.ring.msgs| == SYS_MBOX_SIZE && i < |s.pcs| && s.pcs[i] == Idle && s.mutex == 1 && !s.ring.Full()
    ensures Turn(s, Choice(i, Post(m), false), 5) ==
            s.(ring := s.ring.Put(m), notEmpty := if s.ring.Empty() then 1 else s.notEmpty)
  {
    var c := Choice(i, Post(m), false);
    var s1 := Step(s, c);
    var s2 := Step(s1, c);
    var s3 := Step(s2, c);
    var s4 := Step(s3, c);
    assert Turn(s4, c, 1) == Turn(Step(s4, c), c, 0);
    assert s4.pcs[i := Idle] == s.pcs;
  }

  lemma FetchReturns<T>(s: Mbox<T>, i: nat)
    requires |s.ring.msgs| == SYS_MBOX_SIZE && i < |s.pcs| && s.pcs[i] == FetchBlock && s.mutex == 1
    requires !s.ring.Empty() && s.notEmpty == 1 && s.waitSend == 0
    ensures Turn(s, Choice(i, Fetch, false), 5) == s.At(i, Idle).(ring := s.ring.Take(), notEmpty := 0)
  {
    var c := Choice(i, Fetch, false);
    var s1 := Step(s, c);
    var s2 := Step(s1, c);
    var s3 := Step(s2, c);
    var s4 := Step(s3, c);
    assert Turn(s4, c, 1) == Turn(Step(s4, c), c, 0);
    assert s4.pcs[i := Idle] == s.pcs[i := Idle];
  }

  lemma PostBlocks<T>(s: Mbox<T>, i: nat, m: T)
    requires |s.ring.msgs| == SYS_MBOX_SIZE && i < |s.pcs| && s.pcs[i] == Idle && s.mutex == 1 && s.ring.Full()
    ensures Turn(s, Choice(i, Post(m), false), 4) == s.At(i, Block(m)).(waitSend := s.waitSend + 1)
  {
    var c := Choice(i, Post(m), false);
    var s1 := Step(s, c);
    var s2 := Step(s1, c);
    var s3 := Step(s2, c);
    assert Turn(s3, c, 1) == Turn(Step(s3, c), c, 0);
    assert s3.pcs[i := Block(m)] == s.pcs[i := Block(m)];
  }

  lemma FetchSignals<T>(s: Mbox<T>, i: nat)
    requires |s.ring.msgs| == SYS_MBOX_SIZE && i < |s.pcs| && s.pcs[i] == Idle && s.mutex == 1 && !s.ring.Empty()
    ensures Turn(s, Choice(i, Fetch, false), 5) ==
            s.(ring := s.ring.Take(), notFull := if s.waitSend != 0 then 1 else s.notFull)
  {
    var c := Choice(i, Fetch, false);
    var s3 := s.At(i, Taken).(ring := s.ring.Take(), mutex := 0);
    assert Turn(s, c, 5) == Turn(s3, c, 2) by {
      var s1 := Step(s, c);
      var s2 := Step(s1, c);
      assert s1.pcs[i := FetchCheck] == s.pcs[i := FetchCheck] && s2.pcs[i := Taken] == s.pcs[i := Taken];
      assert Step(s2, c) == s3;
      assert Turn(s, c, 5) == Turn(s1, c, 4) == Turn(s2, c, 3);
    }
    var s4 := Step(s3, c);
    assert s4.pcs[i := Idle] == s.pcs;
    assert Turn(s3, c, 2) == Turn(s4, c, 1) == Turn(Step(s4, c), c, 0);
  }

  /** From the loop test on, over a ring with room. */
  lemma PosterPuts<T>(s: Mbox<T>, i: nat, m: T)
    requires |s.ring.msgs| == SYS_MBOX_SIZE && i < |s.pcs| && s.pcs[i] == Check(m) && s.mutex == 0
    requires !s.ring.Full() && !s.ring.Empty()
    ensures Turn(s, Choice(i, Fetch, false), 3) == s.At(i, Idle).(ring := s.ring.Put(m), mutex := 1)
  {
    var c := Choice(i, Fetch, false);
    var s1 := Step(s, c);
    var s2 := Step(s1, c);
    assert Turn(s2, c, 1) == Turn(Step(s2, c), c, 0);
    assert s2.pcs[i := Idle] == s.pcs[i := Idle];
  }

  lemma PosterWakes<T>(s: Mbox<T>, i: nat, m: T)
    requires |s.ring.msgs| == SYS_MBOX_SIZE && i < |s.pcs| && s.pcs[i] == Block(m) && s.mutex == 1 && s.notFull == 1
    requires !s.ring.Full() && !s.ring.Empty()
    ensures Turn(s, Choice(i, Fetch, false), 6) ==
            s.At(i, Idle).(ring := s.ring.Put(m), notFull := 0, waitSend := s.waitSend - 1)
  {
    var c := Choice(i, Fetch, false);
    var s3 := s.At(i, Check(m)).(notFull := 0, waitSend := s.waitSend - 1, mutex := 0);
    assert Turn(s, c, 6) == Turn(s3, c, 3) by {
      var s1 := Step(s, c);
      var s2 := Step(s1, c);
      assert Step(s2, c) == s3;
      assert Turn(s, c, 6) == Turn(s1, c, 5) == Turn(s2, c, 4);
    }
    PosterPuts(s3, i, m);
    assert s3.pcs[i := Idle] == s.pcs[i := Idle];
  }

  /** One thread posts xs, one message after the other. */
  ghost function PostAll<T>(s: Mbox<T>, i: nat, xs: seq<T>): (r: Mbox<T>)
    requires |s.ring.msgs| == SYS_MBOX_SIZE
    ensures |r.ring.msgs| == SYS_MBOX_SIZE
    decreases |xs|
  {
    if xs == [] then s
    else
      PostAll(Turn(s, Choice(i, Post(xs[0]), false), 5), i, xs[1..])
  }

  /** Posting while there is room changes the ring and not_empty only. */
  lemma {:induction false} PostsReturn<T>(s: Mbox<T>, i: nat, xs: seq<T>)
    requires |s.ring.msgs| == SYS_MBOX_SIZE && i < |s.pcs| && s.pcs[i] == Idle && s.mutex == 1
    requires s.ring.first <= s.ring.last && s.ring.last + |xs| < s.ring.first + SYS_MBOX_SIZE
    ensures var r := PostAll(s, i, xs);
            && r == s.(ring := r.ring, notEmpty := r.notEmpty)
            && r.ring.first == s.ring.first && r.ring.last == s.ring.last + |xs|
    decreases |xs|
  {
    if xs != [] {
      PostReturns(s, i, xs[0]);
      PostsReturn(s.(ring := s.ring.Put(xs[0]), notEmpty := if s.ring.Empty() then 1 else s.notEmpty), i, xs[1..]);
    }
  }

  /** Two posters are blocked on a ring of 127 messages; two fetches in a row signal not_full twice,
      which counts once; the poster that wakes posts; the other sleeps on although there is room and
      nobody else is active. This works for any three threads and from the start. */
  lemma PosterSleepsOverRoom<T>(s: Mbox<T>, xs: seq<T>, m: T, n: T, fetcher: nat, i: nat, j: nat)
    requires Init(s) && |xs| == 127 && fetcher < |s.pcs| && i < |s.pcs| && j < |s.pcs|
    requires fetcher != i && fetcher != j && i != j
    ensures var s1 := PostAll(s, i, xs);
            var s2 := Turn(s1, Choice(i, Post(m), false), 4);
            var s3 := Turn(s2, Choice(j, Post(n), false), 4);
            var s4 := Turn(s3, Choice(fetcher, Fetch, false), 5);
            var s5 := Turn(s4, Choice(fetcher, Fetch, false), 5);
            var r := Turn(s5, Choice(i, Fetch, false), 6);
            && Stuck(r) && r.pcs == s.pcs[j := Block(n)] && r.ring.last - r.ring.first == 126 && !r.ring.Full()
  {
    hide Turn, Step, PostAll;
    PostsReturn(s, i, xs);
    var a := PostAll(s, i, xs);
    PostBlocks(a, i, m);
    var b := a.At(i, Block(m)).(waitSend := 1);
    PostBlocks(b, j, n);
    var d := b.At(j, Block(n)).(waitSend := 2);
    FetchSignals(d, fetcher);
    var e := d.(ring := d.ring.Take(), notFull := 1);
    FetchSignals(e, fetcher);
    var f := e.(ring := e.ring.Take());
    PosterWakes(f, i, m);
    var r := f.At(i, Idle).(ring := f.ring.Put(m), notFull := 0, waitSend := 1);
    assert r.pcs == s.pcs[j := Block(n)];
  }

  // ---------- Why one fetcher ----------

  /** With two threads in sys_arch_mbox_fetch() a wake-up can be lost, because only a post to the
      empty ring signals: both go to sleep, two messages are posted, one fetch takes the first, and
      the other sleeps on although the second message is there and nobody else is active. This works
      for any two fetchers and any poster among any number of threads. */
  lemma TwoFetchersLoseWakeup<T>(s: Mbox<T>, m: T, n: T, i: nat, j: nat, k: nat)
    requires Init(s) && i < |s.pcs| && j < |s.pcs| && k < |s.pcs| && i != j && i != k && j != k
    ensures var s1 := Turn(Turn(s, Choice(i, Fetch, false), 4), Choice(j, Fetch, false), 4);
            var s2 := Turn(Turn(s1, Choice(k, Post(m), false), 5), Choice(k, Post(n), false), 5);
            var r := Turn(s2, Choice(i, Fetch, false), 5);
            && Stuck(r) && r.pcs == s.pcs[j := FetchBlock] && r.ring.fetched == [m] && r.ring.posted == [m, n]
  {
    hide Turn;
    FetchSleeps(s, i);
    var a := s.At(i, FetchBlock);
    FetchSleeps(a, j);
    var b := a.At(j, FetchBlock);
    PostReturns(b, k, m);
    var d := b.(ring := b.ring.Put(m), notEmpty := 1);
    PostReturns(d, k, n);
    var e := d.(ring := d.ring.Put(n));
    FetchReturns(e, i);
    TwoPutsOneTake(s.ring, m, n);
    assert e.At(i, Idle).pcs == s.pcs[j := FetchBlock];
  }

  lemma TwoPutsOneTake<T>(r: Ring<T>, m: T, n: T)
    requires |r.msgs| == SYS_MBOX_SIZE && r.first == r.last == 0 && r.posted == [] && r.fetched == []
    ensures var q := r.Put(m).Put(n);
            && !r.Put(m).Full() && !q.Empty() && q.Take().fetched == [m] && q.Take().posted == [m, n]
  {}
}
