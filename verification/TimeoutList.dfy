/** The delta-encoded list of timeouts of the NO_SYS==0 build (src/timers.c). */
module TimeoutList {
  // Against the simple view: a list of deadlines relative to now, in the order in which they fall due.

  import opened SequenceNumbers
  import opened TcpConfig

  /** struct sys_timeo: time is relative to the entry in front. */
  datatype Timeo = Timeo(h: int, arg: int, time: nat)

  datatype Due = Due(h: int, arg: int, at: nat)

  /** The deadlines of a list whose first entry is relative to from. */
  function Deadlines(q: seq<Timeo>, from: nat): (d: seq<Due>)
    ensures |d| == |q|
    decreases |q|
  {
    if q == [] then [] else [Due(q[0].h, q[0].arg, from + q[0].time)] + Deadlines(q[1..], from + q[0].time)
  }

  /** The time of the last entry of q. */
  function Total(q: seq<Timeo>): nat
    decreases |q|
  {
    if q == [] then 0 else q[0].time + Total(q[1..])
  }

  lemma {:induction false} DeadlinesConcat(p: seq<Timeo>, q: seq<Timeo>, from: nat)
    ensures Deadlines(p + q, from) == Deadlines(p, from) + Deadlines(q, from + Total(p))
    ensures Total(p + q) == Total(p) + Total(q)
    decreases |p|
  {
    if p == [] {
      assert p + q == q;
    } else {
      assert (p + q)[1..] == p[1..] + q;
      DeadlinesConcat(p[1..], q, from + p[0].time);
      var (a, b) := (Deadlines(p[1..], from + p[0].time), Deadlines(q, from + Total(p)));
      Associates([Due(p[0].h, p[0].arg, from + p[0].time)], a, b);
      assert Deadlines(p + q, from) == [Due(p[0].h, p[0].arg, from + p[0].time)] + (a + b);
    }
  }

  lemma Associates(a: seq<Due>, b: seq<Due>, c: seq<Due>)
    ensures a + (b + c) == a + b + c
  {}

  /** Deadlines come in order. */
  lemma {:induction false} DeadlinesSorted(q: seq<Timeo>, from: nat, i: nat)
    requires i < |q|
    ensures from <= Deadlines(q, from)[i].at <= from + Total(q)
    ensures i + 1 < |q| ==> Deadlines(q, from)[i].at <= Deadlines(q, from)[i + 1].at
    decreases |q|
  {
    if i > 0 { DeadlinesSorted(q[1..], from + q[0].time, i - 1); }
  }

  lemma {:induction false} AllFrom(q: seq<Timeo>, from: nat)
    ensures forall i :: 0 <= i < |q| ==> from <= Deadlines(q, from)[i].at <= from + Total(q)
    decreases |q|
  {
    if q != [] { AllFrom(q[1..], from + q[0].time); }
  }

  /** All deadlines shortened by t. */
  function Shortened(d: seq<Due>, t: nat): (r: seq<Due>)
    requires forall i :: 0 <= i < |d| ==> d[i].at >= t
    ensures |r| == |d| && forall i :: 0 <= i < |d| ==> r[i] == d[i].(at := d[i].at - t)
    decreases |d|
  {
    if d == [] then [] else [d[0].(at := d[0].at - t)] + Shortened(d[1..], t)
  }

  lemma {:induction false} Rebased(q: seq<Timeo>, from: nat, t: nat)
    requires t <= from
    ensures forall i :: 0 <= i < |q| ==> Deadlines(q, from)[i].at >= t
    ensures Shortened(Deadlines(q, from), t) == Deadlines(q, from - t)
    decreases |q|
  {
    AllFrom(q, from);
    if q != [] {
      Rebased(q[1..], from + q[0].time, t);
      assert Deadlines(q, from)[1..] == Deadlines(q[1..], from + q[0].time);
    }
  }

  class Timeouts {
    var next: seq<Timeo>  // next_timeout

    /** Every remaining time fits the 32-bit field. */
    ghost predicate Valid()
      reads this
    {
      Total(next) <= 0xffff_ffff
    }

    ghost function Now(): seq<Due>
      reads this
    {
      Deadlines(next, 0)
    }

    constructor ()
      ensures Valid() && Now() == []
    {
      next := [];
    }

    /** sys_timeout(): exactly one deadline is added, behind all that fall due no later and in front
        of all that fall due later; alloc says whether there is memory for it. */
    method SysTimeout(msecs: u32, h: int, arg: int, alloc: bool) returns (ghost k: nat)
      requires Valid()
      modifies this
      ensures Valid()
      ensures !alloc ==> next == old(next)
      ensures alloc ==> k <= |old(Now())| && Now() == old(Now())[..k] + [Due(h, arg, msecs)] + old(Now())[k..]
      ensures alloc ==> forall i :: 0 <= i < |old(Now())| ==> (i < k <==> old(Now())[i].at <= msecs)
    {
      k := 0;
      if !alloc { return; }
      ghost var q := next;
      var timeout := Timeo(h, arg, msecs);
      if next == [] {
        next := [timeout];
        assert [timeout][1..] == [];
        return;
      }
      if next[0].time > msecs {
        next := [timeout] + next[0 := next[0].(time := next[0].time - msecs)];
        InsertedAt(q, 0, timeout);
      } else {
        k := InsertLater(timeout);
      }
    }

    /** The walk to the place of an entry that is not due before the first. */
    method InsertLater(timeout0: Timeo) returns (ghost k: nat)
      requires Valid() && next != [] && next[0].time <= timeout0.time
      modifies this
      ensures Total(next) <= Max(old(Total(next)), timeout0.time)
      ensures k <= |old(Now())| && Now() == old(Now())[..k] + [Due(timeout0.h, timeout0.arg, timeout0.time)] + old(Now())[k..]
      ensures forall i :: 0 <= i < |old(Now())| ==> (i < k <==> old(Now())[i].at <= timeout0.time)
    {
      ghost var q, msecs := next, timeout0.time;
      var t := 0;
      var timeout := timeout0.(time := timeout0.time - next[0].time);
      TotalAt(next, 0);
      while t + 1 < |next| && next[t + 1].time <= timeout.time
        invariant 0 <= t < |next| && next == q
        invariant Total(next[..t + 1]) <= msecs && timeout == timeout0.(time := msecs - Total(next[..t + 1]))
      {
        t := t + 1;
        timeout := timeout.(time := timeout.time - next[t].time);
        TotalAt(next, t);
      }
      k := t + 1;
      if t + 1 < |next| {
        next := next[t + 1 := next[t + 1].(time := next[t + 1].time - timeout.time)];
      }
      next := next[..t + 1] + [timeout] + next[t + 1..];
      InsertedAt(q, t + 1, timeout);
    }

    /** sys_untimeout(): the first entry with this handler and argument is removed, and no other
        deadline moves. */
    method SysUntimeout(h: int, arg: int) returns (ghost k: nat)
      requires Valid()
      modifies this
      ensures Valid() && k <= |old(next)|
      ensures forall i :: 0 <= i < k ==> !(old(next)[i].h == h && old(next)[i].arg == arg)
      ensures k == |old(next)| ==> next == old(next)
      ensures k < |old(next)| ==> old(next)[k].h == h && old(next)[k].arg == arg
      ensures k < |old(next)| ==> Now() == old(Now())[..k] + old(Now())[k + 1..]
    {
      var t := 0;
      ghost var q := next;
      while t < |next|
        invariant 0 <= t <= |next| && next == q
        invariant forall i :: 0 <= i < t ==> !(next[i].h == h && next[i].arg == arg)
      {
        if next[t].h == h && next[t].arg == arg {
          var found := next[t];
          next := next[..t] + next[t + 1..];
          if t < |next| {
            next := next[t := next[t].(time := next[t].time + found.time)];
          }
          RemovedAt(q, t);
          return t;
        }
        t := t + 1;
      }
      return t;
    }

    /** sys_timeouts_mbox_fetch() has received a message after waiting for a time: all deadlines are
        shortened alike, by no more than the first one allows. */
    method Waited(needed: u32)
      requires Valid()
      modifies this
      ensures Valid()
      ensures var t := if old(next) == [] then 0 else Min(needed, old(next)[0].time);
              && (forall i :: 0 <= i < |old(Now())| ==> old(Now())[i].at >= t)
              && Now() == Shortened(old(Now()), t)
    {
      if next != [] {
        ghost var q := next;
        if needed < next[0].time {
          next := next[0 := next[0].(time := next[0].time - needed)];
        } else {
          next := next[0 := next[0].(time := 0)];
        }
        FrontShortened(q, Min(needed, q[0].time));
      }
    }

    /** The wait has timed out: the first timeout is due and leaves the list, and the others are then
        relative to that moment. */
    method Expire() returns (due: Timeo)
      requires Valid() && next != []
      modifies this
      ensures Valid() && due == old(next)[0]
      ensures forall i :: 0 <= i < |old(Now())[1..]| ==> old(Now())[1..][i].at >= due.time
      ensures Now() == Shortened(old(Now())[1..], due.time)
    {
      due := next[0];
      Rebased(next[1..], due.time, due.time);
      assert Deadlines(next, 0)[1..] == Deadlines(next[1..], due.time);
      next := next[1..];
    }
  }

  lemma TotalAt(q: seq<Timeo>, t: nat)
    requires t < |q|
    ensures Total(q[..t + 1]) == Total(q[..t]) + q[t].time
    ensures t == 0 ==> Total(q[..t]) == 0
  {
    assert q[..t + 1] == q[..t] + [q[t]];
    DeadlinesConcat(q[..t], [q[t]], 0);
    assert [q[t]][1..] == [];
  }

  /** The deadlines of a list with s between front and rest. */
  lemma WithBetween(front: seq<Timeo>, s: Timeo, rest: seq<Timeo>)
    ensures Deadlines(front + [s] + rest, 0) ==
            Deadlines(front, 0) + [Due(s.h, s.arg, Total(front) + s.time)] + Deadlines(rest, Total(front) + s.time)
    ensures Total(front + [s] + rest) == Total(front) + s.time + Total(rest)
  {
    DeadlinesConcat(front + [s], rest, 0);
    DeadlinesConcat(front, [s], 0);
    TotalOne(s, Total(front));
  }

  /** The deadlines with an entry put between front and rest, the one behind it corrected. */
  lemma Between(front: seq<Timeo>, s: Timeo, rest: seq<Timeo>, tail: seq<Timeo>)
    requires |tail| == |rest| && (rest != [] ==> s.time < rest[0].time)
    requires rest != [] ==> tail[0] == rest[0].(time := rest[0].time - s.time) && tail[1..] == rest[1..]
    ensures Deadlines(front + [s] + tail, 0) ==
            Deadlines(front, 0) + [Due(s.h, s.arg, Total(front) + s.time)] + Deadlines(rest, Total(front))
    ensures Total(front + [s] + tail) == (if rest != [] then Total(front) + Total(rest) else Total(front) + s.time)
  {
    WithBetween(front, s, tail);
    Corrected(s.time, rest, tail, Total(front));
  }

  lemma Splice(d: seq<Due>, a: seq<Due>, x: seq<Due>, b: seq<Due>, k: nat)
    requires |a| == k
    ensures d == a + b ==> a + x + b == d[..k] + x + d[k..]
    ensures d == a + x + b ==> a + b == d[..k] + d[k + |x|..]
  {}

  lemma Corrected(t: nat, rest: seq<Timeo>, tail: seq<Timeo>, from: nat)
    requires |tail| == |rest| && (rest != [] ==> t < rest[0].time)
    requires rest != [] ==> tail[0] == rest[0].(time := rest[0].time - t) && tail[1..] == rest[1..]
    ensures Deadlines(tail, from + t) == Deadlines(rest, from)
    ensures rest != [] ==> t + Total(tail) == Total(rest)
  {}

  /** Exactly the entries in front of position k are due by at. */
  lemma DueBy(q: seq<Timeo>, k: nat, at: nat, i: nat)
    requires k <= |q| && i < |q| && Total(q[..k]) <= at && (k < |q| ==> at < Total(q[..k]) + q[k].time)
    ensures i < k <==> Deadlines(q, 0)[i].at <= at
  {
    var front, rest := q[..k], q[k..];
    assert q == front + rest;
    DeadlinesConcat(front, rest, 0);
    if i < k {
      DeadlinesSorted(front, 0, i);
    } else {
      LaterThanFirst(rest, Total(front), i - k);
    }
  }

  lemma {:induction false} LaterThanFirst(q: seq<Timeo>, from: nat, i: nat)
    requires i < |q|
    ensures from + q[0].time <= Deadlines(q, from)[i].at
    decreases |q|
  {
    if i > 0 { LaterThanFirst(q[1..], from + q[0].time, i - 1); }
  }

  lemma TotalOne(s: Timeo, from: nat)
    ensures Total([s]) == s.time && Deadlines([s], from) == [Due(s.h, s.arg, from + s.time)]
  {
    assert [s][1..] == [];
  }

  /** Putting an entry in front of position k, with the one behind it corrected. */
  lemma InsertedAt(q: seq<Timeo>, k: nat, s: Timeo)
    requires k <= |q| && (k < |q| ==> s.time < q[k].time)
    ensures var tail := if k < |q| then q[k..][0 := q[k].(time := q[k].time - s.time)] else [];
            var at := Total(q[..k]) + s.time;
            var d := Deadlines(q, 0);
            && Deadlines(q[..k] + [s] + tail, 0) == d[..k] + [Due(s.h, s.arg, at)] + d[k..]
            && Total(q[..k] + [s] + tail) == (if k < |q| then Total(q) else at)
            && (forall i :: 0 <= i < |d| ==> (i < k <==> d[i].at <= at))
  {
    hide Deadlines, Total;
    var front, rest := q[..k], q[k..];
    assert q == front + rest;
    DeadlinesConcat(front, rest, 0);
    Between(front, s, rest, if k < |q| then rest[0 := q[k].(time := q[k].time - s.time)] else []);
    Splice(Deadlines(q, 0), Deadlines(front, 0), [Due(s.h, s.arg, Total(front) + s.time)], Deadlines(rest, Total(front)), k);
    forall i | 0 <= i < |q| ensures i < k <==> Deadlines(q, 0)[i].at <= Total(q[..k]) + s.time {
      DueBy(q, k, Total(q[..k]) + s.time, i);
    }
  }

  /** Removing the entry at k, its time added back to the one behind it. */
  lemma RemovedAt(q: seq<Timeo>, k: nat)
    requires k < |q|
    ensures var r := q[..k] + q[k + 1..];
            var r' := if k < |r| then r[k := r[k].(time := r[k].time + q[k].time)] else r;
            && Deadlines(r', 0) == Deadlines(q, 0)[..k] + Deadlines(q, 0)[k + 1..]
            && Total(r') <= Total(q)
  {
    var front, rest := q[..k], q[k + 1..];
    var tail := if rest == [] then [] else rest[0 := rest[0].(time := rest[0].time + q[k].time)];
    assert q == front + [q[k]] + rest;
    WithBetween(front, q[k], rest);
    DeadlinesConcat(front, tail, 0);
    AddedBack(q[k].time, rest, tail, Total(front));
    Splice(Deadlines(q, 0), Deadlines(front, 0), [Due(q[k].h, q[k].arg, Total(front) + q[k].time)],
           Deadlines(rest, Total(front) + q[k].time), k);
    var r := front + rest;
    assert (if k < |r| then r[k := r[k].(time := r[k].time + q[k].time)] else r) == front + tail;
  }

  lemma AddedBack(t: nat, rest: seq<Timeo>, tail: seq<Timeo>, from: nat)
    requires |tail| == |rest|
    requires rest != [] ==> tail[0] == rest[0].(time := rest[0].time + t) && tail[1..] == rest[1..]
    ensures Deadlines(tail, from) == Deadlines(rest, from + t) && Total(tail) <= Total(rest) + t
  {}

  lemma FrontShortened(q: seq<Timeo>, t: nat)
    requires q != [] && t <= q[0].time
    ensures forall i :: 0 <= i < |q| ==> Deadlines(q, 0)[i].at >= t
    ensures var r := q[0 := q[0].(time := q[0].time - t)];
            Deadlines(r, 0) == Shortened(Deadlines(q, 0), t) && Total(r) <= Total(q)
  {
    var r := q[0 := q[0].(time := q[0].time - t)];
    assert r[1..] == q[1..];
    Rebased(q[1..], q[0].time, t);
    assert Deadlines(q, 0)[1..] == Deadlines(q[1..], q[0].time);
  }
}
