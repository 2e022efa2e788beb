/** The round-trip time estimator of tcp_receive(). */
module RttEstimator {
  // The signed 16-bit fields of struct tcp_pcb, in ticks of the slow timer (section 2 of RFC 6298 in the
  // integer form of Van Jacobson).

  import opened TcpConfig

  type s16 = x: int | -0x8000 <= x < 0x8000

  /** The C conversion (s16_t). */
  function S16(x: int): s16 { (x + 0x8000) % 0x1_0000 - 0x8000 }

  datatype Rtt = Rtt(sa: s16, sv: s16, rto: s16)

  /** tcp_alloc() */
  const INITIAL := Rtt(0, 6, 6)

  /** Samples of at most m ticks keep the smoothed estimate at most 8 m and the deviation between 3
      and max(6, 4 m). */
  predicate Bounded(r: Rtt, m: nat) { 0 <= r.sa <= 8 * m && 3 <= r.sv <= Max(6, 4 * m) }

  /** One measurement, without truncation: the smoothed values move by the eighth and the fourth of
      the error. */
  function Smoothed(r: Rtt, sample: nat): (int, int) {
    var err := sample - r.sa / 8;
    (r.sa + err, r.sv + (if err < 0 then -err else err) - r.sv / 4)
  }

  lemma S16Exact(x: int)
    requires -0x8000 <= x < 0x8000
    ensures S16(x) == x
  {}

  /** One measurement stays within the bounds. */
  lemma SmoothedBounds(sa: int, sv: int, sample: nat, m: nat)
    requires 0 <= sa <= 8 * m && 3 <= sv <= Max(6, 4 * m) && sample <= m
    ensures 0 <= sa / 8 <= m && 0 <= sv / 4
    ensures 0 <= sa + (sample - sa / 8) <= 8 * m
    ensures var err := sample - sa / 8;
            3 <= sv + (if err < 0 then -err else err) - sv / 4 <= Max(6, 4 * m)
  {
    var a, b := sa / 8, sv / 4;
    assert 8 * a <= sa <= 8 * a + 7 && 4 * b <= sv <= 4 * b + 3;
  }

  class Estimator {
    var sa: s16
    var sv: s16
    var rto: s16

    constructor ()
      ensures Rtt(sa, sv, rto) == INITIAL
    {
      sa, sv, rto := 0, 6, 6;
    }

    /** The measurement has come in. Shifting a value right rounds towards minus infinity. */
    method Measured(ticks: nat, ghost bound: nat)
      requires Bounded(Rtt(sa, sv, rto), bound) && ticks <= bound <= 4095
      modifies this
      ensures Bounded(Rtt(sa, sv, rto), bound)
      ensures (sa as int, sv as int) == Smoothed(Rtt(old(sa), old(sv), old(rto)), ticks)
      ensures rto == sa / 8 + sv && 3 <= rto <= bound + Max(6, 4 * bound)
    {
      hide S16;
      ghost var err := ticks - sa / 8;
      SmoothedBounds(sa, sv, ticks, bound);
      S16Exact(ticks);
      S16Exact(err);
      S16Exact(sa + err);
      var m: s16 := S16(ticks);
      m := S16(m - sa / 8);
      sa := S16(sa + m);
      if m < 0 {
        S16Exact(-m);
        m := S16(-m);
      }
      S16Exact(m - sv / 4);
      S16Exact(sv + (m - sv / 4));
      m := S16(m - sv / 4);
      sv := S16(sv + m);
      S16Exact(sa / 8 + sv);
      rto := S16(sa / 8 + sv);
    }
  }

  /** A sequence of measurements. */
  function Run(r: Rtt, samples: seq<nat>): Rtt
    decreases |samples|
  {
    if samples == [] then r
    else
      var (sa, sv) := Smoothed(r, samples[0]);
      Run(Rtt(S16(sa), S16(sv), S16(sa / 8 + sv)), samples[1..])
  }

  /** For every sequence of samples of at most m <= 4095 ticks the estimator stays within its bounds,
      and from the first sample on so does the retransmission time-out. */
  lemma {:induction false} AlwaysBounded(r: Rtt, samples: seq<nat>, m: nat)
    requires Bounded(r, m) && m <= 4095 && (forall s :: s in samples ==> s <= m)
    ensures var e := Run(r, samples);
            Bounded(e, m) && (samples != [] ==> 3 <= e.rto <= m + Max(6, 4 * m) && e.rto == e.sa / 8 + e.sv)
    decreases |samples|
  {
    if samples != [] {
      var (sa, sv) := Smoothed(r, samples[0]);
      assert samples[0] in samples;
      SmoothedBounds(r.sa, r.sv, samples[0], m);
      SmoothedBounds(sa, sv, 0, m);
      S16Exact(sa);
      S16Exact(sv);
      S16Exact(sa / 8 + sv);
      assert forall s :: s in samples[1..] ==> s in samples;
      AlwaysBounded(Rtt(S16(sa), S16(sv), S16(sa / 8 + sv)), samples[1..], m);
    }
  }

  /** The averages are exponential, with gain 1/8 for the estimate and 1/4 for the deviation, up to rounding
      (both are kept scaled, by 8 and by 4). */
  lemma ExponentialAverages(r: Rtt, sample: nat)
    ensures var ((sa, sv), err) := (Smoothed(r, sample), sample - r.sa / 8);
            && 7 * r.sa + 8 * sample <= 8 * sa < 7 * r.sa + 8 * sample + 8
            && 3 * r.sv + 4 * Max(err, -err) <= 4 * sv < 3 * r.sv + 4 * Max(err, -err) + 4
  {
    var a, b := r.sa / 8, r.sv / 4;
    assert 8 * a <= r.sa <= 8 * a + 7 && 4 * b <= r.sv <= 4 * b + 3;
  }

  /** Constant samples are learned exactly: after 8 m of them, and for good, the estimate is m. */
  lemma {:induction false} LearnsConstant(r: Rtt, samples: seq<nat>, m: nat)
    requires Bounded(r, m) && m <= 4095 && (forall s :: s in samples ==> s == m)
    ensures Run(r, samples).sa >= Min(8 * m, r.sa + |samples|) && Run(r, samples).sa <= 8 * m
    decreases |samples|
  {
    if samples != [] {
      var (sa, sv) := Smoothed(r, samples[0]);
      assert samples[0] in samples;
      SmoothedBounds(r.sa, r.sv, samples[0], m);
      S16Exact(sa);
      S16Exact(sv);
      assert forall s :: s in samples[1..] ==> s in samples;
      LearnsConstant(Rtt(S16(sa), S16(sv), S16(sa / 8 + sv)), samples[1..], m);
    }
  }

  /** Samples of 4096 ticks make the smoothed estimate climb until the 16-bit field turns negative. */
  lemma {:induction false} ClimbsOver(r: Rtt) returns (samples: seq<nat>)
    requires 0 <= r.sa && 3 <= r.sv <= 4 * 4096
    ensures (forall s :: s in samples ==> s == 4096) && Run(r, samples).sa < 0
    decreases 0x8000 - r.sa
  {
    var (sa, sv) := Smoothed(r, 4096);
    SmoothedBounds(r.sa, r.sv, 4096, 4096);
    S16Exact(sv);
    var next := Rtt(S16(sa), S16(sv), S16(sa / 8 + sv));
    if next.sa < 0 {
      samples := [4096];
      assert samples[1..] == [] && Run(next, []) == next;
    } else {
      S16Exact(sa);
      var rest := ClimbsOver(next);
      samples := [4096] + rest;
      assert samples[1..] == rest;
    }
  }

  /** The estimator stays within its bounds in every run with samples of at most m ticks, from its
      initial values on, if and only if m is at most 4095. */
  lemma BoundedUpTo4095(m: nat)
    ensures (forall samples: seq<nat> :: (forall s :: s in samples ==> s <= m) ==> Bounded(Run(INITIAL, samples), m)) <==>
            m <= 4095
  {
    if m <= 4095 {
      forall samples: seq<nat> | forall s :: s in samples ==> s <= m ensures Bounded(Run(INITIAL, samples), m) {
        AlwaysBounded(INITIAL, samples, m);
      }
    } else {
      var samples := ClimbsOver(INITIAL);
      assert forall s :: s in samples ==> s <= m;
      assert !Bounded(Run(INITIAL, samples), m);
    }
  }
}
