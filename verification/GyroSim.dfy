/** The simulated gyro of src/eis_gyroglide.c, which stands in while no sensor is active: how many samples a frame gets,
    and their times. The sums of sines they are read from are parameters. */
module GyroSim {
  import opened Arith
  import opened Timespec
  import opened MotionRing

  const SAMPLE_RATE := 200

  /** The simulated rotation about two axes, by simulated time. */
  datatype Waves = Waves(x: real -> real, y: real -> real)

  /** How many samples a frame of `dt` seconds gets. */
  function SampleCount(dt: real): (n: nat)
    requires dt > 0.0
    ensures 1 <= n <= CAPACITY
  {
    Min(Max((dt * SAMPLE_RATE as real).Floor, 1), CAPACITY)
  }

  function DtNanos(dt: real): nat
    requires dt > 0.0
  {
    (dt * 1000000000.0).Floor
  }

  /** The time of sample `i` of `n`, spread over `dtNs` nanoseconds behind `base`. */
  function Interpolate(base: Timespec, dtNs: nat, i: nat, n: nat): Timespec
    requires n > 0
  {
    MulNonneg(dtNs, i + 1);
    var frac: nat := dtNs * (i + 1) / n;
    var nsec, sec := base.nsec + frac % SECOND, base.sec + frac / SECOND;
    if nsec >= SECOND then Timespec(sec + 1, nsec - SECOND) else Timespec(sec, nsec)
  }

  /** Simulated time, `k` steps on. */
  function SimTime(t: real, step: real, k: nat): real
  {
    if k == 0 then t else SimTime(t, step, k - 1) + step
  }

  lemma {:induction false} SimTimeAdds(t: real, step: real, k: nat)
    ensures SimTime(t, step, k) == t + step * k as real
  {
    if k > 0 {
      SimTimeAdds(t, step, k - 1);
      assert step * k as real == step * (k - 1) as real + step;
    }
  }

  /** The steps of a frame come to the frame. */
  lemma SimTimeWhole(t: real, dt: real, n: nat)
    requires n > 0
    ensures SimTime(t, dt / n as real, n) == t + dt
  {
    SimTimeAdds(t, dt / n as real, n);
  }

  /** The first `k` samples of `n`. */
  function Simulated(base: Timespec, dt: real, t: real, waves: Waves, n: nat, k: nat): (ss: seq<Sample>)
    requires dt > 0.0 && n > 0
    ensures |ss| == k
  {
    if k == 0 then []
    else
      var s := SimTime(t, dt / n as real, k);
      Simulated(base, dt, t, waves, n, k - 1)
        + [Sample(Interpolate(base, DtNanos(dt), k - 1, n), waves.x(s), waves.y(s), 0.0)]
  }

  /** The time is a normal one, the given share of the frame behind `base`. */
  lemma InterpolateMeans(base: Timespec, dtNs: nat, i: nat, n: nat)
    requires Normal(base) && i < n
    ensures 0 <= dtNs * (i + 1)
    ensures var ts := Interpolate(base, dtNs, i, n);
      Normal(ts) && Nanos(ts) == Nanos(base) + dtNs * (i + 1) / n
  {
    MulNonneg(dtNs, i + 1);
  }

  lemma {:induction false} SimulatedAt(base: Timespec, dt: real, t: real, waves: Waves, n: nat, k: nat, i: nat)
    requires dt > 0.0 && i < k <= n
    ensures Simulated(base, dt, t, waves, n, k)[i].ts == Interpolate(base, DtNanos(dt), i, n)
  {
    hide Interpolate, DtNanos;
    if i < k - 1 {
      SimulatedAt(base, dt, t, waves, n, k - 1, i);
    }
  }

  /** The simulated samples of a frame from `base` to `now` lie in it in order, and the last one is at its end. */
  lemma SimulatedSpread(base: Timespec, now: Timespec, dt: real, t: real, waves: Waves, n: nat)
    requires Normal(base) && Normal(now) && 0 < n && dt > 0.0 && Nanos(now) - Nanos(base) == DtNanos(dt)
    ensures var ss := Simulated(base, dt, t, waves, n, n);
      && (forall i :: 0 <= i < n ==> Normal(ss[i].ts) && Within(ss[i], base, now))
      && (forall i :: 0 <= i < n - 1 ==> TsGe(ss[i + 1].ts, ss[i].ts))
      && ss[n - 1].ts == now
  {
    hide Interpolate, DtNanos, Within, TsGe, Simulated;
    var ss, d := Simulated(base, dt, t, waves, n, n), DtNanos(dt);
    forall i | 0 <= i < n
      ensures Normal(ss[i].ts) && Within(ss[i], base, now) && (i == n - 1 ==> ss[i].ts == now)
    {
      SimulatedAt(base, dt, t, waves, n, n, i);
      AtSample(base, now, d, i, n);
      InRange(ss[i], base, now);
    }
    forall i | 0 <= i < n - 1 ensures TsGe(ss[i + 1].ts, ss[i].ts) {
      SimulatedAt(base, dt, t, waves, n, n, i);
      SimulatedAt(base, dt, t, waves, n, n, i + 1);
      NextSample(base, d, i, n);
    }
  }

  lemma AtSample(base: Timespec, now: Timespec, d: nat, i: nat, n: nat)
    requires Normal(base) && Normal(now) && i < n && Nanos(now) - Nanos(base) == d
    ensures var ts := Interpolate(base, d, i, n);
      Normal(ts) && Nanos(base) <= Nanos(ts) <= Nanos(now) && (i == n - 1 ==> ts == now)
  {
    hide Interpolate, Normal, Nanos;
    var ts := Interpolate(base, d, i, n);
    InterpolateMeans(base, d, i, n);
    Share(d, i + 1, n);
    if i == n - 1 {
      SameInstant(ts, now);
    }
  }

  /** `i` parts of `n`. */
  lemma Share(d: nat, i: nat, n: nat)
    requires 0 < n && i <= n
    ensures 0 <= d * i && d * i / n <= d && (i == n ==> d * i / n == d)
  {
    MulNonneg(d, i);
    Times(i, n, d);
    Quotient(d * i, n, d * i / n);
    if i == n {
      Quotient(d * n, n, d);
    } else if d * i / n > d {
      Times(d + 1, d * i / n, n);
    }
  }

  lemma NextSample(base: Timespec, d: nat, i: nat, n: nat)
    requires Normal(base) && i + 1 < n
    ensures TsGe(Interpolate(base, d, i + 1, n), Interpolate(base, d, i, n))
  {
    hide Interpolate;
    InterpolateMeans(base, d, i, n);
    InterpolateMeans(base, d, i + 1, n);
    MulNonneg(d, i + 1);
    assert d * (i + 2) == d * (i + 1) + d;
    QuotientGrows(d * (i + 1), d * (i + 2), n);
    TsGeMeans(Interpolate(base, d, i + 1, n), Interpolate(base, d, i, n));
  }

  lemma InRange(s: Sample, base: Timespec, now: Timespec)
    requires Normal(s.ts) && Normal(base) && Normal(now) && Nanos(base) <= Nanos(s.ts) <= Nanos(now)
    ensures Within(s, base, now)
  {
    TsGeMeans(s.ts, base);
    TsGeMeans(now, s.ts);
  }
}
