/** The ring of gyro samples of include/eis_ring.h: a range read finds the newest samples, however often it wrapped. */
module MotionRing {
  import opened Arith
  import opened Timespec

  const CAPACITY := 2048

  datatype Sample = Sample(ts: Timespec, gyroX: real, gyroY: real, gyroZ: real)

  predicate TsGe(a: Timespec, b: Timespec) { if a.sec != b.sec then a.sec > b.sec else a.nsec >= b.nsec }

  /** On normalised times, it is the order of the instants. */
  lemma TsGeMeans(a: Timespec, b: Timespec)
    requires Normal(a) && Normal(b)
    ensures TsGe(a, b) <==> Nanos(a) >= Nanos(b)
  {
  }

  predicate Within(s: Sample, t0: Timespec, t1: Timespec) { TsGe(s.ts, t0) && TsGe(t1, s.ts) }

  /** The samples of a list that lie within a range, in their order. */
  function Select(ss: seq<Sample>, t0: Timespec, t1: Timespec): (r: seq<Sample>)
    ensures |r| <= |ss|
  {
    if ss == [] then []
    else
      var last, front := ss[|ss| - 1], Select(ss[..|ss| - 1], t0, t1);
      if Within(last, t0, t1) then front + [last] else front
  }

  /** Both ends of the range belong to it. */
  lemma WithinMeans(s: Sample, t0: Timespec, t1: Timespec)
    requires Normal(s.ts) && Normal(t0) && Normal(t1)
    ensures Within(s, t0, t1) <==> Nanos(t0) <= Nanos(s.ts) <= Nanos(t1)
  {
  }

  /** Selecting from two lists, one behind the other, is selecting from each; and a sample of its own is selected if it
      lies within the range. */
  lemma {:induction false} SelectJoin(a: seq<Sample>, b: seq<Sample>, s: Sample, t0: Timespec, t1: Timespec)
    ensures Select(a + b, t0, t1) == Select(a, t0, t1) + Select(b, t0, t1)
    ensures Select([s], t0, t1) == if Within(s, t0, t1) then [s] else []
    decreases |b|
  {
    hide Within;
    assert [s][..0] == [];
    if b == [] {
      assert a + b == a;
    } else {
      SelectJoin(a, b[..|b| - 1], s, t0, t1);
      assert (a + b)[..|a + b| - 1] == a + b[..|b| - 1];
    }
  }

  /** The newest samples, as many as the ring can hold. */
  function Recent(history: seq<Sample>): (r: seq<Sample>)
    ensures |r| == Min(CAPACITY, |history|)
  {
    history[|history| - Min(CAPACITY, |history|)..]
  }

  lemma SelectNothing(ss: seq<Sample>, t0: Timespec, t1: Timespec)
    ensures Select(ss[..0], t0, t1) == [] && (ss == [] ==> Select(ss, t0, t1) == [])
  {
  }

  lemma SelectNext(ss: seq<Sample>, i: nat, t0: Timespec, t1: Timespec)
    requires i < |ss|
    ensures Select(ss[..i + 1], t0, t1) == Select(ss[..i], t0, t1) + if Within(ss[i], t0, t1) then [ss[i]] else []
  {
    assert ss[..i + 1][..i] == ss[..i];
  }

  lemma {:induction false} SelectPrefix(ss: seq<Sample>, i: nat, t0: Timespec, t1: Timespec)
    requires i <= |ss|
    ensures var part, all := Select(ss[..i], t0, t1), Select(ss, t0, t1); |part| <= |all| && all[..|part|] == part
    decreases |ss| - i
  {
    if i == |ss| {
      assert ss[..i] == ss;
    } else {
      SelectPrefix(ss, i + 1, t0, t1);
      assert ss[..i + 1][..i] == ss[..i];
    }
  }

  class Ring {
    const buf: array<Sample>
    var head: nat
    var count: nat
    ghost var history: seq<Sample>

    ghost predicate Valid()
      reads this, buf
    {
      && buf.Length == CAPACITY && head == |history| % CAPACITY && count == Min(CAPACITY, |history|)
      && forall k :: |history| - count <= k < |history| ==> buf[k % CAPACITY] == history[k]
    }

    constructor ()
      ensures Valid() && history == [] && fresh(buf)
    {
      buf := new Sample[CAPACITY](_ => Sample(Timespec(0, 0), 0.0, 0.0, 0.0));
      head, count, history := 0, 0, [];
    }

    method Push(s: Sample)
      requires Valid()
      modifies this, buf
      ensures Valid() && history == old(history) + [s]
    {
      buf[head] := s;
      head := (head + 1) % CAPACITY;
      if count < CAPACITY {
        count := count + 1;
      }
      history := history + [s];
    }

    /** Copies the first `maxOut` samples of the range among the newest ones, in the order they were pushed. */
    method ReadRange(t0: Timespec, t1: Timespec, out: array<Sample>, maxOut: nat) returns (n: nat)
      requires Valid() && out != buf && maxOut <= out.Length
      modifies out
      ensures var selected := Select(Recent(history), t0, t1);
        n == Min(maxOut, |selected|) && out[..n] == selected[..n]
      ensures out[n..] == old(out[n..])
    {
      hide Select, Recent;
      n := 0;
      ghost var recent, was := Recent(history), out[..];
      SelectNothing(recent, t0, t1);
      if count == 0 {
        assert recent == [];
        return;
      }
      var start := if count < CAPACITY then 0 else head;
      var i := 0;
      while i < count && n < maxOut
        invariant 0 <= i <= count && n <= maxOut
        invariant forall k :: n <= k < out.Length ==> out[k] == was[k]
        invariant n == |Select(recent[..i], t0, t1)| && out[..n] == Select(recent[..i], t0, t1)
      {
        var idx := (start + i) % CAPACITY;
        var s := buf[idx];
        Oldest(i, start);
        SelectNext(recent, i, t0, t1);
        if TsGe(s.ts, t0) && TsGe(t1, s.ts) {
          out[n] := s;
          n := n + 1;
        }
        i := i + 1;
      }
      SelectPrefix(recent, i, t0, t1);
      assert i == count ==> recent[..i] == recent;
    }

    /** Where the `i`-th oldest sample stands. */
    lemma Oldest(i: nat, start: nat)
      requires Valid() && i < count && start == if count < CAPACITY then 0 else head
      ensures buf[(start + i) % CAPACITY] == Recent(history)[i]
    {
      var k := |history| - count + i;
      assert (start + i) % CAPACITY == k % CAPACITY;
      assert buf[k % CAPACITY] == history[k];
    }
  }
}
