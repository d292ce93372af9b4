/** The three-call rate rule of one server, in one process with one thread. */
module RateLimiter {
  const MAX_REC: nat := 512

  const N_SAMPLE_FOR_AVG: nat := 3

  /** What a call meets: the clock in microseconds when it is stamped, whether the operation
      itself took longer than the threshold, and the clock after the sleep, if it sleeps. */
  datatype Call = Call(now: int, slow: bool, woke: int)

  /** Seconds to sleep: three calls take at least 3 / freq seconds. */
  function ToSleep(freq: real, now: int, past: int): real
    requires freq > 0.0
  {
    3.0 / freq - (now - past) as real / 1000000.0
  }

  /** A C cast to an integer. */
  function Trunc(x: real): int {
    if x >= 0.0 then x.Floor else -(-x).Floor
  }

  function SleepNs(freq: real, now: int, past: int): int
    requires freq > 0.0
  {
    Trunc(1000000000.0 * ToSleep(freq, now, past))
  }

  /** n is x rounded toward zero. */
  predicate TowardZero(n: int, x: real) {
    if x >= 0.0 then n as real <= x < n as real + 1.0 else n as real - 1.0 < x <= n as real
  }

  /** In microseconds: a call sleeps for what is missing to 3 / freq seconds, unless less than a
      tenth of one is missing. */
  lemma SleepMeans(freq: real, now: int, past: int)
    requires freq > 0.0
    ensures ToSleep(freq, now, past) * 1000000.0 == 3000000.0 / freq - (now - past) as real
    ensures ToSleep(freq, now, past) > 0.0000001 <==> (now - past) as real < 3000000.0 / freq - 0.1
    ensures TowardZero(SleepNs(freq, now, past), 1000.0 * (3000000.0 / freq - (now - past) as real))
  {
    var x := 1000000000.0 * ToSleep(freq, now, past);
    assert 3.0 / freq * 1000000.0 == 3000000.0 / freq;
    assert x == 1000.0 * (3000000.0 / freq - (now - past) as real);
  }

  /** After the calls stamped in hist, call c is delayed. */
  predicate Delays(freq: real, hist: seq<int>, c: Call)
    requires freq > 0.0
  {
    |hist| > N_SAMPLE_FOR_AVG && (c.slow || ToSleep(freq, c.now, hist[|hist| - N_SAMPLE_FOR_AVG]) > 0.0000001)
  }

  /** The stamp that stays. */
  function Stamp(freq: real, hist: seq<int>, c: Call): int
    requires freq > 0.0
  {
    if Delays(freq, hist, c) then c.woke else c.now
  }

  /** The clock does not run backwards, and a sleep lasts as long as asked; nanosleep rejects a
      negative time at once. Two readings in whole microseconds lose less than one. */
  predicate Real(freq: real, hist: seq<int>, c: Call)
    requires freq > 0.0
  {
    && (hist != [] ==> hist[|hist| - 1] <= c.now) && c.now <= c.woke
    && (Delays(freq, hist, c) ==> c.now + SleepNs(freq, c.now, hist[|hist| - N_SAMPLE_FOR_AVG]) / 1000 <= c.woke)
  }

  /** All final stamps. */
  function History(freq: real, calls: seq<Call>): (h: seq<int>)
    requires freq > 0.0
    ensures |h| == |calls|
  {
    if calls == [] then []
    else
      var h := History(freq, calls[..|calls| - 1]);
      h + [Stamp(freq, h, calls[|calls| - 1])]
  }

  predicate RealRun(freq: real, calls: seq<Call>)
    requires freq > 0.0
  {
    calls != [] ==>
      var init := calls[..|calls| - 1];
      RealRun(freq, init) && Real(freq, History(freq, init), calls[|calls| - 1])
  }

  /** How many of the calls were delayed. */
  function Delayed(freq: real, calls: seq<Call>): (n: nat)
    requires freq > 0.0
    ensures n <= if |calls| <= 4 then 0 else |calls| - 4
  {
    if calls == [] then 0
    else
      var init := calls[..|calls| - 1];
      Delayed(freq, init) + (if Delays(freq, History(freq, init), calls[|calls| - 1]) then 1 else 0)
  }

  /** The ring holds the last 512 stamps, each in the slot of its number. */
  predicate RingHolds(ring: seq<int>, hist: seq<int>) {
    |ring| == MAX_REC &&
    forall i :: 0 <= i < |hist| && |hist| <= i + MAX_REC ==> ring[i % MAX_REC] == hist[i]
  }

  class Throttle {
    const freq: real
    var active: bool
    var ready: bool
    var server: int
    var count: nat
    var delayed: nat
    var callsDelayed: nat
    var callCount: nat
    var toSleep: real
    const stamps: array<int>
    ghost var calls: seq<Call>

    /** The shared counters and the ring are those of the calls made. */
    ghost predicate Valid()
      reads this, stamps
    {
      && freq > 0.0 && stamps.Length == MAX_REC && count == |calls| && delayed == Delayed(freq, calls)
      && RingHolds(stamps[..], History(freq, calls))
    }

    constructor (freq: real, server: int)
      requires freq > 0.0
      ensures Valid() && calls == [] && fresh(stamps) && this.server == server && !ready && active
      ensures this.freq == freq && callsDelayed == callCount == 0
    {
      this.freq, this.server, active, ready := freq, server, true, false;
      count, delayed, callsDelayed, callCount, toSleep, calls := 0, 0, 0, 0, 0.0, [];
      stamps := new int[MAX_REC];
    }

    /** Update_open_Count and post_lxstat: nothing unless active, attached and on a tagged server. */
    method Update(c: Call) returns (slept: bool, ns: int)
      requires Valid()
      modifies this, stamps
      ensures Valid() && active == old(active) && ready == old(ready) && server == old(server)
      ensures old(active && ready && server >= 0) ==>
        && calls == old(calls) + [c] && callCount == old(callCount) + 1 && count == old(count) + 1
        && delayed == old(delayed) + (if slept then 1 else 0)
        && callsDelayed == old(callsDelayed) + (if slept then 1 else 0)
        && stamps[..] == old(stamps[..])[old(count) % 512 := if slept then c.woke else c.now]
        && (old(count) <= 3 ==> !slept && toSleep == 0.0) && (!slept ==> ns == 0)
        && (old(count) > 3 ==>
              var past := History(freq, old(calls))[old(count) - 3];
              && toSleep * 1000000.0 == 3000000.0 / freq - (c.now - past) as real
              && (slept <==> c.slow || (c.now - past) as real < 3000000.0 / freq - 0.1)
              && (slept ==> TowardZero(ns, 1000.0 * (3000000.0 / freq - (c.now - past) as real))))
      ensures !old(active && ready && server >= 0) ==> unchanged(this) && unchanged(stamps) && !slept
    {
      hide Trunc, ToSleep, History, Delayed, RingHolds, TowardZero;
      slept, ns := false, 0;
      if !active {
        return;
      }
      if !ready || server < 0 {
        return;
      }
      ghost var hist, ring := History(freq, calls), stamps[..];
      var n := count;
      count := n + 1;
      callCount := callCount + 1;
      var cur := n % MAX_REC;
      stamps[cur] := c.now;
      toSleep := 0.0;
      ghost var stamp := c.now;
      if n > N_SAMPLE_FOR_AVG {
        var prev := (n - N_SAMPLE_FOR_AVG) % MAX_REC;
        RingBack(ring, hist, prev);
        toSleep := ToSleep(freq, stamps[cur], stamps[prev]);
        SleepMeans(freq, c.now, stamps[prev]);
        if c.slow || toSleep > 0.0000001 {
          slept, ns := true, Trunc(1000000000.0 * toSleep);
          callsDelayed := callsDelayed + 1;
          delayed := delayed + 1;
          stamps[cur] := c.woke;
          stamp := c.woke;
        }
      }
      assert stamps[..] == ring[cur := stamp];
      RingPut(ring, hist, stamp);
      StampKept(freq, calls, c, stamp, slept);
      calls := calls + [c];
    }

    /** A whole run. */
    method Run(cs: seq<Call>)
      requires Valid() && calls == [] && active && ready && server >= 0
      modifies this, stamps
      ensures Valid() && calls == cs
    {
      var i := 0;
      while i < |cs|
        invariant 0 <= i <= |cs| && Valid() && calls == cs[..i] && active && ready && server >= 0
      {
        var slept, ns := Update(cs[i]);
        i := i + 1;
      }
    }
  }

  lemma StampKept(freq: real, calls: seq<Call>, c: Call, stamp: int, slept: bool)
    requires freq > 0.0
    requires slept == Delays(freq, History(freq, calls), c) && stamp == if slept then c.woke else c.now
    ensures History(freq, calls + [c]) == History(freq, calls) + [stamp]
    ensures Delayed(freq, calls + [c]) == Delayed(freq, calls) + (if slept then 1 else 0)
  {
    assert (calls + [c])[..|calls|] == calls;
  }

  /** The slot three calls back still holds that call's stamp. */
  lemma RingBack(ring: seq<int>, hist: seq<int>, prev: nat)
    requires RingHolds(ring, hist) && |hist| > N_SAMPLE_FOR_AVG && prev == (|hist| - N_SAMPLE_FOR_AVG) % MAX_REC
    ensures prev < |ring| && prev != |hist| % MAX_REC && ring[prev] == hist[|hist| - N_SAMPLE_FOR_AVG]
  {
    SameSlot(|hist| - N_SAMPLE_FOR_AVG, |hist|);
  }

  lemma RingPut(ring: seq<int>, hist: seq<int>, stamp: int)
    requires RingHolds(ring, hist)
    ensures |ring| == MAX_REC && RingHolds(ring[|hist| % MAX_REC := stamp], hist + [stamp])
  {
    var n := |hist|;
    forall i | 0 <= i < n && n + 1 <= i + MAX_REC ensures i % MAX_REC != n % MAX_REC {
      SameSlot(i, n);
    }
  }

  /** Two calls share a ring slot exactly if their numbers differ by a multiple of 512. */
  lemma SameSlot(i: nat, j: nat)
    requires i <= j
    ensures i % MAX_REC == j % MAX_REC <==> exists k: nat :: j == i + 512 * k
    ensures i < j < i + MAX_REC ==> i % MAX_REC != j % MAX_REC
  {
    if i % MAX_REC == j % MAX_REC {
      var k := j / 512 - i / 512;
      assert j == i + 512 * k;
    }
  }

  /** Calls that keep the distance by themselves are never delayed: no call is slow, and each comes 3 / freq
      seconds or more after the third call before it. */
  lemma {:induction false} SpacedUndelayed(freq: real, calls: seq<Call>)
    requires freq > 0.0 && forall i :: 0 <= i < |calls| ==> !calls[i].slow
    requires forall i :: 4 <= i < |calls| ==> (calls[i].now - calls[i - 3].now) as real >= 3000000.0 / freq
    ensures Delayed(freq, calls) == 0
    ensures forall i :: 0 <= i < |calls| ==> History(freq, calls)[i] == calls[i].now
  {
    if calls != [] {
      var n := |calls| - 1;
      SpacedUndelayed(freq, calls[..n]);
      if n > 3 {
        SleepMeans(freq, calls[n].now, calls[n - 3].now);
      }
    }
  }

  // ----- the rate

  /** Microseconds any three calls are sure to take. */
  function Pace(freq: real): real
    requires freq > 0.0
  {
    3000000.0 / freq - 1.001
  }

  predicate Paced(freq: real, h: seq<int>)
    requires freq > 0.0
  {
    forall i :: 1 <= i && i + 3 < |h| ==> (h[i + 3] - h[i]) as real >= Pace(freq)
  }

  predicate Rising(h: seq<int>) {
    forall i, j :: 0 <= i <= j < |h| ==> h[i] <= h[j]
  }

  lemma SleepSuffices(freq: real, now: int, past: int)
    requires freq > 0.0
    ensures (now + SleepNs(freq, now, past) / 1000 - past) as real >= Pace(freq) || ToSleep(freq, now, past) < 0.0
  {
    var x, ns := 1000000000.0 * ToSleep(freq, now, past), SleepNs(freq, now, past);
    if ToSleep(freq, now, past) >= 0.0 {
      assert ns as real > x - 1.0;
      assert (ns / 1000) as real * 1000.0 > ns as real - 1000.0;
    }
  }

  /** One call keeps its distance to the third call before it. */
  lemma CallPaced(freq: real, hist: seq<int>, c: Call)
    requires freq > 0.0 && Real(freq, hist, c) && |hist| > N_SAMPLE_FOR_AVG
    ensures (Stamp(freq, hist, c) - hist[|hist| - 3]) as real >= Pace(freq)
  {
    var past := hist[|hist| - 3];
    if Delays(freq, hist, c) {
      SleepSuffices(freq, c.now, past);
      hide SleepNs;
    }
  }

  /** In every run, call i + 3 comes at least 3 / freq - 1.001e-6 seconds after call i, from the
      second call on, and the stamps rise. */
  lemma {:induction false} RunPaced(freq: real, calls: seq<Call>)
    requires freq > 0.0 && RealRun(freq, calls)
    ensures Paced(freq, History(freq, calls)) && Rising(History(freq, calls))
  {
    if calls != [] {
      var init, c := calls[..|calls| - 1], calls[|calls| - 1];
      RunPaced(freq, init);
      var h := History(freq, init);
      if |h| > N_SAMPLE_FOR_AVG {
        CallPaced(freq, h, c);
      }
    }
  }

  function Times(k: nat, x: real): real { k as real * x }

  /** Every three calls further on, the distance grows by the pace. */
  lemma {:induction false} PaceAdds(freq: real, h: seq<int>, a: nat, k: nat)
    requires freq > 0.0 && Paced(freq, h) && 1 <= a && a + 3 * k < |h|
    ensures (h[a + 3 * k] - h[a]) as real >= Times(k, Pace(freq))
  {
    hide Pace, Times;
    if k > 0 {
      PaceAdds(freq, h, a, k - 1);
      var i := a + 3 * (k - 1);
      assert a + 3 * k == i + 3;
      OnceMore(k - 1, Pace(freq));
    } else {
      NoTimes(Pace(freq));
    }
  }

  lemma NoTimes(x: real)
    ensures Times(0, x) == 0.0
  {
  }

  lemma OnceMore(k: nat, x: real)
    ensures Times(k + 1, x) == Times(k, x) + x
  {
  }

  /** How many of the first n calls, the very first excluded, are stamped within the window. */
  function CallsIn(h: seq<int>, start: int, width: nat, n: nat): nat
    requires n <= |h|
  {
    if n <= 1 then 0
    else CallsIn(h, start, width, n - 1) + (if start <= h[n - 1] <= start + width then 1 else 0)
  }

  /** The numbers of these calls. */
  function InWindow(h: seq<int>, start: int, width: nat, n: nat): set<nat>
    requires n <= |h|
  {
    set i: nat | 1 <= i < n && start <= h[i] && h[i] - start <= width
  }

  lemma WindowGrows(h: seq<int>, start: int, width: nat, n: nat)
    requires 1 <= n < |h|
    ensures n !in InWindow(h, start, width, n)
    ensures InWindow(h, start, width, n + 1) ==
            InWindow(h, start, width, n) + (if start <= h[n] <= start + width then {n} else {})
  {
  }

  lemma {:induction false} CallsCounted(h: seq<int>, start: int, width: nat, n: nat)
    requires n <= |h|
    ensures CallsIn(h, start, width, n) == |InWindow(h, start, width, n)|
  {
    if n > 1 {
      CallsCounted(h, start, width, n - 1);
      WindowGrows(h, start, width, n - 1);
    } else {
      assert InWindow(h, start, width, n) == {};
    }
  }

  /** They lie between two of them. */
  lemma {:induction false} FirstAndLast(h: seq<int>, start: int, width: nat, n: nat) returns (a: nat, b: nat)
    requires n <= |h| && CallsIn(h, start, width, n) > 0
    ensures 1 <= a <= b < n && start <= h[a] && h[b] <= start + width
    ensures CallsIn(h, start, width, n) <= b - a + 1
  {
    if CallsIn(h, start, width, n - 1) == 0 {
      a, b := n - 1, n - 1;
    } else {
      a, b := FirstAndLast(h, start, width, n - 1);
      if start <= h[n - 1] <= start + width {
        b := n - 1;
      }
    }
  }

  /** A window that holds many calls is wide. */
  lemma WindowHolds(freq: real, h: seq<int>, start: int, width: nat) returns (k: nat)
    requires freq > 0.0 && Paced(freq, h) && Rising(h)
    ensures CallsIn(h, start, width, |h|) <= 3 * k + 3 && Times(k, Pace(freq)) <= width as real
  {
    k := 0;
    NoTimes(Pace(freq));
    hide Pace, Paced, Times;
    if CallsIn(h, start, width, |h|) > 0 {
      var a, b := FirstAndLast(h, start, width, |h|);
      k := (b - a) / 3;
      PaceAdds(freq, h, a, k);
      assert h[a + 3 * k] <= h[b];
    }
  }

  lemma FloorBound(pace: real, width: nat, k: nat)
    requires pace > 0.0 && Times(k, pace) <= width as real
    ensures k <= (width as real / pace).Floor
  {
    assert k as real <= width as real / pace;
  }

  /** The rate: a window of `width` microseconds holds at most 3 * floor(width / pace) + 3 of the
      calls after the first. */
  lemma WindowBound(freq: real, calls: seq<Call>, start: int, width: nat)
    requires freq > 0.0 && RealRun(freq, calls) && Pace(freq) > 0.0
    ensures CallsIn(History(freq, calls), start, width, |calls|) <= 3 * (width as real / Pace(freq)).Floor + 3
  {
    RunPaced(freq, calls);
    hide Pace, History, RealRun, Paced, Rising, CallsIn, Times;
    var k := WindowHolds(freq, History(freq, calls), start, width);
    FloorBound(Pace(freq), width, k);
  }
}
