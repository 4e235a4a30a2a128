/** The wait loop on the 64-bit real-time counter, written with 32-bit compares, against the plain 64-bit
    loop of the OpenCL kernel. The counter is an arbitrary sequence of 64-bit readings, one per
    s_memrealtime; a loop that runs out of readings is still waiting. */
module RealTime {
  import opened Bits

  const B32 := 0x1_0000_0000
  const B64 := 0x1_0000_0000_0000_0000

  type Time = n: nat | n < B64

  function Lo(t: Time): Word { t % 0x1_0000_0000 }
  function Hi(t: Time): Word { t / 0x1_0000_0000 }

  /** 64-bit sum, as the hardware and the C type wrap it. */
  function Finish(start: Time, ticks: Time): Time { (start + ticks) % 0x1_0000_0000_0000_0000 }

  /** The first reading from position k on that is not below the limit; |clock| when there is none. */
  function FirstNotBelow(clock: seq<Time>, limit: Time, k: nat): (n: nat)
    requires k <= |clock|
    ensures k <= n <= |clock|
    decreases |clock| - k
  {
    if k == |clock| || clock[k] >= limit then k else FirstNotBelow(clock, limit, k + 1)
  }

  /** What FirstNotBelow means. */
  lemma {:induction false} FirstNotBelowIsFirst(clock: seq<Time>, limit: Time, k: nat)
    requires k <= |clock|
    ensures var n := FirstNotBelow(clock, limit, k);
            && (n < |clock| ==> clock[n] >= limit)
            && forall i :: k <= i < n ==> clock[i] < limit
    decreases |clock| - k
  {
    if k < |clock| && clock[k] < limit { FirstNotBelowIsFirst(clock, limit, k + 1); }
  }

  /** s_add_u32 and s_addc_u32 on the halves are the 64-bit sum. */
  lemma CarrySum(start: Time, ticks: Time)
    ensures var lo := Lo(ticks) + Lo(start);
            var hi := Hi(ticks) + Hi(start) + if lo >= B32 then 1 else 0;
            Lo(Finish(start, ticks)) == lo % 0x1_0000_0000 && Hi(Finish(start, ticks)) == hi % 0x1_0000_0000
  {
    var lo := Lo(ticks) + Lo(start);
    var c := if lo >= B32 then 1 else 0;
    var hi := Hi(ticks) + Hi(start) + c;
    assert start + ticks == hi * 0x1_0000_0000 + (lo - c * 0x1_0000_0000);
    var d := if hi >= B32 then 1 else 0;
    assert Finish(start, ticks) == (hi - d * 0x1_0000_0000) * 0x1_0000_0000 + (lo - c * 0x1_0000_0000);
  }

  /** The kernel: registers s0 to s5, one reading per s_memrealtime. `exit` is the position of the reading it
      leaves the loop at, |clock| if it is still waiting. */
  method WaitLoop(start: Time, ticks: Time, clock: seq<Time>) returns (exit: nat)
    ensures exit == FirstNotBelow(clock, Finish(start, ticks), 0)
  {
    var s4, s5 := Lo(start), Hi(start);
    var s2, s3 := Lo(ticks), Hi(ticks);
    var s0 := (s2 + s4) % 0x1_0000_0000;
    var scc := s2 + s4 >= B32;
    var carry: nat := if scc then 1 else 0;
    var s1 := (carry + s3 + s5) % 0x1_0000_0000;
    CarrySum(start, ticks);
    ghost var finish := Finish(start, ticks);
    exit := 0;
    while exit < |clock|
      invariant exit <= |clock|
      invariant FirstNotBelow(clock, finish, 0) == FirstNotBelow(clock, finish, exit)
    {
      s4, s5 := Lo(clock[exit]), Hi(clock[exit]);
      if s5 < s1 { exit := exit + 1; continue; }
      if s5 > s1 { break; }
      if s4 < s0 { exit := exit + 1; continue; }
      break;
    }
  }

  /** The reference: curr_time starts as the start time and is compared before each reading. `used` counts
      the readings it takes; `done` tells whether it left. */
  method ReferenceLoop(start: Time, ticks: Time, clock: seq<Time>) returns (used: nat, done: bool)
    ensures start >= Finish(start, ticks) ==> used == 0 && done
    ensures start < Finish(start, ticks) ==>
              var n := FirstNotBelow(clock, Finish(start, ticks), 0);
              done == (n < |clock|) && used == (if done then n + 1 else |clock|)
  {
    var finish := (start + ticks) % 0x1_0000_0000_0000_0000;
    var curr := start;
    used := 0;
    while curr < finish && used < |clock|
      invariant used <= |clock|
      invariant start >= finish ==> used == 0
      invariant used == 0 ==> curr == start
      invariant used > 0 ==> curr == clock[used - 1]
      invariant FirstNotBelow(clock, finish, 0)
             == FirstNotBelow(clock, finish, if used == 0 || curr < finish then used else used - 1)
      decreases |clock| - used
    {
      curr := clock[used];
      used := used + 1;
    }
    done := curr >= finish;
  }

  /** The first comparison of the reference is the only difference: it is skipped by the kernel, which
      always takes one reading. Both take the same number of readings exactly when the finish time is
      ahead of the start time. */
  lemma SameReadings(start: Time, ticks: Time)
    ensures start < Finish(start, ticks) <==> 0 < ticks && start + ticks < B64
  {
    if start + ticks >= B64 {
      assert Finish(start, ticks) == start + ticks - B64;
    } else {
      assert Finish(start, ticks) == start + ticks;
    }
  }

  predicate NotBefore(start: Time, clock: seq<Time>) {
    forall i :: 0 <= i < |clock| ==> start <= clock[i]
  }

  /** Leaving the loop guarantees the requested delay, for every clock that does not run backwards past the
      start, exactly when start + ticks does not wrap. */
  lemma DelayExact(start: Time, ticks: Time)
    ensures (forall clock: seq<Time> :: NotBefore(start, clock) ==>
               var n := FirstNotBelow(clock, Finish(start, ticks), 0);
               n < |clock| ==> clock[n] - start >= ticks)
            <==> start + ticks < B64
  {
    if start + ticks < B64 {
      forall clock: seq<Time> | NotBefore(start, clock)
        ensures var n := FirstNotBelow(clock, Finish(start, ticks), 0); n < |clock| ==> clock[n] - start >= ticks
      {
        FirstNotBelowIsFirst(clock, Finish(start, ticks), 0);
      }
    } else {
      var clock: seq<Time> := [start];
      assert NotBefore(start, clock);
      assert FirstNotBelow(clock, Finish(start, ticks), 0) == 0;
    }
  }

  ghost predicate Increasing(start: Time, clock: seq<Time>) {
    && (|clock| > 0 ==> start < clock[0])
    && forall i {:trigger clock[i]} :: 0 < i < |clock| ==> clock[i - 1] < clock[i]
  }

  lemma {:induction false} ClockAdvances(start: Time, clock: seq<Time>, i: nat)
    requires Increasing(start, clock) && i < |clock|
    ensures clock[i] >= start + i + 1
    decreases i
  {
    if i > 0 { ClockAdvances(start, clock, i - 1); }
  }

  /** With a strictly increasing clock the loop ends: within max(1, ticks) readings, and at the first one when the
      sum wraps. */
  lemma WaitEnds(start: Time, ticks: Time, clock: seq<Time>)
    requires Increasing(start, clock) && |clock| >= 1
    requires start + ticks < B64 ==> |clock| >= ticks
    ensures var exit := FirstNotBelow(clock, Finish(start, ticks), 0);
            if start + ticks >= B64 then exit == 0 else exit < (if ticks == 0 then 1 else ticks)
  {
    FirstNotBelowIsFirst(clock, Finish(start, ticks), 0);
    if start + ticks >= B64 {
      ClockAdvances(start, clock, 0);
    } else {
      ClockAdvances(start, clock, if ticks == 0 then 0 else ticks - 1);
    }
  }
}
