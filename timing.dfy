/** `timed_loop`: the body of one refresh is run and, if it took less than `nsec` seconds,
    the program sleeps for the rest, so that each refresh takes at least `nsec` seconds.
    Time is counted in whole seconds. */
module Timing {

  function Max(a: int, b: int): int {
    if a >= b then a else b
  }

  /** The rest of `nsec` after the body's `elapsed` seconds, slept only when positive
      (dgx/rlist.py:101-104). */
  function Wait(nsec: int, elapsed: int): (w: nat)
    ensures w > 0 <==> elapsed < nsec
    ensures w > 0 ==> elapsed + w == nsec
    ensures elapsed + w == Max(nsec, elapsed)
  {
    if nsec - elapsed > 0 then nsec - elapsed else 0
  }

  /** The clock read by `time.time()` and advanced by the body and by `time.sleep`. */
  class Clock {
    var now: int

    constructor (t: int)
      ensures now == t
    {
      now := t;
    }

    /** Time passing: the body running, or `time.sleep(d)`. */
    method Advance(d: nat)
      modifies this
      ensures now == old(now) + d
    {
      now := now + d;
    }
  }

  /** One block under `timed_loop` (dgx/rlist.py:98-104) whose body takes `busy` seconds:
      returns the time slept and leaves the clock `max(nsec, busy)` seconds later than it found
      it. */
  method TimedLoop(clock: Clock, nsec: int, busy: nat) returns (slept: nat)
    modifies clock
    ensures slept == Wait(nsec, busy)
    ensures clock.now == old(clock.now) + Max(nsec, busy)
    ensures clock.now >= old(clock.now) + nsec
  {
    var tStart := clock.now;
    clock.Advance(busy);
    var tEnd := clock.now;
    var elapsed := tEnd - tStart;
    var tWait := nsec - elapsed;
    slept := 0;
    if tWait > 0 {
      clock.Advance(tWait);
      slept := tWait;
    }
  }

  /** Total time of refreshes whose bodies take `busy[0]`, `busy[1]`, ... seconds. */
  function Elapsed(nsec: int, busy: seq<nat>): int
    decreases |busy|
  {
    if busy == [] then 0 else Elapsed(nsec, busy[..|busy| - 1]) + Max(nsec, busy[|busy| - 1])
  }

  /** `n` refreshes take at least `n * nsec` seconds, and exactly that when no body overruns. */
  lemma {:induction false} ElapsedBounds(nsec: int, busy: seq<nat>)
    ensures Elapsed(nsec, busy) >= |busy| * nsec
    ensures (forall i :: 0 <= i < |busy| ==> busy[i] <= nsec) ==> Elapsed(nsec, busy) == |busy| * nsec
    decreases |busy|
  {
    if busy != [] {
      var n := |busy| - 1;
      ElapsedBounds(nsec, busy[..n]);
      assert forall i :: 0 <= i < n ==> busy[..n][i] == busy[i];
      assert |busy| * nsec == n * nsec + nsec;
    }
  }

  /** The first `|busy|` refreshes of `looping_table`'s `while True` loop, each inside `timed_loop`. */
  method Refreshes(clock: Clock, nsec: int, busy: seq<nat>)
    modifies clock
    ensures clock.now == old(clock.now) + Elapsed(nsec, busy)
    ensures clock.now >= old(clock.now) + |busy| * nsec
  {
    var i := 0;
    while i < |busy|
      invariant 0 <= i <= |busy|
      invariant clock.now == old(clock.now) + Elapsed(nsec, busy[..i])
    {
      assert busy[..i + 1][..i] == busy[..i];
      var _ := TimedLoop(clock, nsec, busy[i]);
      i := i + 1;
    }
    assert busy[..i] == busy;
    ElapsedBounds(nsec, busy);
  }
}
