/**
 * `debounce(func, wait)`: the returned function cancels the pending timer and arms a new
 * one `wait` milliseconds ahead; when a timer fires, `func` runs with the arguments of the
 * call that armed it.
 */
module Debounce {
  import opened Wrappers

  class Debouncer<A> {
    const wait: int
    /** The closure's `timeout`: the arguments and firing time of the one armed timer. */
    var pending: Option<(A, int)>
    /** The calls of `func` so far, in order. */
    var invocations: seq<A>

    constructor (wait: int)
      ensures this.wait == wait && pending == None && invocations == []
    {
      this.wait := wait;
      pending := None;
      invocations := [];
    }

    /**
     * `executedFunction(...args)` at time `now`: the new timer replaces any pending one.
     * The event loop runs a due timer before it dispatches the next event, so a pending
     * timer has not yet come due when a call arrives.
     */
    method Call(args: A, now: int)
      requires pending.None? || now < pending.value.1
      modifies this
      ensures pending == Some((args, now + wait)) && invocations == old(invocations)
    {
      pending := Some((args, now + wait));
    }

    /** The clock reads `now`: a due timer runs `later`, which calls `func` once. */
    method Fire(now: int) returns (fired: bool)
      modifies this
      ensures fired <==> old(pending).Some? && old(pending).value.1 <= now
      ensures fired ==> (pending == None && invocations == old(invocations) + [old(pending).value.0])
      ensures !fired ==> (pending == old(pending) && invocations == old(invocations))
    {
      fired := false;
      match pending
      case None =>
      case Some((args, deadline)) =>
        if deadline <= now {
          pending := None;
          invocations := invocations + [args];
          fired := true;
        }
    }
  }

  /** Consecutive calls of the burst are less than `wait` apart. */
  predicate IsBurst<A>(burst: seq<(A, int)>, wait: int) {
    forall k :: 0 < k < |burst| ==> burst[k - 1].1 <= burst[k].1 < burst[k - 1].1 + wait
  }

  /**
   * A burst of calls, with the clock read once between each call and the next (at
   * `probes[k]`, no earlier than call `k` and no later than call `k + 1`), and then at `wait` after the last call: `func`
   * runs exactly once, with the last call's arguments.
   */
  method Burst<A>(wait: int, burst: seq<(A, int)>, probes: seq<int>) returns (invoked: seq<A>)
    requires |burst| > 0 && IsBurst(burst, wait) && |probes| == |burst| - 1
    requires forall k :: 0 <= k < |probes| ==> burst[k].1 <= probes[k] <= burst[k + 1].1
    ensures invoked == [burst[|burst| - 1].0]
  {
    var d := new Debouncer<A>(wait);
    var k := 0;
    while k < |burst|
      invariant 0 <= k <= |burst| && d.wait == wait && d.invocations == []
      invariant k == 0 ==> d.pending == None
      invariant k > 0 ==> d.pending == Some((burst[k - 1].0, burst[k - 1].1 + wait))
    {
      assert k > 0 ==> burst[k].1 < burst[k - 1].1 + wait;
      d.Call(burst[k].0, burst[k].1);
      if k + 1 < |burst| {
        assert probes[k] <= burst[k + 1].1 < burst[k].1 + wait;
        var _ := d.Fire(probes[k]);
      }
      k := k + 1;
    }
    var last := burst[|burst| - 1];
    var _ := d.Fire(last.1 + wait);
    invoked := d.invocations;
  }
}
