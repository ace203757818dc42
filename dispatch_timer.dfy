/**
 * The crash-safe timer of Sources/Utility/DispatchTimer.swift.
 *
 * The underlying dispatch timer source is represented by the trace of calls
 * made on it. Times are integer ticks. A fire of the source is an explicit
 * call of `Fire`, and the event handler is an id whose invocations are logged.
 */
module Timers {
  import opened Wrappers

  datatype State = Suspended | Resumed

  /** A call made on the underlying dispatch timer source. */
  datatype SourceCall =
    | Schedule(repeating: bool)
    | InstallHandler
    | ResumeCall
    | SuspendCall
    | ClearHandler
    | Cancel

  /** The resume and suspend calls of a trace, in order. */
  function Toggles(trace: seq<SourceCall>): (ts: seq<SourceCall>)
    ensures |ts| <= |trace|
    ensures forall c :: c in ts ==> c in trace && (c == ResumeCall || c == SuspendCall)
  {
    if trace == [] then []
    else
      var rest := Toggles(trace[..|trace| - 1]);
      var last := trace[|trace| - 1];
      if last == ResumeCall || last == SuspendCall then rest + [last] else rest
  }

  /** Resume and suspend calls strictly alternate, starting with resume. */
  ghost predicate Alternates(ts: seq<SourceCall>) {
    forall k :: 0 <= k < |ts| ==> ts[k] == if k % 2 == 0 then ResumeCall else SuspendCall
  }

  function Count(ts: seq<SourceCall>, c: SourceCall): (n: nat)
    ensures n <= |ts|
  {
    if ts == [] then 0 else Count(ts[..|ts| - 1], c) + (if ts[|ts| - 1] == c then 1 else 0)
  }

  /**
   * In an alternating trace the source has been resumed once more than it was
   * suspended exactly when the trace has odd length, and as often otherwise.
   */
  lemma {:induction false} ResumeSuspendBalance(ts: seq<SourceCall>)
    requires Alternates(ts)
    ensures Count(ts, ResumeCall) - Count(ts, SuspendCall) == if |ts| % 2 == 1 then 1 else 0
  {
    if ts != [] {
      var init := ts[..|ts| - 1];
      assert Alternates(init) by {
        forall k | 0 <= k < |init|
          ensures init[k] == if k % 2 == 0 then ResumeCall else SuspendCall
        {
          assert init[k] == ts[k];
        }
      }
      ResumeSuspendBalance(init);
    }
  }

  /** Filtering out the other calls does not change how many resume or suspend calls a trace has. */
  lemma {:induction false} CountToggles(trace: seq<SourceCall>, c: SourceCall)
    requires c == ResumeCall || c == SuspendCall
    ensures Count(Toggles(trace), c) == Count(trace, c)
  {
    if trace != [] {
      var init, last := trace[..|trace| - 1], trace[|trace| - 1];
      CountToggles(init, c);
      if last == ResumeCall || last == SuspendCall {
        assert (Toggles(init) + [last])[..|Toggles(init)|] == Toggles(init);
      }
    }
  }

  /** Extending a trace by one call extends its toggles by that call, if it is one. */
  lemma TogglesSnoc(trace: seq<SourceCall>, c: SourceCall)
    ensures Toggles(trace + [c]) == if c == ResumeCall || c == SuspendCall then Toggles(trace) + [c] else Toggles(trace)
  {
    assert (trace + [c])[..|trace|] == trace;
  }

  /** A toggle of the right kind keeps the trace alternating. */
  lemma AlternatesSnoc(ts: seq<SourceCall>, c: SourceCall)
    requires Alternates(ts) && c == if |ts| % 2 == 0 then ResumeCall else SuspendCall
    ensures Alternates(ts + [c])
  {
    forall k | 0 <= k < |ts| + 1
      ensures (ts + [c])[k] == if k % 2 == 0 then ResumeCall else SuspendCall
    {
      if k < |ts| {
        assert (ts + [c])[k] == ts[k];
      }
    }
  }

  /** The tolerance left after one suppressed fire. */
  function NextTolerance(tolerance: int, interval: int): (t: int)
    ensures t >= 0
    ensures interval > 0 && tolerance > 0 ==> t < tolerance
    ensures t == 0 || t == tolerance - interval
  {
    if tolerance - interval > 0 then tolerance - interval else 0
  }

  /** The tolerance after `k` fires, starting from `tolerance`. */
  function ToleranceAfter(tolerance: int, interval: int, k: nat): int {
    if k == 0 then tolerance
    else
      var t := ToleranceAfter(tolerance, interval, k - 1);
      if t > 0 then NextTolerance(t, interval) else t
  }

  /** How many fires a tolerance suppresses: the tolerance divided by the interval, rounded up. */
  function SuppressedFires(tolerance: int, interval: int): nat
    requires interval > 0
  {
    if tolerance <= 0 then 0 else (tolerance + interval - 1) / interval
  }

  /** While every earlier fire found a positive tolerance, each fire took one interval off it, down to 0. */
  lemma {:induction false} ToleranceCountdown(tolerance: int, interval: int, k: nat)
    requires interval > 0 && tolerance > 0 && (k - 1) * interval < tolerance
    ensures ToleranceAfter(tolerance, interval, k) == if tolerance - k * interval > 0 then tolerance - k * interval else 0
  {
    if k > 0 {
      assert (k - 2) * interval < (k - 1) * interval;
      ToleranceCountdown(tolerance, interval, k - 1);
      assert (k - 1) * interval == k * interval - interval;
    }
  }

  /** The rounded-up quotient covers the tolerance, and one interval fewer does not. */
  lemma CeilingBounds(tolerance: int, interval: int)
    requires interval > 0 && tolerance > 0
    ensures SuppressedFires(tolerance, interval) >= 1
    ensures SuppressedFires(tolerance, interval) * interval >= tolerance
    ensures (SuppressedFires(tolerance, interval) - 1) * interval < tolerance
  {
    var q, r := (tolerance + interval - 1) / interval, (tolerance + interval - 1) % interval;
    assert tolerance + interval - 1 == q * interval + r && 0 <= r < interval;
    assert (q - 1) * interval == q * interval - interval;
  }

  /**
   * With a positive interval, a tolerance swallows exactly `SuppressedFires`
   * consecutive fires: each of them finds a positive tolerance, and after the
   * last one none is left, so the next fire runs the handler.
   */
  lemma ToleranceSuppression(tolerance: int, interval: int)
    requires interval > 0
    ensures forall k: nat :: k < SuppressedFires(tolerance, interval) ==> ToleranceAfter(tolerance, interval, k) > 0
    ensures ToleranceAfter(tolerance, interval, SuppressedFires(tolerance, interval)) <= 0
    ensures tolerance > 0 ==> ToleranceAfter(tolerance, interval, SuppressedFires(tolerance, interval)) == 0
  {
    var n := SuppressedFires(tolerance, interval);
    if tolerance > 0 {
      CeilingBounds(tolerance, interval);
      forall k: nat | k < n
        ensures ToleranceAfter(tolerance, interval, k) > 0
      {
        assert k * interval <= (n - 1) * interval;
        assert (k - 1) * interval < k * interval;
        ToleranceCountdown(tolerance, interval, k);
      }
      ToleranceCountdown(tolerance, interval, n);
    }
  }

  class DispatchTimer {
    const timeInterval: int
    const repeating: bool
    var tolerance: int
    var eventHandler: Option<nat>
    var state: State
    /** The lazily created source exists. */
    var created: bool
    /** Every call made on the source, oldest first. */
    var source: seq<SourceCall>
    /** Every run of the event handler, by handler id. */
    var handled: seq<nat>

    ghost predicate Valid()
      reads this
    {
      Alternates(Toggles(source)) &&
      (state == Resumed <==> |Toggles(source)| % 2 == 1) &&
      (!created ==> source == [])
    }

    /**
     * The source has been resumed once more than suspended while this timer is
     * resumed, and as often as suspended while it is suspended.
     */
    lemma Balanced()
      requires Valid()
      ensures Count(source, ResumeCall) - Count(source, SuspendCall) == if state == Resumed then 1 else 0
    {
      CountToggles(source, ResumeCall);
      CountToggles(source, SuspendCall);
      ResumeSuspendBalance(Toggles(source));
    }

    /** The calls that create the source when it is first used. */
    function Creation(): seq<SourceCall>
      reads this
    {
      if created then [] else [Schedule(repeating), InstallHandler]
    }

    constructor (timeInterval: int, repeating: bool, handler: Option<nat>)
      ensures Valid()
      ensures this.timeInterval == timeInterval && this.repeating == repeating && eventHandler == handler
      ensures state == Suspended && tolerance == 0 && !created && source == [] && handled == []
    {
      this.timeInterval := timeInterval;
      this.repeating := repeating;
      eventHandler := handler;
      tolerance := 0;
      state := Suspended;
      created := false;
      source := [];
      handled := [];
    }

    /** Accesses the lazily created source, creating it on first use. */
    method Timer()
      requires !created ==> source == []
      modifies this
      ensures created && Toggles(source) == old(Toggles(source))
      ensures source == old(source) + old(Creation())
      ensures state == old(state) && tolerance == old(tolerance) && eventHandler == old(eventHandler)
      ensures handled == old(handled)
    {
      if !created {
        TogglesSnoc(source, Schedule(repeating));
        source := source + [Schedule(repeating)];
        TogglesSnoc(source, InstallHandler);
        source := source + [InstallHandler];
        created := true;
      }
    }

    /** Resumes the source unless this timer is already resumed. */
    method Resume()
      requires Valid()
      modifies this
      ensures Valid() && state == Resumed
      ensures old(state) == Resumed ==> unchanged(this)
      ensures old(state) == Suspended ==> source == old(source) + old(Creation()) + [ResumeCall]
      ensures tolerance == old(tolerance) && eventHandler == old(eventHandler) && handled == old(handled)
    {
      if state == Resumed {
        return;
      }
      state := Resumed;
      Timer();
      TogglesSnoc(source, ResumeCall);
      AlternatesSnoc(Toggles(source), ResumeCall);
      source := source + [ResumeCall];
    }

    /** Suspends the source unless this timer is already suspended. */
    method Suspend()
      requires Valid()
      modifies this
      ensures Valid() && state == Suspended
      ensures old(state) == Suspended ==> unchanged(this)
      ensures old(state) == Resumed ==> source == old(source) + old(Creation()) + [SuspendCall]
      ensures tolerance == old(tolerance) && eventHandler == old(eventHandler) && handled == old(handled)
    {
      if state == Suspended {
        return;
      }
      state := Suspended;
      Timer();
      TogglesSnoc(source, SuspendCall);
      AlternatesSnoc(Toggles(source), SuspendCall);
      source := source + [SuspendCall];
    }

    method SetTolerance(tolerance: int)
      modifies this
      ensures this.tolerance == tolerance
      ensures state == old(state) && source == old(source) && created == old(created)
      ensures eventHandler == old(eventHandler) && handled == old(handled)
    {
      this.tolerance := tolerance;
    }

    /**
     * The installed event handler, run by the source: a positive tolerance
     * swallows the fire and shrinks by one interval; otherwise the handler runs.
     */
    method Fire()
      requires Valid() && created && state == Resumed
      modifies this
      ensures Valid()
      ensures old(tolerance) > 0 ==> tolerance == NextTolerance(old(tolerance), timeInterval) && handled == old(handled)
      ensures old(tolerance) <= 0 ==>
        tolerance == old(tolerance) &&
        handled == old(handled) + (if eventHandler.Some? then [eventHandler.value] else [])
      ensures state == old(state) && source == old(source) && eventHandler == old(eventHandler)
    {
      if tolerance > 0 {
        tolerance := if 0 > tolerance - timeInterval then 0 else tolerance - timeInterval;
      } else {
        if eventHandler.Some? {
          handled := handled + [eventHandler.value];
        }
      }
    }

    /**
     * Teardown: replaces the source's handler, cancels the source, resumes it
     * if it was suspended (a suspended source may not be cancelled), and drops the handler.
     */
    method Deinit()
      requires Valid()
      modifies this
      ensures Valid() && state == Resumed && eventHandler == None
      ensures source == old(source) + old(Creation()) + [ClearHandler, Cancel] +
        (if old(state) == Suspended then [ResumeCall] else [])
      ensures tolerance == old(tolerance) && handled == old(handled)
    {
      Timer();
      ghost var toggles := Toggles(source);
      TogglesSnoc(source, ClearHandler);
      source := source + [ClearHandler];
      TogglesSnoc(source, Cancel);
      source := source + [Cancel];
      assert Toggles(source) == toggles;
      ghost var cancelled := source;
      assert cancelled == old(source) + old(Creation()) + [ClearHandler, Cancel];
      ghost var suspended := state == Suspended;
      Resume();
      if suspended {
        assert source == cancelled + [ResumeCall];
      } else {
        assert source == cancelled;
      }
      eventHandler := None;
    }
  }
}
