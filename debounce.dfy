/**
 * `debounce(func, wait, immediate)` of tools/tools.js.
 *
 * The closure keeps two variables, `timeout` (the pending timer) and
 * `result` (the last value `func` returned). A call clears the pending timer
 * and arms a new one `wait` ms ahead. With `immediate` the call runs `func`
 * at once when no timer was pending, and the timer only clears `timeout`;
 * without it, the timer runs `func` with the arguments of the call that armed
 * it. `cancel` clears the timer.
 *
 * Time is a parameter (the clock and the timer queue are the runtime's), and
 * each run of `func` is recorded in a log of invocations so that the
 * properties can speak of how often and with what arguments it ran.
 */
module Debounce {
  import opened Wrappers

  /** A pending `setTimeout`: when it is due and the arguments it captured. */
  datatype Timer<A> = Timer(due: int, args: A)

  /** One run of `func`: when and with what arguments. */
  datatype Invocation<A> = Invocation(time: int, args: A)

  datatype State<A, R> = State(timer: Option<Timer<A>>, result: Option<R>, log: seq<Invocation<A>>)

  datatype Config<!A, R> = Config(func: A -> R, wait: nat, immediate: bool)

  /** Right after `debounce(...)`: no timer, `result` undefined, nothing run. */
  function Init<A, R>(): State<A, R> { State(None, None, []) }

  /** A call of the debounced function at `now`; the call returns the new state's `result`. */
  function TriggerStep<A, R>(cfg: Config<A, R>, st: State<A, R>, now: int, args: A): State<A, R> {
    var armed := Some(Timer(now + cfg.wait, args));
    if cfg.immediate && st.timer.None? then
      State(armed, Some(cfg.func(args)), st.log + [Invocation(now, args)])
    else
      State(armed, st.result, st.log)
  }

  /** The pending timer's callback, run at `now`. */
  function FireStep<A, R>(cfg: Config<A, R>, st: State<A, R>, now: int): State<A, R>
    requires st.timer.Some? && now >= st.timer.value.due
  {
    if cfg.immediate then st.(timer := None)
    else State(None, st.result, st.log + [Invocation(now, st.timer.value.args)])
  }

  /** `debounced.cancel()`. */
  function CancelStep<A, R>(st: State<A, R>): State<A, R> {
    st.(timer := None)
  }

  // ---- single steps ----------------------------------------------------------

  /** A call always leaves exactly one timer, `wait` ahead, holding this call's arguments. */
  lemma TriggerArmsOneTimer<A, R>(cfg: Config<A, R>, st: State<A, R>, now: int, args: A)
    ensures TriggerStep(cfg, st, now, args).timer == Some(Timer(now + cfg.wait, args))
  {
  }

  /**
   * With `immediate`, a call runs `func` exactly when no timer was pending,
   * and then returns what `func` returned; otherwise it returns the earlier result.
   */
  lemma ImmediateRunsIffIdle<A, R>(cfg: Config<A, R>, st: State<A, R>, now: int, args: A)
    requires cfg.immediate
    ensures var st' := TriggerStep(cfg, st, now, args);
      (st'.log != st.log <==> st.timer.None?)
      && (st.timer.None? ==> st'.log == st.log + [Invocation(now, args)] && st'.result == Some(cfg.func(args)))
      && (st.timer.Some? ==> st'.result == st.result)
  {
    var st' := TriggerStep(cfg, st, now, args);
    if st.timer.None? { assert |st'.log| == |st.log| + 1; }
  }

  /** Without `immediate`, a call never runs `func` and never changes `result`. */
  lemma DeferredCallDoesNotRun<A, R>(cfg: Config<A, R>, st: State<A, R>, now: int, args: A)
    requires !cfg.immediate
    ensures var st' := TriggerStep(cfg, st, now, args); st'.log == st.log && st'.result == st.result
  {
  }

  /** The timer's callback: with `immediate` it only clears the timer; without it, it runs `func` once with the captured arguments. */
  lemma FireRunsCapturedArgs<A, R>(cfg: Config<A, R>, st: State<A, R>, now: int)
    requires st.timer.Some? && now >= st.timer.value.due
    ensures var st' := FireStep(cfg, st, now);
      st'.timer.None? && st'.result == st.result
      && st'.log == if cfg.immediate then st.log else st.log + [Invocation(now, st.timer.value.args)]
  {
  }

  /** `cancel` twice is `cancel` once; after it an immediate debouncer runs on the next call. */
  lemma CancelThenCall<A, R>(cfg: Config<A, R>, st: State<A, R>, now: int, args: A)
    requires cfg.immediate
    ensures CancelStep(CancelStep(st)) == CancelStep(st)
    ensures TriggerStep(cfg, CancelStep(st), now, args).log == st.log + [Invocation(now, args)]
  {
  }

  // ---- the event loop ----------------------------------------------------------

  /** Before anything happens at `t`, the runtime runs a timer that is due by then. */
  function Advance<A, R>(cfg: Config<A, R>, st: State<A, R>, t: int): State<A, R> {
    if st.timer.Some? && st.timer.value.due <= t then FireStep(cfg, st, st.timer.value.due) else st
  }

  /** Calls at the given times and arguments, with the due timers run in between. */
  function Run<A, R>(cfg: Config<A, R>, st: State<A, R>, calls: seq<Invocation<A>>): State<A, R> {
    if calls == [] then st
    else
      var c := calls[|calls| - 1];
      TriggerStep(cfg, Advance(cfg, Run(cfg, st, calls[..|calls| - 1]), c.time), c.time, c.args)
  }

  /** Each call comes before the timer the previous one armed is due. */
  predicate Burst(calls: seq<Invocation<int>>, wait: nat) {
    forall i :: 0 < i < |calls| ==> calls[i].time < calls[i - 1].time + wait
  }

  /** Each call comes after the timer the previous one armed is due. */
  predicate Sparse(calls: seq<Invocation<int>>, wait: nat) {
    forall i :: 0 < i < |calls| ==> calls[i].time >= calls[i - 1].time + wait
  }

  /**
   * A burst of calls on an idle deferred debouncer runs nothing while it
   * lasts and leaves one timer, due `wait` after the last call, with the
   * last call's arguments.
   */
  lemma {:induction false} DeferredBurst<R>(cfg: Config<int, R>, st: State<int, R>, calls: seq<Invocation<int>>)
    requires !cfg.immediate && st.timer.None? && |calls| >= 1 && Burst(calls, cfg.wait)
    ensures var last := calls[|calls| - 1];
      Run(cfg, st, calls) == State(Some(Timer(last.time + cfg.wait, last.args)), st.result, st.log)
  {
    if |calls| > 1 {
      var prefix := calls[..|calls| - 1];
      assert Burst(prefix, cfg.wait) by {
        forall i | 0 < i < |prefix| ensures prefix[i].time < prefix[i - 1].time + cfg.wait {
          assert prefix[i] == calls[i] && prefix[i - 1] == calls[i - 1];
        }
      }
      DeferredBurst(cfg, st, prefix);
      assert prefix[|prefix| - 1] == calls[|calls| - 2];
    }
  }

  /** After the burst the timer runs `func` once, with the last call's arguments. */
  lemma DeferredBurstRunsOnce<R>(cfg: Config<int, R>, st: State<int, R>, calls: seq<Invocation<int>>, later: int)
    requires !cfg.immediate && st.timer.None? && |calls| >= 1 && Burst(calls, cfg.wait)
    requires later >= calls[|calls| - 1].time + cfg.wait
    ensures var last := calls[|calls| - 1];
      Advance(cfg, Run(cfg, st, calls), later).log == st.log + [Invocation(last.time + cfg.wait, last.args)]
  {
    DeferredBurst(cfg, st, calls);
  }

  /** A deferred burst cancelled before its timer is due never runs `func`, however late the clock gets. */
  lemma CancelledBurstNeverRuns<R>(cfg: Config<int, R>, st: State<int, R>, calls: seq<Invocation<int>>, later: int)
    requires !cfg.immediate && st.timer.None? && |calls| >= 1 && Burst(calls, cfg.wait)
    ensures var st' := Advance(cfg, CancelStep(Run(cfg, st, calls)), later);
      st'.log == st.log && st'.timer.None? && st'.result == st.result
  {
    DeferredBurst(cfg, st, calls);
  }

  /**
   * A burst of calls on an idle immediate debouncer runs `func` once, at the
   * first call and with its arguments, and every call returns that result.
   */
  lemma {:induction false} ImmediateBurst<R>(cfg: Config<int, R>, st: State<int, R>, calls: seq<Invocation<int>>)
    requires cfg.immediate && st.timer.None? && |calls| >= 1 && Burst(calls, cfg.wait)
    ensures var first, last := calls[0], calls[|calls| - 1];
      Run(cfg, st, calls)
        == State(Some(Timer(last.time + cfg.wait, last.args)), Some(cfg.func(first.args)), st.log + [first])
  {
    if |calls| > 1 {
      var prefix := calls[..|calls| - 1];
      assert Burst(prefix, cfg.wait) by {
        forall i | 0 < i < |prefix| ensures prefix[i].time < prefix[i - 1].time + cfg.wait {
          assert prefix[i] == calls[i] && prefix[i - 1] == calls[i - 1];
        }
      }
      ImmediateBurst(cfg, st, prefix);
      assert prefix[0] == calls[0];
      assert prefix[|prefix| - 1] == calls[|calls| - 2];
    }
  }

  /** The arguments of the calls, each run `wait` after its call. */
  function Deferred(calls: seq<Invocation<int>>, wait: nat): (runs: seq<Invocation<int>>)
    ensures |runs| == |calls|
    ensures forall i :: 0 <= i < |calls| ==> runs[i] == Invocation(calls[i].time + wait, calls[i].args)
  {
    if calls == [] then [] else Deferred(calls[..|calls| - 1], wait) + [Invocation(calls[|calls| - 1].time + wait, calls[|calls| - 1].args)]
  }

  /**
   * Calls spaced at least `wait` apart are all run by a deferred debouncer,
   * each `wait` after its call: all but the last by the time the last call
   * comes, whose own timer is then pending.
   */
  lemma {:induction false} DeferredSparse<R>(cfg: Config<int, R>, st: State<int, R>, calls: seq<Invocation<int>>)
    requires !cfg.immediate && st.timer.None? && |calls| >= 1 && Sparse(calls, cfg.wait)
    ensures var last := calls[|calls| - 1];
      Run(cfg, st, calls)
        == State(Some(Timer(last.time + cfg.wait, last.args)), st.result, st.log + Deferred(calls[..|calls| - 1], cfg.wait))
  {
    var n := |calls|;
    if n > 1 {
      var prefix := calls[..n - 1];
      assert Sparse(prefix, cfg.wait) by {
        forall i | 0 < i < |prefix| ensures prefix[i].time >= prefix[i - 1].time + cfg.wait {
          assert prefix[i] == calls[i] && prefix[i - 1] == calls[i - 1];
        }
      }
      DeferredSparse(cfg, st, prefix);
      var prev := calls[n - 2];
      assert prefix[|prefix| - 1] == prev;
      assert prefix[..|prefix| - 1] == calls[..n - 2];
      assert calls[..n - 1][..n - 2] == calls[..n - 2];
      assert Deferred(calls[..n - 1], cfg.wait)
          == Deferred(calls[..n - 2], cfg.wait) + [Invocation(prev.time + cfg.wait, prev.args)];
    }
  }

  /** Calls at 0 and 100 on `debounce(f, 500, true)`: f runs at 0 only; after the timer at 600 the next call runs it again. */
  lemma ImmediateScenario(f: int -> int)
    ensures var cfg := Config(f, 500, true);
      var st := Run(cfg, Init(), [Invocation(0, 1), Invocation(100, 2)]);
      st.log == [Invocation(0, 1)] && st.result == Some(f(1)) && st.timer == Some(Timer(600, 2))
      && Run(cfg, Init(), [Invocation(0, 1), Invocation(100, 2), Invocation(600, 3)]).log
         == [Invocation(0, 1), Invocation(600, 3)]
  {
    var cfg := Config(f, 500, true);
    var s0: State<int, int> := Init();
    var one := [Invocation(0, 1)];
    var two := one + [Invocation(100, 2)];
    var three := two + [Invocation(600, 3)];
    assert one[..0] == [] && two[..1] == one && three[..2] == two;
    assert Run(cfg, s0, []) == s0;
    assert Advance(cfg, s0, 0) == s0;
    var s1 := Run(cfg, s0, one);
    assert s1 == TriggerStep(cfg, s0, 0, 1);
    assert s1 == State(Some(Timer(500, 1)), Some(f(1)), one);
    var s2 := Run(cfg, s0, two);
    assert s2 == State(Some(Timer(600, 2)), Some(f(1)), one);
    assert Advance(cfg, s2, 600) == s2.(timer := None);
    assert Run(cfg, s0, three) == TriggerStep(cfg, s2.(timer := None), 600, 3);
    assert Run(cfg, s0, three).log == one + [Invocation(600, 3)];
    assert three == [Invocation(0, 1), Invocation(100, 2), Invocation(600, 3)];
  }

  // ---- the closure -------------------------------------------------------------

  /** The object `debounce` returns: its closure variables as fields. */
  class Debouncer<A, R> {
    const func: A -> R
    const wait: nat
    const immediate: bool
    var timeout: Option<Timer<A>>
    var result: Option<R>
    ghost var invocations: seq<Invocation<A>>

    function Settings(): Config<A, R> { Config(func, wait, immediate) }

    ghost function Model(): State<A, R>
      reads this
    {
      State(timeout, result, invocations)
    }

    constructor (func: A -> R, wait: nat, immediate: bool)
      ensures Settings() == Config(func, wait, immediate) && Model() == Init()
    {
      this.func := func;
      this.wait := wait;
      this.immediate := immediate;
      timeout := None;
      result := None;
      invocations := [];
    }

    /** `debounced(args)` at time `now`. */
    method Call(now: int, args: A) returns (r: Option<R>)
      modifies this
      ensures Model() == TriggerStep(Settings(), old(Model()), now, args)
      ensures r == result
    {
      var callNow := timeout.None?;
      timeout := Some(Timer(now + wait, args));
      if immediate && callNow {
        result := Some(func(args));
        invocations := invocations + [Invocation(now, args)];
      }
      r := result;
    }

    /** The pending timer's callback, at time `now`. */
    method Fire(now: int)
      requires timeout.Some? && now >= timeout.value.due
      modifies this
      ensures Model() == FireStep(Settings(), old(Model()), now)
    {
      if immediate {
        timeout := None;
      } else {
        var args := timeout.value.args;
        timeout := None;
        var _ := func(args);
        invocations := invocations + [Invocation(now, args)];
      }
    }

    /** `debounced.cancel()`. */
    method Cancel()
      modifies this
      ensures Model() == CancelStep(old(Model()))
    {
      timeout := None;
    }
  }
}
