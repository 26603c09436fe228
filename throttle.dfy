/**
 * `throttle(func, wait, options)` of tools/tools.js.
 *
 * The closure keeps `timeout` (the pending trailing timer), `previous` (the
 * time of the last run, 0 meaning "none yet" or "reset") and `args` (the
 * arguments of the latest call). A call at `now` first moves `previous` to
 * `now` when it is 0 and `leading` is `false`; then `remaining = wait - (now -
 * previous)`. When `remaining <= 0` or `remaining > wait` (the clock went
 * back), any pending timer is cleared and `func` runs at once. Otherwise, when
 * no timer is pending and `trailing` is not `false`, a timer is armed for
 * `remaining` ms. The timer (`later`) sets `previous` to 0 when `leading` is
 * `false` and to the current time otherwise, and runs `func` with the latest
 * arguments. `cancel` clears the timer and resets `previous` to 0.
 *
 * The clock is a parameter; each run of `func` is recorded in a log.
 */
module Throttle {
  import opened Wrappers

  /** One run of `func`: when and with what arguments. */
  datatype Invocation<A> = Invocation(time: int, args: A)

  /** `timer` holds the due time of the pending `later`; `args` is `null` as `None`. */
  datatype State<A> = State(timer: Option<int>, previous: int, args: Option<A>, log: seq<Invocation<A>>)

  /** `leading` / `trailing` are `false` only when the options give them as `false`. */
  datatype Config = Config(wait: nat, leading: bool, trailing: bool)

  /** Right after `throttle(...)`. */
  function Init<A>(): State<A> { State(None, 0, None, []) }

  /** `previous` as the call sees it after the `leading: false` adjustment. */
  function Previous<A>(cfg: Config, st: State<A>, now: int): int {
    if st.previous == 0 && !cfg.leading then now else st.previous
  }

  /** A call of the throttled function at `now` with arguments `a`. */
  function TriggerStep<A>(cfg: Config, st: State<A>, now: int, a: A): State<A> {
    var previous := Previous(cfg, st, now);
    var remaining := cfg.wait - (now - previous);
    if remaining <= 0 || remaining > cfg.wait then
      State(None, now, None, st.log + [Invocation(now, a)])
    else if st.timer.None? && cfg.trailing then
      State(Some(now + remaining), previous, Some(a), st.log)
    else
      State(st.timer, previous, Some(a), st.log)
  }

  /** The trailing timer `later`, run at `now`. */
  function FireStep<A>(cfg: Config, st: State<A>, now: int): State<A>
    requires st.timer.Some? && st.args.Some? && now >= st.timer.value
  {
    State(None, if !cfg.leading then 0 else now, None, st.log + [Invocation(now, st.args.value)])
  }

  /** `throttled.cancel()`. */
  function CancelStep<A>(st: State<A>): State<A> {
    st.(timer := None, previous := 0)
  }

  // ---- single steps ----------------------------------------------------------

  /**
   * When a call runs `func` at once, in terms of elapsed time: a full `wait`
   * has passed since the last run, or the clock went back; with `leading:
   * false` and no run to measure from, only when `wait` is 0.
   */
  predicate WindowOpen<A>(cfg: Config, st: State<A>, now: int) {
    if st.previous == 0 && !cfg.leading then cfg.wait == 0
    else now - st.previous >= cfg.wait || now < st.previous
  }

  /** A call runs `func` (once, with its own arguments) exactly when the window is open, and otherwise runs nothing. */
  lemma RunsIffWindowOpen<A>(cfg: Config, st: State<A>, now: int, a: A)
    ensures var st' := TriggerStep(cfg, st, now, a);
      (WindowOpen(cfg, st, now) ==> st'.log == st.log + [Invocation(now, a)] && st'.timer.None? && st'.previous == now)
      && (!WindowOpen(cfg, st, now) ==> st'.log == st.log)
  {
  }

  /**
   * An idle throttle arms its trailing timer exactly when the call does not
   * run `func` and `trailing` is on; the timer is due a full `wait` after the
   * run it measures from, and holds this call's arguments.
   */
  lemma TrailingTimerArmed<A>(cfg: Config, st: State<A>, now: int, a: A)
    requires st.timer.None?
    ensures var st' := TriggerStep(cfg, st, now, a);
      (st'.timer.Some? <==> cfg.trailing && !WindowOpen(cfg, st, now))
      && (st'.timer.Some? ==> st'.timer.value == Previous(cfg, st, now) + cfg.wait && st'.args == Some(a))
  {
  }

  /** With `leading: false` (and a positive `wait`) the first call, or the first after a reset, never runs at once. */
  lemma LeadingOffDefers<A>(cfg: Config, st: State<A>, now: int, a: A)
    requires !cfg.leading && cfg.wait > 0 && st.previous == 0
    ensures var st' := TriggerStep(cfg, st, now, a);
      st'.log == st.log && st'.previous == now
      && (st.timer.None? && cfg.trailing ==> st'.timer == Some(now + cfg.wait))
  {
  }

  /** A call inside the window while the timer is pending makes the timer run `func` with this call's arguments. */
  lemma LatestArgsWin<A>(cfg: Config, st: State<A>, now: int, a: A, t: int)
    requires st.timer.Some? && !WindowOpen(cfg, st, now) && t >= st.timer.value
    ensures var st' := TriggerStep(cfg, st, now, a);
      st'.timer == st.timer && st'.args == Some(a)
      && FireStep(cfg, st', t).log == st.log + [Invocation(t, a)]
  {
  }

  /** After `cancel`, with `leading` on, a call at an epoch time of at least `wait` runs `func` at once. */
  lemma CancelThenCallRuns<A>(cfg: Config, st: State<A>, now: int, a: A)
    requires cfg.leading && now >= cfg.wait
    ensures CancelStep(st).timer.None? && CancelStep(st).log == st.log
    ensures TriggerStep(cfg, CancelStep(st), now, a).log == st.log + [Invocation(now, a)]
  {
  }

  // ---- the rate bound --------------------------------------------------------

  /** Consecutive runs are at least `wait` apart. */
  predicate Spaced<A>(log: seq<Invocation<A>>, wait: nat) {
    forall i :: 0 < i < |log| ==> log[i].time >= log[i - 1].time + wait
  }

  lemma SpacedAppend<A>(log: seq<Invocation<A>>, wait: nat, x: Invocation<A>)
    requires Spaced(log, wait) && (log != [] ==> x.time >= log[|log| - 1].time + wait)
    ensures Spaced(log + [x], wait)
  {
    var log' := log + [x];
    forall i | 0 < i < |log'| ensures log'[i].time >= log'[i - 1].time + wait {
      if i < |log| { assert log'[i] == log[i] && log'[i - 1] == log[i - 1]; }
    }
  }

  /**
   * What holds between events, `clock` being the time of the last one: the
   * runs are spaced, `previous` is not ahead of the last run unless reset
   * with `leading: false`, and a pending timer is due `wait` after `previous`,
   * still in the future, with arguments to run.
   */
  ghost predicate Inv<A>(cfg: Config, st: State<A>, clock: int) {
    0 <= st.previous <= clock
    && (st.timer.Some? ==> st.args.Some? && st.timer.value == st.previous + cfg.wait && st.timer.value > clock)
    && (st.timer.Some? && !cfg.leading ==> st.previous != 0)
    && Spaced(st.log, cfg.wait)
    && (st.log != [] ==>
          0 < st.log[|st.log| - 1].time <= clock
          && ((!cfg.leading && st.previous == 0) || st.previous >= st.log[|st.log| - 1].time))
  }

  lemma InitInv<A>(cfg: Config)
    ensures Inv(cfg, Init<A>(), 0)
  {
  }

  /** A call at a positive time not before the clock keeps the invariant. */
  lemma TriggerKeepsInv<A>(cfg: Config, st: State<A>, clock: int, now: int, a: A)
    requires Inv(cfg, st, clock) && cfg.wait > 0 && now > 0 && now >= clock
    ensures Inv(cfg, TriggerStep(cfg, st, now, a), now)
  {
    var previous := Previous(cfg, st, now);
    var remaining := cfg.wait - (now - previous);
    if remaining <= 0 || remaining > cfg.wait {
      assert previous == st.previous && now >= st.previous + cfg.wait;
      SpacedAppend(st.log, cfg.wait, Invocation(now, a));
    }
  }

  /** The timer running when due keeps the invariant. */
  lemma FireKeepsInv<A>(cfg: Config, st: State<A>, clock: int, now: int)
    requires Inv(cfg, st, clock) && cfg.wait > 0 && st.timer.Some? && now >= st.timer.value
    ensures st.args.Some? && Inv(cfg, FireStep(cfg, st, now), now)
  {
    SpacedAppend(st.log, cfg.wait, Invocation(now, st.args.value));
  }

  // ---- the event loop ----------------------------------------------------------

  /** Before anything happens at `t`, the runtime runs a timer that is due by then. */
  function Advance<A>(cfg: Config, st: State<A>, t: int): State<A> {
    if st.timer.Some? && st.args.Some? && st.timer.value <= t then FireStep(cfg, st, st.timer.value) else st
  }

  /** Calls at the given times and arguments, with the due timers run in between. */
  function Run<A>(cfg: Config, st: State<A>, calls: seq<Invocation<A>>): State<A> {
    if calls == [] then st
    else
      var c := calls[|calls| - 1];
      TriggerStep(cfg, Advance(cfg, Run(cfg, st, calls[..|calls| - 1]), c.time), c.time, c.args)
  }

  /** Call times as a real clock gives them: positive and never going back. */
  predicate Monotone<A>(calls: seq<Invocation<A>>) {
    (forall i :: 0 <= i < |calls| ==> calls[i].time > 0)
    && (forall i :: 0 < i < |calls| ==> calls[i - 1].time <= calls[i].time)
  }

  lemma AdvanceKeepsInv<A>(cfg: Config, st: State<A>, clock: int, t: int)
    requires Inv(cfg, st, clock) && cfg.wait > 0 && t >= clock
    ensures Advance(cfg, st, t).timer.None? || Advance(cfg, st, t).timer.value > t
    ensures exists c :: clock <= c <= t && Inv(cfg, Advance(cfg, st, t), c)
  {
    if st.timer.Some? && st.timer.value <= t {
      FireKeepsInv(cfg, st, clock, st.timer.value);
      assert Inv(cfg, Advance(cfg, st, t), st.timer.value);
    } else {
      assert Inv(cfg, Advance(cfg, st, t), clock);
    }
  }

  lemma {:induction false} RunKeepsInv<A>(cfg: Config, calls: seq<Invocation<A>>)
    requires cfg.wait > 0 && Monotone(calls)
    ensures Inv(cfg, Run(cfg, Init(), calls), if calls == [] then 0 else calls[|calls| - 1].time)
  {
    if calls == [] {
      InitInv<A>(cfg);
    } else {
      var n := |calls|;
      var prefix := calls[..n - 1];
      var c := calls[n - 1];
      assert Monotone(prefix) by {
        assert forall i :: 0 <= i < |prefix| ==> prefix[i] == calls[i];
      }
      RunKeepsInv(cfg, prefix);
      var clock := if prefix == [] then 0 else prefix[|prefix| - 1].time;
      assert Inv(cfg, Run(cfg, Init(), prefix), clock);
      assert prefix != [] ==> prefix[|prefix| - 1] == calls[n - 2];
      var mid := Advance(cfg, Run(cfg, Init(), prefix), c.time);
      AdvanceKeepsInv(cfg, Run(cfg, Init(), prefix), clock, c.time);
      var k :| clock <= k <= c.time && Inv(cfg, mid, k);
      TriggerKeepsInv(cfg, mid, k, c.time, c.args);
    }
  }

  /**
   * However the calls come, `func` never runs twice within `wait` ms (as
   * long as the clock does not go back and `cancel` is not called), including
   * the trailing run still pending after the last call.
   */
  lemma RateBound<A>(cfg: Config, calls: seq<Invocation<A>>, later: int)
    requires cfg.wait > 0 && Monotone(calls) && calls != [] && later >= calls[|calls| - 1].time
    ensures Spaced(Run(cfg, Init(), calls).log, cfg.wait)
    ensures Spaced(Advance(cfg, Run(cfg, Init(), calls), later).log, cfg.wait)
  {
    RunKeepsInv(cfg, calls);
    AdvanceKeepsInv(cfg, Run(cfg, Init(), calls), calls[|calls| - 1].time, later);
  }

  /** With `trailing: false` no timer is ever armed. */
  lemma {:induction false} TrailingOffNeverArms<A>(cfg: Config, calls: seq<Invocation<A>>)
    requires !cfg.trailing
    ensures Run(cfg, Init(), calls).timer.None?
  {
    if calls != [] {
      TrailingOffNeverArms(cfg, calls[..|calls| - 1]);
    }
  }

  /**
   * `throttle(f, 1000)` called at T, T+200 and T+1100 (T an epoch time of at
   * least 1000): f runs at T with the first arguments, at T+1000 (the
   * trailing timer) with the second, and the third call arms a new timer for
   * T+2000.
   */
  lemma Scenario(t: int)
    requires t >= 1000
    ensures var st := Run(Config(1000, true, true), Init(), [Invocation(t, 1), Invocation(t + 200, 2), Invocation(t + 1100, 3)]);
      st.log == [Invocation(t, 1), Invocation(t + 1000, 2)] && st.timer == Some(t + 2000) && st.args == Some(3)
  {
    var cfg := Config(1000, true, true);
    var s0: State<int> := Init();
    var one := [Invocation(t, 1)];
    var two := one + [Invocation(t + 200, 2)];
    var three := two + [Invocation(t + 1100, 3)];
    assert one[..0] == [] && two[..1] == one && three[..2] == two;
    assert Run(cfg, s0, []) == s0;
    var s1 := Run(cfg, s0, one);
    assert s1 == TriggerStep(cfg, s0, t, 1);
    assert s1 == State(None, t, None, one);
    var s2 := Run(cfg, s0, two);
    assert s2 == TriggerStep(cfg, s1, t + 200, 2);
    assert s2 == State(Some(t + 1000), t, Some(2), one);
    var s2' := Advance(cfg, s2, t + 1100);
    assert s2' == State(None, t + 1000, None, one + [Invocation(t + 1000, 2)]);
    assert Run(cfg, s0, three) == TriggerStep(cfg, s2', t + 1100, 3);
    assert three == [Invocation(t, 1), Invocation(t + 200, 2), Invocation(t + 1100, 3)];
  }

  // ---- the closure -------------------------------------------------------------

  /** The object `throttle` returns: its closure variables as fields. */
  class Throttler<A, R> {
    const func: A -> R
    const wait: nat
    const leading: bool
    const trailing: bool
    var timeout: Option<int>
    var previous: int
    var args: Option<A>
    ghost var invocations: seq<Invocation<A>>

    function Settings(): Config { Config(wait, leading, trailing) }

    ghost function Model(): State<A>
      reads this
    {
      State(timeout, previous, args, invocations)
    }

    constructor (func: A -> R, wait: nat, leading: bool, trailing: bool)
      ensures this.func == func && Settings() == Config(wait, leading, trailing) && Model() == Init()
    {
      this.func := func;
      this.wait := wait;
      this.leading := leading;
      this.trailing := trailing;
      timeout := None;
      previous := 0;
      args := None;
      invocations := [];
    }

    /** `throttled(a)` at time `now`. */
    method Call(now: int, a: A)
      modifies this
      ensures Model() == TriggerStep(Settings(), old(Model()), now, a)
    {
      if previous == 0 && !leading {
        previous := now;
      }
      var remaining := wait - (now - previous);
      args := Some(a);
      if remaining <= 0 || remaining > wait {
        timeout := None;
        previous := now;
        var _ := func(a);
        invocations := invocations + [Invocation(now, a)];
        args := None;
      } else if timeout.None? && trailing {
        timeout := Some(now + remaining);
      }
    }

    /** The trailing timer `later`, at time `now`. */
    method Later(now: int)
      requires timeout.Some? && args.Some? && now >= timeout.value
      modifies this
      ensures Model() == FireStep(Settings(), old(Model()), now)
    {
      previous := if !leading then 0 else now;
      timeout := None;
      var _ := func(args.value);
      invocations := invocations + [Invocation(now, args.value)];
      args := None;
    }

    /** `throttled.cancel()`. */
    method Cancel()
      modifies this
      ensures Model() == CancelStep(old(Model()))
    {
      timeout := None;
      previous := 0;
    }
  }
}
