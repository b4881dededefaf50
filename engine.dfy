/** Model of the `GameEngine` class of packages/game-engine/src/GameEngine.ts:
    a bounded history of ticks, a queue of remote inputs, forward runs,
    rollback replays and the fixed-step game loop. The wall clock is a
    parameter: the callback receives the milliseconds elapsed since its
    previous call, and `Date.now()` readings are passed in as `now`. */
module Engine {

  import opened Wrappers
  import opened Game
  import opened History
  import opened Queue

  /** The two shapes of `run`'s argument: a forward step, or a recalculation
      of the tick at `stateIdx` with a corrected input. */
  datatype RunParams<A> = Forward(time: real, dt: real) | Recalculate(stateIdx: int, input: Input<A>)

  /** What one call of the loop callback did: it found `quit` set; it ran
      `steps` forward runs and handed `notified` to `onStateUpdate`; or it
      threw, which ends the loop because nothing reschedules it. */
  datatype Tick<A, P> = Stopped | Ran(steps: nat, notified: Option<GameState<A, P>>) | Threw

  /** `n` forward runs of the loop at step `dt`, each one `tick` after the
      one before and the last one at game time `t`. */
  function TickRuns<A, P>(s: seq<GameState<A, P>>, t: real, tick: real, dt: real, run: RunFn<A, P>, keep: nat, n: nat): (r: seq<GameState<A, P>>)
    requires (|s| >= 1 || n == 0) && keep >= 1
    ensures n > 0 ==> |r| >= 1
    decreases n
  {
    if n == 0 then s else Advance(TickRuns(s, t - tick, tick, dt, run, keep, n - 1), t, dt, run, keep)
  }

  /** The last of `n` runs comes one tick after the last of the `n - 1` before it. */
  lemma TickRunsUnfold<A, P>(s: seq<GameState<A, P>>, t: real, tick: real, dt: real, run: RunFn<A, P>, keep: nat, n: nat)
    requires |s| >= 1 && keep >= 1 && n > 0
    ensures TickRuns(s, t, tick, dt, run, keep, n) == Advance(TickRuns(s, t - tick, tick, dt, run, keep, n - 1), t, dt, run, keep)
  {
  }

  /** A forward run one tick after the last of `n` runs is the last of `n + 1`. */
  lemma TickRunsNext<A, P>(s: seq<GameState<A, P>>, t: real, tick: real, dt: real, run: RunFn<A, P>, keep: nat, n: nat,
                           prev: seq<GameState<A, P>>, next: seq<GameState<A, P>>)
    requires (|s| >= 1 || n == 0) && keep >= 1
    requires prev == TickRuns(s, t, tick, dt, run, keep, n) && |prev| >= 1
    requires next == Advance(prev, t + tick, dt, run, keep)
    ensures |s| >= 1
    ensures next == TickRuns(s, t + tick, tick, dt, run, keep, n + 1)
  {
    if n == 0 {
      assert prev == s;
    }
    var m := n + 1;
    var u := t + tick;
    assert m - 1 == n && u - tick == t;
    TickRunsUnfold(s, u, tick, dt, run, keep, m);
  }

  /** The loop's `n` runs leave the latest id `n` ahead, at game time `t`. */
  lemma {:induction false} TickRunsLatest<A(!new), P(!new)>(s: seq<GameState<A, P>>, t: real, tick: real, dt: real, run: RunFn<A, P>, keep: nat, n: nat)
    requires |s| >= 1 && keep >= 1
    requires PreservesHeader(run)
    ensures Last(TickRuns(s, t, tick, dt, run, keep, n)).id == Last(s).id + n
    ensures n > 0 ==> Last(TickRuns(s, t, tick, dt, run, keep, n)).time == t
    ensures n > 0 ==> Last(TickRuns(s, t, tick, dt, run, keep, n)).dt == dt
    decreases n
  {
    if n > 0 {
      var prev := TickRuns(s, t - tick, tick, dt, run, keep, n - 1);
      TickRunsLatest(s, t - tick, tick, dt, run, keep, n - 1);
      assert Last(prev).id == Last(s).id + n - 1;
      TickRunsUnfold(s, t, tick, dt, run, keep, n);
      var r := Advance(prev, t, dt, run, keep);
      assert r == TickRuns(s, t, tick, dt, run, keep, n);
      AdvanceHeader(prev, t, dt, run, keep);
      assert Last(r).id == Last(prev).id + 1;
    } else {
      assert TickRuns(s, t, tick, dt, run, keep, n) == s;
      assert Last(TickRuns(s, t, tick, dt, run, keep, n)).id == Last(s).id + n;
    }
  }

  lemma ScaleStrict(a: real, b: real, t: real)
    requires a < b && t > 0.0
    ensures a * t < b * t
  {
    assert (b - a) * t > 0.0;
  }

  lemma ScaleMono(a: real, b: real, t: real)
    requires a <= b && t > 0.0
    ensures a * t <= b * t
  {
    assert (b - a) * t >= 0.0;
  }

  /** `n * t`, built up one tick at a time as the loop does. */
  function Ticks(n: nat, t: real): real
  {
    if n == 0 then 0.0 else Ticks(n - 1, t) + t
  }

  lemma {:induction false} TicksIsProduct(n: nat, t: real)
    ensures Ticks(n, t) == (n as real) * t
  {
    if n > 0 {
      TicksIsProduct(n - 1, t);
      assert (n as real) * t == ((n - 1) as real) * t + t;
    }
  }

  /** A number of ticks that exceeds `a`; it bounds the loop. */
  ghost function TicksAbove(a: real, t: real): (n: nat)
    requires t > 0.0
    ensures a < Ticks(n, t)
  {
    if a < 0.0 then 0
    else
      var n := (a / t).Floor + 1;
      TicksIsProduct(n, t);
      assert (a / t) * t == a;
      ScaleStrict(a / t, n as real, t);
      n
  }

  /** `Ticks` never shrinks as the count grows. */
  lemma {:induction false} TicksMono(m: nat, n: nat, t: real)
    requires t > 0.0 && m <= n
    ensures Ticks(m, t) <= Ticks(n, t)
    decreases n
  {
    if m < n {
      TicksMono(m, n - 1, t);
    }
  }

  /** So fewer ticks are a smaller count. */
  lemma TicksBelow(m: nat, n: nat, t: real)
    requires t > 0.0 && Ticks(m, t) < Ticks(n, t)
    ensures m < n
  {
    if n <= m {
      TicksMono(n, m, t);
    }
  }

  /** `floor(x / tick)` is the one count `n` with `n * tick <= x < (n + 1) * tick`. */
  lemma StepsAreFloor(x: real, tick: real, n: nat)
    requires tick > 0.0 && 0.0 <= x
    requires (n as real) * tick <= x < (n as real + 1.0) * tick
    ensures (x / tick).Floor == n
  {
    var q := x / tick;
    var lo := n as real;
    assert q * tick == x;
    if q < lo {
      ScaleStrict(q, lo, tick);
    }
    if lo + 1.0 <= q {
      ScaleMono(lo + 1.0, q, tick);
    }
    assert lo <= q < lo + 1.0;
  }

  /** `x` holds `steps` whole ticks (none when it is negative) and `rest`
      is what is left over: less than one tick, and not negative once a
      tick has been taken. */
  ghost predicate WholeTicks(x: real, steps: nat, rest: real, tick: real)
    requires tick > 0.0
  {
    && rest == x - (steps as real) * tick
    && rest < tick
    && (steps > 0 ==> 0.0 <= rest)
    && steps == (if x >= 0.0 then (x / tick).Floor else 0)
  }

  /** The loop's count and remainder are the whole ticks of `x`. */
  lemma DueTicks(x: real, rest: real, tick: real, steps: nat)
    requires tick > 0.0
    requires rest == x - Ticks(steps, tick) && rest < tick && (steps > 0 ==> 0.0 <= rest)
    ensures WholeTicks(x, steps, rest, tick)
  {
    TicksIsProduct(steps, tick);
    if steps > 0 {
      TicksMono(1, steps, tick);
      assert x >= 0.0;
    }
    if x >= 0.0 {
      StepsAreFloor(x, tick, steps);
    }
  }

  /** Where the untouched prefix of the queue ends once the indices from
      `k` on have been spliced out (they are ascending). */
  function Bound<T>(q: seq<T>, indices: seq<nat>, k: nat): nat
    requires k <= |indices|
    requires forall j :: 0 <= j < |indices| ==> indices[j] < |q|
  {
    if k == |indices| then |q| else indices[k]
  }

  /** Indices are ascending, so none of those from `k - 1` on lies strictly
      between `indices[k - 1]` and the bound. */
  lemma RemoveStepGap<T>(q: seq<T>, indices: seq<nat>, k: nat, dropped: set<nat>)
    requires 0 < k <= |indices|
    requires forall j :: 0 <= j < |indices| ==> indices[j] < |q|
    requires forall j, l :: 0 <= j < l < |indices| ==> indices[j] < indices[l]
    requires dropped == Elements(indices[k - 1..])
    ensures indices[k - 1] < Bound(q, indices, k)
    ensures dropped == Elements(indices[k..]) + {indices[k - 1]}
    ensures forall j :: indices[k - 1] < j < Bound(q, indices, k) ==> j !in dropped
  {
    assert indices[k - 1..] == [indices[k - 1]] + indices[k..];
    forall j | j in dropped
      ensures j == indices[k - 1] || Bound(q, indices, k) <= j
    {
      var l :| 0 <= l < |indices[k - 1..]| && indices[k - 1..][l] == j;
      assert indices[k - 1 + l] == j;
      if l > 0 {
        assert indices[k] <= indices[k - 1 + l];
      }
    }
  }

  /** Splicing out `indices[k - 1]` extends the spliced part by that index. */
  lemma RemoveStep<T>(q: seq<T>, indices: seq<nat>, k: nat)
    requires 0 < k <= |indices|
    requires forall j :: 0 <= j < |indices| ==> indices[j] < |q|
    requires forall j, l :: 0 <= j < l < |indices| ==> indices[j] < indices[l]
    ensures var m := indices[k - 1];
      var bound := Bound(q, indices, k);
      var cur := q[..bound] + Without(q, Elements(indices[k..]), bound);
      m < bound && cur[..m] + cur[m + 1..] == q[..m] + Without(q, Elements(indices[k - 1..]), m)
  {
    var dropped' := Elements(indices[k - 1..]);
    RemoveStepGap(q, indices, k, dropped');
    SpliceAt(q, Elements(indices[k..]), dropped', indices[k - 1], Bound(q, indices, k));
  }

  /** Dropping `m` from a stretch of kept indices that ends at `bound`. */
  lemma SpliceAt<T>(q: seq<T>, dropped: set<nat>, dropped': set<nat>, m: nat, bound: nat)
    requires m < bound <= |q|
    requires dropped' == dropped + {m}
    requires forall j :: m < j < bound ==> j !in dropped'
    ensures var cur := q[..bound] + Without(q, dropped, bound);
      cur[..m] + cur[m + 1..] == q[..m] + Without(q, dropped', m)
  {
    WithoutStretch(q, dropped', m + 1, bound);
    WithoutIgnoresBelow(q, dropped, m, bound);
    var w := Without(q, dropped, bound);
    assert Without(q, dropped', bound) == w;
    assert Without(q, dropped', m) == q[m + 1..bound] + w by {
      assert m in dropped';
      assert Without(q, dropped', m) == Without(q, dropped', m + 1);
    }
    SpliceOut(q, w, m, bound);
  }

  lemma SpliceOut<T>(q: seq<T>, w: seq<T>, m: nat, bound: nat)
    requires m < bound <= |q|
    ensures var cur := q[..bound] + w;
      cur[..m] + cur[m + 1..] == q[..m] + (q[m + 1..bound] + w)
  {
    var cur := q[..bound] + w;
    assert cur[..m] == q[..m];
    assert cur[m + 1..] == q[m + 1..bound] + w;
  }

  /** The loop's tick in ms is positive, and in seconds it is `1 / fps`. */
  lemma TickLength(fps: nat)
    requires fps > 0
    ensures 1000.0 / (fps as real) > 0.0
    ensures (1000.0 / (fps as real)) / 1000.0 == 1.0 / (fps as real)
  {
  }

  class GameEngine<A(!new), P(!new)> {
    var startTime: int
    const runFn: RunFn<A, P>
    var states: seq<GameState<A, P>>
    var numStatesToKeep: nat
    /** The loop `exitGameLoopFn` would stop, if one is set. */
    var exitLoop: GameLoop?<A, P>
    var inputQueue: seq<QueueItem<A>>

    /** `slice(-numStatesToKeep)` keeps at least the newest state. */
    ghost predicate Valid()
      reads this
    {
      numStatesToKeep >= 1
    }

    constructor (engineRunFn: RunFn<A, P>, startingState: GameState<A, P>)
      ensures Valid()
      ensures runFn == engineRunFn && states == [startingState]
      ensures startTime == 0 && numStatesToKeep == 50 && exitLoop == null && inputQueue == []
    {
      startTime := 0;
      runFn := engineRunFn;
      states := [startingState];
      numStatesToKeep := 50;
      exitLoop := null;
      inputQueue := [];
    }

    /** The forward branch throws on an empty history; otherwise it appends the
        successor of the latest tick and trims to `numStatesToKeep`. The
        recalculation branch throws unless `stateIdx` indexes the history;
        otherwise it replays from there. */
    method Run(params: RunParams<A>) returns (o: Outcome)
      requires Valid()
      modifies this`states
      ensures params.Forward? ==> (o == Pass <==> |old(states)| > 0)
      ensures params.Forward? && o == Pass ==>
        states == Advance(old(states), params.time, params.dt, runFn, numStatesToKeep)
      ensures params.Recalculate? ==> (o == Pass <==> 0 <= params.stateIdx < |old(states)|)
      ensures params.Recalculate? && o == Pass ==>
        states == Replay(old(states), params.stateIdx, params.input, runFn)
      ensures o == Fail ==> states == old(states)
    {
      match params
      case Forward(time, dt) =>
        o := RunForward(time, dt);
      case Recalculate(idx, input) =>
        if !(0 <= idx < |states|) {
          return Fail;
        }
        ReplayFrom(idx, input);
        o := Pass;
    }

    /** `run({time, dt})`. */
    method RunForward(time: real, dt: real) returns (o: Outcome)
      requires Valid()
      modifies this`states
      ensures o == Pass <==> |old(states)| > 0
      ensures o == Pass ==> states == Advance(old(states), time, dt, runFn, numStatesToKeep)
      ensures o == Fail ==> states == old(states)
    {
      if |states| == 0 {
        return Fail;
      }
      var state := Last(states).(id := Last(states).id + 1, time := time, dt := dt);
      var newState := runFn(state, Seed(state.gameId, state.id));
      states := states + [newState];
      states := KeepLast(states, numStatesToKeep);
      o := Pass;
    }

    /** The replay loop: the tick at `idx` only gets the corrected input; each
        later tick gets it too and is recomputed from the corrected tick
        before it. */
    method ReplayFrom(idx: nat, input: Input<A>)
      requires idx < |states|
      modifies this`states
      ensures states == Replay(old(states), idx, input, runFn)
    {
      ghost var s0 := states;
      var i := idx;
      while i < |states|
        invariant idx <= i <= |states| == |s0|
        invariant forall j :: 0 <= j < idx ==> states[j] == s0[j]
        invariant forall j :: idx <= j < i ==> states[j] == ReplayedAt(s0, idx, input, runFn, j)
        invariant forall j :: i <= j < |states| ==> states[j] == s0[j]
      {
        if i == idx {
          states := states[i := states[i].(inputs := ReplaceInput(states[i].inputs, input))];
        } else {
          var s := states[i];
          var inputs := ReplaceInput(s.inputs, input);
          var toBeNewState := states[i - 1].(id := s.id, time := s.time, dt := s.dt);
          var newState := runFn(toBeNewState, Seed(toBeNewState.gameId, toBeNewState.id));
          assert newState.(inputs := inputs) == ReplayedAt(s0, idx, input, runFn, i) by {
            assert s == s0[i];
            assert states[i - 1] == ReplayedAt(s0, idx, input, runFn, i - 1);
          }
          states := states[i := newState.(inputs := inputs)];
        }
        i := i + 1;
      }
      ghost var r := Replay(s0, idx, input, runFn);
      ReplayAt(s0, idx, input, runFn);
      assert forall j :: 0 <= j < |states| ==> states[j] == r[j];
    }

    /** Without a tick id the input goes into the latest tick, if there is
        one. With a tick id, reading `states[0]` throws on an empty history;
        a tick older than the oldest retained one is dropped; any other is
        queued, last writer wins per tick and player, stamped with `ts` or,
        when that is missing or 0, with `now`. */
    method SetInput(input: Input<A>, stateId: Option<int>, ts: Option<int>, now: int) returns (o: Outcome)
      modifies this`states, this`inputQueue
      ensures stateId.None? ==> o == Pass && inputQueue == old(inputQueue)
      ensures stateId.None? && |old(states)| > 0 ==>
        states == old(states)[|old(states)| - 1 := Last(old(states)).(inputs := ReplaceInput(Last(old(states)).inputs, input))]
      ensures stateId.None? && |old(states)| == 0 ==> states == old(states)
      ensures stateId.Some? ==> states == old(states)
      ensures stateId.Some? ==> (o == Fail <==> |old(states)| == 0)
      ensures stateId.Some? && o == Pass && stateId.value < old(states)[0].id ==> inputQueue == old(inputQueue)
      ensures stateId.Some? && o == Pass && stateId.value >= old(states)[0].id ==>
        var stamp := if ts.None? || ts.value == 0 then now else ts.value;
        inputQueue == Enqueue(old(inputQueue), QueueItem(input, stateId.value, stamp))
      ensures o == Fail ==> inputQueue == old(inputQueue)
    {
      if stateId.None? {
        if |states| > 0 {
          var last := Last(states);
          states := states[|states| - 1 := last.(inputs := ReplaceInput(last.inputs, input))];
        }
        return Pass;
      }
      var stamp := if ts.None? || ts.value == 0 then now else ts.value;
      if |states| == 0 {
        return Fail;
      }
      if stateId.value < states[0].id {
        return Pass;
      }
      var item := QueueItem(input, stateId.value, stamp);
      o := Pass;
      match FindQueued(inputQueue, stateId.value, input.playerId)
      case None =>
        inputQueue := inputQueue + [item];
      case Some(k) =>
        inputQueue := inputQueue[k := item];
    }

    /** First catches up to the largest queued tick id, then replays every
        queued entry whose tick is in the history, in queue order, and removes
        exactly those entries. */
    method ProcessInputQueue() returns (o: Outcome)
      requires Valid()
      modifies this`states, this`inputQueue
      ensures o == Fail <==> CatchUp(old(states), old(inputQueue), runFn, numStatesToKeep).None?
      ensures o == Fail ==> states == old(states) && inputQueue == old(inputQueue)
      ensures o == Pass ==>
        var caughtUp := CatchUp(old(states), old(inputQueue), runFn, numStatesToKeep).value;
        && states == DrainStates(caughtUp, old(inputQueue), runFn, |old(inputQueue)|)
        && inputQueue == Remaining(caughtUp, old(inputQueue), runFn)
    {
      var currentStateId := CurrentStateId();
      var maxQueuedStateId := MaxStateId(inputQueue);
      if maxQueuedStateId.Some? && maxQueuedStateId.value != 0 && maxQueuedStateId.value > currentStateId {
        if |states| == 0 {
          return Fail;
        }
        var numStatesToFastForward: nat := maxQueuedStateId.value - currentStateId;
        FastForwardRuns(numStatesToFastForward);
      }
      ghost var caughtUp := states;
      assert caughtUp == CatchUp(old(states), old(inputQueue), runFn, numStatesToKeep).value;
      var indicesToRemove := ReplayQueued();
      RemoveIndices(indicesToRemove);
      o := Pass;
    }

    /** The `times(n, ...)` loop: forward run `i + 1` at the latest state's
        time multiplied by `i + 1`, with the latest state's step. */
    method FastForwardRuns(n: nat)
      requires Valid() && |states| >= 1
      modifies this`states
      ensures states == FastForward(old(states), Last(old(states)).time, Last(old(states)).dt, runFn, numStatesToKeep, 0, n)
    {
      var time, dt := Last(states).time, Last(states).dt;
      ghost var target := FastForward(states, time, dt, runFn, numStatesToKeep, 0, n);
      var i := 0;
      while i < n
        invariant 0 <= i <= n && |states| >= 1
        invariant FastForward(states, time, dt, runFn, numStatesToKeep, i, n) == target
      {
        var stateTime := time * ((i + 1) as real);
        FastForwardStep(states, time, dt, runFn, numStatesToKeep, i, n);
        var r := Run(Forward(stateTime, dt));
        i := i + 1;
      }
    }

    /** The second loop of `processInputQueue`: replays, in queue order, each
        entry whose tick is in the history, and returns their indices. */
    method ReplayQueued() returns (indicesToRemove: seq<nat>)
      requires Valid()
      modifies this`states
      ensures Drained(states, indicesToRemove) == Drain(old(states), inputQueue, runFn, |inputQueue|)
    {
      ghost var s0 := states;
      indicesToRemove := [];
      var i := 0;
      while i < |inputQueue|
        invariant i <= |inputQueue|
        invariant Drained(states, indicesToRemove) == Drain(s0, inputQueue, runFn, i)
      {
        DrainNext(s0, inputQueue, runFn, i);
        var queueItem := inputQueue[i];
        var stateIdx := StateIndexOf(states, queueItem.stateId);
        if stateIdx.Some? {
          var r := Run(Recalculate(stateIdx.value, queueItem.input));
          indicesToRemove := indicesToRemove + [i];
        }
        i := i + 1;
      }
    }

    /** `indicesToRemove.reverse().forEach(i => inputQueue.splice(i, 1))`. */
    method RemoveIndices(indices: seq<nat>)
      requires forall k :: 0 <= k < |indices| ==> indices[k] < |inputQueue|
      requires forall k, m :: 0 <= k < m < |indices| ==> indices[k] < indices[m]
      modifies this`inputQueue
      ensures inputQueue == Without(old(inputQueue), Elements(indices), 0)
    {
      ghost var q0 := inputQueue;
      var k := |indices|;
      while k > 0
        invariant 0 <= k <= |indices|
        invariant inputQueue == q0[..Bound(q0, indices, k)] + Without(q0, Elements(indices[k..]), Bound(q0, indices, k))
      {
        RemoveStep(q0, indices, k);
        k := k - 1;
        var m := indices[k];
        inputQueue := inputQueue[..m] + inputQueue[m + 1..];
      }
      WithoutStretch(q0, Elements(indices), 0, Bound(q0, indices, 0));
    }

    /** Stops the running loop, if any, and forgets it; a second call does nothing. */
    method StopGameLoop()
      modifies this`exitLoop, exitLoop
      ensures exitLoop == null
      ensures old(exitLoop) != null ==> old(exitLoop).quit
    {
      if exitLoop != null {
        exitLoop.quit := true;
        exitLoop := null;
      }
    }

    /** Starts a loop at `fps` ticks per second after stopping the current
        one: the tick is `1000 / fps` ms, the step `1 / fps` s, the history
        keeps `fps * 5` states, the time base is `startTime` or `now` when it
        is missing or 0, and the game time starts at `gameTime` or 0. The loop
        body runs once before `exitGameLoopFn` is set, so if that first call
        throws, no loop is registered. */
    method StartGameLoop(fps: nat, startTime: Option<int>, gameTime: Option<real>, hasObserver: bool, now: int, firstElapsed: int)
      returns (loop: GameLoop<A, P>, first: Tick<A, P>)
      requires Valid() && fps > 0
      modifies this, exitLoop
      ensures Valid()
      ensures fresh(loop) && loop.engine == this && loop.hasObserver == hasObserver
      ensures loop.tickTimeMs == 1000.0 / (fps as real) && loop.dtSeconds == 1.0 / (fps as real)
      ensures numStatesToKeep == fps * 5
      ensures this.startTime == if startTime.None? || startTime.value == 0 then now else startTime.value
      ensures old(exitLoop) != null ==> old(exitLoop).quit
      ensures !loop.quit && (first.Ran? || first.Threw?)
      ensures first.Ran? ==> exitLoop == loop
      ensures first.Threw? ==> exitLoop == null
      ensures first.Ran? ==> WholeTicks(firstElapsed as real, first.steps, loop.accumulator, loop.tickTimeMs)
      ensures first.Ran? ==>
        loop.time == (if gameTime.None? then 0.0 else gameTime.value) + firstElapsed as real - loop.accumulator
      ensures first.Threw? <==> |old(states)| == 0 && firstElapsed as real >= loop.tickTimeMs
      ensures first.Threw? || (first.Ran? && first.steps == 0) ==>
        states == old(states) && inputQueue == old(inputQueue)
      ensures first.Ran? && first.steps == 0 ==> first.notified.None?
      ensures first.Ran? && first.steps > 0 ==> |old(states)| >= 1
      ensures first.Ran? && first.steps > 0 && |old(states)| >= 1 ==>
        var ran := TickRuns(old(states), loop.time, loop.tickTimeMs, loop.dtSeconds, runFn, numStatesToKeep, first.steps);
        var caughtUp := CatchUp(ran, old(inputQueue), runFn, numStatesToKeep);
        && caughtUp.Some?
        && states == DrainStates(caughtUp.value, old(inputQueue), runFn, |old(inputQueue)|)
        && inputQueue == Remaining(caughtUp.value, old(inputQueue), runFn)
        && first.notified == (if hasObserver then Some(Last(states)) else None)
    {
      ghost var s0, q0 := states, inputQueue;
      var start := if startTime.None? || startTime.value == 0 then now else startTime.value;
      var g := if gameTime.None? then 0.0 else gameTime.value;
      StopGameLoop();
      assert states == s0 && inputQueue == q0;
      var tickTimeMs := 1000.0 / (fps as real);
      var timeTimeSeconds := tickTimeMs / 1000.0;
      TickLength(fps);
      numStatesToKeep := fps * 5;
      this.startTime := start;
      loop := new GameLoop(this, tickTimeMs, timeTimeSeconds, hasObserver, g);
      first := loop.Callback(firstElapsed);
      if first.Ran? {
        exitLoop := loop;
      }
    }

    /** Replaces the history wholesale; the queue, the time base and the loop
        are left as they are. */
    method LoadFromState(newStates: seq<GameState<A, P>>)
      modifies this`states
      ensures states == newStates
    {
      states := newStates;
    }

    /** `allStates()`: the retained history, oldest first. */
    function AllStates(): (r: seq<GameState<A, P>>)
      reads this
      ensures r == states
    {
      states
    }

    /** `currentState()`: a copy of the latest tick, undefined for an empty history. */
    function CurrentState(): (r: Option<GameState<A, P>>)
      reads this
      ensures r.Some? <==> |states| > 0
      ensures r.Some? ==> r.value == states[|states| - 1]
    {
      if |states| == 0 then None else Some(Last(states))
    }

    function CurrentStateId(): (r: int)
      reads this
      ensures |states| == 0 ==> r == 0
      ensures |states| > 0 ==> r == states[|states| - 1].id
    {
      LatestId(states)
    }

    function GameId(): (r: string)
      reads this
      ensures |states| == 0 ==> r == ""
      ensures |states| > 0 ==> r == states[|states| - 1].gameId
    {
      if |states| == 0 then "" else Last(states).gameId
    }
  }

  /** The state the `loop` closure of `startGameLoop` captures. */
  class GameLoop<A(!new), P(!new)> {
    const engine: GameEngine<A, P>
    const tickTimeMs: real
    const dtSeconds: real
    /** Whether an `onStateUpdate` callback was given. */
    const hasObserver: bool
    var time: real
    var quit: bool
    var accumulator: real

    ghost predicate Valid()
      reads this, engine
    {
      tickTimeMs > 0.0 && engine.Valid()
    }

    constructor (engine: GameEngine<A, P>, tickTimeMs: real, dtSeconds: real, hasObserver: bool, gameTime: real)
      requires tickTimeMs > 0.0
      ensures this.engine == engine && this.tickTimeMs == tickTimeMs && this.dtSeconds == dtSeconds
      ensures this.hasObserver == hasObserver
      ensures time == gameTime && !quit && accumulator == 0.0
    {
      this.engine := engine;
      this.tickTimeMs := tickTimeMs;
      this.dtSeconds := dtSeconds;
      this.hasObserver := hasObserver;
      time := gameTime;
      quit := false;
      accumulator := 0.0;
    }

    /** One call of the loop body, `elapsed` ms after the previous one. Once
        `quit` is set it does nothing. Otherwise it adds `elapsed` to the
        accumulator and runs forward `floor(accumulator / tickTimeMs)` times,
        leaving less than one tick in the accumulator; after at least one run
        it processes the input queue and hands the latest tick to the
        observer. It throws only when the history is empty. */
    method Callback(elapsed: int) returns (r: Tick<A, P>)
      requires Valid()
      modifies this`time, this`accumulator, engine`states, engine`inputQueue
      ensures Valid()
      ensures old(quit) <==> r.Stopped?
      ensures r.Stopped? ==>
        && time == old(time) && accumulator == old(accumulator)
        && engine.states == old(engine.states) && engine.inputQueue == old(engine.inputQueue)
      ensures r.Threw? <==> !old(quit) && |old(engine.states)| == 0 && old(accumulator) + elapsed as real >= tickTimeMs
      ensures r.Threw? ==> engine.states == old(engine.states) && engine.inputQueue == old(engine.inputQueue)
      ensures r.Ran? ==>
        && WholeTicks(old(accumulator) + elapsed as real, r.steps, accumulator, tickTimeMs)
        && time - old(time) == old(accumulator) + elapsed as real - accumulator
      ensures r.Ran? && r.steps == 0 ==>
        engine.states == old(engine.states) && engine.inputQueue == old(engine.inputQueue) && r.notified.None?
      ensures r.Ran? && r.steps > 0 ==> |old(engine.states)| >= 1
      ensures r.Ran? && r.steps > 0 && |old(engine.states)| >= 1 ==>
        var ran := TickRuns(old(engine.states), time, tickTimeMs, dtSeconds, engine.runFn, engine.numStatesToKeep, r.steps);
        var caughtUp := CatchUp(ran, old(engine.inputQueue), engine.runFn, engine.numStatesToKeep);
        && caughtUp.Some?
        && engine.states == DrainStates(caughtUp.value, old(engine.inputQueue), engine.runFn, |old(engine.inputQueue)|)
        && engine.inputQueue == Remaining(caughtUp.value, old(engine.inputQueue), engine.runFn)
        && r.notified == (if hasObserver then Some(Last(engine.states)) else None)
    {
      if quit {
        return Stopped;
      }
      ghost var x := accumulator + elapsed as real;
      accumulator := accumulator + elapsed as real;
      var steps, threw := RunDueTicks();
      if threw {
        return Threw;
      }
      DueTicks(x, accumulator, tickTimeMs, steps);
      var notified: Option<GameState<A, P>> := None;
      if steps > 0 {
        notified := CatchUpAndNotify();
      }
      r := Ran(steps, notified);
    }

    /** After at least one run: `processInputQueue`, then `onStateUpdate`
        with the latest tick. */
    method CatchUpAndNotify() returns (notified: Option<GameState<A, P>>)
      requires Valid() && |engine.states| >= 1
      modifies engine`states, engine`inputQueue
      ensures Valid()
      ensures var caughtUp := CatchUp(old(engine.states), old(engine.inputQueue), engine.runFn, engine.numStatesToKeep);
        && caughtUp.Some?
        && engine.states == DrainStates(caughtUp.value, old(engine.inputQueue), engine.runFn, |old(engine.inputQueue)|)
        && engine.inputQueue == Remaining(caughtUp.value, old(engine.inputQueue), engine.runFn)
        && notified == (if hasObserver then Some(Last(engine.states)) else None)
    {
      var o := engine.ProcessInputQueue();
      notified := None;
      if hasObserver {
        notified := engine.CurrentState();
      }
    }

    /** One pass of the loop body: the forward run one tick after `t`. */
    method ForwardTick(t: real, ghost s0: seq<GameState<A, P>>, ghost n: nat) returns (o: Outcome)
      requires Valid()
      requires |s0| >= 1 || n == 0
      requires engine.states == TickRuns(s0, t, tickTimeMs, dtSeconds, engine.runFn, engine.numStatesToKeep, n)
      modifies engine`states
      ensures o == Pass <==> |old(engine.states)| > 0
      ensures o == Fail ==> engine.states == old(engine.states)
      ensures o == Pass ==> |s0| >= 1
      ensures o == Pass ==>
        engine.states == TickRuns(s0, t + tickTimeMs, tickTimeMs, dtSeconds, engine.runFn, engine.numStatesToKeep, n + 1)
    {
      ghost var prev := engine.states;
      ghost var keep := engine.numStatesToKeep;
      o := engine.RunForward(t + tickTimeMs, dtSeconds);
      assert keep == engine.numStatesToKeep;
      if o == Pass {
        ghost var next := engine.states;
        TickRunsNext(s0, t, tickTimeMs, dtSeconds, engine.runFn, keep, n, prev, next);
      }
    }

    /** The `while (accumulator >= tickTimeMs)` loop: one forward run per
        whole tick in the accumulator. */
    method RunDueTicks() returns (steps: nat, threw: bool)
      requires Valid()
      modifies this`time, this`accumulator, engine`states
      ensures Valid()
      ensures threw <==> |old(engine.states)| == 0 && old(accumulator) >= tickTimeMs
      ensures threw ==> engine.states == old(engine.states)
      ensures !threw ==>
        && accumulator == old(accumulator) - Ticks(steps, tickTimeMs)
        && accumulator < tickTimeMs
        && (steps > 0 ==> 0.0 <= accumulator)
        && time == old(time) + Ticks(steps, tickTimeMs)
      ensures !threw && steps > 0 ==> |old(engine.states)| >= 1
      ensures !threw ==>
        engine.states == TickRuns(old(engine.states), time, tickTimeMs, dtSeconds, engine.runFn, engine.numStatesToKeep, steps)
    {
      threw := false;
      if |engine.states| == 0 {
        // With no latest state to copy, the first pass throws.
        steps := 0;
        if accumulator >= tickTimeMs {
          time := time + tickTimeMs;
          var o := engine.RunForward(time, dtSeconds);
          threw := true;
        }
        return;
      }
      steps := RunTicks();
    }

    /** The loop on a non-empty history, where no pass throws. */
    method RunTicks() returns (steps: nat)
      requires Valid() && |engine.states| > 0
      modifies this`time, this`accumulator, engine`states
      ensures Valid()
      ensures accumulator == old(accumulator) - Ticks(steps, tickTimeMs)
      ensures accumulator < tickTimeMs
      ensures steps > 0 ==> 0.0 <= accumulator
      ensures time == old(time) + Ticks(steps, tickTimeMs)
      ensures engine.states == TickRuns(old(engine.states), time, tickTimeMs, dtSeconds, engine.runFn, engine.numStatesToKeep, steps)
    {
      ghost var s0 := engine.states;
      ghost var a0, t0 := accumulator, time;
      var t := time;
      var acc := accumulator;
      steps := 0;
      ghost var bound := TicksAbove(acc, tickTimeMs);
      ghost var left: nat := bound;
      ghost var keep := engine.numStatesToKeep;
      while acc >= tickTimeMs
        modifies engine`states
        invariant engine.numStatesToKeep == keep
        invariant acc == a0 - Ticks(steps, tickTimeMs)
        invariant steps > 0 ==> acc >= 0.0
        invariant t == t0 + Ticks(steps, tickTimeMs)
        invariant steps > 0 ==> |s0| >= 1
        invariant engine.states == TickRuns(s0, t, tickTimeMs, dtSeconds, engine.runFn, keep, steps)
        invariant steps + left == bound && a0 < Ticks(bound, tickTimeMs)
        decreases left
      {
        TicksBelow(steps + 1, bound, tickTimeMs);
        left := left - 1;
        var o := ForwardTick(t, s0, steps);
        assert o == Pass;
        t := t + tickTimeMs;
        acc := acc - tickTimeMs;
        steps := steps + 1;
      }
      time, accumulator := t, acc;
    }
  }
}
