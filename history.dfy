/** What the engine's `run` does to the list of retained ticks, as functions of
    the old list (packages/game-engine/src/GameEngine.ts:57-64, 112-159). The
    methods of `Engine.GameEngine` are proved to compute exactly these. */
module History {

  import opened Wrappers
  import opened Game

  /** `inputs.findIndex(i => i.playerId === p)`, with `None` for -1. */
  function FindPlayer<A>(inputs: seq<Input<A>>, p: PlayerId): (r: Option<nat>)
    ensures r.Some? ==> r.value < |inputs|
  {
    if |inputs| == 0 then None
    else if inputs[0].playerId == p then Some(0)
    else match FindPlayer(inputs[1..], p)
      case None => None
      case Some(k) => Some(k + 1)
  }

  /** The index found is that of the player's first input; `None` means the
      player has no input. */
  lemma {:induction false} FindPlayerSpec<A>(inputs: seq<Input<A>>, p: PlayerId)
    ensures var r := FindPlayer(inputs, p);
      && (r.Some? ==> inputs[r.value].playerId == p)
      && (r.Some? ==> forall j :: 0 <= j < r.value ==> inputs[j].playerId != p)
      && (r.None? ==> forall j :: 0 <= j < |inputs| ==> inputs[j].playerId != p)
  {
    if |inputs| > 0 && inputs[0].playerId != p {
      FindPlayerSpec(inputs[1..], p);
      assert forall j :: 1 <= j < |inputs| ==> inputs[j] == inputs[1..][j - 1];
    }
  }

  /** `replaceInput`: the first input of the same player is overwritten,
      otherwise the input is appended. */
  function ReplaceInput<A>(inputs: seq<Input<A>>, x: Input<A>): (r: seq<Input<A>>)
  {
    match FindPlayer(inputs, x.playerId)
    case Some(k) => assert inputs[k := x][k] == x; inputs[k := x]
    case None => inputs + [x]
  }

  /** The new input is the one found for its player; every other entry keeps
      its place, and at most one entry is added, at the end. */
  lemma ReplaceInputSpec<A>(inputs: seq<Input<A>>, x: Input<A>)
    ensures var r := ReplaceInput(inputs, x);
      && FindPlayer(r, x.playerId).Some?
      && r[FindPlayer(r, x.playerId).value] == x
      && |r| == (if FindPlayer(inputs, x.playerId).Some? then |inputs| else |inputs| + 1)
      && (forall j :: 0 <= j < |inputs| && Some(j) != FindPlayer(inputs, x.playerId) ==> r[j] == inputs[j])
  {
    var r := ReplaceInput(inputs, x);
    FindPlayerSpec(inputs, x.playerId);
    FindPlayerSpec(r, x.playerId);
    match FindPlayer(inputs, x.playerId)
    case Some(k) =>
      assert r[k] == x;
      assert forall j :: 0 <= j < k ==> r[j] == inputs[j];
    case None =>
      assert r[|inputs|] == x;
      assert forall j :: 0 <= j < |inputs| ==> r[j] == inputs[j];
  }

  /** Other players' inputs are found where they were. */
  lemma ReplaceInputOthers<A>(inputs: seq<Input<A>>, x: Input<A>, q: PlayerId)
    requires q != x.playerId
    ensures FindPlayer(ReplaceInput(inputs, x), q) == FindPlayer(inputs, q)
  {
    var r := ReplaceInput(inputs, x);
    ReplaceInputSpec(inputs, x);
    FindPlayerSpec(inputs, x.playerId);
    FindPlayerSpec(inputs, q);
    FindPlayerSpec(r, q);
    match FindPlayer(inputs, q)
    case Some(k) =>
      assert r[k] == inputs[k];
    case None =>
      assert forall j :: 0 <= j < |r| ==> r[j].playerId != q by {
        forall j | 0 <= j < |r|
          ensures r[j].playerId != q
        {
          if j < |inputs| && Some(j) != FindPlayer(inputs, x.playerId) {
            assert r[j] == inputs[j];
          }
        }
      }
  }

  /** Replacing the same input twice is replacing it once. */
  lemma ReplaceInputIdempotent<A>(inputs: seq<Input<A>>, x: Input<A>)
    ensures ReplaceInput(ReplaceInput(inputs, x), x) == ReplaceInput(inputs, x)
  {
    var r := ReplaceInput(inputs, x);
    ReplaceInputSpec(inputs, x);
    var k := FindPlayer(r, x.playerId).value;
    assert r[k := x] == r;
  }

  function Last<T>(s: seq<T>): T
    requires |s| > 0
  {
    s[|s| - 1]
  }

  /** `s.slice(-n)` for a positive `n`: the last `n` elements, or all of them. */
  function KeepLast<T>(s: seq<T>, n: nat): (r: seq<T>)
    requires n >= 1
    ensures |r| == if |s| <= n then |s| else n
    ensures r == s[|s| - |r|..]
  {
    if |s| <= n then s else s[|s| - n..]
  }

  /** The state a forward run computes from the latest one: a copy with the
      next id and the given time and step, passed through `runFn` with the
      seed of that copy. */
  function Successor<A, P>(latest: GameState<A, P>, time: real, dt: real, run: RunFn<A, P>): GameState<A, P>
  {
    var next := latest.(id := latest.id + 1, time := time, dt := dt);
    run(next, Seed(next.gameId, next.id))
  }

  /** A forward `run({time, dt})` on a non-empty history. */
  function Advance<A, P>(s: seq<GameState<A, P>>, time: real, dt: real, run: RunFn<A, P>, keep: nat): (r: seq<GameState<A, P>>)
    requires |s| >= 1 && keep >= 1
  {
    KeepLast(s + [Successor(Last(s), time, dt, run)], keep)
  }

  /** A forward run appends the successor of the latest state, keeps the
      states before it as they were, and drops the oldest ones beyond `keep`. */
  lemma AdvanceSpec<A, P>(s: seq<GameState<A, P>>, time: real, dt: real, run: RunFn<A, P>, keep: nat)
    requires |s| >= 1 && keep >= 1
    ensures var r := Advance(s, time, dt, run, keep);
      && |r| == (if |s| + 1 <= keep then |s| + 1 else keep)
      && Last(r) == Successor(Last(s), time, dt, run)
      && r[..|r| - 1] == s[|s| + 1 - |r|..]
  {
    var t := s + [Successor(Last(s), time, dt, run)];
    var r := Advance(s, time, dt, run, keep);
    assert r == t[|t| - |r|..];
    assert r[..|r| - 1] == t[|t| - |r|..|t| - 1];
  }

  /** With a header-preserving transition the new latest state has the next
      id, the given time and step, the game id and the inputs of the old
      latest state. */
  lemma AdvanceHeader<A(!new), P(!new)>(s: seq<GameState<A, P>>, time: real, dt: real, run: RunFn<A, P>, keep: nat)
    requires |s| >= 1 && keep >= 1
    requires PreservesHeader(run)
    ensures var n := Last(Advance(s, time, dt, run, keep));
      n.id == Last(s).id + 1 && n.time == time && n.dt == dt
      && n.gameId == Last(s).gameId && n.inputs == Last(s).inputs
  {
    AdvanceSpec(s, time, dt, run, keep);
    var next := Last(s).(id := Last(s).id + 1, time := time, dt := dt);
    assert Successor(Last(s), time, dt, run) == run(next, Seed(next.gameId, next.id));
  }

  /** How the replay loop rebuilds tick `cur` from the already corrected tick
      before it: a copy of `prev` with `cur`'s id, time and step goes through
      `runFn` with the seed of that copy, and then gets `cur`'s inputs with
      `x` replaced in. */
  function Recomputed<A, P>(prev: GameState<A, P>, cur: GameState<A, P>, x: Input<A>, run: RunFn<A, P>): GameState<A, P>
  {
    var copy := prev.(id := cur.id, time := cur.time, dt := cur.dt);
    run(copy, Seed(copy.gameId, copy.id)).(inputs := ReplaceInput(cur.inputs, x))
  }

  /** Tick `i` (from `idx` on) after replaying input `x` from index `idx`. */
  function ReplayedAt<A, P>(s: seq<GameState<A, P>>, idx: nat, x: Input<A>, run: RunFn<A, P>, i: nat): GameState<A, P>
    requires idx <= i < |s|
    decreases i
  {
    if i == idx then s[idx].(inputs := ReplaceInput(s[idx].inputs, x))
    else Recomputed(ReplayedAt(s, idx, x, run, i - 1), s[i], x, run)
  }

  /** The first `n` ticks of the history once input `x` is replayed from `idx`. */
  function ReplayTo<A, P>(s: seq<GameState<A, P>>, idx: nat, x: Input<A>, run: RunFn<A, P>, n: nat): (r: seq<GameState<A, P>>)
    requires idx <= n <= |s|
    ensures |r| == n
    decreases n
  {
    if n == idx then s[..idx] else ReplayTo(s, idx, x, run, n - 1) + [ReplayedAt(s, idx, x, run, n - 1)]
  }

  lemma {:induction false} ReplayToAt<A, P>(s: seq<GameState<A, P>>, idx: nat, x: Input<A>, run: RunFn<A, P>, n: nat)
    requires idx <= n <= |s|
    ensures forall i :: 0 <= i < idx ==> ReplayTo(s, idx, x, run, n)[i] == s[i]
    ensures forall i :: idx <= i < n ==> ReplayTo(s, idx, x, run, n)[i] == ReplayedAt(s, idx, x, run, i)
    decreases n
  {
    if n > idx {
      ReplayToAt(s, idx, x, run, n - 1);
      var p := ReplayTo(s, idx, x, run, n - 1);
      assert ReplayTo(s, idx, x, run, n) == p + [ReplayedAt(s, idx, x, run, n - 1)];
    }
  }

  /** A replay `run({stateIdx: idx, input: x})` on a history that has index `idx`. */
  function Replay<A, P>(s: seq<GameState<A, P>>, idx: nat, x: Input<A>, run: RunFn<A, P>): (r: seq<GameState<A, P>>)
    requires idx < |s|
    ensures |r| == |s|
  {
    ReplayTo(s, idx, x, run, |s|)
  }

  /** The ticks before `idx` are kept, and every tick from `idx` on is the
      replayed one. */
  lemma ReplayAt<A, P>(s: seq<GameState<A, P>>, idx: nat, x: Input<A>, run: RunFn<A, P>)
    requires idx < |s|
    ensures forall i :: 0 <= i < idx ==> Replay(s, idx, x, run)[i] == s[i]
    ensures forall i :: idx <= i < |s| ==> Replay(s, idx, x, run)[i] == ReplayedAt(s, idx, x, run, i)
  {
    ReplayToAt(s, idx, x, run, |s|);
  }

  /** The target tick keeps its record and only its inputs change; every tick
      from the target on carries its own inputs with `x` replaced in; every
      later tick is recomputed from the corrected tick before it. */
  lemma ReplaySpec<A, P>(s: seq<GameState<A, P>>, idx: nat, x: Input<A>, run: RunFn<A, P>)
    requires idx < |s|
    ensures var r := Replay(s, idx, x, run);
      && r[idx] == s[idx].(inputs := ReplaceInput(s[idx].inputs, x))
      && (forall i :: idx <= i < |s| ==> r[i].inputs == ReplaceInput(s[i].inputs, x))
      && (forall i :: idx < i < |s| ==> r[i] == Recomputed(r[i - 1], s[i], x, run))
  {
    ReplayAt(s, idx, x, run);
  }

  /** After a replay every tick from the target on holds `x` for its player,
      and every other player's input is found as before. */
  lemma ReplayInputs<A, P>(s: seq<GameState<A, P>>, idx: nat, x: Input<A>, run: RunFn<A, P>, i: nat, q: PlayerId)
    requires idx <= i < |s|
    ensures var r := Replay(s, idx, x, run);
      && FindPlayer(r[i].inputs, x.playerId).Some?
      && r[i].inputs[FindPlayer(r[i].inputs, x.playerId).value] == x
      && (q != x.playerId ==> FindPlayer(r[i].inputs, q) == FindPlayer(s[i].inputs, q))
  {
    ReplaySpec(s, idx, x, run);
    ReplaceInputSpec(s[i].inputs, x);
    if q != x.playerId {
      ReplaceInputOthers(s[i].inputs, x, q);
    }
  }

  /** With a header-preserving transition a replay changes no tick's id,
      time or step. */
  lemma ReplayKeepsHeaders<A(!new), P(!new)>(s: seq<GameState<A, P>>, idx: nat, x: Input<A>, run: RunFn<A, P>)
    requires idx < |s|
    requires PreservesHeader(run)
    ensures var r := Replay(s, idx, x, run);
      forall i :: 0 <= i < |s| ==> r[i].id == s[i].id && r[i].time == s[i].time && r[i].dt == s[i].dt
  {
    var r := Replay(s, idx, x, run);
    ReplayAt(s, idx, x, run);
    forall i | idx < i < |s|
      ensures r[i].id == s[i].id && r[i].time == s[i].time && r[i].dt == s[i].dt
    {
      var prev := ReplayedAt(s, idx, x, run, i - 1);
      var copy := prev.(id := s[i].id, time := s[i].time, dt := s[i].dt);
      assert r[i] == run(copy, Seed(copy.gameId, copy.id)).(inputs := ReplaceInput(s[i].inputs, x));
    }
  }

  /** In a history of one game a replay changes no tick's game id. */
  lemma {:induction false} ReplayGameId<A(!new), P(!new)>(s: seq<GameState<A, P>>, idx: nat, x: Input<A>, run: RunFn<A, P>, i: nat)
    requires idx <= i < |s|
    requires PreservesHeader(run)
    requires SameGame(s)
    ensures ReplayedAt(s, idx, x, run, i).gameId == s[i].gameId
    decreases i
  {
    if i > idx {
      ReplayGameId(s, idx, x, run, i - 1);
      var prev := ReplayedAt(s, idx, x, run, i - 1);
      var copy := prev.(id := s[i].id, time := s[i].time, dt := s[i].dt);
      assert ReplayedAt(s, idx, x, run, i) == run(copy, Seed(copy.gameId, copy.id)).(inputs := ReplaceInput(s[i].inputs, x));
      assert s[i - 1].gameId == s[i].gameId;
    }
  }

  /** Every tick of the history belongs to the same game. */
  ghost predicate SameGame<A, P>(s: seq<GameState<A, P>>)
  {
    forall i, j :: 0 <= i < |s| && 0 <= j < |s| ==> s[i].gameId == s[j].gameId
  }

  /** Tick ids go up by one from each retained state to the next. */
  ghost predicate Consecutive<A, P>(s: seq<GameState<A, P>>)
  {
    forall i :: 0 < i < |s| ==> s[i].id == s[i - 1].id + 1
  }

  /** `cur` is what `runFn` makes of `prev` copied with `cur`'s id, time and
      step, up to the inputs stored on `cur` itself, which only matter for the
      tick after it. */
  ghost predicate Derived<A, P>(prev: GameState<A, P>, cur: GameState<A, P>, run: RunFn<A, P>)
  {
    var copy := prev.(id := cur.id, time := cur.time, dt := cur.dt);
    cur == run(copy, Seed(copy.gameId, copy.id)).(inputs := cur.inputs)
  }

  /** Every retained tick is the transition of the one before it. */
  ghost predicate Consistent<A, P>(s: seq<GameState<A, P>>, run: RunFn<A, P>)
  {
    forall i :: 0 < i < |s| ==> Derived(s[i - 1], s[i], run)
  }

  /** The tail the forward run keeps is a window of the old history plus the
      successor. */
  lemma AdvanceWindow<A, P>(s: seq<GameState<A, P>>, time: real, dt: real, run: RunFn<A, P>, keep: nat)
    requires |s| >= 1 && keep >= 1
    ensures var t := s + [Successor(Last(s), time, dt, run)];
      var r := Advance(s, time, dt, run, keep);
      forall i :: 0 <= i < |r| ==> r[i] == t[|t| - |r| + i]
  {
  }

  /** With a header-preserving transition the successor is the next tick
      of the same game. */
  lemma SuccessorHeader<A(!new), P(!new)>(latest: GameState<A, P>, time: real, dt: real, run: RunFn<A, P>)
    requires PreservesHeader(run)
    ensures Successor(latest, time, dt, run).id == latest.id + 1
    ensures Successor(latest, time, dt, run).gameId == latest.gameId
  {
    var next := latest.(id := latest.id + 1, time := time, dt := dt);
    assert Successor(latest, time, dt, run) == run(next, Seed(next.gameId, next.id));
  }

  lemma SameGameSnoc<A, P>(s: seq<GameState<A, P>>, n: GameState<A, P>)
    requires |s| >= 1 && SameGame(s) && n.gameId == Last(s).gameId
    ensures SameGame(s + [n])
  {
    var t := s + [n];
    assert forall i :: 0 <= i < |t| ==> t[i].gameId == Last(s).gameId;
  }

  lemma ConsecutiveSnoc<A, P>(s: seq<GameState<A, P>>, n: GameState<A, P>)
    requires |s| >= 1 && Consecutive(s) && n.id == Last(s).id + 1
    ensures Consecutive(s + [n])
  {
    var t := s + [n];
    assert forall i :: 0 < i < |t| ==> t[i].id == t[i - 1].id + 1;
  }

  lemma SuffixIds<A, P>(t: seq<GameState<A, P>>, k: nat, r: seq<GameState<A, P>>)
    requires k <= |t| && r == t[k..]
    ensures SameGame(t) ==> SameGame(r)
    ensures Consecutive(t) ==> Consecutive(r)
  {
    assert forall i :: 0 <= i < |r| ==> r[i] == t[k + i];
  }

  /** A forward run keeps the history one game and its ids consecutive. */
  lemma AdvanceIds<A(!new), P(!new)>(s: seq<GameState<A, P>>, time: real, dt: real, run: RunFn<A, P>, keep: nat)
    requires |s| >= 1 && keep >= 1
    requires PreservesHeader(run)
    ensures SameGame(s) ==> SameGame(Advance(s, time, dt, run, keep))
    ensures Consecutive(s) ==> Consecutive(Advance(s, time, dt, run, keep))
  {
    var n := Successor(Last(s), time, dt, run);
    SuccessorHeader(Last(s), time, dt, run);
    var t := s + [n];
    var r := Advance(s, time, dt, run, keep);
    assert r == t[|t| - |r|..];
    if SameGame(s) {
      SameGameSnoc(s, n);
    }
    if Consecutive(s) {
      ConsecutiveSnoc(s, n);
    }
    SuffixIds(t, |t| - |r|, r);
  }

  /** A forward run keeps a consistent history consistent. */
  lemma AdvanceConsistent<A(!new), P(!new)>(s: seq<GameState<A, P>>, time: real, dt: real, run: RunFn<A, P>, keep: nat)
    requires |s| >= 1 && keep >= 1
    requires PreservesHeader(run)
    requires Consistent(s, run)
    ensures Consistent(Advance(s, time, dt, run, keep), run)
  {
    var n := Successor(Last(s), time, dt, run);
    var t := s + [n];
    var r := Advance(s, time, dt, run, keep);
    AdvanceWindow(s, time, dt, run, keep);
    var next := Last(s).(id := Last(s).id + 1, time := time, dt := dt);
    var out := run(next, Seed(next.gameId, next.id));
    assert n == out;
    assert out.id == next.id && out.time == time && out.dt == dt && out.gameId == next.gameId;
    assert n == out.(inputs := n.inputs);
    assert Derived(Last(s), n, run);
    var d := |t| - |r|;
    forall i | 0 < i < |r|
      ensures Derived(r[i - 1], r[i], run)
    {
      assert r[i - 1] == t[d + i - 1] && r[i] == t[d + i];
      if d + i < |s| {
        assert Derived(s[d + i - 1], s[d + i], run);
      }
    }
  }

  /** A replay keeps the history one game, consecutive and consistent: the
      replayed history is again a chain of transitions. */
  lemma ReplayInvariants<A(!new), P(!new)>(s: seq<GameState<A, P>>, idx: nat, x: Input<A>, run: RunFn<A, P>)
    requires idx < |s|
    requires PreservesHeader(run)
    requires SameGame(s)
    ensures var r := Replay(s, idx, x, run);
      && SameGame(r)
      && (forall i :: 0 <= i < |s| ==> r[i].id == s[i].id && r[i].time == s[i].time && r[i].dt == s[i].dt)
      && (Consecutive(s) ==> Consecutive(r))
      && (Consistent(s, run) ==> Consistent(r, run))
  {
    var r := Replay(s, idx, x, run);
    ReplayAt(s, idx, x, run);
    ReplayKeepsHeaders(s, idx, x, run);
    forall i | 0 <= i < |s|
      ensures r[i].gameId == s[i].gameId
    {
      if i >= idx {
        ReplayGameId(s, idx, x, run, i);
      }
    }
    if Consistent(s, run) {
      forall i | 0 < i < |r|
        ensures Derived(r[i - 1], r[i], run)
      {
        if i < idx {
        } else if i == idx {
          assert Derived(s[i - 1], s[i], run);
          assert r[i - 1] == s[i - 1];
          assert r[i] == s[i].(inputs := r[i].inputs);
        } else {
          var copy := r[i - 1].(id := s[i].id, time := s[i].time, dt := s[i].dt);
          var out := run(copy, Seed(copy.gameId, copy.id));
          assert r[i] == out.(inputs := ReplaceInput(s[i].inputs, x));
          assert copy == r[i - 1].(id := r[i].id, time := r[i].time, dt := r[i].dt);
        }
      }
    }
  }

  /** Changing the inputs of the latest tick keeps a consistent history
      consistent: no retained tick was computed from them. */
  lemma SetLatestInputsInvariants<A, P>(s: seq<GameState<A, P>>, x: Input<A>, run: RunFn<A, P>)
    requires |s| >= 1
    ensures var r := s[|s| - 1 := Last(s).(inputs := ReplaceInput(Last(s).inputs, x))];
      && (SameGame(s) ==> SameGame(r))
      && (Consecutive(s) ==> Consecutive(r))
      && (Consistent(s, run) ==> Consistent(r, run))
  {
    var r := s[|s| - 1 := Last(s).(inputs := ReplaceInput(Last(s).inputs, x))];
    if Consistent(s, run) {
      forall i | 0 < i < |r|
        ensures Derived(r[i - 1], r[i], run)
      {
        assert Derived(s[i - 1], s[i], run);
        if i == |s| - 1 {
          assert r[i] == s[i].(inputs := r[i].inputs);
        }
      }
    }
  }

  /** A consistent history is determined by its first tick and by each tick's
      id, time, step and stored inputs: a replay yields exactly the history a
      re-simulation from the oldest retained tick would. */
  lemma {:induction false} ConsistentUnique<A(!new), P(!new)>(a: seq<GameState<A, P>>, b: seq<GameState<A, P>>, run: RunFn<A, P>, n: nat)
    requires PreservesHeader(run)
    requires |a| == |b| && 1 <= n <= |a|
    requires Consistent(a, run) && Consistent(b, run)
    requires a[0] == b[0]
    requires forall i :: 0 <= i < |a| ==>
      a[i].id == b[i].id && a[i].time == b[i].time && a[i].dt == b[i].dt && a[i].inputs == b[i].inputs
    ensures a[..n] == b[..n]
  {
    if n > 1 {
      ConsistentUnique(a, b, run, n - 1);
      var i := n - 1;
      assert Derived(a[i - 1], a[i], run) && Derived(b[i - 1], b[i], run);
      assert a[i - 1] == b[i - 1];
      assert a[i] == b[i];
      assert a[..n] == a[..n - 1] + [a[i]] && b[..n] == b[..n - 1] + [b[i]];
    }
  }

  /** The fast-forward of `processInputQueue` from its `j`-th step on: the
      forward runs `j + 1` to `n`, the `k`-th at time `time * k` with step `dt`. */
  function FastForward<A, P>(s: seq<GameState<A, P>>, time: real, dt: real, run: RunFn<A, P>, keep: nat, j: nat, n: nat): (r: seq<GameState<A, P>>)
    requires |s| >= 1 && keep >= 1 && j <= n
    ensures |r| >= 1
    decreases n - j
  {
    if j == n then s else FastForward(Advance(s, time * ((j + 1) as real), dt, run, keep), time, dt, run, keep, j + 1, n)
  }

  /** One run of the fast-forward, as the loop takes it. */
  lemma FastForwardStep<A, P>(s: seq<GameState<A, P>>, time: real, dt: real, run: RunFn<A, P>, keep: nat, j: nat, n: nat)
    requires |s| >= 1 && keep >= 1 && j < n
    ensures FastForward(s, time, dt, run, keep, j, n)
      == FastForward(Advance(s, time * ((j + 1) as real), dt, run, keep), time, dt, run, keep, j + 1, n)
  {
  }

  /** Fast-forwarding moves the latest id up by exactly the number of runs, and
      the latest time is that of the last run. */
  lemma {:induction false} FastForwardLatest<A(!new), P(!new)>(s: seq<GameState<A, P>>, time: real, dt: real, run: RunFn<A, P>, keep: nat, j: nat, n: nat)
    requires |s| >= 1 && keep >= 1 && j <= n
    requires PreservesHeader(run)
    ensures var r := FastForward(s, time, dt, run, keep, j, n);
      Last(r).id == Last(s).id + (n - j) && (j < n ==> Last(r).time == time * (n as real))
    decreases n - j
  {
    if j < n {
      var t := time * ((j + 1) as real);
      var a := Advance(s, t, dt, run, keep);
      AdvanceHeader(s, t, dt, run, keep);
      FastForwardLatest(a, time, dt, run, keep, j + 1, n);
    }
  }
}
