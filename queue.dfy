/** The queue of remote inputs and what `processInputQueue` does with it, as
    functions of the queue and the history
    (packages/game-engine/src/GameEngine.ts:70-105, 188-198). */
module Queue {

  import opened Wrappers
  import opened Game
  import opened History

  /** An input aimed at tick `stateId`, received at wall-clock time `ts`. */
  datatype QueueItem<A> = QueueItem(input: Input<A>, stateId: int, ts: int)

  /** `inputQueue.findIndex(q => q.stateId === stateId && q.input.playerId === p)`. */
  function FindQueued<A>(q: seq<QueueItem<A>>, stateId: int, p: PlayerId): (r: Option<nat>)
    ensures r.Some? ==> r.value < |q| && q[r.value].stateId == stateId && q[r.value].input.playerId == p
    ensures r.Some? ==> forall j :: 0 <= j < r.value ==> !(q[j].stateId == stateId && q[j].input.playerId == p)
    ensures r.None? ==> forall j :: 0 <= j < |q| ==> !(q[j].stateId == stateId && q[j].input.playerId == p)
  {
    if |q| == 0 then None
    else if q[0].stateId == stateId && q[0].input.playerId == p then Some(0)
    else match FindQueued(q[1..], stateId, p)
      case None => None
      case Some(k) => Some(k + 1)
  }

  predicate SamePair<A>(a: QueueItem<A>, b: QueueItem<A>)
  {
    a.stateId == b.stateId && a.input.playerId == b.input.playerId
  }

  /** No two queued entries aim at the same tick for the same player. */
  ghost predicate UniquePairs<A>(q: seq<QueueItem<A>>)
  {
    forall i, j :: 0 <= i < j < |q| ==> !SamePair(q[i], q[j])
  }

  /** `setInput` on the queue: the entry for the same tick and player is
      overwritten, otherwise the item is appended. */
  function Enqueue<A>(q: seq<QueueItem<A>>, item: QueueItem<A>): (r: seq<QueueItem<A>>)
    ensures |q| <= |r| <= |q| + 1 && item in r
  {
    match FindQueued(q, item.stateId, item.input.playerId)
    case Some(k) => assert q[k := item][k] == item; q[k := item]
    case None => q + [item]
  }

  /** Last writer wins: the item is the entry found for its pair; the queue
      grows by at most one entry; every entry for another pair stays where it
      was; and no pair is ever queued twice. */
  lemma EnqueueSpec<A>(q: seq<QueueItem<A>>, item: QueueItem<A>)
    ensures var r := Enqueue(q, item);
      && FindQueued(r, item.stateId, item.input.playerId).Some?
      && r[FindQueued(r, item.stateId, item.input.playerId).value] == item
      && |q| <= |r| <= |q| + 1
      && (forall j :: 0 <= j < |q| && !SamePair(q[j], item) ==> r[j] == q[j])
      && (UniquePairs(q) ==> UniquePairs(r))
  {
    var r := Enqueue(q, item);
    match FindQueued(q, item.stateId, item.input.playerId)
    case Some(k) =>
      assert r[k] == item;
      assert r[k].stateId == item.stateId && r[k].input.playerId == item.input.playerId;
      var f := FindQueued(r, item.stateId, item.input.playerId);
      assert f.Some?;
      if UniquePairs(q) {
        forall i, j | 0 <= i < j < |r|
          ensures !SamePair(r[i], r[j])
        {
          if i == k {
            assert SamePair(q[k], r[k]) && r[j] == q[j];
            assert !SamePair(q[i], q[j]);
          } else if j == k {
            assert SamePair(q[k], r[k]) && r[i] == q[i];
            assert !SamePair(q[i], q[j]);
          }
        }
      }
    case None =>
      assert r[|q|] == item;
  }

  /** `states.findIndex(s => s.id === id)`. */
  function StateIndexOf<A, P>(s: seq<GameState<A, P>>, id: int): (r: Option<nat>)
    ensures r.Some? ==> r.value < |s|
  {
    if |s| == 0 then None
    else if s[0].id == id then Some(0)
    else match StateIndexOf(s[1..], id)
      case None => None
      case Some(k) => Some(k + 1)
  }

  /** The index found is that of the first tick with the id; `None` means no
      tick has it. */
  lemma {:induction false} StateIndexOfSpec<A, P>(s: seq<GameState<A, P>>, id: int)
    ensures var r := StateIndexOf(s, id);
      && (r.Some? ==> s[r.value].id == id)
      && (r.Some? ==> forall j :: 0 <= j < r.value ==> s[j].id != id)
      && (r.None? ==> forall j :: 0 <= j < |s| ==> s[j].id != id)
  {
    if |s| > 0 && s[0].id != id {
      StateIndexOfSpec(s[1..], id);
      assert forall j :: 1 <= j < |s| ==> s[j] == s[1..][j - 1];
    }
  }

  /** Two histories with the same ids, tick by tick. */
  ghost predicate SameIds<A, P>(a: seq<GameState<A, P>>, b: seq<GameState<A, P>>)
  {
    |a| == |b| && forall i :: 0 <= i < |a| ==> a[i].id == b[i].id
  }

  lemma StateIndexOfSameIds<A, P>(a: seq<GameState<A, P>>, b: seq<GameState<A, P>>, id: int)
    requires SameIds(a, b)
    ensures StateIndexOf(a, id) == StateIndexOf(b, id)
  {
    StateIndexOfSpec(a, id);
    StateIndexOfSpec(b, id);
    match StateIndexOf(a, id)
    case Some(k) =>
      assert b[k].id == id;
      assert forall j :: 0 <= j < k ==> b[j].id != id by {
        assert forall j :: 0 <= j < k ==> a[j].id != id;
      }
    case None =>
      assert forall j :: 0 <= j < |b| ==> b[j].id != id by {
        assert forall j :: 0 <= j < |a| ==> a[j].id != id;
      }
  }

  /** `max(inputQueue.map(q => q.stateId))`: `None` (undefined) for an empty queue. */
  function MaxStateId<A>(q: seq<QueueItem<A>>): (r: Option<int>)
    ensures r.None? <==> |q| == 0
    ensures r.Some? ==> (forall j :: 0 <= j < |q| ==> q[j].stateId <= r.value)
    ensures r.Some? ==> exists j :: 0 <= j < |q| && q[j].stateId == r.value
  {
    if |q| == 0 then None
    else match MaxStateId(q[..|q| - 1])
      case None => Some(q[|q| - 1].stateId)
      case Some(m) =>
        if q[|q| - 1].stateId > m then Some(q[|q| - 1].stateId) else Some(m)
  }

  /** Where the replay loop stands after the first `i` entries of the queue:
      the history, in which every entry whose tick was retained when its turn
      came has been replayed at that tick, and `indicesToRemove`, the indices
      of those entries. */
  datatype Drained<A, P> = Drained(states: seq<GameState<A, P>>, handled: seq<nat>)

  function Drain<A, P>(s: seq<GameState<A, P>>, q: seq<QueueItem<A>>, run: RunFn<A, P>, i: nat): (r: Drained<A, P>)
    requires i <= |q|
    ensures |r.states| == |s|
    ensures forall k :: 0 <= k < |r.handled| ==> r.handled[k] < i
    ensures forall k, m :: 0 <= k < m < |r.handled| ==> r.handled[k] < r.handled[m]
  {
    if i == 0 then Drained(s, [])
    else
      var d := Drain(s, q, run, i - 1);
      match StateIndexOf(d.states, q[i - 1].stateId)
      case Some(k) => Drained(Replay(d.states, k, q[i - 1].input, run), d.handled + [i - 1])
      case None => d
  }

  /** The history after the first `i` entries. */
  function DrainStates<A, P>(s: seq<GameState<A, P>>, q: seq<QueueItem<A>>, run: RunFn<A, P>, i: nat): seq<GameState<A, P>>
    requires i <= |q|
  {
    Drain(s, q, run, i).states
  }

  /** `indicesToRemove` after the first `i` entries. */
  function HandledIndices<A, P>(s: seq<GameState<A, P>>, q: seq<QueueItem<A>>, run: RunFn<A, P>, i: nat): seq<nat>
    requires i <= |q|
  {
    Drain(s, q, run, i).handled
  }

  /** Entry `i` found its tick when its turn came, so it was replayed and is removed. */
  ghost predicate Handled<A, P>(s: seq<GameState<A, P>>, q: seq<QueueItem<A>>, run: RunFn<A, P>, i: nat)
    requires i < |q|
  {
    StateIndexOf(DrainStates(s, q, run, i), q[i].stateId).Some?
  }

  /** Entry `i`'s turn: it is replayed, and its index recorded, exactly when
      its tick is in the history as drained so far. */
  lemma DrainNext<A, P>(s: seq<GameState<A, P>>, q: seq<QueueItem<A>>, run: RunFn<A, P>, i: nat)
    requires i < |q|
    ensures var d := Drain(s, q, run, i);
      var k := StateIndexOf(d.states, q[i].stateId);
      Drain(s, q, run, i + 1) == (if k.Some? then Drained(Replay(d.states, k.value, q[i].input, run), d.handled + [i]) else d)
  {
    var j := i + 1;
    assert j - 1 == i;
  }

  /** Entry `i`'s index is recorded exactly when it is handled. */
  lemma HandledNext<A, P>(s: seq<GameState<A, P>>, q: seq<QueueItem<A>>, run: RunFn<A, P>, i: nat)
    requires i < |q|
    ensures HandledIndices(s, q, run, i + 1) == HandledIndices(s, q, run, i) + (if Handled(s, q, run, i) then [i] else [])
  {
    DrainNext(s, q, run, i);
  }

  /** An index is among the handled indices exactly when its entry was handled. */
  lemma {:induction false} HandledIndicesSpec<A, P>(s: seq<GameState<A, P>>, q: seq<QueueItem<A>>, run: RunFn<A, P>, i: nat, j: nat)
    requires j < i <= |q|
    ensures j in HandledIndices(s, q, run, i) <==> Handled(s, q, run, j)
  {
    var prev := HandledIndices(s, q, run, i - 1);
    var b := Handled(s, q, run, i - 1);
    HandledNext(s, q, run, i - 1);
    InAppended(prev, i - 1, b, j);
    if j < i - 1 {
      HandledIndicesSpec(s, q, run, i - 1, j);
    } else {
      assert forall k :: 0 <= k < |prev| ==> prev[k] < i - 1;
    }
  }

  lemma InAppended(a: seq<nat>, x: nat, b: bool, j: nat)
    ensures j in a + (if b then [x] else []) <==> j in a || (b && j == x)
  {
  }

  /** With a header-preserving transition the replays change no tick id. */
  lemma {:induction false} DrainKeepsIds<A(!new), P(!new)>(s: seq<GameState<A, P>>, q: seq<QueueItem<A>>, run: RunFn<A, P>, i: nat)
    requires i <= |q|
    requires PreservesHeader(run)
    ensures SameIds(DrainStates(s, q, run, i), s)
  {
    if i > 0 {
      DrainKeepsIds(s, q, run, i - 1);
      var d := DrainStates(s, q, run, i - 1);
      match StateIndexOf(d, q[i - 1].stateId)
      case Some(k) =>
        ReplayKeepsHeaders(d, k, q[i - 1].input, run);
      case None =>
    }
  }

  /** With a header-preserving transition an entry is handled exactly when
      its tick is in the history the replay loop starts from: entries for
      ticks no longer retained, or not reached yet, stay queued. */
  lemma HandledIff<A(!new), P(!new)>(s: seq<GameState<A, P>>, q: seq<QueueItem<A>>, run: RunFn<A, P>, i: nat)
    requires i < |q|
    requires PreservesHeader(run)
    ensures Handled(s, q, run, i) <==> exists k :: 0 <= k < |s| && s[k].id == q[i].stateId
  {
    DrainKeepsIds(s, q, run, i);
    StateIndexOfSameIds(DrainStates(s, q, run, i), s, q[i].stateId);
    StateIndexOfSpec(s, q[i].stateId);
    if exists k :: 0 <= k < |s| && s[k].id == q[i].stateId {
      var k :| 0 <= k < |s| && s[k].id == q[i].stateId;
      assert StateIndexOf(s, q[i].stateId).Some?;
    }
  }

  /** The replays keep the history one game, consecutive and consistent. */
  lemma {:induction false} DrainInvariants<A(!new), P(!new)>(s: seq<GameState<A, P>>, q: seq<QueueItem<A>>, run: RunFn<A, P>, i: nat)
    requires i <= |q|
    requires PreservesHeader(run)
    requires SameGame(s)
    ensures var r := DrainStates(s, q, run, i);
      && SameGame(r)
      && (Consecutive(s) ==> Consecutive(r))
      && (Consistent(s, run) ==> Consistent(r, run))
  {
    if i > 0 {
      DrainInvariants(s, q, run, i - 1);
      var d := DrainStates(s, q, run, i - 1);
      match StateIndexOf(d, q[i - 1].stateId)
      case Some(k) =>
        ReplayInvariants(d, k, q[i - 1].input, run);
      case None =>
    }
  }

  /** The entries of `q` from index `from` on whose index is not in `drop`, in order. */
  function Without<T>(q: seq<T>, drop: set<nat>, from: nat): (r: seq<T>)
    requires from <= |q|
    ensures |r| <= |q| - from
    decreases |q| - from
  {
    if from == |q| then []
    else if from in drop then Without(q, drop, from + 1)
    else [q[from]] + Without(q, drop, from + 1)
  }

  /** What `Without` keeps: every entry it returns is an entry of `q` at an
      index not dropped, and every entry at an index not dropped is kept. */
  lemma {:induction false} WithoutSpec<T>(q: seq<T>, drop: set<nat>, from: nat)
    requires from <= |q|
    ensures forall j :: from <= j < |q| && j !in drop ==> q[j] in Without(q, drop, from)
    ensures forall x :: x in Without(q, drop, from) ==> exists j :: from <= j < |q| && j !in drop && q[j] == x
    ensures (forall j :: from <= j < |q| ==> j !in drop) ==> Without(q, drop, from) == q[from..]
    decreases |q| - from
  {
    if from < |q| {
      WithoutSpec(q, drop, from + 1);
      if (forall j :: from <= j < |q| ==> j !in drop) {
        assert q[from..] == [q[from]] + q[from + 1..];
      }
    }
  }

  /** The indices from `from` up to `n` that are not in `drop`, ascending. */
  function KeptIndices(n: nat, drop: set<nat>, from: nat): (ks: seq<nat>)
    requires from <= n
    ensures forall k :: 0 <= k < |ks| ==> from <= ks[k] < n && ks[k] !in drop
    ensures forall k, l :: 0 <= k < l < |ks| ==> ks[k] < ks[l]
    ensures forall j :: from <= j < n && j !in drop ==> j in ks
    decreases n - from
  {
    if from == n then []
    else if from in drop then KeptIndices(n, drop, from + 1)
    else [from] + KeptIndices(n, drop, from + 1)
  }

  /** `Without` is an ordered filter: its `k`-th entry is the entry of `q` at
      the `k`-th index kept. */
  lemma {:induction false} WithoutInOrder<T>(q: seq<T>, drop: set<nat>, from: nat)
    requires from <= |q|
    ensures var ks := KeptIndices(|q|, drop, from);
      |Without(q, drop, from)| == |ks| &&
      forall k :: 0 <= k < |ks| ==> Without(q, drop, from)[k] == q[ks[k]]
    decreases |q| - from
  {
    if from < |q| {
      WithoutInOrder(q, drop, from + 1);
      if from !in drop {
        var ks := KeptIndices(|q|, drop, from);
        var ks' := KeptIndices(|q|, drop, from + 1);
        var w := Without(q, drop, from);
        assert ks == [from] + ks';
        assert w == [q[from]] + Without(q, drop, from + 1);
        forall k | 0 <= k < |ks|
          ensures w[k] == q[ks[k]]
        {
          if k > 0 {
            assert ks[k] == ks'[k - 1];
          }
        }
      }
    }
  }

  /** Indices below `from` do not matter to `Without`. */
  lemma {:induction false} WithoutIgnoresBelow<T>(q: seq<T>, drop: set<nat>, m: nat, from: nat)
    requires m < from <= |q|
    ensures Without(q, drop + {m}, from) == Without(q, drop, from)
    decreases |q| - from
  {
    if from < |q| {
      WithoutIgnoresBelow(q, drop, m, from + 1);
    }
  }

  /** Every index in `[a, b)` kept: `Without` copies that stretch whole. */
  lemma {:induction false} WithoutStretch<T>(q: seq<T>, drop: set<nat>, a: nat, b: nat)
    requires a <= b <= |q|
    requires forall j :: a <= j < b ==> j !in drop
    ensures Without(q, drop, a) == q[a..b] + Without(q, drop, b)
    decreases b - a
  {
    if a < b {
      WithoutStretch(q, drop, a + 1, b);
      assert a !in drop;
      assert Without(q, drop, a) == [q[a]] + Without(q, drop, a + 1);
      calc {
        Without(q, drop, a);
        [q[a]] + (q[a + 1..b] + Without(q, drop, b));
        ([q[a]] + q[a + 1..b]) + Without(q, drop, b);
        { assert [q[a]] + q[a + 1..b] == q[a..b]; }
        q[a..b] + Without(q, drop, b);
      }
    }
  }

  function Elements(s: seq<nat>): set<nat>
  {
    set x | x in s
  }

  /** `currentStateId()`: the latest id, or 0 for an empty history. */
  function LatestId<A, P>(s: seq<GameState<A, P>>): int
  {
    if |s| == 0 then 0 else Last(s).id
  }

  /** The first phase of `processInputQueue`: when the largest queued tick id
      is truthy and ahead of the latest id, the history is run forward by the
      difference, at the latest state's time multiplied by 1, 2, ... and with
      its step. `None` stands for the `TypeError` of reading the latest state
      of an empty history. */
  function CatchUp<A, P>(s: seq<GameState<A, P>>, q: seq<QueueItem<A>>, run: RunFn<A, P>, keep: nat): (r: Option<seq<GameState<A, P>>>)
    requires keep >= 1
  {
    if Ahead(s, q) then
      if |s| == 0 then None
      else Some(FastForward(s, Last(s).time, Last(s).dt, run, keep, 0, MaxStateId(q).value - LatestId(s)))
    else Some(s)
  }

  /** The largest queued tick id is truthy and ahead of the latest id. */
  predicate Ahead<A, P>(s: seq<GameState<A, P>>, q: seq<QueueItem<A>>)
  {
    var m := MaxStateId(q);
    m.Some? && m.value != 0 && m.value > LatestId(s)
  }

  /** After catching up, the latest tick is the largest queued one whenever
      that was ahead; otherwise nothing ran. Only an empty history with a
      truthy tick id queued ahead of 0 throws. */
  lemma CatchUpSpec<A(!new), P(!new)>(s: seq<GameState<A, P>>, q: seq<QueueItem<A>>, run: RunFn<A, P>, keep: nat)
    requires keep >= 1
    requires PreservesHeader(run)
    ensures CatchUp(s, q, run, keep).None? <==> Ahead(s, q) && |s| == 0
    ensures !Ahead(s, q) ==> CatchUp(s, q, run, keep) == Some(s)
    ensures Ahead(s, q) && |s| > 0 ==> LatestId(CatchUp(s, q, run, keep).value) == MaxStateId(q).value
  {
    if Ahead(s, q) && |s| > 0 {
      var n := MaxStateId(q).value - LatestId(s);
      var r := FastForward(s, Last(s).time, Last(s).dt, run, keep, 0, n);
      assert CatchUp(s, q, run, keep) == Some(r);
      FastForwardLatest(s, Last(s).time, Last(s).dt, run, keep, 0, n);
      assert Last(r).id == Last(s).id + n;
    }
  }

  /** The queue the second phase leaves: the entries that were not handled,
      in their order. */
  function Remaining<A, P>(s: seq<GameState<A, P>>, q: seq<QueueItem<A>>, run: RunFn<A, P>): (r: seq<QueueItem<A>>)
    ensures |r| <= |q|
  {
    Without(q, Elements(HandledIndices(s, q, run, |q|)), 0)
  }

  /** The indices of the entries of `q` whose tick is in `s`. */
  ghost function TickPresent<A, P>(s: seq<GameState<A, P>>, q: seq<QueueItem<A>>): set<nat>
  {
    set j: nat | j < |q| && exists k :: 0 <= k < |s| && s[k].id == q[j].stateId
  }

  /** With a header-preserving transition the queue keeps exactly the entries
      whose tick is not in the history, in their order: every entry left has
      no tick, every entry with no tick is left, and the `k`-th entry left is
      the `k`-th such entry of `q`. */
  lemma RemainingSpec<A(!new), P(!new)>(s: seq<GameState<A, P>>, q: seq<QueueItem<A>>, run: RunFn<A, P>)
    requires PreservesHeader(run)
    ensures forall x :: x in Remaining(s, q, run) ==>
      x in q && forall k :: 0 <= k < |s| ==> s[k].id != x.stateId
    ensures forall j :: 0 <= j < |q| && (forall k :: 0 <= k < |s| ==> s[k].id != q[j].stateId) ==>
      q[j] in Remaining(s, q, run)
    ensures var ks := KeptIndices(|q|, TickPresent(s, q), 0);
      |Remaining(s, q, run)| == |ks| &&
      forall k :: 0 <= k < |ks| ==> Remaining(s, q, run)[k] == q[ks[k]]
  {
    var handled := HandledIndices(s, q, run, |q|);
    var drop := Elements(handled);
    WithoutSpec(q, drop, 0);
    forall j: nat
      ensures j in drop <==> j in TickPresent(s, q)
    {
      if j < |q| {
        HandledIndicesSpec(s, q, run, |q|, j);
        HandledIff(s, q, run, j);
      } else {
        assert forall k :: 0 <= k < |handled| ==> handled[k] < |q|;
      }
    }
    assert drop == TickPresent(s, q);
    WithoutInOrder(q, drop, 0);
  }
}
