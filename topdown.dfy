/** Model of packages/game-engine/src/sampleEngines/TopDownEngine.ts: a sample
    game in which every input moves its player's entity by the input's axis,
    scaled by the tick's `dt` and the engine's movement speed. */
module TopDown {

  import opened Wrappers
  import opened Game
  import Engine

  datatype Point = Point(x: real, y: real)

  const Origin := Point(0.0, 0.0)

  function Plus(a: Point, b: Point): Point
  {
    Point(a.x + b.x, a.y + b.y)
  }

  /** A player's avatar; its id is the `playerId` of the input that created it. */
  datatype Entity = Entity(id: PlayerId, pos: Point)

  /** The game-specific part of a tick: `axis` on each input, `entities` on the state. */
  type State = GameState<Point, seq<Entity>>

  /** `entities.find(e => e.id === playerId)`: the index of the first entity
      with that id. */
  function Find(es: seq<Entity>, id: PlayerId): (r: Option<nat>)
    ensures r.Some? ==> r.value < |es| && es[r.value].id == id
    ensures r.Some? ==> forall j :: 0 <= j < r.value ==> es[j].id != id
    ensures r.None? ==> forall j :: 0 <= j < |es| ==> es[j].id != id
  {
    if |es| == 0 then None
    else if es[0].id == id then Some(0)
    else match Find(es[1..], id)
      case None => None
      case Some(k) => assert es[k + 1] == es[1..][k]; Some(k + 1)
  }

  /** How far one input moves its player: `axis * dt * movespeed` per component. */
  function Move(axis: Point, dt: real, speed: real): Point
  {
    Point(axis.x * dt * speed, axis.y * dt * speed)
  }

  /** Where the player of `input` is in `es`; a player without an entity
      gets one, pushed at the end. */
  function Slot(es: seq<Entity>, id: PlayerId): (k: nat)
    ensures k <= |es|
    ensures k == |es| <==> Find(es, id).None?
  {
    match Find(es, id)
    case Some(k) => k
    case None => |es|
  }

  /** Where player `id` starts the tick: its entity, or the origin for a new one. */
  function StartPos(es: seq<Entity>, id: PlayerId): Point
  {
    match Find(es, id)
    case Some(k) => es[k].pos
    case None => Origin
  }

  /** Moving player `id` by `d`: its entity, found or pushed at the origin,
      moves; every other entity keeps its place, its id and its position. */
  function Shift(es: seq<Entity>, id: PlayerId, d: Point): (r: seq<Entity>)
    ensures |r| == (if Slot(es, id) == |es| then |es| + 1 else |es|)
    ensures r[Slot(es, id)] == Entity(id, Plus(StartPos(es, id), d))
    ensures forall j :: 0 <= j < |es| ==> r[j].id == es[j].id
    ensures forall j :: 0 <= j < |es| && j != Slot(es, id) ==> r[j] == es[j]
  {
    var k := Slot(es, id);
    var es1 := if k == |es| then es + [Entity(id, Origin)] else es;
    es1[k := es1[k].(pos := Plus(es1[k].pos, d))]
  }

  /** The body of the `forEach` in `runFn`, for one input. */
  function ApplyInput(es: seq<Entity>, input: Input<Point>, dt: real, speed: real): seq<Entity>
  {
    Shift(es, input.playerId, Move(input.data, dt, speed))
  }

  /** The inputs of a tick applied in order. Existing entities keep their
      places and ids; at most one entity is added per input. */
  function ApplyInputs(es: seq<Entity>, inputs: seq<Input<Point>>, dt: real, speed: real): (r: seq<Entity>)
    ensures |es| <= |r| <= |es| + |inputs|
    ensures forall j :: 0 <= j < |es| ==> r[j].id == es[j].id
    decreases |inputs|
  {
    if |inputs| == 0 then es
    else ApplyInput(ApplyInputs(es, inputs[..|inputs| - 1], dt, speed), inputs[|inputs| - 1], dt, speed)
  }

  /** Applying one more input of the tick. */
  lemma ApplyInputsNext(es: seq<Entity>, inputs: seq<Input<Point>>, i: nat, dt: real, speed: real)
    requires i < |inputs|
    ensures ApplyInputs(es, inputs[..i + 1], dt, speed) == ApplyInput(ApplyInputs(es, inputs[..i], dt, speed), inputs[i], dt, speed)
  {
    var pre := inputs[..i + 1];
    assert pre[..|pre| - 1] == inputs[..i];
  }

  /** `runFn`: only the entities change; every entity keeps its place and
      id, and the new ones follow. */
  function Step(speed: real, s: State): (r: State)
    ensures r.gameId == s.gameId && r.id == s.id && r.time == s.time && r.dt == s.dt && r.inputs == s.inputs
    ensures |s.world| <= |r.world| && forall j :: 0 <= j < |s.world| ==> r.world[j].id == s.world[j].id
  {
    s.(world := ApplyInputs(s.world, s.inputs, s.dt, speed))
  }

  /** The transition the engine is built with; it ignores the PRNG. */
  function Transition(speed: real): RunFn<Point, seq<Entity>>
  {
    (s: State, seed: Seed) => Step(speed, s)
  }

  /** `if (movespeed)`: a missing or zero speed leaves the default of 50. */
  function Speed(movespeed: Option<real>): (r: real)
    ensures r != 0.0
    ensures movespeed.Some? && movespeed.value != 0.0 ==> r == movespeed.value
    ensures movespeed.None? || movespeed.value == 0.0 ==> r == 50.0
  {
    if movespeed.Some? && movespeed.value != 0.0 then movespeed.value else 50.0
  }

  /** `{ dt: 0, id: 0, inputs: [], time: 0, entities: [] }`. */
  const Genesis: State := GameState("", 0, 0.0, 0.0, [], [])

  /** The total movement the inputs in `inputs` give player `id`. */
  function Displacement(inputs: seq<Input<Point>>, id: PlayerId, dt: real, speed: real): Point
    decreases |inputs|
  {
    if |inputs| == 0 then Origin
    else
      var d := Displacement(inputs[..|inputs| - 1], id, dt, speed);
      if inputs[|inputs| - 1].playerId == id then Plus(d, Move(inputs[|inputs| - 1].data, dt, speed)) else d
  }

  /** The players of the tick's inputs, in input order. */
  function Players(inputs: seq<Input<Point>>): (r: seq<PlayerId>)
    ensures |r| == |inputs|
    ensures forall i :: 0 <= i < |inputs| ==> r[i] == inputs[i].playerId
    decreases |inputs|
  {
    if |inputs| == 0 then [] else Players(inputs[..|inputs| - 1]) + [inputs[|inputs| - 1].playerId]
  }

  /** Some input of the tick is player `id`'s. */
  predicate Mentions(inputs: seq<Input<Point>>, id: PlayerId)
  {
    id in Players(inputs)
  }

  /** Ids are never repeated among the entities. */
  predicate DistinctIds(es: seq<Entity>)
  {
    forall i, j :: 0 <= i < j < |es| ==> es[i].id != es[j].id
  }

  /** `Find` gives the first index holding `id`, so an index whose entity
      has `id` and before which none has it is the answer. */
  lemma FindAt(es: seq<Entity>, id: PlayerId, k: nat)
    requires k < |es| && es[k].id == id
    requires forall j :: 0 <= j < k ==> es[j].id != id
    ensures Find(es, id) == Some(k)
  {
    var f := Find(es, id);
    assert f.Some?;
    assert !(f.value < k);
    assert !(f.value > k);
  }

  /** Finding a player after one input: the input's player is found at its
      slot, every other player where it was before. */
  lemma FindAfterInput(es: seq<Entity>, input: Input<Point>, dt: real, speed: real, id: PlayerId)
    ensures var r := ApplyInput(es, input, dt, speed);
      Find(r, id) == if id == input.playerId then Some(Slot(es, id)) else Find(es, id)
  {
    var r := ApplyInput(es, input, dt, speed);
    var s := Slot(es, input.playerId);
    if id == input.playerId {
      assert forall j :: 0 <= j < s ==> r[j].id == es[j].id != id;
      FindAt(r, id, s);
    } else {
      match Find(es, id)
      case Some(k) =>
        assert forall j :: 0 <= j < k ==> r[j].id == es[j].id != id;
        FindAt(r, id, k);
      case None =>
        forall j | 0 <= j < |r|
          ensures r[j].id != id
        {
          if j < |es| {
            assert r[j].id == es[j].id;
          } else {
            assert j == s;
          }
        }
    }
  }

  /** The tick's outcome for one player: it has an entity exactly when it had
      one or one of the inputs is its, and that entity sits at its starting
      point plus the sum of its inputs' moves, in input order. */
  lemma {:induction false} PositionAfter(es: seq<Entity>, inputs: seq<Input<Point>>, dt: real, speed: real, id: PlayerId)
    ensures var r := ApplyInputs(es, inputs, dt, speed);
      && (Find(r, id).Some? <==> Find(es, id).Some? || Mentions(inputs, id))
      && (Find(r, id).Some? ==> r[Find(r, id).value].pos == Plus(StartPos(es, id), Displacement(inputs, id, dt, speed)))
    decreases |inputs|
  {
    if |inputs| > 0 {
      var init := inputs[..|inputs| - 1];
      var input := inputs[|inputs| - 1];
      var prev := ApplyInputs(es, init, dt, speed);
      var r := ApplyInput(prev, input, dt, speed);
      assert r == ApplyInputs(es, inputs, dt, speed);
      PositionAfter(es, init, dt, speed, id);
      FindAfterInput(prev, input, dt, speed, id);
      if input.playerId == id {
        if Find(prev, id).None? {
          DisplacementNone(init, id, dt, speed);
        }
        var k := Slot(prev, id);
        assert r[k].pos == Plus(StartPos(prev, id), Move(input.data, dt, speed));
      } else if Find(prev, id).Some? {
        var k := Find(prev, id).value;
        assert k != Slot(prev, input.playerId);
        assert r[k] == prev[k];
      }
    }
  }

  /** A player none of the inputs mention does not move. */
  lemma {:induction false} DisplacementNone(inputs: seq<Input<Point>>, id: PlayerId, dt: real, speed: real)
    requires !Mentions(inputs, id)
    ensures Displacement(inputs, id, dt, speed) == Origin
    decreases |inputs|
  {
    if |inputs| > 0 {
      DisplacementNone(inputs[..|inputs| - 1], id, dt, speed);
    }
  }

  /** The tick leaves the entities no input mentions as they were, and gives
      every entity it adds the id of one of the inputs. */
  lemma {:induction false} EntitiesKept(es: seq<Entity>, inputs: seq<Input<Point>>, dt: real, speed: real)
    ensures forall j :: 0 <= j < |es| && !Mentions(inputs, es[j].id) ==> ApplyInputs(es, inputs, dt, speed)[j] == es[j]
    ensures forall j :: |es| <= j < |ApplyInputs(es, inputs, dt, speed)| ==> Mentions(inputs, ApplyInputs(es, inputs, dt, speed)[j].id)
    decreases |inputs|
  {
    if |inputs| > 0 {
      var init := inputs[..|inputs| - 1];
      var input := inputs[|inputs| - 1];
      var prev := ApplyInputs(es, init, dt, speed);
      var r := ApplyInput(prev, input, dt, speed);
      assert r == ApplyInputs(es, inputs, dt, speed);
      EntitiesKept(es, init, dt, speed);
      var s := Slot(prev, input.playerId);
      forall j | 0 <= j < |es| && !Mentions(inputs, es[j].id)
        ensures r[j] == es[j]
      {
        assert prev[j].id == es[j].id;
      }
      forall j | |es| <= j < |r|
        ensures Mentions(inputs, r[j].id)
      {
        if j < |prev| && j != s {
          assert r[j] == prev[j];
          assert |es| <= j < |prev|;
          assert Mentions(init, prev[j].id);
        } else {
          assert j == s && r[j].id == input.playerId;
        }
      }
    }
  }

  /** The players of `inputs` without an entity in `es`, in the order of
      their first input, each once. */
  function NewPlayers(es: seq<Entity>, inputs: seq<Input<Point>>): (r: seq<PlayerId>)
    ensures forall i, j :: 0 <= i < j < |r| ==> r[i] != r[j]
    ensures forall i :: 0 <= i < |r| ==> Find(es, r[i]).None? && Mentions(inputs, r[i])
    decreases |inputs|
  {
    if |inputs| == 0 then []
    else
      var prev := NewPlayers(es, inputs[..|inputs| - 1]);
      var p := inputs[|inputs| - 1].playerId;
      assert Players(inputs) == Players(inputs[..|inputs| - 1]) + [p];
      if Find(es, p).None? && p !in prev then prev + [p] else prev
  }

  /** The tick appends one entity per new player, in the order of their
      first input, after the entities it started with. */
  lemma {:induction false} NewEntitiesInOrder(es: seq<Entity>, inputs: seq<Input<Point>>, dt: real, speed: real)
    ensures var r := ApplyInputs(es, inputs, dt, speed);
      var np := NewPlayers(es, inputs);
      |r| == |es| + |np| && forall j :: 0 <= j < |np| ==> r[|es| + j].id == np[j]
    decreases |inputs|
  {
    if |inputs| > 0 {
      var init := inputs[..|inputs| - 1];
      var p := inputs[|inputs| - 1].playerId;
      var prev := ApplyInputs(es, init, dt, speed);
      var npi := NewPlayers(es, init);
      NewEntitiesInOrder(es, init, dt, speed);
      var r := ApplyInputs(es, inputs, dt, speed);
      assert r == Shift(prev, p, Move(inputs[|inputs| - 1].data, dt, speed));
      assert Find(prev, p).None? <==> Find(es, p).None? && p !in npi by {
        if Find(prev, p).Some? {
          var k := Find(prev, p).value;
          if k < |es| {
            assert es[k].id == p;
          } else {
            assert npi[k - |es|] == p;
          }
        }
        if Find(es, p).Some? {
          var k := Find(es, p).value;
          assert prev[k].id == p;
        }
        if p in npi {
          var i :| 0 <= i < |npi| && npi[i] == p;
          assert prev[|es| + i].id == p;
        }
      }
    }
  }

  /** Entities never get a duplicate id: a player already present is moved,
      not added again. */
  lemma {:induction false} DistinctIdsKept(es: seq<Entity>, inputs: seq<Input<Point>>, dt: real, speed: real)
    requires DistinctIds(es)
    ensures DistinctIds(ApplyInputs(es, inputs, dt, speed))
    decreases |inputs|
  {
    if |inputs| > 0 {
      var init := inputs[..|inputs| - 1];
      var input := inputs[|inputs| - 1];
      var prev := ApplyInputs(es, init, dt, speed);
      var r := ApplyInput(prev, input, dt, speed);
      assert r == ApplyInputs(es, inputs, dt, speed);
      DistinctIdsKept(es, init, dt, speed);
      var s := Slot(prev, input.playerId);
      forall i, j | 0 <= i < j < |r|
        ensures r[i].id != r[j].id
      {
        if j == |prev| {
          assert Find(prev, input.playerId).None?;
          assert r[i].id == prev[i].id;
        } else {
          assert r[i].id == prev[i].id && r[j].id == prev[j].id;
        }
      }
    }
  }

  /** No time or no axis means no movement. */
  lemma NoMove(axis: Point, dt: real, speed: real)
    requires dt == 0.0 || axis == Origin
    ensures Move(axis, dt, speed) == Origin
  {
    if dt == 0.0 {
      assert axis.x * dt == 0.0 && axis.y * dt == 0.0;
    }
  }

  /** Entities at or past `n` stand at the origin. */
  ghost predicate AtOriginFrom(es: seq<Entity>, n: nat)
  {
    forall j :: n <= j < |es| ==> es[j].pos == Origin
  }

  /** A shift by nothing moves no entity; it pushes one at the origin when
      the player has none. */
  lemma ShiftNothing(es: seq<Entity>, id: PlayerId)
    ensures Shift(es, id, Origin) == if Slot(es, id) == |es| then es + [Entity(id, Origin)] else es
  {
    var k := Slot(es, id);
    var es1 := if k == |es| then es + [Entity(id, Origin)] else es;
    assert es1[k].(pos := Plus(es1[k].pos, Origin)) == es1[k];
    assert es1[k := es1[k]] == es1;
  }

  /** Keeping a history of entities, or pushing one at the origin, keeps
      the first `|es|` as they are and the rest at the origin. */
  lemma KeptAtOrigin(es: seq<Entity>, prev: seq<Entity>, e: Entity, r: seq<Entity>)
    requires |es| <= |prev| && prev[..|es|] == es && AtOriginFrom(prev, |es|)
    requires e.pos == Origin && (r == prev || r == prev + [e])
    ensures |es| <= |r| && r[..|es|] == es && AtOriginFrom(r, |es|)
  {
    assert r[..|prev|] == prev;
    assert r[..|es|] == prev[..|es|];
  }

  /** Inputs that move nothing (`dt == 0`, or every axis zero, by `NoMove`)
      leave the old entities as they were; the new ones stand at the origin. */
  lemma {:induction false} StillWithoutMoves(es: seq<Entity>, inputs: seq<Input<Point>>, dt: real, speed: real)
    requires forall i :: 0 <= i < |inputs| ==> Move(inputs[i].data, dt, speed) == Origin
    ensures ApplyInputs(es, inputs, dt, speed)[..|es|] == es
    ensures AtOriginFrom(ApplyInputs(es, inputs, dt, speed), |es|)
    decreases |inputs|
  {
    if |inputs| > 0 {
      var init := inputs[..|inputs| - 1];
      var input := inputs[|inputs| - 1];
      var prev := ApplyInputs(es, init, dt, speed);
      StillWithoutMoves(es, init, dt, speed);
      var r := ApplyInput(prev, input, dt, speed);
      assert r == Shift(prev, input.playerId, Origin);
      ShiftNothing(prev, input.playerId);
      KeptAtOrigin(es, prev, Entity(input.playerId, Origin), r);
      assert r == ApplyInputs(es, inputs, dt, speed);
    }
  }

  /** With `dt == 0` no entity moves. */
  lemma StillWithoutTime(es: seq<Entity>, inputs: seq<Input<Point>>, speed: real)
    ensures ApplyInputs(es, inputs, 0.0, speed)[..|es|] == es
    ensures AtOriginFrom(ApplyInputs(es, inputs, 0.0, speed), |es|)
  {
    forall i | 0 <= i < |inputs|
      ensures Move(inputs[i].data, 0.0, speed) == Origin
    {
      NoMove(inputs[i].data, 0.0, speed);
    }
    StillWithoutMoves(es, inputs, 0.0, speed);
  }

  /** The sample game only touches `entities`, so it satisfies what the
      engine's loop lemmas ask of a transition. */
  lemma StepPreservesHeader(speed: real)
    ensures PreservesHeader(Transition(speed))
  {
    forall s: State, seed: Seed
      ensures var t := Transition(speed)(s, seed);
        t.gameId == s.gameId && t.id == s.id && t.time == s.time && t.dt == s.dt && t.inputs == s.inputs
    {
      assert Transition(speed)(s, seed) == Step(speed, s);
    }
  }

  class TopDownEngine {
    const movespeed: real
    const engine: Engine.GameEngine<Point, seq<Entity>>

    constructor (movespeed: Option<real>)
      ensures this.movespeed == Speed(movespeed)
      ensures fresh(engine) && engine.Valid()
      ensures engine.runFn == Transition(this.movespeed) && engine.states == [Genesis]
      ensures engine.numStatesToKeep == 50 && engine.inputQueue == [] && engine.exitLoop == null
    {
      this.movespeed := Speed(movespeed);
      var speed := Speed(movespeed);
      engine := new Engine.GameEngine(Transition(speed), Genesis);
    }

    /** `runFn`: the `forEach` over the tick's inputs. */
    method RunFn(state: State) returns (r: State)
      ensures r == Step(movespeed, state)
    {
      var entities := state.world;
      var i := 0;
      while i < |state.inputs|
        invariant 0 <= i <= |state.inputs|
        invariant entities == ApplyInputs(state.world, state.inputs[..i], state.dt, movespeed)
      {
        ApplyInputsNext(state.world, state.inputs, i, state.dt, movespeed);
        entities := MovePlayer(entities, state.inputs[i], state.dt);
        i := i + 1;
      }
      assert state.inputs[..i] == state.inputs;
      r := state.(world := entities);
    }

    /** The `forEach` callback: find the input's player, push one at the
        origin when there is none, and move it. */
    method MovePlayer(entities: seq<Entity>, input: Input<Point>, dt: real) returns (r: seq<Entity>)
      ensures r == ApplyInput(entities, input, dt, movespeed)
    {
      r := entities;
      var player := Find(r, input.playerId);
      var k: nat;
      if player.None? {
        r := r + [Entity(input.playerId, Origin)];
        k := |r| - 1;
      } else {
        k := player.value;
      }
      assert k == Slot(entities, input.playerId);
      ghost var grown := r;
      var moveX := input.data.x * dt * movespeed;
      var moveY := input.data.y * dt * movespeed;
      r := r[k := r[k].(pos := Point(r[k].pos.x + moveX, r[k].pos.y + moveY))];
      assert r == grown[k := grown[k].(pos := Plus(grown[k].pos, Move(input.data, dt, movespeed)))];
    }
  }
}
