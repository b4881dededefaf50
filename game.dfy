/** The records the engine stores per tick (packages/shared/src/types/Game.ts)
    and the seed every transition receives. */
module Game {

  import opened Decimal

  /** `number | string`; two ids are the same player only under `===`, so a
      number never equals a string. */
  datatype PlayerId = Num(n: int) | Str(s: string)

  /** A player's input for one tick; `data` is whatever the game adds to it. */
  datatype Input<A> = Input(playerId: PlayerId, data: A)

  /** One tick of the game: the fields every game state has, and the
      game-specific rest of the record in `world`. */
  datatype GameState<A, P> = GameState(
    gameId: string,
    id: int,
    time: real,
    dt: real,
    inputs: seq<Input<A>>,
    world: P)

  /** What `getEngineRunHelpers` builds a tick's PRNG from: the tick's game id
      and id. The generator is `new Chance(SeedText(seed))`, so it is
      determined by this key alone, and the key stands for it. */
  datatype Seed = Seed(gameId: string, id: int)

  /** The transition function a game supplies. */
  type RunFn<!A, !P> = (GameState<A, P>, Seed) -> GameState<A, P>

  /** `[gameId, id].join("-")`. */
  function SeedText(seed: Seed): (t: string)
    ensures |t| >= |seed.gameId| + 2 && t[..|seed.gameId|] == seed.gameId && t[|seed.gameId|] == '-'
    ensures var digits := t[|seed.gameId| + 1..];
      if seed.id < 0 then
        |digits| >= 2 && digits[0] == '-' && AllDigits(digits[1..]) && ParseDigits(digits[1..]) == -seed.id
      else
        AllDigits(digits) && ParseDigits(digits) == seed.id
  {
    ParseNatToString(if seed.id < 0 then -seed.id else seed.id);
    var t := seed.gameId + "-" + IntToString(seed.id);
    assert t[..|seed.gameId|] == seed.gameId && t[|seed.gameId| + 1..] == IntToString(seed.id);
    assert seed.id < 0 ==> IntToString(seed.id)[1..] == NatToString(-seed.id);
    t
  }

  /** Within one game, every tick id gets its own seed text. */
  lemma SeedInjective(gameId: string, a: int, b: int)
    requires SeedText(Seed(gameId, a)) == SeedText(Seed(gameId, b))
    ensures a == b
  {
    var k := |gameId| + 1;
    assert SeedText(Seed(gameId, a))[k..] == IntToString(a);
    assert SeedText(Seed(gameId, b))[k..] == IntToString(b);
    IntToStringInjective(a, b);
  }

  /** A transition that only changes the game-specific part of the record:
      `gameId`, `id`, `time`, `dt` and `inputs` come back as they went in. */
  ghost predicate PreservesHeader<A(!new), P(!new)>(run: RunFn<A, P>)
  {
    forall s: GameState<A, P>, seed: Seed ::
      var t := run(s, seed);
      t.gameId == s.gameId && t.id == s.id && t.time == s.time && t.dt == s.dt && t.inputs == s.inputs
  }
}
