# Rollback game engine: a Dafny model

This project models the core of `multiplayer-with-rollback`:

- **The rollback engine.** `GameEngine` in `packages/game-engine/src/GameEngine.ts`:
  - It keeps a bounded history of tick records (`gameId`, `id`, `time`, `dt`, `inputs` plus a game-specific payload) and a queue of remote inputs aimed at past or future ticks.
  - It steps the game forward with a game-supplied transition `runFn`, seeded per tick by the text `gameId-id`.
  - When an input for a past tick arrives, it rewrites the history from that tick on.
  - A fixed-step loop turns elapsed wall-clock time into forward steps and then drains the queue.
- **The sample game.** `TopDownEngine`: each input moves its player's entity, creating the entity when missing.
- **The 2-D vector class.** `Vector2D`, with its in-place operations.
- **The page-title lookup.** `getPageName` and the `PATHS` table of the client router.
- **The query-string scanner.** `getQueryParams`, modelled as the backtracking regular-expression search it performs.

The stateful parts keep their form:
- `GameEngine`, the loop closure (`GameLoop`), `TopDownEngine` and `Vector2D` are classes.
- Their methods update fields and are proved against pure functions of the old state:
  - `Advance` for a forward run.
  - `Replay` for a rollback.
  - `Enqueue` for queueing an input.
  - `CatchUp`, `Drain` and `Remaining` for processing the queue.
  - `TickRuns` for a loop pass.
- Lemmas state what those functions promise:
  - the history stays one game with consecutive ids and a chain of transitions;
  - other players' inputs are preserved;
  - queue entries are unique per tick and player;
  - entries whose tick is gone stay queued.

`runFn` is any deterministic function of a tick record and its seed. The header lemmas assume a transition that leaves `gameId`, `id`, `time`, `dt` and `inputs` alone (`PreservesHeader`). `TopDown.StepPreservesHeader` proves that the sample game's transition is one.

The model follows the code, including behaviour that looks unintended:
- A replay writes the corrected input into every later tick, not only the target.
- The catch-up before draining the queue runs to the largest queued tick id. The `k`-th of those runs is at the latest tick's time multiplied by `k`, not at a time advanced by `k` steps.
- A largest queued id of 0 does not trigger a catch-up.
- Entries for ticks no longer in the history stay queued forever.
- `setInput` for a tick older than the oldest retained one drops the input silently.
- Each queue entry is replayed once, in queue order. A replaced entry keeps its original slot (GameEngine.ts:196), so queue order need not be arrival order.
- `loadFromState` replaces the history without touching the queue, the time base or the loop.

## Model

| member | source | states |
|---|---|---|
| Decimal.NatToString | packages/game-engine/src/GameEngine.ts:47 | renders an id as a non-empty string of decimal digits with no leading zero |
| Decimal.ParseNatToString | packages/game-engine/src/GameEngine.ts:47 | reading the rendered digits back gives the number again |
| Decimal.IntToStringInjective | packages/game-engine/src/GameEngine.ts:47 | two different tick ids never render to the same text |
| Game.SeedInjective | packages/game-engine/src/GameEngine.ts:46-51 | within one game, equal seed texts `gameId-id` mean equal tick ids, so every tick gets its own PRNG |
| Game.SeedText | packages/game-engine/src/GameEngine.ts:47 | the seed text is the game id, a '-', then the tick id in decimal (with its own '-' when negative); reading the digits back gives the tick id |
| History.FindPlayer | packages/game-engine/src/GameEngine.ts:58 | `findIndex` on the inputs returns an index inside the list or none |
| History.FindPlayerSpec | packages/game-engine/src/GameEngine.ts:58 | the index found is the first input of that player; none means the player has no input |
| History.ReplaceInputSpec | packages/game-engine/src/GameEngine.ts:57-64 | after `replaceInput` the player's first input is the new one; every other entry keeps its place; the list grows only when the player had no input, and then by one |
| History.ReplaceInputOthers | packages/game-engine/src/GameEngine.ts:57-64 | every other player's input is found at the same index as before |
| History.ReplaceInputIdempotent | packages/game-engine/src/GameEngine.ts:57-64 | replacing the same input twice equals replacing it once |
| History.KeepLast | packages/game-engine/src/GameEngine.ts:128 | `slice(-n)` keeps the last `n` states, or all of them when there are fewer |
| History.AdvanceSpec | packages/game-engine/src/GameEngine.ts:112-128 | a forward run appends the successor of the latest state, keeps the earlier states unchanged and in order, and trims the oldest beyond `numStatesToKeep` |
| History.AdvanceHeader | packages/game-engine/src/GameEngine.ts:116-125 | the new latest state has the old latest id plus one, the given time and step, and the old latest state's game id and inputs |
| History.SuccessorHeader | packages/game-engine/src/GameEngine.ts:121-124 | the successor is the next tick of the same game |
| History.AdvanceIds | packages/game-engine/src/GameEngine.ts:112-128 | a forward run keeps the history one game with consecutive ids |
| History.AdvanceConsistent | packages/game-engine/src/GameEngine.ts:112-128 | a forward run keeps every retained tick the transition of the one before it |
| History.ReplayAt | packages/game-engine/src/GameEngine.ts:136-157 | a replay keeps the states before the target, and every state from the target on is the replayed one |
| History.ReplaySpec | packages/game-engine/src/GameEngine.ts:136-157 | the target tick keeps its record and only its inputs change; every later tick gets the corrected input and is recomputed from the corrected tick before it, seeded with its own game id and id |
| History.ReplayInputs | packages/game-engine/src/GameEngine.ts:140-155 | after a replay every tick from the target on holds the corrected input for its player, and every other player's input is found as before |
| History.ReplayKeepsHeaders | packages/game-engine/src/GameEngine.ts:147-152 | a replay changes no tick's id, time or step |
| History.ReplayGameId | packages/game-engine/src/GameEngine.ts:147-152 | in a one-game history a replay changes no tick's game id |
| History.ReplayInvariants | packages/game-engine/src/GameEngine.ts:129-158 | a replay keeps the history one game, keeps every id, time and step, and keeps it consecutive and a chain of transitions |
| History.Replay | packages/game-engine/src/GameEngine.ts:129-158 | a rollback rewrites ticks in place and never changes the length of the history |
| History.SetLatestInputsInvariants | packages/game-engine/src/GameEngine.ts:167-173 | changing the latest tick's inputs keeps the history one game, consecutive and a chain of transitions |
| History.ConsistentUnique | packages/game-engine/src/GameEngine.ts:136-157 | a chain of transitions is determined by its first tick and each tick's id, time, step and inputs, so a replayed history is the one a re-simulation would give |
| History.FastForwardLatest | packages/game-engine/src/GameEngine.ts:83-86 | `n` catch-up runs move the latest id up by exactly `n`, and the last run is at the latest time multiplied by `n` |
| Queue.FindQueued | packages/game-engine/src/GameEngine.ts:190 | the index found is the first entry for that tick and player; none means there is no such entry |
| Queue.EnqueueSpec | packages/game-engine/src/GameEngine.ts:188-198 | last writer wins: the item is the entry for its tick and player; the queue grows by at most one; other entries stay in place; no pair is ever queued twice |
| Queue.Enqueue | packages/game-engine/src/GameEngine.ts:188-198 | the item ends up in the queue, which grows by at most one entry |
| Queue.StateIndexOfSpec | packages/game-engine/src/GameEngine.ts:93 | the index found is the first tick with that id; none means no tick has it |
| Queue.StateIndexOfSameIds | packages/game-engine/src/GameEngine.ts:93 | histories with the same ids give the same index |
| Queue.MaxStateId | packages/game-engine/src/GameEngine.ts:76 | lodash `max` over the queued tick ids is undefined exactly for an empty queue, bounds every id and is one of them |
| Queue.HandledNext | packages/game-engine/src/GameEngine.ts:95-100 | an entry's index is recorded for removal exactly when its tick is in the history when its turn comes |
| Queue.HandledIndicesSpec | packages/game-engine/src/GameEngine.ts:89-102 | an index is among the indices to remove exactly when its entry was replayed |
| Queue.DrainKeepsIds | packages/game-engine/src/GameEngine.ts:89-102 | the replays change no tick id |
| Queue.HandledIff | packages/game-engine/src/GameEngine.ts:93-101 | an entry is replayed exactly when its tick is in the history the second phase starts from |
| Queue.DrainInvariants | packages/game-engine/src/GameEngine.ts:89-102 | the replays keep the history one game, consecutive and a chain of transitions |
| Queue.WithoutSpec | packages/game-engine/src/GameEngine.ts:104 | dropping a set of indices keeps every entry at an index not dropped, and every entry kept is one at such an index; with nothing to drop the queue is unchanged |
| Queue.KeptIndices | packages/game-engine/src/GameEngine.ts:104 | the indices that survive the splices: ascending, in range, none of them dropped, and every index not dropped among them |
| Queue.WithoutInOrder | packages/game-engine/src/GameEngine.ts:104 | splicing out the dropped indices is an ordered filter: the `k`-th entry left is the entry at the `k`-th surviving index |
| Queue.CatchUpSpec | packages/game-engine/src/GameEngine.ts:76-87 | when the largest queued id is truthy and ahead, the catch-up brings the latest id exactly to it; otherwise nothing runs; only an empty history throws |
| Queue.RemainingSpec | packages/game-engine/src/GameEngine.ts:89-104 | after processing, the queue holds exactly the entries whose tick is not in the history, in their queue order: its `k`-th entry is the `k`-th such entry of the old queue |
| Queue.Remaining | packages/game-engine/src/GameEngine.ts:100-104 | removing the handled entries never lengthens the queue |
| Engine.TickRunsNext | packages/game-engine/src/GameEngine.ts:245-250 | one more pass of the loop is the forward run one tick after the last |
| Engine.TickRunsLatest | packages/game-engine/src/GameEngine.ts:245-250 | `n` passes move the latest id up by `n` and leave the latest tick at the loop's game time and step |
| Engine.TicksIsProduct | packages/game-engine/src/GameEngine.ts:245-249 | adding the tick `n` times gives `n` ticks |
| Engine.StepsAreFloor | packages/game-engine/src/GameEngine.ts:245-250 | the number of passes is the floor of the accumulated time over the tick |
| Engine.DueTicks | packages/game-engine/src/GameEngine.ts:241-250 | the loop's count and remainder are the whole ticks of the accumulated time and what is left |
| Engine.RemoveStepGap | packages/game-engine/src/GameEngine.ts:104 | the ascending indices leave a gap of kept entries between consecutive removals |
| Engine.SpliceAt | packages/game-engine/src/GameEngine.ts:104 | splicing out one more index extends the removed set by that index |
| Engine.RemoveStep | packages/game-engine/src/GameEngine.ts:104 | splicing from the highest index down keeps the lower indices valid |
| Engine.GameEngine.constructor | packages/game-engine/src/GameEngine.ts:107-110 | the history is the starting state alone, the queue is empty, 50 states are kept and no loop runs |
| Engine.GameEngine.Run | packages/game-engine/src/GameEngine.ts:112-159 | the forward branch throws on an empty history, else it is `Advance`; the replay branch throws unless the index is in the history, else it is `Replay`; a throw changes nothing |
| Engine.GameEngine.RunForward | packages/game-engine/src/GameEngine.ts:112-128 | the forward branch computes exactly `Advance` of the old history |
| Engine.GameEngine.ReplayFrom | packages/game-engine/src/GameEngine.ts:136-157 | the replay loop computes exactly `Replay` of the old history |
| Engine.GameEngine.SetInput | packages/game-engine/src/GameEngine.ts:161-200 | without a tick id only the latest tick's inputs change; with one, the history is untouched; an empty history throws; a tick older than the oldest retained one is dropped; otherwise the item is enqueued last-writer-wins, stamped with `ts` or the clock when that is missing or 0 |
| Engine.GameEngine.ProcessInputQueue | packages/game-engine/src/GameEngine.ts:70-105 | catches up, then replays the entries whose tick is retained, in order, and leaves exactly the others queued; throws only in the empty-history catch-up and then changes nothing |
| Engine.GameEngine.FastForwardRuns | packages/game-engine/src/GameEngine.ts:83-86 | the `times` loop computes exactly `FastForward` |
| Engine.GameEngine.ReplayQueued | packages/game-engine/src/GameEngine.ts:89-102 | the second loop computes exactly `Drain`: the replayed history and the indices to remove |
| Engine.GameEngine.RemoveIndices | packages/game-engine/src/GameEngine.ts:104 | splicing the ascending indices in reverse leaves exactly the entries at the other indices, in order |
| Engine.GameEngine.StopGameLoop | packages/game-engine/src/GameEngine.ts:270-275 | the running loop, if any, is told to quit and forgotten; a second call does nothing |
| Engine.GameEngine.StartGameLoop | packages/game-engine/src/GameEngine.ts:202-268 | stops the old loop; sets the tick to `1000 / fps` ms and the step to `1 / fps` s; keeps `fps * 5` states; sets the time base to `startTime` or the clock; runs the body once; registers the loop only if that call did not throw. That first call throws exactly when the old history is empty and the first elapsed time is at least one tick, and then changes nothing; with no whole tick due it changes nothing and notifies nobody; otherwise the history is the queue drained over the catch-up of the tick runs of the old history, the queue keeps what was not handled, and the observer gets the latest state |
| Engine.GameEngine.LoadFromState | packages/game-engine/src/GameEngine.ts:277-280 | the history becomes the given list |
| Engine.GameEngine.AllStates | packages/game-engine/src/GameEngine.ts:283 | `allStates()` hands out the history itself, oldest first (the source returns the live array, so a caller can alias it) |
| Engine.GameEngine.CurrentState | packages/game-engine/src/GameEngine.ts:284-287 | the latest tick, undefined exactly for an empty history |
| Engine.GameEngine.CurrentStateId | packages/game-engine/src/GameEngine.ts:288-294 | the latest id, or 0 for an empty history |
| Engine.GameEngine.GameId | packages/game-engine/src/GameEngine.ts:295-298 | the latest tick's game id, or "" for an empty history |
| Engine.GameLoop.constructor | packages/game-engine/src/GameEngine.ts:224-229 | the loop starts at the given game time with an empty accumulator and `quit` unset |
| Engine.GameLoop.Callback | packages/game-engine/src/GameEngine.ts:231-264 | does nothing once `quit` is set; otherwise runs the floor of the accumulated time over the tick as forward runs, leaving less than one tick (and nothing negative after a run); then processes the queue and notifies the observer once if a run happened, and not at all otherwise; throws exactly when it is not stopped, the history is empty and the accumulated time reaches a tick, and a throw leaves the history and the queue unchanged |
| Engine.GameLoop.CatchUpAndNotify | packages/game-engine/src/GameEngine.ts:252-261 | processes the queue, then hands the latest tick to the observer if there is one |
| Engine.GameLoop.ForwardTick | packages/game-engine/src/GameEngine.ts:245-250 | one pass is the forward run one tick later |
| Engine.GameLoop.RunDueTicks | packages/game-engine/src/GameEngine.ts:245-250 | the inner loop consumes whole ticks from the accumulator, advances game time by them and makes `TickRuns` of the history; throws exactly when the history is empty and a whole tick is due, leaving the history unchanged |
| Engine.GameLoop.RunTicks | packages/game-engine/src/GameEngine.ts:245-250 | on a non-empty history the inner loop leaves less than one tick and makes `TickRuns` of the history |
| TopDown.Find | packages/game-engine/src/sampleEngines/TopDownEngine.ts:39 | the index found is the first entity with that id; none means no entity has it |
| TopDown.Slot | packages/game-engine/src/sampleEngines/TopDownEngine.ts:39-46 | the player's entity is at its found index, or at the end when it must be created |
| TopDown.Shift | packages/game-engine/src/sampleEngines/TopDownEngine.ts:38-52 | moves the player's entity (created at the origin when missing) by the offset; every other entity keeps its place, id and position |
| TopDown.ApplyInputs | packages/game-engine/src/sampleEngines/TopDownEngine.ts:38-53 | existing entities keep their order and ids; each input adds at most one entity |
| TopDown.NewPlayers | packages/game-engine/src/sampleEngines/TopDownEngine.ts:37-45 | the players that get a new entity: each once, each with an input and without an entity before the tick |
| TopDown.NewEntitiesInOrder | packages/game-engine/src/sampleEngines/TopDownEngine.ts:38-53 | the tick appends exactly one entity per new player, after the old ones, in the order of each player's first input |
| TopDown.Speed | packages/game-engine/src/sampleEngines/TopDownEngine.ts:27-33 | the speed is the argument when it is truthy and 50 otherwise |
| TopDown.FindAfterInput | packages/game-engine/src/sampleEngines/TopDownEngine.ts:38-52 | after one input its player is found at its slot and every other player where it was |
| TopDown.PositionAfter | packages/game-engine/src/sampleEngines/TopDownEngine.ts:37-55 | a player has an entity after the tick exactly when it had one or an input is its, and the entity stands at its start plus the sum of its inputs' `axis * dt * movespeed` |
| TopDown.DisplacementNone | packages/game-engine/src/sampleEngines/TopDownEngine.ts:48-52 | a player no input mentions does not move |
| TopDown.EntitiesKept | packages/game-engine/src/sampleEngines/TopDownEngine.ts:37-55 | entities no input mentions are unchanged, and every added entity belongs to an input's player |
| TopDown.DistinctIdsKept | packages/game-engine/src/sampleEngines/TopDownEngine.ts:38-46 | a player already present is moved, not added again, so ids stay distinct |
| TopDown.NoMove | packages/game-engine/src/sampleEngines/TopDownEngine.ts:48-49 | no time or no axis gives no movement |
| TopDown.StillWithoutMoves | packages/game-engine/src/sampleEngines/TopDownEngine.ts:48-52 | inputs that move nothing leave old entities unchanged, and new ones stand at the origin |
| TopDown.StillWithoutTime | packages/game-engine/src/sampleEngines/TopDownEngine.ts:48-52 | with `dt == 0` no entity moves, though entities may be created |
| TopDown.StepPreservesHeader | packages/game-engine/src/sampleEngines/TopDownEngine.ts:37-55 | the transition changes only the entities: game id, id, time, step and inputs are kept |
| TopDown.Step | packages/game-engine/src/sampleEngines/TopDownEngine.ts:37-55 | a tick changes only the entities, and every entity keeps its place and id |
| TopDown.TopDownEngine.constructor | packages/game-engine/src/sampleEngines/TopDownEngine.ts:27-35 | the speed defaults to 50; the engine starts from the genesis state with id 0, time 0, step 0, no inputs and no entities |
| TopDown.TopDownEngine.RunFn | packages/game-engine/src/sampleEngines/TopDownEngine.ts:37-55 | the `forEach` over the inputs computes exactly the transition `Step` |
| TopDown.TopDownEngine.MovePlayer | packages/game-engine/src/sampleEngines/TopDownEngine.ts:38-52 | one input finds or creates its player's entity and moves it |
| Vector.Sign | packages/game-engine/src/types/Vector2D.ts:40-54 | the sign is -1, 0 or 1 and has the same sign as the component |
| Vector.SignIdempotent | packages/game-engine/src/types/Vector2D.ts:40-54 | normalising twice is normalising once |
| Vector.Vector2D.constructor | packages/game-engine/src/types/Vector2D.ts:10-18 | no argument gives the origin; otherwise the argument's components are copied |
| Vector.Vector2D.Scale | packages/game-engine/src/types/Vector2D.ts:20-24 | both components are multiplied in place and the receiver is returned |
| Vector.Vector2D.Add | packages/game-engine/src/types/Vector2D.ts:26-30 | the argument is added in place and the receiver is returned |
| Vector.Vector2D.Subtract | packages/game-engine/src/types/Vector2D.ts:32-34 | the argument is subtracted in place, as `add` of its negation, and the receiver is returned |
| Vector.Vector2D.Clone | packages/game-engine/src/types/Vector2D.ts:36-38 | a new, distinct vector with the same components |
| Vector.Vector2D.Normalize | packages/game-engine/src/types/Vector2D.ts:40-54 | each component becomes its sign, in place, and the receiver is returned |
| Vector.Vector2D.ToJs | packages/game-engine/src/types/Vector2D.ts:56-58 | the plain pair of the current components |
| Router.Split | packages/client/src/Router.tsx:23 | `split` gives at least one part, and no part contains the separator |
| Router.JoinSplit | packages/client/src/Router.tsx:23 | joining the parts of a split with the separator gives the string back |
| Router.FindRoute | packages/client/src/Router.tsx:30-44 | the result is the first route that matches; none means no route matches |
| Router.EveryFromIff | packages/client/src/Router.tsx:32-43 | `every` holds exactly when each input segment meets its pattern segment |
| Router.RouteMatchesIff | packages/client/src/Router.tsx:32-43 | a route matches exactly when the input has no more segments than the pattern and each input segment meets a non-empty pattern segment that is a `:param` or equal to it |
| Router.LongerNeverMatches | packages/client/src/Router.tsx:33-36 | an input longer than a pattern never matches it |
| Router.IndexNeverMatches | packages/client/src/Router.tsx:15-36 | the INDEX route "/" becomes one empty segment and so matches nothing |
| Router.FormatOneWord | packages/client/src/Router.tsx:50 | a key without '_' becomes one title word |
| Router.FormatTwoWords | packages/client/src/Router.tsx:50 | a key `a_b` becomes the two title words joined by a space |
| Router.RouteTitles | packages/client/src/Router.tsx:14-50 | the four keys format as "Index", "Home", "One Player" and "Multi Player" |
| Router.TitleForFirstMatch | packages/client/src/Router.tsx:30-50 | the title is "Game" exactly when no route matches, and otherwise the formatted key of the first route that matches |
| Router.GetPageName | packages/client/src/Router.tsx:21-51 | `getPageName` is "Game" exactly when no route matches the stripped, split path, and otherwise the formatted key of the first match |
| Router.OneSegmentRoutes | packages/client/src/Router.tsx:14-43 | a one-segment input matches HOME, ONE_PLAYER or MULTI_PLAYER exactly when it equals that route's segment, and never INDEX |
| Router.OneSegmentFind | packages/client/src/Router.tsx:25-44 | the route found for a one-segment input is the one whose pattern is that segment |
| Router.OneSegmentTitle | packages/client/src/Router.tsx:30-50 | the title for a one-segment input is that route's title, or "Game" |
| Router.GetPageNameOneSegment | packages/client/src/Router.tsx:21-51 | "/home", "/one-player" and "/multiplayer" (with or without the leading '/') get their titles; any other one-segment path, "/" and "" get "Game" |
| Router.GetPageNameMultiSegment | packages/client/src/Router.tsx:21-51 | every path of two or more segments gets "Game" |
| Router.FormatNameAt | packages/client/src/Router.tsx:50 | formatting keeps the key's length; '_' becomes ' ', each word's first letter is upper case and every other letter lower case |
| QueryParams.SeparatorRunEnd | packages/client/src/helpers/getQueryParams.ts:7 | the greedy `[?&]+` run ends at the first character that is neither |
| QueryParams.KeyEnd | packages/client/src/helpers/getQueryParams.ts:7 | the greedy key group `[^=&]+` ends at the first '=' or '&' |
| QueryParams.ValueEnd | packages/client/src/helpers/getQueryParams.ts:7 | the greedy value group `[^&]*` ends at the next '&' or the end |
| QueryParams.MatchKeyAt | packages/client/src/helpers/getQueryParams.ts:7 | a key match right after a separator is a well-formed `key=value` pair ending where the value ends |
| QueryParams.MatchSeparatorOf | packages/client/src/helpers/getQueryParams.ts:7 | backtracking over the separator run finds a pair starting inside the run |
| QueryParams.MatchAt | packages/client/src/helpers/getQueryParams.ts:7 | a match tried at a position is a well-formed pair after it |
| QueryParams.GetQueryParams | packages/client/src/helpers/getQueryParams.ts:5-10 | an omitted url gives an empty dictionary; otherwise the replace loop computes exactly `Query` |
| QueryParams.ScanFromSound | packages/client/src/helpers/getQueryParams.ts:7-8 | every entry the search adds is a pair standing in the url after the search position |
| QueryParams.Matches | packages/client/src/helpers/getQueryParams.ts:7 | the matches the global search finds, in order: each a well-formed pair after the start, none overlapping the next |
| QueryParams.Query | packages/client/src/helpers/getQueryParams.ts:5-10 | the dictionary is the found matches recorded one after the other |
| QueryParams.ScanFromRecordsMatches | packages/client/src/helpers/getQueryParams.ts:7-8 | the scan from any position records exactly the matches found from there, in order |
| QueryParams.RecordAllUntouched | packages/client/src/helpers/getQueryParams.ts:8 | matches with other keys leave a key's entry as it was |
| QueryParams.RecordAllLast | packages/client/src/helpers/getQueryParams.ts:8 | a key holds the value of its last match |
| QueryParams.RecordAllKeys | packages/client/src/helpers/getQueryParams.ts:8 | a key is present exactly when it was before or some match other than `__proto__` has it |
| QueryParams.QueryComplete | packages/client/src/helpers/getQueryParams.ts:5-10 | every key the search matches, other than `__proto__`, is in the dictionary with the value of its last match, and there is no other key |
| QueryParams.QueryPairsInUrl | packages/client/src/helpers/getQueryParams.ts:7-8 | every key with its value stands in the url right after a '?' or '&', taken raw |
| QueryParams.QueryShape | packages/client/src/helpers/getQueryParams.ts:7 | every key is non-empty and free of '=' and '&'; no value holds '&' |
| QueryParams.NoSeparatorNoPairs | packages/client/src/helpers/getQueryParams.ts:7 | a url with no '?' or '&' (such as "a=b") gives an empty dictionary |
| QueryParams.ExampleFlag | packages/client/src/helpers/getQueryParams.ts:7 | "?flag&x=1" gives only `x` = "1" |
| QueryParams.ExampleBacktrack | packages/client/src/helpers/getQueryParams.ts:7 | "??=1" gives key "?" with value "1": the separator gives back one '?' |
| QueryParams.ExampleOverwrite | packages/client/src/helpers/getQueryParams.ts:8 | "?a=1&a=2" gives `a` = "2": a later occurrence overwrites |
| QueryParams.ExampleRaw | packages/client/src/helpers/getQueryParams.ts:7-8 | "?q=%20+#x" keeps the value "%20+#x" as it is |
| QueryParams.ExampleProto | packages/client/src/helpers/getQueryParams.ts:8 | assigning to `__proto__` stores nothing |

## Left out

- The PRNG: `chance` is a foreign library. The transition receives the seed key (game id and tick id). `Game.SeedText` renders that key as `gameId-id`, and the generator is determined by that text alone.
- Floating point: times, steps, positions, axes and speeds are exact reals. NaN, infinities and rounding are not modelled. Tick ids and wall-clock stamps are unbounded integers.
- Decimal rendering of ids covers integers only. JavaScript's exponent notation for magnitudes of 1e21 and above is not modelled.
- Game.SeedInjective: holds within one game id only. Across game ids the text `gameId-id` can collide: game "a-" at tick 1 and game "a" at tick -1 both give "a--1". The model claims nothing across games.
- The wall clock, `setImmediate`/`requestAnimationFrame` scheduling and the rescheduling of the loop body. Each call of `Engine.GameLoop.Callback` is given the elapsed milliseconds, and `Date.now()` readings are passed in as `now`.
- `console.log` output.
- `cloneDeep` and aliasing: tick records are values, so the copies the engine makes are implicit. So is the in-place mutation of `inputs` arrays during a replay. TopDown's `runFn` returns a new value rather than the same mutated object.
- `Engine.GameEngine.StartGameLoop`: requires `fps` to be a positive whole number. For other values `1000 / fps` and `fps * 5` are not meaningful tick lengths or history sizes.
- The `onStateUpdate` callback is represented by whether one was given. The tick it would receive is returned as `notified`.
- A queue entry without a `stateId` (`stateId === undefined`) cannot arise: `setInput` only queues entries that have one. That branch of `processInputQueue` is not modelled.
- `isGameStateWithRelac` is replaced by the two constructors of `RunParams`.
- Case mapping in `toLower`/`capitalize` covers ASCII letters only. The route keys are ASCII.
- The TopDown sample game imports `GameState` and `InputState`, which the engine file does not export. Its genesis state has no `gameId`, which the seed text renders as the empty string. The model uses the engine as written and `gameId = ""` for the genesis state.
- TopDown's `playerId` is a number; the model uses the engine's number-or-string player id.
- `getQueryParams` called with `null` (which throws) is not modelled; only an omitted url or a string is.
- React components, routing, the network, the server, persistence and styling are outside this model.
