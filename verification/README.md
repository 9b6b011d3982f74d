# Siteswap state notation in Dafny

This project models the core of a juggling-pattern explorer built on **state notation**.
A juggling state is a bitmask: bit 0 is the current beat, and a set bit `p` is a prop
landing `p` beats from now. Each beat the state shifts right by one. A prop that lands
is rethrown into an empty future beat `p`, which is a throw of height `p + 1`. If no prop
lands, the beat is a 0-throw.

The model covers two parts of the repository.

- **The Rust engine.** This is the `juggling-tools` state algebra:
  - `State::new`, `prop_at`, `display`, `to_binary_string`, `generate`/`backtrack`;
  - `Transition::from_state`;
  - `compute_throws`;
  - `combinations`.

  It also covers the engine crate's older copy of that algebra (`state.rs`,
  `transition.rs`), the bounds check of the graph query, and the table route's cache key
  and hand-written JSON serialiser.
- **The pure logic of the web client.** This covers:
  - the binary and abbreviated state labels;
  - the undoable builder reducer;
  - the builder canvas's ground state, per-step snapshots and button enabling;
  - the pattern sequence and its loop marks;
  - the throw picker's button styles;
  - the conversion of a builder walk to a graph payload;
  - the discrete part of the graph layout (labels, ids, base node);
  - the request/snapshot protocol of the layout hook.

### How the model is built

States are unbounded `nat`s (`Bitmask`). The width of the Rust `Bits` type is chosen by a
cargo feature. Here it is a parameter `w`, one of 8, 16, 32, 64 or 128 (`StateNotation.BitsWidth`),
and every shift that would overflow at that width is excluded by a precondition. The web
client's JavaScript `Set` and `Map` iterate in insertion order, so they are modelled as
duplicate-free sequences (`InsertionOrder`). Module-level mutable state, as in the layout
hook, is modelled as a value threaded through pure functions. Every operation has a partner:
- an inverse (label ↔ value, join ↔ split, choose ↔ undo, subscribe ↔ unsubscribe);
- a reference definition (Pascal's rule for `combinations`, an ordered enumeration for
  `backtrack`, the library's `from_state` for the legacy `get_transitions`);
- or an invariant it keeps (prop count, builder invariant, layout store invariant).

### Where the code may surprise

Five behaviours of the code are easy to misread. The model follows the code in each.

- **The abbreviated label can be inverted.** Because trailing clear bits leave no gap
  character, one might expect the abbreviation to lose information. At a fixed
  `maxHeight`, though, the gap characters determine every bit below `maxHeight`:
  `BinaryLabel.AbbreviatedRoundTrip` decodes the label back to `n mod 2^maxHeight`, and
  `BinaryLabel.AbbreviatedInjective` follows from it. The decoder recovers the trailing
  clear bits from `maxHeight`. Only labels of different heights can be confused, as when
  `1` at height 1 and `2` at height 2 both give `"0"`.
- **An out-of-order stale layout answer hides the fresh one.** Take two requests, X then
  Y, with Y answered first. One might expect the hook to go on showing Y's layout. In the
  code, an answer for X that arrives after Y's replaces the single snapshot. The hook then
  returns `null` until another answer comes (`LayoutHook.LateStaleAnswerHides`). It never
  shows X's layout for Y's data (`LayoutHook.RunSound`). The worker
  (web/src/workers/graph-layout.worker.ts) answers each message synchronously, in the
  order it receives them. So with that worker the situation does not arise, and the model
  therefore lets the worker answer in any order.
- **Zero at width zero.** `toBinaryLabel(0, 0, …)` is `"0"`, one character long, because
  `toString(2)` of zero is `"0"` and `padStart` never truncates. The engine's
  `to_binary_string(0)` is empty (`BinaryLabel.LabelZeroWidth`). The two labels agree at
  every width of at least 1 (`BinaryLabel.LabelMatchesBinaryString`).
- **No base node at height zero.** The engine's graph query (engine/src/graph.rs:13-24)
  accepts `max_height = num_props = 0`. The server route and the builder route both demand
  at least 1 (server/src/routes/v1/graphs.ts:7-8, web/src/routes/_authed/builder.tsx:8-9),
  so this case is reached only by calling the engine directly. The base id is then
  `"0".repeat(0) + "1".repeat(0)`, the empty string, while the only state 0 is labelled
  `"0"`. So no node is marked as the base (`GraphLayout.ZeroHeightBaseUnmarked`). From
  height 1 on, the base node is exactly the ground state (`GraphLayout.IsBaseIsGround`).
- **More props than beats fails the layout.** The builder route checks `num_props` and
  `max_height` each on its own (web/src/routes/_authed/builder.tsx:8-9), so
  `num_props > max_height` passes it. For a payload with those values,
  `"0".repeat(max_height - num_props)` throws a `RangeError`, and
  `GraphLayout.ComputeGraphLayout` returns that error (`GraphLayout.BaseNodeId`).

## Model

| member | source | states |
|---|---|---|
| Combinatorics.Combinations | engine/crates/juggling-tools/src/util.rs:5-15 | Zero when `k > n`. Never above `u64::MAX`. Equal to the binomial coefficient by Pascal's rule whenever no saturating multiplication in the loop saturates. |
| Combinatorics.MultiplyUp | engine/crates/juggling-tools/src/util.rs:10-13 | Starting from the exact `C(n, i)`, the loop's iterations `i .. k-1` end at `C(n, k)` if none of them saturates. |
| Combinatorics.Absorption | engine/crates/juggling-tools/src/util.rs:12 | `(i+1)·C(n, i+1) = (n-i)·C(n, i)`, which makes each division in the loop exact. |
| Combinatorics.BinomSymmetry | engine/crates/juggling-tools/src/util.rs:9 | `C(n, k) = C(n, n-k)`. This is why the loop may run to `min(k, n-k)`. |
| Combinatorics.CombinationsSymmetric | engine/crates/juggling-tools/src/util.rs:37-51 | `combinations(n, k) == combinations(n, n-k)` for every u64 `n` and `k <= n`, saturated or not. |
| Combinatorics.CombinationsEdges | engine/crates/juggling-tools/src/util.rs:29-34 | `C(n, 0) = C(n, n) = 1` and `C(n, k) = 0` for `k > n`, for every u64 `n`. |
| Combinatorics.CombinationsKnownValues | engine/crates/juggling-tools/src/util.rs:21-34 | The values the crate's tests list, such as `C(10, 3) = 120` and `C(3, 5) = 0`. |
| StateNotation.New | engine/crates/juggling-tools/src/state_notation/state.rs:46-56 | Rejects a height above the width. Otherwise it fails exactly when some bit at or above `max_height` is set. An accepted state keeps its bits and lies below `2^max_height`. |
| StateNotation.NewCheck | engine/crates/juggling-tools/src/state_notation/state.rs:50 | The shift test `bits >> max_height != 0` is the same as a set bit in `max_height .. w-1`, i.e. `bits >= 2^max_height`. |
| StateNotation.PropAt | engine/crates/juggling-tools/src/state_notation/state.rs:74-76 | True exactly when bit `pos` is set, stated through remainders rather than shifts. |
| StateNotation.Display | engine/crates/juggling-tools/src/state_notation/state.rs:80-85 | Length `max_height`; character `i` is `x` exactly when bit `max_height-1-i` is set, and `0` otherwise. |
| StateNotation.ToBinaryString | engine/crates/juggling-tools/src/state_notation/state.rs:88-93 | Length `max_height`; character `i` is `1` exactly when bit `max_height-1-i` is set, and `0` otherwise. |
| StateNotation.BinaryStringValue | engine/crates/juggling-tools/src/state_notation/state.rs:88-93 | Read back as a binary numeral, the string of a valid state is its bits. |
| StateNotation.DisplayMatchesBinary | engine/crates/juggling-tools/src/state_notation/state.rs:179-191 | `display` shows `x` exactly where `to_binary_string` shows `1`. |
| StateNotation.Generate | engine/crates/juggling-tools/src/state_notation/state.rs:95-103 | `C(max_height, num_props)` states with the required prop count, all below `2^max_height`. They are strictly increasing, so distinct. Every such bitmask occurs. The first state is the ground state `2^num_props - 1`. |
| StateNotation.Backtrack | engine/crates/juggling-tools/src/state_notation/state.rs:105-128 | From position `pos` with `k` props left, backtracking lists `C(max_height - pos, k)` states: the skip branch and the place branch add up by Pascal's rule, and too many props give none. |
| StateNotation.BacktrackIsCombos | engine/crates/juggling-tools/src/state_notation/state.rs:105-128 | Backtracking from a prefix lists the prefix plus each value of the increasing reference enumeration, in order. |
| StateNotation.GenerateIsCombos | engine/crates/juggling-tools/src/state_notation/state.rs:99-103 | `generate` is exactly the reference enumeration. |
| StateNotation.CombosFirst | engine/crates/juggling-tools/src/state_notation/state.rs:98 | The first value enumerated is the one with the low `k` bits set. |
| StateNotation.GenerateThreeInFive | engine/crates/juggling-tools/src/state_notation/state.rs:247-259 | `generate(3, 5)` is the ten states the test lists, in increasing order. |
| StateNotation.NewExamples | engine/crates/juggling-tools/src/state_notation/state.rs:135-156 | `0b101` at height 5 is accepted with its bits; height 33, and bit 5 at height 5, are rejected; all 32 bits at height 32 are accepted. |
| StateNotation.PropAtExample | engine/crates/juggling-tools/src/state_notation/state.rs:157-165 | On `0b1010`, `prop_at` is false at 0 and 2 and true at 1 and 3. |
| StateNotation.DisplayExample | engine/crates/juggling-tools/src/state_notation/state.rs:166-171 | `0b10110` displays as `x0xx0`. |
| StateNotation.BinaryStringExample | engine/crates/juggling-tools/src/state_notation/state.rs:172-177 | `0b10110` has the binary string `10110`. |
| StateTransition.FromState | engine/crates/juggling-tools/src/state_notation/transition.rs:51-85 | With no prop landing, a single 0-throw to the shifted state. With a prop landing, one rethrow per empty slot below `max_height`: every listed rethrow is legal, every empty slot gives one, and their count is `max_height` minus the occupied slots. Heights strictly increase. |
| StateTransition.RethrowsSound | engine/crates/juggling-tools/src/state_notation/transition.rs:57-72 | Each transition of the loop puts the landing prop into a slot that was empty, with height slot + 1. |
| StateTransition.Rethrows | engine/crates/juggling-tools/src/state_notation/transition.rs:57-72 | The loop from `bit_pos = pos` lists at most one transition per remaining slot. Each leaves the given state at the given height, with a throw height above `pos` and at most `max_height`. |
| StateTransition.RethrowsComplete | engine/crates/juggling-tools/src/state_notation/transition.rs:57-72 | Every empty slot from the loop's start on yields a transition. |
| StateTransition.RethrowsIncreasing | engine/crates/juggling-tools/src/state_notation/transition.rs:58-61 | The loop lists heights in strictly increasing order. |
| StateTransition.RethrowsCount | engine/crates/juggling-tools/src/state_notation/transition.rs:57-72 | The loop yields one transition per clear bit in its range. |
| StateTransition.PreservesPopcount | engine/crates/juggling-tools/src/state_notation/transition.rs:150-166 | Every transition keeps the number of props. |
| StateTransition.DestinationsValid | engine/crates/juggling-tools/src/state_notation/transition.rs:168-184 | From a state below `2^max_height`, every destination is below `2^max_height`. |
| StateTransition.HasTransition | engine/crates/juggling-tools/src/state_notation/transition.rs:203-213 | A state with at most `max_height` props always has at least one transition. |
| StateTransition.TransitionText | engine/crates/juggling-tools/src/state_notation/transition.rs:19-28 | The destination's `x`/`0` display, then ` (`, the height, and `)`. |
| StateTransition.TransitionTextHeight | engine/crates/juggling-tools/src/state_notation/transition.rs:19-28 | The text between the parentheses reads back as the throw height. |
| StateTransition.FromStateSmallExamples | engine/crates/juggling-tools/src/state_notation/transition.rs:99-114 | `110` gives the single 0-throw to `011`; `111` gives the single throw 3 to `111`. |
| StateTransition.FromStateGroundExample | engine/crates/juggling-tools/src/state_notation/transition.rs:117-125 | From `00111` at height 5: throws 3, 4, 5 to `00111`, `01011`, `10011`. |
| StateTransition.FromStateSkipExample | engine/crates/juggling-tools/src/state_notation/transition.rs:128-135 | From `10101`: throws 1, 3, 5 to `01011`, `01110`, `11010`. |
| StateTransition.TransitionTextExample | engine/crates/juggling-tools/src/state_notation/transition.rs:186-191 | The transition from `111` at height 3 displays as `xxx (3)`. |
| Throws.ComputeThrows | engine/crates/juggling-tools/src/state_notation/throws.rs:35-55 | Errors for a height above the width and for a state with bits at or above `max_height`. Succeeds exactly otherwise. The throws are then `from_state`'s heights and destinations, in order. |
| Throws.SameValidationAsNew | engine/crates/juggling-tools/src/state_notation/throws.rs:36-42 | Accepts exactly the arguments `State::new` accepts. |
| Throws.ThrowsKeepInvariants | engine/crates/juggling-tools/src/state_notation/throws.rs:104-138 | Every reported destination has the state's prop count and lies below `2^max_height`. |
| Throws.ZeroThrow | engine/crates/juggling-tools/src/state_notation/throws.rs:67-73 | With no prop landing, the single throw is a 0 to the shifted state. |
| Throws.ComputeThrowsValid | engine/crates/juggling-tools/src/state_notation/throws.rs:152-164 | For valid arguments, the throws are `from_state`'s transitions. |
| Throws.ComputeThrowsGround | engine/crates/juggling-tools/src/state_notation/throws.rs:85-91 | From `00111` at height 5: throws 3, 4, 5. |
| Throws.ComputeThrowsSkips | engine/crates/juggling-tools/src/state_notation/throws.rs:94-101 | From `10101`: throws 1, 3, 5 to `01011`, `01110`, `11010`. |
| Throws.ComputeThrowsRejects | engine/crates/juggling-tools/src/state_notation/throws.rs:140-149 | Height 33 at width 32 and bit 5 at height 5 are rejected. |
| LegacyEngine.New | engine/src/state.rs:7-18 | Rejects a height above 64. Otherwise it succeeds exactly when the bits lie below `2^max_height`, and keeps them. |
| LegacyEngine.BallAt | engine/src/state.rs:24-26 | True exactly when bit `pos` is set. |
| LegacyEngine.NumBalls | engine/src/state.rs:28-30 | The number of set bits among the 64, at most 64. |
| LegacyEngine.NumBallsCountsBalls | engine/src/state.rs:28-30 | `count_ones` is the number of positions at which `ball_at` holds. |
| LegacyEngine.Display | engine/src/state.rs:32-37 | Length `max_height`; character `i` is `x` exactly when `ball_at(max_height-1-i)`, and `0` otherwise. |
| LegacyEngine.GenerateStates | engine/src/state.rs:40-71 | `C(max_height, num_balls)` states, each with `num_balls` balls below `2^max_height`. They are strictly increasing, so no state is listed twice. Every such bitmask is listed. The first state is the ground state `2^num_balls - 1`. |
| LegacyEngine.GetTransitions | engine/src/transition.rs:38-68 | With no ball landing, it succeeds exactly when `State::new` accepts the shifted bits, and gives the single 0-throw. Above height 64 it always panics with the height error: with a ball landing, the loop stops at its first empty slot, which lies below 64. A failing `unwrap` is the error outcome. |
| LegacyEngine.RethrowsAboveLimit | engine/src/transition.rs:52-62 | Above height 64 the loop panics with the height error at its first empty slot. Bit 63 of `bits >> 1` is always clear, so the loop reaches such a slot before `bit_pos` reaches 64. |
| LegacyEngine.RethrowsNeverPanic | engine/src/transition.rs:52-64 | From a state below `2^max_height`, no `unwrap` in the loop fails, and the loop lists the library's rethrows. |
| LegacyEngine.Rethrows | engine/src/transition.rs:51-64 | When the loop finishes without a panic, it lists at most one transition per remaining slot. Each leaves the given state with a throw height above `pos` and at most `max_height`. |
| LegacyEngine.GetTransitionsNeverPanic | engine/src/transition.rs:38-68 | For a valid state and `max_height <= 64` it never panics. Its result is the library's `from_state` at width 64. |
| LegacyEngine.TransitionText | engine/src/transition.rs:13-22 | The destination's `display(max_height)`, then ` (`, the height, and `)`. The digits between the parentheses read back as the throw height. |
| LegacyEngine.LegacyGenerateExample | engine/src/state.rs:77-82 | Three balls at height five give ten states. |
| LegacyEngine.LegacyNineExample | engine/src/state.rs:84-105 | `0b01001` displays as `0x00x`, has balls at 0 and 3 only, and has two balls. |
| LegacyEngine.LegacyNewExample | engine/src/state.rs:107-110 | Bit 5 at height 5 is rejected. |
| GraphParams.Validate | engine/src/graph.rs:13-24 | A height above 32, a ball count above 32, or more balls than the height is a bad request. |
| GraphParams.ValidateIff | engine/src/graph.rs:13-24 | Accepted exactly when `num_balls <= max_height <= 32`. |
| GraphParams.ValidateIgnoresCompact | engine/src/graph.rs:13-24 | The outcome does not depend on `compact`. |
| TableRoute.CacheKey | engine/src/routes/table.rs:36-40 | The key is `table-v` followed by the five fields. Splitting the rest on `-` gives them back. |
| TableRoute.CacheKeyInjective | engine/src/routes/table.rs:36-40 | Two queries share a key exactly when they agree on schema version, props, height, `compact` and the effective `reversed` flag. |
| TableRoute.CompactKeyIgnoresReversed | engine/src/routes/table.rs:36 | A compact query has the same key whatever its `reversed` flag. |
| TableRoute.CacheKeyExample | engine/src/routes/table.rs:37-40 | The key of `3, 5, non-compact, reversed` under schema 1 is `table-v1-3-5-false-true`. |
| TableRoute.CacheKeyCompactExample | engine/src/routes/table.rs:36-40 | The same query made compact has the key `table-v1-3-5-true-false`: the `reversed` flag is dropped. |
| TableRoute.StateValue | engine/src/routes/table.rs:128-140 | Compact: a decimal that reads back as the bits. Otherwise: `max_height` binary digits in double quotes. Never a comma. |
| TableRoute.StateValueBinary | engine/src/routes/table.rs:132 | Without `reversed`, the quoted digits read back as the state. |
| TableRoute.StateValueReversed | engine/src/routes/table.rs:133-137 | With `reversed`, the quoted digits are the non-reversed ones backwards. |
| TableRoute.CellText | engine/src/routes/table.rs:162-165 | `null` exactly for an empty cell; otherwise a decimal reading back as the height. |
| TableRoute.ComputeTable | engine/src/routes/table.rs:119-181 | The serialiser's loops produce the document whose fields, in order, are the comma-joined state values, the comma-joined rows, the ground state, the state count, the height and the prop count. |
| TableRoute.RowLoop | engine/src/routes/table.rs:157-167 | The inner loop produces `[`, the comma-joined cells, then `]`. |
| TableRoute.AppendItem | engine/src/routes/table.rs:146-149 | Writing a comma before every item but the first extends the join of the items so far by one item. |
| TableRoute.StatesSectionSplits | engine/src/routes/table.rs:144-150 | The states section splits on commas into one value per state, in order. |
| TableRoute.RowSplits | engine/src/routes/table.rs:152-168 | A row splits on commas into one entry per cell: `null` exactly for an empty cell, otherwise its height. |
| InsertionOrder.Insert | web/src/hooks/use-builder-reducer.ts:38-39 | `set.add`: holds the old elements and the new one, and keeps a duplicate-free collection duplicate-free. |
| InsertionOrder.Remove | web/src/hooks/use-graph-layout.ts:26-28 | `set.delete`: drops exactly the given element; removing an absent one changes nothing. |
| InsertionOrder.RemoveInsert | web/src/hooks/use-graph-layout.ts:24-29 | Adding an absent element and deleting it gives back the collection. |
| InsertionOrder.DedupSnoc | web/src/lib/builder-graph-data.ts:14-23 | Adding one more element to the deduplicated input inserts it into the deduplicated prefix. |
| InsertionOrder.DedupFirstOccurrenceOrder | web/src/lib/builder-graph-data.ts:13-24 | The map's values come in order of each key's first occurrence. |
| BinaryLabel.Base2 | web/src/lib/binary-label.ts:2 | `toString(2)`: a non-empty binary numeral with no leading zero. |
| BinaryLabel.Base2Value | web/src/lib/binary-label.ts:2 | `toString(2)` reads back as the number. |
| BinaryLabel.Base2Length | web/src/lib/binary-label.ts:2 | A number below `2^k` (with `k >= 1`) has at most `k` binary digits, so padding reaches exactly `k`. |
| BinaryLabel.ToBinaryLabel | web/src/lib/binary-label.ts:1-4 | Binary digits only, at least `maxHeight` of them. |
| BinaryLabel.LabelShape | web/src/lib/binary-label.ts:1-4 | For `n < 2^m` (with `m >= 1`), the plain label has exactly `m` digits and reads back as `n`. |
| BinaryLabel.LabelOverflows | web/src/lib/binary-label.ts:2 | `padStart` does not truncate: a value of `2^m` or more gets more than `m` digits. |
| BinaryLabel.LabelReversed | web/src/lib/binary-label.ts:3 | The reversed label is the plain label read backwards. |
| BinaryLabel.LabelBits | web/src/lib/binary-label.ts:1-4 | Plain character `i` is bit `m-1-i`; reversed character `i` is bit `i`. |
| BinaryLabel.LabelValue | web/src/lib/binary-label.ts:2 | The plain label reads back as the value, at every width. |
| BinaryLabel.LabelInjective | web/src/lib/binary-label.ts:1-4 | At a fixed width and direction, distinct values have distinct labels. |
| BinaryLabel.LabelMatchesBinaryString | web/src/lib/binary-label.ts:1-4 | For `1 <= m <= w` and `n < 2^m`, the plain label equals the engine's `to_binary_string`. |
| BinaryLabel.LabelZeroWidth | web/src/lib/binary-label.ts:2 | At width 0, zero is labelled `"0"`, whereas the engine's binary string is empty. |
| BinaryLabel.BinaryLabelExamples | web/src/lib/binary-label.ts:1-4 | `01010` for 10 at width 5; `01100` for 6 reversed. |
| BinaryLabel.GapRoundTrip | web/src/lib/binary-label.ts:11 | The gap digit (`0`–`9`, then `a` for 10 onwards) decodes back to the gap. |
| BinaryLabel.AbbreviatedLabel | web/src/lib/binary-label.ts:6-18 | One character per set bit below `maxHeight`. |
| BinaryLabel.AbbrevLength | web/src/lib/binary-label.ts:9-16 | The loop from position `pos` emits one character per set bit below `pos`. |
| BinaryLabel.DecodeAbbrevBound | web/src/lib/binary-label.ts:6-18 | Anything the reference decoder of gap digits decodes lies below `2^top`. |
| BinaryLabel.AbbrevDecodes | web/src/lib/binary-label.ts:9-16 | Decoding the loop's output from `pos + gap` recovers the bits below `pos`. |
| BinaryLabel.AbbreviatedRoundTrip | web/src/lib/binary-label.ts:6-18 | Decoding the label at `maxHeight` gives `n mod 2^maxHeight`. |
| BinaryLabel.AbbreviatedInjective | web/src/lib/binary-label.ts:6-18 | At a fixed height, states below `2^maxHeight` with equal labels are equal. |
| BinaryLabel.AbbreviatedZero | web/src/lib/binary-label.ts:6-18 | Zero has the empty label. |
| BinaryLabel.AbbreviatedExamples | web/src/lib/binary-label.ts:6-18 | `01010` abbreviates to `11`, `00111` to `200`, and 1 at height 12 to `b`. |
| BuilderReducer.Visited | web/src/hooks/use-builder-reducer.ts:52-55 | The rebuilt set has no duplicates. It starts with the ground state and holds exactly the ground state and the steps' destinations. |
| BuilderReducer.Initial | web/src/hooks/use-builder-reducer.ts:21-28 | Standing on the ground state with no steps, the ground state visited; satisfies the invariant. |
| BuilderReducer.Reduce | web/src/hooks/use-builder-reducer.ts:30-66 | A choice appends the step from the current state, moves to the destination and adds it to the visited set. Undo with no steps changes nothing. Otherwise undo drops the last step and rebuilds current and visited from the rest. Reset is the initial state. Only reset moves the ground state. |
| BuilderReducer.ReducePreserves | web/src/hooks/use-builder-reducer.ts:30-66 | Every action keeps the invariant: current state is the last destination, visited set is rebuilt from the steps, and steps are chained. |
| BuilderReducer.ChooseThenUndo | web/src/hooks/use-builder-reducer.ts:32-62 | Undo straight after a choice gives back the state before it. |
| BuilderReducer.RunPreserves | web/src/hooks/use-builder-reducer.ts:30-66 | Any sequence of actions keeps the invariant. |
| BuilderReducer.RunKeepsGround | web/src/hooks/use-builder-reducer.ts:63-64 | Without a reset the ground state never changes. |
| BuilderReducer.ReachableDistinct | web/src/hooks/use-builder-reducer.ts:38-55 | Every reachable state satisfies the invariant, so its visited set has no duplicates. |
| BuilderCanvas.GroundState | web/src/components/builder/builder-canvas.tsx:27 | `(1 << numProps) - 1` is below `2^numProps`, has `numProps` set bits, and they are the low ones. |
| BuilderCanvas.VisitedStatesBefore | web/src/components/builder/builder-canvas.tsx:51-59 | One snapshot per step. Entry `i` is the visited set as it stood before step `i`. |
| BuilderCanvas.SnapshotContents | web/src/components/builder/builder-canvas.tsx:51-59 | Entry `i` holds the ground state and the destinations of steps before `i`, and nothing else. |
| BuilderCanvas.SnapshotIsReducerState | web/src/components/builder/builder-canvas.tsx:50-59 | Entry `i` is the reducer's visited set at the moment step `i` was chosen, and step `i` started from that moment's current state. |
| BuilderCanvas.UndoEnabled | web/src/components/builder/builder-canvas.tsx:136 | The Undo button is enabled exactly when pressing it would change the builder state. |
| BuilderCanvas.ResetEnabled | web/src/components/builder/builder-canvas.tsx:145 | On a reachable builder state, the Reset button is enabled exactly when resetting to the current ground state would change the state. |
| BuilderCanvas.ResetAction | web/src/components/builder/builder-canvas.tsx:46-48 | Reset dispatches the ground state of the prop count. |
| BuilderCanvas.DisabledResetIsIdentity | web/src/components/builder/builder-canvas.tsx:145 | While Reset is disabled, resetting to the same ground state would change nothing. |
| BuilderCanvas.CanvasStart | web/src/components/builder/builder-canvas.tsx:27-28 | The builder starts on the state with the low `numProps` bits set, and resetting it there changes nothing. |
| BuilderCanvas.GroundStateExample | web/src/components/builder/builder-canvas.tsx:27 | Three props give `0b111`; zero props give 0. |
| PatternSequence.Mark | web/src/components/builder/pattern-sequence.tsx:30-31 | A loop exactly when snapshot `i` exists and holds the destination. A ground loop exactly when it is a loop back to the ground state. |
| PatternSequence.SiteswapHeights | web/src/components/builder/pattern-sequence.tsx:22 | The siteswap splits at its spaces into the throw heights, one per step, in order. |
| PatternSequence.Siteswap | web/src/components/builder/pattern-sequence.tsx:22 | The siteswap text is empty exactly when the walk has no steps. |
| PatternSequence.SiteswapInjective | web/src/components/builder/pattern-sequence.tsx:22 | Two walks with the same siteswap have the same number of steps and the same heights. Only the empty walk has the empty siteswap. |
| PatternSequence.Rows | web/src/components/builder/pattern-sequence.tsx:27-31 | One row per step. Both labels are binary, at least `maxHeight` long, and read back as the step's two states. The row carries the step's height and its loop mark. |
| PatternSequence.RowsMeaning | web/src/components/builder/pattern-sequence.tsx:27-31 | With the canvas's snapshots, row `i` is marked exactly when its step returns to the ground state or to an earlier destination, and is a ground loop exactly when it returns to the ground state. |
| PatternSequence.View | web/src/components/builder/pattern-sequence.tsx:18-22 | The placeholder exactly when there are no steps. Otherwise one row per step, as `Rows` describes, and the siteswap. |
| PatternSequence.MarkMeaning | web/src/components/builder/pattern-sequence.tsx:30-31 | With the canvas's snapshots, a step is marked exactly when it returns to the ground state or to an earlier step's destination. It is a ground loop exactly when it returns to the ground state. |
| PatternSequence.FirstStepMark | web/src/components/builder/pattern-sequence.tsx:30-31 | The first step is never marked as an ordinary loop. |
| PatternSequence.GroundLoopExample | web/src/components/builder/pattern-sequence.tsx:22-31 | Out and back to the ground: the second step is a ground loop, siteswap `3 2`. |
| PatternSequence.PlainLoopExample | web/src/components/builder/pattern-sequence.tsx:30-31 | Returning to a non-ground state visited earlier is an ordinary loop. |
| ThrowPicker.OptionStyle | web/src/components/builder/throw-picker.tsx:51-66 | Green exactly for a visited destination that is the ground state; amber exactly for another visited destination; plain exactly for an unvisited one. |
| ThrowPicker.OptionButton | web/src/components/builder/throw-picker.tsx:50-67 | A button shows the option's height and a binary destination label that reads back as the destination, at least `max_height` digits long. Pressing it chooses that throw. |
| ThrowPicker.Picker | web/src/components/builder/throw-picker.tsx:29-53 | The current label is binary and reads back as the current state. Buttons exist exactly when throws are given, one per throw, in order, each with its throw's height and a label reading back as its destination. |
| ThrowPicker.StyleMeansRevisit | web/src/components/builder/throw-picker.tsx:51-52 | A button is styled as a loop exactly when choosing it adds nothing to the visited set. It is a ground loop exactly when it also returns the walk to the ground state. |
| ThrowPicker.ChooseRecordsOption | web/src/components/builder/throw-picker.tsx:67 | Pressing a button records the option's throw from the current state and moves to its destination. |
| ThrowPicker.PickerLabel | web/src/components/builder/throw-picker.tsx:29 | The current-state label is the engine's binary string of the state. |
| BuilderGraphData.StepEdges | web/src/lib/builder-graph-data.ts:14-21 | One edge per step, from its state to its destination with its height. |
| BuilderGraphData.EdgeKeyInjective | web/src/lib/builder-graph-data.ts:15 | Two edges have the same map key exactly when they are the same edge. |
| BuilderGraphData.KeyPresent | web/src/lib/builder-graph-data.ts:16 | A key is in the map exactly when its edge was already stored. |
| BuilderGraphData.ToGraphData | web/src/lib/builder-graph-data.ts:5-35 | Nodes are the visited set. Edges are the steps' edges with repeats removed, in order of first occurrence. Counts match. The other fields are copied. |
| BuilderGraphData.AdvanceOne | web/src/lib/builder-graph-data.ts:14-23 | One loop iteration grows the map exactly when the step's key is new. |
| BuilderGraphData.EdgesAreDistinctSteps | web/src/lib/builder-graph-data.ts:12-24 | The edges are distinct. An edge is present exactly when some step makes it. Edges are ordered by first occurrence among the steps. |
| BuilderGraphData.NodesAreVisited | web/src/lib/builder-graph-data.ts:10 | For a reachable builder state, the nodes are distinct: the ground state and the steps' destinations. |
| BuilderGraphData.RepeatedLoopExample | web/src/lib/builder-graph-data.ts:12-24 | Walking a two-step loop twice yields two edges, not four. |
| GraphLayout.ExpandCompact | web/src/lib/graph-layout.ts:8-19 | Every node and edge endpoint is a label that reads back as the compact state. Heights and the spread fields are copied. |
| GraphLayout.Expand | web/src/lib/graph-layout.ts:8-12 | A state's label is binary, at least `max_height` digits long, and reads back as the state. It is exactly `max_height` digits long when the state fits below `2^max_height`. |
| GraphLayout.ExpandKeepsDistinct | web/src/lib/graph-layout.ts:12 | Distinct states expand to distinct node ids. |
| GraphLayout.BaseNodeId | web/src/lib/graph-layout.ts:21-23 | A `RangeError` exactly when there are more props than the height; otherwise an id of length `max_height`. |
| GraphLayout.OnesValue | web/src/lib/graph-layout.ts:22 | `"1".repeat(k)` reads as `2^k - 1`. |
| GraphLayout.BaseIdIsGroundLabel | web/src/lib/graph-layout.ts:21-23 | The base id is the expanded label of the ground state `2^num_props - 1`. |
| GraphLayout.ComputeGraphLayout | web/src/lib/graph-layout.ts:25-64 | Fails exactly when the base id fails. Otherwise it gives one node per state, with id and caption being its label (which reads back as the state). It gives one edge per compact edge, with endpoints reading back as its states and the height as its caption. |
| GraphLayout.IsBaseIsGround | web/src/lib/graph-layout.ts:52 | For `max_height >= 1`, a node is marked as the base exactly when its state is the ground state. |
| GraphLayout.ZeroHeightBaseUnmarked | web/src/lib/graph-layout.ts:21-23 | At height 0 with no props the base id is empty, while the ground state 0 is labelled `"0"`. No node is marked as the base. |
| GraphLayout.EdgeIdAsJoin | web/src/lib/graph-layout.ts:57 | The edge id is `e-` followed by the three fields joined with `-`. |
| GraphLayout.EdgeId | web/src/lib/graph-layout.ts:57 | The id starts with `e-`. When neither label holds a `-`, the rest splits at `-` back into the source label, the target label and the height's decimal. |
| GraphLayout.EdgeIdInjective | web/src/lib/graph-layout.ts:57 | Distinct compact edges never share an edge id. |
| GraphLayout.BaseIdExamples | web/src/lib/graph-layout.ts:21-23 | Three props at height five give `00111`; four props at height three give a `RangeError`. |
| LayoutHook.InitialInvariant | web/src/hooks/use-graph-layout.ts:12-17 | The store at load time satisfies the invariant. |
| LayoutHook.RequestLayout | web/src/hooks/use-graph-layout.ts:35-41 | The same payload as last time returns the current id and posts nothing. A new payload posts one request under the next id and remembers it. |
| LayoutHook.RequestPreserves | web/src/hooks/use-graph-layout.ts:35-41 | Requests keep the invariant. The returned id is the latest and belongs to the given payload. |
| LayoutHook.RequestCounts | web/src/hooks/use-graph-layout.ts:36-39 | A repeated payload posts nothing. A new one posts exactly one request, with a larger id. |
| LayoutHook.PostedIds | web/src/hooks/use-graph-layout.ts:38-39 | Posted ids are at least 1 and strictly increasing. |
| LayoutHook.Subscribe | web/src/hooks/use-graph-layout.ts:24-25 | Adds the callback and keeps every other one. |
| LayoutHook.Unsubscribe | web/src/hooks/use-graph-layout.ts:26-28 | Removes the callback and keeps every other one. |
| LayoutHook.SubscribeUnsubscribe | web/src/hooks/use-graph-layout.ts:24-29 | Unsubscribing a fresh callback leaves the listeners as they were. |
| LayoutHook.Deliver | web/src/hooks/use-graph-layout.ts:19-22 | An answer replaces the snapshot, changes nothing else, and notifies exactly the current listeners. |
| LayoutHook.UseGraphLayout | web/src/hooks/use-graph-layout.ts:43-50 | Requests a layout only when given data. Returns the snapshot's layout exactly when the snapshot carries this call's id, and `null` otherwise. |
| LayoutHook.StepPreserves | web/src/hooks/use-graph-layout.ts:19-50 | Every event keeps the invariant. A read that shows a layout shows the one computed for its own payload. |
| LayoutHook.Step | web/src/hooks/use-graph-layout.ts:19-50 | Only a read returns a layout. The posted requests only grow, by at most one, and only on a request or a read. Only subscribing or unsubscribing changes the listeners. A worker answer to a posted request stores that request's id with the layout of its payload; an answer to no posted request changes nothing. |
| LayoutHook.RunSound | web/src/hooks/use-graph-layout.ts:19-50 | Under any interleaving of requests, answers, reads and subscriptions, a read never shows a layout for a payload other than its own. |
| LayoutHook.NoDataNoLayout | web/src/hooks/use-graph-layout.ts:44-47 | Without data the hook returns `null`. |
| LayoutHook.FreshAnswerShown | web/src/hooks/use-graph-layout.ts:43-50 | Once the answer to the latest request has arrived, reading the same payload shows its layout. |
| LayoutHook.LateStaleAnswerHides | web/src/hooks/use-graph-layout.ts:19-22 | An older answer arriving after the fresh one replaces it, and the hook returns `null`. |
| Linking.GroundIsFirstGenerated | web/src/components/builder/builder-canvas.tsx:27 | The canvas's ground state is the first state the engine generates. |
| Linking.BaseIdIsGroundState | web/src/lib/graph-layout.ts:21-23 | The graph's base id is the label of the builder's ground state. It is also the engine's binary string of the first generated state. |
| Linking.GeneratedLabels | web/src/lib/binary-label.ts:1-4 | On every generated state, the web label and the engine's binary string agree. |
| Linking.ChosenThrowKeepsProps | web/src/components/builder/builder-canvas.tsx:35-40 | Choosing any throw the engine offers keeps the prop count and stays below `2^max_height`. |

## Left out

- HTTP routing, authentication, the cache tiers (memory, file, Redis, precompute) and the server proxy: these are I/O around the core.
- The library's `compute_table` (the transition table itself) is not part of this model. `TableRoute.ComputeTable` takes the table as an input and models only the route's serialisation of it. The table route's own tests parse the JSON with a library, which is also left out.
- Node positions, edge routing and the node size constants of `computeGraphLayout`: these come from the dagre layout library.
- The layout worker's internals: the worker is a `compute` parameter that may answer in any order.
- React rendering, `isFetching` spinners, error messages, CSS classes beyond the three button styles, and the graph panel that wires the builder to the graph view.
- The Rust error strings are datatype constructors carrying the same numbers, not formatted text. The getters of `Transition` and `Throw` are datatype fields.
- The width of `Bits` is chosen by a cargo feature. It is the parameter `w`, so each width is covered but the feature mechanism is not.
- StateNotation.PropAt, StateNotation.Display, StateNotation.ToBinaryString, StateNotation.Generate, StateTransition.FromState, LegacyEngine.BallAt, LegacyEngine.Display, LegacyEngine.GenerateStates and LegacyEngine.Rethrows: these require every shift to stay below the word width (`pos < w`, `max_height <= w`, and 64 for the engine copy). `FromState` needs `max_height <= w` only when a prop lands. `LegacyEngine.Rethrows` allows heights above 64 only from a slot below 64, which is the only way `get_transitions` calls it there. In Rust, `x >> n` and `1 << n` with `n` at or above the width panic in a debug build and mask the count in a release build. The public signatures take any `u8`, but every caller checks the height first (engine/src/graph.rs:13-24, engine/src/routes/table.rs:26, engine/crates/juggling-tools/src/state_notation/throws.rs:36-42), so the model leaves out both behaviours. The generators do accept any height when there are no props, or more props than beats, because those inputs never shift.
- BuilderCanvas.GroundState: requires `numProps <= 30`. JavaScript's `1 << numProps` works on 32-bit signed integers, and above 30 the formula no longer gives the low `numProps` bits.
- BinaryLabel.AbbreviatedLabel: requires `maxHeight <= 32`. JavaScript's `n >> pos` takes the shift count modulo 32, so greater heights repeat bits; the web client never asks for more than 32.
- The web worker and the graph panel pass extra `reversed`/`abbreviated` arguments to `computeGraphLayout`. The defining file takes one argument, and the model follows it.
