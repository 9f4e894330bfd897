# Fractal tic-tac-toe: board bookkeeping, persisted reveal map, pointer targets and themes

This project models, in Dafny, the stateful core of a recursively nested
tic-tac-toe game. Playing a cell opens a new 3x3 board inside that cell. The
model covers four parts of the program:

- **`StorageState`** (`storage_state.dfy`, specified in `storage_tree.dfy`): the
  persisted map of revealed boards. It is a mutable 9-ary tree with one object
  per revealed game state. Each object may record the player who won that
  board. The model covers `revealPosition`, `hideState`, the generator
  `getRevealedPositions`, `toJSON`, `fromJSON` and `create`. Each method is
  proved to change the ghost `model` exactly as a pure function on `Tree`
  values does. The lemmas about those functions state idempotence, no-op cases,
  what is created and pruned, which winners are recorded and reported, and
  the JSON round trip.
- **`TicTacToe`** (`tictactoe.dfy`, specified in `boards.dfy` and
  `board_facts.dfy`): a board with drawing stripped away. It keeps its open
  cells (possibilities), its marks, its winner, its theme and its child
  boards. The model covers the constructor's pass over the nine cells,
  `showPossibility`, `getRevealedPosition`, `setTheme`, `setWinner`,
  `notifyRevealedPosition`, `showPosition` and `play`. Each method is proved
  against a function on `Board` values.
- **Pointer events** (`pointer_targets.dfy`, `pointer_states.dfy`,
  `pointer_events.dfy`): the tree of event targets, the first-match hit search,
  listener dispatch, the active-pointer state machine driven by DOM pointerdown,
  pointerup and pointermove events, and `replaceGesture`. The machine is proved
  to dispatch custom events in the protocol listeners rely on.
- **Themes** (`themes.dfy`): the six-entry colour tables, the clamped winner
  and loser index steps, `determineThemeProps`, the memoising `SequenceTheme`
  getters and the two exported themes.

A game state is modelled as the path of positions played from the initial
state (`GameStates.GameState`, a `seq<Position>` with no repeats). Equality is
path equality. `IndexOfPredecessor(s, a)` is `|a|` when `a` is a prefix of `s`
and -1 otherwise. **A state counts as its own predecessor**, because the
relevance tests at `src/scripts/content/tictactoe.ts:146`, `:152` and `:160`
need it: without it, they would never forward a record to the board it is
addressed to. `StorageState` gives the same result either way, since
`getNextStateAndPosition` gives no step for a node's own state.

`fromJSON` calls `playPosition(i)` for every key `i` present, and that call
throws when `i` was already played on the path. `StorageTrees.JsonToTree`
returns `None` in that case, and `FromJSON` returns `null`.

## Model

| member | source | states |
|---|---|---|
| `StorageTrees.NextStep` | src/scripts/store/storage-state.ts:19-33 | A step exists iff the node's state is a proper prefix of the target. The step is the target's prefix one move longer, together with the position played in that move. |
| `StorageStates.StorageState.Create` | src/scripts/store/storage-state.ts:141-143 | Gives a fresh valid node at the initial state, with no children and no winner. |
| `StorageTrees.EmptyRootYieldsNothing` | src/scripts/store/storage-state.ts:101-106 | An empty root at the initial state yields no records. |
| `StorageStates.StorageState.RevealPosition` | src/scripts/store/storage-state.ts:34-45 | The tree after the call is `Reveal(old tree, record)`. The footprint only grows by fresh objects. |
| `StorageStates.StorageState.RecordWinner` | src/scripts/store/storage-state.ts:35-38 | Sets the winner iff the record's winner names this node's own state. Nothing else changes. |
| `StorageStates.StorageState.ChildAt` | src/scripts/store/storage-state.ts:43 | Returns the child in the slot. An existing child is reused. A missing one is created empty for the next state. |
| `StorageStates.StorageState.RevealBelow` | src/scripts/store/storage-state.ts:44 | Only the child in that slot changes, and it becomes `Reveal(child, record)`. |
| `StorageTrees.RevealNodes` | src/scripts/store/storage-state.ts:39-44 | After a reveal, a node exists iff it existed before or it lies on the path from the root to `position.gameState`. Nothing is removed. |
| `StorageTrees.RevealWinners` | src/scripts/store/storage-state.ts:35-44 | A winner is recorded exactly at the node whose state is `winner.gameState`, and only when the walk passes that node. Every other node keeps its winner, and new nodes have none. |
| `StorageTrees.RevealOffPath` | src/scripts/store/storage-state.ts:39-44 | Every subtree off the path to `position.gameState` is left exactly as it was. |
| `StorageTrees.RevealNonDescendant` | src/scripts/store/storage-state.ts:39-42 | A record whose state is not strictly below the node changes at most that node's winner. |
| `StorageTrees.RevealIdempotent` | src/scripts/store/storage-state.ts:34-45 | Revealing the same record twice gives the same tree as revealing it once, so the JSON does not change either. |
| `StorageStates.StorageState.HideState` | src/scripts/store/storage-state.ts:47-61 | The tree after the call is `Hide(old tree, state)`. No object is added. |
| `StorageStates.StorageState.ClearSlot` | src/scripts/store/storage-state.ts:52-54 | The slot's child and its whole subtree leave the tree. Nothing else changes. |
| `StorageStates.StorageState.HideBelow` | src/scripts/store/storage-state.ts:56-60 | Only the child in that slot changes, and it becomes `Hide(child, state)`. |
| `StorageTrees.HideNodes` | src/scripts/store/storage-state.ts:47-61 | After a hide, a node exists iff it existed before and is neither the hidden state nor below it. Every remaining node keeps its winner, so no node is created and no winner is altered. |
| `StorageTrees.HideAbsent` | src/scripts/store/storage-state.ts:47-61 | Hiding a state that has no node, or hiding the root's own state, leaves the tree unchanged. |
| `StorageStates.StorageState.GetRevealedPositions` | src/scripts/store/storage-state.ts:63-107 | Yields exactly `Revealed(model)`. That is the children's records in slot order 0..8. Unwon records inherit this node's winner. If no unwon record took the winner, the node adds a record of its own win. A non-root node with nothing below it yields itself once, unwon. |
| `StorageTrees.RevealedSound` | src/scripts/store/storage-state.ts:63-107 | Every yielded record names a revealed node. Any winner it carries is recorded, for that player, at a node on the path to the record's state. |
| `StorageTrees.WonRecordPassesThrough` | src/scripts/store/storage-state.ts:71-76 | A child's record that already carries a winner appears in the output unchanged. |
| `StorageTrees.WinsAnnounced` | src/scripts/store/storage-state.ts:63-100 | For every node that records a winner, some yielded record carries that winner together with that node's state. |
| `StorageTrees.LeavesYielded` | src/scripts/store/storage-state.ts:101-106 | Every revealed non-initial node without children is yielded. |
| `StorageTrees.UnwonRecordInherits` | src/scripts/store/storage-state.ts:71-88 | A child's record without a winner, on a won node, is yielded with the node's player and state as its winner, and never without a winner. On an unwon node it is yielded unchanged. |
| `StorageStates.StorageState.ToJSON` | src/scripts/store/storage-state.ts:109-124 | Gives `TreeToJson(model)`. That object has key `i` exactly for the present children and has `w` exactly when the winner is truthy. |
| `StorageStates.StorageState.FromJSON` | src/scripts/store/storage-state.ts:126-139 | The root defaults to the initial state. The child at `i` is built for `playPosition(i)`. The result is `null` exactly when a key names a position already played on the path. Otherwise it is a fresh valid tree whose value is `JsonToTree(json, state)`. |
| `StorageTrees.JsonToTreeFails` | src/scripts/store/storage-state.ts:130-137 | One key that cannot be loaded makes the whole load fail. |
| `StorageTrees.JsonRoundTrip` | src/scripts/store/storage-state.ts:109-139 | Loading well-formed JSON and writing it back gives the same JSON. Well-formed means keys in 0..8 and no `w` of 0. |
| `StorageTrees.TreeRoundTrip` | src/scripts/store/storage-state.ts:109-139 | Writing a tree with no zero winner and loading it back gives the same tree. |
| `StorageTrees.StoredRevealedPositions` | src/scripts/store/storage-state.ts:63-139 | A stored and reloaded tree yields the same revealed records as the original. |
| `StorageTrees.LoadedWonChild` | src/scripts/store/storage-state.ts:63-139 | Loading `{"w":1,"4":{"w":2}}` at the initial state gives a root won by X with one child won by O at `[4]`. The yielded records are exactly two: first the child's record with O's win at `[4]`, then the root's record with X's win at the initial state. |
| `StorageTrees.RevealThenHideBranch` | src/scripts/store/storage-state.ts:34-61 | Revealing `[4, 0]` in an empty tree and then hiding `[4]` gives the empty tree back. That tree yields no records. |
| `TicTacToes.TicTacToe.constructor` | src/scripts/content/tictactoe.ts:32-85 | The new board's value is `NewBoard(gameState, theme, winner)`. It has no children. |
| `TicTacToes.TicTacToe.Cells` | src/scripts/content/tictactoe.ts:55-72 | The loop over the nine cells yields the possibilities `OpenUpTo(s, 9)`, or none when there is a winner, and the marks `MarksUpTo(s, 9)`. |
| `Boards.NewBoardCells` | src/scripts/content/tictactoe.ts:42-72 | A board with a winner has no possibilities and starts on the winner theme. Without a winner, each empty cell gets exactly one possibility, for `playPosition(cell)`, in position order. Marks are made exactly for the occupied cells, in position order: X for X's cells and O otherwise. `isWin` holds iff a winner was given, and `winner` is then its player. |
| `Boards.ChooseTheme` | src/scripts/content/tictactoe.ts:122-126 | Picks the winner theme when `isWin` holds. Otherwise, with a winner set, it picks the loser theme iff the winner is the current player, and the winner theme otherwise. With no winner it keeps the given theme. Winning takes precedence over losing. |
| `TicTacToes.TicTacToe.SetTheme` | src/scripts/content/tictactoe.ts:122-133 | The subtree becomes `SetThemeSpec(old, t)`. The board takes `ChooseTheme`'s pick and passes it on to every child in order. Only themes change. |
| `Boards.SetThemeOverrides` | src/scripts/content/tictactoe.ts:122-133 | After `setTheme`, the themes depend only on the last theme passed in. |
| `TicTacToes.TicTacToe.SetWinner` | src/scripts/content/tictactoe.ts:87-90 | Sets the winner, then applies the board's own current theme again. |
| `TicTacToes.TicTacToe.ShowPossibility` | src/scripts/content/tictactoe.ts:92-110 | The list of possibilities becomes `splice(indexOf(p), 1)` of the old one (`Wrappers.SpliceOne`): a listed possibility is removed, and a missing one makes the last possibility go instead. Returns a fresh board for the possibility's state on the current theme, together with `findWinner` of that state. The children are unchanged. |
| `TicTacToes.TicTacToe.RemovePossibility` | src/scripts/content/tictactoe.ts:93-94 | The list becomes `splice(indexOf(p), 1)` of the old one. The board stays valid, and nothing else changes. |
| `Wrappers.SpliceOne` | src/scripts/content/tictactoe.ts:93-94 | `splice(i, 1)` for an index from `indexOf`. The result is one shorter unless the list is empty. Elements before the index keep their places, and later ones move down by one. An index of -1 takes out the last element. |
| `Wrappers.SpliceMissing` | src/scripts/content/tictactoe.ts:93-94 | When `p` is missing from a non-empty distinct list, an element survives iff it was in the list and is not the last one. |
| `Wrappers.RemovedExactly` | src/scripts/content/tictactoe.ts:93-94 | `splice(indexOf(x), 1)` on a distinct list that holds `x` removes `x` and nothing else. |
| `TicTacToes.TicTacToe.GetRevealedPosition` | src/scripts/content/tictactoe.ts:112-120 | Returns `RevealedOf(model)`. It carries a winner iff `winner` is set, and that winner names the board's own state. |
| `Boards.RevealedOf` | src/scripts/content/tictactoe.ts:112-120 | The record has the board's state. It carries a winner iff the board's winner is set, with that player and the board's own state. |
| `TicTacToes.TicTacToe.NotifyRevealedPosition` | src/scripts/content/tictactoe.ts:137-142 | The record passed to the parent is `addToRevealedPosition(position, own record, children's records in order)`. |
| `TicTacToes.TicTacToe.ShowPosition` | src/scripts/content/tictactoe.ts:144-167 | The subtree becomes `ShowSpec(old, position, split, findWinner)`. |
| `TicTacToes.TicTacToe.OpenPossibilities` | src/scripts/content/tictactoe.ts:150-158 | Over a snapshot of the list, exactly the possibilities that a split record relates to are shown. The rest stay, in order. The new boards are returned and are not yet children. |
| `TicTacToes.TicTacToe.ForwardToChildren` | src/scripts/content/tictactoe.ts:159-165 | Each child that existed before is shown the first related split record. A child with no related record is left alone. |
| `TicTacToes.TicTacToe.AppendChildren` | src/scripts/content/tictactoe.ts:166 | The opened boards are appended after the existing children. |
| `Boards.FindIndex` | src/scripts/content/tictactoe.ts:152 | `split.find` gives the first record whose state is the given state or lies below it, or -1 when no record does. |
| `BoardFacts.ShowEffects` | src/scripts/content/tictactoe.ts:144-167 | The winner is set only when `winner.gameState` is the board's state or an ancestor of it. The possibilities opened are exactly those that some split record relates to. Every existing child keeps its place and is shown its first related record, or is left alone. The opened boards follow the existing children on the board's theme and are not shown anything. |
| `BoardFacts.KeptExactly` | src/scripts/content/tictactoe.ts:151-155 | The possibilities left open are exactly those that no split record relates to. |
| `BoardFacts.OpenedExactly` | src/scripts/content/tictactoe.ts:151-157 | The possibilities opened are exactly those that some split record relates to. |
| `BoardFacts.KeptOpenedPartition` | src/scripts/content/tictactoe.ts:151-158 | Kept and opened possibilities together are the old list as a multiset, each once. |
| `TicTacToes.TicTacToe.Play` | src/scripts/content/tictactoe.ts:177-191 | The board becomes `PlaySpec(old, p)`. The record sent to the parent has the possibility's state. It carries a winner iff `findWinner` reports one, and that winner names this board's own state. |
| `BoardFacts.PlayEffects` | src/scripts/content/tictactoe.ts:177-179 | The played possibility leaves the list and every other possibility stays. The existing children keep their states. The new last child is the board for the possibility's state. |
| `BoardFacts.PlayWinner` | src/scripts/content/tictactoe.ts:178-182 | With a winner for the new state, the board takes that winner and the theme `ChooseTheme` picks for it. Without one, the winner and theme are unchanged and the new child is just appended. |
| `PointerTargets.EventTarget.AddEventListener` | src/scripts/events/create-pointer-events.ts:20-24 | The listener goes to the end of its type's list. The other lists and the children are unchanged. |
| `PointerTargets.EventTarget.DispatchEvent` | src/scripts/events/create-pointer-events.ts:15-19 | The listeners called are that type's list, in registration order, over a copy taken first. `allowCancel` counts as called iff the event is a pointerdown and some listener calls it. |
| `PointerTargets.EventTarget.AddChildForArea` | src/scripts/events/create-pointer-events.ts:25-29 | Appends exactly one fresh child with that area and this target as parent. The new child has no children and no listeners. |
| `PointerTargets.EventTarget.FindTarget` | src/scripts/events/create-pointer-events.ts:30-41 | Returns `Hit`. That is null iff the target has an area excluding the point. Otherwise it is the first child's hit in insertion order, or else the target itself, so the area-less root never returns null. |
| `PointerTargets.FirstHitIsFirst` | src/scripts/events/create-pointer-events.ts:34-40 | The child search is first-match. Either no child yields a target and the result is the target itself, or the result is what the first child with a hit returns. |
| `PointerTargets.EventTarget.RemoveChild` | src/scripts/events/create-pointer-events.ts:42-48 | Removing a non-child is a no-op. Otherwise exactly that child is removed and the rest keep their order. Listeners are unchanged. |
| `PointerTargets.EventTarget.Destroy` | src/scripts/events/create-pointer-events.ts:49-54 | Empties the children list and removes the target from its parent's children. The listener lists of the target and of its parent are unchanged. |
| `PointerTargets.TargetTree.constructor` | src/scripts/events/create-pointer-events.ts:192 | The root target has no area, no parent, no children and no listeners. |
| `PointerEvents.ActivePointer.DispatchPointerDownEvent` | src/scripts/events/create-pointer-events.ts:65-77 | Runs the target's pointerdown listeners. `cancelAllowed` becomes true iff one of them calls `allowCancel`, or it was already true. |
| `PointerEvents.ActivePointer.DispatchPointerCancelEvent` | src/scripts/events/create-pointer-events.ts:78-83 | Runs exactly the target's pointercancel listeners. |
| `PointerEvents.ActivePointer.DispatchPointerUpEvent` | src/scripts/events/create-pointer-events.ts:84-89 | Runs exactly the target's pointerup listeners. |
| `PointerStates.OnDown` | src/scripts/events/create-pointer-events.ts:194-213 | With no active pointer, a pointerdown activates the hit target with the event's id unless nothing is hit. A pointerdown from another id while `cancelAllowed` dispatches pointercancel to the active target and clears the active pointer. Any other pointerdown changes nothing and dispatches nothing. `preventDefault` is called iff a mouse pointerdown activated a target whose listeners allowed cancelling. |
| `PointerStates.OnUp` | src/scripts/events/create-pointer-events.ts:214-219 | The state changes iff a pointer is active with the event's id. In that case pointerup, and no other event, goes to the active target, and the active pointer is cleared. Otherwise nothing is dispatched. |
| `PointerStates.OnMove` | src/scripts/events/create-pointer-events.ts:220-225 | The state changes iff a pointer is active with the event's id and `cancelAllowed`. In that case pointercancel goes to the active target and the active pointer is cleared. Otherwise nothing is dispatched. |
| `PointerStates.StepOf` | src/scripts/events/create-pointer-events.ts:194-225 | An active pointer is never replaced by another. Only a pointerdown that hits activates a pointer. Cancel goes only to the active target, and only when cancelling was allowed. Up goes only to the active target, for its own id. |
| `PointerStates.SentFollowsProtocol` | src/scripts/events/create-pointer-events.ts:194-225 | For any sequence of DOM events, the custom events follow the same protocol. A pointerdown comes only when no target is open, and then exactly one up or cancel goes to that target. The target left open is the active pointer's. |
| `PointerStates.PressThenRelease` | src/scripts/events/create-pointer-events.ts:194-219 | A hitting pointerdown followed by a pointerup with the same id sends down and then up to the target, and leaves no active pointer. |
| `PointerEvents.PointerEvents.HandlePointerDown` | src/scripts/events/create-pointer-events.ts:194-213 | Takes the `OnDown` step on the pointer state for the root's hit. The listeners called are those of the dispatched event. |
| `PointerEvents.PointerEvents.HandlePointerUp` | src/scripts/events/create-pointer-events.ts:214-219 | Takes the `OnUp` step. The listeners called are those of the dispatched event. |
| `PointerEvents.PointerEvents.HandlePointerMove` | src/scripts/events/create-pointer-events.ts:220-225 | Takes the `OnMove` step. The listeners called are those of the dispatched event. |
| `PointerEvents.Gesture.HandlePointerDown` | src/scripts/events/create-pointer-events.ts:132-157 | With no hit, nothing happens. Otherwise the hit's pointerdown listeners run. A mouse event's default is prevented iff one of them allowed cancelling. The producer installs a fresh `PointerThatIsDown` gesture recording the target, offset, id and answer, but only if this gesture is current. |
| `PointerEvents.CustomPointerEventProducer.ReplaceGesture` | src/scripts/events/create-pointer-events.ts:180-185 | Installs the new gesture only if the old one is the current gesture. Otherwise nothing changes. |
| `Themes.DarkThemeWinner` | src/scripts/themes/themes.ts:113-115 | The index goes up by one, stopping at 5. The table is kept. |
| `Themes.DarkThemeLoser` | src/scripts/themes/themes.ts:117-119 | The index goes down by one, stopping at 0. The table is kept. |
| `Themes.LightThemeWinner` | src/scripts/themes/themes.ts:121-123 | The index goes up by one, stopping at 5. The table is kept. |
| `Themes.LightThemeLoser` | src/scripts/themes/themes.ts:125-127 | The index goes down by one, stopping at 0. The table is kept. |
| `Themes.DetermineThemeProps` | src/scripts/themes/themes.ts:129-131 | The colours are `all[index]`, which is undefined outside the table. |
| `Themes.StepInTable` | src/scripts/themes/themes.ts:42-56 | A winner or loser step keeps the table, the determine function and both clamp functions, and keeps the index in 0..5. |
| `Themes.DerivedInTable` | src/scripts/themes/themes.ts:42-56 | Every theme derived from a shipped theme by any run of winner and loser steps has its index in 0..5 and its colours at `all[index]`. |
| `Themes.BaseWinnerIsBase` | src/scripts/themes/themes.ts:133-144 | Both shipped themes start at index 5, so their winner theme has the same index and the same colours. |
| `Themes.SequenceTheme.constructor` | src/scripts/themes/themes.ts:34-41 | The colours are `determine(determiningProps)`, and there are no cached themes. |
| `Themes.SequenceTheme.WinnerTheme` | src/scripts/themes/themes.ts:28-30 | Returns the winner theme of this theme, with the same family. It is created on the first read and cached; later reads return the same object. |
| `Themes.SequenceTheme.LoserTheme` | src/scripts/themes/themes.ts:31-33 | Returns the loser theme of this theme, with the same family. It is created on the first read and cached; later reads return the same object. |
| `Themes.CreateLightTheme` | src/scripts/themes/themes.ts:133-138 | The light theme object is the light table at index 5 with the light clamp functions. |
| `Themes.CreateDarkTheme` | src/scripts/themes/themes.ts:139-144 | The dark theme object is the dark table at index 5 with the dark clamp functions. |
| `GameStates.IndexOfPredecessor` | src/scripts/store/storage-state.ts:20 | Gives the ancestor's depth iff it is a prefix of the state, the state itself included, and -1 otherwise. |
| `GameStates.PredecessorOfIndex` | src/scripts/store/storage-state.ts:20-24 | For an ancestor, `predecessorAtIndex(indexOfPredecessor(a))` is `a`. |

## Left out

- `GameState` (src/scripts/state/game-state.ts) is not part of this model. A state is its move path; `playPosition`, `indexOfPredecessor`, `predecessorAtIndex`, `getLastPlayedPosition`, `getCurrentPlayer` and `getPlayersAtPositions` are defined on that path.
- `findWinner`, `addToRevealedPosition` and `splitRevealedPosition` live in files that are not part of this model. They are function-valued parameters (`WinnerFinder`, `Combiner`, `Splitter`) with no rules assumed. The winning line (`three`) is left out of `Winner`, because it is used only for drawing.
- Drawing: `draw`, `Grid`, `Win`, the drawing of `X`/`O` marks, `getWinStart`/`getWinEnd`, `renderer.rerender`, and the `setTheme` calls on marks, grid, grid cell and win line. A board keeps only its own `theme` value.
- TicTacToes.TicTacToe.ShowPossibility: does not model `possibility.destroy()` or the `addChildForArea` call that gives the new board its event target. Boards and pointer targets are modelled separately.
- TicTacToes.TicTacToe.Play: requires `p` to be one of the board's possibilities. Given a missing one, the source's `splice(-1, 1)` removes the last possibility, and the new board is still appended. That board need not lie below this board's state, so the model's tree invariant would not hold. `ShowPossibility` and `RemovePossibility` do model that path.
- TicTacToes.TicTacToe.ShowAndAppend: requires `p` to be one of the board's possibilities, for the same reason as `Play`.
- Boards.PlaySpec: requires `p` to be one of the board's possibilities, for the same reason as `Play`.
- Boards hold themes as `Theme` values rather than `SequenceTheme` objects, so object identity of memoised themes is not tracked inside boards. `SequenceTheme` itself models the memoisation.
- Listeners are data (`Listener`, with whether it calls `allowCancel`). Anything a listener does besides that, including re-entrant calls into targets or the pointer machine, is not modelled.
- `measurementsInclude` is the abstract parameter `Contains` over an abstract `Area`. Offsets are reals. `preventDefault` is returned as a boolean.
- `PointerThatIsDown`'s handlers, `NoopGesture.handlePointerMove`/`handlePointerUp` and `CustomPointerEventProducer.handlePointerDown` have empty bodies in the source and are not modelled as methods.
- Persisted JSON is a `Json` datatype with integer keys and an optional player. Non-object entries, string keys other than 0..8 and `w` values outside 0..2 cannot be expressed. `fromJSON` ignores keys outside 0..8, as the source's `0..8` loop does.
- The thrown exception from `playPosition` on an already-played key is modelled as a `null` result of `FromJSON`.
- `localStorage` and broadcast-channel transport (src/scripts/content/map.ts), the win-line geometry with floating point, and the DOM/canvas/build glue are outside this model.
