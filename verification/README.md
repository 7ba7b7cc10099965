# Memory-card board engine in Dafny

This project models the game engine of the memory (concentration) card game
component `Comp1`. The engine has three parts:

- **Board builder (`shuffle`).** It lays the fetched card list out twice and
  rearranges the result with a random sort. Each card is then relabelled: its
  `id` becomes its slot, its `content` becomes its `name`, and it is dealt
  face down.
- **Flip/match state machine (`flipCard`).** It works on the board, the list
  of turned-up slots (`flippedCards`), the list of matched slots
  (`matchedCards`) and the move counter. When a second card is turned up, the
  two contents are compared. A one-second timer later turns both cards back.
- **Reset and completion.** `initializeGame` replaces the whole state. An
  effect raises `gameOver` once the matched list is as long as a non-empty
  board.

Each React setter is a field update on an immutable `Game.State` record.
Each event is one atomic transition `Game.Step`:

- a click on a slot;
- the flip-back timer firing;
- a new game dealt from fetched cards.

The completion effect (`Game.Settle`) runs after every transition.
`Game.SettleOnlyOnChange` proves this matches React's rule of running the
effect only when `matchedCards` or `boardData` changes: on the other events
the completion effect changes nothing. A click that is ignored counts no
move, because the early return comes before the move counter is updated.

Files and modules:

- `permutations.dfy` (`Permutations`): generic facts about distinct, bounded
  and permuted index sequences.
- `cards.dfy` (`Cards`): the `Card` and `BoardCard` records and `Shuffle`.
- `game.dfy` (`Game`): the state machine as written, its invariant, and two
  concrete traces.
- `corrected.dfy` (`Corrected`): the same machine with the click guard the
  game evidently intends (see Findings).

Modelling decisions:

- The random sort becomes a parameter `perm`. It lists each of the
  `2 * |cards|` positions exactly once, so the board's slot `i` holds the
  doubled list's element `perm[i]`.
- The timer becomes an event, `FlipBack`, that may fire in any state. This
  covers both the timer of the current pair and a timer left over from an
  earlier game.
- A click is enabled only on a slot of the current board, because only
  rendered slots carry a click handler. A pending index outside the board
  would make `boardData[i].content` throw, so pending indices must also be
  slots of the board.

Facts about the code that shape the model:

- The turned-up and matched slots are lists, and the matched list can hold a
  slot twice (see Findings).
- `shuffle` (Comp1.tsx:26) does not require distinct names, and neither does
  `Cards.Shuffle`. Only `Cards.ShuffleDealsPairs` assumes it.
- `gameOver` is cleared only by a new game (Comp1.tsx:80); the completion
  effect (Comp1.tsx:88-92) only ever sets it. Once the matched list grows
  past the board's length, the flag stays up. The invariant is therefore
  `gameOver <==> |board| > 0 && |matched| >= |board|`, not equality.

## Model

| member | source | states |
|---|---|---|
| `Cards.Shuffle` | app/memory-cards/_PageSections/Comp1.tsx:26-35 | The board has exactly twice as many cards as the input. Every card's `id` is its slot, it is face down, and its `content` equals its `name`. The face in slot `i` is the face of the doubled list's element picked by the permutation. |
| `Cards.ShuffleFaces` | app/memory-cards/_PageSections/Comp1.tsx:27-34 | The board's faces (name and image) are the doubled input's faces rearranged by the permutation that stands for the random sort. |
| `Cards.ShuffleKeepsFaces` | app/memory-cards/_PageSections/Comp1.tsx:27-28 | The multiset of (name, image) faces on the board equals the input's multiset taken twice: nothing is lost, added or over-represented. |
| `Cards.ShuffleDealsPairs` | app/memory-cards/_PageSections/Comp1.tsx:27-34 | If the input names are distinct, each input name is the content (the string pairs are matched on) of exactly two slots, and no other string is the content of any slot. |
| `Permutations.PermuteMultiset` | app/memory-cards/_PageSections/Comp1.tsx:28 | Rearranging by any permutation keeps every element with its multiplicity. This is what the random sort guarantees, whatever the comparator returns. |
| `Game.Flip` | app/memory-cards/_PageSections/Comp1.tsx:37-48 | The click is ignored (state unchanged) when two cards are pending or the slot is matched. Otherwise the slot is appended to the turned-up list, exactly one move is counted, and the board and flag are kept. When a second card turns up, both slots are appended to the matched list if and only if their contents are equal. Otherwise the matched list is unchanged, and it is never shortened. |
| `Game.InitInv` | app/memory-cards/_PageSections/Comp1.tsx:19-23 | The mount state (empty board, nothing turned up or matched, zero moves, no game over) satisfies the invariant. |
| `Game.StepInv` | app/memory-cards/_PageSections/Comp1.tsx:37-92 | Every click, flip-back and new game keeps the invariant. At most two cards are turned up, and pending and matched slots lie on the board. The board and matched-list lengths stay even. The game-over flag holds exactly when a non-empty board's length has been reached by the matched list. |
| `Game.RunInv` | app/memory-cards/_PageSections/Comp1.tsx:37-92 | The invariant holds after any enabled sequence of events. |
| `Game.Reachable` | app/memory-cards/_PageSections/Comp1.tsx:19-92 | In every state reachable from mount: at most two cards are turned up and matched slots lie on the board. Game over holds exactly when the board is non-empty and the matched list is at least as long as it. |
| `Game.MatchedPersists` | app/memory-cards/_PageSections/Comp1.tsx:38-49 | Clicks and the flip-back never remove a matched slot or change the board. A raised game-over flag stays raised until the next game. |
| `Game.RestartResets` | app/memory-cards/_PageSections/Comp1.tsx:74-80 | A new game, from any state, deals the shuffled board and leaves nothing turned up or matched, zero moves and no game over. The completion check does not fire on it. |
| `Game.SettleOnlyOnChange` | app/memory-cards/_PageSections/Comp1.tsx:88-92 | After an event that changes neither the matched list nor the board, the completion check changes nothing. So running it after every event agrees with the effect's dependency list. |
| `Game.PairLocks` | app/memory-cards/_PageSections/Comp1.tsx:38-48 | Two clicks from no pending card on two unmatched slots with equal content (possibly one slot twice) append exactly those slots to the matched list and count two moves. While the pair is pending, a click on either slot is ignored. |
| `Game.RunMatchedPersists` | app/memory-cards/_PageSections/Comp1.tsx:38-49 | Over any run of clicks and flip-backs within one game, the matched list only grows, the board stays, and a raised game-over flag stays raised. |
| `Game.FoundStaysLocked` | app/memory-cards/_PageSections/Comp1.tsx:38 | A matched slot stays locked for the rest of the game: after any run of clicks and flip-backs, a click on it changes nothing. |
| `Game.TurnBack` | app/memory-cards/_PageSections/Comp1.tsx:49 | The deferred reset empties the turned-up list and changes nothing else. |
| `Game.NewGame` | app/memory-cards/_PageSections/Comp1.tsx:74-80 | A new game has a board twice the fetched list's length, nothing turned up or matched, zero moves, no game over, and satisfies the invariant. |
| `Game.Settle` | app/memory-cards/_PageSections/Comp1.tsx:88-92 | The completion effect raises the flag exactly when the matched list is as long as a non-empty board, never lowers it, changes no other field, and is a no-op on any state satisfying the invariant. |
| `Game.RunAppend` | app/memory-cards/_PageSections/Comp1.tsx:37-92 | Running two event sequences one after the other is running their concatenation. |
| `Game.RunPair` | app/memory-cards/_PageSections/Comp1.tsx:38-48 | The two clicks on a pair, as a run of events, keep the invariant, count exactly two moves, and leave both slots turned up and appended to the matched list. |
| `Game.TwoCardBoard` | app/memory-cards/_PageSections/Comp1.tsx:26-35 | Dealing cards `a` and `b` with the identity order lays out `a b a b`. |
| `Game.TwoCardGameScenario` | app/memory-cards/_PageSections/Comp1.tsx:37-92 | On the `a b a b` board, matching the `a` pair leaves the game running, and then matching the `b` pair ends it. |
| `Game.DoubleClickSelfMatches` | app/memory-cards/_PageSections/Comp1.tsx:38-47 | Clicking an unmatched slot twice from no pending card turns it up as a pair with itself. The pair matches, the slot enters the matched list twice, and two moves are counted. |
| `Game.RunRound` | app/memory-cards/_PageSections/Comp1.tsx:38-49 | Finding a pair and letting the timer turn it back, as a run of three events, keeps the invariant and the board. It counts exactly two moves, leaves nothing turned up and both slots appended to the matched list, and afterwards a click on either slot is ignored by the matched guard. |
| `Game.TwoRoundsEndFourSlotGame` | app/memory-cards/_PageSections/Comp1.tsx:38-92 | On any fresh four-slot board, a first round on pair `a b` leaves the game running. A second round on slots `c d` outside the first pair ends it with the matched list `[a, b, c, d]` after exactly four counted moves. A "pair" may be one slot clicked twice. |
| `Game.DoubleClickEndsGameEarly` | app/memory-cards/_PageSections/Comp1.tsx:38-92 | From mount, a two-card deal followed by double clicks on slots 0 and 1 ends the game while slots 2 and 3 were never matched. |
| `Corrected.FlipChecked` | app/memory-cards/_PageSections/Comp1.tsx:38-48 | With a guard that also ignores turned-up slots, the turned-up list stays duplicate-free. The matched list only grows by a pair of two different slots, and it is never shortened. |
| `Corrected.StepCheckedInv` | app/memory-cards/_PageSections/Comp1.tsx:37-92 | With the intended guard, every event keeps the invariant. In addition, neither list holds a slot twice, and a single pending card is never a matched one. |
| `Corrected.RunCheckedInv` | app/memory-cards/_PageSections/Comp1.tsx:37-92 | With the intended guard, the strengthened invariant holds after any enabled sequence of events. |
| `Corrected.GameOverMeansAllFound` | app/memory-cards/_PageSections/Comp1.tsx:88-92 | With the intended guard, the matched list never outgrows the board. Game over holds exactly when every slot of a non-empty board is matched. |
| `Corrected.ReachableChecked` | app/memory-cards/_PageSections/Comp1.tsx:19-92 | With the intended guard, in every reachable state the game is over exactly when every slot of a non-empty board has been found. |
| `Corrected.ClickIdempotent` | app/memory-cards/_PageSections/Comp1.tsx:38 | With the intended guard, a second click on the same slot changes nothing. |

## Left out

- `fetchCardsForTopic` (network requests to a creature catalog, joined with `Promise.all`) is not modelled. Its result is the arbitrary `cards` argument of a new game.
- `Math.random` in the sort comparator is not modelled. The sort is the arbitrary permutation `perm`. The model does not describe the comparator's bias or the sort algorithm.
- The 1000 ms delay is not modelled. The flip-back is an event that may fire in any state, so timing and cross-game timer bleed appear only as "it may fire at any time".
- The `fetchedCards` flag, the `topic` state (its input is commented out), `console.log` and all rendering are not modelled. The flag hides the grid (Comp1.tsx:113) while a deal is being fetched, and after a failed fetch (Comp1.tsx:73, whose rejection is not handled). The model deliberately over-approximates here: `Enabled` admits clicks at those times too. A failed fetch is modelled as no event, so it leaves the engine's fields unchanged.
- React's batching and effect scheduling are not modelled. Each event is one atomic update of all its fields, and the completion effect runs right after it.
- The layout and page files are not modelled. They are markup only.
- `Game.Flip`: it requires the clicked slot and the pending slots to be slots of the board. The component only offers clicks on rendered slots. An out-of-range first click would not throw: it would only be appended. Only the comparison at Comp1.tsx:46 reads `content`, and it would throw there. The model does not describe that exception.

## Findings

| source | as written | input that shows it | evidently intended | confidence | as-written member | corrected member |
|---|---|---|---|---|---|---|
| app/memory-cards/_PageSections/Comp1.tsx:38 | The guard ignores a click only when two cards are pending or the slot is matched. A second click on a slot that is already turned up is accepted. The slot then "matches" itself at line 46 and is appended to the matched list twice at line 47. The length test at line 89 can therefore fire before every pair is found. | Deal two cards `a`, `b` with the identity order (board `a b a b`). Click 0, click 0, let the timer fire, click 1, click 1. The matched list becomes `[0, 0, 1, 1]` and game over is raised, while slots 2 and 3 are face down. | A click on a slot that is already turned up is ignored. Then game over means every slot has been matched. | high; not executed | `Game.DoubleClickEndsGameEarly` | `Corrected.ReachableChecked` |
