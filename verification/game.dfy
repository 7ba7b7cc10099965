/** The flip/match state machine of the memory game as written: each user
    click, each expiry of the flip-back timer and each new game is one atomic
    transition of an immutable state record, followed by the completion
    check that the component runs whenever the matched list or the board
    changes. */
module Game {
  import opened Permutations
  import opened Cards

  /** The component's game state: the board, the slots turned up and
      awaiting comparison, the slots found in pairs (a list, so a slot can
      occur more than once), the move counter and the game-over flag. */
  datatype State = State(
    board: seq<BoardCard>,
    flipped: seq<nat>,
    matched: seq<nat>,
    moves: nat,
    gameOver: bool)

  /** What can happen to the component: a click on a slot, the delayed
      flip-back firing, or a new game dealt from fetched cards and the order
      the random sort produced. */
  datatype Event =
    | Click(index: nat)
    | FlipBack
    | Restart(cards: seq<Card>, perm: seq<nat>)

  /** The state the component mounts with. */
  function Init(): State {
    State([], [], [], 0, false)
  }

  /** A click is ignored when two cards are already awaiting the flip-back or
      the slot has been matched. Note that a slot already turned up but not
      matched is not ignored. */
  predicate Ignores(s: State, index: nat) {
    |s.flipped| == 2 || index in s.matched
  }

  /** Slots `a` and `b` both exist and show the same content. */
  predicate Twins(board: seq<BoardCard>, a: nat, b: nat) {
    a < |board| && b < |board| && board[a].content == board[b].content
  }

  /** The completion condition: as many matched entries as slots, on a
      non-empty board. */
  predicate AllCounted(s: State) {
    |s.matched| == |s.board| && |s.board| > 0
  }

  /** A click on slot `index`. An accepted click turns the slot up and
      counts a move; the second turned-up card is compared with the first
      and, on equal content, both slots are appended to the matched list. */
  function Flip(s: State, index: nat): (r: State)
    requires Bounded(s.flipped, |s.board|) && index < |s.board|
    ensures Ignores(s, index) ==> r == s
    ensures !Ignores(s, index) ==>
              && r.flipped == s.flipped + [index]
              && r.moves == s.moves + 1
              && r.board == s.board
              && r.gameOver == s.gameOver
    ensures !Ignores(s, index) && |r.flipped| == 2 && Twins(s.board, r.flipped[0], r.flipped[1]) ==>
              r.matched == s.matched + r.flipped
    ensures !(!Ignores(s, index) && |r.flipped| == 2 && Twins(s.board, r.flipped[0], r.flipped[1])) ==>
              r.matched == s.matched
    ensures Bounded(r.flipped, |r.board|)
  {
    if Ignores(s, index) then s
    else
      var flipped := s.flipped + [index];
      var turned := s.(flipped := flipped, moves := s.moves + 1);
      if |flipped| == 2 && s.board[flipped[0]].content == s.board[flipped[1]].content then
        turned.(matched := s.matched + [flipped[0], flipped[1]])
      else
        turned
  }

  /** The delayed flip-back: every turned-up card goes face down again;
      nothing else changes. */
  function TurnBack(s: State): (r: State)
    ensures r.flipped == []
    ensures r.board == s.board && r.matched == s.matched
    ensures r.moves == s.moves && r.gameOver == s.gameOver
  {
    s.(flipped := [])
  }

  /** A new game: the board is rebuilt and every other field is reset, so
      no pending or matched slot, move or game-over flag of an earlier game
      survives, and the invariant holds from the start. */
  function NewGame(cards: seq<Card>, perm: seq<nat>): (r: State)
    requires IsPermutation(perm, 2 * |cards|)
    ensures |r.board| == 2 * |cards|
    ensures r.flipped == [] && r.matched == [] && r.moves == 0 && !r.gameOver
    ensures Inv(r)
  {
    State(Shuffle(cards, perm), [], [], 0, false)
  }

  /** The completion check: raise the game-over flag once the matched list
      is as long as a non-empty board. It never lowers the flag. */
  function Settle(s: State): (r: State)
    ensures r.gameOver <==> s.gameOver || AllCounted(s)
    ensures r.board == s.board && r.flipped == s.flipped
    ensures r.matched == s.matched && r.moves == s.moves
    ensures Inv(s) ==> r == s
  {
    if AllCounted(s) then s.(gameOver := true) else s
  }

  /** The events the user interface can produce from `s`: only rendered
      slots can be clicked, and the pending slots are slots of this board. */
  predicate Enabled(s: State, e: Event) {
    match e
    case Click(index) => index < |s.board| && Bounded(s.flipped, |s.board|)
    case FlipBack => true
    case Restart(cards, perm) => IsPermutation(perm, 2 * |cards|)
  }

  /** One event followed by the completion check. */
  function Step(s: State, e: Event): State
    requires Enabled(s, e)
  {
    match e
    case Click(index) => Settle(Flip(s, index))
    case FlipBack => Settle(TurnBack(s))
    case Restart(cards, perm) => Settle(NewGame(cards, perm))
  }

  /** Every event of `es` is enabled in the state it meets. */
  predicate Feasible(s: State, es: seq<Event>)
    decreases |es|
  {
    |es| == 0 || (Enabled(s, es[0]) && Feasible(Step(s, es[0]), es[1..]))
  }

  /** The state after the events `es`, in order. */
  function Run(s: State, es: seq<Event>): State
    requires Feasible(s, es)
    decreases |es|
  {
    if |es| == 0 then s else Run(Step(s, es[0]), es[1..])
  }

  /** What holds of every state the component can reach. The matched list
      grows two entries at a time from empty and the board has an even
      number of slots, so the completion check fires exactly when the
      matched list first reaches the board's length; because a slot can be
      matched twice, the list can then grow beyond it. */
  predicate Inv(s: State) {
    && |s.board| % 2 == 0
    && |s.matched| % 2 == 0
    && |s.flipped| <= 2
    && Bounded(s.flipped, |s.board|)
    && Bounded(s.matched, |s.board|)
    && (s.gameOver <==> |s.board| > 0 && |s.matched| >= |s.board|)
  }

  lemma InitInv()
    ensures Inv(Init())
    ensures Feasible(Init(), [])
  {
  }

  /** Every transition keeps the invariant, so at most two cards are ever
      turned up and the game-over flag means the matched list has reached
      the board's length. */
  lemma StepInv(s: State, e: Event)
    requires Inv(s) && Enabled(s, e)
    ensures Inv(Step(s, e))
  {
  }

  lemma {:induction false} RunInv(s: State, es: seq<Event>)
    requires Inv(s) && Feasible(s, es)
    ensures Inv(Run(s, es))
    decreases |es|
  {
    if |es| > 0 {
      StepInv(s, es[0]);
      RunInv(Step(s, es[0]), es[1..]);
    }
  }

  /** Whatever the user does from mount, at most two cards are turned up,
      pending and matched entries are slots of the board, and the game is
      over exactly when the matched list has reached the length of a
      non-empty board. */
  lemma Reachable(es: seq<Event>)
    requires Feasible(Init(), es)
    ensures var s := Run(Init(), es);
            && |s.flipped| <= 2
            && Bounded(s.matched, |s.board|)
            && (s.gameOver <==> |s.board| > 0 && |s.matched| >= |s.board|)
  {
    InitInv();
    RunInv(Init(), es);
  }

  /** Clicks and flip-backs never drop a matched slot, so a matched slot
      stays unclickable until the next game. */
  lemma MatchedPersists(s: State, e: Event)
    requires Enabled(s, e) && !e.Restart?
    ensures s.matched <= Step(s, e).matched
    ensures Step(s, e).board == s.board
    ensures s.gameOver ==> Step(s, e).gameOver
  {
  }

  /** A new game deals a fresh board and clears every other field, whatever
      state it interrupts; the completion check does not fire on it. */
  lemma RestartResets(s: State, cards: seq<Card>, perm: seq<nat>)
    requires IsPermutation(perm, 2 * |cards|)
    ensures var r := Step(s, Restart(cards, perm));
            && r.board == Shuffle(cards, perm)
            && r.flipped == [] && r.matched == [] && r.moves == 0 && !r.gameOver
  {
  }

  /** The completion check only changes a state in which the matched list
      or the board has just changed: after an ignored click, an unmatched
      pair or a flip-back it is a no-op. So running it after every event
      agrees with running it on changes of those two fields only. */
  lemma SettleOnlyOnChange(s: State, e: Event)
    requires Inv(s) && Enabled(s, e) && !e.Restart?
    requires e.FlipBack? || Flip(s, e.index).matched == s.matched
    ensures e.Click? ==> Step(s, e) == Flip(s, e.index)
    ensures e.FlipBack? ==> Step(s, e) == TurnBack(s)
  {
  }

  /** Two clicks on unmatched slots with equal content (possibly the same
      slot twice), starting from no pending card, match both slots and count
      two moves. While the pair is pending, every click is ignored, these two
      slots included. */
  lemma PairLocks(s: State, a: nat, b: nat)
    requires Inv(s) && s.flipped == []
    requires a < |s.board| && b < |s.board|
    requires a !in s.matched && b !in s.matched
    requires s.board[a].content == s.board[b].content
    ensures var t := Flip(Flip(s, a), b);
            && t.matched == s.matched + [a, b]
            && t.moves == s.moves + 2
            && Flip(t, a) == t && Flip(t, b) == t
  {
  }

  /** Running `e` and then `es` is running `es` from the state after `e`. */
  lemma RunCons(s: State, e: Event, es: seq<Event>)
    requires Enabled(s, e) && Feasible(Step(s, e), es)
    ensures Feasible(s, [e] + es)
    ensures Run(s, [e] + es) == Run(Step(s, e), es)
  {
    assert ([e] + es)[1..] == es;
  }

  /** Two fetched cards `a` and `b`, dealt in the order the doubled list
      already has. */
  function TwoCardDeal(): Event {
    Restart([Card(1, "a", "a.png"), Card(2, "b", "b.png")], [0, 1, 2, 3])
  }

  /** The two-card deal lays out `a`, `b`, `a`, `b`. */
  lemma TwoCardBoard()
    ensures Enabled(Init(), TwoCardDeal())
    ensures var b := Step(Init(), TwoCardDeal()).board;
            && |b| == 4
            && b[0].content == b[2].content == "a"
            && b[1].content == b[3].content == "b"
  {
  }

  /** Clicking the same unmatched slot twice, with no card pending, turns
      it up as a "pair" with itself: the pair matches, the slot is appended
      to the matched list twice and two moves are counted. */
  lemma DoubleClickSelfMatches(s: State, i: nat)
    requires Inv(s) && s.flipped == []
    requires i < |s.board| && i !in s.matched
    ensures Enabled(s, Click(i)) && Enabled(Step(s, Click(i)), Click(i))
    ensures var t := Step(Step(s, Click(i)), Click(i));
            && t.board == s.board
            && t.flipped == [i, i]
            && t.matched == s.matched + [i, i]
            && t.moves == s.moves + 2
  {
    StepInv(s, Click(i));
    var s1 := Step(s, Click(i));
    assert s1.flipped == [i] && s1.matched == s.matched;
  }

  /** Running `xs` and then `ys` is running `xs + ys`. */
  lemma {:induction false} RunAppend(s: State, xs: seq<Event>, ys: seq<Event>)
    requires Feasible(s, xs) && Feasible(Run(s, xs), ys)
    ensures Feasible(s, xs + ys)
    ensures Run(s, xs + ys) == Run(Run(s, xs), ys)
    decreases |xs|
  {
    if |xs| == 0 {
      assert xs + ys == ys;
    } else {
      RunAppend(Step(s, xs[0]), xs[1..], ys);
      assert (xs + ys)[1..] == xs[1..] + ys;
    }
  }

  /** No event of `es` starts a new game. */
  predicate SameGame(es: seq<Event>) {
    forall k :: 0 <= k < |es| ==> !es[k].Restart?
  }

  /** Within one game, whatever is clicked and whenever the flip-back fires,
      the matched list only grows, the board stays, and a raised game-over
      flag stays raised. */
  lemma {:induction false} RunMatchedPersists(s: State, es: seq<Event>)
    requires Feasible(s, es) && SameGame(es)
    ensures s.matched <= Run(s, es).matched
    ensures Run(s, es).board == s.board
    ensures s.gameOver ==> Run(s, es).gameOver
    decreases |es|
  {
    if |es| > 0 {
      MatchedPersists(s, es[0]);
      RunMatchedPersists(Step(s, es[0]), es[1..]);
    }
  }

  /** A found slot stays found: for the rest of the game a click on it
      changes nothing. */
  lemma FoundStaysLocked(s: State, es: seq<Event>, a: nat)
    requires Inv(s) && Feasible(s, es) && SameGame(es)
    requires a < |s.board| && a in s.matched
    ensures var t := Run(s, es);
            && Enabled(t, Click(a))
            && Step(t, Click(a)) == t
  {
    RunInv(s, es);
    RunMatchedPersists(s, es);
  }

  /** Two clicks from no pending card on the two slots of a pair. */
  lemma RunPair(s: State, a: nat, b: nat)
    requires Inv(s) && s.flipped == []
    requires a < |s.board| && b < |s.board|
    requires a !in s.matched && b !in s.matched
    requires s.board[a].content == s.board[b].content
    ensures Feasible(s, [Click(a), Click(b)])
    ensures var t := Run(s, [Click(a), Click(b)]);
            && Inv(t)
            && t.board == s.board
            && t.flipped == [a, b]
            && t.matched == s.matched + [a, b]
            && t.moves == s.moves + 2
  {
    PairLocks(s, a, b);
    var s1 := Step(s, Click(a));
    StepInv(s, Click(a));
    var s2 := Step(s1, Click(b));
    StepInv(s1, Click(b));
    assert Feasible(s2, []) && Run(s2, []) == s2;
    RunCons(s1, Click(b), []);
    assert [Click(b)] + [] == [Click(b)];
    RunCons(s, Click(a), [Click(b)]);
    assert [Click(a)] + [Click(b)] == [Click(a), Click(b)];
  }

  /** A pair found and turned back, as a run of three events: two moves are
      counted, and once the cards are face down again the matched guard, not
      the pending pair, keeps both slots from being flipped. */
  lemma RunRound(s: State, a: nat, b: nat)
    requires Inv(s) && s.flipped == []
    requires a < |s.board| && b < |s.board|
    requires a !in s.matched && b !in s.matched
    requires s.board[a].content == s.board[b].content
    ensures Feasible(s, [Click(a), Click(b), FlipBack])
    ensures var t := Run(s, [Click(a), Click(b), FlipBack]);
            && Inv(t)
            && t.board == s.board
            && t.flipped == []
            && t.matched == s.matched + [a, b]
            && t.moves == s.moves + 2
            && Flip(t, a) == t && Flip(t, b) == t
  {
    RunPair(s, a, b);
    var s2 := Run(s, [Click(a), Click(b)]);
    var s3 := Step(s2, FlipBack);
    StepInv(s2, FlipBack);
    assert Feasible(s3, []) && Run(s3, []) == s3;
    RunCons(s2, FlipBack, []);
    assert [FlipBack] + [] == [FlipBack];
    RunAppend(s, [Click(a), Click(b)], [FlipBack]);
    assert [Click(a), Click(b)] + [FlipBack] == [Click(a), Click(b), FlipBack];
  }

  /** Two rounds on a fresh four-slot board: after the first pair `a b` the
      game is still running, after a second pair `c d` on slots not matched
      in the first round the game is over. The pairs may be a slot clicked
      twice. */
  lemma TwoRoundsEndFourSlotGame(s0: State, a: nat, b: nat, c: nat, d: nat)
    requires Inv(s0) && |s0.board| == 4 && s0.flipped == [] && s0.matched == []
    requires a < 4 && b < 4 && c < 4 && d < 4
    requires c != a && c != b && d != a && d != b
    requires s0.board[a].content == s0.board[b].content
    requires s0.board[c].content == s0.board[d].content
    ensures Feasible(s0, [Click(a), Click(b)])
    ensures !Run(s0, [Click(a), Click(b)]).gameOver
    ensures var es := [Click(a), Click(b), FlipBack, Click(c), Click(d)];
            && Feasible(s0, es)
            && Run(s0, es).gameOver
            && Run(s0, es).matched == [a, b, c, d]
            && Run(s0, es).moves == s0.moves + 4
  {
    RunPair(s0, a, b);
    RunRound(s0, a, b);
    var s3 := Run(s0, [Click(a), Click(b), FlipBack]);
    RunPair(s3, c, d);
    RunAppend(s0, [Click(a), Click(b), FlipBack], [Click(c), Click(d)]);
    assert [Click(a), Click(b), FlipBack] + [Click(c), Click(d)]
        == [Click(a), Click(b), FlipBack, Click(c), Click(d)];
  }

  /** Clicking the same face-down slot twice turns up a "pair" of one slot
      that matches itself, so the slot is appended to the matched list twice.
      Doing that on two slots of a four-card board ends the game while slots
      2 and 3 were never found. */
  lemma DoubleClickEndsGameEarly()
    ensures var es := [TwoCardDeal(), Click(0), Click(0), FlipBack, Click(1), Click(1)];
            && Feasible(Init(), es)
            && Run(Init(), es).gameOver
            && Run(Init(), es).matched == [0, 0, 1, 1]
            && 2 !in Run(Init(), es).matched
            && 3 !in Run(Init(), es).matched
  {
    TwoCardBoard();
    InitInv();
    var s0 := Step(Init(), TwoCardDeal());
    StepInv(Init(), TwoCardDeal());
    var rest := [Click(0), Click(0), FlipBack, Click(1), Click(1)];
    TwoRoundsEndFourSlotGame(s0, 0, 0, 1, 1);
    RunCons(Init(), TwoCardDeal(), rest);
    assert [TwoCardDeal()] + rest == [TwoCardDeal(), Click(0), Click(0), FlipBack, Click(1), Click(1)];
  }

  /** A new game dealt from two cards `a` and `b` and played without
      mistakes: matching the two `a` slots leaves the game running, matching
      the two `b` slots ends it. */
  lemma TwoCardGameScenario()
    ensures Feasible(Init(), [TwoCardDeal(), Click(0), Click(2)])
    ensures !Run(Init(), [TwoCardDeal(), Click(0), Click(2)]).gameOver
    ensures var es := [TwoCardDeal(), Click(0), Click(2), FlipBack, Click(1), Click(3)];
            && Feasible(Init(), es)
            && Run(Init(), es).gameOver
  {
    TwoCardBoard();
    InitInv();
    var s0 := Step(Init(), TwoCardDeal());
    StepInv(Init(), TwoCardDeal());
    var rest := [Click(0), Click(2), FlipBack, Click(1), Click(3)];
    TwoRoundsEndFourSlotGame(s0, 0, 2, 1, 3);
    RunCons(Init(), TwoCardDeal(), rest);
    assert [TwoCardDeal()] + rest == [TwoCardDeal(), Click(0), Click(2), FlipBack, Click(1), Click(3)];
    RunCons(Init(), TwoCardDeal(), [Click(0), Click(2)]);
    assert [TwoCardDeal()] + [Click(0), Click(2)] == [TwoCardDeal(), Click(0), Click(2)];
  }
}
