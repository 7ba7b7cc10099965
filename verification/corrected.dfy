/** The flip/match state machine with the click guard the game evidently
    intends: besides the two cases the component already ignores, a click on
    a slot that is already turned up is ignored too. Everything else (the
    flip-back, a new game, the completion check) is the component's own
    behaviour, reused from the as-written model. */
module Corrected {
  import opened Permutations
  import opened Cards
  import opened Game

  /** A click on slot `index` under the intended guard. */
  function FlipChecked(s: State, index: nat): (r: State)
    requires Bounded(s.flipped, |s.board|) && index < |s.board|
    ensures Distinct(s.flipped) ==> Distinct(r.flipped)
    ensures |r.matched| != |s.matched| ==>
              && |r.flipped| == 2
              && r.flipped[0] != r.flipped[1]
              && r.matched == s.matched + r.flipped
    ensures s.matched <= r.matched
    ensures Bounded(r.flipped, |r.board|)
  {
    if index in s.flipped then s else Flip(s, index)
  }

  /** One event under the intended guard, followed by the completion check. */
  function StepChecked(s: State, e: Event): State
    requires Enabled(s, e)
  {
    match e
    case Click(index) => Settle(FlipChecked(s, index))
    case _ => Step(s, e)
  }

  predicate FeasibleChecked(s: State, es: seq<Event>)
    decreases |es|
  {
    |es| == 0 || (Enabled(s, es[0]) && FeasibleChecked(StepChecked(s, es[0]), es[1..]))
  }

  function RunChecked(s: State, es: seq<Event>): State
    requires FeasibleChecked(s, es)
    decreases |es|
  {
    if |es| == 0 then s else RunChecked(StepChecked(s, es[0]), es[1..])
  }

  /** What the intended guard adds to the component's invariant: neither
      list holds a slot twice, and a single pending card is never a matched
      one. */
  predicate InvChecked(s: State) {
    && Inv(s)
    && Distinct(s.flipped)
    && Distinct(s.matched)
    && (|s.flipped| < 2 ==> forall k :: 0 <= k < |s.flipped| ==> s.flipped[k] !in s.matched)
  }

  lemma StepCheckedInv(s: State, e: Event)
    requires InvChecked(s) && Enabled(s, e)
    ensures InvChecked(StepChecked(s, e))
  {
    match e
    case Click(index) =>
      var f := FlipChecked(s, index);
      if |f.matched| != |s.matched| {
        var a := f.flipped[0];
        var b := f.flipped[1];
        assert index !in s.flipped && !Ignores(s, index);
        assert s.flipped == [a] && b == index;
        assert a !in s.matched && b !in s.matched;
        assert Distinct(f.matched) by {
          forall i, j | 0 <= i < j < |f.matched|
            ensures f.matched[i] != f.matched[j]
          {
            if j == |s.matched| {
              assert f.matched[j] == a;
            } else if j == |s.matched| + 1 {
              assert f.matched[j] == b;
            }
          }
        }
      } else if index !in s.flipped && !Ignores(s, index) {
        assert f.flipped == s.flipped + [index];
        assert f.matched == s.matched;
      }
      if index !in s.flipped {
        StepInv(s, e);
      }
    case FlipBack =>
      StepInv(s, e);
    case Restart(cards, perm) =>
      StepInv(s, e);
  }

  lemma {:induction false} RunCheckedInv(s: State, es: seq<Event>)
    requires InvChecked(s) && FeasibleChecked(s, es)
    ensures InvChecked(RunChecked(s, es))
    decreases |es|
  {
    if |es| > 0 {
      StepCheckedInv(s, es[0]);
      RunCheckedInv(StepChecked(s, es[0]), es[1..]);
    }
  }

  /** Under the intended guard the matched list never outgrows the board,
      and the game is over exactly when every slot of a non-empty board has
      been matched. */
  lemma GameOverMeansAllFound(s: State)
    requires InvChecked(s)
    ensures |s.matched| <= |s.board|
    ensures s.gameOver <==> |s.board| > 0 && forall k: nat :: k < |s.board| ==> k in s.matched
  {
    DistinctBoundedCovers(s.matched, |s.board|);
  }

  /** Whatever the user does from mount, under the intended guard the game
      is over exactly when every slot has been found. */
  lemma ReachableChecked(es: seq<Event>)
    requires FeasibleChecked(Init(), es)
    ensures var s := RunChecked(Init(), es);
            s.gameOver <==> |s.board| > 0 && forall k: nat :: k < |s.board| ==> k in s.matched
  {
    InitInv();
    assert InvChecked(Init());
    RunCheckedInv(Init(), es);
    GameOverMeansAllFound(RunChecked(Init(), es));
  }

  /** Under the intended guard a second click on the same slot changes
      nothing: clicking is idempotent. */
  lemma ClickIdempotent(s: State, index: nat)
    requires Enabled(s, Click(index))
    ensures Enabled(StepChecked(s, Click(index)), Click(index))
    ensures StepChecked(StepChecked(s, Click(index)), Click(index)) == StepChecked(s, Click(index))
  {
  }
}
