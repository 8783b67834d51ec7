/** The game's global state and the handlers that change it: the screen
    state `game_state`, the list `remainingLocations` of cells still hidden
    and the flag `stop_arrow_gen` that ends a reveal loop early. */
module Game {
  import opened RandomDraw
  import opened Grid

  const ArrowGridSize: nat := 10

  const CanvasWidth: real := 1200.0
  const CanvasHeight: real := 600.0
  const CanvasGameSize: real := 600.0
  const CanvasXOffset: real := (CanvasWidth - CanvasGameSize) / 2.0
  const CanvasYOffset: real := (CanvasHeight - CanvasGameSize) / 2.0

  /** Width of one grid cell in pixels. */
  const CellSize: real := CanvasGameSize / ArrowGridSize as real

  /** The values `game_state` takes. */
  const StartScreen: int := 0
  const GameScreen: int := 1
  const ScoreScreen: int := 2
  const GameOverScreen: int := 3

  /** The click handler's conversion of one pixel coordinate into a grid
      index: -1 off the board, otherwise the floor of the distance from the
      board's edge over the cell width. */
  function PixelToGrid(p: real, offset: real): int
  {
    if p < offset then -1
    else if p > offset + CanvasGameSize then -1
    else ((p - offset) / CellSize).Floor
  }

  /** What the conversion promises: -1 exactly off the board; otherwise an
      index 0..10 whose cell holds the pixel, where 10 (a cell past the
      grid) comes only from the far edge itself, because the upper test is
      `>` and not `>=`. */
  lemma PixelToGridRange(p: real, offset: real)
    ensures PixelToGrid(p, offset) == -1 <==> p < offset || p > offset + CanvasGameSize
    ensures PixelToGrid(p, offset) != -1 ==> 0 <= PixelToGrid(p, offset) <= ArrowGridSize
    ensures PixelToGrid(p, offset) == ArrowGridSize as int <==> p == offset + CanvasGameSize
    ensures 0 <= PixelToGrid(p, offset) < ArrowGridSize ==>
      offset + PixelToGrid(p, offset) as real * CellSize <= p < offset + (PixelToGrid(p, offset) + 1) as real * CellSize
  {
    if offset <= p <= offset + CanvasGameSize {
      var q := (p - offset) / CellSize;
      assert 0.0 <= q <= 10.0;
      assert q == 10.0 <==> p == offset + CanvasGameSize;
    }
  }

  /** `game_state` after a click, given the grid indices the click maps to
      (used only on the game screen). */
  function ClickNext(state: int, gridX: int, gridY: int): int
  {
    if state == StartScreen then GameScreen
    else if state == GameScreen then
      (if gridX != -1 && gridY != -1 then ScoreScreen else GameScreen)
    else if state == ScoreScreen then GameOverScreen
    else if state == GameOverScreen then GameScreen
    else state
  }

  /** `game_state` after a sequence of clicks, each given by its grid indices. */
  function RunClicks(state: int, clicks: seq<(int, int)>): int
    decreases |clicks|
  {
    if clicks == [] then state
    else RunClicks(ClickNext(state, clicks[0].0, clicks[0].1), clicks[1..])
  }

  /** Clicks keep `game_state` among the four screens, and once the first
      click has left the start screen no click returns to it; a value
      outside 0..3 is never changed by clicks. */
  lemma {:induction false} RunClicksScreens(state: int, clicks: seq<(int, int)>)
    ensures StartScreen <= state <= GameOverScreen && clicks != [] ==>
      GameScreen <= RunClicks(state, clicks) <= GameOverScreen
    ensures !(StartScreen <= state <= GameOverScreen) ==> RunClicks(state, clicks) == state
    decreases |clicks|
  {
    if clicks != [] {
      RunClicksScreens(ClickNext(state, clicks[0].0, clicks[0].1), clicks[1..]);
    }
  }

  /** A click on the game screen submits an answer exactly when both pixel
      coordinates lie on the board, edges included. */
  lemma SubmitOnBoard(mouseX: real, mouseY: real)
    ensures ClickNext(GameScreen, PixelToGrid(mouseX, CanvasXOffset), PixelToGrid(mouseY, CanvasYOffset)) == ScoreScreen
      <==> CanvasXOffset <= mouseX <= CanvasXOffset + CanvasGameSize &&
           CanvasYOffset <= mouseY <= CanvasYOffset + CanvasGameSize
  {
    PixelToGridRange(mouseX, CanvasXOffset);
    PixelToGridRange(mouseY, CanvasYOffset);
  }

  /** A click on the board's right edge submits the cell in column 10,
      which is not a cell of the grid. */
  lemma EdgeClickSubmitsOffGrid(mouseY: real)
    requires CanvasYOffset <= mouseY <= CanvasYOffset + CanvasGameSize
    ensures PixelToGrid(CanvasXOffset + CanvasGameSize, CanvasXOffset) == ArrowGridSize as int
    ensures ClickNext(GameScreen, PixelToGrid(CanvasXOffset + CanvasGameSize, CanvasXOffset),
                      PixelToGrid(mouseY, CanvasYOffset)) == ScoreScreen
    ensures !InBounds(Location(PixelToGrid(CanvasXOffset + CanvasGameSize, CanvasXOffset),
                               PixelToGrid(mouseY, CanvasYOffset)), ArrowGridSize)
  {
    PixelToGridRange(CanvasXOffset + CanvasGameSize, CanvasXOffset);
    PixelToGridRange(mouseY, CanvasYOffset);
  }

  /** The value `i` of the score count-up at step `t`. */
  function TickValue(t: nat): real {
    t as real * 200.0
  }

  /** Number of steps of the score count-up: `i` runs 0, 200, 400, ... while
      `i < score`. */
  function ScoreTicks(score: real): (ticks: nat)
    ensures forall t: nat :: t < ticks <==> TickValue(t) < score
  {
    if score <= 0.0 then 0
    else
      var f := (-score / 200.0).Floor;
      assert f < 0;
      forall t: nat ensures t < -f <==> TickValue(t) < score {
        if t < -f {
          assert t as real <= (-f - 1) as real;
        }
      }
      -f
  }

  /** `game_state` when the count-up ends: each tick finds the state in
      `stateSeen` after its sleep; the first value other than 2 is left as
      it is, and if every tick finds 2 the state becomes 3. */
  function ScoreEnd(stateSeen: seq<int>, ticks: nat): int
    requires |stateSeen| >= ticks
  {
    if ticks == 0 then GameOverScreen
    else if stateSeen[0] != ScoreScreen then stateSeen[0]
    else ScoreEnd(stateSeen[1..], ticks - 1)
  }

  /** A count-up that finds the score screen after every tick ends on the
      game-over screen. */
  lemma {:induction false} ScoreEndUninterrupted(stateSeen: seq<int>, ticks: nat)
    requires |stateSeen| >= ticks
    requires forall t :: 0 <= t < ticks ==> stateSeen[t] == ScoreScreen
    ensures ScoreEnd(stateSeen, ticks) == GameOverScreen
  {
    if ticks > 0 {
      ScoreEndUninterrupted(stateSeen[1..], ticks - 1);
    }
  }

  /** A count-up whose tick `t` is the first to find another screen leaves
      that screen in place. */
  lemma {:induction false} ScoreEndInterrupted(stateSeen: seq<int>, ticks: nat, t: nat)
    requires |stateSeen| >= ticks && t < ticks && stateSeen[t] != ScoreScreen
    requires forall u :: 0 <= u < t ==> stateSeen[u] == ScoreScreen
    ensures ScoreEnd(stateSeen, ticks) == stateSeen[t]
  {
    if t > 0 {
      ScoreEndInterrupted(stateSeen[1..], ticks - 1, t - 1);
    }
  }

  /** A score of at most 0 (a round answered with one cell left scores
      `log10(1) * ... = 0`) skips the count-up and goes straight to the
      game-over screen. */
  lemma NonPositiveScoreEnds(score: real, stateSeen: seq<int>)
    requires score <= 0.0
    ensures ScoreTicks(score) == 0
    ensures ScoreEnd(stateSeen, ScoreTicks(score)) == GameOverScreen
  {
    assert !(0 < ScoreTicks(score));
  }

  /** What can run while a reveal loop sleeps, as seen from `stop_arrow_gen`:
      a `submitAnswer` call, the point where a submit resumes after waiting
      (only the corrected submit waits), or any other handler, which does
      not write the flag. */
  datatype FlagEvent = SubmitCall | SubmitResumed | OtherHandler

  /** The flag after one event, as the script is written: `submitAnswer`
      sets it and clears it again with no `await` in between, so it ends
      up clear; nothing else writes it. */
  function FlagStepAsWritten(flag: bool, e: FlagEvent): bool
  {
    match e
    case SubmitCall => false
    case SubmitResumed => flag
    case OtherHandler => flag
  }

  /** The flag after a run of events, starting from `flag`, as written. */
  function FlagAsWritten(flag: bool, events: seq<FlagEvent>): bool
    decreases |events|
  {
    if events == [] then flag
    else FlagAsWritten(FlagStepAsWritten(flag, events[0]), events[1..])
  }

  /** As written, the flag starts clear and no run of events ever leaves it
      set, so no check of the reveal loop can find it set. */
  lemma {:induction false} FlagNeverSetAsWritten(events: seq<FlagEvent>)
    ensures !FlagAsWritten(false, events)
  {
    if events != [] {
      FlagNeverSetAsWritten(events[1..]);
    }
  }

  /** Consequently every reveal loop of the script as written runs until the
      list is empty: its early exit is never taken. `traces[k]` is what ran
      before the check of step `k`. */
  lemma RevealAsWrittenRevealsAll(locs: seq<Location>, picks: seq<nat>, stopSeen: seq<bool>,
                                  traces: seq<seq<FlagEvent>>)
    requires Fits(picks, stopSeen, 0, |locs|) && |traces| == |stopSeen|
    requires forall k :: 0 <= k < |stopSeen| ==> stopSeen[k] == FlagAsWritten(false, traces[k])
    ensures Reveal(locs, picks, stopSeen, 0).rest == []
    ensures |Reveal(locs, picks, stopSeen, 0).revealed| == |locs|
  {
    forall k | 0 <= k < |locs| ensures !stopSeen[k] {
      FlagNeverSetAsWritten(traces[k]);
    }
    RevealAllWithoutStop(locs, picks, stopSeen, 0);
    RevealExit(locs, picks, stopSeen, 0);
  }

  /** The flag after one event with the corrected submit: it sets
      the flag, waits for the running loop to see it, and only then clears
      it and starts the fast reveal. */
  function FlagStep(flag: bool, e: FlagEvent): bool
  {
    match e
    case SubmitCall => true
    case SubmitResumed => false
    case OtherHandler => flag
  }

  /** The flag after a run of events, starting from `flag`, with the
      intended submit. */
  function FlagAfter(flag: bool, events: seq<FlagEvent>): bool
    decreases |events|
  {
    if events == [] then flag
    else FlagAfter(FlagStep(flag, events[0]), events[1..])
  }

  /** With the intended submit, a submit call that has not yet resumed
      leaves the flag set, whatever ran before or after it. */
  lemma {:induction false} FlagSetUntilResumed(flag: bool, events: seq<FlagEvent>, i: nat)
    requires i < |events| && events[i] == SubmitCall
    requires forall j :: i < j < |events| ==> events[j] != SubmitResumed
    ensures FlagAfter(flag, events)
    decreases |events|
  {
    if i == 0 {
      FlagStaysSet(events[1..]);
    } else {
      FlagSetUntilResumed(FlagStep(flag, events[0]), events[1..], i - 1);
    }
  }

  /** A set flag stays set through events that are not a resuming submit. */
  lemma {:induction false} FlagStaysSet(events: seq<FlagEvent>)
    requires forall j :: 0 <= j < |events| ==> events[j] != SubmitResumed
    ensures FlagAfter(true, events)
  {
    if events != [] {
      FlagStaysSet(events[1..]);
    }
  }

  /** With the intended submit, a reveal loop whose check at step `s` comes
      after a submit that has not resumed stops at that check at the latest. */
  lemma RevealStopsAfterSubmit(locs: seq<Location>, picks: seq<nat>, stopSeen: seq<bool>,
                               traces: seq<seq<FlagEvent>>, s: nat, i: nat)
    requires Fits(picks, stopSeen, 0, |locs|) && |traces| == |stopSeen|
    requires forall k :: 0 <= k < |stopSeen| ==> stopSeen[k] == FlagAfter(false, traces[k])
    requires s < |locs| && i < |traces[s]| && traces[s][i] == SubmitCall
    requires forall j :: i < j < |traces[s]| ==> traces[s][j] != SubmitResumed
    ensures |Reveal(locs, picks, stopSeen, 0).revealed| <= s + 1
  {
    FlagSetUntilResumed(false, traces[s], i);
    RevealExit(locs, picks, stopSeen, 0);
  }

  /** What a click does besides changing `game_state`. */
  datatype ClickAction =
    | StartGame                     // start the music and the first round
    | Submit(gridX: int, gridY: int) // `submitAnswer` with the clicked cell
    | StartNextRound                // run the next round
    | NoAction

  class GameState {
    var gameState: int
    var remainingLocations: seq<Location>
    var stopArrowGen: bool

    /** The globals as the script declares them. */
    constructor ()
      ensures gameState == StartScreen && remainingLocations == [] && !stopArrowGen
    {
      gameState := StartScreen;
      remainingLocations := [];
      stopArrowGen := false;
    }

    /** `displayStartUI` puts the game on the start screen. */
    method DisplayStartUI()
      modifies this`gameState
      ensures gameState == StartScreen
    {
      gameState := StartScreen;
    }

    /** The start of a round's reveal: `remainingLocations` becomes every cell
        of the grid, column by column. */
    method ResetLocations()
      modifies this`remainingLocations
      ensures remainingLocations == FullGrid(ArrowGridSize)
      ensures |remainingLocations| == ArrowGridSize * ArrowGridSize
      ensures Distinct(remainingLocations)
      ensures forall l :: l in remainingLocations <==> InBounds(l, ArrowGridSize)
    {
      var n := ArrowGridSize;
      remainingLocations := [];
      for i := 0 to n
        invariant remainingLocations == Columns(i, n)
      {
        for j := 0 to n
          invariant remainingLocations == Columns(i, n) + Column(i, n)[..j]
        {
          assert Column(i, n)[..j + 1] == Column(i, n)[..j] + [Location(i, j)];
          remainingLocations := remainingLocations + [Location(i, j)];
        }
        assert Column(i, n)[..n] == Column(i, n);
      }
      FullGridShape(n);
    }

    /** `revealArrows`: while cells remain, splice out the one at
        `Math.floor(draws[k] * length)` and show its arrow; after the sleep
        that follows, `stop_arrow_gen` holds `stopSeen[k]` (other handlers
        run during the sleep), and a set flag ends the loop. Returns the
        cells in the order they were revealed. */
    method RevealArrows(draws: seq<real>, stopSeen: seq<bool>) returns (revealed: seq<Location>)
      requires AllUnit(draws)
      requires |draws| >= |remainingLocations| && |stopSeen| >= |remainingLocations|
      modifies this`remainingLocations, this`stopArrowGen
      ensures Fits(PicksOf(draws, |old(remainingLocations)|), stopSeen, 0, |old(remainingLocations)|)
      ensures Reveal(old(remainingLocations), PicksOf(draws, |old(remainingLocations)|), stopSeen, 0)
        == RevealResult(revealed, remainingLocations)
      ensures |revealed| <= |old(remainingLocations)|
      ensures stopArrowGen == if revealed == [] then old(stopArrowGen) else stopSeen[|revealed| - 1]
    {
      revealed := [];
      var step := 0;
      ghost var start := remainingLocations;
      ghost var picks := PicksOf(draws, |start|);
      assert Fits(picks, stopSeen, 0, |start|);
      while |remainingLocations| > 0
        invariant step == |revealed| && step + |remainingLocations| == |start|
        invariant stopArrowGen == if step == 0 then old(stopArrowGen) else stopSeen[step - 1]
        invariant Fits(picks, stopSeen, step, |remainingLocations|)
        invariant var o := Reveal(remainingLocations, picks, stopSeen, step);
          Reveal(start, picks, stopSeen, 0) == RevealResult(revealed + o.revealed, o.rest)
        decreases |remainingLocations|
      {
        RevealAdvance(start, picks, stopSeen, revealed, remainingLocations, step);
        var index := Below(draws[step], |remainingLocations|);
        assert index == picks[step];
        var location := remainingLocations[index];
        remainingLocations := Splice(remainingLocations, index);
        revealed := revealed + [location];
        stopArrowGen := stopSeen[step];
        step := step + 1;
        if stopArrowGen {
          return;
        }
      }
    }

    /** The click handler: on the start screen start the game; on the game
        screen map the pointer to a cell and submit it unless a coordinate
        is off the board; from the score screen go to game over; from game
        over start the next round; any other state is left alone. */
    method Click(mouseX: real, mouseY: real) returns (action: ClickAction)
      modifies this`gameState
      ensures var gridX := PixelToGrid(mouseX, CanvasXOffset);
              var gridY := PixelToGrid(mouseY, CanvasYOffset);
        gameState == ClickNext(old(gameState), gridX, gridY) &&
        action == (if old(gameState) == StartScreen then StartGame
                   else if old(gameState) == GameScreen && gridX != -1 && gridY != -1 then Submit(gridX, gridY)
                   else if old(gameState) == GameOverScreen then StartNextRound
                   else NoAction)
    {
      action := NoAction;
      if gameState == StartScreen {
        gameState := GameScreen;
        action := StartGame;
      } else if gameState == GameScreen {
        var gridX := PixelToGrid(mouseX, CanvasXOffset);
        var gridY := PixelToGrid(mouseY, CanvasYOffset);
        if gridX != -1 && gridY != -1 {
          gameState := ScoreScreen;
          action := Submit(gridX, gridY);
        }
      } else if gameState == ScoreScreen {
        gameState := GameOverScreen;
      } else if gameState == GameOverScreen {
        gameState := GameScreen;
        action := StartNextRound;
      }
    }

    /** The writes `submitAnswer` makes to `stop_arrow_gen`: none for an
        off-board cell, otherwise it sets the flag and clears it again
        before anything else can run. */
    method SubmitAnswer(gridX: int, gridY: int)
      modifies this`stopArrowGen
      ensures stopArrowGen == if gridX == -1 || gridY == -1 then old(stopArrowGen)
                              else FlagStepAsWritten(old(stopArrowGen), SubmitCall)
      ensures gridX != -1 && gridY != -1 ==> !stopArrowGen
    {
      if gridX == -1 || gridY == -1 {
        return;
      }
      stopArrowGen := true;
      stopArrowGen := false;
    }

    /** `displayScore`'s count-up: `i` runs 0, 200, ... while `i < score`;
        after each step's sleep `game_state` holds `stateSeen[tick]` (a click
        may have changed it), and anything but the score screen ends the
        count-up there. A finished count-up sets the game-over screen. */
    method DisplayScore(score: real, stateSeen: seq<int>)
      requires |stateSeen| >= ScoreTicks(score)
      modifies this`gameState
      ensures gameState == ScoreEnd(stateSeen, ScoreTicks(score))
    {
      var shown: real := 0.0;
      var tick: nat := 0;
      while shown < score
        invariant tick <= ScoreTicks(score)
        invariant shown == tick as real * 200.0
        invariant ScoreEnd(stateSeen, ScoreTicks(score)) == ScoreEnd(stateSeen[tick..], ScoreTicks(score) - tick)
        decreases ScoreTicks(score) - tick
      {
        gameState := stateSeen[tick];
        if gameState != ScoreScreen {
          return;
        }
        assert stateSeen[tick..][1..] == stateSeen[tick + 1..];
        shown := shown + 200.0;
        tick := tick + 1;
      }
      gameState := GameOverScreen;
    }
  }
}
