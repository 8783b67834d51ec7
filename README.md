# Omega Flux: a Dafny model of the game's sequential logic

Omega Flux is a browser game. It generates a random 2D vector field as two
text expressions, reveals it on a 10 by 10 grid of arrows in random order,
and lets the player click the cell they think has the most flux. This
project models the parts of `scripts/app.js` that are plain sequential
logic. Each `Math.random()` draw is an explicit real argument in [0, 1).

- `random_draw.dfy` (module `RandomDraw`): `Math.floor(Math.random() * n)`.
  It is used to pick a template, a placeholder digit, and the cell to reveal.
- `equations.dfy` (module `Equations`): `generateEquation`. It holds the ten
  templates and the loops that replace each `?` by a digit 1..5 with
  `String.replace`. The loop is a method. It is proved equal to `Substitute`,
  a positional specification in which the n-th `?` takes the n-th draw.
- `grid.dfy` (module `Grid`): grid cells; the full list of cells a round
  starts with; `splice(k, 1)`; and `Reveal`, the function that specifies the
  reveal loop in terms of the index drawn at each step.
- `field.dfy` (module `Field`): the cell-to-field map of `generateArrow`,
  `(c / N) * 10 - 5`, with `y` negated. It uses exact real arithmetic.
- `game.dfy` (module `Game`): the pixel-to-grid conversion and the click
  state machine. The class `GameState` holds the globals `game_state`,
  `remainingLocations` and `stop_arrow_gen`. Its methods are the click
  handler, the grid reset of `gameLoop`, `revealArrows`, the count-up of
  `displayScore`, `displayStartUI`, and the flag writes of `submitAnswer`.

Between steps, `revealArrows` and `displayScore` sleep, and other handlers
can change the globals meanwhile. The model passes in, per step, the value
the loop then finds:
- `stopSeen[k]` for `stop_arrow_gen`;
- `stateSeen[t]` for `game_state`.

The method stores that value in the field before testing it, as the source
reads the global. Every property below is proved by the verifier.

## Model

| member | source | states |
|---|---|---|
| `RandomDraw.Below` | scripts/app.js:158-159 | `Math.floor(r * n)` with `r` in [0, 1) is an index in [0, n); so a template index is below 10 and a splice index lies within the list |
| `Equations.Template` | scripts/app.js:144-155 | the ten templates by index, in the listed order; every one is non-empty |
| `Equations.DigitOf` | scripts/app.js:167 | `Math.floor(r * 5) + 1` is written as one character from `'1'` to `'5'` |
| `Equations.ReplaceFirst` | scripts/app.js:168 | `replace` keeps the length and leaves a string with no `?` unchanged |
| `Equations.ReplaceFirstAt` | scripts/app.js:168 | when position `k` holds the first `?`, `replace` rewrites exactly position `k` |
| `Equations.Substitute` | scripts/app.js:164-170 | the length is kept (its ensures); otherwise the positional reference for the fill loop, a definition whose properties are in `SubstituteShape` and `SubstituteAt` |
| `Equations.SubstituteShape` | scripts/app.js:164-178 | filling keeps the length, leaves no `?`, keeps every other character, and puts a digit 1..5 at every former `?` |
| `Equations.SubstituteAt` | scripts/app.js:164-170 | the `?` at position `k` takes the draw whose number is the count of `?`s before `k` |
| `Equations.FillPlaceholders` | scripts/app.js:164-170 | the scan-and-replace loop computes `Substitute(template, draws)`: same length, no `?` left, other characters kept, digits 1..5 at the former `?`s |
| `Equations.FillBoth` | scripts/app.js:164-177 | the `i` template is filled from the first draws and the `j` template from the draws after the ones `i` used; both keep their length and hold no `?` |
| `Equations.Generated` | scripts/app.js:158-177 | definition only: template `i` filled from the draws after the two template picks, template `j` from the draws after those; `GenerateEquation` is proved equal to it |
| `Equations.GenerateEquation` | scripts/app.js:144-185 | the first two draws choose the templates; the next ones fill `i` and then `j`; both expressions are non-empty and hold no `?` |
| `Grid.Column` | scripts/app.js:79-81 | definition only; its properties are in `ColumnsShape` and `FullGridShape` |
| `Grid.Columns` | scripts/app.js:78-81 | definition only; its properties are in `ColumnsShape` |
| `Grid.FullGrid` | scripts/app.js:77-82 | definition only; its properties are in `FullGridShape` |
| `Grid.ColumnsShape` | scripts/app.js:78-81 | after `i` passes of the outer loop the list has `i * n` cells, none twice, exactly those with `0 <= x < i` and `0 <= y < n` |
| `Grid.FullGridShape` | scripts/app.js:77-82 | the initial list has `n * n` cells, is duplicate-free, and holds exactly the in-bounds cells |
| `Grid.Splice` | scripts/app.js:208 | definition only; its properties are in `SpliceRemovesOne` and `SpliceDistinct` |
| `Grid.SpliceRemovesOne` | scripts/app.js:208 | `splice(k, 1)` shortens the list by one, keeps earlier cells in place, moves later ones down by one, and removes exactly `s[k]` as a multiset |
| `Grid.SpliceDistinct` | scripts/app.js:208 | splicing a duplicate-free list keeps it duplicate-free; what is left is the old cells minus the removed one |
| `Grid.PicksOf` | scripts/app.js:207 | the index drawn at step `k`, `Math.floor(draws[k] * length)`, lies within the `n - k` cells the list then holds |
| `Grid.Reveal` | scripts/app.js:205-219 | definition only; its properties are in `RevealPartitions`, `RevealExit`, `RevealKeepsDistinct`, `RevealAllWithoutStop` and `RevealFullGrid` |
| `Grid.RevealPartitions` | scripts/app.js:205-219 | the revealed cells plus the cells left are, as a multiset, the starting list |
| `Grid.RevealExit` | scripts/app.js:205-219 | the loop takes at most `|list|` steps (at least one when the list is non-empty); it ends with the list empty, or right after the first step whose check found `stop_arrow_gen` set |
| `Grid.RevealKeepsDistinct` | scripts/app.js:205-208 | the list left behind is duplicate-free and a subset of the starting list |
| `Grid.RevealAllWithoutStop` | scripts/app.js:205-219 | when no check finds the flag set, every cell is revealed and none is left |
| `Grid.RevealFullGrid` | scripts/app.js:202-220 | on the full grid, revealed plus left are exactly the in-bounds cells; with no stop, every cell is revealed; a stop before the last step leaves some cell hidden |
| `Field.FieldX` | scripts/app.js:224 | definition only; its properties are in `FieldRange`, `FieldStep` and `FieldOnTenGrid` |
| `Field.FieldY` | scripts/app.js:225 | definition only; its properties are in `FieldRange`, `FieldStep` and `FieldOnTenGrid` |
| `Field.FieldRange` | scripts/app.js:224-225 | for `0 <= c < N`, `x_rep` lies in [-5, 5) and `y_rep`, its negation, lies in (-5, 5] |
| `Field.FieldStep` | scripts/app.js:224-225 | neighbouring cells are `10 / N` apart; `x_rep` increases with the column and `y_rep` decreases with the row |
| `Field.FieldOnTenGrid` | scripts/app.js:224-225 | on the 10-cell grid, `x_rep = x - 5` and `y_rep = 5 - y` |
| `Game.PixelToGrid` | scripts/app.js:356-372 | definition only; its properties are in `PixelToGridRange` |
| `Game.PixelToGridRange` | scripts/app.js:356-372 | the result is -1 exactly off the board, otherwise in [0, 10]; it is 10 only at `offset + 600`; for 0..9 the cell contains the pixel |
| `Game.ClickNext` | scripts/app.js:344-389 | definition only; its properties are in `SubmitOnBoard`, `EdgeClickSubmitsOffGrid` and `GameState.Click` |
| `Game.RunClicks` | scripts/app.js:344-389 | definition only; its properties are in `RunClicksScreens` |
| `Game.RunClicksScreens` | scripts/app.js:344-389 | clicks keep a state of 0..3 within 0..3, and never return to 0 after the first click; any other value is never changed |
| `Game.SubmitOnBoard` | scripts/app.js:356-377 | on the game screen, a click moves to the score screen exactly when both pixel coordinates are on the board, edges included |
| `Game.EdgeClickSubmitsOffGrid` | scripts/app.js:359-377 | a click on the right edge of the board submits column 10, which is outside the grid |
| `Game.TickValue` | scripts/app.js:453 | definition only; its properties are in `ScoreTicks` |
| `Game.ScoreTicks` | scripts/app.js:453 | the count-up takes as many steps as there are values 0, 200, 400, ... below `score` |
| `Game.ScoreEnd` | scripts/app.js:453-481 | definition only; its properties are in `ScoreEndUninterrupted`, `ScoreEndInterrupted` and `NonPositiveScoreEnds` |
| `Game.ScoreEndUninterrupted` | scripts/app.js:453-481 | a count-up that finds the score screen after every step ends on the game-over screen |
| `Game.ScoreEndInterrupted` | scripts/app.js:464-467 | a count-up whose step `t` is the first to find another screen leaves that screen in place |
| `Game.NonPositiveScoreEnds` | scripts/app.js:453-481 | a score of at most 0 skips the count-up and sets the game-over screen at once |
| `Game.FlagStepAsWritten` | scripts/app.js:397-405 | definition only; its properties are in `FlagNeverSetAsWritten`; a submit sets the flag and clears it again with no `await` between |
| `Game.FlagAsWritten` | scripts/app.js:11 | definition only; its properties are in `FlagNeverSetAsWritten` |
| `Game.FlagNeverSetAsWritten` | scripts/app.js:398-405 | from its initial `false`, no run of events leaves `stop_arrow_gen` set |
| `Game.RevealAsWrittenRevealsAll` | scripts/app.js:205-216 | when every check reads the flag as written, the reveal loop empties the list and reveals every cell |
| `Game.FlagStep` | scripts/app.js:398-405 | definition only; its properties are in `FlagSetUntilResumed`; the intended submit sets the flag and clears it only after waiting |
| `Game.FlagAfter` | scripts/app.js:398-405 | definition only; its properties are in `FlagSetUntilResumed` |
| `Game.FlagSetUntilResumed` | scripts/app.js:398-405 | with the intended submit, the flag is set after a submit call until that submit resumes |
| `Game.RevealStopsAfterSubmit` | scripts/app.js:214-216 | with the intended submit, a reveal loop whose check at step `s` follows an unresumed submit reveals at most `s + 1` cells |
| `Game.GameState.constructor` | scripts/app.js:11-21 | the globals start on the start screen, with an empty list and the flag clear |
| `Game.GameState.DisplayStartUI` | scripts/app.js:485-486 | `displayStartUI` sets the start screen and changes nothing else |
| `Game.GameState.ResetLocations` | scripts/app.js:77-82 | the nested loops set `remainingLocations` to the full grid: 100 distinct cells, exactly the in-bounds ones |
| `Game.GameState.RevealArrows` | scripts/app.js:202-220 | the loop computes `Reveal` of the old list, with the indices `PicksOf` draws: it returns the revealed cells in order and leaves the rest; the flag holds the last value checked |
| `Game.GameState.Click` | scripts/app.js:344-389 | 0 goes to 1 and starts the game; 1 goes to 2 and submits the cell only when neither coordinate is -1, otherwise it stays 1; 2 goes to 3; 3 goes to 1 and starts a round; other values stay |
| `Game.GameState.SubmitAnswer` | scripts/app.js:392-405 | no write for an off-board cell; otherwise the flag ends clear, as `FlagStepAsWritten` states |
| `Game.GameState.DisplayScore` | scripts/app.js:445-483 | the count-up ends with `game_state` equal to `ScoreEnd`: state 3 unless a step found another screen |

## Left out

- Drawing, DOM and audio: `displayGameUI`, `displayEquation`, `displayArrow`, `gridToPixel`, `drawArrowhead`, `drawAnswer`, the text of `displayStartUI` and `displayScore`, `getMousePos`, and the audio started by the first click. They are rendering and browser I/O. `Click` takes the canvas-relative pointer position as input and returns what it would start (`ClickAction`).
- Expression evaluation: `math.evaluate` belongs to an external library that is not part of this model. With it go the arrow vectors of `generateArrow`, `normalizeVector`, the maximum magnitude in `gameLoop` and `calculateScore`. All of these are floating-point numerics (`sqrt`, `log10`, division).
- The score check in `calculateScore` (scripts/app.js:426) compares the text `{arrow.magnitude}`, which lacks the `$`, with `"NaN"`. It is therefore always true and is not modelled as a NaN filter.
- `submitAnswer` (scripts/app.js:392-411): it saves the list length, sets `stop_arrow_gen` and clears it again, then starts a second reveal loop over the same list while the first one is asleep. This overlap of two asynchronous loops is not modelled: there is one reveal loop at a time, and the value each check of the flag finds is an input. Since nothing else writes the flag and no `await` separates the two writes, every check at scripts/app.js:214 finds it clear (see "## Findings").
- Pixel positions: the click handler's positions and their division by the cell width are exact reals here, not doubles. The two differ only within rounding distance of a cell boundary.
- Timing: `sleep`, the delay formula, and `arrowSpeed *= 1.1`. These only pace the animation.
- The equation override (scripts/app.js:22-30): the later `var override_equation = false` shadows the object, so that branch of `gameLoop` never runs.
- `DisplayScore`: a `NaN` score is not modelled, because the model's scores are reals. In the source, `0 < NaN` is false, so such a score also goes straight to state 3.
- Randomness: no random source is modelled. Each draw is a real in [0, 1) supplied in a sequence, in the order the source takes them.

## Findings

| source | as written | input that shows it | evidently intended | confidence | as-written member | corrected member |
|---|---|---|---|---|---|---|
| scripts/app.js:398-405 | `submitAnswer` sets `stop_arrow_gen` and clears it with no `await` between, so the check at scripts/app.js:214 never finds it set and a running reveal loop goes on until its list is empty | a submit while a reveal loop sleeps: the events `[SubmitCall]` leave the flag clear, so that loop's next check does not stop it | the sleeping loop finds the flag set at its next check and stops, as `Grid.RevealExit`'s early exit describes | not executed; high | `Game.FlagNeverSetAsWritten`, `Game.RevealAsWrittenRevealsAll` | `Game.FlagSetUntilResumed`, `Game.RevealStopsAfterSubmit` |
