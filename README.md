# Chess clock — a Dafny model

A model of the two-player chess clock in `chess-clock-app.tsx`: the `ChessClockApp`
component keeps both players' remaining seconds, the player on move (if any), a game-over
flag, the game duration in minutes and the per-move increment in seconds; a timer takes a
second from the active player's clock once a second; buttons start the game, pass the move
and reset; two menus choose the duration (3, 5 or 10 minutes) and the increment (0 to 10
seconds). Each clock is shown as `MM:SS`.

The project has four modules:

- `Wrappers` (wrappers.dfy): the `Option` type, standing for the component's `null`.
- `TimeFormat` (time_format.dfy): `formatTime` with the decimal numerals (`toString`) and
  the padding (`padStart`) it is built from, and its inverse `ParseTime`, which reads a
  display back into seconds. Every display parses back to the time it shows, so no two
  times share a display.
- `Clock` (clock.dfy): the component's state as a value (`ClockState`). Each transition is a
  function of that value. The parts of the render that read the state are here too:
  `Running` (the timer's guard, which also shows the switch button), `StartShown`, `Winner`
  and `Banner`. So is the invariant `Consistent`, which every state keeps when it is reached
  through the controls the component offers.
- `ClockApp` (clock_app.dfy): class `ChessClockApp`, which holds the same six fields as
  mutable state. Each handler, the timer callback and the duration effect is a method that
  updates the fields in place. Each method is proved to perform the `Clock` transition of the
  same name (`State() == Clock.X(old(State()))`) and to keep `Consistent` where the component
  offers it.

The timer is modelled as an explicit `Tick` that does nothing unless a player is active and
the game is not over. This is the condition under which the effect installs its interval
(line 23); otherwise the interval has been cleared (lines 28, 37, 46).

In three places the code is less tidy than a pure state machine would be; the model follows
the code:

- `startGame` sets player 1 on move from any state, and `switchPlayer` with nobody on move
  runs its `else` branch: player 2 is credited the increment and player 1 goes on move.
  Neither handler ignores a press outside its phase; the component only hides the buttons
  (lines 135, 143). So the model defines both functions on every state. The guards
  appear as `Clock.Offered`, and the invariant is proved for runs that press only buttons the
  component shows.
- Changing the duration refills both clocks at any phase of the game and never touches the
  active player or the game-over flag (lines 15-19). A consequence is proved as
  `Clock.DurationChangeAfterTimeoutNamesLoser`: after player 1 has run out of time, a
  duration change makes the banner name player 1 as the winner.
- Choosing the duration that is already set changes no state, so the effect that depends on
  `gameDuration` does not run and the clocks keep their time. `Clock.SetGameDuration` models
  that case as the identity.

## Model

| member | source | states |
|---|---|---|
| `TimeFormat.Decimal` | chess-clock-app.tsx:74 | `toString()` of a non-negative integer is a nonempty string of digits with no leading zero, one digit exactly below 10 and at most two exactly below 100 |
| `TimeFormat.ValueOfDecimal` | chess-clock-app.tsx:74 | the numeral `toString()` writes reads back as the number it was made from |
| `TimeFormat.PadStart` | chess-clock-app.tsx:74 | `padStart(target, fill)` returns a string of length max(length, target) |
| `TimeFormat.PadStartParts` | chess-clock-app.tsx:74 | `padStart` keeps the original string as the suffix and puts only fill characters in front of it |
| `TimeFormat.PaddedDecimal` | chess-clock-app.tsx:74 | `toString().padStart(2, '0')` gives a field of at least two characters, exactly two below 100; its digits and value are stated by `PaddedDecimalFacts` |
| `TimeFormat.PaddedDecimalFacts` | chess-clock-app.tsx:74 | a padded field is all digits, at least two long, exactly two below 100, and denotes its number |
| `TimeFormat.FormatTime` | chess-clock-app.tsx:71-75 | a display is at least five characters, has ':' third from the end and ends with the padded seconds `time % 60`; what its fields denote is stated by `FormatTimeFields` and `FormatTimeRoundTrip` |
| `TimeFormat.PaddedDigit` | chess-clock-app.tsx:74 | a number below 10 is padded to '0' followed by its digit |
| `TimeFormat.FormatTimeFields` | chess-clock-app.tsx:71-75 | a display has ':' third from the end and digits elsewhere; its minutes field denotes `floor(time / 60)` and its seconds field `time % 60` |
| `TimeFormat.FormatTimeWidth` | chess-clock-app.tsx:71-75 | the display is exactly five characters (`MM:SS`) if and only if the time is below 6000 seconds |
| `TimeFormat.FormatTimeRoundTrip` | chess-clock-app.tsx:71-75 | parsing the display gives back the time: minutes * 60 + seconds == time |
| `TimeFormat.FormatTimeInjective` | chess-clock-app.tsx:71-75 | two different times never have the same display |
| `TimeFormat.FormatTime65` | chess-clock-app.tsx:71-75 | 65 seconds display as "01:05" |
| `TimeFormat.FormatTime3` | chess-clock-app.tsx:71-75 | 3 seconds display as "00:03" |
| `TimeFormat.FormatTime600` | chess-clock-app.tsx:71-75 | 600 seconds display as "10:00" |
| `Clock.Initial` | chess-clock-app.tsx:8-13 | the initial state: duration 5 minutes, both clocks at 300 = 5 * 60 seconds, nobody on move, not over, increment 0, settings within the menus |
| `Clock.Winner` | chess-clock-app.tsx:160 | when one clock reads 0 and the other at least 1, the player with time left is named; when both clocks read at least 1, Player 1 is named |
| `Clock.Banner` | chess-clock-app.tsx:158-162 | the banner is shown exactly when the game is over; when the active player's clock reads 0 and the other's at least 1 it names the other player; when both clocks read at least 1 it names Player 1 |
| `Clock.ControlsExclusive` | chess-clock-app.tsx:135-162 | exactly one of the start button, the switch button and the banner is shown in any state |
| `Clock.TickActsExactlyWhenRunning` | chess-clock-app.tsx:23 | `Running` (the interval's guard, the same guard as the switch button at line 143) holds exactly when a firing changes the state |
| `Clock.StartShownExactlyWhenIdle` | chess-clock-app.tsx:135 | `StartShown` holds exactly when the clock is not `Running` and no banner is shown |
| `Clock.Tick` | chess-clock-app.tsx:23-43 | outside `Running`, nothing changes; otherwise the active clock goes to 0 and the game ends if it read at most 1, and it loses exactly one second with the game not over if it read more; the other clock, the player on move and the settings stay |
| `Clock.StartGame` | chess-clock-app.tsx:49-51 | player 1 goes on move; times, game-over flag and settings stay; from the state where the start button is shown it leads to `Running` |
| `Clock.SwitchPlayer` | chess-clock-app.tsx:53-61 | with p on move: p is credited the increment, the other clock stays, the other player goes on move; with nobody on move: player 2 is credited and player 1 goes on move; game-over flag and settings stay |
| `Clock.ResetGame` | chess-clock-app.tsx:63-69 | both clocks at duration * 60, nobody on move, game not over, settings unchanged, so the start button is shown |
| `Clock.SetGameDuration` | chess-clock-app.tsx:15-19 | the duration becomes d; on a change both clocks become d * 60 in any phase; choosing the current duration changes nothing; player on move, game-over flag and increment stay |
| `Clock.SetIncrement` | chess-clock-app.tsx:119 | only the increment changes |
| `Clock.InitialConsistent` | chess-clock-app.tsx:8-13 | the initial state satisfies the invariant and shows the start button |
| `Clock.StepConsistent` | chess-clock-app.tsx:15-69 | each transition the component offers keeps the invariant: settings within the menus, both clocks at least 1 while not over, and once over a player is on move and the other player's clock reads at least 1 |
| `Clock.RunConsistent` | chess-clock-app.tsx:15-69 | every state reached through offered actions satisfies the invariant |
| `Clock.TickMovesOneClock` | chess-clock-app.tsx:23-43 | a firing never raises a clock, lowers a clock by at most one second, and changes only the active player's clock, and only while `Running` |
| `Clock.TicksAfterGameOver` | chess-clock-app.tsx:23-46 | once the game is over or nobody is on move, any number of firings changes nothing |
| `Clock.TicksCountDown` | chess-clock-app.tsx:24-43 | while the active clock reads more than n, n firings take exactly n seconds from it and change nothing else |
| `Clock.TimeoutWinner` | chess-clock-app.tsx:24-43 | a firing that ends the game leaves the active clock at 0, and in a consistent state the banner then names the other player |
| `Clock.ReachableTimeoutWinner` | chess-clock-app.tsx:24-43 | in every state reached from the initial one through offered actions, a firing that ends the game leaves the active clock at 0 and the banner names the other player |
| `Clock.WinnerIsOpponentOfTimedOut` | chess-clock-app.tsx:160 | in a consistent, game-over state with the active clock at 0, the winner is the other player |
| `Clock.DurationChangeAfterTimeoutNamesLoser` | chess-clock-app.tsx:15-19 | after player 1 has run out of time, a duration change keeps the game over and makes the banner name player 1 |
| `Clock.ResetIdempotent` | chess-clock-app.tsx:63-69 | resetting twice is the same as resetting once |
| `Clock.SwitchCreditsMover` | chess-clock-app.tsx:53-61 | while running, the increment goes to the player who has just moved and never to the player now on move, who keeps their time, and the clock keeps running; two switches in a row hand the move back and credit each player exactly one increment |
| `Clock.OpeningScenario` | chess-clock-app.tsx:15-61 | increment 3, start, ten firings and a switch give player 1 290 + 3 seconds and player 2 300 seconds, with player 2 on move |
| `ClockApp.ChessClockApp.constructor` | chess-clock-app.tsx:8-13 | the fields start as the initial state |
| `ClockApp.ChessClockApp.Tick` | chess-clock-app.tsx:23-43 | updates the fields in place as `Clock.Tick`, keeping the invariant |
| `ClockApp.ChessClockApp.StartGame` | chess-clock-app.tsx:49-51 | updates the fields in place as `Clock.StartGame`, keeping the invariant when pressed where shown |
| `ClockApp.ChessClockApp.SwitchPlayer` | chess-clock-app.tsx:53-61 | updates the fields in place as `Clock.SwitchPlayer`, keeping the invariant when pressed where shown |
| `ClockApp.ChessClockApp.ResetGame` | chess-clock-app.tsx:63-69 | updates the fields in place as `Clock.ResetGame`; the result always satisfies the invariant |
| `ClockApp.ChessClockApp.SetGameDuration` | chess-clock-app.tsx:15-19 | updates the fields in place as `Clock.SetGameDuration`, keeping the invariant |
| `ClockApp.ChessClockApp.SetIncrement` | chess-clock-app.tsx:119 | updates the fields in place as `Clock.SetIncrement`, keeping the invariant |

## Left out

- The render (lines 77-166): layout, class strings, and the `Button`, `Card`, `Select` and
  `Label` components from the UI toolkit. These are presentation by code that is not part of
  this model. The model keeps only what the render reads from the state: the button guards,
  the banner and `formatTime`.
- Real time: `setInterval`, `clearInterval` and the cleanup of the effect (lines 21-47).
  The timer is a `Tick` that the caller invokes, under the same guard; nothing models
  seconds passing or two events arriving at once.
- React's scheduling of state updates. Each handler is modelled as taking effect at once and
  completely before the next event.
- `parseInt` of the menu values (lines 103, 119). The menus offer only fixed items, so the
  setters take a duration in {3, 5, 10} and an increment in 0..10 directly.
- The "Player 1 Move" and "Player 2 Move" label and the highlight of the active clock
  (lines 87, 93, 148). They only restate which player is on move.
- Number width. JavaScript numbers are doubles, but the times stay small integers here, so the
  model uses unbounded naturals. `Math.floor(time / 60)` and `time % 60` agree with Dafny's
  `/` and `%` on them.
