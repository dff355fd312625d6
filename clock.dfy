/**
 * The chess-clock state machine of the `ChessClockApp` component (chess-clock-app.tsx), as
 * values: the six pieces of component state form a `ClockState`, and each transition the
 * component performs (the once-a-second tick, starting, switching turns, resetting, changing
 * the duration or the increment) is a function from the state before to the state after.
 * The class in clock_app.dfy keeps the same six fields as mutable state and is proved to
 * perform exactly these transitions. Also here: the parts of the render that read the
 * state (which controls are shown, who is named winner) and the invariant that every state
 * reached through the controls the component shows keeps.
 */
module Clock {
  import opened Wrappers

  datatype Player = Player1 | Player2

  function Other(p: Player): (q: Player)
    ensures q != p
  {
    match p
    case Player1 => Player2
    case Player2 => Player1
  }

  /** The durations the duration menu offers, in minutes. */
  const DURATION_CHOICES: set<nat> := {3, 5, 10}
  /** The largest increment the increment menu offers (its items are 0 to 10 seconds). */
  const MAX_INCREMENT: nat := 10
  const SECONDS_PER_MINUTE: nat := 60
  /** The duration and the clocks the component starts with. */
  const DEFAULT_DURATION: nat := 5
  const DEFAULT_TIME: nat := 300

  /** The six `useState` fields. `activePlayer` is `None` where the component keeps `null`;
      the times are seconds left, the duration minutes, the increment seconds. */
  datatype ClockState = ClockState(
    player1Time: nat,
    player2Time: nat,
    activePlayer: Option<Player>,
    gameOver: bool,
    gameDuration: nat,
    increment: nat)

  function TimeOf(s: ClockState, p: Player): nat {
    match p
    case Player1 => s.player1Time
    case Player2 => s.player2Time
  }

  /** The settings lie within what the two menus offer. */
  predicate ValidConfig(s: ClockState) {
    s.gameDuration in DURATION_CHOICES && s.increment <= MAX_INCREMENT
  }

  function Initial(): (s: ClockState)
    ensures ValidConfig(s)
    ensures s.player1Time == s.player2Time == s.gameDuration * SECONDS_PER_MINUTE
    ensures s.activePlayer == None && !s.gameOver && s.increment == 0
    ensures s.gameDuration == 5 && s.player1Time == 300
  {
    ClockState(DEFAULT_TIME, DEFAULT_TIME, None, false, DEFAULT_DURATION, 0)
  }

  // ---------------------------------------------------------------------------------------
  // Views of the state used by the render and by the timer effect

  /** The timer effect installs its interval only while a player is active and the game is
      not over; the very same condition shows the switch button. */
  predicate Running(s: ClockState) {
    s.activePlayer.Some? && !s.gameOver
  }

  /** The start button is shown only while no player is active and the game is not over. */
  predicate StartShown(s: ClockState) {
    s.activePlayer.None? && !s.gameOver
  }

  /** The winner the game-over banner names: Player 2 when player 1's clock reads 0,
      Player 1 otherwise. */
  function Winner(s: ClockState): (w: Player)
    ensures forall p :: TimeOf(s, p) == 0 && TimeOf(s, Other(p)) >= 1 ==> w == Other(p)
    ensures s.player1Time >= 1 && s.player2Time >= 1 ==> w == Player1
  {
    if s.player1Time == 0 then Player2 else Player1
  }

  function PlayerName(p: Player): string {
    match p
    case Player1 => "Player 1"
    case Player2 => "Player 2"
  }

  /** The game-over banner, shown only once the game is over. */
  function Banner(s: ClockState): (b: Option<string>)
    ensures b.Some? <==> s.gameOver
    ensures (s.gameOver && s.activePlayer.Some? && TimeOf(s, s.activePlayer.value) == 0 &&
             TimeOf(s, Other(s.activePlayer.value)) >= 1) ==>
      b == Some("Game Over! " + PlayerName(Other(s.activePlayer.value)) + " wins!")
    ensures (s.gameOver && s.player1Time >= 1 && s.player2Time >= 1) ==>
      b == Some("Game Over! " + PlayerName(Player1) + " wins!")
  {
    if s.gameOver then Some("Game Over! " + PlayerName(Winner(s)) + " wins!") else None
  }

  /** Exactly one of the start button, the switch button and the banner is on screen. */
  lemma ControlsExclusive(s: ClockState)
    ensures StartShown(s) || Running(s) || s.gameOver
    ensures !(StartShown(s) && Running(s)) && !(StartShown(s) && s.gameOver)
    ensures !(Running(s) && s.gameOver)
  {
  }

  // ---------------------------------------------------------------------------------------
  // Transitions

  /** One firing of the interval: the active player's clock loses a second; a clock at 1 or
      below is set to 0 instead and the game is over. Outside `Running` no interval exists,
      so nothing changes. */
  function Tick(s: ClockState): (r: ClockState)
    ensures !Running(s) ==> r == s
    ensures r.activePlayer == s.activePlayer
    ensures r.gameDuration == s.gameDuration && r.increment == s.increment
    ensures Running(s) ==>
      var p := s.activePlayer.value;
      TimeOf(r, Other(p)) == TimeOf(s, Other(p)) &&
      (TimeOf(s, p) <= 1 ==> TimeOf(r, p) == 0 && r.gameOver) &&
      (TimeOf(s, p) > 1 ==> TimeOf(r, p) == TimeOf(s, p) - 1 && !r.gameOver)
  {
    if !Running(s) then s
    else if s.activePlayer == Some(Player1) then
      if s.player1Time <= 1 then s.(player1Time := 0, gameOver := true)
      else s.(player1Time := s.player1Time - 1)
    else
      if s.player2Time <= 1 then s.(player2Time := 0, gameOver := true)
      else s.(player2Time := s.player2Time - 1)
  }

  /** The interval has an effect exactly when it is installed: a firing changes the state if
      and only if the clock is `Running`. */
  lemma TickActsExactlyWhenRunning(s: ClockState)
    ensures Tick(s) != s <==> Running(s)
  {
  }

  /** The start button is shown exactly when no interval runs and no banner is shown. */
  lemma StartShownExactlyWhenIdle(s: ClockState)
    ensures StartShown(s) <==> !Running(s) && Banner(s).None?
  {
  }

  /** `startGame`: player 1's clock starts running. Times and the game-over flag stay. */
  function StartGame(s: ClockState): (r: ClockState)
    ensures r.activePlayer == Some(Player1)
    ensures r.player1Time == s.player1Time && r.player2Time == s.player2Time
    ensures r.gameOver == s.gameOver
    ensures r.gameDuration == s.gameDuration && r.increment == s.increment
    ensures StartShown(s) ==> Running(r)
  {
    s.(activePlayer := Some(Player1))
  }

  /** `switchPlayer`: the player who has just moved is credited the increment and the other
      player becomes active. With no active player the source takes its `else` branch
      anyway: player 2 is credited and player 1 becomes active; the component offers the
      button only while `Running`. */
  function SwitchPlayer(s: ClockState): (r: ClockState)
    ensures s.activePlayer.Some? ==>
      var p := s.activePlayer.value;
      TimeOf(r, p) == TimeOf(s, p) + s.increment &&
      TimeOf(r, Other(p)) == TimeOf(s, Other(p)) &&
      r.activePlayer == Some(Other(p))
    ensures s.activePlayer.None? ==>
      r.player2Time == s.player2Time + s.increment &&
      r.player1Time == s.player1Time &&
      r.activePlayer == Some(Player1)
    ensures r.gameOver == s.gameOver
    ensures r.gameDuration == s.gameDuration && r.increment == s.increment
  {
    if s.activePlayer == Some(Player1) then
      s.(player1Time := s.player1Time + s.increment, activePlayer := Some(Player2))
    else
      s.(player2Time := s.player2Time + s.increment, activePlayer := Some(Player1))
  }

  /** `resetGame`: both clocks back to the full duration, no active player, game not over;
      the settings stay. */
  function ResetGame(s: ClockState): (r: ClockState)
    ensures r.player1Time == r.player2Time == s.gameDuration * SECONDS_PER_MINUTE
    ensures r.activePlayer == None && !r.gameOver && StartShown(r)
    ensures r.gameDuration == s.gameDuration && r.increment == s.increment
  {
    var newTime := s.gameDuration * SECONDS_PER_MINUTE;
    s.(player1Time := newTime, player2Time := newTime, activePlayer := None, gameOver := false)
  }

  /** Choosing a duration in the menu. The new duration is stored, and the effect that
      depends on it sets both clocks to the new duration whatever the phase of the game,
      leaving the active player and the game-over flag alone. Choosing the duration already
      set changes no state, so the effect does not run and the clocks keep their time. */
  function SetGameDuration(s: ClockState, d: nat): (r: ClockState)
    requires d in DURATION_CHOICES
    ensures r.gameDuration == d
    ensures d != s.gameDuration ==>
      r.player1Time == r.player2Time == d * SECONDS_PER_MINUTE
    ensures d == s.gameDuration ==> r == s
    ensures r.activePlayer == s.activePlayer && r.gameOver == s.gameOver
    ensures r.increment == s.increment
  {
    if d == s.gameDuration then s
    else
      var newTime := d * SECONDS_PER_MINUTE;
      s.(gameDuration := d, player1Time := newTime, player2Time := newTime)
  }

  /** Choosing an increment in the menu: only the increment changes. */
  function SetIncrement(s: ClockState, i: nat): (r: ClockState)
    requires i <= MAX_INCREMENT
    ensures r.increment == i
    ensures r.player1Time == s.player1Time && r.player2Time == s.player2Time
    ensures r.activePlayer == s.activePlayer && r.gameOver == s.gameOver
    ensures r.gameDuration == s.gameDuration
  {
    s.(increment := i)
  }

  // ---------------------------------------------------------------------------------------
  // Runs of the component: what the user and the timer do, in order

  datatype Action =
    | TickAction
    | StartAction
    | SwitchAction
    | ResetAction
    | DurationAction(minutes: nat)
    | IncrementAction(seconds: nat)

  /** What the component makes possible in state `s`: the start and switch buttons only
      where they are shown, menu choices only among the menu's items. The timer may fire at
      any moment; outside `Running` a firing changes nothing. */
  predicate Offered(s: ClockState, a: Action) {
    match a
    case TickAction => true
    case StartAction => StartShown(s)
    case SwitchAction => Running(s)
    case ResetAction => true
    case DurationAction(d) => d in DURATION_CHOICES
    case IncrementAction(i) => i <= MAX_INCREMENT
  }

  function Step(s: ClockState, a: Action): ClockState
    requires Offered(s, a)
  {
    match a
    case TickAction => Tick(s)
    case StartAction => StartGame(s)
    case SwitchAction => SwitchPlayer(s)
    case ResetAction => ResetGame(s)
    case DurationAction(d) => SetGameDuration(s, d)
    case IncrementAction(i) => SetIncrement(s, i)
  }

  /** Every action of the sequence is offered in the state it is taken in. */
  predicate Admissible(s: ClockState, actions: seq<Action>)
    decreases |actions|
  {
    actions == [] || (Offered(s, actions[0]) && Admissible(Step(s, actions[0]), actions[1..]))
  }

  function Run(s: ClockState, actions: seq<Action>): ClockState
    requires Admissible(s, actions)
    decreases |actions|
  {
    if actions == [] then s else Run(Step(s, actions[0]), actions[1..])
  }

  /** `n` firings of the timer in a row. */
  function Ticks(s: ClockState, n: nat): ClockState
    decreases n
  {
    if n == 0 then s else Ticks(Tick(s), n - 1)
  }

  // ---------------------------------------------------------------------------------------
  // The invariant of reachable states

  /** The settings are menu items; while the game is not over both clocks show at least a
      second; once it is over some player is active and the clock of the player who is not
      active shows at least a second. */
  predicate Consistent(s: ClockState) {
    ValidConfig(s) &&
    (!s.gameOver ==> s.player1Time >= 1 && s.player2Time >= 1) &&
    (s.gameOver ==> s.activePlayer.Some? && TimeOf(s, Other(s.activePlayer.value)) >= 1)
  }

  lemma InitialConsistent()
    ensures Consistent(Initial()) && StartShown(Initial())
  {
  }

  lemma StepConsistent(s: ClockState, a: Action)
    requires Consistent(s) && Offered(s, a)
    ensures Consistent(Step(s, a))
  {
    match a
    case TickAction =>
    case StartAction =>
    case SwitchAction =>
    case ResetAction =>
    case DurationAction(d) =>
    case IncrementAction(i) =>
  }

  /** Every state reached from a consistent one through offered actions is consistent; in
      particular every state the component reaches from its initial state. */
  lemma {:induction false} RunConsistent(s: ClockState, actions: seq<Action>)
    requires Consistent(s) && Admissible(s, actions)
    ensures Consistent(Run(s, actions))
    decreases |actions|
  {
    if actions != [] {
      StepConsistent(s, actions[0]);
      RunConsistent(Step(s, actions[0]), actions[1..]);
    }
  }

  // ---------------------------------------------------------------------------------------
  // Properties of the transitions

  /** A clock never runs below 0, only the active player's clock ever runs down, and it runs
      down by at most one second per firing. */
  lemma TickMovesOneClock(s: ClockState, p: Player)
    ensures TimeOf(Tick(s), p) <= TimeOf(s, p)
    ensures TimeOf(Tick(s), p) + 1 >= TimeOf(s, p)
    ensures TimeOf(Tick(s), p) != TimeOf(s, p) ==> Running(s) && s.activePlayer == Some(p)
  {
  }

  /** Once the game is over the timer changes nothing, however often it fires. */
  lemma {:induction false} TicksAfterGameOver(s: ClockState, n: nat)
    requires s.gameOver || s.activePlayer.None?
    ensures Ticks(s, n) == s
    decreases n
  {
    if n > 0 {
      TicksAfterGameOver(Tick(s), n - 1);
    }
  }

  /** While the active player's clock shows more than `n` seconds, `n` firings take exactly
      `n` seconds from it and touch nothing else. */
  lemma {:induction false} TicksCountDown(s: ClockState, n: nat)
    requires Running(s) && TimeOf(s, s.activePlayer.value) > n
    ensures var p := s.activePlayer.value;
      var r := Ticks(s, n);
      TimeOf(r, p) == TimeOf(s, p) - n && TimeOf(r, Other(p)) == TimeOf(s, Other(p)) &&
      r.activePlayer == s.activePlayer && !r.gameOver &&
      r.gameDuration == s.gameDuration && r.increment == s.increment
    decreases n
  {
    if n > 0 {
      TicksCountDown(Tick(s), n - 1);
    }
  }

  /** A firing that ends the game leaves the active player's clock at 0 and the banner names
      the other player. For player 2 timing out this needs player 1's clock to show at least
      a second, which `Consistent` provides. */
  lemma TimeoutWinner(s: ClockState)
    requires Consistent(s) && Running(s) && Tick(s).gameOver
    ensures var p := s.activePlayer.value;
      TimeOf(Tick(s), p) == 0 && Winner(Tick(s)) == Other(p) &&
      Banner(Tick(s)) == Some("Game Over! " + PlayerName(Other(p)) + " wins!")
  {
  }

  /** In every state the component reaches from its initial state, a firing that ends the
      game makes the banner name the player whose clock did not run out. */
  lemma ReachableTimeoutWinner(actions: seq<Action>)
    requires Admissible(Initial(), actions)
    ensures var s := Run(Initial(), actions);
      Running(s) && Tick(s).gameOver ==>
        TimeOf(Tick(s), s.activePlayer.value) == 0 &&
        Winner(Tick(s)) == Other(s.activePlayer.value)
  {
    InitialConsistent();
    RunConsistent(Initial(), actions);
  }

  /** In a consistent state that is over with the active player's clock at 0, the banner
      names the other player. */
  lemma WinnerIsOpponentOfTimedOut(s: ClockState)
    requires Consistent(s) && s.gameOver && TimeOf(s, s.activePlayer.value) == 0
    ensures Winner(s) == Other(s.activePlayer.value)
  {
  }

  /** Changing the duration after player 1 has run out of time refills both clocks but
      leaves the game over, so the banner then names player 1, who lost. */
  lemma DurationChangeAfterTimeoutNamesLoser(s: ClockState, d: nat)
    requires Consistent(s) && s.gameOver && s.activePlayer == Some(Player1) && s.player1Time == 0
    requires d in DURATION_CHOICES && d != s.gameDuration
    ensures SetGameDuration(s, d).gameOver && Winner(SetGameDuration(s, d)) == Player1
  {
  }

  /** Resetting twice is resetting once. */
  lemma ResetIdempotent(s: ClockState)
    ensures ResetGame(ResetGame(s)) == ResetGame(s)
  {
  }

  /** Switching while the clock runs: the increment goes to the player who has just moved,
      never to the player now on move, and the clock keeps running. Two switches with no
      firing in between hand the move back and credit each player once. */
  lemma SwitchCreditsMover(s: ClockState)
    requires Running(s)
    ensures var p := s.activePlayer.value;
      var r := SwitchPlayer(s);
      r.activePlayer == Some(Other(p)) && TimeOf(r, p) == TimeOf(s, p) + s.increment &&
      TimeOf(r, r.activePlayer.value) == TimeOf(s, Other(p)) && Running(r)
    ensures var r := SwitchPlayer(SwitchPlayer(s));
      r.activePlayer == s.activePlayer && r.gameOver == s.gameOver &&
      r.player1Time == s.player1Time + s.increment && r.player2Time == s.player2Time + s.increment
  {
  }

  /** Start with duration 5 and increment 3, let ten seconds pass, switch: player 1 has
      290 + 3 seconds, player 2 still 300, and player 2 is on move. */
  lemma OpeningScenario()
    ensures var s0 := SetIncrement(Initial(), 3);
      var s1 := StartGame(s0);
      var s2 := Ticks(s1, 10);
      var s3 := SwitchPlayer(s2);
      s1.activePlayer == Some(Player1) && s1.player1Time == 300 && s1.player2Time == 300 &&
      s2.player1Time == 290 && s2.player2Time == 300 &&
      s3.activePlayer == Some(Player2) && s3.player1Time == 293 && s3.player2Time == 300
  {
    var s1 := StartGame(SetIncrement(Initial(), 3));
    TicksCountDown(s1, 10);
  }
}
