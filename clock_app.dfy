/**
 * The `ChessClockApp` component as an object: its six `useState` fields are mutable fields,
 * and each handler, the timer callback and the duration effect is a method that updates them
 * in place. Every method is proved to perform the transition of the same name in module
 * Clock, and to keep the invariant `Clock.Consistent` whenever the component offers it.
 * The equation `State() == Clock.X(old(State()))` is the whole contract of each method; the
 * clauses about single fields after it follow from it and spell the step out on the fields
 * themselves, for callers that read the fields rather than `State()`.
 */
module ClockApp {
  import opened Wrappers
  import Clock

  class ChessClockApp {
    var player1Time: nat
    var player2Time: nat
    var activePlayer: Option<Clock.Player>
    var gameOver: bool
    var gameDuration: nat
    var increment: nat

    /** The fields as a value. */
    ghost function State(): Clock.ClockState
      reads this
    {
      Clock.ClockState(player1Time, player2Time, activePlayer, gameOver, gameDuration, increment)
    }

    ghost predicate Valid()
      reads this
    {
      Clock.ValidConfig(State())
    }

    /** The component as it mounts: five minutes, no increment, both clocks at 300 seconds,
        nobody on move. */
    constructor ()
      ensures Valid() && State() == Clock.Initial() && Clock.Consistent(State())
      ensures player1Time == 300 && player2Time == 300 && activePlayer == None && !gameOver
      ensures gameDuration == 5 && increment == 0
    {
      player1Time := Clock.DEFAULT_TIME;
      player2Time := Clock.DEFAULT_TIME;
      activePlayer := None;
      gameOver := false;
      gameDuration := Clock.DEFAULT_DURATION;
      increment := 0;
    }

    /** One firing of the interval callback. The interval exists only while a player is
        active and the game is not over; outside that, a firing changes nothing. */
    method Tick()
      requires Valid()
      modifies this
      ensures Valid() && State() == Clock.Tick(old(State()))
      ensures old(Clock.Consistent(State())) ==> Clock.Consistent(State())
      ensures !old(Clock.Running(State())) ==> State() == old(State())
      ensures old(Clock.Running(State())) && old(activePlayer) == Some(Clock.Player1) ==>
        player1Time == (if old(player1Time) <= 1 then 0 else old(player1Time) - 1) &&
        gameOver == (old(player1Time) <= 1) && player2Time == old(player2Time)
      ensures old(Clock.Running(State())) && old(activePlayer) == Some(Clock.Player2) ==>
        player2Time == (if old(player2Time) <= 1 then 0 else old(player2Time) - 1) &&
        gameOver == (old(player2Time) <= 1) && player1Time == old(player1Time)
      ensures activePlayer == old(activePlayer)
      ensures gameDuration == old(gameDuration) && increment == old(increment)
    {
      ghost var before := State();
      if activePlayer.Some? && !gameOver {
        if activePlayer == Some(Clock.Player1) {
          if player1Time <= 1 {
            gameOver := true;
            player1Time := 0;
          } else {
            player1Time := player1Time - 1;
          }
        } else {
          if player2Time <= 1 {
            gameOver := true;
            player2Time := 0;
          } else {
            player2Time := player2Time - 1;
          }
        }
      }
      if Clock.Consistent(before) {
        Clock.StepConsistent(before, Clock.TickAction);
      }
    }

    /** `startGame`: player 1 is on move. */
    method StartGame()
      requires Valid()
      modifies this
      ensures Valid() && State() == Clock.StartGame(old(State()))
      ensures old(Clock.Consistent(State()) && Clock.StartShown(State())) ==>
        Clock.Consistent(State()) && Clock.Running(State())
      ensures activePlayer == Some(Clock.Player1)
      ensures player1Time == old(player1Time) && player2Time == old(player2Time)
      ensures gameOver == old(gameOver)
      ensures gameDuration == old(gameDuration) && increment == old(increment)
    {
      ghost var before := State();
      activePlayer := Some(Clock.Player1);
      if Clock.Consistent(before) && Clock.StartShown(before) {
        Clock.StepConsistent(before, Clock.StartAction);
      }
    }

    /** `switchPlayer`: the player who has just moved is credited the increment and the
        other player is on move; with nobody on move, as the source's `else` branch does,
        player 2 is credited and player 1 is on move. */
    method SwitchPlayer()
      requires Valid()
      modifies this
      ensures Valid() && State() == Clock.SwitchPlayer(old(State()))
      ensures old(Clock.Consistent(State()) && Clock.Running(State())) ==>
        Clock.Consistent(State()) && Clock.Running(State())
      ensures old(activePlayer) == Some(Clock.Player1) ==>
        player1Time == old(player1Time) + increment && player2Time == old(player2Time) &&
        activePlayer == Some(Clock.Player2)
      ensures old(activePlayer) != Some(Clock.Player1) ==>
        player2Time == old(player2Time) + increment && player1Time == old(player1Time) &&
        activePlayer == Some(Clock.Player1)
      ensures gameOver == old(gameOver)
      ensures gameDuration == old(gameDuration) && increment == old(increment)
    {
      ghost var before := State();
      if activePlayer == Some(Clock.Player1) {
        player1Time := player1Time + increment;
        activePlayer := Some(Clock.Player2);
      } else {
        player2Time := player2Time + increment;
        activePlayer := Some(Clock.Player1);
      }
      if Clock.Consistent(before) && Clock.Running(before) {
        Clock.StepConsistent(before, Clock.SwitchAction);
      }
    }

    /** `resetGame`: both clocks at the full duration, nobody on move, game not over. */
    method ResetGame()
      requires Valid()
      modifies this
      ensures Valid() && State() == Clock.ResetGame(old(State()))
      ensures Clock.Consistent(State()) && Clock.StartShown(State())
      ensures player1Time == gameDuration * 60 && player2Time == gameDuration * 60
      ensures activePlayer == None && !gameOver
      ensures gameDuration == old(gameDuration) && increment == old(increment)
    {
      var newTime := gameDuration * Clock.SECONDS_PER_MINUTE;
      player1Time := newTime;
      player2Time := newTime;
      activePlayer := None;
      gameOver := false;
    }

    /** The duration menu's handler followed by the effect on `gameDuration`: when the
        duration changes, both clocks are set to the new duration, whatever the phase of
        the game. Choosing the current duration changes nothing, so the effect does not
        run. */
    method SetGameDuration(d: nat)
      requires Valid() && d in Clock.DURATION_CHOICES
      modifies this
      ensures Valid() && State() == Clock.SetGameDuration(old(State()), d)
      ensures old(Clock.Consistent(State())) ==> Clock.Consistent(State())
      ensures gameDuration == d
      ensures d != old(gameDuration) ==> player1Time == d * 60 && player2Time == d * 60
      ensures d == old(gameDuration) ==>
        player1Time == old(player1Time) && player2Time == old(player2Time)
      ensures activePlayer == old(activePlayer) && gameOver == old(gameOver)
      ensures increment == old(increment)
    {
      ghost var before := State();
      if d != gameDuration {
        gameDuration := d;
        var newTime := gameDuration * Clock.SECONDS_PER_MINUTE;
        player1Time := newTime;
        player2Time := newTime;
      }
      if Clock.Consistent(before) {
        Clock.StepConsistent(before, Clock.DurationAction(d));
      }
    }

    /** The increment menu's handler: only the increment changes. */
    method SetIncrement(i: nat)
      requires Valid() && i <= Clock.MAX_INCREMENT
      modifies this
      ensures Valid() && State() == Clock.SetIncrement(old(State()), i)
      ensures old(Clock.Consistent(State())) ==> Clock.Consistent(State())
      ensures increment == i
      ensures player1Time == old(player1Time) && player2Time == old(player2Time)
      ensures activePlayer == old(activePlayer) && gameOver == old(gameOver)
      ensures gameDuration == old(gameDuration)
    {
      increment := i;
    }
  }
}
