/** The number guessing game: a secret between 1 and 100, a number of chances
    chosen before the start, and for each guess an answer of correct, try
    higher, try lower or game over. The random secret arrives as a parameter. */
module Minigame {
  import opened Wrappers

  const MIN_GUESS: int := 1
  const MAX_GUESS: int := 100

  /** The three globals of the game: the secret (none before a start and
      after a reset), the chances left and whether a game is running. */
  datatype GameState = GameState(secret: Option<int>, remaining: int, started: bool)

  /** What a guess shows. */
  datatype Outcome = NotStarted | Invalid | Correct | GameOver | Hint(up: bool)

  /** A guess the game takes: a number from 1 to 100. `None` is a value that
      is not a number. */
  predicate ValidGuess(guess: Option<int>) {
    guess.Some? && MIN_GUESS <= guess.value <= MAX_GUESS
  }

  /** One guess against the state: nothing before a start or for an invalid
      guess; a correct guess ends the game; a wrong one uses a chance and ends
      the game when none is left, else hints in which direction the secret lies. */
  function Step(s: GameState, guess: Option<int>): (r: (GameState, Outcome))
    ensures !s.started || !ValidGuess(guess) ==> r == (s, if !s.started then NotStarted else Invalid)
    ensures r.0.secret == s.secret
    ensures s.started && ValidGuess(guess) && s.secret == guess ==>
      r.1 == Correct && !r.0.started && r.0.remaining == s.remaining
    ensures s.started && ValidGuess(guess) && s.secret != guess ==>
      && r.0.remaining == s.remaining - 1
      && (r.0.started <==> r.0.remaining > 0)
      && (r.1 == GameOver <==> !r.0.started)
      && (r.0.started <==> r.1.Hint?)
    ensures r.1.Hint? ==> guess.Some? && (r.1.up <==> s.secret.Some? && guess.value < s.secret.value)
  {
    if !s.started then (s, NotStarted)
    else if !ValidGuess(guess) then (s, Invalid)
    else if s.secret == Some(guess.value) then (s.(started := false), Correct)
    else
      var left := s.remaining - 1;
      if left <= 0 then (GameState(s.secret, left, false), GameOver)
      else (GameState(s.secret, left, true), Hint(s.secret.Some? && guess.value < s.secret.value))
  }

  /** The state after a sequence of guesses. */
  function Run(s: GameState, guesses: seq<Option<int>>): GameState
    decreases |guesses|
  {
    if guesses == [] then s else Run(Step(s, guesses[0]).0, guesses[1..])
  }

  // ---------------------------------------------------------------- whole games

  /** Once a game is over, guesses change nothing. */
  lemma {:induction false} StoppedStaysStopped(s: GameState, guesses: seq<Option<int>>)
    requires !s.started
    ensures Run(s, guesses) == s
    decreases |guesses|
  {
    if guesses != [] {
      StoppedStaysStopped(Step(s, guesses[0]).0, guesses[1..]);
    }
  }

  /** A running game is over after as many valid guesses as it has chances
      left (at least one). */
  lemma {:induction false} GameEndsWithinChances(s: GameState, guesses: seq<Option<int>>)
    requires s.started
    requires forall i | 0 <= i < |guesses| :: ValidGuess(guesses[i])
    requires |guesses| >= 1 && |guesses| >= s.remaining
    ensures !Run(s, guesses).started
    decreases |guesses|
  {
    var t := Step(s, guesses[0]).0;
    if !t.started {
      StoppedStaysStopped(t, guesses[1..]);
    } else {
      assert t.remaining == s.remaining - 1 >= 1;
      GameEndsWithinChances(t, guesses[1..]);
    }
  }

  /** The secret stays the same for the whole game. */
  lemma {:induction false} SecretFixed(s: GameState, guesses: seq<Option<int>>)
    ensures Run(s, guesses).secret == s.secret
    decreases |guesses|
  {
    if guesses != [] {
      SecretFixed(Step(s, guesses[0]).0, guesses[1..]);
    }
  }

  // ---------------------------------------------------------------- the page

  class Game {
    var secret: Option<int>
    var remaining: int
    var started: bool

    function State(): GameState
      reads this
    {
      GameState(secret, remaining, started)
    }

    /** The page as it loads: no secret, no chances, no game. */
    constructor ()
      ensures State() == GameState(None, 0, false)
    {
      secret := None;
      remaining := 0;
      started := false;
    }

    /** `startGame`: a choice of zero or not a number does nothing; any other
        starts a game with that many chances and the secret `draw`. */
    method StartGame(choice: Option<int>, draw: int)
      requires MIN_GUESS <= draw <= MAX_GUESS
      modifies this
      ensures choice.None? || choice.value == 0 ==> State() == old(State())
      ensures choice.Some? && choice.value != 0 ==> State() == GameState(Some(draw), choice.value, true)
    {
      if choice.None? || choice.value == 0 {
        return;
      }
      secret := Some(draw);
      remaining := choice.value;
      started := true;
    }

    /** `checkGuess`: one step of the game. */
    method CheckGuess(guess: Option<int>) returns (o: Outcome)
      modifies this
      ensures (State(), o) == Step(old(State()), guess)
    {
      if !started {
        return NotStarted;
      }
      if guess.None? || guess.value < MIN_GUESS || guess.value > MAX_GUESS {
        return Invalid;
      }
      if secret == Some(guess.value) {
        started := false;
        return Correct;
      }
      remaining := remaining - 1;
      if remaining <= 0 {
        started := false;
        o := GameOver;
      } else {
        o := Hint(secret.Some? && guess.value < secret.value);
      }
    }

    /** `resetGame`: back to no game, no secret and no chances. */
    method ResetGame()
      modifies this
      ensures State() == GameState(None, 0, false)
    {
      started := false;
      secret := None;
      remaining := 0;
    }
  }
}
