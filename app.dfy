// The App component of src/App.tsx as an object: its state hooks are the
// fields of `Game`, and each handler is a method that reassigns them in the
// order the source does. Every method is proved to leave the state that the
// matching transition of module Session describes, and to keep the session
// invariant; what those transitions guarantee is proved in Session.

module App {
  import opened Search
  import opened Session

  /** `shuffleArray`: Fisher–Yates on a copy, from the last position down to
    * 1, swapping position i with a position j in 0..i. `Math.random` is the
    * parameter `draw`: `Math.floor(Math.random() * (i + 1))` is any j in 0..i,
    * here `draw(i) % (i + 1)`. */
  method ShuffleArray<T>(items: seq<T>, draw: nat -> nat) returns (shuffled: seq<T>)
    ensures |shuffled| == |items|
    ensures multiset(shuffled) == multiset(items)
  {
    var a := new T[|items|](k requires 0 <= k < |items| => items[k]);
    assert a[..] == items;
    var i := |items| - 1;
    while i > 0
      invariant -1 <= i < |items| && a.Length == |items|
      invariant multiset(a[..]) == multiset(items)
    {
      var j := draw(i) % (i + 1);
      a[i], a[j] := a[j], a[i];
      i := i - 1;
    }
    shuffled := a[..];
  }

  class Game {
    var secretWord: string
    var guesses: seq<string>
    var currentGuess: string
    var gameWords: seq<string>
    var winningWords: seq<string>
    var lives: seq<Life>
    var message: Message
    var isGameOver: bool
    var pending: Timer

    /** The fields as one state value. */
    ghost function Snapshot(): State
      reads this
    {
      State(secretWord, guesses, currentGuess, gameWords, winningWords, lives, message, isGameOver, pending)
    }

    /** A started game: the session invariant. */
    ghost predicate Valid()
      reads this
    {
      Inv(Snapshot())
    }

    /** The hooks' initial values, before the start-up effect runs. The game
      * starts in two steps, as the component does: construction gives the
      * initial values, which are not yet a started session, and the start-up
      * effect then calls `StartNewGame`, which establishes `Valid()`; the key
      * handler and the continuations require it. */
    constructor ()
      ensures Snapshot() == INITIAL_STATE
    {
      secretWord := "";
      guesses := [];
      currentGuess := "";
      gameWords := [];
      winningWords := [];
      lives := INITIAL_LIVES;
      message := NoMessage;
      isGameOver := false;
      pending := Idle;
    }

    /** `startNewGame`: run on start-up and from the restart button, that is
      * when no timer is pending. */
    method StartNewGame(draw: nat -> nat)
      requires pending == Idle
      modifies this
      ensures multiset(gameWords) == multiset(WORDS)
      ensures Snapshot() == NewGame(old(Snapshot()), gameWords)
      ensures Valid()
    {
      var shuffledWords := ShuffleArray(WORDS, draw);
      WordCount();
      BeginSession(shuffledWords);
    }

    /** The rest of `startNewGame`, once the word list is shuffled: install
      * the list, reset the session and start its first round. It is a method
      * of its own only so that the facts about the shuffle and about the new
      * state are proved separately, which keeps each proof small. */
    method BeginSession(shuffledWords: seq<string>)
      requires pending == Idle && |shuffledWords| == WORD_COUNT
      modifies this
      ensures gameWords == shuffledWords
      ensures Snapshot() == NewGame(old(Snapshot()), shuffledWords)
      ensures Valid()
    {
      gameWords := shuffledWords;
      winningWords := [];
      lives := INITIAL_LIVES;
      isGameOver := false;
      ghost var before := Snapshot();
      StartNewRound(shuffledWords, []);
      assert Snapshot() == NewRound(before, shuffledWords, []);
      NewGameEstablishesInv(old(Snapshot()), shuffledWords);
    }

    /** `startNewRound(words, winning)`. */
    method StartNewRound(words: seq<string>, winning: seq<string>)
      modifies this
      ensures Snapshot() == NewRound(old(Snapshot()), words, winning)
      ensures gameWords == old(gameWords)
    {
      if |winning| == WORD_COUNT {
        message := AllFound;
        isGameOver := true;
        return;
      }
      var newSecretWord := if |winning| < |words| then words[|winning|] else "";
      secretWord := newSecretWord;
      guesses := [];
      currentGuess := "";
      message := NoMessage;
    }

    /** `handleKeyPress(key)`; a key pressed while a round transition is
      * pending is ignored. */
    method HandleKeyPress(key: Key)
      requires Valid()
      modifies this
      ensures Snapshot() == KeyPress(old(Snapshot()), key)
      ensures Valid()
    {
      KeyPressKeepsInv(Snapshot(), key);
      if isGameOver || secretWord == "" || pending != Idle {
        return;
      }
      match key
      case Enter =>
        if |currentGuess| != |secretWord| {
          message := WrongLength(|secretWord|);
          return;
        }
        SubmitGuess();
      case Backspace =>
        currentGuess := if currentGuess == "" then "" else currentGuess[..|currentGuess| - 1];
      case Letter(c) =>
        if |currentGuess| < |secretWord| {
          currentGuess := currentGuess + [c];
        }
    }

    /** `submitGuess`. */
    method SubmitGuess()
      modifies this
      ensures Snapshot() == Submit(old(Snapshot()))
    {
      var newGuesses := guesses + [currentGuess];
      var submitted := currentGuess;
      guesses := newGuesses;
      currentGuess := "";
      if submitted == secretWord {
        HandleCorrectGuess();
      } else {
        HandleIncorrectGuess(newGuesses);
      }
    }

    /** `handleCorrectGuess`: schedules `AdvanceAfterWin`. */
    method HandleCorrectGuess()
      modifies this
      ensures Snapshot() == CorrectGuess(old(Snapshot()))
    {
      var newWinningWords := winningWords + [secretWord];
      winningWords := newWinningWords;
      message := Congratulate;
      pending := AfterWin(gameWords, newWinningWords);
    }

    /** `handleIncorrectGuess(newGuesses)`: ghosts the first alive marker in a
      * copy of the lives, then ends the session, or the round (scheduling
      * `AdvanceAfterRoundLoss`), or neither. */
    method HandleIncorrectGuess(newGuesses: seq<string>)
      modifies this
      ensures Snapshot() == IncorrectGuess(old(Snapshot()), newGuesses)
    {
      var newLives := new Life[|lives|](k requires 0 <= k < |lives| reads this => lives[k]);
      assert newLives[..] == lives;
      var remainingLives := AliveCount(newLives[..]);
      if remainingLives > 0 {
        var index := IndexOf(newLives[..], Alive);
        if index != -1 {
          newLives[index] := Ghost;
        }
        lives := newLives[..];
      }
      assert newLives[..] == SpendLife(old(lives));

      if AllGhosts(newLives[..]) {
        message := Lost;
        isGameOver := true;
      } else if |newGuesses| == MAX_ATTEMPTS {
        message := Reveal(secretWord);
        var newWinningWords := winningWords + [secretWord];
        winningWords := newWinningWords;
        pending := AfterRoundLoss(gameWords, newWinningWords);
      }
    }

    /** The two-second continuation of a correct guess. */
    method AdvanceAfterWin()
      requires Valid() && pending.AfterWin?
      modifies this
      ensures Snapshot() == AdvanceWin(old(Snapshot()))
      ensures Valid()
    {
      AdvanceWinKeepsInv(Snapshot());
      var words, newWinningWords := pending.words, pending.winning;
      pending := Idle;
      if |newWinningWords| == WORD_COUNT {
        message := AllFound;
        isGameOver := true;
      } else {
        StartNewRound(words, newWinningWords);
      }
    }

    /** The three-second continuation of a lost round. */
    method AdvanceAfterRoundLoss()
      requires Valid() && pending.AfterRoundLoss?
      modifies this
      ensures Snapshot() == AdvanceRoundLoss(old(Snapshot()))
      ensures Valid()
    {
      AdvanceRoundLossKeepsInv(Snapshot());
      var words, newWinningWords := pending.words, pending.winning;
      pending := Idle;
      StartNewRound(words, newWinningWords);
    }
  }
}
