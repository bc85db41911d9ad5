// The round/session rules of src/App.tsx, stated on a snapshot of the game's
// state: one function per handler, returning the state the handler leaves.
// The class `App.Game` runs the same handlers on its fields and is proved to
// follow these functions; the lemmas below state what the rules guarantee.
//
// Lives are twenty markers, each alive or a ghost (the emoji themselves are
// presentation). A delayed `setTimeout` continuation is the `pending` timer,
// recording the values its closure captured; it is run by the separate
// transitions `AdvanceWin` and `AdvanceRoundLoss`. While a timer is pending,
// key presses are ignored (`KeyPress`); the source does not ignore them, which
// `KeyPressAsWritten` keeps for comparison.

module Session {
  import opened Search

  const WORDS: seq<string> := ["FALL", "ARBOR", "TOWN", "FEST", "ALL", "CHEER", "FOR", "PLOTSIE", "THE", "BEST"]
  /** `WORDS.length`, the number of rounds in a session. It is written as a
    * number rather than `|WORDS|` because the verifier reasons about the
    * number far more cheaply than about the length of the literal list;
    * `WordCount` proves that the two agree. */
  const WORD_COUNT: nat := 10
  const MAX_ATTEMPTS: nat := 6
  const LIFE_COUNT: nat := 20

  datatype Life = Alive | Ghost

  /** The twenty starting avatars, all alive. */
  const INITIAL_LIVES: seq<Life> :=
    [Alive, Alive, Alive, Alive, Alive, Alive, Alive, Alive, Alive, Alive,
     Alive, Alive, Alive, Alive, Alive, Alive, Alive, Alive, Alive, Alive]

  /** A key of the on-screen keyboard. */
  datatype Key = Enter | Backspace | Letter(c: char)

  /** The transient message, by kind (its wording is presentation). */
  datatype Message =
    | NoMessage
    | WrongLength(letters: nat)
    | Congratulate
    | AllFound
    | Lost
    | Reveal(word: string)

  /** A scheduled continuation with the word list and winning words its
    * closure captured. */
  datatype Timer =
    | Idle
    | AfterWin(words: seq<string>, winning: seq<string>)
    | AfterRoundLoss(words: seq<string>, winning: seq<string>)

  datatype State = State(
    secretWord: string,
    guesses: seq<string>,
    currentGuess: string,
    gameWords: seq<string>,
    winningWords: seq<string>,
    lives: seq<Life>,
    message: Message,
    isGameOver: bool,
    pending: Timer)

  /** The state before the start-up effect runs. */
  const INITIAL_STATE: State := State("", [], "", [], [], INITIAL_LIVES, NoMessage, false, Idle)

  /** `lives.filter(life => life !== GHOST_EMOJI).length` */
  function AliveCount(lives: seq<Life>): nat
  {
    if lives == [] then 0
    else AliveCount(lives[..|lives| - 1]) + if lives[|lives| - 1] == Alive then 1 else 0
  }

  /** The whole pool of lives is spent: `every(life => life === GHOST_EMOJI)`. */
  predicate AllGhosts(lives: seq<Life>)
  {
    Alive !in lives
  }

  /** Turn the first alive marker (`findIndex`) into a ghost, if there is one. */
  function SpendLife(lives: seq<Life>): seq<Life>
  {
    if AliveCount(lives) > 0 then
      var index := IndexOf(lives, Alive);
      if index == -1 then lives else lives[index := Ghost]
    else lives
  }

  // ---------------------------------------------------------------------------
  // Transitions

  /** `startNewRound(words, winning)`. A winning list past the end of `words`
    * would read `undefined` in the source, which acts as no secret word. */
  function NewRound(s: State, words: seq<string>, winning: seq<string>): State
  {
    if |winning| == WORD_COUNT then
      s.(message := AllFound, isGameOver := true)
    else
      s.(secretWord := if |winning| < |words| then words[|winning|] else "",
         guesses := [], currentGuess := "", message := NoMessage)
  }

  /** `startNewGame`, given the shuffled word list. */
  function NewGame(s: State, shuffled: seq<string>): State
  {
    NewRound(s.(gameWords := shuffled, winningWords := [], lives := INITIAL_LIVES, isGameOver := false),
             shuffled, [])
  }

  /** `handleCorrectGuess`: the word is resolved; the next round waits for the
    * timer. */
  function CorrectGuess(s: State): State
  {
    var newWinningWords := s.winningWords + [s.secretWord];
    s.(winningWords := newWinningWords, message := Congratulate,
       pending := AfterWin(s.gameWords, newWinningWords))
  }

  /** `handleIncorrectGuess(newGuesses)`. */
  function IncorrectGuess(s: State, newGuesses: seq<string>): State
  {
    var newLives := SpendLife(s.lives);
    var t := s.(lives := newLives);
    if AllGhosts(newLives) then
      t.(message := Lost, isGameOver := true)
    else if |newGuesses| == MAX_ATTEMPTS then
      var newWinningWords := s.winningWords + [s.secretWord];
      t.(message := Reveal(s.secretWord), winningWords := newWinningWords,
         pending := AfterRoundLoss(s.gameWords, newWinningWords))
    else
      t
  }

  /** `submitGuess`: record the guess, clear the input, and branch on whether
    * it is the secret word. */
  function Submit(s: State): State
  {
    var newGuesses := s.guesses + [s.currentGuess];
    var t := s.(guesses := newGuesses, currentGuess := "");
    if s.currentGuess == s.secretWord then CorrectGuess(t) else IncorrectGuess(t, newGuesses)
  }

  /** `handleKeyPress(key)` as the source has it: inert in a finished game or
    * without a secret word; otherwise it edits the input or submits it, which
    * may append the secret to the winning words, and it never replaces the
    * secret or the word list. */
  function KeyPressAsWritten(s: State, key: Key): (r: State)
    ensures s.isGameOver || s.secretWord == "" ==> r == s
    ensures r.secretWord == s.secretWord && r.gameWords == s.gameWords
    ensures r.winningWords == s.winningWords || r.winningWords == s.winningWords + [s.secretWord]
    ensures |s.currentGuess| <= |s.secretWord| ==> |r.currentGuess| <= |r.secretWord|
  {
    if s.isGameOver || s.secretWord == "" then s
    else
      match key
      case Enter =>
        if |s.currentGuess| != |s.secretWord| then s.(message := WrongLength(|s.secretWord|))
        else Submit(s)
      case Backspace =>
        s.(currentGuess := if s.currentGuess == "" then "" else s.currentGuess[..|s.currentGuess| - 1])
      case Letter(c) =>
        if |s.currentGuess| < |s.secretWord| then s.(currentGuess := s.currentGuess + [c]) else s
  }

  /** `handleKeyPress(key)`, ignoring keys while a round transition is pending. */
  function KeyPress(s: State, key: Key): State
  {
    if s.pending != Idle then s else KeyPressAsWritten(s, key)
  }

  /** The continuation scheduled by a correct guess. */
  function AdvanceWin(s: State): State
    requires s.pending.AfterWin?
  {
    var t := s.(pending := Idle);
    if |s.pending.winning| == WORD_COUNT then t.(message := AllFound, isGameOver := true)
    else NewRound(t, s.pending.words, s.pending.winning)
  }

  /** The continuation scheduled by a lost round. */
  function AdvanceRoundLoss(s: State): State
    requires s.pending.AfterRoundLoss?
  {
    NewRound(s.(pending := Idle), s.pending.words, s.pending.winning)
  }

  // ---------------------------------------------------------------------------
  // The session invariant

  /** A started session: the word list has as many words as WORDS, the resolved
    * words are its prefix, the input fits the secret word, every guess of the
    * round has the secret's length, an unfinished round has fewer than
    * MAX_ATTEMPTS guesses, a running game has a life left, and a finished one
    * is a full win or a spent pool. */
  ghost predicate Inv(s: State)
  {
    && |s.gameWords| == WORD_COUNT
    && |s.lives| == LIFE_COUNT
    && |s.winningWords| <= WORD_COUNT
    && s.winningWords == s.gameWords[..|s.winningWords|]
    && |s.currentGuess| <= |s.secretWord|
    && (forall i :: 0 <= i < |s.guesses| ==> |s.guesses[i]| == |s.secretWord|)
    && (!s.isGameOver ==> AliveCount(s.lives) > 0)
    && (s.isGameOver ==> s.pending == Idle && (|s.winningWords| == WORD_COUNT || AliveCount(s.lives) == 0))
    && match s.pending
       case Idle =>
         s.isGameOver
         || (|s.winningWords| < WORD_COUNT && s.secretWord == s.gameWords[|s.winningWords|]
             && |s.guesses| < MAX_ATTEMPTS)
       case AfterWin(words, winning) =>
         words == s.gameWords && winning == s.winningWords
         && |winning| > 0 && winning[|winning| - 1] == s.secretWord && s.currentGuess == ""
       case AfterRoundLoss(words, winning) =>
         words == s.gameWords && winning == s.winningWords
         && |winning| > 0 && winning[|winning| - 1] == s.secretWord && s.currentGuess == ""
  }

  lemma WordCount()
    ensures |WORDS| == WORD_COUNT
  {
  }

  // ---------------------------------------------------------------------------
  // Lives

  lemma {:induction false} AliveCountBounds(lives: seq<Life>)
    ensures AliveCount(lives) <= |lives|
    ensures AliveCount(lives) == 0 <==> AllGhosts(lives)
    ensures AliveCount(lives) == |lives| <==> forall i :: 0 <= i < |lives| ==> lives[i] == Alive
  {
    if lives != [] {
      var front := lives[..|lives| - 1];
      AliveCountBounds(front);
      assert forall i :: 0 <= i < |front| ==> front[i] == lives[i];
    }
  }

  lemma {:induction false} AliveCountGhosted(lives: seq<Life>, k: nat)
    requires k < |lives| && lives[k] == Alive
    ensures AliveCount(lives[k := Ghost]) == AliveCount(lives) - 1
  {
    var n := |lives| - 1;
    var after := lives[k := Ghost];
    if k < n {
      AliveCountGhosted(lives[..n], k);
      assert after[..n] == lives[..n][k := Ghost];
    } else {
      assert after[..n] == lives[..n];
    }
  }

  /** A wrong guess with a life left ghosts exactly the first alive marker,
    * leaves every other marker as it was, and costs exactly one life. */
  lemma SpendLifeSpendsOne(lives: seq<Life>)
    requires AliveCount(lives) > 0
    ensures var spent := SpendLife(lives);
            var k := IndexOf(lives, Alive);
            && 0 <= k < |lives| && lives[k] == Alive
            && (forall i :: 0 <= i < k ==> lives[i] == Ghost)
            && |spent| == |lives| && spent[k] == Ghost
            && (forall i :: 0 <= i < |lives| && i != k ==> spent[i] == lives[i])
            && AliveCount(spent) == AliveCount(lives) - 1
  {
    AliveCountBounds(lives);
    var k := IndexOf(lives, Alive);
    assert forall i :: 0 <= i < k ==> lives[..k][i] == lives[i];
    AliveCountGhosted(lives, k);
  }

  /** The alive count is the number of alive markers in the pool, and the
    * other markers are ghosts. */
  lemma {:induction false} AliveCountIsMultiplicity(lives: seq<Life>)
    ensures AliveCount(lives) == multiset(lives)[Alive]
    ensures multiset(lives)[Alive] + multiset(lives)[Ghost] == |lives|
  {
    if lives != [] {
      var n := |lives| - 1;
      AliveCountIsMultiplicity(lives[..n]);
      assert lives == lives[..n] + [lives[n]];
    }
  }

  /** `isLowOnLives`: four alive markers or fewer, that is all but at most
    * four of the markers are ghosts. */
  function IsLowOnLives(lives: seq<Life>): (low: bool)
    ensures low <==> multiset(lives)[Ghost] + 4 >= |lives|
  {
    AliveCountIsMultiplicity(lives);
    AliveCount(lives) <= 4
  }

  /** A fresh pool is not low on lives. */
  lemma FreshPoolNotLow()
    ensures !IsLowOnLives(INITIAL_LIVES)
  {
    AliveCountBounds(INITIAL_LIVES);
  }

  /** A wrong guess makes the pool low exactly when it leaves four alive
    * markers or fewer. */
  lemma LowOnLivesAfterWrongGuess(s: State)
    requires s.currentGuess != s.secretWord && AliveCount(s.lives) > 0
    ensures IsLowOnLives(Submit(s).lives) <==> AliveCount(s.lives) <= 5
  {
    SpendLifeSpendsOne(s.lives);
  }

  // ---------------------------------------------------------------------------
  // Properties of the transitions

  /** `startNewGame` brings all twenty lives back, empties the winning words,
    * clears game over and starts the first word of the shuffled list. */
  lemma NewGameStartsSession(s: State, shuffled: seq<string>)
    requires |shuffled| == WORD_COUNT
    ensures var t := NewGame(s, shuffled);
            && t.lives == INITIAL_LIVES && AliveCount(t.lives) == LIFE_COUNT
            && t.winningWords == [] && !t.isGameOver
            && t.gameWords == shuffled && t.secretWord == shuffled[0]
            && t.guesses == [] && t.currentGuess == "" && t.message == NoMessage
  {
    AliveCountBounds(INITIAL_LIVES);
  }

  /** `startNewRound` ends the session once every word is resolved, and
    * otherwise starts the next word with an empty round. */
  lemma NewRoundOutcome(s: State, words: seq<string>, winning: seq<string>)
    requires |words| == WORD_COUNT && |winning| <= WORD_COUNT
    ensures var t := NewRound(s, words, winning);
            if |winning| == WORD_COUNT then
              t == s.(message := AllFound, isGameOver := true)
            else
              && t.secretWord == words[|winning|] && t.guesses == [] && t.currentGuess == ""
              && t.message == NoMessage && t.isGameOver == s.isGameOver
              && t.lives == s.lives && t.winningWords == s.winningWords
              && t.gameWords == s.gameWords && t.pending == s.pending
  {
  }

  /** Terminal states, and states without a secret word, ignore every key. */
  lemma KeyPressIgnoredWhenInactive(s: State, key: Key)
    requires s.isGameOver || s.secretWord == "" || s.pending != Idle
    ensures KeyPress(s, key) == s
  {
  }

  /** ENTER on an input of the wrong length only sets the length message. */
  lemma WrongLengthOnlySetsMessage(s: State)
    requires !s.isGameOver && s.secretWord != "" && s.pending == Idle
    requires |s.currentGuess| != |s.secretWord|
    ensures KeyPress(s, Enter) == s.(message := WrongLength(|s.secretWord|))
  {
  }

  /** Typing appends a letter only while the input is shorter than the secret
    * word, and a letter typed into a full input changes nothing; BACKSPACE
    * drops exactly the last letter and leaves an empty input empty; neither
    * touches anything but the input. */
  lemma EditingKeys(s: State, c: char)
    requires !s.isGameOver && s.secretWord != "" && s.pending == Idle
    requires |s.currentGuess| <= |s.secretWord|
    ensures var t := KeyPress(s, Letter(c));
            && |t.currentGuess| <= |t.secretWord|
            && (t.currentGuess == s.currentGuess + [c] <==> |s.currentGuess| < |s.secretWord|)
            && (|s.currentGuess| == |s.secretWord| ==> t == s)
            && t == s.(currentGuess := t.currentGuess)
    ensures var t := KeyPress(s, Backspace);
            && t.currentGuess + (if s.currentGuess == "" then "" else [s.currentGuess[|s.currentGuess| - 1]])
               == s.currentGuess
            && t == s.(currentGuess := t.currentGuess)
  {
  }

  /** A submission records the input as a guess and clears the input. */
  lemma SubmitRecordsGuess(s: State)
    ensures Submit(s).guesses == s.guesses + [s.currentGuess]
    ensures Submit(s).currentGuess == ""
    ensures Submit(s).secretWord == s.secretWord
  {
  }

  /** A correct guess resolves the word exactly once and costs no life. */
  lemma CorrectGuessResolvesOnce(s: State)
    requires s.currentGuess == s.secretWord
    ensures var t := Submit(s);
            && t.winningWords == s.winningWords + [s.secretWord]
            && t.lives == s.lives && t.isGameOver == s.isGameOver
            && t.pending == AfterWin(s.gameWords, t.winningWords)
  {
  }

  /** A wrong guess spends exactly one life, the first alive one. */
  lemma IncorrectGuessSpendsOneLife(s: State)
    requires s.currentGuess != s.secretWord && AliveCount(s.lives) > 0
    ensures var t := Submit(s);
            var k := IndexOf(s.lives, Alive);
            && 0 <= k < |s.lives| && t.lives == s.lives[k := Ghost]
            && AliveCount(t.lives) == AliveCount(s.lives) - 1
  {
    SpendLifeSpendsOne(s.lives);
  }

  /** After a wrong guess: the session is lost exactly when the last life was
    * spent; otherwise the sixth guess of the round loses the round, which
    * resolves the word; otherwise play continues in the same round. */
  lemma IncorrectGuessOutcome(s: State)
    requires s.currentGuess != s.secretWord && AliveCount(s.lives) > 0
    ensures var t := Submit(s);
            && (t.isGameOver <==> s.isGameOver || AliveCount(s.lives) == 1)
            && (AliveCount(s.lives) > 1 && |s.guesses| + 1 == MAX_ATTEMPTS ==>
                  t.winningWords == s.winningWords + [s.secretWord]
                  && t.pending == AfterRoundLoss(s.gameWords, t.winningWords)
                  && t.message == Reveal(s.secretWord))
            && (AliveCount(s.lives) > 1 && |s.guesses| + 1 != MAX_ATTEMPTS ==>
                  t.winningWords == s.winningWords && t.pending == s.pending && t.isGameOver == s.isGameOver)
  {
    SpendLifeSpendsOne(s.lives);
    AliveCountBounds(SpendLife(s.lives));
  }

  /** A key press resolves at most one word, the current one, and only by
    * scheduling the transition to the next round. */
  lemma KeyPressResolvesAtMostOnce(s: State, key: Key)
    requires Inv(s)
    ensures var t := KeyPress(s, key);
            || (t.winningWords == s.winningWords)
            || (t.winningWords == s.winningWords + [s.secretWord] && s.pending == Idle && t.pending != Idle)
  {
  }

  // ---------------------------------------------------------------------------
  // The invariant is kept

  lemma NewGameEstablishesInv(s: State, shuffled: seq<string>)
    requires |shuffled| == WORD_COUNT && s.pending == Idle
    ensures Inv(NewGame(s, shuffled))
  {
    AliveCountBounds(INITIAL_LIVES);
  }

  lemma CorrectSubmitKeepsInv(s: State)
    requires Inv(s) && !s.isGameOver && s.pending == Idle
    requires s.currentGuess == s.secretWord
    ensures Inv(Submit(s))
  {
    var w := s.winningWords + [s.secretWord];
    assert w == s.gameWords[..|w|];
    var t := Submit(s);
    assert t.winningWords == w && t.pending == AfterWin(s.gameWords, w);
    assert forall i :: 0 <= i < |t.guesses| ==> |t.guesses[i]| == |t.secretWord|;
  }

  lemma IncorrectSubmitKeepsInv(s: State)
    requires Inv(s) && !s.isGameOver && s.pending == Idle
    requires |s.currentGuess| == |s.secretWord| && s.currentGuess != s.secretWord
    ensures Inv(Submit(s))
  {
    SpendLifeSpendsOne(s.lives);
    var lives := SpendLife(s.lives);
    AliveCountBounds(lives);
    var t := Submit(s);
    assert t.lives == lives && |lives| == LIFE_COUNT;
    assert forall i :: 0 <= i < |t.guesses| ==> |t.guesses[i]| == |t.secretWord|;
    if !AllGhosts(lives) && |s.guesses| + 1 == MAX_ATTEMPTS {
      var w := s.winningWords + [s.secretWord];
      assert w == s.gameWords[..|w|];
      assert t.winningWords == w && t.pending == AfterRoundLoss(s.gameWords, w);
    }
  }

  lemma KeyPressKeepsInv(s: State, key: Key)
    requires Inv(s)
    ensures Inv(KeyPress(s, key))
  {
    if !s.isGameOver && s.secretWord != "" && s.pending == Idle
       && key == Enter && |s.currentGuess| == |s.secretWord| {
      if s.currentGuess == s.secretWord {
        CorrectSubmitKeepsInv(s);
      } else {
        IncorrectSubmitKeepsInv(s);
      }
    }
  }

  lemma AdvanceWinKeepsInv(s: State)
    requires Inv(s) && s.pending.AfterWin?
    ensures Inv(AdvanceWin(s))
  {
  }

  lemma AdvanceRoundLossKeepsInv(s: State)
    requires Inv(s) && s.pending.AfterRoundLoss?
    ensures Inv(AdvanceRoundLoss(s))
  {
  }

  /** Only `startNewGame` replaces the word list: key presses and the timer
    * continuations keep it, so it stays the shuffle of WORDS drawn at the
    * start of the session. */
  lemma WordListKept(s: State, key: Key)
    ensures KeyPress(s, key).gameWords == s.gameWords
    ensures s.pending.AfterWin? ==> AdvanceWin(s).gameWords == s.gameWords
    ensures s.pending.AfterRoundLoss? ==> AdvanceRoundLoss(s).gameWords == s.gameWords
  {
  }

  /** A round ends on a correct guess or after MAX_ATTEMPTS guesses: in a
    * running round the history stays below MAX_ATTEMPTS. */
  lemma GuessHistoryBounded(s: State, key: Key)
    requires Inv(s) && !s.isGameOver && s.pending == Idle
    ensures var t := KeyPress(s, key);
            t.pending == Idle && !t.isGameOver ==> |t.guesses| < MAX_ATTEMPTS
  {
    KeyPressKeepsInv(s, key);
  }

  // ---------------------------------------------------------------------------
  // Key presses while a round transition is pending (as written)

  /** As written, a letter typed into a short input in a running game is
    * appended, whether or not a timer is pending. */
  lemma TypeLetterAsWritten(s: State, c: char)
    requires !s.isGameOver && s.secretWord != "" && |s.currentGuess| < |s.secretWord|
    ensures KeyPressAsWritten(s, Letter(c)) == s.(currentGuess := s.currentGuess + [c])
  {
  }

  /** As written, typing FALL and ENTER while FALL is the secret submits it
    * as a correct guess, whether or not a timer is pending. */
  lemma RetypeSecretAsWritten(s: State)
    requires !s.isGameOver && s.secretWord == "FALL" && s.currentGuess == ""
    ensures var t := KeyPressAsWritten(KeyPressAsWritten(KeyPressAsWritten(KeyPressAsWritten(
                       KeyPressAsWritten(s, Letter('F')), Letter('A')), Letter('L')), Letter('L')), Enter);
            && t.guesses == s.guesses + ["FALL"]
            && t.winningWords == s.winningWords + ["FALL"]
            && t.gameWords == s.gameWords
  {
    TypeLetterAsWritten(s, 'F');
    var s2 := s.(currentGuess := "F");
    TypeLetterAsWritten(s2, 'A');
    var s3 := s.(currentGuess := "FA");
    TypeLetterAsWritten(s3, 'L');
    var s4 := s.(currentGuess := "FAL");
    TypeLetterAsWritten(s4, 'L');
    var s5 := s.(currentGuess := "FALL");
    assert KeyPressAsWritten(s5, Enter) == CorrectGuess(s5.(guesses := s.guesses + ["FALL"], currentGuess := ""));
  }

  /** As written, the correct word typed again during the two-second
    * transition is accepted a second time: the same round is resolved twice
    * and the winning words stop being a prefix of the word list. */
  lemma DoubleResolutionAsWritten()
    ensures var s0 := INITIAL_STATE.(secretWord := "FALL", currentGuess := "FALL", gameWords := WORDS);
            var s1 := KeyPressAsWritten(s0, Enter);
            var s6 := KeyPressAsWritten(KeyPressAsWritten(KeyPressAsWritten(KeyPressAsWritten(
                        KeyPressAsWritten(s1, Letter('F')), Letter('A')), Letter('L')), Letter('L')), Enter);
            && Inv(s0)
            && s1.pending.AfterWin?
            && s6.winningWords == ["FALL", "FALL"]
            && !Inv(s6)
  {
    var s0 := INITIAL_STATE.(secretWord := "FALL", currentGuess := "FALL", gameWords := WORDS);
    AliveCountBounds(INITIAL_LIVES);
    assert Inv(s0);
    var s1 := KeyPressAsWritten(s0, Enter);
    assert s1 == CorrectGuess(s0.(guesses := ["FALL"], currentGuess := ""));
    assert s1.winningWords == ["FALL"] && s1.currentGuess == "" && !s1.isGameOver;
    RetypeSecretAsWritten(s1);
    assert WORDS[..2] == ["FALL", "ARBOR"];
  }

  /** The pool of a fresh game after `k` wrong guesses: each one ghosted the
    * first alive marker, so exactly `k` of the twenty lives are spent. */
  function SpentPool(k: nat): (lives: seq<Life>)
    requires k <= LIFE_COUNT
    ensures |lives| == LIFE_COUNT && AliveCount(lives) == LIFE_COUNT - k
  {
    if k == 0 then
      AliveCountBounds(INITIAL_LIVES);
      INITIAL_LIVES
    else
      var earlier := SpentPool(k - 1);
      SpendLifeSpendsOne(earlier);
      SpendLife(earlier)
  }

  /** The state before the sixth guess of a round at FALL, the first word,
    * with five wrong guesses made and a sixth wrong guess typed, over the
    * pool `lives`. */
  function SixthGuessPending(lives: seq<Life>): State
  {
    INITIAL_STATE.(secretWord := "FALL", guesses := ["TOWN", "TOWN", "TOWN", "TOWN", "TOWN"],
                   currentGuess := "FELL", gameWords := WORDS, lives := lives)
  }

  /** Over any pool with five lives spent, one per wrong guess so far (such
    * as `SpentPool(5)`, the pool a fresh game has after five wrong guesses),
    * that state satisfies `Inv`, and ENTER there loses the round: the sixth
    * life is spent, FALL is resolved and the round-loss continuation is
    * scheduled. */
  lemma SixthWrongGuessLosesRound(lives: seq<Life>)
    requires |lives| == LIFE_COUNT && AliveCount(lives) == LIFE_COUNT - 5
    ensures Inv(SixthGuessPending(lives))
    ensures var t := KeyPressAsWritten(SixthGuessPending(lives), Enter);
            && t.pending.AfterRoundLoss? && t.winningWords == ["FALL"]
            && t.secretWord == "FALL" && t.currentGuess == "" && !t.isGameOver
            && |t.guesses| == 6 && t.gameWords == WORDS
            && AliveCount(t.lives) == LIFE_COUNT - |t.guesses|
  {
    var s0 := SixthGuessPending(lives);
    assert Inv(s0);
    SpendLifeSpendsOne(lives);
    AliveCountBounds(SpendLife(lives));
    var g := s0.guesses + ["FELL"];
    assert KeyPressAsWritten(s0, Enter) == IncorrectGuess(s0.(guesses := g, currentGuess := ""), g);
  }

  /** As written, the same happens during the three-second delay after a lost
    * round: over any pool with five lives spent, the sixth wrong guess
    * resolves FALL, and retyping FALL before the next round starts resolves it
    * again on a seventh guess. */
  lemma RetypeAfterRoundLossAsWritten(lives: seq<Life>)
    requires |lives| == LIFE_COUNT && AliveCount(lives) == LIFE_COUNT - 5
    ensures var s0 := SixthGuessPending(lives);
            var s1 := KeyPressAsWritten(s0, Enter);
            var s6 := KeyPressAsWritten(KeyPressAsWritten(KeyPressAsWritten(KeyPressAsWritten(
                        KeyPressAsWritten(s1, Letter('F')), Letter('A')), Letter('L')), Letter('L')), Enter);
            && Inv(s0)
            && s1.pending.AfterRoundLoss? && s1.winningWords == ["FALL"]
            && |s6.guesses| == 7
            && s6.winningWords == ["FALL", "FALL"]
            && !Inv(s6)
  {
    SixthWrongGuessLosesRound(lives);
    RetypeSecretAsWritten(KeyPressAsWritten(SixthGuessPending(lives), Enter));
    assert WORDS[..2] == ["FALL", "ARBOR"];
  }
}
