// The key colouring of src/components/Keyboard.tsx: `getKeyStatus` folds the
// evaluator's classification over every guess of the round into the best
// status seen for one key, ranked correct > present > absent > unmarked.
// For each guess only the position where the key FIRST occurs is consulted
// (`guess.indexOf(key)`, a substring search, since the keyboard also asks about
// its ENTER and BACKSPACE keys).

module Keyboard {
  import opened Search
  import opened Evaluator

  /** The empty string of the source is `Unmarked`. */
  datatype KeyStatus = Unmarked | KeyAbsent | KeyPresent | KeyCorrect

  function Rank(status: KeyStatus): nat
  {
    match status
    case Unmarked => 0
    case KeyAbsent => 1
    case KeyPresent => 2
    case KeyCorrect => 3
  }

  function Shade(v: Verdict): KeyStatus
  {
    match v
    case Correct => KeyCorrect
    case Present => KeyPresent
    case Absent => KeyAbsent
  }

  /** What one guess says about `key`: the classification at the key's first
    * occurrence, or nothing when the key does not occur. (An index past the
    * classification's end, possible only for the empty key in the empty
    * guess, reads `undefined` in the source and matches no status.) */
  function Hit(guess: string, secretWord: string, key: string): KeyStatus
  {
    var index := IndexOfSub(guess, key);
    if index == -1 || index >= |guess| then Unmarked
    else Shade(Evaluate(guess, secretWord)[index])
  }

  function Better(a: KeyStatus, b: KeyStatus): KeyStatus
  {
    if Rank(a) >= Rank(b) then a else b
  }

  /** The status of `key` after the guesses, folded from the first guess on. */
  function StatusOver(guesses: seq<string>, secretWord: string, key: string): KeyStatus
  {
    if guesses == [] then Unmarked
    else Better(StatusOver(guesses[..|guesses| - 1], secretWord, key),
                Hit(guesses[|guesses| - 1], secretWord, key))
  }

  /** `getKeyStatus`: returns correct as soon as a guess shows the key correct;
    * otherwise a present upgrades the status and an absent only fills an
    * unmarked one. */
  method GetKeyStatus(guesses: seq<string>, secretWord: string, key: string) returns (status: KeyStatus)
    ensures status == StatusOver(guesses, secretWord, key)
  {
    status := Unmarked;
    for i := 0 to |guesses|
      invariant status == StatusOver(guesses[..i], secretWord, key)
      invariant status != KeyCorrect
    {
      var guess := guesses[i];
      var result := CheckGuess(guess, secretWord);
      var index := IndexOfSub(guess, key);
      assert guesses[..i + 1][..i] == guesses[..i];
      if index != -1 {
        if index < |result| && result[index] == Correct {
          StatusIsMaximum(guesses, secretWord, key);
          return KeyCorrect;
        }
        if index < |result| && result[index] == Present {
          status := KeyPresent;
        }
        if index < |result| && result[index] == Absent && status == Unmarked {
          status := KeyAbsent;
        }
      }
    }
    assert guesses[..|guesses|] == guesses;
  }

  // ---------------------------------------------------------------------------
  // The fold is the maximum

  /** The status is at least as good as every guess's hit, and is one of them
    * unless it is unmarked. */
  lemma {:induction false} StatusIsMaximum(guesses: seq<string>, secretWord: string, key: string)
    ensures forall i :: 0 <= i < |guesses| ==>
      Rank(Hit(guesses[i], secretWord, key)) <= Rank(StatusOver(guesses, secretWord, key))
    ensures StatusOver(guesses, secretWord, key) == Unmarked
      || exists i :: 0 <= i < |guesses| && StatusOver(guesses, secretWord, key) == Hit(guesses[i], secretWord, key)
  {
    if guesses != [] {
      var n := |guesses| - 1;
      var front := guesses[..n];
      StatusIsMaximum(front, secretWord, key);
      assert forall i :: 0 <= i < n ==> front[i] == guesses[i];
      var st := StatusOver(front, secretWord, key);
      if st != Unmarked && Rank(st) >= Rank(Hit(guesses[n], secretWord, key)) {
        var i :| 0 <= i < n && st == Hit(front[i], secretWord, key);
        assert StatusOver(guesses, secretWord, key) == Hit(guesses[i], secretWord, key);
      }
    }
  }

  /** Correct exactly when some guess shows the key correct at its first
    * occurrence. */
  lemma StatusCorrectIff(guesses: seq<string>, secretWord: string, key: string)
    ensures StatusOver(guesses, secretWord, key) == KeyCorrect
      <==> exists i :: 0 <= i < |guesses| && Hit(guesses[i], secretWord, key) == KeyCorrect
  {
    StatusIsMaximum(guesses, secretWord, key);
  }

  /** Otherwise present exactly when some guess shows it present there. */
  lemma StatusPresentIff(guesses: seq<string>, secretWord: string, key: string)
    ensures StatusOver(guesses, secretWord, key) == KeyPresent
      <==> (forall i :: 0 <= i < |guesses| ==> Hit(guesses[i], secretWord, key) != KeyCorrect)
           && exists i :: 0 <= i < |guesses| && Hit(guesses[i], secretWord, key) == KeyPresent
  {
    StatusIsMaximum(guesses, secretWord, key);
  }

  /** Absent exactly when the key occurs in some guess and every first
    * occurrence of it is absent. */
  lemma StatusAbsentIff(guesses: seq<string>, secretWord: string, key: string)
    ensures StatusOver(guesses, secretWord, key) == KeyAbsent
      <==> (forall i :: 0 <= i < |guesses| ==> Hit(guesses[i], secretWord, key) in {Unmarked, KeyAbsent})
           && exists i :: 0 <= i < |guesses| && Hit(guesses[i], secretWord, key) == KeyAbsent
  {
    StatusIsMaximum(guesses, secretWord, key);
  }

  /** Unmarked exactly when no guess says anything about the key; for a
    * non-empty key that is when the key occurs in none of the guesses. */
  lemma StatusUnmarkedIff(guesses: seq<string>, secretWord: string, key: string)
    requires key != ""
    ensures StatusOver(guesses, secretWord, key) == Unmarked
      <==> forall i, p :: 0 <= i < |guesses| && 0 <= p <= |guesses[i]| ==> !OccursAt(guesses[i], key, p)
  {
    StatusIsMaximum(guesses, secretWord, key);
    forall i | 0 <= i < |guesses|
      ensures Hit(guesses[i], secretWord, key) == Unmarked
              <==> forall p :: 0 <= p <= |guesses[i]| ==> !OccursAt(guesses[i], key, p)
    {
      HitUnmarkedIff(guesses[i], secretWord, key);
    }
  }

  lemma HitUnmarkedIff(guess: string, secretWord: string, key: string)
    requires key != ""
    ensures Hit(guess, secretWord, key) == Unmarked
            <==> forall p :: 0 <= p <= |guess| ==> !OccursAt(guess, key, p)
  {
    var index := IndexOfSub(guess, key);
    if index != -1 {
      assert index < |guess|;
      match Evaluate(guess, secretWord)[index]
      case Correct =>
      case Present =>
      case Absent =>
    }
  }

  /** The status does not depend on the order of the guesses. */
  lemma StatusOrderIndependent(guesses: seq<string>, others: seq<string>, secretWord: string, key: string)
    requires multiset(guesses) == multiset(others)
    ensures StatusOver(guesses, secretWord, key) == StatusOver(others, secretWord, key)
  {
    StatusIsMaximum(guesses, secretWord, key);
    StatusIsMaximum(others, secretWord, key);
    var a := StatusOver(guesses, secretWord, key);
    var b := StatusOver(others, secretWord, key);
    if a != Unmarked {
      var i :| 0 <= i < |guesses| && a == Hit(guesses[i], secretWord, key);
      assert guesses[i] in multiset(others);
      var j :| 0 <= j < |others| && others[j] == guesses[i];
      assert Rank(a) <= Rank(b);
    }
    if b != Unmarked {
      var j :| 0 <= j < |others| && b == Hit(others[j], secretWord, key);
      assert others[j] in multiset(guesses);
      var i :| 0 <= i < |guesses| && guesses[i] == others[j];
      assert Rank(b) <= Rank(a);
    }
  }

  /** For a letter key the hit is the classification at the letter's first
    * position in the guess. */
  lemma LetterHitIsFirstOccurrence(guess: string, secretWord: string, c: char)
    requires c in guess
    ensures Hit(guess, secretWord, [c]) == Shade(Evaluate(guess, secretWord)[IndexOf(guess, c)])
  {
    IndexOfLetter(guess, c);
  }

  /** Only the first occurrence counts: with secret FEST the guess SSST shows
    * S correct at position 2, yet the S key is coloured absent because its
    * first occurrence, position 0, is absent. */
  lemma LaterCorrectOccurrenceIgnored()
    ensures Evaluate("SSST", "FEST")[2] == Correct
    ensures StatusOver(["SSST"], "FEST", "S") == KeyAbsent
  {
    assert PoolAfter("SSST", "FEST", 0) == [Held('F'), Held('E'), Blank, Blank];
    assert Evaluate("SSST", "FEST")[0] == Absent;
    LetterHitIsFirstOccurrence("SSST", "FEST", 'S');
    assert ["SSST"][..0] == [];
  }
}
