// The guess evaluator of src/utils/gameLogic.ts: a two-pass classification of
// every guess position as correct, present or absent against the secret word.
//
// `Evaluate` is the specification: position k is correct when it matches the
// secret exactly; otherwise it is present when the letter is still held in the
// pool of secret letters left over after the exact matches and after the loose
// matches of positions 0..k-1 (`PoolAfter`), and absent when it is not.
// `CheckGuess` is the loop-based algorithm proved equal to it.

module Evaluator {
  import opened Search

  datatype Verdict = Correct | Present | Absent

  /** One entry of the working copy of the secret's letters; a consumed letter
    * is blanked (the empty string in the source). */
  datatype Slot = Blank | Held(c: char)

  /** An entry of the `result` array, which starts out with holes. */
  datatype Option<T> = None | Some(value: T)

  /** Position i is an exact match. Beyond the secret's end the source compares
    * against `undefined`, which never matches. */
  predicate Exact(guess: string, secret: string, i: nat)
  {
    i < |guess| && i < |secret| && guess[i] == secret[i]
  }

  /** The secret's letters with every exactly matched one blanked: the state of
    * `secretLetters` after the first pass. */
  function FirstPool(guess: string, secret: string): (p: seq<Slot>)
    ensures |p| == |secret|
  {
    seq(|secret|, j requires 0 <= j < |secret| =>
      if Exact(guess, secret, j) then Blank else Held(secret[j]))
  }

  /** The state of `secretLetters` after the second pass has handled positions
    * 0..k-1: each non-exact position blanks the first slot still holding its
    * letter, if any. */
  function PoolAfter(guess: string, secret: string, k: nat): (p: seq<Slot>)
    requires k <= |guess|
    ensures |p| == |secret|
  {
    if k == 0 then FirstPool(guess, secret)
    else
      var p := PoolAfter(guess, secret, k - 1);
      var j := IndexOf(p, Held(guess[k - 1]));
      if Exact(guess, secret, k - 1) || j == -1 then p else p[j := Blank]
  }

  function VerdictAt(guess: string, secret: string, k: nat): Verdict
    requires k < |guess|
  {
    if Exact(guess, secret, k) then Correct
    else if Held(guess[k]) in PoolAfter(guess, secret, k) then Present
    else Absent
  }

  /** The classification `checkGuess(guess, secret)` returns. */
  function Evaluate(guess: string, secret: string): seq<Verdict>
  {
    seq(|guess|, k requires 0 <= k < |guess| => VerdictAt(guess, secret, k))
  }

  /** `checkGuess`: the first pass marks exact matches and blanks them in a
    * copy of the secret; the second classifies the remaining positions left to
    * right, blanking the slot each present letter consumes. */
  method CheckGuess(guess: string, secretWord: string) returns (r: seq<Verdict>)
    ensures |r| == |guess|
    ensures r == Evaluate(guess, secretWord)
  {
    var result := new Option<Verdict>[|guess|](_ => None);
    var secretLetters := new Slot[|secretWord|](j requires 0 <= j < |secretWord| => Held(secretWord[j]));
    MarkExact(guess, secretWord, result, secretLetters);
    MarkRest(guess, secretWord, result, secretLetters);
    r := seq(|guess|, k requires 0 <= k < |guess| reads result =>
      if result[k].Some? then result[k].value else Absent);
    assert forall k :: 0 <= k < |guess| ==> r[k] == Evaluate(guess, secretWord)[k];
  }

  /** The first pass of `checkGuess`, on its `result` and `secretLetters`
    * arrays. */
  method MarkExact(guess: string, secretWord: string, result: array<Option<Verdict>>, secretLetters: array<Slot>)
    requires result.Length == |guess| && secretLetters.Length == |secretWord|
    requires forall k :: 0 <= k < |guess| ==> result[k] == None
    requires forall j :: 0 <= j < |secretWord| ==> secretLetters[j] == Held(secretWord[j])
    modifies result, secretLetters
    ensures secretLetters[..] == FirstPool(guess, secretWord)
    ensures forall k :: 0 <= k < |guess| ==>
      result[k] == if Exact(guess, secretWord, k) then Some(Correct) else None
  {
    for i := 0 to |guess|
      invariant forall k :: 0 <= k < |guess| ==>
        result[k] == if k < i && Exact(guess, secretWord, k) then Some(Correct) else None
      invariant forall j :: 0 <= j < |secretWord| ==>
        secretLetters[j] == if j < i && Exact(guess, secretWord, j) then Blank else Held(secretWord[j])
    {
      if i < |secretWord| && guess[i] == secretWord[i] {
        result[i] := Some(Correct);
        secretLetters[i] := Blank;
      }
    }
    assert secretLetters[..] == FirstPool(guess, secretWord);
  }

  /** The second pass of `checkGuess`: every position still unmarked becomes
    * present, consuming the first slot holding its letter, or absent. */
  method MarkRest(guess: string, secretWord: string, result: array<Option<Verdict>>, secretLetters: array<Slot>)
    requires result.Length == |guess| && secretLetters.Length == |secretWord|
    requires secretLetters[..] == FirstPool(guess, secretWord)
    requires forall k :: 0 <= k < |guess| ==>
      result[k] == if Exact(guess, secretWord, k) then Some(Correct) else None
    modifies result, secretLetters
    ensures secretLetters[..] == PoolAfter(guess, secretWord, |guess|)
    ensures forall k :: 0 <= k < |guess| ==> result[k] == Some(VerdictAt(guess, secretWord, k))
  {
    for i := 0 to |guess|
      invariant secretLetters[..] == PoolAfter(guess, secretWord, i)
      invariant forall k :: 0 <= k < i ==> result[k] == Some(VerdictAt(guess, secretWord, k))
      invariant forall k :: i <= k < |guess| ==>
        result[k] == if Exact(guess, secretWord, k) then Some(Correct) else None
    {
      ClassifyAt(guess, secretWord, result, secretLetters, i);
    }
  }

  /** One iteration of the second pass: position `i` of `result`. */
  method ClassifyAt(guess: string, secretWord: string, result: array<Option<Verdict>>, secretLetters: array<Slot>, i: nat)
    requires i < result.Length == |guess| && secretLetters.Length == |secretWord|
    requires secretLetters[..] == PoolAfter(guess, secretWord, i)
    requires result[i] == if Exact(guess, secretWord, i) then Some(Correct) else None
    modifies result, secretLetters
    ensures secretLetters[..] == PoolAfter(guess, secretWord, i + 1)
    ensures result[..] == old(result[..])[i := Some(VerdictAt(guess, secretWord, i))]
  {
    SecondPassStep(guess, secretWord, i);
    ghost var pool := secretLetters[..];
    if result[i] == None {
      var index := IndexOf(secretLetters[..], Held(guess[i]));
      if index != -1 {
        result[i] := Some(Present);
        secretLetters[index] := Blank;
        assert secretLetters[..] == pool[index := Blank];
      } else {
        result[i] := Some(Absent);
      }
    }
  }

  /** One step of the second pass, as the loop performs it. */
  lemma SecondPassStep(guess: string, secret: string, i: nat)
    requires i < |guess|
    ensures var p := PoolAfter(guess, secret, i);
            var j := IndexOf(p, Held(guess[i]));
            && (Exact(guess, secret, i) ==> PoolAfter(guess, secret, i + 1) == p && VerdictAt(guess, secret, i) == Correct)
            && (!Exact(guess, secret, i) && j != -1 ==>
                  PoolAfter(guess, secret, i + 1) == p[j := Blank] && VerdictAt(guess, secret, i) == Present)
            && (!Exact(guess, secret, i) && j == -1 ==>
                  PoolAfter(guess, secret, i + 1) == p && VerdictAt(guess, secret, i) == Absent)
  {
  }

  // ---------------------------------------------------------------------------
  // Properties of the classification

  /** Correct exactly at the exact matches: the second pass never says correct. */
  lemma CorrectIffExact(guess: string, secret: string, i: nat)
    requires i < |guess|
    ensures Evaluate(guess, secret)[i] == Correct <==> Exact(guess, secret, i)
    ensures !Exact(guess, secret, i) ==> Evaluate(guess, secret)[i] in {Present, Absent}
  {
  }

  /** A guess compared with itself is correct everywhere. */
  lemma SelfGuessAllCorrect(word: string)
    ensures forall i :: 0 <= i < |word| ==> Evaluate(word, word)[i] == Correct
  {
  }

  /** Every slot of the pool is blank or still holds the secret's own letter. */
  lemma {:induction false} PoolHoldsSecretLetters(guess: string, secret: string, k: nat)
    requires k <= |guess|
    ensures forall j :: 0 <= j < |secret| ==>
      PoolAfter(guess, secret, k)[j] == Blank || PoolAfter(guess, secret, k)[j] == Held(secret[j])
  {
    if k > 0 {
      PoolHoldsSecretLetters(guess, secret, k - 1);
    }
  }

  /** A guess letter that does not occur in the secret is absent. */
  lemma AbsentWhenNotInSecret(guess: string, secret: string, i: nat)
    requires i < |guess| && guess[i] !in secret
    ensures Evaluate(guess, secret)[i] == Absent
  {
    PoolHoldsSecretLetters(guess, secret, i);
  }

  // ---------------------------------------------------------------------------
  // Letter counts

  function Min(a: int, b: int): int { if a <= b then a else b }

  /** Number of times `c` occurs in `s`. */
  function Occurrences(s: string, c: char): nat
  {
    multiset(s)[c]
  }

  /** Number of copies of `c` left in the pool after the first pass. */
  function Unmatched(guess: string, secret: string, c: char): nat
  {
    multiset(FirstPool(guess, secret))[Held(c)]
  }

  /** Exact matches of letter `c` among guess positions 0..k-1. */
  function ExactCount(guess: string, secret: string, c: char, k: nat): nat
    requires k <= |guess|
  {
    if k == 0 then 0
    else ExactCount(guess, secret, c, k - 1)
         + if Exact(guess, secret, k - 1) && guess[k - 1] == c then 1 else 0
  }

  /** Non-exact positions holding letter `c` among guess positions 0..k-1. */
  function LooseCount(guess: string, secret: string, c: char, k: nat): nat
    requires k <= |guess|
  {
    if k == 0 then 0
    else LooseCount(guess, secret, c, k - 1)
         + if !Exact(guess, secret, k - 1) && guess[k - 1] == c then 1 else 0
  }

  /** Positions holding letter `c` classified present among 0..k-1. */
  function PresentCount(guess: string, secret: string, c: char, k: nat): nat
    requires k <= |guess|
  {
    if k == 0 then 0
    else PresentCount(guess, secret, c, k - 1)
         + if guess[k - 1] == c && VerdictAt(guess, secret, k - 1) == Present then 1 else 0
  }

  /** Positions holding letter `c` that a classification `r` credits (correct
    * or present) among 0..k-1. */
  function Credited(guess: string, r: seq<Verdict>, c: char, k: nat): nat
    requires k <= |guess| <= |r|
  {
    if k == 0 then 0
    else Credited(guess, r, c, k - 1)
         + if guess[k - 1] == c && r[k - 1] != Absent then 1 else 0
  }

  lemma {:induction false} GuessLettersSplit(guess: string, secret: string, c: char, k: nat)
    requires k <= |guess|
    ensures Occurrences(guess[..k], c) == ExactCount(guess, secret, c, k) + LooseCount(guess, secret, c, k)
  {
    if k > 0 {
      GuessLettersSplit(guess, secret, c, k - 1);
      assert guess[..k] == guess[..k - 1] + [guess[k - 1]];
    }
  }

  /** Exact matches stop beyond the secret's end. */
  lemma {:induction false} ExactCountBeyondSecret(guess: string, secret: string, c: char, k: nat)
    requires |secret| <= k <= |guess|
    ensures ExactCount(guess, secret, c, k) == ExactCount(guess, secret, c, |secret|)
  {
    if k > |secret| {
      ExactCountBeyondSecret(guess, secret, c, k - 1);
    }
  }

  lemma {:induction false} FirstPoolPrefix(guess: string, secret: string, c: char, n: nat)
    requires n <= |secret|
    ensures multiset(FirstPool(guess, secret)[..n])[Held(c)]
            + ExactCount(guess, secret, c, Min(n, |guess|))
            == Occurrences(secret[..n], c)
  {
    if n > 0 {
      FirstPoolPrefix(guess, secret, c, n - 1);
      var p := FirstPool(guess, secret);
      assert p[..n] == p[..n - 1] + [p[n - 1]];
      assert secret[..n] == secret[..n - 1] + [secret[n - 1]];
      assert multiset(p[..n])[Held(c)]
             == multiset(p[..n - 1])[Held(c)] + if p[n - 1] == Held(c) then 1 else 0;
      assert Occurrences(secret[..n], c)
             == Occurrences(secret[..n - 1], c) + if secret[n - 1] == c then 1 else 0;
      if n <= |guess| {
        assert ExactCount(guess, secret, c, n)
               == ExactCount(guess, secret, c, n - 1) + if Exact(guess, secret, n - 1) && guess[n - 1] == c then 1 else 0;
      } else {
        assert Min(n - 1, |guess|) == Min(n, |guess|);
      }
    }
  }

  /** The pool after the first pass holds every copy of `c` in the secret
    * except those consumed by exact matches. */
  lemma UnmatchedCount(guess: string, secret: string, c: char)
    ensures Unmatched(guess, secret, c) + ExactCount(guess, secret, c, |guess|) == Occurrences(secret, c)
  {
    FirstPoolPrefix(guess, secret, c, |secret|);
    assert FirstPool(guess, secret)[..|secret|] == FirstPool(guess, secret);
    assert secret[..|secret|] == secret;
    if |secret| < |guess| {
      ExactCountBeyondSecret(guess, secret, c, |guess|);
    }
  }

  /** Blanking a slot removes exactly that slot's letter from the pool. */
  lemma BlankRemovesOne(p: seq<Slot>, j: nat, c: char)
    requires j < |p|
    ensures multiset(p[j := Blank])[Held(c)] == multiset(p)[Held(c)] - if p[j] == Held(c) then 1 else 0
  {
    assert p == p[..j] + [p[j]] + p[j + 1..];
    assert p[j := Blank] == p[..j] + [Blank] + p[j + 1..];
  }

  /** The second pass credits letter `c` to the first `Unmatched` loose
    * occurrences and consumes one pool copy per credit. */
  lemma {:induction false} SecondPassInvariant(guess: string, secret: string, c: char, k: nat)
    requires k <= |guess|
    ensures PresentCount(guess, secret, c, k) == Min(LooseCount(guess, secret, c, k), Unmatched(guess, secret, c))
    ensures multiset(PoolAfter(guess, secret, k))[Held(c)]
            == Unmatched(guess, secret, c) - PresentCount(guess, secret, c, k)
  {
    if k > 0 {
      var i := k - 1;
      SecondPassInvariant(guess, secret, c, i);
      var p := PoolAfter(guess, secret, i);
      var j := IndexOf(p, Held(guess[i]));
      if Exact(guess, secret, i) {
        assert VerdictAt(guess, secret, i) == Correct;
      } else if guess[i] != c {
        if j != -1 {
          BlankRemovesOne(p, j, c);
        }
      } else if j != -1 {
        BlankRemovesOne(p, j, c);
        assert multiset(p)[Held(c)] > 0;
        assert VerdictAt(guess, secret, i) == Present;
      } else {
        assert multiset(p)[Held(c)] == 0;
        assert VerdictAt(guess, secret, i) == Absent;
      }
    }
  }

  /** Left to right: a non-exact occurrence of a letter is present exactly when
    * fewer earlier non-exact occurrences of it exist than unconsumed copies of
    * it in the secret; so earlier occurrences get present and later ones absent. */
  lemma PresentLeftToRight(guess: string, secret: string, i: nat)
    requires i < |guess| && !Exact(guess, secret, i)
    ensures Evaluate(guess, secret)[i] == Present
            <==> LooseCount(guess, secret, guess[i], i) < Unmatched(guess, secret, guess[i])
  {
    SecondPassInvariant(guess, secret, guess[i], i);
    var p := PoolAfter(guess, secret, i);
    assert Held(guess[i]) in p <==> Held(guess[i]) in multiset(p);
  }

  lemma {:induction false} LooseCountMonotone(guess: string, secret: string, c: char, a: nat, b: nat)
    requires a <= b <= |guess|
    ensures LooseCount(guess, secret, c, a) <= LooseCount(guess, secret, c, b)
  {
    if a < b {
      LooseCountMonotone(guess, secret, c, a, b - 1);
    }
  }

  /** Among the non-exact occurrences of one letter, present never follows
    * absent: if a later one is present, so is every earlier one. */
  lemma PresentBeforeAbsent(guess: string, secret: string, i: nat, j: nat)
    requires i < j < |guess| && guess[i] == guess[j]
    requires !Exact(guess, secret, i) && !Exact(guess, secret, j)
    requires Evaluate(guess, secret)[j] == Present
    ensures Evaluate(guess, secret)[i] == Present
  {
    PresentLeftToRight(guess, secret, i);
    PresentLeftToRight(guess, secret, j);
    LooseCountMonotone(guess, secret, guess[i], i + 1, j);
  }

  /** Credits of the classification: exact matches plus present positions. */
  lemma {:induction false} CreditedSplit(guess: string, secret: string, c: char, k: nat)
    requires k <= |guess|
    ensures Credited(guess, Evaluate(guess, secret), c, k)
            == ExactCount(guess, secret, c, k) + PresentCount(guess, secret, c, k)
  {
    if k > 0 {
      CreditedSplit(guess, secret, c, k - 1);
    }
  }

  /** For every letter, the correct plus present positions holding it number
    * min(its count in the guess, its count in the secret): every credit
    * consumes a copy in the secret, and a copy is never credited twice. */
  lemma LetterCredits(guess: string, secret: string, c: char)
    ensures Credited(guess, Evaluate(guess, secret), c, |guess|)
            == Min(Occurrences(guess, c), Occurrences(secret, c))
    ensures Credited(guess, Evaluate(guess, secret), c, |guess|) <= Occurrences(secret, c)
  {
    CreditedSplit(guess, secret, c, |guess|);
    SecondPassInvariant(guess, secret, c, |guess|);
    GuessLettersSplit(guess, secret, c, |guess|);
    assert guess[..|guess|] == guess;
    UnmatchedCount(guess, secret, c);
  }

  /** The number of correct positions is the number of exact matches. */
  lemma CorrectCountIsExactCount(guess: string, secret: string)
    ensures |set i | 0 <= i < |guess| && Evaluate(guess, secret)[i] == Correct|
            == |set i | 0 <= i < |guess| && Exact(guess, secret, i)|
  {
    var r := Evaluate(guess, secret);
    assert (set i | 0 <= i < |guess| && r[i] == Correct) == (set i | 0 <= i < |guess| && Exact(guess, secret, i));
  }

  /** A worked example with a repeated letter. */
  lemma ExampleApple()
    ensures Evaluate("APPLE", "APPLY") == [Correct, Correct, Correct, Correct, Absent]
  {
    assert !Exact("APPLE", "APPLY", 4);
    assert PoolAfter("APPLE", "APPLY", 4) == [Blank, Blank, Blank, Blank, Held('Y')];
  }
}
