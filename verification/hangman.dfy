/**
 The game itself: one state record, the values derived from it on every
 render, and the three handlers, each as one atomic state-to-state function.

 The roster of languages is outside the model; only its length `n` matters
 (it is both the number of "lives" shown and the loss threshold plus one).
 */
module Hangman {
  import opened Letters

  /** The four pieces of React state of the component. */
  datatype State = State(word: string, guessed: string, wrong: nat, clueUsed: bool)

  /** The life a used clue costs. */
  function ClueCost(clueUsed: bool): nat {
    if clueUsed then 1 else 0
  }

  /**
   The bookkeeping every state of a round keeps: no letter is guessed twice,
   and the wrong-guess counter is the number of guesses that miss the word,
   plus one once the clue has been spent. The counter then never exceeds the
   guesses plus the clue.
   */
  predicate Consistent(s: State)
    ensures Consistent(s) ==> s.wrong <= |s.guessed| + 1
  {
    && NoDup(s.guessed)
    && s.wrong == CountAbsent(s.guessed, s.word) + ClueCost(s.clueUsed)
  }

  /** In a consistent state the counter is the number of distinct missed letters, plus the clue. */
  lemma ConsistentCountsDistinctMisses(s: State)
    requires Consistent(s)
    ensures s.wrong == |AbsentSet(s.guessed, s.word)| + ClueCost(s.clueUsed)
  {
    CountAbsentIsSetSize(s.guessed, s.word);
  }

  // Derived values, recomputed from the state on every render.

  /** Every letter of the word has been guessed; an empty word counts as won. */
  predicate IsWon(s: State)
    ensures IsWon(s) <==> forall c :: c in s.word ==> c in s.guessed
    ensures |s.word| == 0 ==> IsWon(s)
  {
    forall i :: 0 <= i < |s.word| ==> s.word[i] in s.guessed
  }

  /**
   The counter has reached the roster length minus one. The comparison is on
   integers, so a roster of fewer than two languages is lost from the start.
   */
  predicate IsLost(s: State, n: nat)
    ensures IsLost(s, n) <==> n <= s.wrong + 1
    ensures n < 2 ==> IsLost(s, n)
  {
    s.wrong >= n - 1
  }

  /** Won or lost. A round that is not over has a non-empty word and at least two lives left. */
  predicate IsOver(s: State, n: nat)
    ensures !IsOver(s, n) ==> |s.word| > 0 && s.wrong + 2 <= n
  {
    IsWon(s) || IsLost(s, n)
  }

  /**
   The most recent guess exists and misses the word: exactly when the last
   guess added one to the count of misses.
   */
  predicate LastGuessIncorrect(s: State)
    ensures LastGuessIncorrect(s) <==>
      |s.guessed| > 0 && CountAbsent(s.guessed, s.word) == CountAbsent(s.guessed[..|s.guessed| - 1], s.word) + 1
  {
    |s.guessed| > 0 && s.guessed[|s.guessed| - 1] !in s.word
  }

  /** The word is won exactly when no position of it is still hidden. */
  lemma WonIffNothingUnguessed(s: State)
    ensures IsWon(s) <==> |Unguessed(s.word, s.guessed)| == 0
  {
    var pool := Unguessed(s.word, s.guessed);
    if !IsWon(s) {
      var i :| 0 <= i < |s.word| && s.word[i] !in s.guessed;
      assert s.word[i] in pool;
    }
    if |pool| > 0 {
      var c := pool[0];
      assert c in s.word && c !in s.guessed;
      var i :| 0 <= i < |s.word| && s.word[i] == c;
      assert !IsWon(s);
    }
  }

  /** A round that is not over still has a letter for the clue to reveal and at least two lives left. */
  lemma NotOverHasHiddenLetter(s: State, n: nat)
    requires !IsOver(s, n)
    ensures |Unguessed(s.word, s.guessed)| > 0 && s.wrong + 2 <= n
  {
    WonIffNothingUnguessed(s);
  }

  // Handlers.

  /**
   A letter button's click handler. It does not look at whether the game is
   over; only the button's `disabled` attribute does (see Session.Step).
   */
  function Guess(s: State, c: char): (r: State)
    ensures r == s <==> c in s.guessed
    ensures c !in s.guessed ==> r.guessed == s.guessed + [c]
    ensures c !in s.guessed ==> (r.wrong == s.wrong + 1 <==> c !in s.word)
    ensures r.wrong <= s.wrong + 1
    ensures r.word == s.word && r.clueUsed == s.clueUsed
    ensures c in r.guessed
    ensures r.wrong - s.wrong == CountAbsent(r.guessed, r.word) - CountAbsent(s.guessed, s.word)
    ensures Consistent(s) ==> Consistent(r)
  {
    if c in s.guessed then s
    else
      CountAbsentAppend(s.guessed, c, s.word);
      AppendNoDup(s.guessed, c);
      State(s.word, s.guessed + [c], s.wrong + (if c in s.word then 0 else 1), s.clueUsed)
  }

  /**
   The position `Math.floor(rnd * len)` picks, where `rnd` is a value of
   `Math.random()`, i.e. in [0, 1).
   */
  function ClueIndex(rnd: real, len: nat): (k: nat)
    requires 0.0 <= rnd < 1.0 && len > 0
    ensures k < len
  {
    var x := rnd * (len as real);
    assert 0.0 <= x < len as real by {
      assert rnd * (len as real) < 1.0 * (len as real);
    }
    x.Floor
  }

  /** Every candidate position is picked by some value of `Math.random()`. */
  lemma ClueIndexReaches(k: nat, len: nat)
    requires k < len
    ensures 0.0 <= (k as real) / (len as real) < 1.0
    ensures ClueIndex((k as real) / (len as real), len) == k
  {
    var rnd := (k as real) / (len as real);
    assert rnd * (len as real) == k as real;
  }

  /**
   The hint button's handler: unless the game is over or the clue is spent,
   reveal one not-yet-guessed letter of the word, at the cost of one life.
   `rnd` stands for the value `Math.random()` returns.
   */
  function UseClue(s: State, n: nat, rnd: real): (r: State)
    requires 0.0 <= rnd < 1.0
    ensures r == s <==> IsOver(s, n) || s.clueUsed
    ensures r != s ==> && r.clueUsed && r.wrong == s.wrong + 1
                       && |r.guessed| == |s.guessed| + 1 && r.guessed[..|s.guessed|] == s.guessed
                       && r.guessed[|s.guessed|] in s.word && r.guessed[|s.guessed|] !in s.guessed
    ensures r.word == s.word
    ensures CountAbsent(r.guessed, r.word) == CountAbsent(s.guessed, s.word)
    ensures Consistent(s) ==> Consistent(r)
  {
    if IsOver(s, n) || s.clueUsed then s
    else
      var pool := Unguessed(s.word, s.guessed);
      if |pool| == 0 then
        WonIffNothingUnguessed(s);
        s
      else
        var c := pool[ClueIndex(rnd, |pool|)];
        CountAbsentAppend(s.guessed, c, s.word);
        AppendNoDup(s.guessed, c);
        assert (s.guessed + [c])[..|s.guessed|] == s.guessed;
        State(s.word, s.guessed + [c], s.wrong + 1, true)
  }

  /**
   The New Game handler, and the component's initial state: `word` stands
   for the value `getRandomWord()` returns.
   */
  function NewGame(word: string): (r: State)
    ensures Consistent(r)
    ensures !LastGuessIncorrect(r)
  {
    State(word, [], 0, false)
  }

  /** A fresh round is still being played, unless its word is empty or the roster has fewer than two languages. */
  lemma NewGamePlaying(word: string, n: nat)
    ensures IsWon(NewGame(word)) <==> |word| == 0
    ensures IsLost(NewGame(word), n) <==> n < 2
  {
    if |word| > 0 {
      assert word[0] !in NewGame(word).guessed;
    }
  }

  /** A second clue in the same round changes nothing, whatever the first one did. */
  lemma ClueIsSingleUse(s: State, n: nat, rnd1: real, rnd2: real)
    requires 0.0 <= rnd1 < 1.0 && 0.0 <= rnd2 < 1.0
    ensures UseClue(UseClue(s, n, rnd1), n, rnd2) == UseClue(s, n, rnd1)
  {
  }

  /** Any letter of the word that is still hidden can be the one the clue reveals. */
  lemma ClueCanRevealAny(s: State, n: nat, c: char)
    requires !IsOver(s, n) && !s.clueUsed
    requires c in s.word && c !in s.guessed
    ensures exists rnd :: 0.0 <= rnd < 1.0 && UseClue(s, n, rnd).guessed == s.guessed + [c]
  {
    var pool := Unguessed(s.word, s.guessed);
    assert c in pool;
    var k :| 0 <= k < |pool| && pool[k] == c;
    ClueIndexReaches(k, |pool|);
    var rnd := (k as real) / (|pool| as real);
    assert UseClue(s, n, rnd).guessed == s.guessed + [c];
  }
}
