/**
 Letters and sequences of letters: the alphabet the on-screen keyboard offers,
 duplicate-freedom, and the two counts the game is built on (guesses that miss
 the word, and positions of the word still hidden).

 Letters are single characters throughout; JavaScript's `includes` on a string
 with a one-character argument is then plain membership.
 */
module Letters {

  /** The keyboard's letters, in the order the buttons are laid out. */
  const Alphabet: string := "abcdefghijklmnopqrstuvwxyz"

  predicate NoDup(xs: string) {
    forall i, j :: 0 <= i < j < |xs| ==> xs[i] != xs[j]
  }

  /** Every letter of `xs` is one of `letters`. */
  predicate Within(xs: string, letters: string) {
    forall i :: 0 <= i < |xs| ==> xs[i] in letters
  }

  /** The number of entries of `guesses` that do not occur in `word`. */
  function CountAbsent(guesses: string, word: string): (k: nat)
    ensures k <= |guesses|
    ensures k == 0 <==> forall i :: 0 <= i < |guesses| ==> guesses[i] in word
    ensures k == |guesses| <==> forall i :: 0 <= i < |guesses| ==> guesses[i] !in word
  {
    if |guesses| == 0 then 0
    else
      var front := guesses[..|guesses| - 1];
      assert forall i :: 0 <= i < |front| ==> front[i] == guesses[i];
      CountAbsent(front, word) + (if guesses[|guesses| - 1] in word then 0 else 1)
  }

  /** The set of distinct guesses that miss the word. */
  function AbsentSet(guesses: string, word: string): set<char> {
    set c | c in guesses && c !in word
  }

  /**
   The letters of `word`, position by position and keeping repeats, that are
   not yet among `guessed` (a filter over the word, so order is the word's).
   */
  function Unguessed(word: string, guessed: string): (pool: string)
    ensures |pool| <= |word|
    ensures forall c :: c in pool <==> c in word && c !in guessed
    ensures forall c :: multiset(pool)[c] == if c in guessed then 0 else multiset(word)[c]
  {
    if |word| == 0 then []
    else
      assert word == [word[0]] + word[1..];
      (if word[0] in guessed then [] else [word[0]]) + Unguessed(word[1..], guessed)
  }

  /** Appending a letter counts it as a miss exactly when the word lacks it. */
  lemma {:induction false} CountAbsentAppend(guesses: string, c: char, word: string)
    ensures CountAbsent(guesses + [c], word) == CountAbsent(guesses, word) + (if c in word then 0 else 1)
  {
    assert (guesses + [c])[..|guesses|] == guesses;
  }

  /** A sequence with a letter appended is duplicate-free exactly when the sequence was and lacked the letter. */
  lemma AppendNoDup(xs: string, c: char)
    ensures NoDup(xs + [c]) <==> NoDup(xs) && c !in xs
  {
    var ys := xs + [c];
    if NoDup(ys) {
      forall i, j | 0 <= i < j < |xs| ensures xs[i] != xs[j] {
        assert ys[i] == xs[i] && ys[j] == xs[j];
      }
      forall i | 0 <= i < |xs| ensures xs[i] != c {
        assert ys[i] == xs[i] && ys[|xs|] == c;
      }
    }
    if NoDup(xs) && c !in xs {
      forall i, j | 0 <= i < j < |ys| ensures ys[i] != ys[j] {
        if j == |xs| {
          assert ys[i] == xs[i];
        }
      }
    }
  }

  /** Moving the first letter of `xs` to the end of `g` keeps the concatenation, and that letter was not in `g` when there are no duplicates. */
  lemma ShiftFirst(g: string, xs: string)
    requires |xs| > 0
    ensures (g + [xs[0]]) + xs[1..] == g + xs
    ensures NoDup(g + xs) ==> xs[0] !in g
  {
    var ys := g + xs;
    assert (g + [xs[0]]) + xs[1..] == ys;
    if NoDup(ys) {
      forall i | 0 <= i < |g| ensures g[i] != xs[0] {
        assert g[i] == ys[i] && xs[0] == ys[|g|];
      }
    }
  }

  /** A sequence with a letter appended is drawn from `letters` exactly when both parts are. */
  lemma WithinAppend(xs: string, c: char, letters: string)
    ensures Within(xs + [c], letters) <==> Within(xs, letters) && c in letters
  {
    var ys := xs + [c];
    assert ys[|xs|] == c;
    assert forall i :: 0 <= i < |xs| ==> ys[i] == xs[i];
  }

  /** For a duplicate-free sequence of guesses, counting misses is counting distinct missed letters. */
  lemma {:induction false} CountAbsentIsSetSize(guesses: string, word: string)
    requires NoDup(guesses)
    ensures CountAbsent(guesses, word) == |AbsentSet(guesses, word)|
  {
    if |guesses| == 0 {
      assert AbsentSet(guesses, word) == {};
    } else {
      var front := guesses[..|guesses| - 1];
      var x := guesses[|guesses| - 1];
      assert guesses == front + [x];
      assert NoDup(front);
      assert x !in front by {
        forall i | 0 <= i < |front| ensures front[i] != x {
          assert front[i] == guesses[i];
        }
      }
      CountAbsentIsSetSize(front, word);
      CountAbsentAppend(front, x, word);
      if x in word {
        assert AbsentSet(guesses, word) == AbsentSet(front, word);
      } else {
        assert AbsentSet(guesses, word) == AbsentSet(front, word) + {x};
        assert x !in AbsentSet(front, word);
      }
    }
  }

  /** Each letter of the alphabet is the character that many places after 'a'. */
  lemma AlphabetIsConsecutive()
    ensures |Alphabet| == 26
    ensures forall i :: 0 <= i < |Alphabet| ==> Alphabet[i] as int == 'a' as int + i
  {
  }

  lemma AlphabetNoDup()
    ensures NoDup(Alphabet)
  {
    AlphabetIsConsecutive();
  }
}
