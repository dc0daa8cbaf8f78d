/**
 The component as the player drives it: the three kinds of user action, each
 dispatched through the control that produces it. The letter buttons are
 disabled once the game is over, the hint button is rendered only while the
 game is on (and disabled once the clue is spent), and the New Game button is
 rendered only once the game is over.
 */
module Session {
  import opened Letters
  import opened Hangman

  /** One user action, with the value the outside world supplies for it. */
  datatype Event =
    | Press(letter: char)     // a letter button
    | Hint(rnd: real)         // the hint button; `rnd` is the value of `Math.random()`
    | Restart(word: string)   // the New Game button; `word` is the value of `getRandomWord()`

  predicate ValidEvent(e: Event) {
    e.Hint? ==> 0.0 <= e.rnd < 1.0
  }

  predicate ValidEvents(es: seq<Event>) {
    forall i :: 0 <= i < |es| ==> ValidEvent(es[i])
  }

  /**
   The wrong-guess counter never passes the loss threshold: it stays below the
   roster length (or at zero when the roster is empty).
   */
  predicate Bounded(s: State, n: nat) {
    s.wrong == 0 || s.wrong < n
  }

  /** Guessed letters and the word are drawn from `letters`. */
  predicate LettersWithin(s: State, letters: string) {
    Within(s.guessed, letters) && Within(s.word, letters)
  }

  /** The letters an event puts on the board are drawn from `letters`. */
  predicate EventWithin(e: Event, letters: string) {
    (e.Press? ==> e.letter in letters) && (e.Restart? ==> Within(e.word, letters))
  }

  predicate EventsWithin(es: seq<Event>, letters: string) {
    forall i :: 0 <= i < |es| ==> EventWithin(es[i], letters)
  }

  /** The clue only ever reveals a letter of the word, so guesses stay within any letters that hold the word. */
  lemma ClueKeepsLetters(s: State, n: nat, rnd: real, letters: string)
    requires 0.0 <= rnd < 1.0
    ensures LettersWithin(s, letters) ==> LettersWithin(UseClue(s, n, rnd), letters)
  {
    var r := UseClue(s, n, rnd);
    if r != s {
      var c := r.guessed[|s.guessed|];
      assert r.guessed == s.guessed + [c];
      WithinAppend(s.guessed, c, letters);
    }
  }

  /** One user action, through the control that carries it. */
  function Step(s: State, n: nat, e: Event): (r: State)
    requires ValidEvent(e)
    ensures IsOver(s, n) && !e.Restart? ==> r == s
    ensures !IsOver(s, n) && e.Restart? ==> r == s
    ensures IsOver(s, n) && e.Restart? ==> r == NewGame(e.word)
    ensures !IsOver(s, n) && e.Press? ==> r == Guess(s, e.letter)
    ensures e.Hint? ==> r == UseClue(s, n, e.rnd)
    ensures Consistent(s) ==> Consistent(r)
    ensures Bounded(s, n) ==> Bounded(r, n)
    ensures LettersWithin(s, Alphabet) && EventWithin(e, Alphabet) ==> LettersWithin(r, Alphabet)
  {
    match e
    case Press(c) =>
      if IsOver(s, n) then s
      else
        WithinAppend(s.guessed, c, Alphabet);
        Guess(s, c)
    case Hint(rnd) =>
      ClueKeepsLetters(s, n, rnd, Alphabet);
      UseClue(s, n, rnd)
    case Restart(w) =>
      if IsOver(s, n) then NewGame(w) else s
  }

  /** The state reached from `s` by the actions `es`, in order. */
  function Run(s: State, n: nat, es: seq<Event>): (r: State)
    requires ValidEvents(es)
    ensures Consistent(s) ==> Consistent(r)
    ensures Bounded(s, n) ==> Bounded(r, n)
    ensures LettersWithin(s, Alphabet) && EventsWithin(es, Alphabet) ==> LettersWithin(r, Alphabet)
    decreases |es|
  {
    if |es| == 0 then s
    else
      assert EventsWithin(es, Alphabet) ==> EventsWithin(es[1..], Alphabet) by {
        assert forall i :: 0 <= i < |es| - 1 ==> es[1..][i] == es[i + 1];
      }
      Run(Step(s, n, es[0]), n, es[1..])
  }

  /**
   Every state the player can bring about from the component's first render
   keeps the accounting, stays within the loss threshold, and, when the words
   are drawn from the alphabet, holds only keyboard letters.
   */
  lemma Reachable(w: string, n: nat, es: seq<Event>)
    requires ValidEvents(es)
    ensures Consistent(Run(NewGame(w), n, es))
    ensures Bounded(Run(NewGame(w), n, es), n)
    ensures Within(w, Alphabet) && EventsWithin(es, Alphabet) ==> LettersWithin(Run(NewGame(w), n, es), Alphabet)
  {
  }

  /** Pressing the letter buttons for `letters`, in order. */
  function Presses(letters: string): (es: seq<Event>)
    ensures |es| == |letters| && ValidEvents(es)
    ensures forall i :: 0 <= i < |letters| ==> es[i] == Press(letters[i])
  {
    if |letters| == 0 then [] else [Press(letters[0])] + Presses(letters[1..])
  }

  lemma RunFirst(s: State, n: nat, e: Event, es: seq<Event>)
    requires ValidEvent(e) && ValidEvents(es)
    ensures ValidEvents([e] + es)
    ensures Run(s, n, [e] + es) == Run(Step(s, n, e), n, es)
  {
    assert ([e] + es)[1..] == es;
  }

  /**
   Pressing only letters of the word never costs a life, and, unless the game
   was already lost, leaves every pressed letter guessed.
   */
  lemma {:induction false} HitsOnly(s: State, n: nat, xs: string)
    requires forall i :: 0 <= i < |xs| ==> xs[i] in s.word
    ensures var r := Run(s, n, Presses(xs));
            && r.word == s.word && r.wrong == s.wrong && r.clueUsed == s.clueUsed
            && (forall c :: c in s.guessed ==> c in r.guessed)
            && (!IsLost(s, n) ==> forall i :: 0 <= i < |xs| ==> xs[i] in r.guessed)
    decreases |xs|
  {
    if |xs| > 0 {
      var x := xs[0];
      var s' := Step(s, n, Press(x));
      assert Presses(xs) == [Press(x)] + Presses(xs[1..]);
      RunFirst(s, n, Press(x), Presses(xs[1..]));
      HitsOnly(s', n, xs[1..]);
      if IsWon(s) {
        assert x in s.guessed by {
          var i :| 0 <= i < |s.word| && s.word[i] == x;
        }
        forall i | 0 <= i < |xs| ensures xs[i] in s.guessed {
          var j :| 0 <= j < |s.word| && s.word[j] == xs[i];
        }
      }
      forall i | 1 <= i < |xs| ensures xs[i] == xs[1..][i - 1] { }
    }
  }

  /** A round where the player presses each letter of the word in turn is won without a wrong guess. */
  lemma PressingTheWordWins(w: string, n: nat)
    requires n >= 2
    ensures IsWon(Run(NewGame(w), n, Presses(w)))
    ensures Run(NewGame(w), n, Presses(w)).wrong == 0
  {
    HitsOnly(NewGame(w), n, w);
  }

  /** One press of a new letter that misses, short of the loss threshold, records it and costs one life. */
  lemma MissStep(s: State, n: nat, x: char)
    requires !IsWon(s) && s.wrong + 1 <= n - 1
    requires x !in s.guessed && x !in s.word
    ensures var r := Step(s, n, Press(x));
            r == s.(guessed := s.guessed + [x], wrong := s.wrong + 1) && !IsWon(r)
  {
    var i :| 0 <= i < |s.word| && s.word[i] !in s.guessed;
    assert s.word[i] !in s.guessed + [x];
  }

  /**
   Pressing distinct letters that all miss the word, while the game is on and
   stays short of the loss threshold, adds each to the guesses and one to the
   counter per letter.
   */
  lemma {:induction false} MissesOnly(s: State, n: nat, xs: string)
    requires !IsWon(s) && s.wrong + |xs| <= n - 1
    requires NoDup(s.guessed + xs)
    requires forall i :: 0 <= i < |xs| ==> xs[i] !in s.word
    ensures Run(s, n, Presses(xs)) == s.(guessed := s.guessed + xs, wrong := s.wrong + |xs|)
    decreases |xs|
  {
    var g := s.guessed;
    if |xs| == 0 {
      assert g + xs == g;
    } else {
      var x, rest := xs[0], xs[1..];
      ShiftFirst(g, xs);
      MissStep(s, n, x);
      var s' := Step(s, n, Press(x));
      assert forall i :: 0 <= i < |rest| ==> rest[i] == xs[i + 1];
      assert Presses(xs) == [Press(x)] + Presses(rest);
      RunFirst(s, n, Press(x), Presses(rest));
      MissesOnly(s', n, rest);
    }
  }

  /** Once the game is over, only New Game changes anything. */
  lemma {:induction false} OverIsTerminal(s: State, n: nat, es: seq<Event>)
    requires ValidEvents(es) && IsOver(s, n)
    requires forall i :: 0 <= i < |es| ==> !es[i].Restart?
    ensures Run(s, n, es) == s
    decreases |es|
  {
    if |es| > 0 {
      assert Step(s, n, es[0]) == s;
      OverIsTerminal(s, n, es[1..]);
    }
  }

  /**
   The click handler alone does not stop a guess after a loss: it is only the
   disabled button that does. Here a lost game takes a further miss and the
   counter passes the roster length.
   */
  lemma UngatedGuessPassesBound()
    ensures var s := State("go", "xyz", 3, false);
            IsLost(s, 4) && Bounded(s, 4) && !Bounded(Guess(s, 'q'), 4)
  {
  }
}
