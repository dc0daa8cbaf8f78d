/**
 Concrete rounds with a roster of eight languages, so the loss threshold is
 seven wrong guesses.
 */
module Scenarios {
  import opened Letters
  import opened Hangman
  import opened Session
  import opened Display

  const Roster: nat := 8

  /** Guessing r, e, a, c, t on "react" wins without a wrong guess. */
  lemma AllHitsWin()
    ensures var s := Run(NewGame("react"), Roster, Presses("react"));
            IsWon(s) && s.wrong == 0 && GameStatus(s, Roster) == Win
  {
    PressingTheWordWins("react", Roster);
  }

  /** On "react", a first miss says farewell to the first language of the roster and crosses out its chip. */
  lemma FirstMissFarewell()
    ensures var s := Step(NewGame("react"), Roster, Press('x'));
            GameStatus(s, Roster) == Farewell(0) && Chips(s, Roster)[0] && !Chips(s, Roster)[1]
  {
    var s0 := NewGame("react");
    assert !IsWon(s0) by { assert s0.word[0] !in s0.guessed; }
    var s := Step(s0, Roster, Press('x'));
    assert s.guessed == "x" && s.wrong == 1;
    assert !IsWon(s) by { assert s.word[0] !in s.guessed; }
  }

  /** The seven misses are distinct, none is a letter of "react", and no letter of "react" is among them. */
  lemma SevenMissLetters()
    ensures NoDup("xyzqwvb")
    ensures forall i :: 0 <= i < 7 ==> "xyzqwvb"[i] !in "react"
    ensures forall i :: 0 <= i < 5 ==> "react"[i] !in "xyzqwvb"
  {
  }

  /** Seven distinct misses on "react" leave the word, record each miss, and count seven. */
  lemma SevenMissesRecorded()
    ensures Run(NewGame("react"), Roster, Presses("xyzqwvb")) == State("react", "xyzqwvb", 7, false)
  {
    var g := "xyzqwvb";
    SevenMissLetters();
    var s0 := State("react", [], 0, false);
    assert s0 == NewGame("react");
    assert s0.guessed + g == g;
    assert NoDup(s0.guessed + g);
    assert !IsWon(s0) by { assert s0.word[0] !in s0.guessed; }
    assert s0.wrong + |g| <= Roster - 1;
    assert forall i :: 0 <= i < |g| ==> g[i] !in s0.word;
    MissesOnly(s0, Roster, g);
    assert s0.(guessed := s0.guessed + g, wrong := s0.wrong + |g|) == State("react", g, 7, false);
  }

  /** Seven misses on "react" lose: the loss message shows and every letter appears marked missed. */
  lemma SevenMissesLose()
    ensures var s := Run(NewGame("react"), Roster, Presses("xyzqwvb"));
            && s == State("react", "xyzqwvb", 7, false)
            && IsLost(s, Roster) && GameStatus(s, Roster) == Loss
            && forall i :: 0 <= i < 5 ==> WordCells(s, Roster)[i] == Shown(s.word[i], true)
  {
    SevenMissesRecorded();
    ReactLostAfterSevenMisses();
  }

  /** The state after the seven misses shows the loss and the whole word, every letter marked missed. */
  lemma ReactLostAfterSevenMisses()
    ensures var s := State("react", "xyzqwvb", 7, false);
            && IsLost(s, Roster) && GameStatus(s, Roster) == Loss
            && forall i :: 0 <= i < 5 ==> WordCells(s, Roster)[i] == Shown(s.word[i], true)
  {
    SevenMissLetters();
    var s := State("react", "xyzqwvb", 7, false);
    assert s.word[0] !in s.guessed;
    LostShowsWord(s, Roster);
  }

  /** With "go" and "g" guessed, the clue has one candidate: it reveals "o" and costs a life. */
  lemma ClueOnGo(rnd: real)
    requires 0.0 <= rnd < 1.0
    ensures UseClue(State("go", "g", 0, false), Roster, rnd) == State("go", "go", 1, true)
  {
    var s := State("go", "g", 0, false);
    assert !IsWon(s) by { assert s.word[1] !in s.guessed; }
    assert Unguessed(s.word, s.guessed) == "o";
  }

  /**
   A clue taken with one life left can complete the word and reach the loss
   threshold at once; the status then shows the win.
   */
  lemma ClueWinsOnLastLife(rnd: real)
    requires 0.0 <= rnd < 1.0
    ensures var s := State("go", "gx", 1, false);
            var r := UseClue(s, 3, rnd);
            Consistent(s) && !IsOver(s, 3) && IsWon(r) && IsLost(r, 3) && GameStatus(r, 3) == Win
  {
    var s := State("go", "gx", 1, false);
    assert !IsWon(s) by { assert s.word[1] !in s.guessed; }
    assert Unguessed(s.word, s.guessed) == "o";
    assert UseClue(s, 3, rnd).guessed == "gxo";
  }
}
