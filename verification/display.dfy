/**
 What each render shows, reduced to the values the markup is built from: the
 status message chosen, which language chips are crossed out, which word
 positions are revealed or marked missed, the screen-reader reading of the
 word, and how each keyboard letter is marked.
 */
module Display {
  import opened Letters
  import opened Hangman
  import opened Session

  // Status message.

  /** The message the status area shows; `language` is the roster index the farewell names. */
  datatype Status = Farewell(language: int) | Win | Loss | Silent

  /** The status area's branches, tried in order: farewell, win, loss, nothing. */
  function GameStatus(s: State, n: nat): (r: Status)
    ensures r.Farewell? <==> !IsOver(s, n) && LastGuessIncorrect(s)
    ensures r.Win? <==> IsWon(s)
    ensures r.Loss? <==> IsLost(s, n) && !IsWon(s)
    ensures r.Silent? <==> !IsOver(s, n) && !LastGuessIncorrect(s)
    ensures r.Farewell? ==> r.language == s.wrong - 1
  {
    if !IsOver(s, n) && LastGuessIncorrect(s) then Farewell(s.wrong - 1)
    else if IsWon(s) then Win
    else if IsLost(s, n) then Loss
    else Silent
  }

  /**
   In every consistent state the farewell names a language of the roster, and
   never the last two: the miss that reaches the loss threshold shows the loss
   message instead.
   */
  lemma FarewellInRoster(s: State, n: nat)
    requires Consistent(s) && GameStatus(s, n).Farewell?
    ensures 0 <= GameStatus(s, n).language < n - 2
  {
    var g := s.guessed;
    assert CountAbsent(g, s.word) == CountAbsent(g[..|g| - 1], s.word) + 1;
  }

  /** The miss that loses the game, without winning it, shows the loss message. */
  lemma LosingMissShowsLoss(s: State, n: nat, c: char)
    requires !IsOver(s, n) && c !in s.guessed && c !in s.word
    requires IsLost(Guess(s, c), n)
    ensures GameStatus(Guess(s, c), n) == Loss
  {
    var r := Guess(s, c);
    assert c in r.guessed[|s.guessed|..];
    assert !IsWon(r) by {
      assert forall i :: 0 <= i < |s.word| ==> s.word[i] != c;
      var i :| 0 <= i < |s.word| && s.word[i] !in s.guessed;
      assert s.word[i] !in r.guessed by {
        assert r.guessed == s.guessed + [c];
      }
    }
  }

  // Language chips.

  /** For each roster position, whether its chip is crossed out. */
  function Chips(s: State, n: nat): (lost: seq<bool>)
    ensures |lost| == n
    ensures forall i :: 0 <= i < n ==> (lost[i] <==> i < s.wrong)
  {
    if n == 0 then [] else Chips(s, n - 1) + [n - 1 < s.wrong]
  }

  function CountTrue(bs: seq<bool>): nat {
    if |bs| == 0 then 0 else CountTrue(bs[..|bs| - 1]) + (if bs[|bs| - 1] then 1 else 0)
  }

  /** As many chips are crossed out as there were wrong guesses, up to the roster's length. */
  lemma {:induction false} ChipsCrossedOut(s: State, n: nat)
    ensures CountTrue(Chips(s, n)) == if s.wrong < n then s.wrong else n
  {
    if n > 0 {
      ChipsCrossedOut(s, n - 1);
      assert Chips(s, n)[..n - 1] == Chips(s, n - 1);
    }
  }

  /** The chip a farewell names is the most recently crossed-out one. */
  lemma FarewellNamesLastChip(s: State, n: nat)
    requires Consistent(s) && GameStatus(s, n).Farewell?
    ensures var k := GameStatus(s, n).language;
            0 <= k < n && Chips(s, n)[k] && !Chips(s, n)[k + 1]
  {
    FarewellInRoster(s, n);
  }

  /** While the counter stays within the threshold, the last chip of the roster is never crossed out. */
  lemma LastChipSurvives(s: State, n: nat)
    requires Bounded(s, n) && n > 0
    ensures !Chips(s, n)[n - 1]
  {
  }

  // Word display.

  /** A position of the word: left blank, or showing its letter, marked missed when only the loss revealed it. */
  datatype Cell = Blank | Shown(letter: char, missed: bool)

  function Cells(word: string, guessed: string, lost: bool): (cells: seq<Cell>)
    ensures |cells| == |word|
    ensures forall i :: 0 <= i < |word| ==>
      cells[i] == if lost || word[i] in guessed then Shown(word[i], lost && word[i] !in guessed) else Blank
  {
    if |word| == 0 then []
    else
      var c := word[0];
      [if lost || c in guessed then Shown(c, lost && c !in guessed) else Blank] + Cells(word[1..], guessed, lost)
  }

  /** The word display of a state: the loss, not the guesses alone, decides whether unguessed letters show. */
  function WordCells(s: State, n: nat): (cells: seq<Cell>)
    ensures |cells| == |s.word|
    ensures forall i :: 0 <= i < |s.word| ==> (cells[i].Shown? <==> IsLost(s, n) || s.word[i] in s.guessed)
    ensures forall i :: 0 <= i < |s.word| ==> (cells[i].Shown? ==> cells[i].letter == s.word[i])
  {
    Cells(s.word, s.guessed, IsLost(s, n))
  }

  /** A won word shows every letter, none of them marked missed. */
  lemma WonShowsWord(s: State, n: nat)
    requires IsWon(s)
    ensures forall i :: 0 <= i < |s.word| ==> WordCells(s, n)[i] == Shown(s.word[i], false)
  {
  }

  /** A lost word shows every letter, marked missed exactly where it was never guessed. */
  lemma LostShowsWord(s: State, n: nat)
    requires IsLost(s, n)
    ensures forall i :: 0 <= i < |s.word| ==> WordCells(s, n)[i] == Shown(s.word[i], s.word[i] !in s.guessed)
  {
  }

  function CountHidden(cells: seq<Cell>): nat {
    if |cells| == 0 then 0 else (if cells[0].Blank? || cells[0].missed then 1 else 0) + CountHidden(cells[1..])
  }

  /**
   The positions the player has not uncovered (blank, or marked missed after a
   loss) are exactly the candidates the clue draws from.
   */
  lemma {:induction false} HiddenAreClueCandidates(word: string, guessed: string, lost: bool)
    ensures CountHidden(Cells(word, guessed, lost)) == |Unguessed(word, guessed)|
  {
    if |word| > 0 {
      HiddenAreClueCandidates(word[1..], guessed, lost);
      assert Cells(word, guessed, lost)[1..] == Cells(word[1..], guessed, lost);
    }
  }

  // Screen-reader reading of the word.

  /** One word per position: the letter and a full stop when guessed, "blank" otherwise. */
  function SpokenWord(word: string, guessed: string): (tokens: seq<string>)
    ensures |tokens| == |word|
    ensures forall i :: 0 <= i < |word| ==> tokens[i] == if word[i] in guessed then [word[i], '.'] else "blank"
  {
    if |word| == 0 then []
    else [if word[0] in guessed then [word[0], '.'] else "blank"] + SpokenWord(word[1..], guessed)
  }

  function Join(parts: seq<string>, sep: string): string {
    if |parts| == 0 then []
    else if |parts| == 1 then parts[0]
    else parts[0] + sep + Join(parts[1..], sep)
  }

  /**
   The live region's text. It reads only the word and the guesses, never the
   counter, so it does not change when the game is lost.
   */
  function ScreenReaderText(s: State): (text: string)
    ensures |text| >= 14 && text[..14] == "Current word: "
  {
    "Current word: " + Join(SpokenWord(s.word, s.guessed), " ")
  }

  /**
   The spoken word says "blank" exactly where the display is blank or marked
   missed: the reading never reveals a lost word, and otherwise agrees with the
   display position by position.
   */
  lemma SpokenAgreesWithCells(s: State, n: nat)
    ensures forall i :: 0 <= i < |s.word| ==>
      (SpokenWord(s.word, s.guessed)[i] == "blank" <==> WordCells(s, n)[i].Blank? || WordCells(s, n)[i].missed)
  {
    forall i | 0 <= i < |s.word|
      ensures SpokenWord(s.word, s.guessed)[i] == "blank" <==> WordCells(s, n)[i].Blank? || WordCells(s, n)[i].missed
    {
      if s.word[i] in s.guessed {
        assert |SpokenWord(s.word, s.guessed)[i]| == 2;
      }
    }
  }

  /**
   The reading depends on the guesses only through which positions of the word
   they uncover: two guess lists that uncover the same positions read the same,
   whatever the counter and the clue flag.
   */
  lemma SameUncoveredSameReading(s: State, t: State)
    requires t.word == s.word
    requires forall i :: 0 <= i < |s.word| ==> (s.word[i] in t.guessed <==> s.word[i] in s.guessed)
    ensures ScreenReaderText(t) == ScreenReaderText(s)
  {
    var a, b := SpokenWord(s.word, s.guessed), SpokenWord(t.word, t.guessed);
    assert |a| == |b|;
    assert forall i :: 0 <= i < |a| ==> a[i] == b[i];
    assert a == b;
  }

  /**
   A guess that misses the word leaves the live region's text unchanged, so
   the miss that loses the game does not reveal the word to a screen reader.
   */
  lemma MissLeavesReadingUnchanged(s: State, c: char)
    requires c !in s.word
    ensures ScreenReaderText(Guess(s, c)) == ScreenReaderText(s)
  {
    var r := Guess(s, c);
    assert r.word == s.word;
    assert r.guessed == s.guessed || r.guessed == s.guessed + [c];
    SameUncoveredSameReading(s, r);
  }

  function CountBlank(tokens: seq<string>): nat {
    if |tokens| == 0 then 0 else (if tokens[0] == "blank" then 1 else 0) + CountBlank(tokens[1..])
  }

  /** The reading has a "blank" for every clue candidate. */
  lemma {:induction false} SpokenBlanksCount(word: string, guessed: string)
    ensures CountBlank(SpokenWord(word, guessed)) == |Unguessed(word, guessed)|
  {
    if |word| > 0 {
      var c := word[0];
      SpokenBlanksCount(word[1..], guessed);
      assert SpokenWord(word, guessed) == [SpokenWord(word, guessed)[0]] + SpokenWord(word[1..], guessed);
      assert Unguessed(word, guessed) == (if c in guessed then [] else [c]) + Unguessed(word[1..], guessed);
      if c in guessed {
        assert |SpokenWord(word, guessed)[0]| == 2;
      }
    }
  }

  /** The reading has a "blank" for every clue candidate, and none exactly when the word is won. */
  lemma SpokenBlanks(word: string, guessed: string)
    ensures CountBlank(SpokenWord(word, guessed)) == |Unguessed(word, guessed)|
    ensures CountBlank(SpokenWord(word, guessed)) == 0 <==> IsWon(State(word, guessed, 0, false))
  {
    SpokenBlanksCount(word, guessed);
    WonIffNothingUnguessed(State(word, guessed, 0, false));
  }

  // Keyboard.

  datatype Mark = Correct | Wrong | Plain

  /** A letter button: disabled when the game is over, pressed once guessed, marked by whether its letter hits. */
  datatype Key = Key(letter: char, disabled: bool, pressed: bool, mark: Mark)

  function KeyFor(s: State, n: nat, c: char): (k: Key)
    ensures k.letter == c && k.disabled == IsOver(s, n) && (k.pressed <==> c in s.guessed)
    ensures k.mark == Correct <==> c in s.guessed && c in s.word
    ensures k.mark == Wrong <==> c in s.guessed && c !in s.word
    ensures k.mark != Plain <==> k.pressed
  {
    var pressed := c in s.guessed;
    Key(c, IsOver(s, n), pressed,
        if pressed && c in s.word then Correct else if pressed then Wrong else Plain)
  }

  function Keys(s: State, n: nat, letters: string): (keys: seq<Key>)
    ensures |keys| == |letters|
    ensures forall i :: 0 <= i < |letters| ==> keys[i] == KeyFor(s, n, letters[i])
  {
    if |letters| == 0 then [] else [KeyFor(s, n, letters[0])] + Keys(s, n, letters[1..])
  }

  /**
   The 26 letter buttons, in alphabetical order; a button shows as pressed
   exactly when its letter is guessed, and all are disabled once the game is over.
   */
  function Keyboard(s: State, n: nat): (keys: seq<Key>)
    ensures |keys| == 26
    ensures forall i :: 0 <= i < 26 ==> keys[i].letter as int == 'a' as int + i
    ensures forall i :: 0 <= i < 26 ==> (keys[i].pressed <==> keys[i].letter in s.guessed) && keys[i].disabled == IsOver(s, n)
  {
    AlphabetIsConsecutive();
    Keys(s, n, Alphabet)
  }

  function CountWrongKeys(keys: seq<Key>): nat {
    if |keys| == 0 then 0 else (if keys[0].mark == Wrong then 1 else 0) + CountWrongKeys(keys[1..])
  }

  /** The letters of `letters` that belong to `p`. */
  function LettersIn(letters: string, p: set<char>): set<char> {
    set c | c in letters && c in p
  }

  lemma {:induction false} WrongKeysAreMissedLetters(s: State, n: nat, letters: string)
    requires NoDup(letters)
    ensures CountWrongKeys(Keys(s, n, letters)) == |LettersIn(letters, AbsentSet(s.guessed, s.word))|
  {
    var p := AbsentSet(s.guessed, s.word);
    if |letters| == 0 {
      assert LettersIn(letters, p) == {};
    } else {
      var x, rest := letters[0], letters[1..];
      assert letters == [x] + rest;
      assert NoDup(rest) && x !in rest by {
        assert forall i :: 0 <= i < |rest| ==> rest[i] == letters[i + 1];
      }
      WrongKeysAreMissedLetters(s, n, rest);
      assert Keys(s, n, letters)[1..] == Keys(s, n, rest);
      assert (Keys(s, n, letters)[0].mark == Wrong) <==> x in p;
      SplitFirst(x, rest, p);
    }
  }

  lemma SplitFirst(x: char, rest: string, p: set<char>)
    requires x !in rest
    ensures |LettersIn([x] + rest, p)| == (if x in p then 1 else 0) + |LettersIn(rest, p)|
  {
    if x in p {
      assert LettersIn([x] + rest, p) == LettersIn(rest, p) + {x};
    } else {
      assert LettersIn([x] + rest, p) == LettersIn(rest, p);
    }
  }

  /**
   The wrong-guess counter equals the number of keys marked wrong plus the
   clue's cost, in every consistent state whose guesses are keyboard letters.
   */
  lemma KeyboardAccounting(s: State, n: nat)
    requires Consistent(s) && Within(s.guessed, Alphabet)
    ensures s.wrong == CountWrongKeys(Keyboard(s, n)) + ClueCost(s.clueUsed)
  {
    AlphabetNoDup();
    WrongKeysAreMissedLetters(s, n, Alphabet);
    CountAbsentIsSetSize(s.guessed, s.word);
    assert LettersIn(Alphabet, AbsentSet(s.guessed, s.word)) == AbsentSet(s.guessed, s.word);
  }
}
