/**
 * The game as the page runs it: the variables of the page's script, and
 * the functions that change them in place. Each method is proved against
 * the step functions of module Rules.
 */
module Wordle {
  import opened Scoring
  import opened Keyboard
  import opened Rules

  /** The dictionary a word list yields (`new Set(words.map(w => w.toLowerCase()))`). */
  function Vocabulary(words: seq<string>): set<string>
  {
    set w | w in words :: Lower(w)
  }

  class Game {
    /** The words of the loaded list (only the `word` field of each entry). */
    var fullWordData: seq<string>
    var validWords: set<string>
    var targetWord: string
    var currentGuess: seq<char>
    var currentRow: nat
    var isGameOver: bool
    /** The keyboard's colour classes; a letter without a class is missing. */
    var keyboard: map<char, Status>

    ghost function State(): Round
      reads this
    {
      Round(currentGuess, currentRow, isGameOver, keyboard)
    }

    /** The word list has the generator's shape and the dictionary is built from it. */
    ghost predicate Dictionary()
      reads this`fullWordData, this`validWords
    {
      && (forall w :: w in fullWordData ==> IsWord(w))
      && validWords == Vocabulary(fullWordData)
    }

    ghost predicate Valid()
      reads this
    {
      Dictionary() && WellFormed(targetWord, validWords) && Inv(State(), targetWord)
    }

    /**
     * Page load: the variables start empty, then the word list arrives; a
     * non-empty list fills the dictionary and starts a game on the word at
     * index `pick` (the random draw).
     */
    constructor (wordList: seq<string>, pick: nat)
      requires forall w :: w in wordList ==> IsWord(w)
      requires |wordList| > 0 ==> pick < |wordList|
      ensures Valid() && fullWordData == wordList && State() == Fresh
      ensures targetWord == if |wordList| > 0 then wordList[pick] else ""
    {
      fullWordData := [];
      validWords := {};
      targetWord := "";
      currentGuess := [];
      currentRow := 0;
      isGameOver := false;
      keyboard := map[];
      new;
      fullWordData := wordList;
      if |fullWordData| > 0 {
        validWords := Vocabulary(fullWordData);
        InitializeGame(pick);
        LowerWord(wordList[pick]);
      }
    }

    /**
     * Starts a game on the word at index `pick`: clears the row, the row
     * counter, the game-over flag and the keyboard. Without words it does nothing.
     */
    method InitializeGame(pick: nat)
      requires Dictionary()
      requires |fullWordData| == 0 ==> Valid()
      requires |fullWordData| > 0 ==> pick < |fullWordData|
      modifies this`targetWord, this`currentGuess, this`currentRow, this`isGameOver, this`keyboard
      ensures Valid()
      ensures |fullWordData| == 0 ==> unchanged(this)
      ensures |fullWordData| > 0 ==> targetWord == Lower(fullWordData[pick]) && State() == Fresh
    {
      if |fullWordData| == 0 {
        return;
      }
      targetWord := Lower(fullWordData[pick]);
      isGameOver := false;
      currentRow := 0;
      currentGuess := [];
      UpdateKeyboardAppearance();
      LowerWord(fullWordData[pick]);
      assert targetWord in validWords;
    }

    /** Removes every colour class from the keyboard. */
    method UpdateKeyboardAppearance()
      modifies this`keyboard
      ensures keyboard == map[]
    {
      keyboard := map[];
    }

    /**
     * Offers `status` to the key of `letter`: a Correct key keeps its
     * colour, a Present key ignores Absent, and otherwise the key takes the
     * new colour. The key ends with the stronger of the two colours.
     */
    method UpdateKeyboardKey(letter: char, status: Status)
      modifies this`keyboard
      ensures keyboard == Raised(old(keyboard), letter, status)
    {
      if letter in keyboard && keyboard[letter] == Correct {
        return;
      }
      if letter in keyboard && keyboard[letter] == Present && status == Absent {
        return;
      }
      keyboard := keyboard[letter := status];
    }

    /** One key of the physical or on-screen keyboard. */
    method HandleKeyPress(key: string) returns (reply: Reply)
      requires Valid()
      modifies this`currentGuess, this`currentRow, this`isGameOver, this`keyboard
      ensures Valid()
      ensures (State(), reply) == Press(old(State()), key, targetWord, validWords)
    {
      ghost var r0 := State();
      PressKeepsInv(r0, key, targetWord, validWords);
      if isGameOver {
        return Quiet;
      }
      var k := Lower(key);
      if k == "enter" {
        if |currentGuess| == WORD_LENGTH {
          reply := SubmitGuess();
        } else {
          reply := TooShort;
        }
      } else if k == "backspace" {
        if |currentGuess| > 0 {
          currentGuess := currentGuess[..|currentGuess| - 1];
        }
        reply := Quiet;
      } else if |k| == 1 && IsLetter(k[0]) {
        if |currentGuess| < WORD_LENGTH {
          currentGuess := currentGuess + k;
        }
        reply := Quiet;
      } else {
        reply := Quiet;
      }
    }

    /**
     * The keyboard pass of `submitGuess`: each guessed letter's key is
     * offered the guess's Correct or Present for it, or Absent when the
     * target lacks the letter.
     */
    method ApplyKeyStatus(uniqueGuessedLetters: set<char>, tempKeyboardStatus: map<char, Status>)
      modifies this`keyboard
      ensures keyboard == Folded(old(keyboard), uniqueGuessedLetters, tempKeyboardStatus, targetWord)
    {
      var remaining := uniqueGuessedLetters;
      ghost var kb0 := keyboard;
      FoldEmpty(kb0, tempKeyboardStatus, targetWord);
      while remaining != {}
        invariant remaining <= uniqueGuessedLetters
        invariant keyboard == Folded(kb0, uniqueGuessedLetters - remaining, tempKeyboardStatus, targetWord)
        decreases |remaining|
      {
        var letter :| letter in remaining;
        FoldStep(kb0, uniqueGuessedLetters - remaining, letter, tempKeyboardStatus, targetWord);
        if letter in tempKeyboardStatus && tempKeyboardStatus[letter] == Correct {
          UpdateKeyboardKey(letter, Correct);
        } else if letter in tempKeyboardStatus && tempKeyboardStatus[letter] == Present {
          UpdateKeyboardKey(letter, Present);
        } else if letter !in targetWord {
          UpdateKeyboardKey(letter, Absent);
        }
        assert uniqueGuessedLetters - (remaining - {letter}) == (uniqueGuessedLetters - remaining) + {letter};
        remaining := remaining - {letter};
      }
      assert uniqueGuessedLetters - remaining == uniqueGuessedLetters;
    }

    /**
     * Submits the full row: a word outside the dictionary is refused;
     * otherwise the row is coloured, each guessed letter's key is offered
     * its colour, and the game is won, lost on the last row, or moves on.
     */
    method SubmitGuess() returns (reply: Reply)
      requires Valid() && |currentGuess| == WORD_LENGTH && !isGameOver
      modifies this`currentGuess, this`currentRow, this`isGameOver, this`keyboard
      ensures Valid()
      ensures (State(), reply) == Submit(old(State()), targetWord, validWords)
    {
      var guessWord := currentGuess;
      if guessWord !in validWords {
        return NotInWordList;
      }
      ghost var r0 := State();
      SubmitKeepsInv(r0, targetWord, validWords);
      assert IsWord(targetWord);

      var tiles, tempKeyboardStatus := ScoreGuess(currentGuess, targetWord);

      var uniqueGuessedLetters := Letters(currentGuess);
      ApplyKeyStatus(uniqueGuessedLetters, tempKeyboardStatus);
      ghost var next := Submit(r0, targetWord, validWords);
      assert keyboard == next.0.keys;

      if guessWord == targetWord {
        isGameOver := true;
        reply := Scored(tiles, Won);
        assert (State(), reply) == next;
        return;
      }

      currentRow := currentRow + 1;
      currentGuess := [];

      if currentRow == MAX_GUESSES {
        isGameOver := true;
        reply := Scored(tiles, Lost);
        assert (State(), reply) == next;
      } else {
        reply := Scored(tiles, Continue);
        assert (State(), reply) == next;
      }
    }
  }
}
