/**
 * The rules of one game as pure step functions: a round's state, what a
 * key press does to it (`handleKeyPress`), what submitting a full row does
 * (`submitGuess`), and what a sequence of key presses does.
 */
module Rules {
  import opened Scoring
  import opened Keyboard

  /** Rows on the board (MAX_GUESSES). */
  const MAX_GUESSES: nat := 6

  /**
   * The mutable state of a game: the letters typed into the current row,
   * the row index, whether the game is over, and the keyboard colours.
   */
  datatype Round = Round(guess: seq<char>, row: nat, over: bool, keys: map<char, Status>)

  datatype Outcome = Continue | Won | Lost

  /**
   * What the player sees after a key press: nothing new, the "too short"
   * message, the "not a valid word" message, or a coloured row.
   */
  datatype Reply = Quiet | TooShort | NotInWordList | Scored(tiles: seq<Status>, outcome: Outcome)

  /** The round a new game starts from. */
  const Fresh: Round := Round([], 0, false, map[])

  predicate IsLetter(c: char) { 'a' <= c <= 'z' }

  /** A dictionary word: five lower-case letters a-z. */
  predicate IsWord(w: string)
  {
    |w| == WORD_LENGTH && forall i :: 0 <= i < |w| ==> IsLetter(w[i])
  }

  /** `toLowerCase` on the letters A-Z. */
  function LowerChar(c: char): (l: char)
    ensures 'A' <= c <= 'Z' ==> IsLetter(l) && l as int - c as int == 32
    ensures !('A' <= c <= 'Z') ==> l == c
  {
    if 'A' <= c <= 'Z' then (c as int + 32) as char else c
  }

  function Lower(s: string): string
  {
    seq(|s|, i requires 0 <= i < |s| => LowerChar(s[i]))
  }

  /** Lower-casing leaves a dictionary word as it is. */
  lemma LowerWord(w: string)
    requires IsWord(w)
    ensures Lower(w) == w
  {
    forall i | 0 <= i < |w|
      ensures Lower(w)[i] == w[i]
    {
      assert IsLetter(w[i]);
    }
  }

  /**
   * The dictionary and target a game is played with: words of five
   * letters, and a target among them once the dictionary has any word.
   */
  predicate WellFormed(target: string, valid: set<string>)
  {
    (forall w :: w in valid ==> IsWord(w)) && (valid != {} ==> target in valid)
  }

  /** The distinct letters of a guess (`new Set(currentGuess)`). */
  function Letters(g: seq<char>): set<char>
  {
    set c | c in g
  }

  /** What `submitGuess` does with a full row. */
  function Submit(r: Round, target: string, valid: set<string>): (Round, Reply)
    requires |r.guess| == WORD_LENGTH && WellFormed(target, valid)
  {
    if r.guess !in valid then (r, NotInWordList)
    else
      var tiles := Feedback(r.guess, target);
      var keys := Folded(r.keys, Letters(r.guess), GuessKeyStatus(r.guess, tiles), target);
      if r.guess == target then (r.(over := true, keys := keys), Scored(tiles, Won))
      else if r.row + 1 == MAX_GUESSES then (Round([], r.row + 1, true, keys), Scored(tiles, Lost))
      else (Round([], r.row + 1, r.over, keys), Scored(tiles, Continue))
  }

  /** What `handleKeyPress` does with one key. */
  function Press(r: Round, key: string, target: string, valid: set<string>): (res: (Round, Reply))
    requires WellFormed(target, valid)
    ensures r.over ==> res == (r, Quiet)
    ensures |r.guess| <= WORD_LENGTH ==> |res.0.guess| <= WORD_LENGTH
    ensures !res.1.Scored? ==> res.0.row == r.row && res.0.over == r.over && res.0.keys == r.keys
    ensures res.1.Scored? ==> Lower(key) == "enter" && |r.guess| == WORD_LENGTH && r.guess in valid
    ensures res.1 == TooShort <==> !r.over && Lower(key) == "enter" && |r.guess| != WORD_LENGTH
  {
    if r.over then (r, Quiet)
    else
      var k := Lower(key);
      if k == "enter" then
        if |r.guess| == WORD_LENGTH then Submit(r, target, valid) else (r, TooShort)
      else if k == "backspace" then
        if |r.guess| > 0 then (r.(guess := r.guess[..|r.guess| - 1]), Quiet) else (r, Quiet)
      else if |k| == 1 && IsLetter(k[0]) then
        if |r.guess| < WORD_LENGTH then (r.(guess := r.guess + k), Quiet) else (r, Quiet)
      else (r, Quiet)
  }

  /**
   * A letter key, in either case, appends its lower-case letter to a row
   * that is not full, and Backspace then takes it off again.
   */
  lemma TypeThenErase(r: Round, key: string, target: string, valid: set<string>)
    requires WellFormed(target, valid) && !r.over && |r.guess| < WORD_LENGTH
    requires |key| == 1 && IsLetter(LowerChar(key[0]))
    ensures Press(r, key, target, valid) == (r.(guess := r.guess + [LowerChar(key[0])]), Quiet)
    ensures Press(Press(r, key, target, valid).0, "backspace", target, valid) == (r, Quiet)
  {
    var k := Lower(key);
    assert k == [LowerChar(key[0])];
    assert Lower("backspace") == "backspace";
    assert (r.guess + k)[..|r.guess|] == r.guess;
  }

  /** The keys that type string s, one letter per key. */
  function Keystrokes(s: string): seq<string>
  {
    seq(|s|, i requires 0 <= i < |s| => [s[i]])
  }

  /** Typing letters a-z into a row with room for them appends them to the row. */
  lemma {:induction false} TypingAppends(r: Round, s: string, rest: seq<string>, target: string, valid: set<string>)
    requires WellFormed(target, valid) && !r.over && |r.guess| + |s| <= WORD_LENGTH
    requires forall i :: 0 <= i < |s| ==> IsLetter(s[i])
    ensures Run(r, Keystrokes(s) + rest, target, valid) == Run(r.(guess := r.guess + s), rest, target, valid)
    decreases |s|
  {
    if |s| == 0 {
      assert Keystrokes(s) + rest == rest;
      assert r.(guess := r.guess + s) == r;
    } else {
      var keys := Keystrokes(s) + rest;
      assert keys[0] == [s[0]];
      assert keys[1..] == Keystrokes(s[1..]) + rest;
      TypeThenErase(r, [s[0]], target, valid);
      var r1 := r.(guess := r.guess + [s[0]]);
      TypingAppends(r1, s[1..], rest, target, valid);
      assert r1.guess + s[1..] == r.guess + s;
    }
  }

  /**
   * Typing a dictionary-shaped word into an empty row and pressing Enter
   * submits exactly that word: one scored guess if it is in the
   * dictionary, none otherwise.
   */
  lemma TypeWordAndEnter(r: Round, w: string, target: string, valid: set<string>)
    requires WellFormed(target, valid) && !r.over && r.guess == [] && IsWord(w)
    ensures Run(r, Keystrokes(w) + ["enter"], target, valid) ==
      (Submit(r.(guess := w), target, valid).0, if w in valid then 1 else 0)
  {
    TypingAppends(r, w, ["enter"], target, valid);
    var r' := r.(guess := w);
    assert r.guess + w == w;
    assert Lower("enter") == "enter";
    assert ["enter"][1..] == [];
    assert Run(r', ["enter"], target, valid) == (Press(r', "enter", target, valid).0, if w in valid then 1 else 0);
  }

  /**
   * What holds of every reachable round: at most five typed letters a-z,
   * at most six rows used, a row left while the game runs, and a keyboard
   * on which a coloured key is Absent exactly when its letter is not in the target.
   */
  predicate Inv(r: Round, target: string)
  {
    && |r.guess| <= WORD_LENGTH
    && (forall i :: 0 <= i < |r.guess| ==> IsLetter(r.guess[i]))
    && r.row <= MAX_GUESSES
    && (!r.over ==> r.row < MAX_GUESSES)
    && KeysSound(r.keys, target)
  }

  /** A guess that is not a dictionary word changes nothing, whatever the round. */
  lemma RejectedGuess(r: Round, target: string, valid: set<string>)
    requires WellFormed(target, valid) && !r.over && |r.guess| == WORD_LENGTH && r.guess !in valid
    ensures Press(r, "enter", target, valid) == (r, NotInWordList)
  {
    assert Lower("enter") == "enter";
  }

  /**
   * A scored guess: the row of tiles is the reference colouring, the game
   * is won exactly when every tile is Correct, a win keeps the row and
   * its letters, another guess moves to a fresh row, and a miss on the
   * last row loses.
   */
  lemma SubmitOutcome(r: Round, target: string, valid: set<string>)
    requires WellFormed(target, valid) && !r.over && r.row < MAX_GUESSES
    requires |r.guess| == WORD_LENGTH && r.guess in valid
    ensures var (r', reply) := Submit(r, target, valid);
      && reply.Scored?
      && reply.tiles == Feedback(r.guess, target)
      && (reply.outcome == Won <==> forall i :: 0 <= i < WORD_LENGTH ==> reply.tiles[i] == Correct)
      && (reply.outcome == Won ==> r'.over && r'.row == r.row && r'.guess == r.guess)
      && (reply.outcome == Lost <==> r.guess != target && r.row + 1 == MAX_GUESSES)
      && (reply.outcome == Lost ==> r'.over && r'.row == MAX_GUESSES && r'.guess == [])
      && (reply.outcome == Continue ==> !r'.over && r'.row == r.row + 1 && r'.guess == [])
  {
    assert IsWord(target);
    AllCorrectIffMatch(r.guess, target);
  }

  /**
   * The keyboard after a scored guess: no key is lowered; every guessed
   * letter's key is coloured, Absent exactly when the target lacks the
   * letter, and at least as strong as the guess's own summary for it;
   * keys of letters not guessed are untouched.
   */
  lemma SubmitKeys(r: Round, target: string, valid: set<string>)
    requires WellFormed(target, valid) && |r.guess| == WORD_LENGTH && r.guess in valid
    requires KeysSound(r.keys, target)
    ensures var (r', _) := Submit(r, target, valid);
      var ks := GuessKeyStatus(r.guess, Feedback(r.guess, target));
      && (forall c :: Rank(r.keys, c) <= Rank(r'.keys, c))
      && (forall c :: c in r.guess ==> c in r'.keys && (r'.keys[c] == Absent <==> c !in target))
      && (forall c :: c in ks ==> Weight(ks[c]) <= Rank(r'.keys, c))
      && (forall c :: c !in r.guess ==> (c in r'.keys <==> c in r.keys))
      && (forall c :: c !in r.guess && c in r.keys ==> r'.keys[c] == r.keys[c])
  {
    assert IsWord(target);
    var g := r.guess;
    var ks := GuessKeyStatus(g, Feedback(g, target));
    var letters := Letters(g);
    var keys := Folded(r.keys, letters, ks, target);
    var r' := Submit(r, target, valid).0;
    assert r'.keys == keys;
    FoldNeverDowngrades(r.keys, letters, ks, target);
    forall c | c in ks
      ensures c in target
    {
      GuessKeyStatusMeaning(g, target, c);
    }
    FoldKeepsSound(r.keys, letters, ks, target);
    forall c | c in g
      ensures c in keys && (keys[c] == Absent <==> c !in target)
    {
      GuessedLettersHinted(g, target, c);
      FoldRaises(r.keys, letters, ks, target, c);
    }
    forall c | c in ks
      ensures Weight(ks[c]) <= Rank(keys, c)
    {
      GuessKeyStatusMeaning(g, target, c);
      FoldRaises(r.keys, letters, ks, target, c);
    }
  }

  /** Submitting a full row keeps the round invariant. */
  lemma SubmitKeepsInv(r: Round, target: string, valid: set<string>)
    requires WellFormed(target, valid) && Inv(r, target) && !r.over && |r.guess| == WORD_LENGTH
    ensures Inv(Submit(r, target, valid).0, target)
  {
    if r.guess in valid {
      SubmitKeys(r, target, valid);
      SubmitOutcome(r, target, valid);
    }
  }

  /** Every key press keeps the round invariant. */
  lemma PressKeepsInv(r: Round, key: string, target: string, valid: set<string>)
    requires WellFormed(target, valid) && Inv(r, target)
    ensures Inv(Press(r, key, target, valid).0, target)
  {
    var (r', reply) := Press(r, key, target, valid);
    var k := Lower(key);
    if reply.Scored? {
      SubmitKeepsInv(r, target, valid);
    } else if !r.over && k != "enter" && k != "backspace" && |k| == 1 && IsLetter(k[0]) && |r.guess| < WORD_LENGTH {
      assert r'.guess == r.guess + k;
    }
  }

  /** The keyboard never loses colour, whatever key is pressed. */
  lemma PressNeverDowngrades(r: Round, key: string, target: string, valid: set<string>)
    requires WellFormed(target, valid)
    ensures forall c :: Rank(r.keys, c) <= Rank(Press(r, key, target, valid).0.keys, c)
  {
    if Press(r, key, target, valid).1.Scored? {
      assert IsWord(target);
      var g := r.guess;
      FoldNeverDowngrades(r.keys, Letters(g), GuessKeyStatus(g, Feedback(g, target)), target);
    }
  }

  /** Scored guesses a round can still make: none once the game is over, else the rows left. */
  function Budget(r: Round): nat
  {
    if r.over || r.row >= MAX_GUESSES then 0 else MAX_GUESSES - r.row
  }

  /** Replays key presses from round r: the final round and how many presses scored a guess. */
  function Run(r: Round, keys: seq<string>, target: string, valid: set<string>): (Round, nat)
    requires WellFormed(target, valid)
    decreases |keys|
  {
    if |keys| == 0 then (r, 0)
    else
      var (r1, reply) := Press(r, keys[0], target, valid);
      var (r2, n) := Run(r1, keys[1..], target, valid);
      (r2, n + if reply.Scored? then 1 else 0)
  }

  /** Every round reached from a reachable round is reachable. */
  lemma {:induction false} RunKeepsInv(r: Round, keys: seq<string>, target: string, valid: set<string>)
    requires WellFormed(target, valid) && Inv(r, target)
    ensures Inv(Run(r, keys, target, valid).0, target)
    decreases |keys|
  {
    if |keys| > 0 {
      PressKeepsInv(r, keys[0], target, valid);
      RunKeepsInv(Press(r, keys[0], target, valid).0, keys[1..], target, valid);
    }
  }

  /** Once the game is over no key press changes anything. */
  lemma {:induction false} RunAfterOver(r: Round, keys: seq<string>, target: string, valid: set<string>)
    requires WellFormed(target, valid) && r.over
    ensures Run(r, keys, target, valid) == (r, 0)
    decreases |keys|
  {
    if |keys| > 0 {
      RunAfterOver(r, keys[1..], target, valid);
    }
  }

  /** However many keys are pressed, a game scores at most as many guesses as it has rows left. */
  lemma {:induction false} RunBudget(r: Round, keys: seq<string>, target: string, valid: set<string>)
    requires WellFormed(target, valid) && Inv(r, target)
    ensures Run(r, keys, target, valid).1 <= Budget(r)
    decreases |keys|
  {
    if |keys| > 0 {
      var (r1, reply) := Press(r, keys[0], target, valid);
      PressKeepsInv(r, keys[0], target, valid);
      RunBudget(r1, keys[1..], target, valid);
      if reply.Scored? {
        SubmitOutcome(r, target, valid);
        assert Budget(r1) < Budget(r);
      }
    }
  }

  /** Over any sequence of key presses the keyboard never loses colour. */
  lemma {:induction false} RunNeverDowngrades(r: Round, keys: seq<string>, target: string, valid: set<string>)
    requires WellFormed(target, valid)
    ensures forall c :: Rank(r.keys, c) <= Rank(Run(r, keys, target, valid).0.keys, c)
    decreases |keys|
  {
    if |keys| > 0 {
      PressNeverDowngrades(r, keys[0], target, valid);
      RunNeverDowngrades(Press(r, keys[0], target, valid).0, keys[1..], target, valid);
    }
  }
}
