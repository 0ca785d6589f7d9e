/**
 * Colouring of one guess against the target word: the two passes of
 * `submitGuess` over the row's tiles, driven by a pool of target letters
 * (`letterCounts`), and the per-guess key summary (`tempKeyboardStatus`).
 */
module Scoring {

  /** Letters per word (WORD_LENGTH). */
  const WORD_LENGTH: nat := 5

  /** The colour of a tile, and the three colours a keyboard key can take. */
  datatype Status = Absent | Present | Correct

  function Min(a: int, b: int): int { if a <= b then a else b }

  /** Number of positions j < k with s[j] == c. */
  function Occ(s: seq<char>, k: nat, c: char): nat
    requires k <= |s|
  {
    if k == 0 then 0 else Occ(s, k - 1, c) + (if s[k - 1] == c then 1 else 0)
  }

  /** Number of positions j < k where guess and target both hold c (first-pass hits for c). */
  function Exact(g: seq<char>, t: seq<char>, k: nat, c: char): nat
    requires |g| == |t| && k <= |g|
  {
    if k == 0 then 0 else Exact(g, t, k - 1, c) + (if g[k - 1] == c && t[k - 1] == c then 1 else 0)
  }

  /** Number of positions j < k where the guess holds c but the target does not. */
  function Misses(g: seq<char>, t: seq<char>, k: nat, c: char): nat
    requires |g| == |t| && k <= |g|
  {
    if k == 0 then 0 else Misses(g, t, k - 1, c) + (if g[k - 1] == c && t[k - 1] != c then 1 else 0)
  }

  /** Copies of c in the target that no exact match uses up: what the second pass may hand out. */
  function Pool(g: seq<char>, t: seq<char>, c: char): int
    requires |g| == |t|
  {
    Occ(t, |t|, c) - Exact(g, t, |g|, c)
  }

  /**
   * Reference colour of tile i: an exact match is Correct; any other tile
   * of letter c is Present exactly when fewer than Pool(c) earlier tiles
   * of c missed their position, and Absent otherwise.
   */
  function TileAt(g: seq<char>, t: seq<char>, i: nat): Status
    requires |g| == |t| && i < |g|
  {
    if g[i] == t[i] then Correct
    else if Misses(g, t, i, g[i]) < Pool(g, t, g[i]) then Present
    else Absent
  }

  /** The row of tile colours for guess g against target t. */
  function Feedback(g: seq<char>, t: seq<char>): seq<Status>
    requires |g| == |t|
  {
    seq(|g|, i requires 0 <= i < |g| => TileAt(g, t, i))
  }

  /** Some tile before position k shows letter c in colour s. */
  predicate Shows(g: seq<char>, r: seq<Status>, k: nat, c: char, s: Status)
    requires k <= |g| && k <= |r|
  {
    k > 0 && (Shows(g, r, k - 1, c, s) || (g[k - 1] == c && r[k - 1] == s))
  }

  /** Number of tiles before position k that show letter c in a colour other than Absent. */
  function Kept(g: seq<char>, r: seq<Status>, k: nat, c: char): nat
    requires k <= |g| && k <= |r|
  {
    if k == 0 then 0 else Kept(g, r, k - 1, c) + (if g[k - 1] == c && r[k - 1] != Absent then 1 else 0)
  }

  /**
   * Per-guess key summary: a guessed letter with a Correct tile maps to
   * Correct, one with only Present tiles to Present; other letters are absent.
   */
  function GuessKeyStatus(g: seq<char>, r: seq<Status>): (ks: map<char, Status>)
    requires |r| == |g|
    ensures forall c :: c in ks ==> ks[c] != Absent
  {
    map c | c in g && (Shows(g, r, |g|, c, Correct) || Shows(g, r, |g|, c, Present))
      :: if Shows(g, r, |g|, c, Correct) then Correct else Present
  }

  /** The letter multiset of the target, as the dictionary `letterCounts`. */
  function TargetCounts(t: seq<char>): map<char, int>
  {
    map c | c in t :: multiset(t)[c]
  }

  /** `letterCounts` after the first pass has looked at the tiles before i. */
  ghost function ExactPassCounts(g: seq<char>, t: seq<char>, i: nat): map<char, int>
    requires |g| == |t| && i <= |g|
  {
    map c | c in t :: multiset(t)[c] - Exact(g, t, i, c)
  }

  /** `tempKeyboardStatus` after the first pass has looked at the tiles before i. */
  ghost function ExactPassSummary(g: seq<char>, t: seq<char>, i: nat): map<char, Status>
    requires |g| == |t| && i <= |g|
  {
    map c | c in g && Exact(g, t, i, c) > 0 :: Correct
  }

  /** `letterCounts` after the second pass has looked at the tiles before i. */
  ghost function MisplacedPassCounts(g: seq<char>, t: seq<char>, i: nat): map<char, int>
    requires |g| == |t| && i <= |g|
  {
    map c | c in t :: Pool(g, t, c) - Min(Misses(g, t, i, c), Pool(g, t, c))
  }

  /** `tempKeyboardStatus` after the second pass has looked at the tiles before i. */
  ghost function MisplacedPassSummary(g: seq<char>, t: seq<char>, i: nat): map<char, Status>
    requires |g| == |t| && i <= |g|
  {
    map c | c in g && (Exact(g, t, |g|, c) > 0 || (Misses(g, t, i, c) > 0 && Pool(g, t, c) > 0))
      :: if Exact(g, t, |g|, c) > 0 then Correct else Present
  }

  /** The state a colouring pass works on: the row's marks, `letterCounts` and `tempKeyboardStatus`. */
  datatype Pass = Pass(marks: seq<Status>, counts: map<char, int>, summary: map<char, Status>)

  /** `letterCounts` after one copy of c is taken from the pool. */
  function Take(counts: map<char, int>, c: char): map<char, int>
  {
    counts[c := (if c in counts then counts[c] else 0) - 1]
  }

  /** The state after the first pass has looked at the tiles before i, step by step. */
  ghost function ExactPass(g: seq<char>, t: seq<char>, i: nat): (p: Pass)
    requires |g| == |t| && i <= |g|
    ensures |p.marks| == |g|
  {
    if i == 0 then Pass(seq(|g|, _ => Absent), TargetCounts(t), map[])
    else
      var p := ExactPass(g, t, i - 1);
      if g[i - 1] == t[i - 1] then Pass(p.marks[i - 1 := Correct], Take(p.counts, g[i - 1]), p.summary[g[i - 1] := Correct])
      else p
  }

  /** The state after the second pass has looked at the tiles before i, step by step. */
  ghost function MisplacedPass(g: seq<char>, t: seq<char>, i: nat): (p: Pass)
    requires |g| == |t| && i <= |g|
    ensures |p.marks| == |g|
  {
    if i == 0 then ExactPass(g, t, |g|)
    else
      var p := MisplacedPass(g, t, i - 1);
      var c := g[i - 1];
      if p.marks[i - 1] == Correct then p
      else if c in t && (if c in p.counts then p.counts[c] else 0) > 0 then
        Pass(p.marks[i - 1 := Present], Take(p.counts, c),
             if c in p.summary && p.summary[c] == Correct then p.summary else p.summary[c := Present])
      else Pass(p.marks[i - 1 := Absent], p.counts, p.summary)
  }

  /** Counting one more letter adds one to its entry, or starts the entry at one. */
  lemma TargetCountsSnoc(s: seq<char>, x: char)
    ensures TargetCounts(s + [x]) ==
      TargetCounts(s)[x := (if x in TargetCounts(s) then TargetCounts(s)[x] else 0) + 1]
  {
    assert multiset(s + [x]) == multiset(s) + multiset{x};
    assert forall c :: c in s + [x] <==> c in s || c == x;
  }

  /** Builds `letterCounts`: how often each letter occurs in the target. */
  method CountLetters(target: seq<char>) returns (letterCounts: map<char, int>)
    ensures letterCounts == TargetCounts(target)
    ensures forall c :: c in letterCounts <==> c in target
  {
    letterCounts := map[];
    var j := 0;
    while j < |target|
      invariant 0 <= j <= |target|
      invariant letterCounts == TargetCounts(target[..j])
    {
      var ch := target[j];
      TargetCountsSnoc(target[..j], ch);
      assert target[..j + 1] == target[..j] + [ch];
      letterCounts := letterCounts[ch := (if ch in letterCounts then letterCounts[ch] else 0) + 1];
      j := j + 1;
    }
    assert target[..j] == target;
  }

  /**
   * The colouring of `submitGuess`: count the target's letters, mark exact
   * matches and take them from the pool, then mark the remaining tiles
   * Present while the pool for their letter lasts and Absent after.
   */
  method ScoreGuess(guess: seq<char>, target: seq<char>) returns (tiles: seq<Status>, keyStatus: map<char, Status>)
    requires |guess| == WORD_LENGTH && |target| == WORD_LENGTH
    ensures tiles == Feedback(guess, target)
    ensures keyStatus == GuessKeyStatus(guess, tiles)
  {
    var letterCounts := CountLetters(target);

    // A tile without a colour class reads as "not correct", as Absent does.
    var marks := new Status[WORD_LENGTH](_ => Absent);
    var tempKeyboardStatus: map<char, Status> := map[];
    assert marks[..] == ExactPass(guess, target, 0).marks;
    letterCounts, tempKeyboardStatus := MarkExactMatches(guess, target, marks, letterCounts, tempKeyboardStatus);
    letterCounts, tempKeyboardStatus := MarkMisplaced(guess, target, marks, letterCounts, tempKeyboardStatus);
    tiles := marks[..];
    keyStatus := tempKeyboardStatus;
    PassesComputeFeedback(guess, target);
  }

  /** The first pass: every exact match turns Correct, leaves the pool and marks its key Correct. */
  method MarkExactMatches(guess: seq<char>, target: seq<char>, marks: array<Status>,
                          counts: map<char, int>, summary: map<char, Status>)
      returns (letterCounts: map<char, int>, tempKeyboardStatus: map<char, Status>)
    requires |guess| == WORD_LENGTH && |target| == WORD_LENGTH && marks.Length == WORD_LENGTH
    requires Pass(marks[..], counts, summary) == ExactPass(guess, target, 0)
    modifies marks
    ensures Pass(marks[..], letterCounts, tempKeyboardStatus) == ExactPass(guess, target, WORD_LENGTH)
  {
    letterCounts, tempKeyboardStatus := counts, summary;
    var i := 0;
    while i < WORD_LENGTH
      invariant 0 <= i <= WORD_LENGTH
      invariant marks[..] == ExactPass(guess, target, i).marks
      invariant letterCounts == ExactPass(guess, target, i).counts
      invariant tempKeyboardStatus == ExactPass(guess, target, i).summary
    {
      var letter := guess[i];
      if letter == target[i] {
        ExactPassKeys(guess, target, i);
        marks[i] := Correct;
        letterCounts := letterCounts[letter := letterCounts[letter] - 1];
        tempKeyboardStatus := tempKeyboardStatus[letter := Correct];
      }
      i := i + 1;
    }
  }

  /**
   * The second pass: a tile that is not Correct turns Present while its
   * letter is in the target and left in the pool (taking one copy, and
   * marking the key Present unless it is Correct), and Absent otherwise.
   */
  method MarkMisplaced(guess: seq<char>, target: seq<char>, marks: array<Status>,
                       counts: map<char, int>, summary: map<char, Status>)
      returns (letterCounts: map<char, int>, tempKeyboardStatus: map<char, Status>)
    requires |guess| == WORD_LENGTH && |target| == WORD_LENGTH && marks.Length == WORD_LENGTH
    requires Pass(marks[..], counts, summary) == MisplacedPass(guess, target, 0)
    modifies marks
    ensures Pass(marks[..], letterCounts, tempKeyboardStatus) == MisplacedPass(guess, target, WORD_LENGTH)
  {
    letterCounts, tempKeyboardStatus := counts, summary;
    var i := 0;
    while i < WORD_LENGTH
      invariant 0 <= i <= WORD_LENGTH
      invariant marks[..] == MisplacedPass(guess, target, i).marks
      invariant letterCounts == MisplacedPass(guess, target, i).counts
      invariant tempKeyboardStatus == MisplacedPass(guess, target, i).summary
    {
      ghost var p := MisplacedPass(guess, target, i);
      var letter := guess[i];
      if marks[i] == Correct {
        assert MisplacedPass(guess, target, i + 1) == p;
        i := i + 1;
        continue;
      }
      var isInTarget := letter in target;
      var countForLetter := if letter in letterCounts then letterCounts[letter] else 0;
      if isInTarget && countForLetter > 0 {
        marks[i] := Present;
        letterCounts := letterCounts[letter := letterCounts[letter] - 1];
        if !(letter in tempKeyboardStatus && tempKeyboardStatus[letter] == Correct) {
          tempKeyboardStatus := tempKeyboardStatus[letter := Present];
        }
        assert MisplacedPass(guess, target, i + 1) == Pass(p.marks[i := Present], letterCounts, tempKeyboardStatus);
        assert marks[..] == p.marks[i := Present];
      } else {
        marks[i] := Absent;
        assert MisplacedPass(guess, target, i + 1) == Pass(p.marks[i := Absent], letterCounts, tempKeyboardStatus);
        assert marks[..] == p.marks[i := Absent];
      }
      i := i + 1;
    }
  }

  /** Every letter of the target keeps an entry in `letterCounts` during the first pass. */
  lemma {:induction false} ExactPassKeys(g: seq<char>, t: seq<char>, i: nat)
    requires |g| == |t| && i <= |g|
    ensures forall c :: c in ExactPass(g, t, i).counts <==> c in t
  {
    if i > 0 {
      ExactPassKeys(g, t, i - 1);
    }
  }

  /** The first pass marks exactly the exact matches it has passed. */
  lemma {:induction false} ExactMarks(g: seq<char>, t: seq<char>, i: nat)
    requires |g| == |t| && i <= |g|
    ensures forall j :: 0 <= j < |g| ==>
      ExactPass(g, t, i).marks[j] == if j < i && g[j] == t[j] then Correct else Absent
  {
    if i > 0 {
      ExactMarks(g, t, i - 1);
    }
  }

  /** The step-by-step first pass agrees with the closed forms of its pool and summary. */
  lemma {:induction false} ExactPassIs(g: seq<char>, t: seq<char>, i: nat)
    requires |g| == |t| && i <= |g|
    ensures ExactPass(g, t, i).counts == ExactPassCounts(g, t, i)
    ensures ExactPass(g, t, i).summary == ExactPassSummary(g, t, i)
  {
    if i == 0 {
      ExactPassStart(g, t);
    } else {
      ExactPassIs(g, t, i - 1);
      ExactPassStep(g, t, i - 1);
    }
  }

  /** The step-by-step second pass agrees with the closed forms. */
  lemma {:induction false} MisplacedPassIs(g: seq<char>, t: seq<char>, i: nat)
    requires |g| == |t| && i <= |g|
    ensures forall j :: 0 <= j < |g| ==>
      MisplacedPass(g, t, i).marks[j] == if j < i then Feedback(g, t)[j] else if g[j] == t[j] then Correct else Absent
    ensures MisplacedPass(g, t, i).counts == MisplacedPassCounts(g, t, i)
    ensures MisplacedPass(g, t, i).summary == MisplacedPassSummary(g, t, i)
  {
    if i == 0 {
      ExactMarks(g, t, |g|);
      ExactPassIs(g, t, |g|);
      PassesMeet(g, t);
    } else {
      var k := i - 1;
      MisplacedPassIs(g, t, k);
      var F := Feedback(g, t);
      assert F[k] == TileAt(g, t, k);
      var counts := MisplacedPassCounts(g, t, k);
      if g[k] == t[k] {
        MisplacedSkipState(g, t, k);
      } else if g[k] in counts && counts[g[k]] > 0 {
        MisplacedTakeState(g, t, k);
      } else {
        MisplacedRejectState(g, t, k);
      }
    }
  }

  /** A step of the second pass over an exact match changes nothing. */
  lemma MisplacedSkipState(g: seq<char>, t: seq<char>, k: nat)
    requires |g| == |t| && k < |g| && g[k] == t[k]
    requires MisplacedPass(g, t, k).counts == MisplacedPassCounts(g, t, k)
    requires MisplacedPass(g, t, k).summary == MisplacedPassSummary(g, t, k)
    requires MisplacedPass(g, t, k).marks[k] == Correct
    ensures MisplacedPass(g, t, k + 1) == MisplacedPass(g, t, k)
    ensures MisplacedPass(g, t, k + 1).counts == MisplacedPassCounts(g, t, k + 1)
    ensures MisplacedPass(g, t, k + 1).summary == MisplacedPassSummary(g, t, k + 1)
  {
    var F := Feedback(g, t);
    assert F[k] == TileAt(g, t, k);
  }

  /**
   * A step of the second pass over a misplaced letter whose pool is not
   * used up: the tile is Present, one copy leaves the pool, and the key
   * summary records Present unless it already holds Correct. The
   * closed-form half of the step is MisplacedPassTake, kept apart to keep
   * each proof small.
   */
  lemma MisplacedTakeState(g: seq<char>, t: seq<char>, k: nat)
    requires |g| == |t| && k < |g| && g[k] != t[k]
    requires MisplacedPass(g, t, k).counts == MisplacedPassCounts(g, t, k)
    requires MisplacedPass(g, t, k).summary == MisplacedPassSummary(g, t, k)
    requires MisplacedPass(g, t, k).marks[k] == Absent
    requires g[k] in MisplacedPassCounts(g, t, k) && MisplacedPassCounts(g, t, k)[g[k]] > 0
    ensures Feedback(g, t)[k] == Present
    ensures MisplacedPass(g, t, k + 1).marks == MisplacedPass(g, t, k).marks[k := Present]
    ensures MisplacedPass(g, t, k + 1).counts == MisplacedPassCounts(g, t, k + 1)
    ensures MisplacedPass(g, t, k + 1).summary == MisplacedPassSummary(g, t, k + 1)
  {
    MisplacedPassTake(g, t, k);
  }

  /**
   * A step of the second pass over a letter whose pool is used up (or
   * empty): the tile is Absent and nothing else changes. The closed-form
   * half of the step is MisplacedPassReject, kept apart to keep each proof small.
   */
  lemma MisplacedRejectState(g: seq<char>, t: seq<char>, k: nat)
    requires |g| == |t| && k < |g| && g[k] != t[k]
    requires MisplacedPass(g, t, k).counts == MisplacedPassCounts(g, t, k)
    requires MisplacedPass(g, t, k).summary == MisplacedPassSummary(g, t, k)
    requires MisplacedPass(g, t, k).marks[k] == Absent
    requires !(g[k] in MisplacedPassCounts(g, t, k) && MisplacedPassCounts(g, t, k)[g[k]] > 0)
    ensures Feedback(g, t)[k] == Absent
    ensures MisplacedPass(g, t, k + 1).marks == MisplacedPass(g, t, k).marks[k := Absent]
    ensures MisplacedPass(g, t, k + 1).counts == MisplacedPassCounts(g, t, k + 1)
    ensures MisplacedPass(g, t, k + 1).summary == MisplacedPassSummary(g, t, k + 1)
  {
    MisplacedPassReject(g, t, k);
  }

  /**
   * No decrement of the first pass drives `letterCounts` below zero: after
   * any prefix of tiles, each entry lies between zero and the target's copies.
   */
  lemma ExactPassCountsBounded(g: seq<char>, t: seq<char>, i: nat)
    requires |g| == |t| && i <= |g|
    ensures forall c :: c in ExactPass(g, t, i).counts ==> c in t
    ensures forall c :: c in ExactPass(g, t, i).counts ==>
      0 <= ExactPass(g, t, i).counts[c] <= multiset(t)[c]
  {
    ExactPassIs(g, t, i);
    var m := ExactPassCounts(g, t, i);
    forall c | c in m
      ensures 0 <= m[c] <= multiset(t)[c]
    {
      ExactGrows(g, t, i, |g|, c);
      PoolBounds(g, t, c);
    }
  }

  /**
   * No decrement of the second pass drives `letterCounts` below zero: after
   * any prefix of tiles, each entry lies between zero and the letter's pool.
   */
  lemma MisplacedPassCountsBounded(g: seq<char>, t: seq<char>, i: nat)
    requires |g| == |t| && i <= |g|
    ensures forall c :: c in MisplacedPass(g, t, i).counts ==> c in t
    ensures forall c :: c in MisplacedPass(g, t, i).counts ==>
      0 <= MisplacedPass(g, t, i).counts[c] <= Pool(g, t, c)
  {
    MisplacedPassIs(g, t, i);
    var m := MisplacedPassCounts(g, t, i);
    forall c | c in m
      ensures 0 <= m[c] <= Pool(g, t, c)
    {
      PoolBounds(g, t, c);
    }
  }

  /** The two passes together produce the reference row and the per-guess key summary. */
  lemma PassesComputeFeedback(g: seq<char>, t: seq<char>)
    requires |g| == |t|
    ensures MisplacedPass(g, t, |g|).marks == Feedback(g, t)
    ensures MisplacedPass(g, t, |g|).summary == GuessKeyStatus(g, Feedback(g, t))
  {
    MisplacedPassIs(g, t, |g|);
    SummaryIsGuessKeyStatus(g, t);
  }

  /** At the end of the second pass `tempKeyboardStatus` is the per-guess key summary of the row. */
  lemma SummaryIsGuessKeyStatus(g: seq<char>, t: seq<char>)
    requires |g| == |t|
    ensures MisplacedPassSummary(g, t, |g|) == GuessKeyStatus(g, Feedback(g, t))
  {
    forall c | c in g
      ensures Shows(g, Feedback(g, t), |g|, c, Correct) <==> Exact(g, t, |g|, c) > 0
      ensures Shows(g, Feedback(g, t), |g|, c, Present) <==> Misses(g, t, |g|, c) > 0 && Pool(g, t, c) > 0
    {
      ShowsPresentIff(g, t, c);
      ShowsCorrectIff(g, t, c);
    }
  }

  lemma ShowsCorrectIff(g: seq<char>, t: seq<char>, c: char)
    requires |g| == |t|
    ensures Shows(g, Feedback(g, t), |g|, c, Correct) <==> Exact(g, t, |g|, c) > 0
  {
    var F := Feedback(g, t);
    ShowsWitness(g, F, |g|, c, Correct);
    ExactWitness(g, t, |g|, c);
    if Exact(g, t, |g|, c) > 0 {
      var j :| 0 <= j < |g| && g[j] == c && t[j] == c;
      assert F[j] == TileAt(g, t, j);
    }
  }

  lemma ShowsPresentIff(g: seq<char>, t: seq<char>, c: char)
    requires |g| == |t|
    ensures Shows(g, Feedback(g, t), |g|, c, Present) <==> Misses(g, t, |g|, c) > 0 && Pool(g, t, c) > 0
  {
    var F := Feedback(g, t);
    ShowsWitness(g, F, |g|, c, Present);
    if Shows(g, F, |g|, c, Present) {
      var j :| 0 <= j < |g| && g[j] == c && F[j] == Present;
      assert F[j] == TileAt(g, t, j);
      MissesGrow(g, t, j, |g|, c);
    }
    if Misses(g, t, |g|, c) > 0 && Pool(g, t, c) > 0 {
      FirstMissPresent(g, t, |g|, c);
    }
  }

  lemma ExactPassStart(g: seq<char>, t: seq<char>)
    requires |g| == |t|
    ensures TargetCounts(t) == ExactPassCounts(g, t, 0)
    ensures ExactPassSummary(g, t, 0) == map[]
  {
  }

  /** One step of the first pass: an exact match takes one copy from the pool and marks its key Correct. */
  lemma ExactPassStep(g: seq<char>, t: seq<char>, i: nat)
    requires |g| == |t| && i < |g|
    ensures g[i] == t[i] ==>
      g[i] in ExactPassCounts(g, t, i) &&
      ExactPassCounts(g, t, i + 1) == ExactPassCounts(g, t, i)[g[i] := ExactPassCounts(g, t, i)[g[i]] - 1] &&
      ExactPassSummary(g, t, i + 1) == ExactPassSummary(g, t, i)[g[i] := Correct]
    ensures g[i] != t[i] ==>
      ExactPassCounts(g, t, i + 1) == ExactPassCounts(g, t, i) &&
      ExactPassSummary(g, t, i + 1) == ExactPassSummary(g, t, i)
  {
    var F := Feedback(g, t);
    assert F[i] == TileAt(g, t, i);
  }

  lemma PassesMeet(g: seq<char>, t: seq<char>)
    requires |g| == |t|
    ensures ExactPassCounts(g, t, |g|) == MisplacedPassCounts(g, t, 0)
    ensures ExactPassSummary(g, t, |g|) == MisplacedPassSummary(g, t, 0)
  {
    var e, m := ExactPassCounts(g, t, |g|), MisplacedPassCounts(g, t, 0);
    forall c | c in t
      ensures e[c] == m[c]
    {
      PoolBounds(g, t, c);
    }
  }

  /** The closed forms over a misplaced letter whose pool is not used up: its tile is Present and one copy leaves the pool. */
  lemma MisplacedPassTake(g: seq<char>, t: seq<char>, i: nat)
    requires |g| == |t| && i < |g| && g[i] != t[i]
    requires g[i] in MisplacedPassCounts(g, t, i) && MisplacedPassCounts(g, t, i)[g[i]] > 0
    ensures Feedback(g, t)[i] == Present
    ensures MisplacedPassCounts(g, t, i + 1) == MisplacedPassCounts(g, t, i)[g[i] := MisplacedPassCounts(g, t, i)[g[i]] - 1]
    ensures MisplacedPassSummary(g, t, i + 1) ==
      if g[i] in MisplacedPassSummary(g, t, i) && MisplacedPassSummary(g, t, i)[g[i]] == Correct
      then MisplacedPassSummary(g, t, i)
      else MisplacedPassSummary(g, t, i)[g[i] := Present]
  {
    var F := Feedback(g, t);
    assert F[i] == TileAt(g, t, i);
    PoolBounds(g, t, g[i]);
  }

  /** The closed forms do not move over a rejected misplaced letter, whose tile is Absent. */
  lemma MisplacedPassReject(g: seq<char>, t: seq<char>, i: nat)
    requires |g| == |t| && i < |g| && g[i] != t[i]
    requires !(g[i] in MisplacedPassCounts(g, t, i) && MisplacedPassCounts(g, t, i)[g[i]] > 0)
    ensures Feedback(g, t)[i] == Absent
    ensures MisplacedPassCounts(g, t, i + 1) == MisplacedPassCounts(g, t, i)
    ensures MisplacedPassSummary(g, t, i + 1) == MisplacedPassSummary(g, t, i)
  {
    var F := Feedback(g, t);
    assert F[i] == TileAt(g, t, i);
    PoolBounds(g, t, g[i]);
  }

  // ---------------------------------------------------------------------------
  // Counting facts

  lemma {:induction false} OccMultiset(s: seq<char>, k: nat, c: char)
    requires k <= |s|
    ensures Occ(s, k, c) == multiset(s[..k])[c]
  {
    if k > 0 {
      OccMultiset(s, k - 1, c);
      assert s[..k] == s[..k - 1] + [s[k - 1]];
    }
  }

  lemma OccWhole(s: seq<char>, c: char)
    ensures Occ(s, |s|, c) == multiset(s)[c]
  {
    OccMultiset(s, |s|, c);
    assert s[..|s|] == s;
  }

  lemma {:induction false} ExactAtMostOcc(g: seq<char>, t: seq<char>, k: nat, c: char)
    requires |g| == |t| && k <= |g|
    ensures Exact(g, t, k, c) <= Occ(t, k, c) && Exact(g, t, k, c) <= Occ(g, k, c)
  {
    if k > 0 {
      ExactAtMostOcc(g, t, k - 1, c);
    }
  }

  /** Exact matches only accumulate as the prefix grows. */
  lemma {:induction false} ExactGrows(g: seq<char>, t: seq<char>, i: nat, j: nat, c: char)
    requires |g| == |t| && i <= j <= |g|
    ensures Exact(g, t, i, c) <= Exact(g, t, j, c)
    decreases j
  {
    if i < j {
      ExactGrows(g, t, i, j - 1, c);
    }
  }

  lemma {:induction false} ExactPlusMisses(g: seq<char>, t: seq<char>, k: nat, c: char)
    requires |g| == |t| && k <= |g|
    ensures Exact(g, t, k, c) + Misses(g, t, k, c) == Occ(g, k, c)
  {
    if k > 0 {
      ExactPlusMisses(g, t, k - 1, c);
    }
  }

  lemma {:induction false} ExactWitness(g: seq<char>, t: seq<char>, k: nat, c: char)
    requires |g| == |t| && k <= |g|
    ensures Exact(g, t, k, c) > 0 <==> exists j :: 0 <= j < k && g[j] == c && t[j] == c
  {
    if k > 0 {
      ExactWitness(g, t, k - 1, c);
    }
  }

  /** The pool for c never goes below zero nor above the target's copies of c. */
  lemma PoolBounds(g: seq<char>, t: seq<char>, c: char)
    requires |g| == |t|
    ensures Pool(g, t, c) == multiset(t)[c] - Exact(g, t, |g|, c)
    ensures 0 <= Pool(g, t, c) <= multiset(t)[c]
  {
    ExactAtMostOcc(g, t, |g|, c);
    OccWhole(t, c);
  }

  lemma {:induction false} MissesGrow(g: seq<char>, t: seq<char>, i: nat, j: nat, c: char)
    requires |g| == |t| && i < j <= |g|
    requires g[i] == c && t[i] != c
    ensures Misses(g, t, i, c) < Misses(g, t, j, c)
  {
    if j > i + 1 {
      MissesGrow(g, t, i, j - 1, c);
    }
  }

  lemma {:induction false} ShowsWitness(g: seq<char>, r: seq<Status>, k: nat, c: char, s: Status)
    requires k <= |g| && k <= |r|
    ensures Shows(g, r, k, c, s) <==> exists j :: 0 <= j < k && g[j] == c && r[j] == s
  {
    if k > 0 {
      ShowsWitness(g, r, k - 1, c, s);
    }
  }

  // ---------------------------------------------------------------------------
  // Properties of the colouring

  /**
   * What a tile's colour means: Correct exactly at exact matches; a Present
   * tile's letter occurs in the target at some other position.
   */
  lemma TileMeaning(g: seq<char>, t: seq<char>, i: nat)
    requires |g| == |t| && i < |g|
    ensures Feedback(g, t)[i] == Correct <==> g[i] == t[i]
    ensures Feedback(g, t)[i] == Present ==> g[i] != t[i] && g[i] in t
  {
    PoolBounds(g, t, g[i]);
  }

  /** Every tile is Correct exactly when the guess is the target. */
  lemma AllCorrectIffMatch(g: seq<char>, t: seq<char>)
    requires |g| == |t|
    ensures (forall i :: 0 <= i < |g| ==> Feedback(g, t)[i] == Correct) <==> g == t
  {
    if forall i :: 0 <= i < |g| ==> Feedback(g, t)[i] == Correct {
      forall i | 0 <= i < |g| ensures g[i] == t[i] {
        TileMeaning(g, t, i);
      }
    }
  }

  lemma {:induction false} KeptPrefix(g: seq<char>, t: seq<char>, k: nat, c: char)
    requires |g| == |t| && k <= |g|
    ensures Kept(g, Feedback(g, t), k, c) == Exact(g, t, k, c) + Min(Misses(g, t, k, c), Pool(g, t, c))
  {
    if k > 0 {
      KeptPrefix(g, t, k - 1, c);
      var F := Feedback(g, t);
      assert F[k - 1] == TileAt(g, t, k - 1);
      assert Kept(g, F, k, c) == Kept(g, F, k - 1, c) + (if g[k - 1] == c && F[k - 1] != Absent then 1 else 0);
      var m := Misses(g, t, k - 1, c);
      if g[k - 1] == c && t[k - 1] != c {
        assert F[k - 1] != Absent <==> m < Pool(g, t, c);
      } else if g[k - 1] == c {
        assert F[k - 1] == Correct;
      }
    } else {
      PoolBounds(g, t, c);
    }
  }

  /**
   * Duplicate-letter accounting: for every letter c, the tiles of c that are
   * not Absent number min(copies of c in the guess, copies of c in the target).
   */
  lemma PoolAccounting(g: seq<char>, t: seq<char>, c: char)
    requires |g| == |t|
    ensures Kept(g, Feedback(g, t), |g|, c) == Min(multiset(g)[c], multiset(t)[c])
  {
    KeptPrefix(g, t, |g|, c);
    ExactPlusMisses(g, t, |g|, c);
    OccWhole(g, c);
    OccWhole(t, c);
  }

  /**
   * Left-to-right priority: of two misplaced tiles with the same letter,
   * the right one is Present only if the left one is.
   */
  lemma LeftToRight(g: seq<char>, t: seq<char>, i: nat, j: nat)
    requires |g| == |t| && i < j < |g| && g[i] == g[j]
    requires Feedback(g, t)[i] != Correct && Feedback(g, t)[j] != Correct
    ensures Feedback(g, t)[j] == Present ==> Feedback(g, t)[i] == Present
  {
    MissesGrow(g, t, i, j, g[i]);
  }

  lemma {:induction false} FirstMissPresent(g: seq<char>, t: seq<char>, k: nat, c: char)
    requires |g| == |t| && k <= |g|
    requires Misses(g, t, k, c) > 0 && Pool(g, t, c) > 0
    ensures Shows(g, Feedback(g, t), k, c, Present)
  {
    if Misses(g, t, k - 1, c) > 0 {
      FirstMissPresent(g, t, k - 1, c);
    }
  }

  /**
   * The per-guess key summary: a guessed letter gets an entry exactly when
   * it occurs in the target, and the entry is Correct exactly when the
   * letter matched its position somewhere.
   */
  lemma GuessKeyStatusMeaning(g: seq<char>, t: seq<char>, c: char)
    requires |g| == |t|
    ensures c in GuessKeyStatus(g, Feedback(g, t)) <==> c in g && c in t
    ensures c in GuessKeyStatus(g, Feedback(g, t)) ==>
      (GuessKeyStatus(g, Feedback(g, t))[c] == Correct <==> exists i :: 0 <= i < |g| && g[i] == c && t[i] == c)
  {
    var F := Feedback(g, t);
    ShowsWitness(g, F, |g|, c, Correct);
    ShowsWitness(g, F, |g|, c, Present);
    if Shows(g, F, |g|, c, Present) {
      var j :| 0 <= j < |g| && g[j] == c && F[j] == Present;
      TileMeaning(g, t, j);
    }
    if c in g && c in t {
      ExactWitness(g, t, |g|, c);
      if Exact(g, t, |g|, c) == 0 {
        ExactPlusMisses(g, t, |g|, c);
        OccWhole(g, c);
        OccWhole(t, c);
        FirstMissPresent(g, t, |g|, c);
      } else {
        var j :| 0 <= j < |g| && g[j] == c && t[j] == c;
        assert F[j] == Correct;
      }
    }
  }

  /** The pools of the letters of "paper" against "apple": the exact p uses up one of the two p's. */
  lemma PaperPools()
    ensures Pool("paper", "apple", 'p') == 1 && Pool("paper", "apple", 'a') == 1
    ensures Pool("paper", "apple", 'e') == 1 && Pool("paper", "apple", 'r') == 0
  {
    assert Occ("apple", 5, 'p') == 2 && Exact("paper", "apple", 5, 'p') == 1;
    assert Occ("apple", 5, 'a') == 1 && Exact("paper", "apple", 5, 'a') == 0;
    assert Occ("apple", 5, 'e') == 1 && Exact("paper", "apple", 5, 'e') == 0;
    assert Occ("apple", 5, 'r') == 0 && Exact("paper", "apple", 5, 'r') == 0;
  }

  /** Worked example: target "apple", guess "paper"; the second p finds the pool for p used up by the exact match. */
  lemma PaperAgainstApple()
    ensures Feedback("paper", "apple") == [Present, Present, Correct, Present, Absent]
  {
    PaperPools();
    var F := Feedback("paper", "apple");
    assert F[0] == TileAt("paper", "apple", 0) == Present;
    assert F[1] == TileAt("paper", "apple", 1) == Present;
    assert F[2] == TileAt("paper", "apple", 2) == Correct;
    assert F[3] == TileAt("paper", "apple", 3) == Present;
    assert F[4] == TileAt("paper", "apple", 4) == Absent;
  }

  /** The pools of the letters of "ozone" against "robot": neither o of the target is matched exactly. */
  lemma OzonePools()
    ensures Pool("ozone", "robot", 'o') == 2 && Pool("ozone", "robot", 'z') == 0
    ensures Pool("ozone", "robot", 'n') == 0 && Pool("ozone", "robot", 'e') == 0
  {
    assert Occ("robot", 5, 'o') == 2 && Exact("ozone", "robot", 5, 'o') == 0;
    assert Occ("robot", 5, 'z') == 0 && Exact("ozone", "robot", 5, 'z') == 0;
    assert Occ("robot", 5, 'n') == 0 && Exact("ozone", "robot", 5, 'n') == 0;
    assert Occ("robot", 5, 'e') == 0 && Exact("ozone", "robot", 5, 'e') == 0;
  }

  /** Worked example: target "robot", guess "ozone"; both misplaced o's are Present, the other letters Absent. */
  lemma OzoneAgainstRobot()
    ensures Feedback("ozone", "robot") == [Present, Absent, Present, Absent, Absent]
  {
    OzonePools();
    var F := Feedback("ozone", "robot");
    assert F[0] == TileAt("ozone", "robot", 0) == Present;
    assert F[1] == TileAt("ozone", "robot", 1) == Absent;
    assert F[2] == TileAt("ozone", "robot", 2) == Present;
    assert F[3] == TileAt("ozone", "robot", 3) == Absent;
    assert F[4] == TileAt("ozone", "robot", 4) == Absent;
  }
}
