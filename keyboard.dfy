/**
 * The on-screen keyboard's colours: the order in which a key may change
 * colour (`updateKeyboardKey`) and the fold of one guess's key summary
 * into the keyboard at the end of `submitGuess`.
 *
 * A keyboard is a map from letter to colour; a letter missing from the map
 * is a key with no colour class (and enabled). A key is disabled exactly
 * when it is Absent, so the disabled flag is not kept separately.
 */
module Keyboard {
  import opened Scoring

  datatype Option<T> = None | Some(value: T)

  /** Strength of a key colour; a key without a colour has strength 0. */
  function Weight(s: Status): nat
  {
    match s
    case Absent => 1
    case Present => 2
    case Correct => 3
  }

  function Rank(kb: map<char, Status>, c: char): nat
  {
    if c in kb then Weight(kb[c]) else 0
  }

  function Max(a: nat, b: nat): nat { if a < b then b else a }

  /**
   * Reference for one key update: key c ends with the stronger of its old
   * colour and s, and every other key is left alone.
   */
  function Raised(kb: map<char, Status>, c: char, s: Status): (kb': map<char, Status>)
    ensures c in kb' && Rank(kb', c) == Max(Rank(kb, c), Weight(s))
    ensures forall d :: d != c ==> (d in kb' <==> d in kb)
    ensures forall d :: d != c && d in kb ==> kb'[d] == kb[d]
  {
    if Rank(kb, c) < Weight(s) then kb[c := s] else kb
  }

  /**
   * The update the keyboard pass asks for letter c, if any: the per-guess
   * summary's Correct or Present, otherwise Absent when the target lacks c.
   */
  function Hint(c: char, ks: map<char, Status>, t: seq<char>): Option<Status>
  {
    if c in ks && ks[c] == Correct then Some(Correct)
    else if c in ks && ks[c] == Present then Some(Present)
    else if c !in t then Some(Absent)
    else None
  }

  /** The letters of `letters` for which the keyboard pass calls an update. */
  function Hinted(letters: set<char>, ks: map<char, Status>, t: seq<char>): set<char>
  {
    set c | c in letters && Hint(c, ks, t).Some?
  }

  /**
   * The keyboard after every letter of `letters` has had its update: a
   * hinted letter takes the stronger of its old colour and the hint; every
   * other key keeps its colour. Each letter touches only its own key, so
   * the order of the updates does not matter.
   */
  function Folded(kb: map<char, Status>, letters: set<char>, ks: map<char, Status>, t: seq<char>): map<char, Status>
  {
    map c | c in kb.Keys + Hinted(letters, ks, t) ::
      if c in Hinted(letters, ks, t) then Raised(kb, c, Hint(c, ks, t).value)[c] else kb[c]
  }

  /** A coloured key is Absent exactly when its letter is not in the target. */
  predicate KeysSound(kb: map<char, Status>, t: seq<char>)
  {
    forall c :: c in kb ==> (kb[c] == Absent <==> c !in t)
  }

  /** No letter has been folded in yet: the keyboard is as it was. */
  lemma FoldEmpty(kb: map<char, Status>, ks: map<char, Status>, t: seq<char>)
    ensures Folded(kb, {}, ks, t) == kb
  {
    assert Hinted({}, ks, t) == {};
  }

  /** One more letter folded in is one more call of the key update (or none, without a hint). */
  lemma FoldStep(kb: map<char, Status>, done: set<char>, x: char, ks: map<char, Status>, t: seq<char>)
    requires x !in done
    ensures Folded(kb, done + {x}, ks, t) ==
      match Hint(x, ks, t)
      case Some(s) => Raised(Folded(kb, done, ks, t), x, s)
      case None => Folded(kb, done, ks, t)
  {
    var before := Folded(kb, done, ks, t);
    var after := Folded(kb, done + {x}, ks, t);
    assert Hinted(done + {x}, ks, t) == Hinted(done, ks, t) + (if Hint(x, ks, t).Some? then {x} else {});
    match Hint(x, ks, t)
    case Some(s) =>
      var r := Raised(before, x, s);
      assert forall c :: c in after <==> c in r;
      assert before.Keys <= kb.Keys + Hinted(done, ks, t);
      forall c | c in after
        ensures after[c] == r[c]
      {
        if c != x {
          assert c in before;
        } else {
          assert x !in Hinted(done, ks, t);
          assert x in before ==> before[x] == kb[x];
        }
      }
    case None =>
      assert Hinted(done + {x}, ks, t) == Hinted(done, ks, t);
  }

  /** Folding a guess never lowers a key, and leaves the keys of other letters as they were. */
  lemma FoldNeverDowngrades(kb: map<char, Status>, letters: set<char>, ks: map<char, Status>, t: seq<char>)
    ensures forall c :: Rank(kb, c) <= Rank(Folded(kb, letters, ks, t), c)
    ensures forall c :: c !in letters ==> (c in Folded(kb, letters, ks, t) <==> c in kb)
    ensures forall c :: c !in letters && c in kb ==> Folded(kb, letters, ks, t)[c] == kb[c]
  {
    var F := Folded(kb, letters, ks, t);
    forall c
      ensures Rank(kb, c) <= Rank(F, c)
    {
      if c in Hinted(letters, ks, t) {
        var s := Hint(c, ks, t).value;
        assert Rank(F, c) == Rank(Raised(kb, c, s), c);
      }
    }
  }

  /** Each hinted letter's key ends with the stronger of its old colour and its hint. */
  lemma FoldRaises(kb: map<char, Status>, letters: set<char>, ks: map<char, Status>, t: seq<char>, c: char)
    requires c in letters && Hint(c, ks, t).Some?
    ensures c in Folded(kb, letters, ks, t)
    ensures Rank(Folded(kb, letters, ks, t), c) == Max(Rank(kb, c), Weight(Hint(c, ks, t).value))
  {
    var s := Hint(c, ks, t).value;
    assert c in Hinted(letters, ks, t);
    assert Rank(Folded(kb, letters, ks, t), c) == Rank(Raised(kb, c, s), c);
  }

  /**
   * A key is made Absent only for a letter the target lacks: if the summary
   * only names target letters, folding it keeps the keyboard sound.
   */
  lemma FoldKeepsSound(kb: map<char, Status>, letters: set<char>, ks: map<char, Status>, t: seq<char>)
    requires KeysSound(kb, t)
    requires forall c :: c in ks ==> c in t
    ensures KeysSound(Folded(kb, letters, ks, t), t)
  {
    var F := Folded(kb, letters, ks, t);
    forall c | c in F
      ensures F[c] == Absent <==> c !in t
    {
      if c in Hinted(letters, ks, t) {
        var s := Hint(c, ks, t).value;
        var r := Raised(kb, c, s);
        assert F[c] == r[c];
        if s == Absent {
          assert c !in t;
          assert c in kb ==> kb[c] == Absent;
        } else {
          assert c in ks && c in t;
          assert Rank(r, c) >= 2;
        }
      }
    }
  }

  /**
   * Every guessed letter gets an update from the keyboard pass: the last
   * branch's check that the target lacks the letter never fails, and the
   * update is Absent exactly when the target lacks the letter.
   */
  lemma GuessedLettersHinted(g: seq<char>, t: seq<char>, c: char)
    requires |g| == |t| && c in g
    ensures Hint(c, GuessKeyStatus(g, Feedback(g, t)), t).Some?
    ensures Hint(c, GuessKeyStatus(g, Feedback(g, t)), t) == Some(Absent) <==> c !in t
  {
    GuessKeyStatusMeaning(g, t, c);
  }
}
