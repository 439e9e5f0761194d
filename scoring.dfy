/**
 * The scoring rule of a round: each guessed character earns a black mark 'k'
 * (right colour, right position), a white mark 'w' (colour present elsewhere
 * in the secret) or nothing, and the marks are reported sorted.
 */
module Scoring {
  import opened Sequences

  /** Every character is a black mark 'k' or a white mark 'w'. */
  predicate IsMarks(m: string) {
    forall i :: 0 <= i < |m| ==> m[i] == 'k' || m[i] == 'w'
  }

  /** Characters in non-decreasing order, as `std::sort` leaves them. */
  predicate Ascending(m: string) {
    forall i, j :: 0 <= i < j < |m| ==> m[i] <= m[j]
  }

  function Repeat(c: char, n: nat): (r: string)
    ensures |r| == n && forall i :: 0 <= i < n ==> r[i] == c
  {
    if n == 0 then [] else Repeat(c, n - 1) + [c]
  }

  /** The mark the guessed character `c` earns at position `i` of the secret. */
  function Mark(c: char, secret: string, i: nat): string
    requires i < |secret|
  {
    if c == secret[i] then "k" else if c in secret then "w" else ""
  }

  /** The marks of every guessed position, in position order, before sorting. */
  function Marks(guess: string, secret: string): (r: string)
    requires |guess| <= |secret|
    ensures IsMarks(r) && |r| <= |guess|
    decreases |guess|
  {
    if guess == [] then []
    else Marks(guess[..|guess| - 1], secret) + Mark(guess[|guess| - 1], secret, |guess| - 1)
  }

  /** Positions where guess and secret hold the same colour. */
  function ExactPositions(guess: string, secret: string): set<nat>
    requires |guess| <= |secret|
  {
    set i: nat | i < |guess| && guess[i] == secret[i]
  }

  /** Positions where the guess holds a colour the secret has, but elsewhere. */
  function PartialPositions(guess: string, secret: string): set<nat>
    requires |guess| <= |secret|
  {
    set i: nat | i < |guess| && guess[i] != secret[i] && guess[i] in secret
  }

  /** `std::sort` of a mark string: every 'k' first, then every 'w'. */
  function SortMarks(m: string): string
    requires IsMarks(m)
  {
    Repeat('k', multiset(m)['k']) + Repeat('w', multiset(m)['w'])
  }

  /** The feedback of a round without its trailing newline: the sorted marks. */
  function Feedback(guess: string, secret: string): string
    requires |guess| <= |secret|
  {
    SortMarks(Marks(guess, secret))
  }

  /** SortMarks sorts: its result is an ascending permutation of its argument. */
  lemma SortMarksSorts(m: string)
    requires IsMarks(m)
    ensures IsMarks(SortMarks(m)) && Ascending(SortMarks(m))
    ensures multiset(SortMarks(m)) == multiset(m)
  {
    BlocksPermutation(m);
  }

  /**
   * The feedback is one black mark per exact position followed by one white
   * mark per partial position, so it never has more marks than the guess
   * has characters.
   */
  lemma FeedbackCounts(guess: string, secret: string)
    requires |guess| <= |secret|
    ensures Feedback(guess, secret)
            == Repeat('k', |ExactPositions(guess, secret)|) + Repeat('w', |PartialPositions(guess, secret)|)
    ensures |Feedback(guess, secret)| <= |guess|
  {
    MarksCount(guess, secret);
    SortMarksSorts(Marks(guess, secret));
  }

  lemma {:induction false} RepeatCount(c: char, n: nat)
    ensures multiset(Repeat(c, n))[c] == n
    ensures forall d :: d != c ==> multiset(Repeat(c, n))[d] == 0
  {
    if n > 0 {
      RepeatCount(c, n - 1);
      assert Repeat(c, n) == Repeat(c, n - 1) + [c];
    }
  }

  /** A mark string holds nothing but 'k' and 'w'. */
  lemma MarksMultiset(m: string)
    requires IsMarks(m)
    ensures forall d :: multiset(m)[d] > 0 ==> d == 'k' || d == 'w'
  {
    forall d | multiset(m)[d] > 0
      ensures d == 'k' || d == 'w'
    {
      assert d in m;
      var i :| 0 <= i < |m| && m[i] == d;
    }
  }

  lemma BlocksPermutation(m: string)
    requires IsMarks(m)
    ensures multiset(Repeat('k', multiset(m)['k']) + Repeat('w', multiset(m)['w'])) == multiset(m)
  {
    var r := Repeat('k', multiset(m)['k']) + Repeat('w', multiset(m)['w']);
    RepeatCount('k', multiset(m)['k']);
    RepeatCount('w', multiset(m)['w']);
    MarksMultiset(m);
    forall d
      ensures multiset(r)[d] == multiset(m)[d]
    {
    }
  }

  /** An ascending mark string is a block of 'k' followed by a block of 'w'. */
  lemma {:induction false} AscendingMarksAreBlocks(t: string)
    requires IsMarks(t)
    requires forall i :: 0 < i < |t| ==> t[i - 1] <= t[i]
    ensures t == Repeat('k', multiset(t)['k']) + Repeat('w', multiset(t)['w'])
  {
    if t != [] {
      var p := t[..|t| - 1];
      AscendingMarksAreBlocks(p);
      var b := multiset(p)['w'];
      assert b > 0 ==> p[|p| - 1] == 'w';
      assert |p| > 0 ==> t[|p| - 1] <= t[|p|];
      GrowBlocks(t, multiset(p)['k'], b);
    }
  }

  /** Appending a mark to a block string that allows it keeps the block shape. */
  lemma GrowBlocks(t: string, a: nat, b: nat)
    requires |t| > 0
    requires t[..|t| - 1] == Repeat('k', a) + Repeat('w', b)
    requires multiset(t[..|t| - 1])['k'] == a && multiset(t[..|t| - 1])['w'] == b
    requires t[|t| - 1] == 'w' || (t[|t| - 1] == 'k' && b == 0)
    ensures t == Repeat('k', multiset(t)['k']) + Repeat('w', multiset(t)['w'])
  {
    var p, x := t[..|t| - 1], t[|t| - 1];
    assert t == p + [x];
    assert multiset(t) == multiset(p) + multiset{x};
  }

  /**
   * Whatever algorithm sorts a mark string, its result is SortMarks's:
   * an ascending permutation of a mark string is unique.
   */
  lemma SortedMarksUnique(t: string, m: string)
    requires IsMarks(m)
    requires Ascending(t) && multiset(t) == multiset(m)
    ensures t == SortMarks(m)
  {
    MarksMultiset(m);
    SortMarksSorts(m);
    forall i | 0 <= i < |t|
      ensures t[i] == 'k' || t[i] == 'w'
    {
      assert t[i] in multiset(t);
    }
    AscendingMarksAreBlocks(t);
  }

  /** How the position sets grow when the guess grows by one character. */
  lemma PositionsStep(guess: string, secret: string)
    requires 0 < |guess| <= |secret|
    ensures var n, p := |guess| - 1, guess[..|guess| - 1];
      && n !in ExactPositions(p, secret) && n !in PartialPositions(p, secret)
      && ExactPositions(guess, secret)
         == ExactPositions(p, secret) + (if guess[n] == secret[n] then {n} else {})
      && PartialPositions(guess, secret)
         == PartialPositions(p, secret) + (if guess[n] != secret[n] && guess[n] in secret then {n} else {})
  {
  }

  /** The black marks count the exact positions and the white marks the partial ones. */
  lemma {:induction false} MarksCount(guess: string, secret: string)
    requires |guess| <= |secret|
    ensures multiset(Marks(guess, secret))['k'] == |ExactPositions(guess, secret)|
    ensures multiset(Marks(guess, secret))['w'] == |PartialPositions(guess, secret)|
    decreases |guess|
  {
    if guess != [] {
      var p := guess[..|guess| - 1];
      MarksCount(p, secret);
      PositionsStep(guess, secret);
    }
  }

  /** Guessing a prefix of the secret marks every guessed position black. */
  lemma {:induction false} MarksOfOwnPrefix(secret: string, n: nat)
    requires n <= |secret|
    ensures Marks(secret[..n], secret) == Repeat('k', n)
  {
    if n > 0 {
      MarksOfOwnPrefix(secret, n - 1);
      assert secret[..n][..n - 1] == secret[..n - 1];
    }
  }

  /** Guessing the secret itself earns one black mark per position and nothing else. */
  lemma FeedbackOfSecret(secret: string)
    ensures Feedback(secret, secret) == Repeat('k', |secret|)
  {
    MarksOfOwnPrefix(secret, |secret|);
    assert secret[..|secret|] == secret;
    RepeatCount('k', |secret|);
  }

  /** At most one position is exact per guessed character, and all are exact only when the guess is a prefix of the secret. */
  lemma {:induction false} ExactPositionsBound(guess: string, secret: string)
    requires |guess| <= |secret|
    ensures |ExactPositions(guess, secret)| <= |guess|
    ensures |ExactPositions(guess, secret)| == |guess| <==> guess == secret[..|guess|]
    decreases |guess|
  {
    if guess != [] {
      var p := guess[..|guess| - 1];
      ExactPositionsBound(p, secret);
      PositionsStep(guess, secret);
      assert guess == p + [guess[|guess| - 1]];
      assert secret[..|guess|] == secret[..|p|] + [secret[|p|]];
    }
  }

  /**
   * On a secret of four colours, the feedback is four black marks exactly
   * when the guess is the secret.
   */
  lemma WinIffGuessIsSecret(guess: string, secret: string)
    requires |secret| == 4 && |guess| <= |secret|
    ensures Feedback(guess, secret) == "kkkk" <==> guess == secret
  {
    if Feedback(guess, secret) == "kkkk" {
      AllBlackIsSecret(guess, secret);
    }
    if guess == secret {
      FeedbackOfSecret(secret);
    }
  }

  lemma AllBlackIsSecret(guess: string, secret: string)
    requires |secret| == 4 && |guess| <= |secret|
    requires Feedback(guess, secret) == "kkkk"
    ensures guess == secret
  {
    var e, w := |ExactPositions(guess, secret)|, |PartialPositions(guess, secret)|;
    var r := Feedback(guess, secret);
    FeedbackCounts(guess, secret);
    assert e + w == 4;
    assert r[3] == (if 3 < e then 'k' else 'w');
    ExactPositionsBound(guess, secret);
    assert secret[..4] == secret;
  }

  /**
   * When the guess repeats no colour, the per-position membership test gives
   * the textbook count: black plus white marks equal the number of colours
   * guess and secret share, counted with multiplicity.
   */
  lemma {:induction false} TextbookAgreement(guess: string, secret: string)
    requires |guess| <= |secret| && Distinct(guess)
    ensures |ExactPositions(guess, secret)| + |PartialPositions(guess, secret)|
            == |multiset(guess) * multiset(secret)|
    decreases |guess|
  {
    if guess != [] {
      var p, x := guess[..|guess| - 1], guess[|guess| - 1];
      assert guess == p + [x];
      assert Distinct(p) && x !in p;
      TextbookAgreement(p, secret);
      PositionsStep(guess, secret);
      CommonStep(p, x, secret);
    }
  }

  /** A colour new to the guess adds one shared colour exactly when the secret has it. */
  lemma CommonStep(p: string, x: char, secret: string)
    requires x !in p
    ensures |multiset(p + [x]) * multiset(secret)|
            == |multiset(p) * multiset(secret)| + (if x in secret then 1 else 0)
  {
    var extra: multiset<char> := if x in secret then multiset{x} else multiset{};
    assert multiset(p + [x]) == multiset(p) + multiset{x};
    forall c
      ensures (multiset(p + [x]) * multiset(secret))[c] == (multiset(p) * multiset(secret) + extra)[c]
    {
    }
    assert multiset(p + [x]) * multiset(secret) == multiset(p) * multiset(secret) + extra;
  }
}
