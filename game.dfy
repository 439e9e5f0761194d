/**
 * The game object: the secret, the round counter and the two end-of-game
 * flags, one round of scoring, and one pass of the input loop.
 */
module Game {
  import opened Sequences
  import opened Pegs
  import opened Decimal
  import opened Scoring
  import opened GuessCheck
  import opened SecretCode

  const WonMessage: string := "YOU WON!!\n"
  const GameOverMessage: string := "GAME OVER: You exceeded the allowed attempts.\n"

  /** How a round ends: won, game over, or another try with some attempts left. */
  datatype Status = Won | Over | TryAgain(remaining: int)

  /** The outcome after a round; a win takes precedence over game over. */
  function RoundStatus(wins: bool, over: bool, remaining: int): Status {
    if wins then Won else if over then Over else TryAgain(remaining)
  }

  /** The status line printed for an outcome. */
  function StatusLine(s: Status): string {
    match s
    case Won => WonMessage
    case Over => GameOverMessage
    case TryAgain(remaining) => "Try again! " + IntToString(remaining) + " attempts remaining.\n"
  }

  /** The try-again line carries the number of attempts left in decimal, and that number reads back from it. */
  lemma TryAgainShowsRemaining(remaining: int)
    ensures exists digits ::
      && StatusLine(TryAgain(remaining)) == "Try again! " + digits + " attempts remaining.\n"
      && IsDecimal(digits) && ParseDecimal(digits) == remaining
  {
    IntToStringRoundTrip(remaining);
  }

  /**
   * After a round, with the game over exactly when the counter has reached
   * the maximum, a try-again status announces at least one attempt left:
   * the remaining count goes to zero or below only together with game over.
   */
  lemma TryAgainCountPositive(wins: bool, over: bool, roundCounter: int, maxRounds: int)
    requires roundCounter > 0 && (over <==> roundCounter >= maxRounds)
    ensures RoundStatus(wins, over, maxRounds - roundCounter).TryAgain? ==>
      RoundStatus(wins, over, maxRounds - roundCounter).remaining >= 1
  {
  }

  /** The first character of a status line tells the outcome apart. */
  function Initial(s: Status): char {
    match s
    case Won => 'Y'
    case Over => 'G'
    case TryAgain(_) => 'T'
  }

  lemma StatusLineInitial(s: Status)
    ensures |StatusLine(s)| > 0 && StatusLine(s)[0] == Initial(s)
  {
    match s
    case Won =>
    case Over =>
      assert GameOverMessage == "GAME" + GameOverMessage[4..];
    case TryAgain(_) =>
  }

  /** Different outcomes print different lines, so the line tells the player how the round ended. */
  lemma StatusLineInjective(s: Status, t: Status)
    ensures StatusLine(s) == StatusLine(t) ==> s == t
  {
    StatusLineInitial(s);
    StatusLineInitial(t);
    if StatusLine(s) == StatusLine(t) && s.TryAgain? && t.TryAgain? {
      var prefix, suffix := "Try again! ", " attempts remaining.\n";
      var line := StatusLine(s);
      assert IntToString(s.remaining) == line[|prefix|..|line| - |suffix|];
      assert IntToString(t.remaining) == line[|prefix|..|line| - |suffix|];
      IntToStringRoundTrip(s.remaining);
      IntToStringRoundTrip(t.remaining);
    }
  }

  /** "rgrb" against "rgob", position by position: black, black, white, black. */
  lemma MarksOfRepeatedRed()
    ensures Marks("rgrb", "rgob") == "kkwk"
  {
    var secret := "rgob";
    assert Marks("r", secret) == "k" by {
      assert "r"[..0] == "";
    }
    assert Marks("rg", secret) == "kk" by {
      assert "rg"[..1] == "r";
    }
    assert Marks("rgr", secret) == "kkw" by {
      assert "rgr"[..2] == "rg";
    }
    assert "rgrb"[..3] == "rgr";
  }

  /** Sorted, those marks read three blacks then one white. */
  lemma SortOfRepeatedRedMarks()
    ensures SortMarks("kkwk") == "kkkw"
  {
    assert multiset("kkwk")['k'] == 3 && multiset("kkwk")['w'] == 1;
    assert Repeat('k', 3) == "kkk" && Repeat('w', 1) == "w";
  }

  /**
   * So a guess that repeats a colour can earn four marks, although it holds
   * only three different colours.
   */
  lemma ScoreOfRepeatedRed()
    ensures Feedback("rgrb", "rgob") == "kkkw"
  {
    MarksOfRepeatedRed();
    SortOfRepeatedRedMarks();
  }

  /**
   * The repeated-colour test compares neighbours only: "rgrb" repeats red
   * yet is accepted and goes on to be scored.
   */
  lemma RepeatSeparatedByAnotherColourIsAccepted()
    ensures !Distinct("rgrb")
    ensures Validate("rgrb", Palette) == Accepted("rgrb")
  {
    assert "rgrb"[0] == "rgrb"[2];
    assert ToLower("rgrb") == "rgrb" by {
      forall i | 0 <= i < 4
        ensures ToLower("rgrb")[i] == "rgrb"[i]
      {
        assert !IsUpper("rgrb"[i]);
      }
    }
    assert forall i :: 0 <= i < 4 ==> "rgrb"[i] in Palette;
    assert NoAdjacentRepeats("rgrb");
  }

  /** The number of words among `words` that pass the checks, each of them one round. */
  function AcceptedCount(words: seq<string>): nat
    decreases |words|
  {
    if words == [] then 0
    else AcceptedCount(words[..|words| - 1]) + (if Validate(words[|words| - 1], Palette).Accepted? then 1 else 0)
  }

  /** Some word among `words` is accepted as the secret itself. */
  predicate SecretHit(words: seq<string>, code: string)
    decreases |words|
  {
    words != [] && (SecretHit(words[..|words| - 1], code) || Validate(words[|words| - 1], Palette) == Accepted(code))
  }

  /** The secret is hit exactly when some word is accepted as the secret. */
  lemma SecretHitSomeWord(words: seq<string>, code: string)
    ensures SecretHit(words, code) <==> exists j :: 0 <= j < |words| && Validate(words[j], Palette) == Accepted(code)
  {
    if SecretHit(words, code) {
      var j := HitWord(words, code);
    }
    if exists j :: 0 <= j < |words| && Validate(words[j], Palette) == Accepted(code) {
      var j :| 0 <= j < |words| && Validate(words[j], Palette) == Accepted(code);
      WordHits(words, code, j);
    }
  }

  /** A hit names a word accepted as the secret. */
  lemma {:induction false} HitWord(words: seq<string>, code: string) returns (j: nat)
    requires SecretHit(words, code)
    ensures j < |words| && Validate(words[j], Palette) == Accepted(code)
    decreases |words|
  {
    var p := words[..|words| - 1];
    if SecretHit(p, code) {
      j := HitWord(p, code);
      assert words[j] == p[j];
    } else {
      j := |words| - 1;
    }
  }

  /** A word accepted as the secret is a hit. */
  lemma {:induction false} WordHits(words: seq<string>, code: string, j: nat)
    requires j < |words| && Validate(words[j], Palette) == Accepted(code)
    ensures SecretHit(words, code)
    decreases |words|
  {
    var p := words[..|words| - 1];
    if j < |p| {
      assert p[j] == words[j];
      WordHits(p, code, j);
      assert SecretHit(p, code);
    } else {
      assert words[|words| - 1] == words[j];
    }
  }

  /**
   * After `words`, starting from `rounds` rounds played, the game is won or
   * over: the secret was guessed, or a round was played and the count of
   * rounds has reached the maximum.
   */
  predicate Finished(rounds: int, maxRounds: int, words: seq<string>, code: string) {
    var n := rounds + AcceptedCount(words);
    SecretHit(words, code) || (n > 0 && n >= maxRounds)
  }

  /** The first `n + 1` words are the first `n` and then word `n`. */
  lemma PrefixStep(words: seq<string>, n: nat)
    requires n < |words|
    ensures words[..n + 1] == words[..n] + [words[n]]
  {
  }

  /** One more word adds one round exactly when it passes the checks. */
  lemma AcceptedCountStep(words: seq<string>, word: string)
    ensures AcceptedCount(words + [word])
            == AcceptedCount(words) + (if Validate(word, Palette).Accepted? then 1 else 0)
  {
    assert (words + [word])[..|words|] == words;
  }

  /** One more word hits the secret exactly when the earlier words did or it is the secret. */
  lemma SecretHitStep(words: seq<string>, word: string, code: string)
    ensures SecretHit(words + [word], code) <==> SecretHit(words, code) || Validate(word, Palette) == Accepted(code)
  {
    assert (words + [word])[..|words|] == words;
  }

  /** A game that is neither won nor over, with its counter and flag as the words left them, is not finished. */
  lemma NotYetFinished(rounds0: int, maxRounds: int, words: seq<string>, code: string,
                       rounds: int, wins: bool, over: bool)
    requires rounds == rounds0 + AcceptedCount(words) && wins == SecretHit(words, code)
    requires over <==> rounds > 0 && rounds >= maxRounds
    requires !wins && !over
    ensures !Finished(rounds0, maxRounds, words, code)
  {
  }

  /**
   * One word read by the input loop: the rounds so far grow by one exactly
   * when the word is accepted, and the win flag becomes set exactly when it
   * is accepted as the secret.
   */
  lemma RoundBookkeeping(words: seq<string>, word: string, code: string, verdict: Verdict,
                         roundsBefore: int, roundsAfter: int, winsBefore: bool, winsAfter: bool)
    requires verdict == Validate(word, Palette)
    requires roundsBefore == AcceptedCount(words) && winsBefore == SecretHit(words, code)
    requires roundsAfter == roundsBefore + (if verdict.Accepted? then 1 else 0)
    requires winsAfter == (winsBefore || (verdict.Accepted? && verdict.guess == code))
    ensures roundsAfter == AcceptedCount(words + [word])
    ensures winsAfter == SecretHit(words + [word], code)
  {
    AcceptedCountStep(words, word);
    SecretHitStep(words, word, code);
  }

  /**
   * The first half of a round: one mark per position of the guess, black
   * where the secret has the same colour there, white where it has the
   * colour elsewhere; then the marks sorted.
   */
  method ScoreGuess(input: string, code: string) returns (feedback: string)
    requires |input| <= |code|
    ensures feedback == Feedback(input, code)
  {
    feedback := "";
    var idx := 0;
    while idx < |input|
      invariant 0 <= idx <= |input|
      invariant feedback == Marks(input[..idx], code)
    {
      var inputCh := input[idx];
      var resolutionCh := code[idx];
      assert input[..idx + 1] == input[..idx] + [inputCh];
      if inputCh == resolutionCh {
        feedback := feedback + ['k'];
      } else if inputCh in code {
        feedback := feedback + ['w'];
      }
      idx := idx + 1;
    }
    assert input[..|input|] == input;
    feedback := SortMarks(feedback);
  }

  class Mastermind {
    const maxRounds: int
    var roundCounter: int
    const resolutionCode: string
    var gameOver: bool
    var playerWins: bool
    const colorPegs: string

    /**
     * The secret is four different pegs of the palette; the counter counts
     * played rounds, the game is over exactly once a round has been played
     * and the counter has reached the maximum, and a win needs a round.
     */
    ghost predicate Valid()
      reads this
    {
      && colorPegs == Palette
      && |resolutionCode| == 4 && Distinct(resolutionCode)
      && (forall k :: 0 <= k < 4 ==> resolutionCode[k] in colorPegs)
      && roundCounter >= 0
      && (gameOver <==> roundCounter > 0 && roundCounter >= maxRounds)
      && (playerWins ==> roundCounter > 0)
    }

    /**
     * A new game: no round played, neither flag set, and a secret spelled
     * from the first four different draws.
     */
    constructor (maxRounds: int, draws: seq<int>)
      requires DrawsInRange(draws) && |Elements(draws)| >= 4
      ensures Valid()
      ensures this.maxRounds == maxRounds
      ensures roundCounter == 0 && !gameOver && !playerWins
      ensures forall k :: 0 <= k < 4 ==> resolutionCode[k] == Palette[ChosenIndices(draws)[k]]
    {
      colorPegs := Palette;
      this.maxRounds := maxRounds;
      roundCounter := 0;
      gameOver := false;
      playerWins := false;
      assert Distinct(Palette[..6]) by {
        assert Palette[..6] == "rgobyp";
      }
      var code := GenerateResolutionCode(Palette, draws);
      resolutionCode := code;
    }

    /**
     * Scores one guess against the secret, counts the round, sets the flags
     * and composes the status line; a win takes precedence over game over.
     */
    method PlayRound(input: string) returns (feedback: string, output: string)
      requires |input| <= |resolutionCode|
      modifies this`roundCounter, this`playerWins, this`gameOver
      ensures roundCounter == old(roundCounter) + 1
      ensures feedback == Feedback(input, resolutionCode) + "\n"
      ensures playerWins == (old(playerWins) || Feedback(input, resolutionCode) == "kkkk")
      ensures gameOver == (old(gameOver) || roundCounter >= maxRounds)
      ensures output == StatusLine(RoundStatus(playerWins, gameOver, maxRounds - roundCounter))
    {
      feedback := ScoreGuess(input, resolutionCode);

      roundCounter := roundCounter + 1;
      if feedback == "kkkk" {
        playerWins := true;
      }
      if roundCounter >= maxRounds {
        gameOver := true;
      }
      feedback := feedback + "\n";

      output := StatusLine(RoundStatus(playerWins, gameOver, maxRounds - roundCounter));
    }

    /**
     * One pass of the input loop on one word, as `std::cin >>` extracts it:
     * a rejected word changes
     * nothing; an accepted one is played, and the loop stops exactly when
     * the game is then won or over.
     */
    method Step(word: string) returns (verdict: Verdict, feedback: string, output: string, stop: bool)
      requires Valid()
      modifies this`roundCounter, this`playerWins, this`gameOver
      ensures Valid()
      ensures verdict == Validate(word, colorPegs)
      ensures !verdict.Accepted? ==>
        && roundCounter == old(roundCounter)
        && playerWins == old(playerWins) && gameOver == old(gameOver)
        && feedback == "" && output == "" && !stop
      ensures verdict.Accepted? ==>
        && roundCounter == old(roundCounter) + 1
        && feedback == Feedback(verdict.guess, resolutionCode) + "\n"
        && playerWins == (old(playerWins) || verdict.guess == resolutionCode)
        && gameOver == (old(gameOver) || roundCounter >= maxRounds)
        && output == StatusLine(RoundStatus(playerWins, gameOver, maxRounds - roundCounter))
        && stop == (gameOver || playerWins)
      ensures verdict.Accepted? && !stop ==> maxRounds - roundCounter >= 1
      ensures maxRounds >= 1 && !old(gameOver) ==> roundCounter <= maxRounds
    {
      verdict := Validate(word, colorPegs);
      feedback, output, stop := "", "", false;
      if verdict.Accepted? {
        WinIffGuessIsSecret(verdict.guess, resolutionCode);
        feedback, output := PlayRound(verdict.guess);
        stop := gameOver || playerWins;
      }
    }

    /**
     * One pass of the input loop seen from the bookkeeping of `Play`: the
     * word extends the words read so far by one.
     */
    method Advance(ghost done: seq<string>, ghost rounds0: int, word: string) returns (stop: bool)
      requires Valid() && !gameOver && !playerWins
      requires roundCounter == rounds0 + AcceptedCount(done)
      requires playerWins == SecretHit(done, resolutionCode)
      modifies this`roundCounter, this`playerWins, this`gameOver
      ensures Valid()
      ensures stop == (gameOver || playerWins)
      ensures roundCounter == rounds0 + AcceptedCount(done + [word])
      ensures playerWins == SecretHit(done + [word], resolutionCode)
      ensures maxRounds >= 1 ==> roundCounter <= maxRounds
    {
      var verdict, feedback, output;
      verdict, feedback, output, stop := Step(word);
      RoundBookkeeping(done, word, resolutionCode, verdict,
        old(roundCounter) - rounds0, roundCounter - rounds0, old(playerWins), playerWins);
    }

    /**
     * The input loop over the words the player types, one `Step` per word,
     * until the game is won or over or the words run out: every accepted
     * word is one round, the win flag records whether the secret was
     * guessed, and no word is read after the round that ends the game.
     */
    method Play(words: seq<string>) returns (consumed: nat)
      requires Valid() && !gameOver && !playerWins
      modifies this`roundCounter, this`playerWins, this`gameOver
      ensures Valid()
      ensures consumed <= |words|
      ensures roundCounter == old(roundCounter) + AcceptedCount(words[..consumed])
      ensures playerWins == SecretHit(words[..consumed], resolutionCode)
      ensures consumed > 0 ==> !Finished(old(roundCounter), maxRounds, words[..consumed - 1], resolutionCode)
      ensures consumed < |words| ==> gameOver || playerWins
      ensures maxRounds >= 1 ==> roundCounter <= maxRounds
    {
      consumed := 0;
      var stop := false;
      ghost var done: seq<string> := [];
      ghost var prev: seq<string> := [];
      while consumed < |words| && !stop
        invariant Valid() && consumed <= |words| && done == words[..consumed]
        invariant stop == (gameOver || playerWins)
        invariant roundCounter == old(roundCounter) + AcceptedCount(done)
        invariant playerWins == SecretHit(done, resolutionCode)
        invariant consumed > 0 ==> prev == words[..consumed - 1] && !Finished(old(roundCounter), maxRounds, prev, resolutionCode)
        invariant maxRounds >= 1 ==> roundCounter <= maxRounds
        decreases |words| - consumed
      {
        var word := words[consumed];
        PrefixStep(words, consumed);
        NotYetFinished(old(roundCounter), maxRounds, done, resolutionCode, roundCounter, playerWins, gameOver);
        stop := Advance(done, old(roundCounter), word);
        prev, done := done, done + [word];
        consumed := consumed + 1;
      }
    }
  }
}
