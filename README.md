# Mastermind in Dafny

A model of the console Mastermind game in `Mastermind/Mastermid/mastermind.cpp`.
The game object holds:

- a secret of four different colour pegs drawn from the palette `"rgobyp"`;
- a round counter and the maximum number of rounds;
- two flags, "player wins" and "game over".

Each accepted guess is scored. Every guessed position earns a black mark `k` (same colour at the same position), a white mark `w` (the colour occurs elsewhere in the secret) or nothing. The marks are then sorted. The round counter is incremented, the flags are updated, and a status line is composed.

Each pass of the input loop reads one word with `std::cin >>`. Before a word is scored, it is lower-cased and checked. It must have four characters, all of them pegs, and it must pass the `std::unique` test for repeated colours.

The model is split into modules:

- `Sequences`: `Distinct` and `Elements`, shared by the other modules.
- `Pegs`: the palette and `AllCharsInPegsList`.
- `Decimal`: `std::to_string` of an `int` and its inverse, for the try-again line.
- `Scoring`: the mark rule as functions: `Marks`, `SortMarks`, `Feedback`. It holds the lemmas that relate the marks to the exact and partial positions of a guess.
- `GuessCheck`: `std::tolower` in the "C" locale, `std::unique` and the checks of the input loop, as the function `Validate` with a `Verdict` result.
- `SecretCode`: `GenerateResolutionCode` as a method with its two loops. The random number generator is replaced by a sequence of draws.
- `Game`: the class `Mastermind`, which has the following members.
  - Its constructor.
  - `PlayRound`, which changes the round counter and the two flags in place.
  - `Step`, one pass of the input loop: validate one word, then play it or reject it.
  - `Play`, the input loop itself, over a sequence of typed words.
  - The session invariant `Valid`: a secret of four different pegs, and the game over exactly when a round has been played and the counter has reached the maximum.
  - The marks loop of `PlayRound`, as the method `ScoreGuess`.
  - The status line, as an outcome `Status` and its text `StatusLine`.

The test for repeated colours follows the code, not its message. `std::unique(...) == end()` at `Mastermind/Mastermid/mastermind.cpp:135` is true only when no two *neighbouring* characters are equal. So `"rgrb"` is accepted and scored. Against the secret `"rgob"` it earns `"kkkw"`, four marks for three shared colours (`Game.RepeatSeparatedByAnotherColourIsAccepted`, `Game.ScoreOfRepeatedRed`). For guesses without repeated colours, `Scoring.TextbookAgreement` proves that the per-position membership rule gives the textbook count.

Likewise the feedback has one mark per matching position and no more, so it has fewer than four marks when some guessed colours are not in the secret.

## Model

| member | source | states |
|---|---|---|
| Pegs.AllCharsInPegsList | Mastermind/Mastermid/mastermind.cpp:37-44 | true exactly when every character of the string occurs in the peg list (so true for the empty string) |
| GuessCheck.ToLowerChar | Mastermind/Mastermid/mastermind.cpp:119-120 | the result is never an upper-case letter; 'A'..'Z' move up by 32 and every other character is unchanged |
| GuessCheck.ToLower | Mastermind/Mastermid/mastermind.cpp:119-120 | lower-casing keeps the length and lower-cases each character where it stands |
| GuessCheck.ToLowerIdempotent | Mastermind/Mastermid/mastermind.cpp:119-120 | lower-casing twice is lower-casing once |
| GuessCheck.Unique | Mastermind/Mastermid/mastermind.cpp:135 | collapsing runs of equal neighbours never lengthens the string |
| GuessCheck.UniqueKeepsLengthIff | Mastermind/Mastermid/mastermind.cpp:135 | `std::unique` keeps the length if and only if no two neighbouring characters are equal |
| GuessCheck.Validate | Mastermind/Mastermid/mastermind.cpp:118-140 | each verdict holds exactly under its condition, tested in the source's order: wrong length; a character (after lower-casing) not a peg; neighbouring repeat; otherwise accepted, with the lower-cased word as the guess |
| GuessCheck.ValidateIgnoresCase | Mastermind/Mastermid/mastermind.cpp:118-140 | a word and its lower-cased copy get the same verdict |
| SecretCode.FirstOccurrences | Mastermind/Mastermid/mastermind.cpp:18-26 | the list the loop keeps (each draw appended only if absent) never holds a repeated index |
| SecretCode.FirstOccurrencesElements | Mastermind/Mastermid/mastermind.cpp:18-26 | the list holds exactly the values drawn so far |
| SecretCode.FirstOccurrencesPrefix | Mastermind/Mastermid/mastermind.cpp:19-25 | the list only grows at its end: the list after fewer draws is a prefix of the list after more |
| SecretCode.FirstOccurrencesCount | Mastermind/Mastermid/mastermind.cpp:18-26 | the list has one entry per different value drawn |
| SecretCode.ChosenIndices | Mastermind/Mastermid/mastermind.cpp:18-26 | with draws in 0..5 holding at least four different values, the loop ends with four different indices, all in 0..5 |
| SecretCode.GenerateResolutionCode | Mastermind/Mastermid/mastermind.cpp:11-35 | the code has four characters, the pegs at the chosen indices, all among the first six pegs, and pairwise different when those six are; the loop keeps the list duplicate-free, in range and at most four long |
| SecretCode.SpelledCodeDistinct | Mastermind/Mastermid/mastermind.cpp:28-32 | spelling different indices through six different pegs gives different characters, all pegs |
| Scoring.Marks | Mastermind/Mastermid/mastermind.cpp:55-66 | the marks loop, one `Mark` per position (`Mark`: 'k' for the same colour there, else 'w' if the colour is in the secret, else nothing, as at :61-65): each position contributes at most one mark, and every mark is 'k' or 'w' |
| Scoring.MarksCount | Mastermind/Mastermid/mastermind.cpp:56-66 | the number of 'k' marks is the number of positions where guess and secret agree; the number of 'w' marks is the number of other positions whose colour occurs in the secret |
| Scoring.ExactPositionsBound | Mastermind/Mastermid/mastermind.cpp:56-62 | at most one exact position per guessed character, and every position is exact if and only if the guess is a prefix of the secret |
| Scoring.SortMarksSorts | Mastermind/Mastermid/mastermind.cpp:68 | `SortMarks`, the model of `std::sort` on marks, returns an ascending permutation of the marks |
| Scoring.SortedMarksUnique | Mastermind/Mastermid/mastermind.cpp:68 | any ascending permutation of a mark string equals the model of `std::sort`, so the model fixes the sorted result |
| Scoring.AscendingMarksAreBlocks | Mastermind/Mastermid/mastermind.cpp:68 | a sorted mark string is all its 'k' marks followed by all its 'w' marks |
| Scoring.FeedbackCounts | Mastermind/Mastermid/mastermind.cpp:53-68 | `Feedback` (the sorted marks, before the newline) is one 'k' per exact position followed by one 'w' per partial position, and never longer than the guess |
| Scoring.FeedbackOfSecret | Mastermind/Mastermid/mastermind.cpp:56-68 | guessing the secret itself gives one 'k' per position and nothing else |
| Scoring.WinIffGuessIsSecret | Mastermind/Mastermid/mastermind.cpp:72-73 | on a four-colour secret the feedback is "kkkk" if and only if the guess is the secret |
| Scoring.AllBlackIsSecret | Mastermind/Mastermid/mastermind.cpp:72-73 | feedback "kkkk" on a four-colour secret implies the guess is the secret |
| Scoring.TextbookAgreement | Mastermind/Mastermid/mastermind.cpp:56-66 | for a guess without repeated colours, black plus white marks equal the number of colours guess and secret share, counted with multiplicity |
| Decimal.NatToStringDigits | Mastermind/Mastermid/mastermind.cpp:84 | `NatToString`, the digits `std::to_string` prints for a natural number, is a non-empty string of digits whose first digit is '0' only for 0 |
| Decimal.NatToStringRoundTrip | Mastermind/Mastermid/mastermind.cpp:84 | reading the digits back gives the number |
| Decimal.IntToStringRoundTrip | Mastermind/Mastermid/mastermind.cpp:84 | `IntToString`, the model of `std::to_string` on an `int`, is a decimal with a minus sign exactly for negative values, and parsing it gives the value back |
| Game.TryAgainShowsRemaining | Mastermind/Mastermid/mastermind.cpp:82-84 | the try-again line is "Try again! " + a decimal + " attempts remaining.\n", and the decimal reads back as the attempts left |
| Game.StatusLineInitial | Mastermind/Mastermid/mastermind.cpp:84-90 | the three lines `StatusLine` prints (win, game over, try again) start with 'Y', 'G' and 'T' respectively |
| Game.StatusLineInjective | Mastermind/Mastermid/mastermind.cpp:84-90 | `StatusLine` is one-to-one: different outcomes, and different remaining counts, print different status lines |
| Game.MarksOfRepeatedRed | Mastermind/Mastermid/mastermind.cpp:56-66 | the unsorted marks of "rgrb" against "rgob" are "kkwk" |
| Game.SortOfRepeatedRedMarks | Mastermind/Mastermid/mastermind.cpp:68 | sorting "kkwk" gives "kkkw" |
| Game.ScoreOfRepeatedRed | Mastermind/Mastermid/mastermind.cpp:56-68 | "rgrb" against "rgob" is scored "kkkw": four marks, although only three colours are shared |
| Game.RepeatSeparatedByAnotherColourIsAccepted | Mastermind/Mastermid/mastermind.cpp:135-140 | "rgrb" repeats a colour and is still accepted as a guess |
| Game.ScoreGuess | Mastermind/Mastermid/mastermind.cpp:53-68 | the marks loop followed by the sort computes the feedback of the guess against the code |
| Game.Mastermind.constructor | Mastermind/Mastermid/mastermind.cpp:95-103 | a new game has the palette "rgobyp", the given maximum, no round played, neither flag set, and a secret of four different pegs spelled from the first four different draws |
| Game.TryAgainCountPositive | Mastermind/Mastermid/mastermind.cpp:75-90 | `RoundStatus` (win first, then game over, then try again with the remaining count) picks the try-again line only with at least one attempt left, once the game is over exactly when the counter has reached the maximum |
| Game.Mastermind.PlayRound | Mastermind/Mastermid/mastermind.cpp:49-93 | the counter grows by exactly one; the win flag becomes set when the sorted marks are "kkkk" and the game-over flag when the counter reaches the maximum, and neither is ever cleared; the feedback is the sorted marks plus a newline; the status line is the win line if won, else the game-over line if over, else the try-again line with maximum minus counter |
| Game.Mastermind.Step | Mastermind/Mastermid/mastermind.cpp:113-151 | a rejected word changes neither counter nor flags and produces no output; an accepted one is played, sets the win flag exactly when the guess is the secret, and the loop stops exactly when the game is won or over; the secret stays four different pegs, the game stays over exactly when a round has been played and the counter has reached the maximum, and a win needs a round; a round that does not stop the loop leaves at least one attempt; with a positive maximum, a round played before game over leaves the counter at most the maximum |
| Game.AcceptedCountStep | Mastermind/Mastermid/mastermind.cpp:123-142 | one more word adds one round exactly when it passes the checks |
| Game.SecretHitStep | Mastermind/Mastermid/mastermind.cpp:142-151 | one more word has hit the secret exactly when an earlier word did or this one is accepted as the secret itself |
| Game.SecretHitSomeWord | Mastermind/Mastermid/mastermind.cpp:142-151 | the words have hit the secret exactly when some one of them is accepted as the secret |
| Game.Mastermind.Play | Mastermind/Mastermid/mastermind.cpp:105-152 | the input loop over the words typed, one `Step` each: the counter grows by the number of consumed words that pass the checks; the win flag is set exactly when one of them is the secret; no word is read after the round that ends the game (the `break` at :150-151); the loop stops before the words run out only when the game is won or over; the session invariant holds, and with a positive maximum the counter never passes it |

## Left out

- Console I/O: the prompts, the rejection messages and the printing of feedback and status. `Step` returns the verdict, the feedback and the status line instead of printing them.
- The random number source (`std::random_device`, `std::mt19937`, `std::uniform_int_distribution`). It is replaced by a finite sequence of draws in 0..5.
- SecretCode.GenerateResolutionCode: requires the draws to hold at least four different values. The source's rejection sampling ends only with probability one, and that is not modelled.
- Game.Mastermind.Play: the `while (true)` loop of `Mastermind::operator()` is modelled over a finite sequence of input words. The model ends when the words run out; the source, at the end of input, keeps rejecting empty words forever.
- Game.Mastermind.Play: requires a game that is neither won nor over. `operator()` does not test the flags on entry, so calling it again after a finished game would play one more round; the model does not cover that second call.
- Word splitting: `std::cin >> input_string` at :116 skips leading blanks and stops at the next blank. `Step` and `Play` take the words that this produces, so a typed line with several words is several passes of the loop; the splitting of a line into words is not modelled.
- Locale: `std::tolower` is modelled as in the "C" locale, where only 'A'..'Z' change.
- Input encoding: `std::cin >> input_string` reads one whitespace-free word of bytes, and a Dafny `char` here stands for one such byte. A multi-byte character such as 'ö' is one `char` in the model, so "rgöb" is rejected as a foreign colour rather than for its length; either way the word is rejected and the state is unchanged, only the left-out message differs.
- Game.Mastermind.PlayRound: requires the guess to be no longer than the secret. The source reads `_resolution_code[idx]` unchecked, and the input loop only ever passes four characters.
- Game.Mastermind.PlayRound: the counter and the remaining count are unbounded integers. 32-bit `int` overflow is not modelled: the counter overflows (undefined behaviour in C++) after about two billion rounds, and `_max_rounds - _round_counter` at :82 already overflows on the first round when the maximum is `INT_MIN`.
- No check that the maximum number of rounds is positive, as in the source. With a maximum of 0 or less, the first accepted round sets the game-over flag; the remaining count computed at :82 goes negative but is never printed, since the win or game-over line replaces the try-again line.
- `_resolution_code` and `_color_pegs` are `const` fields here. The source never assigns them after the constructor.
- `Mastermind/Mastermid/mastermind.h` contributes only the field set and the declarations.
