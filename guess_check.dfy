/**
 * The checks a word of input must pass before it is scored: lower-casing,
 * the length, the palette, and the `std::unique` test for repeated colours.
 */
module GuessCheck {
  import opened Pegs

  predicate IsUpper(c: char) {
    'A' <= c <= 'Z'
  }

  /** `std::tolower` in the "C" locale: only 'A'..'Z' change. */
  function ToLowerChar(c: char): (r: char)
    ensures !IsUpper(r)
    ensures IsUpper(c) ==> r as int == c as int + 32
    ensures !IsUpper(c) ==> r == c
  {
    if IsUpper(c) then (c as int - 'A' as int + 'a' as int) as char else c
  }

  function ToLower(s: string): (r: string)
    ensures |r| == |s|
    ensures forall i :: 0 <= i < |s| ==> r[i] == ToLowerChar(s[i])
  {
    seq(|s|, i requires 0 <= i < |s| => ToLowerChar(s[i]))
  }

  /** Lower-casing twice is lower-casing once. */
  lemma ToLowerIdempotent(s: string)
    ensures ToLower(ToLower(s)) == ToLower(s)
  {
  }

  /** No two neighbouring characters are equal. */
  predicate NoAdjacentRepeats(s: string) {
    forall i :: 0 < i < |s| ==> s[i - 1] != s[i]
  }

  /** `std::unique`: every run of equal neighbouring characters collapsed to one. */
  function Unique(s: string): (r: string)
    ensures |r| <= |s|
    decreases |s|
  {
    if |s| <= 1 then s
    else if s[0] == s[1] then Unique(s[1..])
    else [s[0]] + Unique(s[1..])
  }

  /** `std::unique` leaves the length alone exactly when no neighbours repeat. */
  lemma {:induction false} UniqueKeepsLengthIff(s: string)
    ensures |Unique(s)| == |s| <==> NoAdjacentRepeats(s)
    decreases |s|
  {
    if |s| > 1 {
      UniqueKeepsLengthIff(s[1..]);
      assert NoAdjacentRepeats(s) <==> s[0] != s[1] && NoAdjacentRepeats(s[1..]) by {
        if s[0] != s[1] && NoAdjacentRepeats(s[1..]) {
          forall i | 0 < i < |s|
            ensures s[i - 1] != s[i]
          {
            if i > 1 {
              assert s[1..][i - 2] == s[i - 1] && s[1..][i - 1] == s[i];
            }
          }
        }
        if NoAdjacentRepeats(s) {
          forall i | 0 < i < |s| - 1
            ensures s[1..][i - 1] != s[1..][i]
          {
            assert s[i] != s[i + 1];
          }
        }
      }
    }
  }

  /** What a word of input is judged to be. */
  datatype Verdict =
    | WrongLength
    | ForeignColour
    | RepeatedColour
    | Accepted(guess: string)

  /**
   * The checks, in their order: lower-case the word, then it must have four
   * characters, all of them pegs, with no two neighbours equal.
   */
  function Validate(word: string, pegs: string): (v: Verdict)
    ensures v == WrongLength <==> |word| != 4
    ensures v == ForeignColour <==>
      |word| == 4 && exists i :: 0 <= i < 4 && ToLower(word)[i] !in pegs
    ensures v == RepeatedColour <==>
      |word| == 4 && (forall i :: 0 <= i < 4 ==> ToLower(word)[i] in pegs)
      && !NoAdjacentRepeats(ToLower(word))
    ensures v.Accepted? <==>
      |word| == 4 && (forall i :: 0 <= i < 4 ==> ToLower(word)[i] in pegs)
      && NoAdjacentRepeats(ToLower(word))
    ensures v.Accepted? ==> v.guess == ToLower(word)
  {
    var lowered := ToLower(word);
    UniqueKeepsLengthIff(lowered);
    if |lowered| != 4 then WrongLength
    else if !AllCharsInPegsList(lowered, pegs) then ForeignColour
    else if |Unique(lowered)| != |lowered| then RepeatedColour
    else Accepted(lowered)
  }

  /** Letter case does not matter: a word and its lower-cased copy get the same verdict. */
  lemma ValidateIgnoresCase(word: string, pegs: string)
    ensures Validate(ToLower(word), pegs) == Validate(word, pegs)
  {
    ToLowerIdempotent(word);
  }
}
