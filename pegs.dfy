/** The colour pegs of the game and the membership test over them. */
module Pegs {

  /** One display character per colour: red, green, orange, blue, yellow, purple. */
  const Palette: string := "rgobyp"

  /** True exactly when every character of `s` is one of `pegs`; scans `s` left to right and stops at the first foreign character. */
  function AllCharsInPegsList(s: string, pegs: string): (r: bool)
    ensures r <==> forall i :: 0 <= i < |s| ==> s[i] in pegs
  {
    if s == [] then true
    else if s[0] !in pegs then false
    else AllCharsInPegsList(s[1..], pegs)
  }

}
