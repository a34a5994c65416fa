/** Colours a simulated user (a dot) can be drawn in. */
module Colors {

  /** "grey" (no group yet), "red" (control), "blue" (variant). `Unset` stands for
      JavaScript's `undefined` or `null`: an entry read past the end of a colour
      array, or a blank entry of a colour table. */
  datatype Color = Grey | Red | Blue | Unset

  /** `colors[i]` as JavaScript reads it: `Unset` when `i` is out of range. */
  function ColorAt(colors: seq<Color>, i: int): (c: Color)
    ensures 0 <= i < |colors| ==> c == colors[i]
    ensures c == Unset || c in colors
  {
    if 0 <= i < |colors| then colors[i] else Unset
  }
}
