/** The Prev / Next step handlers shared by both animations. */
module Navigation {

  /** The Prev handler: one step back, never below step 0. */
  function PrevStep(step: int): (s: int)
    ensures s >= 0
    ensures step >= 1 ==> s == step - 1
    ensures step <= 1 ==> s == 0
  {
    if step - 1 > 0 then step - 1 else 0
  }

  /** The Next handler: one step forward, never beyond `maxStep`. */
  function NextStep(step: int, maxStep: int): (s: int)
    ensures s <= maxStep
    ensures step + 1 <= maxStep ==> s == step + 1
    ensures step + 1 >= maxStep ==> s == maxStep
  {
    if step + 1 < maxStep then step + 1 else maxStep
  }

  /** Starting inside `[0, maxStep]`, any mix of Prev and Next stays inside it. */
  lemma StepStaysInRange(step: int, maxStep: int)
    requires 0 <= step <= maxStep
    ensures 0 <= PrevStep(step) <= maxStep
    ensures 0 <= NextStep(step, maxStep) <= maxStep
  {
  }

  /** Next undoes Prev away from step 0, and Prev undoes Next away from the last step. */
  lemma PrevNextRoundTrip(step: int, maxStep: int)
    requires 0 <= step <= maxStep
    ensures step > 0 ==> NextStep(PrevStep(step), maxStep) == step
    ensures step < maxStep ==> PrevStep(NextStep(step, maxStep)) == step
  {
  }
}
