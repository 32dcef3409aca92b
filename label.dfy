/** The risk label chosen from the classifier's probability of the "leaves" class. */
module RiskLabel {

  const Threshold: real := 0.7

  const AtRisk: string := "Employee is at Flight risk"
  const NotAtRisk: string := "Employee is not at Flight Risk"

  /** Strictly above the threshold means at risk; the threshold itself does not. */
  function Label(prob: real): (verdict: string)
    ensures verdict == AtRisk <==> prob > Threshold
    ensures verdict == NotAtRisk <==> prob <= Threshold
  {
    if prob > Threshold then AtRisk else NotAtRisk
  }

  /** A higher probability never yields a less severe label. */
  lemma LabelMonotonic(p: real, q: real)
    requires p <= q && Label(p) == AtRisk
    ensures Label(q) == AtRisk
  {
  }

  /** Just below, at and just above the threshold. */
  lemma LabelAroundThreshold()
    ensures Label(0.75) == AtRisk
    ensures Label(0.7) == NotAtRisk
    ensures Label(0.65) == NotAtRisk
  {
  }
}
