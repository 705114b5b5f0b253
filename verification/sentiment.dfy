/**
 * The three-way sentiment label derived from a polarity score (the conditional
 * expression in `analyze_and_store`). The polarity itself comes from an external
 * scorer and is taken as a `real` here.
 */
module Sentiment {

  datatype Label = Positive | Negative | Neutral
  {
    /** The text stored in the `sentiment_label` column. */
    function Text(): string
    {
      match this
      case Positive => "Positive"
      case Negative => "Negative"
      case Neutral => "Neutral"
    }
  }

  /** `"Positive" if p > 0 else "Negative" if p < 0 else "Neutral"`. */
  function LabelOf(polarity: real): (l: Label)
    ensures l == Positive <==> polarity > 0.0
    ensures l == Negative <==> polarity < 0.0
    ensures l == Neutral <==> polarity == 0.0
  {
    if polarity > 0.0 then Positive else if polarity < 0.0 then Negative else Neutral
  }
}
