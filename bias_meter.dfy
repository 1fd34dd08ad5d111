/** The bias meter's computations: the five political-leaning bands, their
    colours, and the clamped gauge value. The chart itself is not modelled. */
module BiasMeter {

  datatype Leaning = FarLeft | Left | Center | Right | FarRight

  /** Position of a band on the left-to-right axis. */
  function Rank(l: Leaning): (n: nat)
    ensures n <= 4
  {
    match l
    case FarLeft => 0
    case Left => 1
    case Center => 2
    case Right => 3
    case FarRight => 4
  }

  /** The category text shown under the gauge. */
  function Label(l: Leaning): string {
    match l
    case FarLeft => "Far Left"
    case Left => "Left"
    case Center => "Center"
    case Right => "Right"
    case FarRight => "Far Right"
  }

  /** `_get_bias_category`: each band includes its upper bound. */
  function BiasCategory(score: real): (l: Leaning)
    ensures l == FarLeft <==> score <= -0.6
    ensures l == Left <==> -0.6 < score <= -0.2
    ensures l == Center <==> -0.2 < score <= 0.2
    ensures l == Right <==> 0.2 < score <= 0.6
    ensures l == FarRight <==> 0.6 < score
  {
    if score <= -0.6 then FarLeft
    else if score <= -0.2 then Left
    else if score <= 0.2 then Center
    else if score <= 0.6 then Right
    else FarRight
  }

  /** The category names the source returns, one per band. */
  function BiasCategoryName(score: real): (name: string)
    ensures name == Label(BiasCategory(score))
    ensures name in {"Far Left", "Left", "Center", "Right", "Far Right"}
  {
    Label(BiasCategory(score))
  }

  /** A larger score never falls in a band further to the left. */
  lemma BiasCategoryMonotone(x: real, y: real)
    requires x <= y
    ensures Rank(BiasCategory(x)) <= Rank(BiasCategory(y))
  {
  }

  /** The thresholds themselves belong to the band below them. */
  lemma BoundariesBelongToLowerBand()
    ensures BiasCategory(-0.6) == FarLeft
    ensures BiasCategory(-0.2) == Left
    ensures BiasCategory(0.2) == Center
    ensures BiasCategory(0.6) == Right
    ensures BiasCategory(-0.61) == FarLeft && BiasCategory(0.61) == FarRight
  {
  }

  /** The bar colour of each band. */
  function BandColor(l: Leaning): string {
    match l
    case FarLeft => "rgba(30, 63, 204, 0.9)"
    case Left => "rgba(86, 119, 252, 0.9)"
    case Center => "rgba(128, 128, 128, 0.9)"
    case Right => "rgba(252, 86, 86, 0.9)"
    case FarRight => "rgba(204, 30, 30, 0.9)"
  }

  /** `_get_bias_color`, with its own threshold chain. */
  function BiasColor(score: real): (c: string)
    ensures c in {"rgba(30, 63, 204, 0.9)", "rgba(86, 119, 252, 0.9)", "rgba(128, 128, 128, 0.9)",
                  "rgba(252, 86, 86, 0.9)", "rgba(204, 30, 30, 0.9)"}
    ensures c == "rgba(128, 128, 128, 0.9)" <==> -0.2 < score <= 0.2
  {
    if score <= -0.6 then "rgba(30, 63, 204, 0.9)"
    else if score <= -0.2 then "rgba(86, 119, 252, 0.9)"
    else if score <= 0.2 then "rgba(128, 128, 128, 0.9)"
    else if score <= 0.6 then "rgba(252, 86, 86, 0.9)"
    else "rgba(204, 30, 30, 0.9)"
  }

  /** The colour chain and the category chain agree for every score, and no
      two bands share a colour, so the colour identifies the category. */
  lemma ColorMatchesCategory(score: real)
    ensures BiasColor(score) == BandColor(BiasCategory(score))
    ensures forall l: Leaning :: BandColor(l) == BiasColor(score) ==> l == BiasCategory(score)
  {
  }

  /** `max(-1.0, min(1.0, x))`. */
  function Clamp(x: real): (r: real)
    ensures -1.0 <= r <= 1.0
    ensures -1.0 <= x <= 1.0 ==> r == x
    ensures x < -1.0 ==> r == -1.0
    ensures x > 1.0 ==> r == 1.0
  {
    var upper := if 1.0 <= x then 1.0 else x;
    if -1.0 >= upper then -1.0 else upper
  }

  lemma ClampIdempotent(x: real)
    ensures Clamp(Clamp(x)) == Clamp(x)
  {
  }

  /** What `display_bias_meter` draws: the gauge value in percent, the bar
      colour and the category, all taken from the clamped score. */
  datatype Meter = Meter(value: real, color: string, category: string)

  function DisplayBiasMeter(score: real): (m: Meter)
    ensures -100.0 <= m.value <= 100.0
    ensures -1.0 <= score <= 1.0 ==> m.value == score * 100.0
    ensures score < -1.0 ==> m.value == -100.0
    ensures score > 1.0 ==> m.value == 100.0
    ensures m.value == Clamp(score) * 100.0
    ensures m.category == Label(BiasCategory(Clamp(score)))
    ensures m.color == BandColor(BiasCategory(Clamp(score)))
    ensures score <= -1.0 ==> m.category == "Far Left"
    ensures score >= 1.0 ==> m.category == "Far Right"
  {
    var clamped := Clamp(score);
    ColorMatchesCategory(clamped);
    Meter(clamped * 100.0, BiasColor(clamped), BiasCategoryName(clamped))
  }
}
