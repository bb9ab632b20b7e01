/** Detection records returned by the segmentation service, their defaults and the
    confidence filter. */
module Predictions {
  import opened Outcomes

  /** One detection record; each field may be missing from the record. `mask` is the
      (possibly data-URI prefixed) base64 text of the mask image. */
  datatype Prediction = Prediction(cls: Option<string>, confidence: Option<real>, mask: Option<string>)

  /** The class label, "unknown" when the record has none. */
  function ClassOf(p: Prediction): (c: string)
    ensures p.cls.Some? ==> c == p.cls.value
    ensures p.cls.None? ==> c == "unknown"
  {
    p.cls.GetOr("unknown")
  }

  /** The confidence on the service's 0-100 scale, 0 when the record has none. */
  function ConfidenceOf(p: Prediction): (r: real)
    ensures p.confidence.Some? ==> r == p.confidence.value
    ensures p.confidence.None? ==> r == 0.0
  {
    p.confidence.GetOr(0.0)
  }

  /** The mask text, empty when the record has none. */
  function MaskOf(p: Prediction): (s: string)
    ensures p.mask.Some? ==> s == p.mask.value
    ensures p.mask.None? ==> s == ""
  {
    p.mask.GetOr("")
  }

  /** The threshold of the 0-1 form field on the service's 0-100 scale. */
  function ApiThreshold(threshold: real): (r: real)
    ensures r / 100.0 == threshold
    ensures 0.0 <= threshold <= 1.0 ==> 0.0 <= r <= 100.0
  {
    threshold * 100.0
  }

  /** A prediction is processed unless its confidence is strictly below the scaled threshold;
      one without a confidence is processed exactly when the threshold is not positive. */
  predicate Qualifies(p: Prediction, threshold: real): (b: bool)
    ensures p.confidence.Some? ==> (b <==> p.confidence.value >= 100.0 * threshold)
    ensures p.confidence.None? ==> (b <==> threshold <= 0.0)
  {
    !(ConfidenceOf(p) < ApiThreshold(threshold))
  }

  /** The predictions of `ps` that are processed at `threshold`, in their order. */
  function Qualifying(ps: seq<Prediction>, threshold: real): (qs: seq<Prediction>)
    ensures forall p :: p in qs <==> p in ps && Qualifies(p, threshold)
    ensures |qs| <= |ps|
  {
    if ps == [] then []
    else
      var init := Qualifying(ps[..|ps| - 1], threshold);
      var p := ps[|ps| - 1];
      assert ps == ps[..|ps| - 1] + [p];
      if Qualifies(p, threshold) then init + [p] else init
  }

  /** Raising the threshold never lets more predictions through: every prediction processed
      at the higher threshold (counted with its multiplicity) is processed at the lower one. */
  lemma {:induction false} ThresholdMonotone(ps: seq<Prediction>, low: real, high: real)
    requires low <= high
    ensures multiset(Qualifying(ps, high)) <= multiset(Qualifying(ps, low))
  {
    if ps != [] {
      ThresholdMonotone(ps[..|ps| - 1], low, high);
    }
  }
}
