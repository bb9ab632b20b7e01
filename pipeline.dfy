/** The per-prediction loop of the upload handler: filter each prediction by confidence,
    strip the header of its mask, decode the mask, add its area to the per-class tally and
    composite its red stencil onto a transparent overlay; finally composite the overlay onto
    the uploaded image. */
module Pipeline {
  import opened Outcomes
  import opened Raster
  import opened Masks
  import opened DataUri
  import opened Predictions

  /** Base64 decoding of a payload followed by decoding it as an image and converting that to
      luminance; `None` when either decoding fails. */
  type Decoder = string -> Option<Mask>

  /** Base64 decoding of the empty text gives no bytes, and no bytes are not an image, so a
      faithful decoder rejects the empty payload. */
  predicate RejectsEmptyPayload(decode: Decoder)
  {
    decode("") == None
  }

  /** What one request fixes: the 0-1 threshold, the size of the uploaded image and the
      mask decoder. */
  datatype Config = Config(threshold: real, width: nat, height: nat, decode: Decoder)

  /** The exceptions that escape the loop and abort the request. */
  datatype PipelineError =
    | MissingComma   // a mask text starting with "data" has no comma to split at
    | Undecodable    // the payload is not base64 of an image
    | SizeMismatch   // the decoded mask is not the size of the uploaded image

  /** The state the loop carries: the class-to-area tally and the running overlay. */
  datatype Progress = Progress(areas: map<string, int>, overlay: seq<seq<Rgba>>)

  /** What the handler hands to its template: the annotated image and the tally. */
  datatype Output = Output(annotated: seq<seq<Rgba>>, areas: map<string, int>)

  /** The decoded mask of a prediction, or the exception that decoding it raises. */
  function Resolve(p: Prediction, cfg: Config): (r: Result<Mask, PipelineError>)
    ensures StripHeader(MaskOf(p)).None? ==> r == Err(MissingComma)
    ensures StripHeader(MaskOf(p)).Some? && cfg.decode(StripHeader(MaskOf(p)).value).None? ==>
              r == Err(Undecodable)
    ensures StripHeader(MaskOf(p)).Some? && cfg.decode(StripHeader(MaskOf(p)).value).Some? &&
            !IsGrid(cfg.decode(StripHeader(MaskOf(p)).value).value, cfg.width, cfg.height) ==>
              r == Err(SizeMismatch)
    ensures r.Ok? ==> StripHeader(MaskOf(p)).Some?
                      && cfg.decode(StripHeader(MaskOf(p)).value).Some?
                      && r.value == cfg.decode(StripHeader(MaskOf(p)).value).value
    ensures r.Ok? ==> IsGrid(r.value, cfg.width, cfg.height)
    ensures r.Ok? <==> StripHeader(MaskOf(p)).Some?
                       && cfg.decode(StripHeader(MaskOf(p)).value).Some?
                       && IsGrid(cfg.decode(StripHeader(MaskOf(p)).value).value, cfg.width, cfg.height)
  {
    match StripHeader(MaskOf(p))
    case None => Err(MissingComma)
    case Some(payload) =>
      match cfg.decode(payload)
      case None => Err(Undecodable)
      case Some(m) => if IsGrid(m, cfg.width, cfg.height) then Ok(m) else Err(SizeMismatch)
  }

  /** The tally with `area` added to the entry of `cls`, which starts at 0 when absent. */
  function AddArea(areas: map<string, int>, cls: string, area: nat): (m: map<string, int>)
    ensures m.Keys == areas.Keys + {cls}
    ensures m[cls] == (if cls in areas then areas[cls] else 0) + area
    ensures forall k :: k in areas && k != cls ==> m[k] == areas[k]
  {
    areas[cls := (if cls in areas then areas[cls] else 0) + area]
  }

  /** One iteration of the loop. */
  function Step(st: Progress, p: Prediction, cfg: Config): (r: Result<Progress, PipelineError>)
    requires IsGrid(st.overlay, cfg.width, cfg.height)
    ensures r.Ok? ==> IsGrid(r.value.overlay, cfg.width, cfg.height)
  {
    if !Qualifies(p, cfg.threshold) then Ok(st)
    else
      match Resolve(p, cfg)
      case Err(e) => Err(e)
      case Ok(mask) =>
        Ok(Progress(AddArea(st.areas, ClassOf(p), Area(mask)), Composite(st.overlay, Stencil(mask))))
  }

  /** The loop run over `ps` from an empty tally and a blank overlay; the first exception
      ends it. */
  function Run(ps: seq<Prediction>, cfg: Config): (r: Result<Progress, PipelineError>)
    ensures r.Ok? ==> IsGrid(r.value.overlay, cfg.width, cfg.height)
  {
    if ps == [] then Ok(Progress(map[], Blank(cfg.width, cfg.height)))
    else
      match Run(ps[..|ps| - 1], cfg)
      case Err(e) => Err(e)
      case Ok(st) => Step(st, ps[|ps| - 1], cfg)
  }

  /** The overlay composited onto the uploaded image converted to RGBA. */
  function Annotate(orig: seq<seq<Rgb>>, overlay: seq<seq<Rgba>>): (img: seq<seq<Rgba>>)
    requires SameShape(orig, overlay)
    ensures SameShape(img, orig)
    ensures forall y, x :: 0 <= y < |orig| && 0 <= x < |orig[y]| ==> img[y][x].a == 255
  {
    Composite(ToRgbaImage(orig), overlay)
  }

  /** The handler's result for the predictions `preds` on the image `orig`. */
  function Analysis(preds: seq<Prediction>, cfg: Config, orig: seq<seq<Rgb>>): (r: Result<Output, PipelineError>)
    requires IsGrid(orig, cfg.width, cfg.height)
    ensures r.Ok? <==> Run(preds, cfg).Ok?
    ensures r.Ok? ==> r.value.areas == Run(preds, cfg).value.areas
  {
    match Run(preds, cfg)
    case Err(e) => Err(e)
    case Ok(st) => Ok(Output(Annotate(orig, st.overlay), st.areas))
  }

  /** Once the loop over a prefix of `ps` has raised, the loop over `ps` raises the same. */
  lemma {:induction false} ErrorIsFinal(ps: seq<Prediction>, k: nat, cfg: Config)
    requires k <= |ps| && Run(ps[..k], cfg).Err?
    ensures Run(ps, cfg) == Run(ps[..k], cfg)
  {
    if k < |ps| {
      var init := ps[..|ps| - 1];
      assert init[..k] == ps[..k];
      ErrorIsFinal(init, k, cfg);
    } else {
      assert ps[..k] == ps;
    }
  }

  /** The loop over one more prediction is one more `Step`, unless it has already raised. */
  lemma RunExtend(ps: seq<Prediction>, i: nat, cfg: Config)
    requires i < |ps|
    ensures Run(ps[..i], cfg).Err? ==> Run(ps[..i + 1], cfg) == Run(ps[..i], cfg)
    ensures Run(ps[..i], cfg).Ok? ==> Run(ps[..i + 1], cfg) == Step(Run(ps[..i], cfg).value, ps[i], cfg)
  {
    assert ps[..i + 1][..i] == ps[..i];
  }

  /** The loop of the handler over the service's predictions. */
  method ProcessPredictions(preds: seq<Prediction>, threshold: real, orig: seq<seq<Rgb>>,
                            width: nat, height: nat, decode: Decoder)
    returns (res: Result<Output, PipelineError>)
    requires IsGrid(orig, width, height)
    ensures res == Analysis(preds, Config(threshold, width, height, decode), orig)
  {
    ghost var cfg := Config(threshold, width, height, decode);
    var apiThresh := ApiThreshold(threshold);
    var overlay := Blank(width, height);
    var areas: map<string, int> := map[];
    for i := 0 to |preds|
      invariant Run(preds[..i], cfg) == Ok(Progress(areas, overlay))
    {
      RunExtend(preds, i, cfg);
      var p := preds[i];
      var cls := ClassOf(p);
      var conf := ConfidenceOf(p);
      if conf < apiThresh {
        continue;
      }
      var stripped := StripHeader(MaskOf(p));
      if stripped.None? {
        ErrorIsFinal(preds, i + 1, cfg);
        return Err(MissingComma);
      }
      var decoded := decode(stripped.value);
      if decoded.None? {
        ErrorIsFinal(preds, i + 1, cfg);
        return Err(Undecodable);
      }
      var mask := decoded.value;
      var areaPx := Area(mask);
      areas := areas[cls := (if cls in areas then areas[cls] else 0) + areaPx];
      if !IsGrid(mask, width, height) {
        ErrorIsFinal(preds, i + 1, cfg);
        return Err(SizeMismatch);
      }
      var alpha := Stencil(mask);
      overlay := Composite(overlay, alpha);
    }
    assert preds[..|preds|] == preds;
    res := Ok(Output(Annotate(orig, overlay), areas));
  }
}
