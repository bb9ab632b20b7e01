/** What the overlay and the annotated image show. */
module Overlay {
  import opened Outcomes
  import opened Raster
  import opened Masks
  import opened Predictions
  import opened Pipeline

  /** The mask of `p` passes the threshold, decodes and covers the pixel at row `y`, column `x`. */
  predicate Covers(p: Prediction, cfg: Config, y: nat, x: nat)
    requires y < cfg.height && x < cfg.width
  {
    Qualifies(p, cfg.threshold) &&
    match Resolve(p, cfg)
    case Ok(m) => m[y][x] > 0
    case Err(_) => false
  }

  /** Some prediction of `ps` covers the pixel at row `y`, column `x`. */
  predicate CoveredAt(ps: seq<Prediction>, cfg: Config, y: nat, x: nat)
    requires y < cfg.height && x < cfg.width
  {
    exists p :: p in ps && Covers(p, cfg, y, x)
  }

  /** Pure red, at least half opaque. */
  predicate IsRedTint(px: Rgba)
  {
    px.r == 255 && px.g == 0 && px.b == 0 && px.a >= 128
  }

  /** Every pixel of `ov` covered by a mask of `ps` is red tint; every other one is
      transparent. */
  predicate OverlayShows(ov: seq<seq<Rgba>>, ps: seq<Prediction>, cfg: Config)
    requires IsGrid(ov, cfg.width, cfg.height)
  {
    forall y: nat, x: nat :: y < cfg.height && x < cfg.width ==>
      (CoveredAt(ps, cfg, y, x) ==> IsRedTint(ov[y][x])) &&
      (!CoveredAt(ps, cfg, y, x) ==> ov[y][x] == Transparent)
  }

  lemma CoveredAtSnoc(init: seq<Prediction>, p: Prediction, cfg: Config, y: nat, x: nat)
    requires y < cfg.height && x < cfg.width
    ensures CoveredAt(init + [p], cfg, y, x) <==> CoveredAt(init, cfg, y, x) || Covers(p, cfg, y, x)
  {
    if CoveredAt(init, cfg, y, x) {
      var w :| w in init && Covers(w, cfg, y, x);
      assert w in init + [p];
    }
    if CoveredAt(init + [p], cfg, y, x) && !CoveredAt(init, cfg, y, x) {
      var w :| w in init + [p] && Covers(w, cfg, y, x);
      assert w == p;
    }
    if Covers(p, cfg, y, x) {
      assert p in init + [p];
    }
  }

  /** Red with alpha 128 composited over a transparent or red-tint pixel gives red tint. */
  lemma TintOverTint(px: Rgba)
    requires px == Transparent || IsRedTint(px)
    ensures IsRedTint(Over(px, Rgba(255, 0, 0, 128)))
  {
  }

  /** When the loop completes, its overlay is red tint exactly on the pixels some qualifying
      mask covers and fully transparent everywhere else. */
  lemma {:induction false} OverlayCoverage(ps: seq<Prediction>, cfg: Config)
    requires Run(ps, cfg).Ok?
    ensures OverlayShows(Run(ps, cfg).value.overlay, ps, cfg)
  {
    if ps != [] {
      var init := ps[..|ps| - 1];
      var p := ps[|ps| - 1];
      assert ps == init + [p];
      OverlayCoverage(init, cfg);
      var before := Run(init, cfg).value.overlay;
      var after := Run(ps, cfg).value.overlay;
      forall y: nat, x: nat | y < cfg.height && x < cfg.width
        ensures CoveredAt(ps, cfg, y, x) ==> IsRedTint(after[y][x])
        ensures !CoveredAt(ps, cfg, y, x) ==> after[y][x] == Transparent
      {
        CoveredAtSnoc(init, p, cfg, y, x);
        if Qualifies(p, cfg.threshold) {
          var m := Resolve(p, cfg).value;
          assert after[y][x] == Over(before[y][x], Rgba(255, 0, 0, if m[y][x] > 0 then 128 else 0));
          if m[y][x] > 0 {
            TintOverTint(before[y][x]);
          }
        }
      }
    }
  }

  /** When the handler succeeds, the annotated image is opaque, shows the uploaded pixel
      unchanged wherever no qualifying mask lies, and elsewhere has a red channel no lower
      and green and blue channels no higher than the uploaded pixel. */
  lemma AnnotatedImage(preds: seq<Prediction>, cfg: Config, orig: seq<seq<Rgb>>)
    requires IsGrid(orig, cfg.width, cfg.height) && Analysis(preds, cfg, orig).Ok?
    ensures IsGrid(Analysis(preds, cfg, orig).value.annotated, cfg.width, cfg.height)
    ensures forall y: nat, x: nat :: y < cfg.height && x < cfg.width ==>
      var px := Analysis(preds, cfg, orig).value.annotated[y][x];
      px.a == 255 &&
      (!CoveredAt(preds, cfg, y, x) ==> px == ToRgba(orig[y][x])) &&
      (CoveredAt(preds, cfg, y, x) ==> px.r >= orig[y][x].r && px.g <= orig[y][x].g && px.b <= orig[y][x].b)
  {
    OverlayCoverage(preds, cfg);
  }

  lemma {:induction false} RunWithoutQualifying(ps: seq<Prediction>, cfg: Config)
    requires forall p :: p in ps ==> !Qualifies(p, cfg.threshold)
    ensures Run(ps, cfg) == Ok(Progress(map[], Blank(cfg.width, cfg.height)))
  {
    if ps != [] {
      var init := ps[..|ps| - 1];
      assert ps == init + [ps[|ps| - 1]];
      RunWithoutQualifying(init, cfg);
    }
  }

  /** With no prediction passing the threshold, the tally is empty and the annotated image is
      the uploaded image converted to RGBA. */
  lemma NothingQualifies(preds: seq<Prediction>, cfg: Config, orig: seq<seq<Rgb>>)
    requires IsGrid(orig, cfg.width, cfg.height)
    requires forall p :: p in preds ==> !Qualifies(p, cfg.threshold)
    ensures Analysis(preds, cfg, orig) == Ok(Output(ToRgbaImage(orig), map[]))
  {
    RunWithoutQualifying(preds, cfg);
    var blank := Blank(cfg.width, cfg.height);
    var img := Annotate(orig, blank);
    var expected := ToRgbaImage(orig);
    forall y | 0 <= y < |orig| ensures img[y] == expected[y] {
      assert forall x :: 0 <= x < |orig[y]| ==> img[y][x] == expected[y][x];
    }
    assert img == expected;
  }
}
