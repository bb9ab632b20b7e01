# Mask overlay and area tally of the SalmonV upload handler

The web handler `index()` sends an uploaded image to a Roboflow instance-segmentation
model. It then walks the list of predictions the model returns. It skips each prediction
whose confidence is below the form's threshold, scaled from 0–1 to the service's 0–100.
For each remaining prediction it:

- strips a `data...,` header from the mask text;
- decodes the mask to a luminance image;
- adds the number of mask pixels above 0 to a class-to-area dictionary;
- composites a red stencil with alpha 128 over a running transparent overlay.

After the loop it composites the overlay over the uploaded image. This project models
that loop, from the creation of the overlay to the final composite.

Layout, one module per file:

- `outcomes.dfy` (`Outcomes`): `Option` for missing record fields, `Result` for the
  exceptions that abort the request.
- `raster.dfy` (`Raster`): 8-bit channels, RGB/RGBA pixels, rectangular images, the
  "over" rule (`Over`), pixel-wise compositing, the blank overlay, RGB to RGBA conversion.
- `masks.dfy` (`Masks`): a mask's area (cells above 0) and its red alpha stencil.
- `data_uri.dfy` (`DataUri`): removal of the data-URI header.
- `predictions.dfy` (`Predictions`): prediction records, their defaults and the
  confidence filter.
- `pipeline.dfy` (`Pipeline`): one loop iteration (`Step`) and the whole loop (`Run`)
  as functions; the handler's result (`Analysis`); and the loop itself as the method
  `ProcessPredictions`, whose `for` loop updates the tally map and reassigns the overlay.
  The method is proved equal to `Analysis`.
- `tally.dfy` (`Tally`): what the tally amounts to.
- `overlay.dfy` (`Overlay`): what the overlay and the annotated image show.

Inputs outside the loop become parameters:

- the predictions list (the JSON reply of the service);
- the threshold;
- the uploaded image, already decoded to RGB, with its width and height;
- a `decode` function. It stands for base64 decoding, `Image.open` and `.convert("L")`
  of a payload, and returns `None` when decoding fails. The predicate
  `RejectsEmptyPayload` states the one fact about it that the model relies on: the empty
  payload decodes to no bytes, which are not an image, so it is rejected.

The handler has no `try`, so every exception in the loop aborts the request. The model
returns `Err` for each one:

- `MissingComma`: the mask text starts with `"data"` but has no comma, so
  `split(",", 1)[1]` fails.
- `Undecodable`: the payload does not decode.
- `SizeMismatch`: the decoded mask is not the size of the image, so `putalpha` fails.

What the handler does not do:

- There is no per-class colour map: every qualifying mask is red (255, 0, 0) with
  alpha 128.
- Polygons are never rasterised: masks are only decoded from base64.
- A decoding error is not skipped: it aborts the request.
- A mask of the wrong size is not resampled: it raises.
- The threshold is always scaled by 100: nothing checks that the two scales match.

## Model

| member | source | states |
|---|---|---|
| `Raster.Over` | app.py:75-78 | A source pixel with alpha 0 leaves the destination unchanged. An opaque source replaces it. An opaque destination stays opaque. The result's alpha is at least the source's and at least the destination's. Each colour channel lies between the source's and the destination's. Over a transparent destination, the result has the source's colour. |
| `Raster.Blank` | app.py:50 | The new overlay has the image's size and every pixel is (0,0,0,0). |
| `Raster.Composite` | app.py:75 | Image compositing keeps the shape and applies `Over` to each pixel pair. |
| `Raster.ToRgbaImage` | app.py:78 | Converting the uploaded image to RGBA keeps its shape and each pixel's colour, with alpha 255. |
| `Masks.RowCellsCount` | app.py:67 | Counting a row's cells above 0 one by one gives the number of positions in the row whose cell is above 0. |
| `Masks.AreaCountsCoveredCells` | app.py:66-67 | A mask's area is the number of distinct positions (row, column) whose cell is above 0, that is, the sum of `mask_np > 0`. |
| `Masks.RowAreaBounds` | app.py:67 | A row's count of cells above 0 is at most its length. It is 0 exactly when every cell is 0. It equals the length exactly when every cell is above 0. |
| `Masks.AreaBounds` | app.py:66-67 | A W×H mask's area is between 0 and W·H. It is 0 exactly when no cell is above 0. It is W·H exactly when every cell is above 0. |
| `Masks.Stencil` | app.py:71-74 | The stencil has the mask's shape. Each pixel is (255,0,0,128) where the mask is above 0 and (255,0,0,0) elsewhere. It takes no class, so the colour is the same for every class. |
| `DataUri.FirstIndexOf` | app.py:62 | The result is absent exactly when the character does not occur. Otherwise it is the position of the first occurrence. |
| `DataUri.StripHeader` | app.py:59-62 | A text not starting with "data" is returned unchanged. A text starting with "data" has no payload exactly when it has no comma. Otherwise its payload is everything after its first comma. |
| `DataUri.HeaderRoundTrip` | app.py:61-62 | Stripping `header + "," + payload` gives back `payload` when the header starts with "data" and has no comma. |
| `Predictions.ClassOf` | app.py:54 | The class is the record's class when present and "unknown" otherwise. |
| `Predictions.ConfidenceOf` | app.py:55 | The confidence is the record's confidence when present and 0 otherwise. |
| `Predictions.MaskOf` | app.py:59 | The mask text is the record's mask when present and empty otherwise. |
| `Predictions.ApiThreshold` | app.py:33-34 | The service threshold is the form threshold scaled by 100, so a threshold in 0–1 becomes one in 0–100. |
| `Predictions.Qualifies` | app.py:55-57 | A prediction with a confidence is processed exactly when its confidence is at least 100·threshold. One without a confidence counts as 0, so it is processed exactly when the threshold is at most 0. |
| `Predictions.Qualifying` | app.py:56-57 | A prediction is in the filtered list exactly when it is in the input and its confidence is not below threshold·100. |
| `Predictions.ThresholdMonotone` | app.py:56-57 | Raising the threshold never adds a prediction to the filtered list, counting repeats (multiset inclusion). |
| `Pipeline.Resolve` | app.py:59-74 | A text starting with "data" and lacking a comma raises `MissingComma`. A payload that does not decode raises `Undecodable`. A prediction yields a mask exactly when its header strips, its payload decodes, and the decoded mask has the image's size; that mask is the decoded payload itself, and it is W×H. Otherwise (a decoded mask of another size) it raises `SizeMismatch`. |
| `Pipeline.AddArea` | app.py:68 | The class's key is created at 0 if absent and increased by the area. The key set grows by that class only. Every other key keeps its value. |
| `Pipeline.Step` | app.py:53-75 | A completed iteration leaves the overlay at the image's size. |
| `Pipeline.Run` | app.py:49-75 | A completed loop leaves the overlay at the image's size. |
| `Pipeline.Annotate` | app.py:78 | The final composite has the image's shape and is fully opaque. |
| `Pipeline.Analysis` | app.py:49-78 | The handler succeeds exactly when the loop completes. It then reports the loop's tally. |
| `Pipeline.ErrorIsFinal` | app.py:53-75 | Once an iteration raises, the whole loop raises the same error, whatever predictions follow. |
| `Pipeline.ProcessPredictions` | app.py:49-78 | The imperative loop returns exactly `Analysis` of its inputs: the same error, or the same annotated image and tally. |
| `Tally.MissingMaskAborts` | app.py:59-65 | With a decoder that rejects the empty payload, a processed prediction with no or empty mask text fails to decode, and the whole loop raises. |
| `Tally.ClassTotalOfUntallied` | app.py:68 | A class with no qualifying prediction has total 0. |
| `Tally.RunOkIff` | app.py:53-75 | The loop completes exactly when every qualifying prediction's mask strips, decodes and has the image's size. |
| `Tally.TallyIsClassTotal` | app.py:53-68 | After the loop, the tally's keys are exactly the classes with a qualifying prediction. Each value is the sum of the areas of that class's qualifying predictions. |
| `Tally.ClassTotalConcat` | app.py:68 | A class's total over two concatenated prediction lists is the sum of the two totals. |
| `Tally.ClassTotalPermutation` | app.py:68 | A class's total is the same for any reordering of the predictions. |
| `Tally.TallyOrderIndependent` | app.py:53-68 | Reordering the predictions keeps the loop completing and leaves the tally unchanged. |
| `Tally.SkippedPredictionIsInert` | app.py:56-57 | Inserting a prediction whose confidence is below threshold·100 anywhere in the list leaves the loop's outcome unchanged: same tally, same overlay, same error. |
| `Overlay.CoveredAtSnoc` | app.py:53-75 | A pixel is covered by a list with one more prediction exactly when the shorter list covers it or the new prediction's mask does. |
| `Overlay.TintOverTint` | app.py:72-75 | Compositing the red alpha-128 stencil over a transparent or red-tinted pixel gives pure red with alpha at least 128. |
| `Overlay.OverlayCoverage` | app.py:50-75 | After the loop, every overlay pixel covered by a qualifying mask is pure red with alpha at least 128. Every other pixel is still (0,0,0,0). |
| `Overlay.AnnotatedImage` | app.py:78 | The annotated image is opaque. Where no qualifying mask lies it equals the uploaded pixel. Elsewhere its red channel is no lower, and its green and blue channels no higher, than the uploaded pixel's. |
| `Overlay.RunWithoutQualifying` | app.py:50-57 | If no prediction qualifies, the loop ends with an empty tally and the blank overlay. |
| `Overlay.NothingQualifies` | app.py:49-78 | If no prediction qualifies (an empty list included), the result is an empty tally and the uploaded image converted to RGBA. |

## Left out

- The Flask route, form parsing, template rendering and server start-up (app.py:16-31,
  85-95). These are web plumbing.
- The HTTP call to the segmentation service, the API key and the secret key
  (app.py:10-14, 36-47). The predictions list is an input.
- Base64 and image decoding of masks (app.py:65). These are foreign library calls, so
  they become the `decode` parameter. Decoding of the upload (app.py:31) is left out
  too: the image is an input, already in RGB.
- PNG encoding and base64 of the result (app.py:81-83). These are foreign library calls.
- `Raster.Over`: does not reproduce PIL's fixed-point rounding in `alpha_composite`.
  Channels and alpha are the exact weighted means rounded down, so a channel can differ
  from PIL's by one.
- `Predictions.Qualifies`: confidence and threshold are exact reals. The floating-point
  rounding of `threshold * 100` and of the service's confidences is not modelled. Nor is
  a NaN threshold, which `float()` accepts (app.py:25): every comparison with it is false,
  so every prediction is processed.
- Record fields are either absent or well-typed. The model does not cover a field that
  is present with value `null` or with another type. In the handler a `null`, numeric
  or boolean class does not raise: it becomes a tally key of that value (app.py:68). An
  array or object class raises `TypeError` there, since it cannot be a dictionary key. A
  `null` or non-numeric confidence raises `TypeError` at the comparison (app.py:56). A
  `null` or non-string mask raises `AttributeError` at `.startswith` (app.py:61).
- The `decode` parameter is otherwise unconstrained. Only `RejectsEmptyPayload` is
  stated about it, and only `Tally.MissingMaskAborts` assumes it. No other base64 or
  image format rule is modelled.
- The decoded mask is a grid of luminance bytes. Other PIL modes are not modelled, since
  `.convert("L")` always yields this form.
- The raised exceptions are named by their cause (`PipelineError`). Python's exception
  classes and the HTTP 500 reply are not modelled.
