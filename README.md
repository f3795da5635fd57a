# Crop disease segmentation and label formatting, in Dafny

This project models the core of a crop-leaf disease application. A
segmentation model marks the diseased part of a leaf image. Its output is
post-processed into a 0/1 mask, the diseased share of the image is
measured from the convex hulls of the mask's regions, and the diseased
cells are painted red over the image. Beside this, two classification
flows turn class labels into crop and disease names and fetch the stored
advice for them.

Modules:

- `Tensors` (`tensors.dfy`): numpy arrays as a shape plus row-major cells;
  `np.squeeze`.
- `Geometry` (`geometry.dfy`): OpenCV's `contourArea` (the shoelace
  formula, non-oriented) over integer vertices.
- `Segmentation` (`segmentation.dfy`): the image processing of
  `App/segmentation.py`, that is `preprocess_image`, `postprocess_mask`,
  `calculate_disease_percentage`, `segmentation_display` (an `array2` of
  pixels filled and painted by nested loops) and `segmentation_process`.
  `load_model` is left out (see below).
- `Labels` (`labels.dfy`): Python's `split('_')[0]`, `lower()`,
  `replace('_', ' ')` and `title()` on ASCII strings.
- `HealthyInfected` (`healthy_infected.dfy`): `Healthy.healthy_crop_classify`,
  `Infected.classification_app` and `Infected.infected_crop_classify`.

The collaborators the code calls but does not contain are parameters:

- `predict`: the segmentation model, a function from array to array.
- `traceHulls`: `cv2.findContours` with `RETR_EXTERNAL`, then
  `cv2.convexHull` per contour. It maps the thresholded mask to hull
  polygons.
- `blur`: `cv2.GaussianBlur` with its 1 x 1 kernel, a function on one pixel.
- `classify(modelName, image)`: `Classification.classification_process`.
- `fetch(name)`: the two `DataFetch` lookups.

The metrics follow the code, including its failures. Python raises
`ZeroDivisionError` in two cases, which the model returns as
`Err(ZeroDivision)`:

- The hull areas add up to exactly the frame area. The guard on line 39
  tests `total_area`, not `undefected_area`, so `defected / undefected`
  divides by zero.
- The frame is empty. The guard's fallback ratio 0 is then computed, but
  line 40 divides by zero straight after, so that 0 never reaches the
  caller.

Other facts of the code that the model keeps:

- A solid 16 x 16 block in the corner of the 256 x 256 mask is measured
  through its convex hull, which runs through the centres of the corner
  pixels and has area 15 * 15 = 225. The percentage is 22500/65536 and the
  ratio 225/65311 (`CornerBlockMetrics`).
- The blur uses a 1 x 1 kernel; the model takes it as a per-pixel function.
- The metrics accept a mask of shape (H, W, 1) as well as (H, W): OpenCV
  reads the former as a one-channel image and line 36 uses its first two
  axes. `segmentation_process` never passes one, since the squeeze removes
  the trailing axis.

## Model

| member | source | states |
|---|---|---|
| `Tensors.DropOnes` | App/segmentation.py:67 | the squeezed shape has no axis of length 1, every axis it keeps comes from the input, and a shape without length-1 axes is unchanged |
| `Tensors.Squeeze` | App/segmentation.py:67 | squeezing gives the shape DropOnes of the input's, keeps every cell value and order, and leaves no axis of length 1 |
| `Tensors.DropOnesSingle` | App/segmentation.py:67 | a single axis is kept exactly when its length is not 1 |
| `Tensors.DropOnesConcat` | App/segmentation.py:67 | squeezing works axis by axis: the squeezed shape of a + b is that of a followed by that of b, so with DropOnesSingle every axis of length other than 1 is kept, in order |
| `Tensors.DropOnesProduct` | App/segmentation.py:67 | removing length-1 axes keeps the number of cells |
| `Tensors.SqueezeValid` | App/segmentation.py:67 | a squeezed well-formed array is well formed, and squeezing twice equals squeezing once |
| `Tensors.SqueezeBatchAndChannel` | App/segmentation.py:67 | a (1, H, W, 1) array with H, W not 1 squeezes to a well-formed H x W grid with the same cells |
| `Tensors.SqueezeSingleRow` | App/segmentation.py:67 | with H = 1 the squeeze also drops the row axis and the result is one-dimensional |
| `Geometry.ContourArea` | App/segmentation.py:35 | a hull's area is non-negative, and zero exactly when its shoelace sum is zero |
| `Geometry.DegenerateHullHasNoArea` | App/segmentation.py:35 | a hull with fewer than three vertices has area 0 |
| `Geometry.RectangleArea` | App/segmentation.py:35 | the hull through the corners of an axis-aligned w x h rectangle has area w * h wherever it sits |
| `Segmentation.Normalize` | App/segmentation.py:54 | dividing by 255 takes a 0..255 pixel into [0, 1] |
| `Segmentation.FlattenRow` | App/segmentation.py:54 | one row of W pixels normalised channel-last gives 3W values, all in [0, 1] for 0..255 pixels; `FlattenRowAt` places each value |
| `Segmentation.FlattenRows` | App/segmentation.py:54 | the channel-last cells of an H x W image number H * 3W |
| `Segmentation.FlattenRowAt` | App/segmentation.py:54 | channel c of pixel k of a row, divided by 255, sits at offset 3k + c |
| `Segmentation.FlattenRowsAt` | App/segmentation.py:54 | channel c of pixel (i, j), divided by 255, sits at offset 3W * i + 3j + c of the flattened rows |
| `Segmentation.FlattenRowsCells` | App/segmentation.py:54-55 | the same, at the row-major offset (i * W + j) * 3 + c of cell (0, i, j, c) |
| `Segmentation.FlattenRowsInRange` | App/segmentation.py:54 | every cell of a normalised 0..255 image lies in [0, 1] |
| `Segmentation.PreprocessImage` | App/segmentation.py:43-56 | the tensor has shape (1, H, W, 3) and agrees with its cell count; its cell (0, i, j, c), at offset (i * W + j) * 3 + c, is channel c of pixel (i, j) divided by 255; every cell of a 0..255 image lies in [0, 1] |
| `Segmentation.Threshold` | App/segmentation.py:68 | thresholding keeps the shape and size, every cell becomes 0 or 1, and a cell is 1 exactly when its input exceeds 0.5 |
| `Segmentation.ThresholdIdempotent` | App/segmentation.py:32 | re-thresholding a 0/1 mask at 0.5 changes nothing |
| `Segmentation.PostprocessMask` | App/segmentation.py:58-69 | the mask has the squeezed shape, is 0/1, and cell k is 1 exactly when input cell k exceeds 0.5 |
| `Segmentation.PostprocessIdempotent` | App/segmentation.py:67-68 | post-processing a post-processed mask gives it back |
| `Segmentation.PostprocessedCell` | App/segmentation.py:67-68 | cell (i, j) of the post-processed grid is 1 exactly when cell (i, j) of the squeezed input exceeds 0.5 |
| `Segmentation.PostprocessModelOutput` | App/segmentation.py:67-68 | the model's (1, H, W, 1) output becomes an H x W 0/1 grid whose cell (i, j) is 1 exactly when the model's cell (0, i, j, 0) exceeds 0.5 |
| `Segmentation.DefectedArea` | App/segmentation.py:35 | the summed hull area is non-negative, and 0 when there are no hulls |
| `Segmentation.DefectedAreaConcat` | App/segmentation.py:35 | the hull areas of two lists add up; with `SingleHullArea` this makes the result the sum of the areas of all hulls |
| `Segmentation.SingleHullArea` | App/segmentation.py:35 | one hull contributes exactly its own area |
| `Segmentation.HullAreaOf` | App/segmentation.py:32-35 | the hull area measured on the thresholded mask is non-negative, and 0 when the tracer finds no contour |
| `Segmentation.TotalArea` | App/segmentation.py:36 | the frame area `shape[0] * shape[1]` is non-negative, and 0 exactly when one of the first two axes is empty |
| `Segmentation.CalculateDiseasePercentage` | App/segmentation.py:13-41 | metrics exist only for a one-channel mask of shape (H, W) or (H, W, 1); every failure is a shape error exactly when the mask has another shape, and a division by zero otherwise |
| `Segmentation.MetricsDefinedIff` | App/segmentation.py:36-40 | metrics exist if and only if the mask has shape (H, W) or (H, W, 1), the frame is non-empty and the hulls do not cover exactly the frame |
| `Segmentation.HullsCoverFrameFails` | App/segmentation.py:38-39 | a non-empty frame whose hulls sum to exactly its area gives a division by zero, because the guard of line 39 tests the total area |
| `Segmentation.EmptyFrameFails` | App/segmentation.py:39-40 | for an empty frame the result is a division by zero; the guard's fallback ratio 0 never reaches the caller |
| `Segmentation.MetricsValues` | App/segmentation.py:38-40 | percentage * total = defected * 100, ratio * (total - defected) = defected, and ratio = percentage / (100 - percentage) |
| `Segmentation.MetricsInRange` | App/segmentation.py:36-40 | when the hulls cover less than the frame, metrics exist, the percentage lies in [0, 100) and the ratio is non-negative |
| `Segmentation.OvercountedMetrics` | App/segmentation.py:34-40 | overlapping hulls that add up to more than the frame give a percentage above 100 and a negative ratio |
| `Segmentation.NoContoursNoDisease` | App/segmentation.py:34-40 | a non-empty mask with no contour yields percentage 0 and ratio 0 |
| `Segmentation.RawAndBinaryMaskAgree` | App/segmentation.py:32 | the metrics of the raw probability mask equal those of its thresholded mask |
| `Segmentation.CornerBlockMetrics` | App/segmentation.py:34-40 | a 256 x 256 mask whose only hull is the 16 x 16 corner block's gives percentage 22500/65536 and ratio 225/65311 |
| `Segmentation.Scale255` | App/segmentation.py:88 | scaling by 255 undoes the normalisation of line 81: normalising the scaled pixel gives it back |
| `Segmentation.OverlayPixel` | App/segmentation.py:83 | the overlay pixel: red where the cell is 1, the original otherwise; its meaning is stated by `PaintMasked` and `DisplayOfBinaryCell` |
| `Segmentation.ComposedPixel` | App/segmentation.py:87 | `np.where`'s choice on one pixel; its meaning is stated by `SelectPixels`, `DisplayOfBinaryCell` and `NonBinaryCellShowsOriginal` |
| `Segmentation.DisplayPixel` | App/segmentation.py:81-88 | the displayed pixel for one image pixel and mask cell; its meaning is stated by `DisplayOfBinaryCell`, `UnblurredBackgroundUnchanged` and `NonBinaryCellShowsOriginal` |
| `Segmentation.DisplayOfBinaryCell` | App/segmentation.py:83-88 | on a 0/1 mask a diseased pixel is shown as (255, 0, 0) and a healthy one as the blurred pixel scaled back by 255 |
| `Segmentation.UnblurredBackgroundUnchanged` | App/segmentation.py:84-88 | where the blur leaves a pixel as it is, a healthy pixel comes out equal to the resized input pixel |
| `Segmentation.NonBinaryCellShowsOriginal` | App/segmentation.py:83-87 | a mask cell that is neither 0 nor 1 shows the unpainted, unblurred pixel |
| `Segmentation.NormalizedArray` | App/segmentation.py:81 | a fresh H x W array holding every image pixel divided by 255 |
| `Segmentation.MapPixels` | App/segmentation.py:82-88 | a fresh array of the same shape holding f of each pixel (the copy, the blur, the scaling by 255) |
| `Segmentation.PaintMasked` | App/segmentation.py:83 | in place, each pixel whose mask cell is 1 becomes red and every other pixel keeps its old value |
| `Segmentation.SelectPixels` | App/segmentation.py:87 | a fresh array; each output pixel is the overlay pixel where the mask cell is non-zero and the blurred pixel where it is 0 |
| `Segmentation.SegmentationDisplay` | App/segmentation.py:71-89 | the output has the image's H x W shape, and every pixel is the displayed pixel of that image pixel and its mask cell; the result is a freshly allocated array, the painting having been done on a fresh copy |
| `Segmentation.PipelineMask` | App/segmentation.py:104-106 | the mask derived from the image has the squeezed shape of the model's output and is 0/1 |
| `Segmentation.SegmentationProcess` | App/segmentation.py:91-109 | a mask that does not fit the image fails the display first, a metrics failure is passed on, a fitting mask with defined metrics always succeeds, and on success percentage, ratio and fresh overlay all come from the one post-processed mask |
| `Segmentation.ModelShapedMaskFits` | App/segmentation.py:104-107 | a well-formed (1, H, W, 1) model output for an H x W image (H, W not 1) always passes the display's shape check |
| `Labels.LowerChar` | App/healthy_infected.py:32 | lower-casing one character leaves no upper-case letter, keeps whether it is a letter, and keeps every non-upper-case character |
| `Labels.UpperChar` | App/healthy_infected.py:34 | upper-casing one character leaves no lower-case letter, keeps whether it is a letter, and keeps every non-lower-case character |
| `Labels.CaseMappingsAbsorb` | App/healthy_infected.py:32-34 | upper- and lower-casing forget the case a letter had before |
| `Labels.FirstSegment` | App/healthy_infected.py:15 | the result is a prefix of the label without `_`, is followed in the label by `_` whenever it is shorter, and is the whole label when the label has no `_` |
| `Labels.FirstSegmentIdempotent` | App/healthy_infected.py:15 | splitting a first segment again gives it back |
| `Labels.Lower` | App/healthy_infected.py:32 | lower-casing keeps the length, leaves no upper-case letter, keeps every other character and moves each upper-case letter to its lower-case one |
| `Labels.LowerIdempotent` | App/healthy_infected.py:32 | lower-casing twice equals lower-casing once |
| `Labels.SeparatorsToSpaces` | App/healthy_infected.py:34 | the replacement keeps the length, leaves no `_`, puts a space where each `_` was and keeps every other character |
| `Labels.TitleFrom` | App/healthy_infected.py:34 | `title()` from a given position keeps the length; `TitleFromAt` gives its per-character rule from that position |
| `Labels.TitleFromAt` | App/healthy_infected.py:34 | each character is lower-cased after a letter and upper-cased otherwise |
| `Labels.Title` | App/healthy_infected.py:34 | title-casing keeps the length |
| `Labels.TitleAt` | App/healthy_infected.py:34 | each character of the title-cased string is upper-cased where no letter precedes it and lower-cased after a letter |
| `Labels.TitleIdempotent` | App/healthy_infected.py:34 | title-casing a title-cased string changes nothing |
| `Labels.FormatDiseaseName` | App/healthy_infected.py:34 | the formatted disease name is as long as the label |
| `Labels.FormatDiseaseNameShape` | App/healthy_infected.py:34 | character by character, each `_` becomes a space and every other character of the label is upper-cased where no letter precedes it and lower-cased after a letter; so the name has no `_` and each word's first letter is upper-case and later letters are not |
| `Labels.FormatDiseaseNameIdempotent` | App/healthy_infected.py:34 | formatting an already formatted disease name changes nothing |
| `HealthyInfected.HealthyCropClassify` | App/healthy_infected.py:6-19 | the classifier is asked once, with `healthy_crop`; the name is the label's first `_`-free segment, a prefix of the label; the data is fetched with exactly that name |
| `HealthyInfected.HealthyPlainLabel` | App/healthy_infected.py:15 | a label without `_` is reported unchanged |
| `HealthyInfected.HealthyNameIsFormatted` | App/healthy_infected.py:15 | the reported healthy name is its own first segment |
| `HealthyInfected.InfectedCropClassify` | App/healthy_infected.py:22-36 | the classifier is asked first with `crop_type`, then with the lower-cased crop label; the name is the disease label with `_` replaced by spaces and title-cased (FormatDiseaseName), hence without `_` and as long as the label; the data is fetched with exactly that name |
| `HealthyInfected.InfectedModelNameIsLowerCase` | App/healthy_infected.py:30-33 | the second model name is a fixed point of lower-casing and as long as the crop label |
| `HealthyInfected.InfectedNameIsFormatted` | App/healthy_infected.py:34-36 | the reported disease name is a fixed point of the formatting |

## Left out

- `load_model` (reading `Models/unet_main.keras`, and its `print`) and `model.predict`: TensorFlow and disk I/O. The model is the parameter `predict`.
- `cv2.findContours` and `cv2.convexHull`: contour tracing is not modelled. The hull polygons of the thresholded mask come from the parameter `traceHulls`.
- `cv2.GaussianBlur`: the per-pixel parameter `blur`. With the 1 x 1 kernel the blur acts on each pixel by itself.
- PIL `Image.resize` and image decoding: the model starts from the resized raster, an H x W raster that is 256 x 256 in the program; the contracts hold for every size. Lines 53 and 81 resize the same image the same way, so both steps receive that one raster.
- Segmentation.Normalize: divides exactly over reals; the float32 rounding of `/ 255.0` is not modelled.
- Segmentation.Scale255: multiplies exactly over reals; the `astype(np.uint8)` truncation of line 88 is not modelled. Only the red pixel's (255, 0, 0) is stated.
- Segmentation.CalculateDiseasePercentage: areas and ratios are exact reals, not floats. A mask of any shape other than (H, W) or (H, W, 1) is reported as `NotAGrid`, without telling numpy's `IndexError` apart from OpenCV's type errors.
- Segmentation.SegmentationDisplay: requires a mask with the image's shape. numpy raises `IndexError` otherwise; `SegmentationProcess` checks first and returns `ShapeMismatch`.
- Segmentation.SelectPixels: `np.repeat` gives all three channels the same condition, so the choice is made once per pixel.
- Image modes other than RGB: the raster is always three-channel RGB. The upload is not converted to RGB, so an RGBA PNG gives 4 channels and an L or P image 1; the code then fails (line 83 cannot broadcast `[1, 0, 0]`) or feeds the model a tensor of another depth. Those image modes are not modelled.
- Labels.Lower, Labels.Title: ASCII only. Python's Unicode case mapping and cased-character classes are not modelled; other characters are left as they are.
- `Infected.classification_app` is the one-call function `HealthyInfected.ClassificationApp`, with no contract of its own. Its use is stated by `InfectedCropClassify`.
- The `Classification()` and `DataFetch()` constructors, the Streamlit import, and `App/main.py` (the user interface).
