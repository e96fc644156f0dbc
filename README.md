# Grape leaf classifier: foliage mask and label selection

The web page in `app/components/FileUpload.tsx` classifies a photo of a
grape leaf. It takes two steps before the neural network sees the image
and one step after:

1. **Pixel conversion.** For each pixel it converts (r, g, b) to hue,
   saturation and value, using the 0-255 byte range for saturation and
   value and degrees for hue.
2. **Foliage mask.** It keeps a pixel when the hue is in [60, 180] and
   both saturation and value are at least 25. Every bound is inclusive.
   For every other pixel it sets the three colour bytes to 0 in place in
   the canvas's RGBA buffer. The alpha byte is never touched.
3. **Label selection.** Once the network has produced one score per
   class, it takes `scores.indexOf(Math.max(...scores))`. It maps that
   index to one of "Black Rot", "Black Measles", "Leaf Blight" and
   "Healthy", and the result panel shows that class's entry from a fixed
   table of descriptions and treatments.

The project has three modules:

- **`ColorSpace`** (`color_space.dfy`) holds the per-pixel conversion
  `ToHsv` and the keep test `Keeps`.
  - JavaScript's truncating `%` is written out as `RemainderBySix`.
  - `FoliageIffGreenDominant` proves the keep test equal to an integer
    condition: green holds the maximum, the pixel is not grey,
    255·(max − min) ≥ 25·max and max ≥ 25.
  - `HsvToRgb` is an independent inverse. It is not part of the source.
    `HsvRoundTrip` proves that the conversion loses nothing for any pixel.
- **`Segmentation`** (`segmentation.dfy`) holds the in-place loop
  `MaskFoliage` on an `array<Byte>`.
  - It is proved against the sequence function `Masked`, which is stated
    through the integer condition above.
  - The lemmas about `Masked` cover the pixel-by-pixel effect, alpha
    preservation, idempotence and whole-image examples.
- **`Classification`** (`classification.dfy`) holds `MaxScore`,
  `IndexOf`, their composition `ArgMax`, the label `Predict`, the table
  `DiseaseInfo` and the result panel `Panel`.
  - `ArgMax` is tied in both directions to the reference predicate
    `IsFirstMax`.

A missing label, or an index past the four classes, is `None`:

- When the score array is empty, `Math.max()` is minus infinity.
  `indexOf` then gives -1, and `classes[-1]` is `undefined`.
- The page's `result && ...` then shows no panel. The model gives `None`
  for this case.
- The same happens when the winning index is 4 or more.

An index without a class gives no label: the page shows nothing and
raises no error.

## Model

| member | source | states |
|---|---|---|
| ColorSpace.RemainderBySix | app/components/FileUpload.tsx:65 | JavaScript's `%` by 6: the remainder is strictly between -6 and 6. It has the sign of the dividend (or is 0). The dividend minus it is a whole multiple of 6. |
| ColorSpace.RemainderBySixSmall | app/components/FileUpload.tsx:65 | On the red branch the quotient (g − b)/delta lies in [-1, 1], so `% 6` leaves it unchanged. |
| ColorSpace.Max3 | app/components/FileUpload.tsx:57 | The result is one of r, g, b and at least each of them. |
| ColorSpace.Min3 | app/components/FileUpload.tsx:58 | The result is one of r, g, b and at most each of them. |
| ColorSpace.RedSector | app/components/FileUpload.tsx:65 | On the red branch, `((g − b)/delta) % 6` equals the plain quotient (g − b)/delta and lies in [-1, 1]. |
| ColorSpace.GreenSector | app/components/FileUpload.tsx:66 | On the green branch, (b − r)/delta + 2 lies in [1, 3]. |
| ColorSpace.BlueSector | app/components/FileUpload.tsx:67 | On the blue branch, (r − g)/delta + 4 lies in [3, 5]. |
| ColorSpace.Hue | app/components/FileUpload.tsx:57-70 | The hue is in [0, 360). A grey pixel (delta = 0) has hue 0. |
| ColorSpace.HueIsZero | app/components/FileUpload.tsx:62-70 | The hue is 0 exactly when the pixel is grey, or red is the maximum and green equals blue. |
| ColorSpace.Saturation | app/components/FileUpload.tsx:57-61 | The saturation is in [0, 255]. It is 0 exactly when max = min, including the black pixel where max = 0. |
| ColorSpace.ToHsv | app/components/FileUpload.tsx:55-70 | v is one of r, g, b and at least each of them. s is in [0, 255] and h in [0, 360). A grey pixel (r = g = b) gives (0, 0, r). |
| ColorSpace.SaturationThreshold | app/components/FileUpload.tsx:61 | For a non-grey pixel, s ≥ 25 exactly when 255·(max − min) ≥ 25·max. |
| ColorSpace.HueInFoliageRange | app/components/FileUpload.tsx:62-72 | For a non-grey pixel, 60 ≤ h ≤ 180 exactly when green holds the maximum. |
| ColorSpace.IsFoliage | app/components/FileUpload.tsx:72 | The keep test on an HSV triple: 60 ≤ h ≤ 180, s ≥ 25 and v ≥ 25, every bound inclusive. |
| ColorSpace.Keeps | app/components/FileUpload.tsx:56-72 | The keep test applied to the HSV triple the pass computes for (r, g, b). |
| ColorSpace.FoliageIffGreenDominant | app/components/FileUpload.tsx:57-72 | A pixel is kept exactly when g = max, max > min, 255·(max − min) ≥ 25·max and max ≥ 25. |
| ColorSpace.GreyIsDiscarded | app/components/FileUpload.tsx:57-72 | A grey pixel has HSV (0, 0, r) and is discarded. |
| ColorSpace.RedGreenTie | app/components/FileUpload.tsx:65-72 | Red takes priority on ties: (200, 200, 0) goes down the red branch to HSV (60, 255, 200) and is kept. |
| ColorSpace.PureGreenAndRed | app/components/FileUpload.tsx:57-72 | (0, 200, 0) has HSV (120, 255, 200) and is kept. (200, 0, 0) has HSV (0, 255, 200) and is discarded. |
| ColorSpace.HueOfRed | app/components/FileUpload.tsx:65-69 | On the red branch, the hue is 60·x, or 60·x + 360 when g < b, where x = (g − b)/delta is in [-1, 1]. |
| ColorSpace.HueOfGreen | app/components/FileUpload.tsx:66-68 | On the green branch, the hue is 60·(x + 2), where x = (b − r)/delta is in [-1, 1]. |
| ColorSpace.HueOfBlue | app/components/FileUpload.tsx:67-68 | On the blue branch, the hue is 60·(x + 4), where x = (r − g)/delta is in (-1, 1). |
| ColorSpace.ChromaIsDelta | app/components/FileUpload.tsx:57-61 | v = max, and v·s/255 recovers delta = max − min. |
| ColorSpace.HsvRoundTrip | app/components/FileUpload.tsx:56-70 | Converting the computed (h, s, v) back with the standard inverse gives exactly the original (r, g, b). So the conversion loses no information. |
| Segmentation.MaskStep | app/components/FileUpload.tsx:72-76 | One iteration: the current pixel's colour bytes are still the input's. Handling the pixel zeroes exactly its three colour bytes when it fails the test, and changes nothing else. |
| Segmentation.MaskFoliage | app/components/FileUpload.tsx:55-77 | The in-place loop, stepping 4 bytes at a time, leaves the buffer equal to `Masked` of its old contents. |
| Segmentation.MaskedPixel | app/components/FileUpload.tsx:72-76 | After the pass, each pixel is unchanged when the keep test accepts it. Otherwise it is [0, 0, 0, alpha]. |
| Segmentation.MaskedPreservesAlpha | app/components/FileUpload.tsx:55-76 | The pass keeps the length and every alpha byte. It writes nothing but 0 into any byte it changes. |
| Segmentation.MaskedPixelsAreFoliageOrBlack | app/components/FileUpload.tsx:72-76 | Every output pixel is either an accepted input pixel, unchanged and still accepted, or black with the input's alpha and a rejected input colour. |
| Segmentation.MaskedIdempotent | app/components/FileUpload.tsx:55-77 | Masking an already masked buffer changes nothing. |
| Segmentation.MaskedUniform | app/components/FileUpload.tsx:55-77 | A single-colour image stays unchanged when its colour passes the test. Otherwise it becomes uniformly black with the same alpha. |
| Segmentation.AllGreenUnchanged | app/components/FileUpload.tsx:55-77 | A 4 x 4 image of (0, 200, 0, 255) comes out unchanged. |
| Segmentation.AllRedBlackedOut | app/components/FileUpload.tsx:55-77 | A 4 x 4 image of (200, 0, 0, 255) comes out as (0, 0, 0, 255) everywhere. |
| Classification.MaxScore | app/components/FileUpload.tsx:124 | For a non-empty score array, the maximum is one of the scores and at least every score. |
| Classification.IndexOf | app/components/FileUpload.tsx:124 | The result is -1 exactly when the value is absent. Otherwise it is the position of its first occurrence. |
| Classification.ArgMax | app/components/FileUpload.tsx:124 | The result is -1 exactly for no scores. Otherwise it is a first maximum: no score is larger and every earlier score is strictly smaller. |
| Classification.FirstMaxUnique | app/components/FileUpload.tsx:124 | At most one index is a first maximum. |
| Classification.ArgMaxIsFirstMax | app/components/FileUpload.tsx:124 | For non-empty scores, `ArgMax` gives i exactly when i is the first maximum. |
| Classification.Predict | app/components/FileUpload.tsx:123-126 | There is no label for no scores. Otherwise the label is the class at the first maximum, or none when that index is past the four classes. Any label is one of the classes. |
| Classification.Panel | app/components/FileUpload.tsx:171-180 | The panel is shown exactly when there is a label, and it shows that label's own record from the table. |
| Classification.EveryClassHasRecord | app/components/FileUpload.tsx:9-26 | The table's keys are exactly the four class names. |
| Classification.FourScoresGiveClass | app/components/FileUpload.tsx:123-126 | With four scores there is always a label. It is one of the classes, it has a table record, and the panel is shown. |
| Classification.LabelHasRecord | app/components/FileUpload.tsx:177-180 | Any label the page sets has a record, so the panel never indexes the table with a missing key. |
| Classification.TieGoesToFirst | app/components/FileUpload.tsx:124 | The scores [0.5, 0.5, 0.1, 0.0] give index 0 and the label "Black Rot". |
| Classification.FifthScoreHasNoLabel | app/components/FileUpload.tsx:123-126 | Five scores whose maximum is the fifth give no label. |

## Left out

- The model uses exact rational arithmetic, not IEEE-754 doubles. Rounding of the division by delta and by max, and of the products by 60 and 255, is not modelled. For byte inputs the hue reaches 60 or 180 only through a quotient of exactly ±1, which doubles compute exactly. Otherwise it stays at least 60/255 of a degree away from both bounds, so rounding there changes no keep decision. The model does not prove the same for the saturation threshold of 25, so `FoliageIffGreenDominant` is stated for exact values only.
- Scores are exact reals. NaN and infinite scores are not modelled: `Math.max` with NaN gives NaN, which `indexOf` never finds.
- The buffer length being a multiple of 4 is a precondition of `MaskFoliage`. Canvas `ImageData` always satisfies it.
- These are not part of this model:
  - drawing the image into a canvas;
  - `getImageData` and `putImageData`;
  - creating the second canvas for display;
  - resizing the image to 224 x 224;
  - loading and running the TensorFlow.js network, which is an outside call whose scores are the input of `Predict`.
- React state, the file input, the loading flag, the asynchronous image `onload` and all JSX markup are left out. The page's `result` string is modelled as `Option<string>`, where the empty or `undefined` result is `None`.
- `Panel` requires that a present label is a key of the table. Indexing the table with a missing key would throw in the page. `LabelHasRecord` shows that no label from `Predict` can do so.
- `public/opencv.ts` is not part of this model.
- `Masked` is stated through the integer condition `GreenDominant`, not by calling `Keeps`. `FoliageIffGreenDominant` proves the two equal for every pixel. `MaskFoliage` itself runs the real-number keep test, as the page does.
