# Ultrasound upload filter and label selection — a verified model

The web application accepts an ultrasound image upload, segments it, and
classifies the mask as `benign`, `malignant` or `normal`. Almost all of it is
web, database and neural-network plumbing. This project models the three
pieces of pure decision logic in `app.py`:

- **Upload filter** (`allowed_file`). A file name is accepted when it holds a
  `.` and the text after the last `.`, lower-cased, is `png`, `jpg`, `jpeg` or
  `gif`. The model spells out `str.rsplit('.', 1)` (`Upload.RSplitOnce`) and
  `str.lower()` (`Upload.Lower`). It proves that the filter agrees with a
  reference definition stated by positions (a last dot and the lower-cased text
  after it), which is independent of the split but shares `Lower`. It also
  proves that only the last extension matters, that case is ignored, and that
  names without a dot or with an empty extension are refused.
- **Label selection** (`class_names[np.argmax(scores)]`). `Labels.ArgMax` is
  numpy's first-occurrence argmax over a score vector. `Labels.SelectLabel`
  returns an error where the Python would raise: for an empty vector
  (numpy's `ValueError`) and for a position past the three class names
  (`IndexError`). For the classifier's three scores the label is always one of
  the three names, and the model gives the full decision table.
- **Pixel normalisation** (`img / 255.0` in `prepare_image` and
  `prepare_image2`). `Normalisation.Normalize` maps an 8-bit sample to a
  real in [0, 1], with 0 going to 0 and 255 going to 1.

Modules: `Wrappers` (Option and Result), `Upload` (upload.dfy), `Labels`
(labels.dfy), `Normalisation` (normalisation.dfy).

## Model

| member | source | states |
|---|---|---|
| Upload.LastIndexOf | app.py:32 | Finds the dot `rsplit` cuts at. Returns None exactly when the character is absent; otherwise a position holding it with no later occurrence. |
| Upload.RSplitOnce | app.py:32 | `rsplit(sep, 1)` gives one part (the whole string) exactly when `sep` is absent. Otherwise it gives two parts that rejoin with `sep` to the input, and the second part holds no `sep`. |
| Upload.RSplitOnceOfJoin | app.py:32 | Round trip: splitting `prefix + sep + suffix` with a separator-free suffix returns exactly `[prefix, suffix]`. |
| Upload.Lower | app.py:32 | `lower()` keeps the length and leaves no capital A–Z in the result. |
| Upload.LowerPointwise | app.py:32 | `lower()` turns each capital A–Z into its small letter and keeps every other character. |
| Upload.LowerKeepsLetters | app.py:32 | Lower-casing loses only case: upper-casing its result equals upper-casing its input. |
| Upload.LowerIdempotent | app.py:32 | Lower-casing an already lower-cased string changes nothing. |
| Upload.AllowedFileAtLastDot | app.py:32 | Given the last dot's position, `allowed_file` is exactly the whitelist test on the lower-cased text after it. |
| Upload.AllowedFile | app.py:31-32 | A name without a dot, the empty name included, is never accepted. |
| Upload.AcceptedHasAllowedExtension | app.py:29-32 | Every accepted name has a last dot followed by a whitelisted extension, once lower-cased. |
| Upload.HasAllowedExtensionAccepted | app.py:29-32 | Every name whose last dot is followed by a whitelisted extension, once lower-cased, is accepted. |
| Upload.AllowedFileMatchesReference | app.py:29-32 | `allowed_file` is true exactly when the reference definition (a last dot followed by a whitelisted lower-cased extension) holds. |
| Upload.LastExtensionOnly | app.py:32 | For a dot-free suffix, `prefix.suffix` is accepted exactly when the lower-cased suffix is whitelisted, for any prefix. So it gets the same verdict as `x.suffix`. |
| Upload.TrailingDotRejected | app.py:32 | A name ending in `.` has an empty extension and is rejected. |
| Upload.AllowedFileOnlySeesLowerCase | app.py:32 | Lower-casing a whole name does not change its verdict. |
| Upload.CaseInsensitive | app.py:32 | Two names that lower-case to the same text get the same verdict. |
| Upload.UpperCaseInvariant | app.py:32 | ASCII upper-casing a whole name does not change its verdict. |
| Upload.NoDotExamples | app.py:32 | The empty name and `png` (no dot) are rejected. |
| Upload.ExampleExeThenPng | app.py:29-32 | `a.exe.png` is accepted. |
| Upload.ExamplePngThenExe | app.py:29-32 | `a.png.exe` is rejected. |
| Upload.CaseExamples | app.py:29-32 | `X.PNG` and `scan.JpEg` are accepted. |
| Labels.ArgMax | app.py:60 | `np.argmax` returns an index whose score is at least every score, and strictly above every earlier score (first occurrence wins ties). |
| Labels.FirstMaxUnique | app.py:60 | At most one index is the first maximum. |
| Labels.ArgMaxIsFirstMax | app.py:60 | `ArgMax` returns k exactly when k is the first maximum (both directions). |
| Labels.SelectLabel | app.py:60 | The label lookup fails with `EmptyScores` exactly for an empty vector. A returned label is a class name whose position is the first maximum. An out-of-range failure happens only for more scores than classes. It reports the first maximum, and that position is at least 3 (past the class list). |
| Labels.ThreeScoresAlwaysLabelled | app.py:34 | Three scores always give a label, and it is one of `benign`, `malignant`, `normal`. |
| Labels.ThreeScoresDecision | app.py:34 | Decision table for three scores. `benign` iff score 0 is at least both others. `malignant` iff score 1 beats score 0 and is at least score 2. `normal` iff score 2 beats both. |
| Labels.AllEqualIsBenign | app.py:60 | Three equal scores select `benign`, the first class. |
| Normalisation.Normalize | app.py:42 | A sample in 0..255 maps into [0, 1]. It is 0 exactly for sample 0 and 1 exactly for sample 255. Multiplying back by 255 recovers the sample. |
| Normalisation.NormalizeStrictlyMonotone | app.py:42 | A smaller sample gives a strictly smaller normalised value, so distinct samples stay distinct. |
| Normalisation.NormalizeImage | app.py:42-48 | The normalised image has as many values as the input. Every value lies in [0, 1] and times 255 gives back its sample. |
| Normalisation.ConstantImages | app.py:48 | An all-0 image normalises to all 0.0 and an all-255 image to all 1.0. |

## Left out

- Flask routes, form handling, redirects, flash messages and templates (app.py:66-191): web plumbing. This includes the `upload` route's separate empty-name check; the model covers the empty name through `allowed_file` itself.
- MongoDB inserts, finds, updates and deletes: an external store.
- Loading the segmentor and classifier models and their `predict` calls: opaque foreign calls. The classifier's score vector is an input to `Labels.SelectLabel`.
- Image decoding and resizing (`load_img`, `img_to_array`) and `np.expand_dims`: library code that is not part of this model. The decoded image is a flat sequence of 8-bit samples; its height, width and channel axes are not modelled.
- The `plt.imsave(..., cmap='gray')` quantisation of the mask: it happens inside matplotlib.
- The temporary file `temp_mask.png`: filesystem I/O. Its fixed name can collide between concurrent requests, but that is a concurrency problem outside a sequential model.
- `secrets.token_hex` and `secure_filename`: library calls.
- Normalisation.Normalize: uses exact real division, not float32 rounding, so the stated bounds and round trip hold exactly in the model.
- Labels.ArgMax: scores are reals, so numpy's behaviour on NaN (the first NaN wins) is not modelled.
- Upload.Lower: only ASCII `A`–`Z` is lower-cased. Python's full Unicode case mapping of other characters is not modelled. This does not change any `allowed_file` verdict: the only non-ASCII character that Python lower-cases to pure ASCII is the Kelvin sign (to `k`), and no whitelisted extension contains `k`.
- Upload.Upper: an ASCII-only upper-casing helper used to state case-insensitivity. It is not Python's `str.upper()`, which `app.py` never calls.
- Upload.UpperCaseInvariant: holds for ASCII upper-casing only. With Python's `str.upper()` it fails: `a.gıf` (dotless `ı`, U+0131) is rejected, but its upper-cased form `A.GIF` is accepted.
