# Image resize: dimension arithmetic and the shrink-under-budget loop

A Dafny model of the resize helpers in `image_attributes/image_resize.py`:

- `resize` is a two-mode dimension calculator. Given an integer, it makes the
  longer side that integer and scales the shorter side in proportion, truncating
  (antialiasing filter). Given a pair, it truncates both components and ignores the
  aspect ratio (nearest-neighbour filter).
- `resize_in_percentages` scales both sides by `percentage/100` through the pair path.
- `resize_under_kb` is a loop. Each pass takes `STEP` (32) pixels off the longer side,
  re-encodes and re-measures. It stops when the image is within the KB budget or when
  the next candidate longer side is at or below `MIN_SIZE` (32).
- Lines 124-126 of the upload handler apply percentage, then budget, then exact pair.

Everything is in `image_resize.dfy`, module `ImageResize`. The model never looks at pixels.
An `Image` is an opaque lineage: the decoded upload (`Loaded`), or the request
(width, height, filter) handed to the resampling primitive for another image
(`Resampled`). The JPEG encoding and its size on disk (lines 78-79) become a
caller-supplied oracle `measure: Image -> nat` giving a byte count. The KB figure is
that count divided by 1024. Python's `int()` on a float is `Trunc`, truncation
toward zero. The integer-or-pair argument of `resize` is the tagged `Target`:
`Side(t)` or `Pair(a, b)`. The division by a zero width, which only happens in
fixed-size mode on a 0x0 image, is the error `ZeroDivision`.

`resize_under_kb` is the method `ResizeUnderKb`, with a `while` loop over the same
variables as the source. It is proved equal to the recursive function `ShrinkRun`,
and the lemmas about `ShrinkRun` state termination, the pass bound and the exit
condition.

The code does not reject a non-positive target before calling the resampler: a
fixed-size resize of 1000x1 to 968 asks for 968x0.

The docstring of `resize_in_percentages` (line 92) says the percentage is how much
to reduce by ("30% means ... 70KB"). The code at line 95 scales each side *to*
`percentage`% instead. The model follows the code: 30 gives 30% of each side.

## Model

| member | source | states |
|---|---|---|
| `ImageResize.Trunc` | image_attributes/image_resize.py:58 | `int()` of a float truncates toward zero: for x >= 0 the result r satisfies r <= x < r+1, and for x < 0 it satisfies r-1 < x <= r with r <= 0 |
| `ImageResize.Resize` | image_attributes/image_resize.py:33-61 | Fixed-size mode fails only on a 0x0 image, which is the division by zero. When h > w the height becomes t and the width is the floor of w*t/h: out_w*h <= w*t < (out_w+1)*h. When w >= h (squares included) the width becomes t and the height is the floor of h*t/w. The filter is ANTIALIAS and both sides are non-negative. Pair mode gives exactly (int(a), int(b)) with NEAREST, whatever the current size |
| `ImageResize.SideKeepsLongerSide` | image_attributes/image_resize.py:44-55 | In fixed-size mode the longer side of the result is exactly t. For t > 0 the result is portrait exactly when the input is |
| `ImageResize.SameExactPairUnchanged` | image_attributes/image_resize.py:57-59 | Resizing to the current exact pair asks for the same dimensions, with NEAREST |
| `ImageResize.SideExamples` | image_attributes/image_resize.py:44-55 | 1920x1080 to 960 gives 960x540. The portrait mirror gives 540x960. A square takes the width branch. A 1000x1 image resized to 968 gives a zero height, which the code does not reject |
| `ImageResize.ResizeInPercentages` | image_attributes/image_resize.py:87-95 | For a non-negative percentage p, each side is the floor of side*p/100, via the pair path with NEAREST |
| `ImageResize.PercentOfNat` | image_attributes/image_resize.py:87-95 | For a whole-number p the result is exactly (w*p div 100, h*p div 100) |
| `ImageResize.PercentExamples` | image_attributes/image_resize.py:94-95 | 100% leaves the dimensions unchanged. 1000x500 at 50% gives 500x250 |
| `ImageResize.ResizeUnderKb` | image_attributes/image_resize.py:64-84 | The loop's result is that of `ShrinkRun`. The image is returned untouched when size_kb <= desired_size or max(size) - STEP <= MIN_SIZE. When size_kb > desired_size and max(size) - STEP > MIN_SIZE, the result's longer side lies strictly between MIN_SIZE and max(size) |
| `ImageResize.ShrinkRunStops` | image_attributes/image_resize.py:75-82 | On exit, either the last measured KB is within the budget or the next candidate max(size) - STEP is at or below MIN_SIZE |
| `ImageResize.ShrinkRunTrace` | image_attributes/image_resize.py:73-82 | Pass i (from 0) produces a longer side of max(w,h) - (i+1)*STEP, which is above MIN_SIZE, and keeps the starting orientation. With no pass, the image, size and KB are the inputs. Otherwise the result is the last pass's ANTIALIAS image, `size` is its dimensions and the KB is its measurement |
| `ImageResize.ShrinkRunBound` | image_attributes/image_resize.py:73-82 | If the loop runs k > 0 passes then k*STEP < max(w,h) - MIN_SIZE, so it runs strictly fewer than (max(w,h) - MIN_SIZE)/STEP times |
| `ImageResize.ScaleStep` | image_attributes/image_resize.py:124 | With no percentage the upload passes through unchanged. Otherwise the result is a resample of the upload with the `resize_in_percentages` request: NEAREST, and for p >= 0 each side is the floor of side*p/100 |
| `ImageResize.CustomStep` | image_attributes/image_resize.py:126 | With a parsed (a, b) the result is a resample of the previous image to exactly (a, b) with NEAREST. It does not depend on that image's size. With none, the image passes through |
| `ImageResize.HandleResize` | image_attributes/image_resize.py:123-126 | With no parameter the upload is returned. With a percentage only, the result is the upload resampled with the `resize_in_percentages` request. With a budget only, it is the `resize_under_kb` loop run on the upload from its own size and KB. With a percentage and a budget that needs no pass (already within budget, or max(w,h) - STEP <= MIN_SIZE), it is the percentage step's image. With an exact pair, the final request is exactly that pair with NEAREST |
| `ImageResize.HandleResizeCustomLast` | image_attributes/image_resize.py:124-126 | The exact-pair step at line 126 resamples the image the percentage and budget steps produced: the result's source is the handler's result without the pair, and its request is (a, b) with NEAREST |
| `ImageResize.HandleResizeStaleBudget` | image_attributes/image_resize.py:124-125 | For every upload over budget with max(w,h) - STEP > MIN_SIZE, the budget step after a percentage resize first resamples the scaled image to the longer side max(w,h) - STEP of the ORIGINAL upload, and continues the loop from there. Whenever the scaled image is shorter than that, the first pass enlarges it |
| `ImageResize.HandleResizeEnlarges` | image_attributes/image_resize.py:124-125 | As written, the budget step can enlarge an image the percentage step has just shrunk. 1000x500 at 50% becomes 500x250, and the first budget pass then asks for 968x484 |
| `ImageResize.HandleResizeRemeasured` | image_attributes/image_resize.py:124-126 | Corrected sequencing: after a percentage resize, the budget step starts from the scaled dimensions and a fresh measurement. Without one, it starts from the upload's own size and KB, exactly as written. The result of the budget step is never longer than the image it is given |

## Left out

- `open_image` (lines 19-30): an HTTP fetch, not modelled.
- The Flask route around lines 124-126 is not modelled: reading the upload, the form fields, the base64/JSON envelope and the error responses. Only the dimension sequencing at lines 124-126 is modelled.
- Parsing of form values is not modelled: `float(percentage)`, `float(desired_size)`, and the split of `custom_wh` with `int()` on each string. `HandleResize` takes the percentage and budget as reals and the exact pair as integers. A malformed value, or a `custom_wh` with fewer than two parts, raises in the source; neither is modelled.
- Pixel resampling and JPEG encoding are external library code. Resampling is recorded as a request. The encoded byte count (the save-and-`stat` of lines 78-79) is the `measure` oracle.
- Resize: the resampling primitive's own checks on the requested size are not modelled. Its refusal of a zero or negative side is one such check. The model assumes it returns an image of exactly the requested size.
- Resize: fixed-size mode takes a natural-number target. A negative integer target is not modelled; its only caller passes a value above MIN_SIZE.
- Resize: Python dispatches on `isinstance(x, int)`. Here the two modes are the constructors of `Target`.
- IEEE-double rounding in `float(w) * (t / float(h))`, `w * percentage / 100` and `bytes / 1024` is not modelled. The model computes these exactly, over integers and reals.
- HandleResizeRemeasured: requires a non-negative percentage, so that the scaled dimensions are sizes. The as-written `HandleResize` has no such requirement.
- `image_attributes/image_retouching.py` is not part of this model: floating-point pixel math and OpenCV calls.

## Findings

| source | as written | input that shows it | evidently intended | confidence | as-written member | corrected member |
|---|---|---|---|---|---|---|
| image_attributes/image_resize.py:124-125 | After the percentage resize, `resize_under_kb` gets the upload's original `size` and `size_kb`. Its first pass asks for max(original) - STEP, computed from the original aspect. | A 100 KB 1000x500 upload, percentage 50, desired_size 10 KB, and an encoder that then measures 0 KB. Step 124 gives 500x250, and step 125 resizes that to 968x484. | The budget step starts from the dimensions and measured size of the image it is given, and only shrinks it | not executed; high | `ImageResize.HandleResizeEnlarges` | `ImageResize.HandleResizeRemeasured` |
