# Normalized cross-correlation of a grayscale image with a template

A Dafny model of `correlation.py`, a template matcher. `correlation2D(image, template)`
produces a response map of the image's shape. It pads the image with zeros by the
rule of `pad`, so that a window of the template's shape exists at every original
pixel `(i, j)`. It standardizes each such window and the template: subtract the
mean, divide by the L2 norm. The score at `(i, j)` is the sum of the elementwise
products of the two standardized arrays. `rescale` then stretches the response map
to `[0, 1]` before it is written out as an image.

The model is organized in five modules:

- `Matrices` (`matrix.dfy`): a 2D array with an explicit shape. It also holds
  `Option`, whose `None` is an array numpy fills with NaN, and `Score`, one float
  of a response map (a number or NaN).
- `Reals` (`reals.dfy`): the real-number algebra the proofs need. A product of two
  variables is written `Mul(a, b)`, so that the solver treats it as one term. Each
  algebraic step is a small lemma here.
- `Padder` (`padder.dfy`): `pad`, evaluated the way Python computes it, with float
  `%`, `np.ceil`, `np.floor` and `int()`. It also holds zero padding and numpy's
  clipping slices.
- `Normalizer` (`normalizer.dfy`): sums, `standardize` and `rescale`, as pure
  functions over `real`.
- `Correlation` (`correlation.dfy`): the guard, the per-window score, the response
  map as a value, and `Correlation2D`. `Correlation2D` is a method that allocates
  a fresh `array2` of zeros and fills it in nested loops, as the source does.

The arithmetic is exact real arithmetic, an idealisation of float64. A division
0 / 0 is kept as NaN:
- `Standardize` returns `None` exactly for a constant array. Its norm after
  centering is zero.
- `Ncc` returns `NaN` exactly when the window or the template is constant.
- `Rescale` returns `None` when some score is NaN, or when the finite scores are
  all equal.

The square root inside `np.linalg.norm` is a parameter `sqrt`. It is required to
return a non-negative number whose square is its argument (`IsSquareRoot`).

Behaviour of the code that the model keeps as written:

- **Size guard (line 33).** The guard compares the shape tuples lexicographically,
  not axis by axis (`ShapeGreater`). It admits some templates at least as wide as
  the image or exactly as tall as it; `GuardIsLexicographic` characterizes exactly
  which templates it admits beyond the per-axis comparison.
- **Padding parity (lines 24-28).** `pad` tests the float `p % 2`, so `pad(4)` is
  `(2, 1)` and `pad(3)` is `(1, 1)` (`PadCases`).
- **Degenerate arrays (lines 11 and 18).** A constant array gives NaN, not a
  fallback value.
- **Constant template or window.** A constant template, such as an all-white one,
  gives NaN everywhere, and so does the rescaled map (`ConstantTemplateAllNaN`).
  Any single constant window, such as a patch of uniform background, also makes the
  whole rescaled map NaN, because `np.min` and `np.max` are then NaN (`Rescale`).

## Model

| member | source | states |
|---|---|---|
| Padder.PadCases | correlation.py:24-28 | for `n >= 1`, `pad(n)` is `((n-1)/2, (n-1)/2)` for odd `n` (also when `(n-1)/2` is odd and the ceil/floor branch runs) and `(n/2, n/2 - 1)` for even `n` |
| Padder.PadSum | correlation.py:24-28 | for `n >= 1` the two widths are non-negative, add up to `n - 1` and differ by 0 or 1, the leading one being larger |
| Padder.PadEmpty | correlation.py:24-28 | `pad(0)` returns `(0, -1)`: a negative trailing width |
| Padder.PadAccepted | correlation.py:40-42 | the widths `pad(n)` returns are both non-negative, which `np.pad` requires, exactly when `n >= 1` |
| Padder.ZeroPad | correlation.py:42 | the padded image is a rectangle grown by the leading and trailing widths along each axis |
| Padder.ZeroPadAt | correlation.py:42 | a padded cell is the image cell shifted by the leading widths when that index is inside the image, and 0 otherwise |
| Padder.PaddedShape | correlation.py:40-42 | padded by `pad(th)` and `pad(tw)`, the image is `(h + th - 1) × (w + tw - 1)` |
| Padder.Slice | correlation.py:47 | `m[top:bottom, left:right]` clips each bound to the shape; its shape is the clipped extent and its cells are the shifted cells of `m` |
| Padder.WindowShape | correlation.py:44-48 | at every original pixel the window lies inside the padded image, has exactly the template's shape (line 48 never fails), and its cell `(u, v)` is image pixel `(i + u - before_h, j + v - before_w)` or a border 0 |
| Matrices.ToReal | correlation.py:10 | the upcast to float keeps the shape and every value |
| Matrices.ToRealConstant | correlation.py:10 | the upcast keeps a constant array constant and a varying one varying |
| Normalizer.SumAffine | correlation.py:10 | the sum of `a * x + b` over an array is `a` times its sum plus `b` times its size |
| Normalizer.DotScaled | correlation.py:11 | scaling the two factors by `a` and `b` scales the sum of products by `a * b` |
| Normalizer.Squares | correlation.py:11 | the sum of squares is non-negative, and zero exactly for an all-zero array |
| Normalizer.DotBound | correlation.py:50 | twice the sum of products is bounded in absolute value by the sum of the two sums of squares |
| Normalizer.Center | correlation.py:10 | `arr - np.mean(arr)` moves every element by minus the mean, and the result sums to zero |
| Normalizer.Norm | correlation.py:11 | `np.linalg.norm` is non-negative, its square is the sum of squares, and it is zero exactly for an all-zero array |
| Normalizer.Divide | correlation.py:11 | `arr / k` scales every element by `1 / k` |
| Normalizer.CenteredZero | correlation.py:10 | centering leaves only zeros exactly when the array is constant |
| Normalizer.Standardize | correlation.py:7-12 | NaN everywhere exactly for a constant array; otherwise the result has the input's shape, sums to zero and has a sum of squares of one |
| Normalizer.StandardizeAffine | correlation.py:7-12 | standardizing `a * arr + b` with `a > 0` gives the same result as standardizing `arr` |
| Normalizer.Min | correlation.py:18 | `arr.min()` is at most every element and equals one of them |
| Normalizer.Max | correlation.py:18 | `arr.max()` is at least every element and equals one of them |
| Normalizer.MinMaxConstant | correlation.py:18 | the minimum equals the maximum exactly for a constant array, where `rescale` divides 0 by 0 |
| Normalizer.SpreadUnit | correlation.py:18 | spread between its extremes, every element lies in `[0, 1]`; it is 0 exactly at the minimum and 1 exactly at the maximum |
| Normalizer.SpreadOrder | correlation.py:18 | the spread keeps the order between any two elements, in both directions |
| Normalizer.SpreadRange | correlation.py:18 | the spread array has minimum exactly 0 and maximum exactly 1 |
| Normalizer.RescaleValues | correlation.py:15-18 | NaN everywhere exactly for a constant array; otherwise the shape is kept, every element is in `[0, 1]`, 0 exactly at the minimum, 1 exactly at the maximum, the order is kept both ways, and the result's minimum is 0 and maximum is 1 |
| Normalizer.Rescale | correlation.py:15-18 | on a response map, NaN everywhere exactly when some score is NaN or the scores are all equal; otherwise the finite case above, with minimum 0 and maximum 1 |
| Correlation.GuardIsLexicographic | correlation.py:33 | the tuple comparison admits every template smaller on both axes; beyond those it admits exactly the templates that are shorter but at least as wide, or as tall and narrower; it never admits a taller template |
| Correlation.Ncc | correlation.py:49-50 | the score of a window is NaN exactly when the window or the template is constant; otherwise it lies in `[-1, 1]` |
| Correlation.NccSelf | correlation.py:49-50 | a non-constant window equal to the template scores exactly 1 |
| Correlation.NccInvariant | correlation.py:49-50 | a window equal to the template times a positive factor plus an offset also scores exactly 1 |
| Correlation.Patch | correlation.py:46-47 | the window cut at an original pixel has the template's shape |
| Correlation.CropWindow | correlation.py:40-47 | when the template is the image's crop at `(y, x)`, the window at `(y + before_h, x + before_w)` is that crop, and that pixel is inside the image |
| Correlation.SelfMatchAtCrop | correlation.py:31-52 | a non-constant template cropped from the image at `(y, x)` scores 1, the largest possible score, at `(y + before_h, x + before_w)` |
| Correlation.Response | correlation.py:38-50 | the response map has the image's shape, and its cell `(i, j)` is the score of the window at `(i, j)` |
| Correlation.ResponseBounds | correlation.py:44-50 | every response is NaN exactly when its window or the template is constant, and otherwise lies in `[-1, 1]` |
| Correlation.ConstantTemplateAllNaN | correlation.py:37-50 | with a constant template every response is NaN, and rescaling the map yields NaN everywhere |
| Correlation.ScoreWindow | correlation.py:46-50 | the loop body computes the score of the window at `(i, j)` |
| Correlation.FillRow | correlation.py:45-50 | the inner loop sets every cell of row `i` to its score and leaves every other row as it was |
| Correlation.Correlation2D | correlation.py:31-52 | fails with `TemplateBiggerThanImage` exactly when the guard fails. Otherwise it fails with `NegativePadWidth` exactly when a template axis is empty. Otherwise it returns a fresh array of the image's shape whose cell `(i, j)` is the score of the window at `(i, j)`. Before the loops reach a cell, the cell holds its initial 0 (outer invariant for later rows, inner invariant for the rest of the current row) |

## Left out

- `parse_args` and `main` (correlation.py:54-76) are not modelled. They cover argument parsing, PIL decoding and encoding, the `* 255` scaling, the `uint8` cast and the PNG file. `Rescale` models the `rescale` call of line 72.
- The model uses exact reals in place of IEEE-754 float64. It has no rounding, overflow or infinities. The only NaN it models is the one a division 0 / 0 produces in `standardize` and `rescale`.
- The square root of `np.linalg.norm` is not computed. It is a parameter, constrained only by `IsSquareRoot`.
- `Normalizer.Standardize` requires a non-empty array. numpy would return an empty array with a NaN mean and a warning. The only caller that could pass an empty array is line 37, with an empty template. That call then raises at line 42 anyway.
- `Correlation.Correlation2D` checks the padding widths before it standardizes the template. The source standardizes at line 37 and pads at line 42. No result is returned on that path, so the order cannot be observed.
- `Normalizer.Rescale` and `Normalizer.RescaleValues` require a non-empty array. numpy raises on the minimum of an empty array. Only `main` calls `rescale`.
- numpy broadcasting and the internals of `np.pad` are not modelled. Only their effect on shapes and cell values is.
- The image is a matrix of unbounded integers, not of 8-bit values. No step of the core depends on the bound.
