/** `correlation2D`: zero-normalized cross-correlation of a template slid over
    every pixel of a grayscale image. */
module Correlation {
  import opened Matrices
  import opened Reals
  import opened Padder
  import opened Normalizer

  /** The two ways `correlation2D` can fail: the assertion on the shapes, and
      `np.pad` refusing a negative width. */
  datatype CorrelationError = TemplateBiggerThanImage | NegativePadWidth

  datatype Result<T> = Ok(value: T) | Err(error: CorrelationError)

  /** `image.shape > template.shape`: Python compares the shape tuples
      lexicographically, so the widths only matter when the heights tie. */
  predicate ShapeGreater(ih: nat, iw: nat, th: nat, tw: nat) {
    ih > th || (ih == th && iw > tw)
  }

  /** The guard is weaker than a per-axis comparison: it lets through every
      template smaller along both axes, but also one at least as wide as the
      image when the image is taller, and one as tall as the image when the
      image is wider, and exactly those besides. It never lets through a
      taller template. */
  lemma GuardIsLexicographic()
    ensures ShapeGreater(10, 3, 5, 8)
    ensures ShapeGreater(4, 9, 4, 3)
    ensures forall ih: nat, iw: nat, th: nat, tw: nat :: ih > th && iw > tw ==> ShapeGreater(ih, iw, th, tw)
    ensures forall ih: nat, iw: nat, th: nat, tw: nat :: ShapeGreater(ih, iw, th, tw) ==> ih >= th
    ensures forall ih: nat, iw: nat, th: nat, tw: nat ::
              (ShapeGreater(ih, iw, th, tw) && !(ih > th && iw > tw)) <==>
              ((ih > th && iw <= tw) || (ih == th && iw > tw))
  {
  }

  /** The score of one window: the sum of the elementwise products of the
      standardized window and the standardized template, NaN when either
      is constant. A score is a cosine of two unit vectors, so it lies in
      `[-1, 1]`. */
  function Ncc(patch: Matrix<int>, template: Matrix<int>, sqrt: real -> real): (s: Score)
    requires SameShape(patch, template) && template.Size() > 0 && IsSquareRoot(sqrt)
    ensures s.NaN? <==> IsConstant(patch) || IsConstant(template)
    ensures s.Finite? ==> -1.0 <= s.value <= 1.0
  {
    ToRealConstant(patch);
    ToRealConstant(template);
    var p := Standardize(ToReal(patch), sqrt);
    var t := Standardize(ToReal(template), sqrt);
    if p.Some? && t.Some? then
      DotBound(p.value, t.value);
      Finite(Dot(p.value, t.value))
    else
      NaN
  }

  /** A window holding exactly the template scores 1, the largest score. */
  lemma NccSelf(template: Matrix<int>, sqrt: real -> real)
    requires template.Valid() && template.Size() > 0 && IsSquareRoot(sqrt)
    requires !IsConstant(template)
    ensures Ncc(template, template, sqrt) == Finite(1.0)
  {
    ToRealConstant(template);
  }

  /** The score ignores brightness and contrast: a window that is the
      template times a positive factor plus an offset also scores 1. */
  lemma NccInvariant(patch: Matrix<int>, template: Matrix<int>, a: real, b: real, sqrt: real -> real)
    requires patch.Valid() && template.Valid() && template.Size() > 0 && IsSquareRoot(sqrt)
    requires !IsConstant(template) && 0.0 < a
    requires AffineImage(ToReal(patch), ToReal(template), a, b)
    ensures SameShape(patch, template)
    ensures Ncc(patch, template, sqrt) == Finite(1.0)
  {
    ToRealConstant(template);
    ToRealConstant(patch);
    StandardizeAffine(ToReal(patch), ToReal(template), a, b, sqrt);
  }

  /** The window `correlation2D` extracts at original pixel `(i, j)`. */
  function Patch(image: Matrix<int>, template: Matrix<int>, i: nat, j: nat): (w: Matrix<int>)
    requires image.Valid() && template.Valid() && template.height >= 1 && template.width >= 1
    requires i < image.height && j < image.width
    ensures SameShape(w, template)
  {
    WindowShape(image, template.height, template.width, i, j);
    Window(ZeroPad(image, Pad(template.height), Pad(template.width)), i, j,
           template.height, template.width)
  }

  /** `result[i, j]` as the loop body computes it. */
  function NccAt(image: Matrix<int>, template: Matrix<int>, sqrt: real -> real, i: nat, j: nat): Score
    requires image.Valid() && template.Valid() && template.height >= 1 && template.width >= 1
    requires i < image.height && j < image.width && IsSquareRoot(sqrt)
  {
    PositiveSize(template);
    Ncc(Patch(image, template, i, j), template, sqrt)
  }

  /** Where the template sits in the image. */
  predicate PlacedAt(image: Matrix<int>, template: Matrix<int>, y: nat, x: nat)
    requires image.Valid() && template.Valid()
  {
    y + template.height <= image.height && x + template.width <= image.width &&
    forall u, v :: 0 <= u < template.height && 0 <= v < template.width ==>
      image.cells[y + u][x + v] == template.cells[u][v]
  }

  /** The window at `(y + before_h, x + before_w)` is the crop at `(y, x)`. */
  lemma CropWindow(image: Matrix<int>, template: Matrix<int>, y: nat, x: nat)
    requires image.Valid() && template.Valid() && template.height >= 1 && template.width >= 1
    requires PlacedAt(image, template, y, x)
    ensures y + Pad(template.height).before < image.height
    ensures x + Pad(template.width).before < image.width
    ensures Patch(image, template, y + Pad(template.height).before, x + Pad(template.width).before) == template
  {
    var th, tw := template.height, template.width;
    PadSum(th);
    PadSum(tw);
    var i, j := y + Pad(th).before, x + Pad(tw).before;
    WindowShape(image, th, tw, i, j);
    var w := Patch(image, template, i, j);
    forall u, v | w.InRange(u, v) ensures w.cells[u][v] == template.cells[u][v] {
      assert image.InRange(i + u - Pad(th).before, j + v - Pad(tw).before);
    }
    Extensionality(w, template);
  }

  /** A non-constant template cut from the image at `(y, x)` is found: the
      response is 1, the largest possible score, at `(y + before_h, x + before_w)`,
      the pixel whose window the padding lines up with the crop. */
  lemma SelfMatchAtCrop(image: Matrix<int>, template: Matrix<int>, sqrt: real -> real, y: nat, x: nat)
    requires image.Valid() && template.Valid() && template.height >= 1 && template.width >= 1
    requires IsSquareRoot(sqrt) && !IsConstant(template) && PlacedAt(image, template, y, x)
    ensures y + Pad(template.height).before < image.height
    ensures x + Pad(template.width).before < image.width
    ensures NccAt(image, template, sqrt, y + Pad(template.height).before, x + Pad(template.width).before) == Finite(1.0)
  {
    CropWindow(image, template, y, x);
    PositiveSize(template);
    NccSelf(template, sqrt);
  }

  /** The response map `correlation2D` returns, as a value. */
  function Response(image: Matrix<int>, template: Matrix<int>, sqrt: real -> real): (m: Matrix<Score>)
    requires image.Valid() && template.Valid() && template.height >= 1 && template.width >= 1
    requires IsSquareRoot(sqrt)
    ensures m.Valid() && m.height == image.height && m.width == image.width
    ensures forall i, j :: m.InRange(i, j) ==> m.cells[i][j] == NccAt(image, template, sqrt, i, j)
  {
    Matrix(image.height, image.width,
           seq(image.height, i requires 0 <= i < image.height =>
             seq(image.width, j requires 0 <= j < image.width => NccAt(image, template, sqrt, i, j))))
  }

  /** Every number in the response map lies in `[-1, 1]`, and a pixel is NaN
      exactly when its window is constant, or everywhere when the template is. */
  lemma ResponseBounds(image: Matrix<int>, template: Matrix<int>, sqrt: real -> real)
    requires image.Valid() && template.Valid() && template.height >= 1 && template.width >= 1
    requires IsSquareRoot(sqrt)
    ensures forall i, j :: 0 <= i < image.height && 0 <= j < image.width ==>
              var s := Response(image, template, sqrt).cells[i][j];
              (s.NaN? <==> IsConstant(Patch(image, template, i, j)) || IsConstant(template)) &&
              (s.Finite? ==> -1.0 <= s.value <= 1.0)
  {
    PositiveSize(template);
  }

  /** A constant template, such as an all-white one, has a zero norm after
      centering, so every response is NaN and `rescale` returns all NaN. */
  lemma ConstantTemplateAllNaN(image: Matrix<int>, template: Matrix<int>, sqrt: real -> real)
    requires image.Valid() && template.Valid() && template.height >= 1 && template.width >= 1
    requires IsSquareRoot(sqrt) && IsConstant(template)
    ensures forall i, j :: 0 <= i < image.height && 0 <= j < image.width ==>
              Response(image, template, sqrt).cells[i][j] == NaN
    ensures image.height > 0 && image.width > 0 ==> Rescale(Response(image, template, sqrt)).None?
  {
    PositiveSize(template);
    var m := Response(image, template, sqrt);
    if image.height > 0 && image.width > 0 {
      assert m.cells[0][0] == NaN;
      assert !AllFinite(m);
    }
  }

  /** `expected` holds, at every pixel of the image, the score of the window
      there. The property is used only at the pixels a proof names. */
  ghost predicate Scores(expected: Matrix<Score>, image: Matrix<int>, template: Matrix<int>, sqrt: real -> real)
    requires image.Valid() && template.Valid() && template.height >= 1 && template.width >= 1
    requires IsSquareRoot(sqrt)
  {
    expected.Valid() && expected.height == image.height && expected.width == image.width &&
    forall i, j {:trigger NccAt(image, template, sqrt, i, j)} ::
      0 <= i < image.height && 0 <= j < image.width ==>
        expected.cells[i][j] == NccAt(image, template, sqrt, i, j)
  }

  /** The response map is such a matrix. */
  lemma ResponseScores(image: Matrix<int>, template: Matrix<int>, sqrt: real -> real)
    returns (expected: Matrix<Score>)
    requires image.Valid() && template.Valid() && template.height >= 1 && template.width >= 1
    requires IsSquareRoot(sqrt)
    ensures Scores(expected, image, template, sqrt)
  {
    expected := Response(image, template, sqrt);
  }

  /** The body of the inner loop: cut the window at `(i, j)` out of the
      padded image, standardize it and sum its products with the
      standardized template. */
  method ScoreWindow(image: Matrix<int>, template: Matrix<int>, sqrt: real -> real,
                     padded: Matrix<int>, temp: Option<Matrix<real>>, i: nat, j: nat,
                     ghost expected: Matrix<Score>)
    returns (s: Score)
    requires image.Valid() && template.Valid() && template.height >= 1 && template.width >= 1
    requires i < image.height && j < image.width && IsSquareRoot(sqrt)
    requires NonNegative(Pad(template.height)) && NonNegative(Pad(template.width))
    requires padded == ZeroPad(image, Pad(template.height), Pad(template.width))
    requires template.Size() > 0 && temp == Standardize(ToReal(template), sqrt)
    requires Scores(expected, image, template, sqrt)
    ensures s == expected.cells[i][j]
  {
    var th, tw := template.height, template.width;
    var patch := Window(padded, i, j, th, tw);
    WindowShape(image, th, tw, i, j);
    // the assertion of line 48 always holds
    assert patch.height == th && patch.width == tw;
    assert patch == Patch(image, template, i, j);
    var p := Standardize(ToReal(patch), sqrt);
    s := if p.Some? && temp.Some? then Finite(Dot(p.value, temp.value)) else NaN;
    assert s == NccAt(image, template, sqrt, i, j);
  }

  /** The inner loop: fill row `i` of the result, left to right. Every other
      row keeps what it held. */
  method FillRow(result: array2<Score>, image: Matrix<int>, template: Matrix<int>, sqrt: real -> real,
                 padded: Matrix<int>, temp: Option<Matrix<real>>, i: nat, ghost expected: Matrix<Score>)
    modifies result
    requires image.Valid() && template.Valid() && template.height >= 1 && template.width >= 1
    requires i < image.height && IsSquareRoot(sqrt)
    requires result.Length0 == image.height && result.Length1 == image.width
    requires NonNegative(Pad(template.height)) && NonNegative(Pad(template.width))
    requires padded == ZeroPad(image, Pad(template.height), Pad(template.width))
    requires template.Size() > 0 && temp == Standardize(ToReal(template), sqrt)
    requires Scores(expected, image, template, sqrt)
    ensures forall b :: 0 <= b < image.width ==> result[i, b] == expected.cells[i][b]
    ensures forall a, b :: 0 <= a < image.height && a != i && 0 <= b < image.width ==>
              result[a, b] == old(result[a, b])
  {
    for j := 0 to image.width
      invariant forall b :: 0 <= b < j ==> result[i, b] == expected.cells[i][b]
      invariant forall b :: j <= b < image.width ==> result[i, b] == old(result[i, b])
      invariant forall a, b :: 0 <= a < image.height && a != i && 0 <= b < image.width ==>
                  result[a, b] == old(result[a, b])
    {
      var score := ScoreWindow(image, template, sqrt, padded, temp, i, j, expected);
      result[i, j] := score;
    }
  }

  /** `correlation2D(image, template)`. The guard of line 33 fails with
      `TemplateBiggerThanImage`; an empty template axis makes `pad` return a
      trailing width of -1, which `np.pad` refuses. Otherwise the result is a
      fresh array of the image's shape whose every cell holds the score of the
      window at that pixel; the loops keep every cell they have not reached
      at its initial 0. */
  method Correlation2D(image: Matrix<int>, template: Matrix<int>, sqrt: real -> real)
    returns (r: Result<array2<Score>>)
    requires image.Valid() && template.Valid() && IsSquareRoot(sqrt)
    ensures r.Err? <==> !ShapeGreater(image.height, image.width, template.height, template.width) ||
                        template.height == 0 || template.width == 0
    ensures r.Err? ==> r.error == if !ShapeGreater(image.height, image.width, template.height, template.width)
                                  then TemplateBiggerThanImage else NegativePadWidth
    ensures r.Ok? ==> fresh(r.value) && r.value.Length0 == image.height && r.value.Length1 == image.width
    ensures r.Ok? ==> template.height >= 1 && template.width >= 1
    ensures r.Ok? ==> forall i, j :: 0 <= i < image.height && 0 <= j < image.width ==>
                        r.value[i, j] == NccAt(image, template, sqrt, i, j)
  {
    if !ShapeGreater(image.height, image.width, template.height, template.width) {
      return Err(TemplateBiggerThanImage);
    }
    var th, tw := template.height, template.width;
    var padH, padW := Pad(th), Pad(tw);
    PadAccepted(th);
    PadAccepted(tw);
    if !NonNegative(padH) || !NonNegative(padW) {
      return Err(NegativePadWidth);
    }
    PositiveSize(template);
    PositiveSize(ToReal(template));
    var temp := Standardize(ToReal(template), sqrt);
    var padded := ZeroPad(image, padH, padW);
    var h, w := image.height, image.width;
    var result := new Score[h, w]((_, _) => Finite(0.0));
    ghost var expected := ResponseScores(image, template, sqrt);
    for i := 0 to h
      invariant forall a, b :: 0 <= a < i && 0 <= b < w ==> result[a, b] == expected.cells[a][b]
      invariant forall a, b :: i <= a < h && 0 <= b < w ==> result[a, b] == Finite(0.0)
    {
      FillRow(result, image, template, sqrt, padded, temp, i, expected);
    }
    return Ok(result);
  }
}
