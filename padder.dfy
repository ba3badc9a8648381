/** The padding rule, numpy's constant zero padding and numpy's clipping slices. */
module Padder {
  import opened Matrices

  /** Pad widths for one axis, as `np.pad` takes them. */
  datatype Padding = Padding(before: int, after: int)

  // Python float operations used by `pad`, over exact reals.

  /** `np.floor` on a float: a float again. */
  function NpFloor(x: real): real {
    x.Floor as real
  }

  /** `np.ceil` on a float: a float again. */
  function NpCeil(x: real): real {
    -((-x).Floor as real)
  }

  /** Python's float `%`: the result takes the sign of the divisor. */
  function PyMod(x: real, y: real): real
    requires y != 0.0
  {
    x - y * ((x / y).Floor as real)
  }

  /** Python's `int()` on a float truncates toward zero. */
  function PyInt(x: real): int {
    if x >= 0.0 then x.Floor else -((-x).Floor)
  }

  /** `pad(temp_size)`, written the way the source computes it. */
  function Pad(tempSize: nat): Padding {
    var padding := (tempSize as real - 1.0) / 2.0;
    if PyMod(padding, 2.0) == 0.0 then
      Padding(PyInt(padding), PyInt(padding))
    else
      Padding(PyInt(NpCeil(padding)), PyInt(NpFloor(padding)))
  }

  /** What `pad` returns, by the parity of its argument. */
  lemma PadCases(n: nat)
    requires n >= 1
    ensures n % 2 == 1 ==> Pad(n) == Padding((n - 1) / 2, (n - 1) / 2)
    ensures n % 2 == 0 ==> Pad(n) == Padding(n / 2, n / 2 - 1)
  {
    var p := (n as real - 1.0) / 2.0;
    var k := n / 2;
    if n % 2 == 1 {
      assert p == k as real;
      assert p.Floor == k;
      assert (-p).Floor == -k;
    } else {
      assert p == k as real - 0.5;
      assert p.Floor == k - 1;
      assert (-p).Floor == -k;
      assert (p / 2.0).Floor as real * 2.0 != p;
    }
  }

  /** The two widths add up to one less than the template size, are never
      negative, and the leading one exceeds the trailing one by at most one. */
  lemma PadSum(n: nat)
    requires n >= 1
    ensures Pad(n).before + Pad(n).after == n - 1
    ensures Pad(n).before >= 0 && Pad(n).after >= 0
    ensures 0 <= Pad(n).before - Pad(n).after <= 1
  {
    PadCases(n);
    if n % 2 == 1 {
      assert Pad(n) == Padding((n - 1) / 2, (n - 1) / 2);
    } else {
      assert Pad(n) == Padding(n / 2, n / 2 - 1);
    }
  }

  /** An empty axis gives a negative trailing width, which `np.pad` rejects. */
  lemma PadEmpty()
    ensures Pad(0) == Padding(0, -1)
  {
    var p := -0.5;
    assert p.Floor == -1;
    assert (-p).Floor == 0;
    assert (p / 2.0).Floor == -1;
  }

  /** `np.pad` accepts the widths of `pad(n)` exactly when the axis is not empty. */
  lemma PadAccepted(n: nat)
    ensures NonNegative(Pad(n)) <==> n >= 1
  {
    if n == 0 {
      PadEmpty();
    } else {
      PadSum(n);
    }
  }

  function Zeros(n: nat): (z: seq<int>)
    ensures |z| == n && forall k :: 0 <= k < n ==> z[k] == 0
  {
    seq(n, _ => 0)
  }

  predicate NonNegative(p: Padding) {
    p.before >= 0 && p.after >= 0
  }

  /** `np.pad(image, (padH, padW))`: `padH` rows of zeros above and below,
      `padW` columns of zeros left and right. */
  function ZeroPad(image: Matrix<int>, padH: Padding, padW: Padding): (p: Matrix<int>)
    requires image.Valid() && NonNegative(padH) && NonNegative(padW)
    ensures p.Valid()
    ensures p.height == padH.before + image.height + padH.after
    ensures p.width == padW.before + image.width + padW.after
  {
    var w := padW.before + image.width + padW.after;
    var border := seq(padH.before, _ => Zeros(w));
    var trailer := seq(padH.after, _ => Zeros(w));
    var middle := seq(image.height, r requires 0 <= r < image.height =>
                        Zeros(padW.before) + image.cells[r] + Zeros(padW.after));
    var cells := border + middle + trailer;
    assert forall r :: 0 <= r < |cells| ==> |cells[r]| == w by {
      forall r | 0 <= r < |cells| ensures |cells[r]| == w {
        if r < padH.before {
          assert cells[r] == border[r];
          assert |border[r]| == w;
        } else if r < padH.before + image.height {
          var k := r - padH.before;
          assert |image.cells[k]| == image.width;
          assert cells[r] == middle[k];
          assert middle[k] == Zeros(padW.before) + image.cells[k] + Zeros(padW.after);
          assert |Zeros(padW.before)| == padW.before;
          assert |middle[k]| == w;
        } else {
          assert cells[r] == trailer[r - padH.before - image.height];
          assert |trailer[r - padH.before - image.height]| == w;
        }
      }
    }
    Matrix(padH.before + image.height + padH.after, w, cells)
  }

  /** Each padded cell is the image cell it covers, shifted by the leading
      widths, or zero when it falls in the border. */
  lemma ZeroPadAt(image: Matrix<int>, padH: Padding, padW: Padding, r: int, c: int)
    requires image.Valid() && NonNegative(padH) && NonNegative(padW)
    requires ZeroPad(image, padH, padW).InRange(r, c)
    ensures ZeroPad(image, padH, padW).cells[r][c] ==
              if image.InRange(r - padH.before, c - padW.before)
              then image.cells[r - padH.before][c - padW.before]
              else 0
  {
    var w := padW.before + image.width + padW.after;
    var border := seq(padH.before, _ => Zeros(w));
    var middle := seq(image.height, r requires 0 <= r < image.height =>
                        Zeros(padW.before) + image.cells[r] + Zeros(padW.after));
    var cells := ZeroPad(image, padH, padW).cells;
    if padH.before <= r < padH.before + image.height {
      var row := image.cells[r - padH.before];
      assert cells[r] == middle[r - padH.before];
      assert cells[r] == Zeros(padW.before) + row + Zeros(padW.after);
      if c < padW.before {
        assert cells[r][c] == Zeros(padW.before)[c];
      } else if c < padW.before + image.width {
        assert cells[r][c] == row[c - padW.before];
      } else {
        assert cells[r][c] == Zeros(padW.after)[c - padW.before - image.width];
      }
    } else if r < padH.before {
      assert cells[r] == border[r];
    } else {
      assert cells[r] == Zeros(w);
    }
  }

  /** Padded with the widths of `pad`, an image grows by one less than the
      template along each axis. */
  lemma PaddedShape(image: Matrix<int>, th: nat, tw: nat)
    requires image.Valid() && th >= 1 && tw >= 1
    ensures NonNegative(Pad(th)) && NonNegative(Pad(tw))
    ensures ZeroPad(image, Pad(th), Pad(tw)).height == image.height + th - 1
    ensures ZeroPad(image, Pad(th), Pad(tw)).width == image.width + tw - 1
  {
    PadSum(th);
    PadSum(tw);
  }

  function Clip(x: nat, n: nat): nat {
    if x <= n then x else n
  }

  /** `m[top:bottom, left:right]`: numpy clips each bound to the shape, so a
      slice that runs past the edge comes back smaller. */
  function Slice(m: Matrix<int>, top: nat, bottom: nat, left: nat, right: nat): (s: Matrix<int>)
    requires m.Valid() && top <= bottom && left <= right
    ensures s.Valid()
    ensures s.height == Clip(bottom, m.height) - Clip(top, m.height)
    ensures s.width == Clip(right, m.width) - Clip(left, m.width)
    ensures forall u, v :: s.InRange(u, v) ==>
              s.cells[u][v] == m.cells[Clip(top, m.height) + u][Clip(left, m.width) + v]
  {
    var t, b := Clip(top, m.height), Clip(bottom, m.height);
    var l, r := Clip(left, m.width), Clip(right, m.width);
    Matrix(b - t, r - l, seq(b - t, u requires 0 <= u < b - t => m.cells[t + u][l..r]))
  }

  /** The window the source extracts at original pixel `(i, j)`: rows
      `[i, i + th)`, columns `[j, j + tw)` of the padded image. */
  function Window(padded: Matrix<int>, i: nat, j: nat, th: nat, tw: nat): Matrix<int>
    requires padded.Valid()
  {
    Slice(padded, i, i + th, j, j + tw)
  }

  /** At every pixel of the original image the window lies wholly inside the
      padded image, so it has the template's shape, and its cell `(u, v)` is
      the image pixel `(i + u - before_h, j + v - before_w)` or a zero of the
      border. */
  lemma WindowShape(image: Matrix<int>, th: nat, tw: nat, i: nat, j: nat)
    requires image.Valid() && th >= 1 && tw >= 1
    requires i < image.height && j < image.width
    ensures NonNegative(Pad(th)) && NonNegative(Pad(tw))
    ensures var w := Window(ZeroPad(image, Pad(th), Pad(tw)), i, j, th, tw);
            w.height == th && w.width == tw &&
            forall u, v :: w.InRange(u, v) ==>
              w.cells[u][v] ==
                if image.InRange(i + u - Pad(th).before, j + v - Pad(tw).before)
                then image.cells[i + u - Pad(th).before][j + v - Pad(tw).before]
                else 0
  {
    PadSum(th);
    PadSum(tw);
    var padded := ZeroPad(image, Pad(th), Pad(tw));
    var w := Window(padded, i, j, th, tw);
    assert i + th <= padded.height && j + tw <= padded.width;
    forall u, v | w.InRange(u, v)
      ensures w.cells[u][v] ==
                if image.InRange(i + u - Pad(th).before, j + v - Pad(tw).before)
                then image.cells[i + u - Pad(th).before][j + v - Pad(tw).before]
                else 0
    {
      ZeroPadAt(image, Pad(th), Pad(tw), i + u, j + v);
    }
  }
}
