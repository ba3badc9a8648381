/** A two-dimensional numpy array, row-major, with its shape kept explicitly
    so that a `0 x w` array still has a width. */
module Matrices {

  /** `None` stands for an array numpy would fill with NaN (a division 0 / 0). */
  datatype Option<T> = None | Some(value: T)

  /** One float of a response map: a number, or the NaN of a division 0 / 0. */
  datatype Score = Finite(value: real) | NaN

  datatype Matrix<T> = Matrix(height: nat, width: nat, cells: seq<seq<T>>) {

    /** The cells form a `height x width` rectangle. */
    predicate Valid() {
      |cells| == height && forall r :: 0 <= r < height ==> |cells[r]| == width
    }

    /** Number of elements, `arr.size` in numpy. */
    function Size(): nat {
      height * width
    }

    /** Index `(r, c)` lies inside the shape. */
    predicate InRange(r: int, c: int) {
      0 <= r < height && 0 <= c < width
    }
  }

  predicate SameShape<T, U>(a: Matrix<T>, b: Matrix<U>) {
    a.Valid() && b.Valid() && a.height == b.height && a.width == b.width
  }

  /** Every element equals the first one (vacuously true for an empty array). */
  predicate IsConstant<T(==)>(m: Matrix<T>)
    requires m.Valid()
  {
    forall r, c :: 0 <= r < m.height && 0 <= c < m.width ==> m.cells[r][c] == m.cells[0][0]
  }

  /** The upcast numpy performs when a uint8 array meets a float64. */
  function ToReal(m: Matrix<int>): (f: Matrix<real>)
    requires m.Valid()
    ensures SameShape(f, m)
    ensures forall r, c :: m.InRange(r, c) ==> f.cells[r][c] == m.cells[r][c] as real
  {
    Matrix(m.height, m.width,
           seq(m.height, r requires 0 <= r < m.height =>
             seq(m.width, c requires 0 <= c < m.width => m.cells[r][c] as real)))
  }

  /** Two matrices of one shape with the same cells are the same matrix. */
  lemma Extensionality<T>(a: Matrix<T>, b: Matrix<T>)
    requires SameShape(a, b)
    requires forall r, c :: a.InRange(r, c) ==> a.cells[r][c] == b.cells[r][c]
    ensures a == b
  {
    forall r | 0 <= r < a.height ensures a.cells[r] == b.cells[r] {
      assert forall c :: 0 <= c < a.width ==> a.cells[r][c] == b.cells[r][c];
    }
  }

  /** A shape with no empty axis holds some element. */
  lemma PositiveSize<T>(m: Matrix<T>)
    requires m.height > 0 && m.width > 0
    ensures m.Size() > 0
  {
  }

  /** The cast keeps a constant array constant and a varying one varying. */
  lemma ToRealConstant(m: Matrix<int>)
    requires m.Valid()
    ensures IsConstant(ToReal(m)) <==> IsConstant(m)
  {
    var f := ToReal(m);
    if IsConstant(f) {
      forall r, c | m.InRange(r, c) ensures m.cells[r][c] == m.cells[0][0] {
        assert f.cells[r][c] == f.cells[0][0];
      }
    }
  }
}
