/**
  The part of an OpenCV Mat that the EAST decoder reads: a possibly-null
  reference to an n-dimensional tensor of floats, stored as one continuous
  row-major buffer (as the network's output blobs are).
*/
module Tensors {

  datatype Mat =
    | NullMat
    | Mat(sizes: seq<nat>, data: seq<real>)

  /** The number of elements a tensor of the given sizes holds. */
  function Product(sizes: seq<nat>): nat {
    if |sizes| == 0 then 1 else Product(sizes[..|sizes| - 1]) * sizes[|sizes| - 1]
  }

  /** A non-null Mat whose buffer holds exactly its elements. */
  predicate Valid(m: Mat) {
    m.Mat? && |m.data| == Product(m.sizes)
  }

  /** A non-null Mat with four dimensions (Dims == 4). */
  predicate Is4D(m: Mat) {
    m.Mat? && |m.sizes| == 4
  }

  /** Position of element (i0, i1, i2, i3) in the row-major buffer. */
  function Offset(sizes: seq<nat>, i0: nat, i1: nat, i2: nat, i3: nat): nat
    requires |sizes| == 4
  {
    ((i0 * sizes[1] + i1) * sizes[2] + i2) * sizes[3] + i3
  }

  /** Mat.At<float>(i0, i1, i2, i3): the element at that buffer position. An
      index past a dimension's size is not checked, so it reads another element
      of the buffer, or memory after it; that memory is 0.0 here. */
  function At(m: Mat, i0: nat, i1: nat, i2: nat, i3: nat): real
    requires Is4D(m)
  {
    var k := Offset(m.sizes, i0, i1, i2, i3);
    if k < |m.data| then m.data[k] else 0.0
  }

  /** Enumerable.Range(0, n).Select(col => m.At<float>(0, channel, y, col)):
      the first n elements read along row y of one channel. */
  function RowSlice(m: Mat, channel: nat, y: nat, n: nat): (s: seq<real>)
    requires Is4D(m)
    ensures |s| == n
    ensures forall col :: 0 <= col < n && col < m.sizes[3] ==> s[col] == At(m, 0, channel, y, col)
  {
    seq(n, col requires 0 <= col < n => At(m, 0, channel, y, col))
  }

  lemma MulMonotone(a: nat, b: nat, k: nat)
    requires a <= b
    ensures a * k <= b * k
  {
  }

  /** One more row-major step: a < bound and i < size give a * size + i < bound * size. */
  lemma {:induction false} StepInBound(a: nat, bound: nat, i: nat, size: nat)
    requires a < bound && i < size
    ensures a * size + i < bound * size
  {
    MulMonotone(a, bound - 1, size);
    assert (bound - 1) * size == bound * size - size;
  }

  /** Indices within the sizes of a valid four-dimensional Mat address its own
      buffer, so At reads the element itself. */
  lemma {:induction false} OffsetInBuffer(m: Mat, i0: nat, i1: nat, i2: nat, i3: nat)
    requires Valid(m) && Is4D(m)
    requires i0 < m.sizes[0] && i1 < m.sizes[1] && i2 < m.sizes[2] && i3 < m.sizes[3]
    ensures Offset(m.sizes, i0, i1, i2, i3) < |m.data|
    ensures At(m, i0, i1, i2, i3) == m.data[Offset(m.sizes, i0, i1, i2, i3)]
  {
    var s := m.sizes;
    assert s[..0] == [] && s[..1][..0] == s[..0];
    assert s[..2][..1] == s[..1] && s[..3][..2] == s[..2] && s[..4] == s;
    assert Product(s[..1]) == s[0];
    StepInBound(i0, s[0], i1, s[1]);
    StepInBound(i0 * s[1] + i1, Product(s[..2]), i2, s[2]);
    StepInBound((i0 * s[1] + i1) * s[2] + i2, Product(s[..3]), i3, s[3]);
  }

  /** Reading column `col` >= width of row y reads column col - width of row y + 1:
      a row slice longer than the width runs on into the next row. */
  lemma {:induction false} RowSliceRunsIntoNextRow(m: Mat, channel: nat, y: nat, col: nat)
    requires Is4D(m) && m.sizes[3] <= col
    ensures At(m, 0, channel, y, col) == At(m, 0, channel, y + 1, col - m.sizes[3])
  {
    var s := m.sizes;
    assert (channel * s[2] + (y + 1)) * s[3] == (channel * s[2] + y) * s[3] + s[3];
  }
}
