/** A numpy array as the segmentation code sees it: a shape (one length per
    axis) and the cells in row-major order. */
module Tensors {

  /** Number of cells an array of the given shape holds. */
  function Product(shape: seq<nat>): nat
  {
    if shape == [] then 1 else shape[0] * Product(shape[1..])
  }

  datatype NdArray = NdArray(shape: seq<nat>, data: seq<real>)
  {
    /** The cell count agrees with the shape. */
    predicate Valid()
    {
      |data| == Product(shape)
    }

    /** A two-dimensional array (rows x columns). */
    predicate IsGrid()
    {
      |shape| == 2 && Valid()
    }
  }

  /** A 0/1 array, the result of thresholding. */
  predicate IsBinary(a: NdArray)
  {
    forall k :: 0 <= k < |a.data| ==> a.data[k] == 0.0 || a.data[k] == 1.0
  }

  lemma GridIndexInRange(i: nat, j: nat, h: nat, w: nat)
    requires i < h && j < w
    ensures i * w + j < h * w
  {
    assert (i + 1) * w <= h * w by {
      assert h * w == (i + 1) * w + (h - i - 1) * w;
    }
  }

  lemma GridProduct(shape: seq<nat>)
    requires |shape| == 2
    ensures Product(shape) == shape[0] * shape[1]
  {
    assert shape[1..][1..] == [];
    assert Product(shape[1..]) == shape[1] * Product([]);
  }

  /** Cell (i, j) of a two-dimensional array. */
  function Cell(a: NdArray, i: nat, j: nat): real
    requires a.IsGrid() && i < a.shape[0] && j < a.shape[1]
  {
    GridProduct(a.shape);
    GridIndexInRange(i, j, a.shape[0], a.shape[1]);
    a.data[i * a.shape[1] + j]
  }

  /** The shape `np.squeeze` leaves: every axis of length 1 removed, the
      others kept in order. */
  function DropOnes(shape: seq<nat>): (r: seq<nat>)
    ensures forall k :: 0 <= k < |r| ==> r[k] != 1
    ensures forall k :: 0 <= k < |r| ==> r[k] in shape
    ensures (forall k :: 0 <= k < |shape| ==> shape[k] != 1) ==> r == shape
  {
    if shape == [] then []
    else if shape[0] == 1 then DropOnes(shape[1..])
    else [shape[0]] + DropOnes(shape[1..])
  }

  /** `np.squeeze`: the cells stay where they are; only the shape changes. */
  function Squeeze(a: NdArray): (r: NdArray)
    ensures r.shape == DropOnes(a.shape) && r.data == a.data
    ensures forall k :: 0 <= k < |r.shape| ==> r.shape[k] != 1
  {
    NdArray(DropOnes(a.shape), a.data)
  }

  /** A single axis survives exactly when its length is not 1. */
  lemma DropOnesSingle(n: nat)
    ensures DropOnes([n]) == if n == 1 then [] else [n]
  {
    assert [n][1..] == [];
  }

  /** Squeezing works axis by axis: the kept axes of a shape are the kept
      axes of its front followed by those of its back, in order. Together
      with DropOnesSingle this determines the squeezed shape of every shape. */
  lemma {:induction false} DropOnesConcat(a: seq<nat>, b: seq<nat>)
    ensures DropOnes(a + b) == DropOnes(a) + DropOnes(b)
  {
    if a == [] {
      assert a + b == b;
    } else {
      assert (a + b)[0] == a[0];
      assert (a + b)[1..] == a[1..] + b;
      DropOnesConcat(a[1..], b);
      if a[0] != 1 {
        assert [a[0]] + (DropOnes(a[1..]) + DropOnes(b)) == ([a[0]] + DropOnes(a[1..])) + DropOnes(b);
      }
    }
  }

  /** Removing axes of length 1 does not change the cell count. */
  lemma {:induction false} DropOnesProduct(shape: seq<nat>)
    ensures Product(DropOnes(shape)) == Product(shape)
  {
    if shape != [] {
      DropOnesProduct(shape[1..]);
      if shape[0] != 1 {
        assert ([shape[0]] + DropOnes(shape[1..]))[1..] == DropOnes(shape[1..]);
      }
    }
  }

  /** A squeezed array is still well formed, and squeezing twice is squeezing once. */
  lemma SqueezeValid(a: NdArray)
    requires a.Valid()
    ensures Squeeze(a).Valid()
    ensures Squeeze(Squeeze(a)) == Squeeze(a)
  {
    DropOnesProduct(a.shape);
  }

  /** The segmentation model's output of shape (1, H, W, 1) squeezes to the
      shape H x W. */
  lemma DropBatchAndChannel(h: nat, w: nat)
    requires h != 1 && w != 1
    ensures DropOnes([1, h, w, 1]) == [h, w]
  {
    assert [1][1..] == [];
    assert DropOnes([1]) == [];
    assert [w, 1][1..] == [1];
    assert DropOnes([w, 1]) == [w] + DropOnes([1]);
    assert [h, w, 1][1..] == [w, 1];
    assert DropOnes([h, w, 1]) == [h] + DropOnes([w, 1]);
    assert [1, h, w, 1][1..] == [h, w, 1];
    assert DropOnes([1, h, w, 1]) == DropOnes([h, w, 1]);
  }

  /** Cell (i, j) of an H x W grid is the cell at offset i * W + j. */
  lemma CellOffset(g: NdArray, i: nat, j: nat)
    requires g.IsGrid() && i < g.shape[0] && j < g.shape[1]
    ensures i * g.shape[1] + j < |g.data| && Cell(g, i, j) == g.data[i * g.shape[1] + j]
  {
    GridProduct(g.shape);
    GridIndexInRange(i, j, g.shape[0], g.shape[1]);
  }

  /** The segmentation model's output of shape (1, H, W, 1) becomes an H x W
      grid with the same cells: cell (i, j) is the model's cell (0, i, j, 0),
      which sits at offset i * W + j of the row-major data. */
  lemma SqueezeBatchAndChannel(a: NdArray, h: nat, w: nat)
    requires a.Valid() && a.shape == [1, h, w, 1] && h != 1 && w != 1
    ensures Squeeze(a).shape == [h, w] && Squeeze(a).IsGrid()
    ensures Squeeze(a).data == a.data
  {
    DropBatchAndChannel(h, w);
    DropOnesProduct(a.shape);
  }

  /** When the height is 1 as well, `np.squeeze` drops that axis too and the
      result is no longer two-dimensional. */
  lemma SqueezeSingleRow(a: NdArray, w: nat)
    requires a.shape == [1, 1, w, 1] && w != 1
    ensures Squeeze(a).shape == [w]
  {
    assert a.shape[1..] == [1, w, 1];
    assert a.shape[1..][1..] == [w, 1];
    assert a.shape[1..][1..][1..] == [1];
    assert DropOnes([1]) == [];
    assert DropOnes([w, 1]) == [w];
    assert DropOnes([1, w, 1]) == [w];
  }
}
