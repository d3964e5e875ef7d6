/** The library's own unit tests, stated as lemmas about the specification
    of `New` and `At` on the tensor holding 0, 1, ..., 11 with shape
    [2, 2, 3]. The `f32` elements of the tests are written as integers. */
module TensorTests {
  import opened Tensors

  /** The twelve consecutive elements 0, 1, ..., 11. */
  function Twelve(): (r: seq<int>)
    ensures |r| == 12 && forall i :: 0 <= i < 12 ==> r[i] == i
  {
    [0, 1, 2, 3, 4, 5, 6, 7, 8, 9, 10, 11]
  }

  /** Shape [2, 2, 3] accounts for twelve elements; its offsets are
      [6, 3, 1], and data and shape are stored unchanged. */
  lemma NewTensorExample()
    ensures NewSpec(Twelve(), [2, 2, 3]) == Ok(Tensor(Twelve(), [2, 2, 3], [6, 3, 1]))
  {
    assert Strides([2, 2, 3]) == [6, 3, 1] by {
      assert [2, 2, 3][1..] == [2, 3];
      assert [2, 3][1..] == [3];
      assert [3][1..] == [];
    }
  }

  /** Shape [4, 2, 3] asks for 24 elements, so twelve are a shape error. */
  lemma NewBadTensorExample()
    ensures NewSpec(Twelve(), [4, 2, 3]) == Err(WrongShapeError)
  {
    assert [4, 2, 3][1..] == [2, 3];
    assert [2, 3][1..] == [3];
    assert [3][1..] == [];
  }

  /** The tensor the indexing tests work on. */
  lemma ExampleIsValid()
    ensures Valid(Tensor(Twelve(), [2, 2, 3], [6, 3, 1]))
  {
    NewTensorExample();
    StridesValid(Twelve(), [2, 2, 3]);
  }

  /** A full index selects one element: [1, 1, 0] is flat position
      1 * 6 + 1 * 3 + 0 * 1 = 9. */
  lemma FullIndexExample()
    ensures Valid(Tensor(Twelve(), [2, 2, 3], [6, 3, 1]))
    ensures Addressable(Tensor(Twelve(), [2, 2, 3], [6, 3, 1]), [1, 1, 0])
    ensures AtSpec(Tensor(Twelve(), [2, 2, 3], [6, 3, 1]), [1, 1, 0]) == Ok(Tensor([9], [1], [1]))
  {
    var t := Tensor(Twelve(), [2, 2, 3], [6, 3, 1]);
    ExampleIsValid();
    AtFullIndexIsElement(t, [1, 1, 0]);
    assert FlatStart([1, 1, 0], t.offsets) == 9 by {
      assert [1, 1, 0][..2] == [1, 1];
      assert [1, 1][..1] == [1];
      assert [1][..0] == [];
    }
  }

  /** A partial index selects a block: [1] selects elements 6 to 11 with
      shape [2, 3]. */
  lemma PartialIndexExample()
    ensures Valid(Tensor(Twelve(), [2, 2, 3], [6, 3, 1]))
    ensures Addressable(Tensor(Twelve(), [2, 2, 3], [6, 3, 1]), [1])
    ensures AtSpec(Tensor(Twelve(), [2, 2, 3], [6, 3, 1]), [1])
      == Ok(Tensor([6, 7, 8, 9, 10, 11], [2, 3], [3, 1]))
  {
    var t := Tensor(Twelve(), [2, 2, 3], [6, 3, 1]);
    ExampleIsValid();
    assert [1][..0] == [];
    assert FlatStart([1], t.offsets) == 6;
    AtInnerNewSucceeds(t, [1]);
    var r := AtSpec(t, [1]).value;
    assert r.data == [6, 7, 8, 9, 10, 11];
    assert r.shape == [2, 2, 3][1..] == [2, 3];
    ValidOffsets(r);
    assert Strides([2, 3]) == [3, 1] by {
      assert [2, 3][1..] == [3];
      assert [3][1..] == [];
    }
  }

  /** An index with four components on a rank-3 tensor is a shape error. */
  lemma OverlongIndexExample()
    ensures Valid(Tensor(Twelve(), [2, 2, 3], [6, 3, 1]))
    ensures AtSpec(Tensor(Twelve(), [2, 2, 3], [6, 3, 1]), [2, 2, 2, 2]) == Err(WrongShapeError)
  {
    ExampleIsValid();
  }

  /** As written, `At` accepts a component that reaches its dimension's
      size: on shape [2, 3], index [0, 3] is out of range in its second
      component, yet the slice stays inside the buffer and returns the
      element at [1, 0] instead of an `OutOfBoundsError`. */
  lemma OutOfRangeComponentAliases()
    ensures Valid(Tensor([0, 1, 2, 3, 4, 5], [2, 3], [3, 1]))
    ensures !InBounds([2, 3], [0, 3])
    ensures Addressable(Tensor([0, 1, 2, 3, 4, 5], [2, 3], [3, 1]), [0, 3])
    ensures Addressable(Tensor([0, 1, 2, 3, 4, 5], [2, 3], [3, 1]), [1, 0])
    ensures AtSpec(Tensor([0, 1, 2, 3, 4, 5], [2, 3], [3, 1]), [0, 3]) == Ok(Tensor([3], [1], [1]))
    ensures AtSpec(Tensor([0, 1, 2, 3, 4, 5], [2, 3], [3, 1]), [0, 3])
      == AtSpec(Tensor([0, 1, 2, 3, 4, 5], [2, 3], [3, 1]), [1, 0])
  {
    var t := Tensor([0, 1, 2, 3, 4, 5], [2, 3], [3, 1]);
    assert Strides([2, 3]) == [3, 1] by {
      assert [2, 3][1..] == [3];
      assert [3][1..] == [];
    }
    StridesValid(t.data, t.shape);
    assert [0, 3][..1] == [0];
    assert [1, 0][..1] == [1];
    assert [0][..0] == [] && [1][..0] == [];
    assert FlatStart([0, 3], t.offsets) == 3;
    assert FlatStart([1, 0], t.offsets) == 3;
    AtFullIndexIsElement(t, [1, 0]);
    AtSpecIs(t, [0, 3], 3, 1, [1]);
    assert Strides([1]) == [1] by {
      assert [1][1..] == [];
    }
  }
}
