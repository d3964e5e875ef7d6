/** A dense tensor in row-major layout: a flat element buffer, the size of
    each dimension (the shape) and the stride of each dimension (the offsets).
    A tensor is built only by `New` or `Zeros` and never changes afterwards;
    `At` fixes a prefix of the indices and returns the selected block as a
    new tensor.

    Elements are never computed with, so their type is a parameter. Sizes,
    strides and indices are unbounded naturals. */
module Tensors {

  /** The error kinds of the tensor library. `OutOfBoundsError` is declared
      by the library but none of `New`, `Zeros` or `At` returns it. */
  datatype TensorError = WrongShapeError | OutOfBoundsError

  datatype Result<T> = Ok(value: T) | Err(error: TensorError)

  /** `data` holds the elements with the last dimension varying fastest,
      `shape` the size of each dimension and `offsets` the number of flat
      positions one step along each dimension skips. */
  datatype Tensor<T> = Tensor(data: seq<T>, shape: seq<nat>, offsets: seq<nat>)

  // ---------------------------------------------------------------------
  // Specification functions

  /** The product of all dimension sizes; the empty product is 1. */
  function Product(s: seq<nat>): (r: nat)
  {
    if |s| == 0 then 1 else s[0] * Product(s[1..])
  }

  /** Row-major strides: a step along the first dimension skips one whole
      block of the dimensions to its right, and the remaining dimensions
      have the strides of the remaining shape. */
  ghost function Strides(shape: seq<nat>): (r: seq<nat>)
  {
    if |shape| == 0 then [] else [Product(shape[1..])] + Strides(shape[1..])
  }

  /** The invariant every tensor that `New` returns keeps: the shape
      accounts for every element, and there is one offset per dimension,
      the product of the sizes of the dimensions after it. The shape is
      never empty, because `New` cannot produce a rank-0 tensor. */
  ghost predicate Valid<T>(t: Tensor<T>)
  {
    && |t.shape| > 0
    && |t.data| == Product(t.shape)
    && |t.offsets| == |t.shape|
    && forall i :: 0 <= i < |t.offsets| ==> t.offsets[i] == Product(t.shape[i + 1..])
  }

  /** What `New` returns. A rank-0 shape with one element would make `New`
      slice an empty shape, so callers must not ask for it. */
  ghost function NewSpec<T>(data: seq<T>, shape: seq<nat>): (r: Result<Tensor<T>>)
    requires |shape| == 0 ==> |data| != 1
  {
    if Product(shape) != |data| then Err(WrongShapeError)
    else Ok(Tensor(data, shape, Strides(shape)))
  }

  /** Flat position where the block selected by the index prefix `idx`
      begins: the sum of idx[i] * offsets[i], accumulated from the front. */
  ghost function FlatStart(idx: seq<nat>, offsets: seq<nat>): (r: nat)
    requires |idx| <= |offsets|
    decreases |idx|
  {
    if |idx| == 0 then 0
    else FlatStart(idx[..|idx| - 1], offsets) + idx[|idx| - 1] * offsets[|idx| - 1]
  }

  /** Shape of the block that fixing the first k dimensions leaves: the
      remaining dimensions, or the single dimension [1] when none remain. */
  ghost function BlockShape(shape: seq<nat>, k: nat): (r: seq<nat>)
    requires k <= |shape|
  {
    if k == |shape| then [1] else shape[k..]
  }

  /** The block that `idx` selects lies inside the buffer, so `At` can slice
      it. This is exactly the condition under which the slice does not fail. */
  ghost predicate Addressable<T>(t: Tensor<T>, idx: seq<nat>)
    requires Valid(t) && |idx| <= |t.shape|
  {
    0 < |idx| && FlatStart(idx, t.offsets) + t.offsets[|idx| - 1] <= |t.data|
  }

  /** Every component of `idx` is below the size of its dimension. */
  ghost predicate InBounds(shape: seq<nat>, idx: seq<nat>)
  {
    |idx| <= |shape| && forall i :: 0 <= i < |idx| ==> idx[i] < shape[i]
  }

  /** What `At` returns: an over-long index is a shape error; otherwise the
      selected block is sliced out and rebuilt through `New`. */
  ghost function AtSpec<T>(t: Tensor<T>, idx: seq<nat>): (r: Result<Tensor<T>>)
    requires Valid(t)
    requires |idx| <= |t.shape| ==> Addressable(t, idx)
  {
    if |idx| > |t.shape| then Err(WrongShapeError)
    else
      var start := FlatStart(idx, t.offsets);
      NewSpec(t.data[start..start + t.offsets[|idx| - 1]], BlockShape(t.shape, |idx|))
  }

  /** Reverses a sequence (the offsets vector's in-place `reverse`). */
  function Reverse(s: seq<nat>): (r: seq<nat>)
  {
    seq(|s|, i requires 0 <= i < |s| => s[|s| - 1 - i])
  }

  // ---------------------------------------------------------------------
  // Lemmas about the specification

  /** The stride of dimension i is the product of the sizes of all
      dimensions after i. */
  lemma {:induction false} StridesAt(shape: seq<nat>)
    ensures |Strides(shape)| == |shape|
    ensures forall i :: 0 <= i < |shape| ==> Strides(shape)[i] == Product(shape[i + 1..])
  {
    if |shape| > 0 {
      StridesAt(shape[1..]);
      forall i | 0 < i < |shape|
        ensures Strides(shape)[i] == Product(shape[i + 1..])
      {
        assert shape[1..][i..] == shape[i + 1..];
      }
    }
  }

  lemma {:induction false} ProductConcat(a: seq<nat>, b: seq<nat>)
    ensures Product(a + b) == Product(a) * Product(b)
  {
    if |a| == 0 {
      assert a + b == b;
    } else {
      assert (a + b)[1..] == a[1..] + b;
      ProductConcat(a[1..], b);
      assert Product(a + b) == a[0] * (Product(a[1..]) * Product(b));
    }
  }

  /** A suffix product splits off its first dimension. */
  lemma ProductSuffix(s: seq<nat>, j: nat)
    requires j < |s|
    ensures Product(s[j..]) == s[j] * Product(s[j + 1..])
  {
    assert s[j..][1..] == s[j + 1..];
  }

  /** The strides have one entry per dimension, the last one is 1, and the
      first one times the first dimension is the element count. */
  lemma StridesShape(shape: seq<nat>)
    requires |shape| > 0
    ensures |Strides(shape)| == |shape|
    ensures Strides(shape)[|shape| - 1] == 1
    ensures shape[0] * Strides(shape)[0] == Product(shape)
  {
    var n := |shape|;
    assert |Strides(shape)| == n && Strides(shape)[n - 1] == 1 && Strides(shape)[0] == Product(shape[1..]) by {
      StridesAt(shape);
      assert shape[n..] == [];
    }
    ProductSuffix(shape, 0);
    assert shape[0..] == shape;
  }

  /** Each stride is the size of the next dimension times the next stride:
      the accumulation the stride loop of `New` performs. */
  lemma StridesStep(shape: seq<nat>, i: nat)
    requires i + 1 < |shape|
    ensures |Strides(shape)| == |shape|
    ensures Strides(shape)[i] == shape[i + 1] * Strides(shape)[i + 1]
  {
    StridesAt(shape);
    ProductSuffix(shape, i + 1);
  }

  /** The strides `New` stores satisfy the tensor invariant. */
  lemma StridesValid<T>(data: seq<T>, shape: seq<nat>)
    requires |shape| > 0 && |data| == Product(shape)
    ensures Valid(Tensor(data, shape, Strides(shape)))
  {
    StridesAt(shape);
  }

  /** The offsets of a valid tensor are the strides of its shape. */
  lemma ValidOffsets<T>(t: Tensor<T>)
    requires Valid(t)
    ensures t.offsets == Strides(t.shape)
  {
    StridesAt(t.shape);
  }

  /** Dropping the first k dimensions of a valid tensor leaves a valid
      tensor with the trailing offsets. */
  lemma ValidSuffix<T>(t: Tensor<T>, k: nat, data: seq<T>)
    requires Valid(t) && k < |t.shape| && |data| == Product(t.shape[k..])
    ensures Valid(Tensor(data, t.shape[k..], t.offsets[k..]))
  {
    forall i | 0 <= i < |t.shape| - k
      ensures t.offsets[k..][i] == Product(t.shape[k..][i + 1..])
    {
      assert t.shape[k..][i + 1..] == t.shape[k + i + 1..];
    }
  }

  /** The start of a concatenated index is the start of its first part plus
      the start of its second part under the remaining strides. */
  lemma {:induction false} FlatStartConcat(a: seq<nat>, b: seq<nat>, offsets: seq<nat>)
    requires |a| + |b| <= |offsets|
    ensures FlatStart(a + b, offsets) == FlatStart(a, offsets) + FlatStart(b, offsets[|a|..])
  {
    if |b| == 0 {
      assert a + b == a;
    } else {
      var b' := b[..|b| - 1];
      assert (a + b)[..|a + b| - 1] == a + b';
      FlatStartConcat(a, b', offsets);
    }
  }

  /** For in-bounds components, the selected block ends inside the tensor:
      the start plus the size of the block left below the fixed dimensions
      is at most the element count. */
  lemma {:induction false} BlockEnd<T>(t: Tensor<T>, idx: seq<nat>)
    requires Valid(t) && InBounds(t.shape, idx)
    ensures FlatStart(idx, t.offsets) + Product(t.shape[|idx|..]) <= Product(t.shape)
  {
    if |idx| == 0 {
      assert t.shape[0..] == t.shape;
    } else {
      var k := |idx| - 1;
      var pre := idx[..k];
      assert InBounds(t.shape, pre);
      BlockEnd(t, pre);
      var f := FlatStart(pre, t.offsets);
      var p := Product(t.shape[k + 1..]);
      assert Product(t.shape[k..]) == t.shape[k] * p by {
        ProductSuffix(t.shape, k);
      }
      assert FlatStart(idx, t.offsets) == f + idx[k] * p;
      StepBound(f, idx[k], t.shape[k], p, Product(t.shape));
    }
  }

  /** One more step of size p along a dimension of n steps stays inside
      the block that dimension spans. */
  lemma StepBound(f: nat, x: nat, n: nat, p: nat, total: nat)
    requires x < n && f + n * p <= total
    ensures f + x * p + p <= total
  {
    assert (x + 1) * p <= n * p by {
      MulMonotone(x + 1, n, p);
    }
  }

  lemma MulMonotone(a: nat, b: nat, c: nat)
    requires a <= b
    ensures a * c <= b * c
  {
  }

  /** Components below their dimensions make the index addressable, so the
      unchecked slice of `At` stays inside the buffer. */
  lemma InBoundsIsAddressable<T>(t: Tensor<T>, idx: seq<nat>)
    requires Valid(t) && 0 < |idx| && InBounds(t.shape, idx)
    ensures Addressable(t, idx)
  {
    BlockEnd(t, idx);
    assert t.offsets[|idx| - 1] == Product(t.shape[|idx|..]);
  }

  /** The inner `New` of `At` never fails: the block length is the product
      of the block shape, so the result is again a valid tensor holding
      exactly the selected slice. */
  lemma AtInnerNewSucceeds<T>(t: Tensor<T>, idx: seq<nat>)
    requires Valid(t) && |idx| <= |t.shape| && Addressable(t, idx)
    ensures AtSpec(t, idx).Ok?
    ensures var start := FlatStart(idx, t.offsets);
      AtSpec(t, idx).value.data == t.data[start..start + t.offsets[|idx| - 1]]
    ensures AtSpec(t, idx).value.shape == BlockShape(t.shape, |idx|)
    ensures Valid(AtSpec(t, idx).value)
  {
    var start, len := FlatStart(idx, t.offsets), t.offsets[|idx| - 1];
    var shape := BlockShape(t.shape, |idx|);
    AtSpecIs(t, idx, start, len, shape);
    var v := Tensor(t.data[start..start + len], shape, Strides(shape));
    assert AtSpec(t, idx).value == v;
  }

  /** The stride of the last fixed dimension is the element count of the
      block shape. */
  lemma BlockLength<T>(t: Tensor<T>, k: nat)
    requires Valid(t) && 0 < k <= |t.shape|
    ensures t.offsets[k - 1] == Product(BlockShape(t.shape, k))
  {
    assert t.offsets[k - 1] == Product(t.shape[k..]);
    if k == |t.shape| {
      assert t.shape[k..] == [];
      assert Product([1]) == 1 * Product([1][1..]);
    }
  }

  /** A full in-bounds index selects the single element at its flat
      position, wrapped as a tensor of shape [1]. */
  lemma AtFullIndexIsElement<T>(t: Tensor<T>, idx: seq<nat>)
    requires Valid(t) && |idx| == |t.shape| && InBounds(t.shape, idx)
    ensures Addressable(t, idx)
    ensures FlatStart(idx, t.offsets) < |t.data|
    ensures AtSpec(t, idx) == Ok(Tensor([t.data[FlatStart(idx, t.offsets)]], [1], [1]))
  {
    InBoundsIsAddressable(t, idx);
    var start := FlatStart(idx, t.offsets);
    assert t.offsets[|idx| - 1] == 1 by {
      assert t.shape[|idx|..] == [];
    }
    AtSpecIs(t, idx, start, 1, [1]);
    assert t.data[start..start + 1] == [t.data[start]];
    assert Strides([1]) == [1] by {
      assert [1][1..] == [];
    }
  }

  /** Indexing twice is indexing once: fixing the first k components of
      `idx` and then the rest of them in the resulting block selects the
      same block as fixing all of `idx` in the whole tensor. */
  lemma AtCompose<T>(t: Tensor<T>, idx: seq<nat>, k: nat)
    requires Valid(t) && 0 < k < |idx| && InBounds(t.shape, idx)
    ensures Addressable(t, idx[..k]) && Addressable(t, idx)
    ensures AtSpec(t, idx[..k]).Ok? && Valid(AtSpec(t, idx[..k]).value)
    ensures |idx| - k <= |AtSpec(t, idx[..k]).value.shape| && Addressable(AtSpec(t, idx[..k]).value, idx[k..])
    ensures AtSpec(AtSpec(t, idx[..k]).value, idx[k..]) == AtSpec(t, idx)
  {
    var s := FlatStart(idx[..k], t.offsets);
    var s' := FlatStart(idx[k..], t.offsets[k..]);
    var len := t.offsets[|idx| - 1];
    var shape := BlockShape(t.shape, |idx|);
    WholeBlock(t, idx, k, s, s', len, shape);
    var b := OuterBlock(t, idx, k, s);
    InnerBlock(t, idx, k, b, s, s', len, shape);
  }

  /** The block of the whole index starts at the start of its first k
      components plus the start of the rest under the trailing strides. */
  lemma WholeBlock<T>(t: Tensor<T>, idx: seq<nat>, k: nat,
                      s: nat, s': nat, len: nat, shape: seq<nat>)
    requires Valid(t) && 0 < k < |idx| && InBounds(t.shape, idx)
    requires s == FlatStart(idx[..k], t.offsets) && s' == FlatStart(idx[k..], t.offsets[k..])
    requires len == t.offsets[|idx| - 1] && shape == BlockShape(t.shape, |idx|)
    ensures Addressable(t, idx) && s + s' + len <= |t.data|
    ensures AtSpec(t, idx) == Ok(Tensor(t.data[s + s'..s + s' + len], shape, Strides(shape)))
  {
    InBoundsIsAddressable(t, idx);
    FlatStartConcat(idx[..k], idx[k..], t.offsets);
    assert idx[..k] + idx[k..] == idx;
    AtSpecIs(t, idx, s + s', len, shape);
  }

  /** The block the first k components select, with the trailing shape and
      offsets. */
  lemma OuterBlock<T>(t: Tensor<T>, idx: seq<nat>, k: nat, s: nat) returns (b: Tensor<T>)
    requires Valid(t) && 0 < k < |idx| && InBounds(t.shape, idx)
    requires s == FlatStart(idx[..k], t.offsets)
    ensures Addressable(t, idx[..k]) && s + t.offsets[k - 1] <= |t.data|
    ensures b == Tensor(t.data[s..s + t.offsets[k - 1]], t.shape[k..], t.offsets[k..])
    ensures AtSpec(t, idx[..k]) == Ok(b) && Valid(b)
  {
    var p := t.offsets[k - 1];
    InBoundsIsAddressable(t, idx[..k]);
    b := Tensor(t.data[s..s + p], t.shape[k..], t.offsets[k..]);
    AtSpecIs(t, idx[..k], s, p, t.shape[k..]);
    ValidSuffix(t, k, t.data[s..s + p]);
    ValidOffsets(b);
  }

  /** Indexing the block of the first k components with the rest selects
      the block of the whole index. */
  lemma InnerBlock<T>(t: Tensor<T>, idx: seq<nat>, k: nat, b: Tensor<T>,
                      s: nat, s': nat, len: nat, shape: seq<nat>)
    requires Valid(t) && 0 < k < |idx| && InBounds(t.shape, idx)
    requires s + t.offsets[k - 1] <= |t.data|
    requires b == Tensor(t.data[s..s + t.offsets[k - 1]], t.shape[k..], t.offsets[k..])
    requires Valid(b)
    requires s' == FlatStart(idx[k..], t.offsets[k..])
    requires len == t.offsets[|idx| - 1] && shape == BlockShape(t.shape, |idx|)
    requires s + s' + len <= |t.data|
    ensures |idx| - k <= |b.shape| && Addressable(b, idx[k..])
    ensures AtSpec(b, idx[k..]) == Ok(Tensor(t.data[s + s'..s + s' + len], shape, Strides(shape)))
  {
    var m := |idx| - k;
    var rest := idx[k..];
    assert Addressable(b, rest) by {
      assert InBounds(b.shape, rest);
      InBoundsIsAddressable(b, rest);
    }
    assert shape == BlockShape(b.shape, m) && len == b.offsets[m - 1] by {
      BlockShapeCompose(t.shape, k, m);
    }
    AtSpecIs(b, rest, s', len, shape);
    assert b.data[s'..s' + len] == t.data[s + s'..s + s' + len] by {
      SliceOfSlice(t.data, s, s + t.offsets[k - 1], s', s' + len);
    }
  }

  /** The block `At` returns, written out. */
  lemma AtSpecIs<T>(t: Tensor<T>, idx: seq<nat>, start: nat, len: nat, shape: seq<nat>)
    requires Valid(t) && |idx| <= |t.shape| && Addressable(t, idx)
    requires start == FlatStart(idx, t.offsets) && len == t.offsets[|idx| - 1]
    requires shape == BlockShape(t.shape, |idx|)
    ensures start + len <= |t.data|
    ensures AtSpec(t, idx) == Ok(Tensor(t.data[start..start + len], shape, Strides(shape)))
    ensures Valid(Tensor(t.data[start..start + len], shape, Strides(shape)))
  {
    var slice := t.data[start..start + len];
    assert AtSpec(t, idx) == NewSpec(slice, shape);
    BlockLength(t, |idx|);
    assert |slice| == Product(shape);
    assert NewSpec(slice, shape) == Ok(Tensor(slice, shape, Strides(shape)));
    StridesValid(slice, shape);
  }

  lemma BlockShapeCompose(shape: seq<nat>, k: nat, m: nat)
    requires k < |shape| && k + m <= |shape|
    ensures BlockShape(shape[k..], m) == BlockShape(shape, k + m)
  {
    assert shape[k..][m..] == shape[k + m..];
  }

  lemma SliceOfSlice<T>(s: seq<T>, lo: nat, hi: nat, lo': nat, hi': nat)
    requires lo <= hi <= |s| && lo' <= hi' <= hi - lo
    ensures s[lo..hi][lo'..hi'] == s[lo + lo'..lo + hi']
  {
    forall i | 0 <= i < hi' - lo'
      ensures s[lo..hi][lo'..hi'][i] == s[lo + lo'..lo + hi'][i]
    {
      assert s[lo..hi][lo'..hi'][i] == s[lo..hi][lo' + i];
    }
  }

  /** Rebuilding a valid tensor through `New` from its own data and shape
      gives the same tensor back, strides included. */
  lemma NewOfOwnParts<T>(t: Tensor<T>)
    requires Valid(t)
    ensures NewSpec(t.data, t.shape) == Ok(t)
  {
    ValidOffsets(t);
  }

  // ---------------------------------------------------------------------
  // Operations

  /** Builds a tensor after checking that the shape accounts for every
      element, computing the strides innermost first and reversing them. */
  method New<T>(data: seq<T>, shape: seq<nat>) returns (r: Result<Tensor<T>>)
    requires |shape| == 0 ==> |data| != 1
    ensures r == NewSpec(data, shape)
    ensures r.Err? <==> Product(shape) != |data|
    ensures r.Err? ==> r.error == WrongShapeError
    ensures r.Ok? ==> r.value.data == data && r.value.shape == shape && Valid(r.value)
  {
    var dimProd := Product(shape);
    if dimProd != |data| {
      return Err(WrongShapeError);
    }
    // running products shape[n-1], shape[n-2] * shape[n-1], ..., Product(shape[1..]):
    // the strides of dimensions n-2 down to 0
    var backwards: seq<nat> := [];
    var offset: nat := 1;
    var j := |shape|;
    while j > 1
      invariant 1 <= j <= |shape|
      invariant offset == Product(shape[j..])
      invariant |backwards| == |shape| - j
      invariant forall m :: 0 <= m < |backwards| ==>
        backwards[m] == Product(shape[|shape| - 1 - m..])
    {
      j := j - 1;
      ProductSuffix(shape, j);
      offset := offset * shape[j];
      backwards := backwards + [offset];
    }
    var offsets := Reverse(backwards) + [1];
    assert shape[|shape|..] == [];
    StridesAt(shape);
    assert offsets == Strides(shape);
    StridesValid(data, shape);
    r := Ok(Tensor(data, shape, offsets));
  }

  /** A tensor of the given shape whose every element is zero. */
  method Zeros(dim: seq<nat>) returns (r: Result<Tensor<real>>)
    requires |dim| > 0
    ensures r.Ok? && Valid(r.value)
    ensures r.value.shape == dim && |r.value.data| == Product(dim)
    ensures forall i :: 0 <= i < |r.value.data| ==> r.value.data[i] == 0.0
  {
    var dataSize: nat := 1;
    var i := 0;
    while i < |dim|
      invariant 0 <= i <= |dim|
      invariant dataSize == Product(dim[..i])
    {
      assert dim[..i + 1] == dim[..i] + [dim[i]];
      ProductConcat(dim[..i], [dim[i]]);
      dataSize := dataSize * dim[i];
      i := i + 1;
    }
    assert dim[..|dim|] == dim;
    var data := seq(dataSize, _ => 0.0);
    r := New(data, dim);
  }

  /** Fixes the leading |idx| indices and returns the selected block. An
      index longer than the rank is a shape error. No component is checked
      against its dimension; the caller must keep the block inside the
      buffer and pass at least one component. */
  method At<T>(t: Tensor<T>, idx: seq<nat>) returns (r: Result<Tensor<T>>)
    requires Valid(t)
    requires |idx| <= |t.shape| ==> Addressable(t, idx)
    ensures r == AtSpec(t, idx)
    ensures r.Err? <==> |idx| > |t.shape|
    ensures r.Err? ==> r.error == WrongShapeError
    ensures r.Ok? ==> Valid(r.value) && r.value.shape == BlockShape(t.shape, |idx|)
    ensures r.Ok? ==> var start := FlatStart(idx, t.offsets);
      r.value.data == t.data[start..start + t.offsets[|idx| - 1]]
  {
    if |idx| > |t.shape| {
      return Err(WrongShapeError);
    }
    var start: nat := 0;
    var i := 0;
    while i < |idx|
      invariant 0 <= i <= |idx|
      invariant start == FlatStart(idx[..i], t.offsets)
    {
      assert idx[..i + 1][..i] == idx[..i];
      start := start + idx[i] * t.offsets[i];
      i := i + 1;
    }
    assert idx[..|idx|] == idx;
    var end := start + t.offsets[|idx| - 1];
    var newShape := t.shape[|idx|..];
    if |idx| == |t.shape| {
      newShape := [1];
    }
    assert newShape == BlockShape(t.shape, |idx|);
    AtSpecIs(t, idx, start, t.offsets[|idx| - 1], newShape);
    r := New(t.data[start..end], newShape);
  }

  /** `At` with every component checked against its dimension: a component
      that reaches its dimension's size is an `OutOfBoundsError` instead of
      a slice of some other block. */
  method AtChecked<T>(t: Tensor<T>, idx: seq<nat>) returns (r: Result<Tensor<T>>)
    requires Valid(t)
    requires |idx| <= |t.shape| ==> 0 < |idx|
    ensures |idx| > |t.shape| ==> r == Err(WrongShapeError)
    ensures |idx| <= |t.shape| && !InBounds(t.shape, idx) ==> r == Err(OutOfBoundsError)
    ensures InBounds(t.shape, idx) ==> Addressable(t, idx) && r == AtSpec(t, idx)
  {
    if |idx| > |t.shape| {
      return Err(WrongShapeError);
    }
    var i := 0;
    while i < |idx|
      invariant 0 <= i <= |idx|
      invariant forall m :: 0 <= m < i ==> idx[m] < t.shape[m]
    {
      if idx[i] >= t.shape[i] {
        return Err(OutOfBoundsError);
      }
      i := i + 1;
    }
    InBoundsIsAddressable(t, idx);
    r := At(t, idx);
  }
}
