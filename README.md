# crabflow tensor, modelled in Dafny

A model of the `Tensor` type of crabflow (`src/tensor.rs`): a dense
tensor stored row-major as a flat buffer `data`, a `shape` (the size of
each dimension) and `offsets` (the stride of each dimension). There
are three operations:

- `zeros(dim)` multiplies the dimensions together in a loop. It builds a
  buffer of that many zeros and hands it to `new`.
- `new(data, shape)` rejects a shape whose product differs from the
  buffer length with `WrongShapeError`. Otherwise it computes the
  strides: it walks `shape[1..]` backwards, pushes a running product,
  reverses the vector and appends a final 1.
- `at(idx)` fixes the first `|idx|` indices. An index longer than the
  rank is a `WrongShapeError`. Otherwise it adds up
  `idx[i] * offsets[i]` to find where the block starts, and adds the
  stride of the last fixed dimension to find where it ends. It slices
  `data` there and rebuilds a tensor through `new`, with the remaining
  dimensions as the shape, or `[1]` when every dimension is fixed.

Files:

- `tensor.dfy` (module `Tensors`) holds the datatypes, the
  specification functions and the lemmas about them. It also holds the
  three operations as methods with loops, each proved against its
  specification function.
- `tensor_tests.dfy` (module `TensorTests`) restates the library's unit
  tests as lemmas about the specification.

A tensor is never changed after it is built. So `Tensor<T>` is a
datatype, and `Valid` is the invariant every constructed tensor keeps:

- the shape is not empty;
- `|data| == Product(shape)`;
- there is one offset per dimension;
- `offsets[i] == Product(shape[i+1..])`.

`Strides` is a separate recursive definition of the same table. `New`
is proved to store exactly `Strides(shape)`, and the lemma `StridesAt`
connects the two definitions.

Elements are a type parameter `T`, because no operation computes with
them. `Zeros` returns `Tensor<real>` filled with `0.0`. Sizes, strides
and indices are unbounded naturals.

Where the code panics, the model has a precondition instead:

- `New` requires `|shape| == 0 ==> |data| != 1`. The product of an
  empty shape is 1, so an empty shape with one element passes the
  length check and then reaches `shape[1..]`, which panics.
- `Zeros` therefore requires a non-empty `dim`. `zeros([])` builds one
  zero and then calls `new` with an empty shape.
- When the index is not longer than the rank, `At` requires the index
  to be non-empty. `idx_arr.len() - 1` underflows otherwise.
- In the same case, `At` also requires the block to end inside the
  buffer (`Addressable`). This is exactly the condition under which
  the slice at line 71 does not panic. It is weaker than asking every
  component to be below its dimension. `InBoundsIsAddressable` proves
  that in-range components always satisfy it.

An empty shape never yields a tensor. `new` returns `WrongShapeError`
unless the buffer has exactly one element, and then it panics at
`shape[1..]`. So every valid tensor has rank at least 1.

## Model

| member | source | states |
|---|---|---|
| `Tensors.New` | src/tensor.rs:29-52 | The result is `WrongShapeError` exactly when `Product(shape) != |data|`. On success the data and shape are stored unchanged and the tensor is `Valid`. The stride loop is proved to compute `Strides(shape)`. |
| `Tensors.Zeros` | src/tensor.rs:14-27 | For a non-empty `dim`, the result is always a success. Its shape is `dim`, its length is `Product(dim)`, every element is `0.0` and the tensor is `Valid`. The multiplying loop is proved to compute the product. |
| `Tensors.At` | src/tensor.rs:54-72 | The result is `WrongShapeError` exactly when the index has more components than the tensor has dimensions. Otherwise it is a `Valid` tensor holding `data[start..start + offsets[k-1]]`, where `start` is the sum of `idx[i] * offsets[i]`. Its shape is `shape[k..]`, or `[1]` when `k` equals the rank. The accumulating loop is proved to compute `start`. |
| `Tensors.StridesAt` | src/tensor.rs:37-45 | The stride table has one entry per dimension, and entry `i` is the product of the dimensions after `i`. |
| `Tensors.StridesShape` | src/tensor.rs:37-45 | For a non-empty shape, the last stride is 1, and the first stride times the first dimension is the element count. |
| `Tensors.StridesStep` | src/tensor.rs:40-43 | Each stride is the next dimension's size times the next stride, which is the running product the reversed loop accumulates. |
| `Tensors.StridesValid` | src/tensor.rs:37-51 | Data whose length is the product of a non-empty shape, stored with `Strides(shape)`, satisfies the tensor invariant. |
| `Tensors.ProductConcat` | src/tensor.rs:15-19 | The product of two shapes joined together is the product of their products. This is why extending the running product by one dimension gives the product of the longer prefix. |
| `Tensors.NewOfOwnParts` | src/tensor.rs:47-51 | Rebuilding any valid tensor through `new` from its own data and shape gives back the same tensor, offsets included. This covers every result of `at`. |
| `Tensors.BlockEnd` | src/tensor.rs:59-65 | When every component is below its dimension, the start plus the size of the block left below the fixed dimensions is at most the element count. |
| `Tensors.InBoundsIsAddressable` | src/tensor.rs:59-71 | For a non-empty index whose components are all below their dimensions, `start + offsets[k-1] <= |data|`, so the slice of `at` stays in range. |
| `Tensors.AtInnerNewSucceeds` | src/tensor.rs:65-71 | The `new` inside `at` never fails. The block length `offsets[k-1]` is the product of the block shape, so the result holds exactly the sliced block, has the block shape, and is valid again. |
| `Tensors.AtSpecIs` | src/tensor.rs:65-71 | The result of `at` written out as one tensor value: the slice, the block shape and the strides of the block shape. |
| `Tensors.AtFullIndexIsElement` | src/tensor.rs:59-71 | A full in-range index selects a position inside the buffer. The result is the one element there, as a tensor of shape `[1]` with offsets `[1]`. |
| `Tensors.AtCompose` | src/tensor.rs:59-71 | Take an in-range index and split it into two non-empty parts. Indexing with the first part and then indexing the resulting block with the second part gives the same result as indexing with the whole index. |
| `Tensors.AtChecked` | src/tensor.rs:54-72 | Corrected `at`. An over-long index is `WrongShapeError`. An index with a component at or above its dimension size is `OutOfBoundsError`. An in-range index gives what `at` gives. Besides the invariant, the only precondition left is a non-empty index. |
| `TensorTests.NewTensorExample` | src/tensor.rs:85-100 | Twelve elements with shape `[2,2,3]` build a tensor with the data and shape unchanged and offsets `[6,3,1]`. |
| `TensorTests.NewBadTensorExample` | src/tensor.rs:102-110 | Twelve elements with shape `[4,2,3]` are a `WrongShapeError`. |
| `TensorTests.ExampleIsValid` | src/tensor.rs:118-121 | The `0..12`, `[2,2,3]` tensor the indexing tests use satisfies the invariant. |
| `TensorTests.FullIndexExample` | src/tensor.rs:117-125 | `at([1,1,0])` on that tensor is the single element `9`. |
| `TensorTests.PartialIndexExample` | src/tensor.rs:127-152 | `at([1])` on that tensor is the elements `6..11` with shape `[2,3]` and offsets `[3,1]`. |
| `TensorTests.OverlongIndexExample` | src/tensor.rs:180-187 | `at([2,2,2,2])` on the rank-3 tensor is a `WrongShapeError`. |
| `TensorTests.OutOfRangeComponentAliases` | src/tensor.rs:59-71 | As written, `at([0,3])` on the `0..6` tensor of shape `[2,3]` passes even though `3` is not below `3`. It returns the element `3`, the same result as `at([1,0])`. |

## Left out

- The two `println!` calls in `new` (src/tensor.rs:31-32) print the inputs and change no result, so they are not modelled.
- `f32` elements are modelled with a type parameter. The only element value ever created is the literal `0.0` in `zeros`, modelled as the `real` value `0.0`.
- `u32` and `usize` overflow are not modelled. This covers the dimension product in `zeros` and `new`, the running stride product, and `index_val * offsets[i]` in `at`, and means the model has no wrap-around or overflow panic. Sizes are unbounded naturals, because the source evidently means the true products.
- Panics become preconditions, as listed above. These are the empty shape reaching `shape[1..]`, the empty index in `at`, and a block that ends past the buffer.
- `Vec::reverse` and the `push` calls of the stride computation work on a sequence-valued local and a `Reverse` function, not on a mutable vector.
- Ownership and copying (`to_vec`) are not modelled separately. Datatype values in Dafny have no identity, so a tensor returned by `At` never aliases its parent.
- `#[derive(Debug)]` and the tests `it_works` and `zero_tensor` (src/tensor.rs:80-83, 113-116) check nothing about the tensor, so they have no lemma. The test `tensor_indexing_outoufbounds` (src/tensor.rs:153-179) repeats the body of `tensor_indexing_md`, apart from a TODO comment, so `PartialIndexExample` covers both.

## Findings

| source | as written | input that shows it | evidently intended | confidence | as-written member | corrected member |
|---|---|---|---|---|---|---|
| src/tensor.rs:59-71 | Index components are never compared with their dimension sizes. `OutOfBoundsError` is declared at line 10 but never returned. | `at([0,3])` on data `0..6` with shape `[2,3]`: the second component equals its dimension size, yet the result is the element `3`, which is the element at `[1,0]`. | A component at or above its dimension size is rejected with `OutOfBoundsError`. The unused error kind and the placeholder out-of-bounds test at line 155 both point this way. | medium, not executed | `TensorTests.OutOfRangeComponentAliases` | `Tensors.AtChecked` |
