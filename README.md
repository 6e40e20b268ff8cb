# Execution-core model of the Lotus / onnxruntime inference engine

This project models, in Dafny, four sequential pieces of the inference engine's execution core, and proves properties of them.

- **Strided tensor addressing** (`lotus/core/providers/cpu/tensor/utils.h`), in modules `Indexing` and `TensorUtils`.
  - `TensorPitches` computes the row-major pitch vector.
  - `TensorAxisCounters` is an odometer over every axis except the innermost.
  - `SliceSkips` computes the per-axis jump taken once an axis's extent is used up.
  - `SliceIterator<T>` walks a rectangular sub-region of a flat buffer, one element at a time (`operator++`, here `PostIncrement`) or one innermost run at a time (`CopyInnermostAxis`).
  - The data pointer is an integer offset into the tensor's element sequence. The counters are Dafny arrays updated in place.
  - The central theorem (`SliceOffsets`): the n-th offset the iterator returns is Σ (starts[i] + k[i])·pitch[i], where k is the n-th index tuple inside the extents in lexicographic order.
  - `StepOverRun` steps through one run element by element. `RunMatchesCopy` runs it and `CopyInnermostAxis` on two iterators that start in the same state, and proves they end in the same state and that the copy wrote exactly the elements the steps visited.
- **Unsqueeze** (`onnxruntime/core/providers/cpu/tensor/unsqueeze.cc`), module `Unsqueeze`.
  - The output shape is built by two in-place loops. The first rejects out-of-range and duplicate axes in order; the second fills the remaining positions with the input dimensions.
  - The kernel propagates the error, or copies the buffer under the new shape.
  - The kernel's registration (opset 1, output 0 aliasing input 0, every tensor type) is the constant `Unsqueeze.Registration`, described by `RegistrationAliasesOnlyInput`.
- **Identity elimination** (`onnxruntime/core/graph/identity_elimination.cc`), modules `Graph` and `IdentityElimination`.
  - The graph is a map from node index to a node record, owned by a `GraphEditor` object that changes it in place.
  - `Apply` rewires every consumer of the Identity node's output to its input, then removes the node.
- **Kernel and context bindings** (`lotus/core/framework/op_kernel.h`), module `OpKernel`.
  - `OpKernelInfo` and `OpKernel` are classes with immutable fields.
  - `OpKernelContext` maps a kernel's i-th input to frame slot `argStart + i` and its j-th output to slot `argStart + |InputDefs| + j`.
  - The execution frame is a map from slot to value.

Module `Common` holds the `Status`, `Result` and `Option` types.

Vocabulary used below:

- **Rank** of a tuple k over radices d: its row-major (Horner) number, k[0]·d[1]·…·d[R-1] + … + k[R-1].
- **Succ**: the odometer successor. Its inverse **Decode** turns a number back into a tuple.
- **Bounded**: every k[i] lies in [0, d[i]).
- **AllMax**: every k[i] equals d[i] − 1.

## Model

| member | source | states |
|---|---|---|
| Indexing.PitchIsInnerProduct | lotus/core/providers/cpu/tensor/utils.h:10-12 | pitch i is the product of all dimensions inside axis i (shape (2,3,4,5) gives (60,20,5,1)) |
| Indexing.RankIsPitchSum | lotus/core/providers/cpu/tensor/utils.h:10-17 | the row-major rank of a tuple equals Σ k[i]·pitch[i] |
| Indexing.StrideIsProduct | lotus/core/providers/cpu/tensor/utils.h:68-73 | the running `pitch` of the skip loop, the product of dims[i..], equals the stride used by the rank |
| Indexing.ProductNonZero | lotus/core/providers/cpu/tensor/utils.h:30-32 | for non-negative dimensions, the element count is non-zero exactly when every dimension is positive |
| Indexing.RankDecode | lotus/core/providers/cpu/tensor/utils.h:21-24 | every n below the element count decodes to a bounded tuple whose rank is n |
| Indexing.DecodeRank | lotus/core/providers/cpu/tensor/utils.h:21-24 | decoding the rank of a bounded tuple gives the tuple back |
| Indexing.RankInjective | lotus/core/providers/cpu/tensor/utils.h:21-24 | two bounded tuples of equal rank are equal |
| Indexing.RankBound | lotus/core/providers/cpu/tensor/utils.h:21-24 | the rank of a bounded tuple lies in [0, element count) |
| Indexing.RankLexOrder | lotus/core/providers/cpu/tensor/utils.h:21-24 | bounded tuples are lexicographically ordered exactly when their ranks are ordered (both directions) |
| Indexing.SuccRank | lotus/core/providers/cpu/tensor/utils.h:36-48 | the odometer successor of a bounded, non-maximal tuple is bounded and has rank one higher |
| Indexing.SuccAllMax | lotus/core/providers/cpu/tensor/utils.h:36-48 | the successor of the all-maximal tuple wraps to all zeros |
| Indexing.AllMaxRank | lotus/core/providers/cpu/tensor/utils.h:36-40 | a bounded tuple is all-maximal exactly when its rank is the element count minus one |
| Indexing.SuccDecode | lotus/core/providers/cpu/tensor/utils.h:105-112 | the successor of the n-th tuple is the (n+1)-th; the last tuple is the only all-maximal one, and it wraps to zeros |
| Indexing.FullSliceIsIdentity | lotus/core/providers/cpu/tensor/utils.h:78-94 | a slice from the origin spanning the whole tensor has the n-th offset equal to n |
| TensorUtils.TensorPitches | lotus/core/providers/cpu/tensor/utils.h:5-19 | one pitch per axis, the innermost pitch is 1, pitch[i] = pitch[i+1]·dims[i+1], and the result is the row-major pitch vector |
| TensorUtils.SliceSkips | lotus/core/providers/cpu/tensor/utils.h:63-76 | fails exactly when the extent count differs from the rank; otherwise skip[R-1] = dims[R-1] − extents[R-1] and skip[i] = (dims[i] − extents[i])·pitch[i] |
| TensorUtils.TensorAxisCounters.constructor | lotus/core/providers/cpu/tensor/utils.h:26-33 | R−1 zero counters, axis = R−1, and running exactly when the element count is non-zero |
| TensorUtils.TensorAxisCounters.Axis | lotus/core/providers/cpu/tensor/utils.h:51 | returns the axis the next increment goes to, which always lies between 0 and the number of counters |
| TensorUtils.TensorAxisCounters.IsRunning | lotus/core/providers/cpu/tensor/utils.h:52 | returns the running flag; while it is set, every size is at least 1 and the counters hold a valid outer tuple (the driver loop of OuterRows tests it) |
| TensorUtils.TensorAxisCounters.Increment | lotus/core/providers/cpu/tensor/utils.h:36-49 | at axis 0 it stops running and changes nothing else; otherwise it bumps exactly one counter and resets the axis, or on overflow zeroes that counter, leaves the axis on it and reports a carry; counters stay in range |
| TensorUtils.NextRow | lotus/core/providers/cpu/tensor/utils.h:35-49 | incrementing until there is no carry moves the counters to their odometer successor, and leaves them running unless they were all-maximal |
| TensorUtils.OuterRows | lotus/core/providers/cpu/tensor/utils.h:21-24 | driving the counters visits each outer tuple exactly once, in row-major order: the n-th has rank n, there are ∏ outer dims of them, and none for an empty tensor |
| TensorUtils.StartOffset | lotus/core/providers/cpu/tensor/utils.h:86-91 | the backward start loop computes the row-major rank of `starts`, i.e. Σ starts[i]·pitch[i] |
| TensorUtils.SliceIterator.constructor | lotus/core/providers/cpu/tensor/utils.h:81-94 | the iterator starts at offset Σ starts[i]·pitch[i], at the zero tuple, with inner extent extents[R-1] |
| TensorUtils.StepCarry | lotus/core/providers/cpu/tensor/utils.h:99-101 | a carry through an axis resets its counter and adds skip[axis], which is the same as moving one pitch further out |
| TensorUtils.StepNoCarry | lotus/core/providers/cpu/tensor/utils.h:99 | when the carry stops at an axis, the counters hold the odometer successor and the offset grows by that axis's pitch |
| TensorUtils.AdvanceDone | lotus/core/providers/cpu/tensor/utils.h:96-103 | when the carry loop ends, the counters hold the successor and the offset is that of the next run, or a whole tensor further on after the last run |
| TensorUtils.SliceIterator.CarryAxes | lotus/core/providers/cpu/tensor/utils.h:99-102 | the carry loop keeps the counter/offset invariant and ends at axis 0 whenever it is still carrying |
| TensorUtils.SliceIterator.CarryOuter | lotus/core/providers/cpu/tensor/utils.h:97-102 | the counters become the odometer successor of the outer tuple, and the offset moves from the end of the run to the next run's start |
| TensorUtils.SliceIterator.AdvanceOverInnerExtent | lotus/core/providers/cpu/tensor/utils.h:96-103 | after a run is used up, the outer counters advance to their successor, the offset invariant is restored, and a lap is counted after the last run |
| TensorUtils.SliceIterator.PostIncrement | lotus/core/providers/cpu/tensor/utils.h:105-112 | returns the old offset, which is the offset of starts + current tuple; the tuple advances to its lexicographic successor |
| TensorUtils.SliceIterator.StepWithinRun | lotus/core/providers/cpu/tensor/utils.h:106-107 | inside a run the offset grows by one and the tuple advances along the innermost axis |
| TensorUtils.SliceIterator.StepToNextRun | lotus/core/providers/cpu/tensor/utils.h:106-110 | the last element of a run restarts the inner counter and advances the outer tuple |
| TensorUtils.CopyRun | lotus/core/providers/cpu/tensor/utils.h:115-116 | the copy loop writes data[src..src+count] to output[out..out+count] and nothing else |
| TensorUtils.SliceIterator.CopyInnermostAxis | lotus/core/providers/cpu/tensor/utils.h:114-119 | copies the current run in order, leaves the rest of the output alone, returns the position after it, and advances to the next run |
| TensorUtils.RunLoop | lotus/core/providers/cpu/tensor/utils.h:105-112 | inner-extent calls of PostIncrement from a run start return consecutive offsets and end at the next run's start |
| TensorUtils.StepOverRun | lotus/core/providers/cpu/tensor/utils.h:105-112 | inner-extent steps from a run start return the run's consecutive offsets and land on the next run's start, with the outer counters at their successor |
| TensorUtils.RunMatchesCopy | lotus/core/providers/cpu/tensor/utils.h:105-119 | from the same state, stepping through a run and copying it in one go end with equal counters, laps, run position and offset, and the copy wrote, in order, the elements the steps visited |
| TensorUtils.SliceOffsets | lotus/core/providers/cpu/tensor/utils.h:78-112 | the full element walk returns ∏ extents offsets, and the n-th is Σ (starts[i] + k[i])·pitch[i] for the n-th tuple k in lexicographic order |
| Unsqueeze.RegistrationAliasesOnlyInput | onnxruntime/core/providers/cpu/tensor/unsqueeze.cc:10-16 | the registration is for Unsqueeze from opset 1, admits every tensor type, and lets output 0 alias input 0 and no other pair |
| Unsqueeze.AxesError | onnxruntime/core/providers/cpu/tensor/unsqueeze.cc:28-32 | every error the axis check can report is INVALID_ARGUMENT |
| Unsqueeze.AcceptableIffNoError | onnxruntime/core/providers/cpu/tensor/unsqueeze.cc:28-32 | the axis check passes exactly when every axis is in [0, output rank) and no axis repeats |
| Unsqueeze.MarkAxes | onnxruntime/core/providers/cpu/tensor/unsqueeze.cc:27-34 | reports the first out-of-range or duplicate axis in order, range check first; on success exactly the listed positions hold 1 and the others 0 |
| Unsqueeze.HolesOfMarked | onnxruntime/core/providers/cpu/tensor/unsqueeze.cc:37-43 | with acceptable axes the number of unfilled positions equals the input rank, so the fill consumes every input dimension |
| Unsqueeze.FillDims | onnxruntime/core/providers/cpu/tensor/unsqueeze.cc:36-44 | the fill loop puts the input dimensions, in order, at the unmarked positions and leaves every marked position at 1 |
| Unsqueeze.PrepareCompute | onnxruntime/core/providers/cpu/tensor/unsqueeze.cc:18-50 | fails exactly when the axis check fails, with its status; otherwise records the input and yields a shape of rank \|axes\| + input rank with 1 at every axis and the input dimensions in order elsewhere |
| Unsqueeze.Compute | onnxruntime/core/providers/cpu/tensor/unsqueeze.cc:52-59 | an error is returned unchanged with no output; otherwise the status is OK and the output holds the input's elements under the unsqueezed shape |
| Unsqueeze.UnsqueezeKeepsSize | onnxruntime/core/providers/cpu/tensor/unsqueeze.cc:37-44 | the output shape has the same element count as the input shape |
| Unsqueeze.UnsqueezedUnique | onnxruntime/core/providers/cpu/tensor/unsqueeze.cc:25-44 | the input shape and axes determine the output shape completely |
| Graph.Substitute | onnxruntime/core/graph/identity_elimination.cc:17 | a substituted def list has the same length; listed defs are replaced by their images, the others are kept |
| Graph.GraphEditor.ReplaceDefs | onnxruntime/core/graph/identity_elimination.cc:17 | only the given node changes, and it changes to its substituted form |
| Graph.GraphEditor.RemoveNode | onnxruntime/core/graph/identity_elimination.cc:22 | the node is dropped and every other node is unchanged |
| IdentityElimination.Replacement | onnxruntime/core/graph/identity_elimination.cc:10-13 | the substitution has exactly one entry: output def 0 maps to input def 0 |
| IdentityElimination.SatisfyCondition | onnxruntime/core/graph/identity_elimination.cc:30-33 | holds for every node |
| IdentityElimination.Apply | onnxruntime/core/graph/identity_elimination.cc:9-28 | returns OK; the graph becomes the eliminated graph; `modified` becomes true when the node had a consumer and is otherwise left as it was |
| IdentityElimination.EliminatedRemovesOnlyTheNode | onnxruntime/core/graph/identity_elimination.cc:22 | the Identity node is gone and every other node is still present, with or without consumers |
| IdentityElimination.EliminatedRewiresConsumers | onnxruntime/core/graph/identity_elimination.cc:15-19 | in each consumer every occurrence of the Identity's output becomes its input; other defs, the kind and the consumer set are kept |
| IdentityElimination.EliminatedLeavesNoReader | onnxruntime/core/graph/identity_elimination.cc:15-17 | unless the Identity maps a def to itself, no consumer reads the Identity's output afterwards |
| IdentityElimination.EliminatedKeepsOthers | onnxruntime/core/graph/identity_elimination.cc:13-17 | nodes that are not consumers are unchanged |
| IdentityElimination.ReplaceDefsIdempotent | onnxruntime/core/graph/identity_elimination.cc:13-17 | applying the substitution twice is the same as applying it once |
| OpKernel.OpKernelInfo.constructor | lotus/core/framework/op_kernel.h:22-27 | binds exactly the given node, allocator info and kernel def |
| OpKernel.OpKernelInfo.GetNode | lotus/core/framework/op_kernel.h:37-39 | returns the bound node |
| OpKernel.OpKernelInfo.GetAllocatorInfo | lotus/core/framework/op_kernel.h:41-43 | returns the bound allocator info |
| OpKernel.OpKernelInfo.GetKernelDef | lotus/core/framework/op_kernel.h:45-47 | returns the bound kernel def |
| OpKernel.OpKernel.constructor | lotus/core/framework/op_kernel.h:59-63 | keeps the given info for the kernel's lifetime (an immutable field) |
| OpKernel.OpKernel.GetNode | lotus/core/framework/op_kernel.h:65-67 | returns the node of the info fixed at construction |
| OpKernel.OpKernel.GetKernelDef | lotus/core/framework/op_kernel.h:69-71 | returns the kernel def of the info fixed at construction |
| OpKernel.OpKernel.Allocator | lotus/core/framework/op_kernel.h:82-84 | returns the allocator info of the info fixed at construction |
| OpKernel.OpKernel.ComputeAsync | lotus/core/framework/op_kernel.h:75-80 | always reports "not implemented" |
| OpKernel.OpKernelContext.constructor | lotus/core/framework/op_kernel.h:94 | binds the execution frame, the kernel and the argument start it is given |
| OpKernel.OpKernelContext.Unbound | lotus/core/framework/op_kernel.h:119-124 | a context whose constructor binds no argument start has argument start −1 |
| OpKernel.OpKernelContext.InputSlot | lotus/core/framework/op_kernel.h:98-101 | input i lives i slots after the argument start |
| OpKernel.OpKernelContext.OutputSlot | lotus/core/framework/op_kernel.h:104-108 | output j lives j slots after the node's last input slot |
| OpKernel.OpKernelContext.Input | lotus/core/framework/op_kernel.h:98-101 | reads the frame at the input's slot (nothing when the slot is empty) |
| OpKernel.OpKernelContext.Output | lotus/core/framework/op_kernel.h:104-108 | reads the frame at the output's slot (nothing when the slot is empty) |
| OpKernel.OpKernelContext.SetOutput | lotus/core/framework/op_kernel.h:104-108 | writing through an output slot changes only that slot, and no input of the kernel |
| OpKernel.InputsBelowOutputs | lotus/core/framework/op_kernel.h:104-108 | for 0 ≤ i < \|InputDefs\| and j ≥ 0, input slot i lies below output slot j, so the two never coincide |
| OpKernel.SlotsInjective | lotus/core/framework/op_kernel.h:98-108 | distinct argument indices give distinct input slots and distinct output slots |
| OpKernel.OutputsFollowInputs | lotus/core/framework/op_kernel.h:104-108 | output slot 0 is the slot right after the last input |
| OpKernel.OutputWriteKeepsInputs | lotus/core/framework/op_kernel.h:104-108 | storing a value at any output slot keeps every input slot's contents |

## Left out

- Rank-0 tensors: every entry point of `utils.h` requires rank ≥ 1. On an empty shape the source calls `back()` on an empty vector and resizes to −1.
- `LOTUS_ENFORCE` failures: they throw, so no object exists afterwards.
  - `SliceSkips` returns a `Failure` for a wrong extent count.
  - The `SliceIterator` constructor takes the equal-length condition on starts, extents and shape as a precondition.
- TensorUtils.SliceIterator.constructor: requires every extent to be at least 1. The source does not check this, and with a zero extent its walk does not describe a slice.
- TensorUtils.TensorAxisCounters.constructor: requires non-negative dimensions, as tensor shapes have.
- TensorUtils.SliceIterator.CopyInnermostAxis: requires the run to lie inside the element buffer and the output to lie inside the output array, which the source leaves undefined. It also requires the output array not to be the iterator's counter array. It requires a run start (innerCounter == 0): a call in the middle of a run, which the source allows and which copies innerExtent elements past the current position and leaves the inner counter stale, is not modelled.
- Unsequenced reads of the axis: `++indices_[--axis_] != tensor_.Shape()[axis_]` (utils.h:42) and `++indices_[--axis] == extents_[axis]` (utils.h:99) read the axis variable in the same expression that decrements it. The model uses the decremented axis on both sides.
- Integer widths: `int64_t`, `size_t` and `int` are unbounded integers. Pitch, skip and offset overflow is not modelled.
  - The one cast that matters is the `size_t` reading of signed axes in Unsqueeze (unsqueeze.cc:28). It is modelled explicitly: a negative axis is out of range.
- `tensor_` and `Data<T>()`: the iterator keeps the tensor's shape and element sequence. Pointers are integer offsets into that sequence.
- TensorUtils.SliceOffsets: states the slice walk's offsets directly. The identity for a full slice is the separate lemma `Indexing.FullSliceIsIdentity`.
- Unsqueeze input handling:
  - the input tensor is a parameter, so `ctx->Input<Tensor>(0)` and its `ORT_ENFORCE` non-null check are not part of this model;
  - `ctx->Output(0, shape)` is modelled as the returned output shape;
  - `CopyCpuTensor` becomes the copy of the element sequence;
  - the `axes` attribute is a parameter (attribute reading is not part of this model).
- Unsqueeze registration: the `ONNX_CPU_OPERATOR_KERNEL` registration macro is only the constant `Unsqueeze.Registration`; registering it with a kernel registry is not modelled.
- `Node::ReplaceDefs` and `GraphEditor::RemoveNode` are not part of this model.
  - `ReplaceDefs` is taken to substitute in both the input and the output def lists of the node.
  - `RemoveNode` is taken to drop the node's entry only, without cleaning edges. `Resolve` is not called (identity_elimination.cc:24-25).
- IdentityElimination.Apply: requires every consumer index to be a node of the graph (the source dereferences consumer pointers), and the node to have an input and an output def.
  - Consumers are visited as a set in an arbitrary order. The result does not depend on the order.
- `OpKernelInfo::GetAttr` / `GetAttrs`, `OpKernelContext::Logger`, `OpKernelContext::Output(int, const TensorShape&)`, `KernelRegistry` and the `REGISTER_KERNEL` macros: declared without bodies, so not part of this model.
- The `OpKernelContext` constructor body is not part of this model. It takes the argument start as a parameter. The `ExecutionFrame` typed lookups (`GetValue<T>`, `GetMutableValue<T>`) become a map lookup.
- OpKernel.OpKernel.ComputeAsync: `LOTUS_NOT_IMPLEMENTED` is modelled as a `NotImplemented` status rather than a thrown exception. The done-callback is not a parameter, so it is never invoked.
- The session interface (`session.h`) and the CUDA element-wise kernels are outside the modelled core.
