/**
 * Kernel bindings.  An OpKernelInfo gathers what a kernel is built from
 * (its graph node, where its memory comes from, its registration); an
 * OpKernel keeps that info for its lifetime; an OpKernelContext lets a
 * running kernel reach its arguments in the execution frame, where a node's
 * inputs occupy consecutive slots from `argStart` and its outputs follow
 * right after them.
 */
module OpKernel {
  import opened Common
  import opened Graph

  /** Where a kernel's memory comes from. */
  datatype AllocatorInfo = AllocatorInfo(name: string, id: int)

  /** A kernel's registration: operator, first opset version, (input, output) aliases, type constraint. */
  datatype KernelDef = KernelDef(opName: string, sinceVersion: int, aliases: seq<(int, int)>, allTensorTypes: bool)

  /** The argument start of a context whose constructor has not bound one. */
  const UnboundArgStart := -1

  class OpKernelInfo {
    const node: Node
    const allocatorInfo: AllocatorInfo
    const kernelDef: KernelDef

    constructor(node: Node, allocatorInfo: AllocatorInfo, kernelDef: KernelDef)
      ensures this.node == node && this.allocatorInfo == allocatorInfo && this.kernelDef == kernelDef
    {
      this.node := node;
      this.allocatorInfo := allocatorInfo;
      this.kernelDef := kernelDef;
    }

    function GetNode(): (r: Node)
      ensures r == node
    {
      node
    }

    function GetAllocatorInfo(): (r: AllocatorInfo)
      ensures r == allocatorInfo
    {
      allocatorInfo
    }

    function GetKernelDef(): (r: KernelDef)
      ensures r == kernelDef
    {
      kernelDef
    }
  }

  class OpKernel {
    const info: OpKernelInfo

    constructor(info: OpKernelInfo)
      ensures this.info == info
    {
      this.info := info;
    }

    function GetNode(): (r: Node)
      ensures r == info.node
    {
      info.GetNode()
    }

    function GetKernelDef(): (r: KernelDef)
      ensures r == info.kernelDef
    {
      info.GetKernelDef()
    }

    function Allocator(): (r: AllocatorInfo)
      ensures r == info.allocatorInfo
    {
      info.GetAllocatorInfo()
    }

    /** The default asynchronous entry point: not implemented, for every context. */
    function ComputeAsync<V>(context: OpKernelContext<V>): (r: Status)
      ensures r.NotImplemented?
    {
      NotImplemented("ComputeAsync")
    }
  }

  /** The values of one execution, by slot. */
  class ExecutionFrame<V> {
    var values: map<int, V>

    constructor(values: map<int, V>)
      ensures this.values == values
    {
      this.values := values;
    }

    function GetValue(slot: int): (r: Option<V>)
      reads this
      ensures r.Some? <==> slot in values
      ensures r.Some? ==> r.value == values[slot]
    {
      if slot in values then Some(values[slot]) else None
    }

    /** Stores a value through a slot handed out as mutable. */
    method SetValue(slot: int, v: V)
      modifies this
      ensures values == old(values)[slot := v]
    {
      values := values[slot := v];
    }
  }

  class OpKernelContext<V> {
    const frame: ExecutionFrame<V>
    const kernel: OpKernel
    const argStart: int

    constructor(frame: ExecutionFrame<V>, kernel: OpKernel, argStart: int)
      ensures this.frame == frame && this.kernel == kernel && this.argStart == argStart
    {
      this.frame := frame;
      this.kernel := kernel;
      this.argStart := argStart;
    }

    /** A context built without an argument start keeps the default. */
    constructor Unbound(frame: ExecutionFrame<V>, kernel: OpKernel)
      ensures this.frame == frame && this.kernel == kernel && this.argStart == UnboundArgStart
    {
      this.frame := frame;
      this.kernel := kernel;
      this.argStart := UnboundArgStart;
    }

    function InputCount(): nat
    {
      |kernel.GetNode().inputDefs|
    }

    /** The frame slot of input `index`: inputs are numbered from the argument start. */
    function InputSlot(index: int): (slot: int)
      ensures slot == argStart + index
    {
      argStart + index
    }

    /** The frame slot of output `index`: outputs are numbered after the node's inputs. */
    function OutputSlot(index: int): (slot: int)
      ensures slot == argStart + InputCount() + index
    {
      argStart + InputCount() + index
    }

    function Input(index: int): (r: Option<V>)
      reads frame
      ensures r.Some? <==> InputSlot(index) in frame.values
      ensures r.Some? ==> r.value == frame.values[InputSlot(index)]
    {
      frame.GetValue(argStart + index)
    }

    function Output(index: int): (r: Option<V>)
      reads frame
      ensures r.Some? <==> OutputSlot(index) in frame.values
      ensures r.Some? ==> r.value == frame.values[OutputSlot(index)]
    {
      frame.GetValue(argStart + InputCount() + index)
    }

    /** Writes output `index` of the kernel; no input of the kernel changes. */
    method SetOutput(index: int, v: V)
      requires index >= 0
      modifies frame
      ensures frame.values == old(frame.values)[OutputSlot(index) := v]
      ensures forall i :: 0 <= i < InputCount() ==> Input(i) == old(Input(i))
    {
      InputsBelowOutputs(this, index);
      frame.SetValue(argStart + InputCount() + index, v);
    }
  }

  // ---------------------------------------------------------------------------
  // Properties

  /** Every input slot lies strictly below every output slot, so the two never meet. */
  lemma {:induction false} InputsBelowOutputs<V>(context: OpKernelContext<V>, j: int)
    requires j >= 0
    ensures forall i :: 0 <= i < context.InputCount() ==> context.InputSlot(i) < context.OutputSlot(j)
  {
  }

  /** Distinct argument indices address distinct slots. */
  lemma {:induction false} SlotsInjective<V>(context: OpKernelContext<V>, i: int, j: int)
    requires i != j
    ensures context.InputSlot(i) != context.InputSlot(j) && context.OutputSlot(i) != context.OutputSlot(j)
  {
  }

  /** The first output slot is the one right after the last input slot. */
  lemma {:induction false} OutputsFollowInputs<V>(context: OpKernelContext<V>)
    ensures context.OutputSlot(0) == context.InputSlot(context.InputCount())
  {
  }

  /** Storing into an output slot leaves every input of the same context as it was. */
  lemma {:induction false} OutputWriteKeepsInputs<V>(context: OpKernelContext<V>, values: map<int, V>, i: int, j: int, v: V)
    requires 0 <= i < context.InputCount() && j >= 0
    ensures var written := values[context.OutputSlot(j) := v];
      (context.InputSlot(i) in written <==> context.InputSlot(i) in values) &&
      (context.InputSlot(i) in values ==> written[context.InputSlot(i)] == values[context.InputSlot(i)])
  {
  }
}
