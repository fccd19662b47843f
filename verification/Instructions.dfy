/** The instruction tree an invocation is compiled to. */
module Instructions {

  /** Variables the compiler allocates; `id` stands for the address of the variable object. */
  datatype Variable =
    | InstanceVariable(id: nat, actionType: nat)
    | ReferenceVariable(id: nat, types: seq<nat>)

  datatype OperationKind =
    | Call | Start | Stop | Pause | Resume | Done
    | WaitAction | WaitDimension | GetAction | GetDimension
    | Read | Write | WriteLink | RangeRaw | Range

  /** One constructor per instruction class. `Operation` covers the operation
      classes; `id` stands for the address of the operation object. */
  datatype Instruction =
    | Root(context: Variable)
    | ParentDerivation(from: Variable, to: Variable)
    | ChildDerivation(from: Variable, to: Variable)
    | EnumDerivation(from: Variable, to: Variable)
    | Enumeration(context: Variable)
    | Failure
    | Elimination
    | Prune
    | DimensionRead(instance: Variable, reference: Variable, dimension: nat)
    | MonoReference(from: Variable, instance: Variable)
    | PolyBranch(from: Variable)
    | PolyCase(reference: Variable, to: Variable)
    | Operation(kind: OperationKind, id: nat, instance: Variable, target: nat)

  datatype Tree = Node(instr: Instruction, children: seq<Tree>)

  /** The operations of a tree in the order `getOperations` visits them;
      an operation's own children are not visited. */
  function Operations(t: Tree): seq<nat>
    decreases t, 1
  {
    if t.instr.Operation? then [t.instr.id] else OperationsOf(t.children)
  }

  function OperationsOf(ts: seq<Tree>): seq<nat>
    decreases ts, 0
  {
    if ts == [] then [] else OperationsOf(ts[..|ts| - 1]) + Operations(ts[|ts| - 1])
  }
}
