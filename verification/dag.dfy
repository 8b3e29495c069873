/**
 * The part of the SelectionDAG the MIPS selector relies on: nodes kept in an
 * arena and addressed by id, their opcodes and value types, and the shape a
 * legalized DAG has when it reaches the selector.
 */
module SelectionDAG {
  import ISD
  import Mips
  import MipsISD

  datatype Option<T> = None | Some(value: T)

  type NodeId = nat

  /** Value types (`MVT::`): an ordinary 32-bit value, the flag pseudo value, or anything else. */
  datatype ValueType = I32 | Flag | OtherVT

  /**
   * A DAG node, one constructor per node class the selector distinguishes.
   * A frame-index node and a constant node each stand for a generic opcode and
   * its "target" twin, exactly as one C++ node class covers both.
   */
  datatype Node =
    | FrameIndexNode(isTarget: bool, index: int, vt: ValueType)
    | ConstantNode(isTarget: bool, value: int, vt: ValueType)
    | ExternalSymbolNode(isTarget: bool, symbol: string, vt: ValueType)
    | GlobalAddressNode(isTarget: bool, global: string, vt: ValueType)
    | OpNode(opcode: nat, vt: ValueType, operands: seq<NodeId>)

  /** The node's numeric opcode. */
  function Opcode(n: Node): nat
  {
    match n
    case FrameIndexNode(t, _, _) => if t then ISD.TargetFrameIndex else ISD.FrameIndex
    case ConstantNode(t, _, _) => if t then ISD.TargetConstant else ISD.Constant
    case ExternalSymbolNode(t, _, _) => if t then ISD.TargetExternalSymbol else ISD.ExternalSymbol
    case GlobalAddressNode(t, _, _) => if t then ISD.TargetGlobalAddress else ISD.GlobalAddress
    case OpNode(opc, _, _) => opc
  }

  /** The node's operands; leaves have none. */
  function Operands(n: Node): seq<NodeId>
  {
    if n.OpNode? then n.operands else []
  }

  /** Opcodes that belong to the leaf node classes above. */
  predicate LeafOpcode(opc: nat)
  {
    opc in {ISD.Constant, ISD.TargetConstant, ISD.FrameIndex, ISD.TargetFrameIndex,
            ISD.ExternalSymbol, ISD.TargetExternalSymbol, ISD.GlobalAddress, ISD.TargetGlobalAddress}
  }

  /** The opcode `getTargetNode` gives a node for machine instruction `inst`. */
  function TargetOpcode(inst: nat): nat
  {
    ISD.BUILTIN_OP_END + inst
  }

  /** The range `Select` treats as already selected. */
  predicate AlreadySelected(opc: nat)
  {
    ISD.BUILTIN_OP_END <= opc < MipsISD.FIRST_NUMBER
  }

  /** Opcodes with exactly two operands. */
  predicate BinaryOpcode(opc: nat)
  {
    opc in {ISD.ADD, ISD.MULHS, ISD.MULHU, ISD.SDIV, ISD.UDIV, ISD.SREM, ISD.UREM,
            TargetOpcode(Mips.MULT), TargetOpcode(Mips.MULTu),
            TargetOpcode(Mips.DIV), TargetOpcode(Mips.DIVu)}
  }

  /** Opcodes with exactly one operand. */
  predicate UnaryOpcode(opc: nat)
  {
    opc == TargetOpcode(Mips.MFHI) || opc == TargetOpcode(Mips.MFLO)
  }

  /**
   * A node stored at `id`: it refers only to older nodes and has the arity of
   * its opcode; an i32 constant holds its sign-extended 32-bit value.
   */
  predicate WellFormedNode(n: Node, id: NodeId)
  {
    match n
    case OpNode(opc, _, ops) =>
      && !LeafOpcode(opc)
      && (forall i | 0 <= i < |ops| :: ops[i] < id)
      && (BinaryOpcode(opc) ==> |ops| == 2)
      && (UnaryOpcode(opc) ==> |ops| == 1)
    case ConstantNode(_, c, vt) => vt == I32 ==> -0x8000_0000 <= c < 0x8000_0000
    case _ => true
  }

  /** A legalized DAG: every node is well formed at its own id, so the operand edges are acyclic. */
  predicate WellFormedDAG(dag: seq<Node>)
  {
    forall id | 0 <= id < |dag| :: WellFormedNode(dag[id], id)
  }

  /** The already-selected range is exactly the set of machine nodes. */
  lemma AlreadySelectedIsMachine(opc: nat)
    ensures AlreadySelected(opc) <==>
              exists inst :: 0 <= inst < Mips.INSTRUCTION_LIST_END && opc == TargetOpcode(inst)
  {
    if AlreadySelected(opc) {
      var inst := opc - ISD.BUILTIN_OP_END;
      assert 0 <= inst < Mips.INSTRUCTION_LIST_END && opc == TargetOpcode(inst);
    }
  }

  /** Appending nodes that are well formed at their new ids keeps a DAG well formed. */
  lemma WellFormedAppend(dag: seq<Node>, ext: seq<Node>)
    requires WellFormedDAG(dag)
    requires forall k | 0 <= k < |ext| :: WellFormedNode(ext[k], |dag| + k)
    ensures WellFormedDAG(dag + ext)
  {
    forall id | 0 <= id < |dag + ext| ensures WellFormedNode((dag + ext)[id], id) {
      if id >= |dag| {
        assert (dag + ext)[id] == ext[id - |dag|];
      }
    }
  }
}
