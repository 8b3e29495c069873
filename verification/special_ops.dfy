/**
 * Lowering of multiply-high, divide and remainder. MIPS computes these with
 * one instruction that leaves its result in the HI/LO accumulator and yields
 * only a flag, followed by an MFHI or MFLO that reads the flag and returns the
 * wanted half as an i32.
 */
module SpecialOps {
  import opened SelectionDAG
  import opened Semantics
  import ISD
  import Mips

  /** The generic opcodes that `Select` lowers by hand. */
  predicate IsSpecial(opc: nat)
  {
    opc in {ISD.MULHS, ISD.MULHU, ISD.SDIV, ISD.UDIV, ISD.SREM, ISD.UREM}
  }

  /** The instruction that computes into the accumulator. */
  function ProducerInst(opc: nat): nat
    requires IsSpecial(opc)
  {
    if opc == ISD.MULHS || opc == ISD.MULHU then (if opc == ISD.MULHU then Mips.MULTu else Mips.MULT)
    else if opc == ISD.SDIV || opc == ISD.UDIV then (if opc == ISD.SDIV then Mips.DIV else Mips.DIVu)
    else (if opc == ISD.SREM then Mips.DIV else Mips.DIVu)
  }

  /** The instruction that moves the wanted accumulator half into a register. */
  function ConsumerInst(opc: nat): nat
    requires IsSpecial(opc)
  {
    if opc == ISD.SDIV || opc == ISD.UDIV then Mips.MFLO else Mips.MFHI
  }

  /** The two nodes a special node is lowered to. */
  datatype Lowering = Lowering(producer: Node, consumer: Node)

  /**
   * Lower node `n` of `dag`: the producer (to be stored at id |dag|) takes the
   * node's two operands, and the consumer (at |dag| + 1) reads the producer's flag.
   * Both are well formed at those ids and both fall in the already-selected range.
   */
  function Lower(dag: seq<Node>, n: NodeId): (l: Lowering)
    requires WellFormedDAG(dag) && n < |dag| && IsSpecial(Opcode(dag[n]))
    ensures WellFormedNode(l.producer, |dag|) && WellFormedNode(l.consumer, |dag| + 1)
    ensures AlreadySelected(Opcode(l.producer)) && AlreadySelected(Opcode(l.consumer))
  {
    assert WellFormedNode(dag[n], n);
    var opc := Opcode(dag[n]);
    var ops := Operands(dag[n]);
    Lowering(OpNode(TargetOpcode(ProducerInst(opc)), Flag, [ops[0], ops[1]]),
             OpNode(TargetOpcode(ConsumerInst(opc)), I32, [|dag|]))
  }

  /**
   * The lowering table: MULHS/MULHU use MULT/MULTu and read HI; SDIV/UDIV use
   * DIV/DIVu and read LO; SREM/UREM use DIV/DIVu and read HI. The producer
   * takes (operand 0, operand 1) and yields only a flag; the consumer's sole
   * operand is that flag and its result is an i32.
   */
  lemma LowerTable(dag: seq<Node>, n: NodeId)
    requires WellFormedDAG(dag) && n < |dag| && IsSpecial(Opcode(dag[n]))
    ensures var opc := Opcode(dag[n]);
            var l := Lower(dag, n);
            && l.producer == OpNode(TargetOpcode(ProducerInst(opc)), Flag, Operands(dag[n]))
            && l.consumer == OpNode(TargetOpcode(ConsumerInst(opc)), I32, [|dag|])
            && (opc == ISD.MULHS ==> ProducerInst(opc) == Mips.MULT && ConsumerInst(opc) == Mips.MFHI)
            && (opc == ISD.MULHU ==> ProducerInst(opc) == Mips.MULTu && ConsumerInst(opc) == Mips.MFHI)
            && (opc == ISD.SDIV ==> ProducerInst(opc) == Mips.DIV && ConsumerInst(opc) == Mips.MFLO)
            && (opc == ISD.UDIV ==> ProducerInst(opc) == Mips.DIVu && ConsumerInst(opc) == Mips.MFLO)
            && (opc == ISD.SREM ==> ProducerInst(opc) == Mips.DIV && ConsumerInst(opc) == Mips.MFHI)
            && (opc == ISD.UREM ==> ProducerInst(opc) == Mips.DIVu && ConsumerInst(opc) == Mips.MFHI)
  {
    assert WellFormedNode(dag[n], n);
    assert Operands(dag[n]) == [Operands(dag[n])[0], Operands(dag[n])[1]];
  }

  /** The DAG after lowering `n`: the producer and consumer appended, in that order. */
  function Lowered(dag: seq<Node>, n: NodeId): (d: seq<Node>)
    requires WellFormedDAG(dag) && n < |dag| && IsSpecial(Opcode(dag[n]))
    ensures WellFormedDAG(d) && |d| == |dag| + 2 && d[..|dag|] == dag
  {
    var l := Lower(dag, n);
    WellFormedAppend(dag, [l.producer, l.consumer]);
    dag + [l.producer, l.consumer]
  }

  /**
   * Correctness of the lowering: the consumer computes, in every environment,
   * exactly what the generic node computed.
   */
  lemma LowerPreservesValue(dag: seq<Node>, env: Env, n: NodeId)
    requires WellFormedDAG(dag) && n < |dag| && IsSpecial(Opcode(dag[n]))
    ensures Eval(Lowered(dag, n), env, |dag| + 1) == Eval(dag, env, n)
  {
    var d := Lowered(dag, n);
    var l := Lower(dag, n);
    var opc := Opcode(dag[n]);
    assert WellFormedNode(dag[n], n);
    var a, b := Operands(dag[n])[0], Operands(dag[n])[1];
    assert d == dag + [l.producer, l.consumer];
    EvalAppend(dag, [l.producer, l.consumer], env, a);
    EvalAppend(dag, [l.producer, l.consumer], env, b);
    assert d[|dag|] == l.producer && d[|dag| + 1] == l.consumer;
    assert Eval(d, env, |dag|) == Combine(TargetOpcode(ProducerInst(opc)), Eval(dag, env, a), Eval(dag, env, b));
    assert Eval(d, env, |dag| + 1) == Extract(TargetOpcode(ConsumerInst(opc)), Eval(d, env, |dag|));
    assert Eval(dag, env, n) == Combine(opc, Eval(dag, env, a), Eval(dag, env, b));
  }
}
