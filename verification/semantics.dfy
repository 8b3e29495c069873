/**
 * What a node computes, used as the reference against which the selector's
 * rewrites are judged. Registers hold 32-bit words; a multiply or divide
 * instruction produces no register value but the pair of accumulator halves
 * (HI, LO) that its flag result stands for, and MFHI / MFLO read one half.
 * Frame slots, symbols and every operation the selector does not inspect get
 * their values from an environment.
 */
module Semantics {
  import opened SelectionDAG
  import ISD
  import Mips

  const WORD: int := 0x1_0000_0000

  datatype Value = Word(bits: int) | Accumulator(hi: int, lo: int) | Undefined

  datatype Env = Env(frameAddress: int -> int, symbolAddress: string -> int, resultOf: NodeId -> int)

  predicate InWord(x: int) { 0 <= x < WORD }

  /** Two's-complement reduction to 32 bits. */
  function Wrap(x: int): (r: int)
    ensures InWord(r)
  {
    x % WORD
  }

  /** A 32-bit word read as a signed number. */
  function Signed(w: int): int
  {
    if w < 0x8000_0000 then w else w - WORD
  }

  /** Bits 32..63 of a (64-bit) product. */
  function HighWord(p: int): (r: int)
    ensures InWord(r)
  {
    Wrap(p / WORD)
  }

  function Abs(x: int): nat { if x < 0 then -x else x }

  /** Division rounding toward zero, as the hardware and C do. */
  function TruncDiv(a: int, b: int): int
    requires b != 0
  {
    var q := Abs(a) / Abs(b);
    if (a < 0) == (b < 0) then q else -q
  }

  /** The remainder that goes with `TruncDiv`: it takes the sign of the dividend. */
  function TruncRem(a: int, b: int): int
    requires b != 0
  {
    a - b * TruncDiv(a, b)
  }

  /** Generic operations on two words. */
  function GenericBinary(opc: nat, a: int, b: int): Value
  {
    if opc == ISD.ADD then Word(Wrap(a + b))
    else if opc == ISD.MULHS then Word(HighWord(Signed(a) * Signed(b)))
    else if opc == ISD.MULHU then Word(HighWord(a * b))
    else if opc == ISD.SDIV then
      (if Signed(b) == 0 then Undefined else Word(Wrap(TruncDiv(Signed(a), Signed(b)))))
    else if opc == ISD.SREM then
      (if Signed(b) == 0 then Undefined else Word(Wrap(TruncRem(Signed(a), Signed(b)))))
    else if opc == ISD.UDIV then (if b == 0 then Undefined else Word(Wrap(a / b)))
    else if opc == ISD.UREM then (if b == 0 then Undefined else Word(Wrap(a % b)))
    else Undefined
  }

  /** MIPS multiply and divide: HI receives the high product word or the remainder, LO the low word or the quotient. */
  function MachineBinary(opc: nat, a: int, b: int): Value
  {
    if opc == TargetOpcode(Mips.MULT) then
      Accumulator(HighWord(Signed(a) * Signed(b)), Wrap(Signed(a) * Signed(b)))
    else if opc == TargetOpcode(Mips.MULTu) then
      Accumulator(HighWord(a * b), Wrap(a * b))
    else if opc == TargetOpcode(Mips.DIV) then
      (if Signed(b) == 0 then Undefined
       else Accumulator(Wrap(TruncRem(Signed(a), Signed(b))), Wrap(TruncDiv(Signed(a), Signed(b)))))
    else if opc == TargetOpcode(Mips.DIVu) then
      (if b == 0 then Undefined else Accumulator(Wrap(a % b), Wrap(a / b)))
    else Undefined
  }

  /** A two-operand node applied to its operands' values; only words are valid operands. */
  function Combine(opc: nat, x: Value, y: Value): Value
  {
    if x.Word? && y.Word? then
      (if opc < ISD.BUILTIN_OP_END then GenericBinary(opc, x.bits, y.bits)
       else MachineBinary(opc, x.bits, y.bits))
    else Undefined
  }

  /** MFHI / MFLO applied to a flag value. */
  function Extract(opc: nat, x: Value): Value
  {
    if x.Accumulator? then Word(if opc == TargetOpcode(Mips.MFHI) then x.hi else x.lo)
    else Undefined
  }

  /** The value of a leaf node. */
  function LeafValue(env: Env, n: Node): Value
  {
    match n
    case FrameIndexNode(_, k, _) => Word(Wrap(env.frameAddress(k)))
    case ConstantNode(_, c, _) => Word(Wrap(c))
    case ExternalSymbolNode(_, s, _) => Word(Wrap(env.symbolAddress(s)))
    case GlobalAddressNode(_, g, _) => Word(Wrap(env.symbolAddress(g)))
    case OpNode(_, _, _) => Undefined
  }

  /** The value node `id` computes; every word it yields is a 32-bit word. */
  function Eval(dag: seq<Node>, env: Env, id: NodeId): (v: Value)
    requires WellFormedDAG(dag) && id < |dag|
    ensures v.Word? ==> InWord(v.bits)
    ensures v.Accumulator? ==> InWord(v.hi) && InWord(v.lo)
    decreases id
  {
    match dag[id]
    case OpNode(opc, _, ops) =>
      assert WellFormedNode(dag[id], id);
      if BinaryOpcode(opc) then Combine(opc, Eval(dag, env, ops[0]), Eval(dag, env, ops[1]))
      else if UnaryOpcode(opc) then Extract(opc, Eval(dag, env, ops[0]))
      else Word(Wrap(env.resultOf(id)))
    case _ => LeafValue(env, dag[id])
  }

  /** Appending nodes never changes what an existing node computes. */
  lemma {:induction false} EvalAppend(dag: seq<Node>, ext: seq<Node>, env: Env, id: NodeId)
    requires WellFormedDAG(dag) && WellFormedDAG(dag + ext) && id < |dag|
    ensures Eval(dag + ext, env, id) == Eval(dag, env, id)
    decreases id
  {
    assert (dag + ext)[id] == dag[id];
    match dag[id]
    case OpNode(opc, _, ops) =>
      assert WellFormedNode(dag[id], id);
      if BinaryOpcode(opc) {
        EvalAppend(dag, ext, env, ops[0]);
        EvalAppend(dag, ext, env, ops[1]);
      } else if UnaryOpcode(opc) {
        EvalAppend(dag, ext, env, ops[0]);
      }
    case _ =>
  }
}
