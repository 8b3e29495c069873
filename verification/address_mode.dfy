/**
 * The load/store addressing-mode matcher (`SelectAddr`): it splits an address
 * node into a base and a signed 16-bit immediate offset, or refuses it.
 */
module AddressMode {
  import opened SelectionDAG
  import opened Semantics
  import ISD

  /** An output of the matcher: an existing node, or a node the matcher asks the DAG to build. */
  datatype Operand = Existing(id: NodeId) | Built(node: Node)

  /** The two outputs of a successful match; `offset` is always an i32 target constant. */
  datatype AddrMatch = AddrMatch(base: Operand, offset: Node)

  /**
   * The `immSExt16` predicate of the generated pattern table: the constant is
   * a 16-bit immediate that sign-extends to itself.
   */
  predicate ImmSExt16(c: int)
  {
    -0x8000 <= c < 0x8000
  }

  /** The frame index of a frame-index node (generic or target), as a `dyn_cast` would find it. */
  function AsFrameIndex(n: Node): Option<int>
  {
    if n.FrameIndexNode? then Some(n.index) else None
  }

  /** The value of a constant node (generic or target), as a `dyn_cast` would find it. */
  function AsConstant(n: Node): Option<int>
  {
    if n.ConstantNode? then Some(n.value) else None
  }

  function TargetFrameIndex(k: int): Node { FrameIndexNode(true, k, I32) }

  function TargetConstant(c: int): Node { ConstantNode(true, c, I32) }

  /** True of the two kinds of symbolic address that the matcher refuses. */
  predicate IsTargetSymbol(n: Node)
  {
    Opcode(n) == ISD.TargetExternalSymbol || Opcode(n) == ISD.TargetGlobalAddress
  }

  /**
   * Decompose the address `addr`. The matcher refuses exactly the target
   * symbols, and every offset it produces is an i32 target constant that
   * fits the signed 16-bit immediate field.
   */
  function SelectAddr(dag: seq<Node>, addr: NodeId): (r: Option<AddrMatch>)
    requires WellFormedDAG(dag) && addr < |dag|
    ensures r.None? <==> IsTargetSymbol(dag[addr])
    ensures r.Some? ==> r.value.offset.ConstantNode? && r.value.offset.isTarget
                        && r.value.offset.vt == I32 && ImmSExt16(r.value.offset.value)
  {
    var n := dag[addr];
    if AsFrameIndex(n).Some? then
      Some(AddrMatch(Built(TargetFrameIndex(AsFrameIndex(n).value)), TargetConstant(0)))
    else if IsTargetSymbol(n) then
      None
    else if Opcode(n) == ISD.ADD && AsConstant(dag[n.operands[1]]).Some?
            && ImmSExt16(AsConstant(dag[n.operands[1]]).value) then
      var x := n.operands[0];
      var base := if AsFrameIndex(dag[x]).Some? then Built(TargetFrameIndex(AsFrameIndex(dag[x]).value))
                  else Existing(x);
      Some(AddrMatch(base, TargetConstant(AsConstant(dag[n.operands[1]]).value)))
    else
      Some(AddrMatch(Existing(addr), TargetConstant(0)))
  }

  /** Rule 1: a frame index becomes the target frame index of the same slot, offset 0. */
  lemma SelectAddrFrameIndex(dag: seq<Node>, addr: NodeId)
    requires WellFormedDAG(dag) && addr < |dag| && dag[addr].FrameIndexNode?
    ensures SelectAddr(dag, addr) == Some(AddrMatch(Built(TargetFrameIndex(dag[addr].index)), TargetConstant(0)))
  {
  }

  /** Rule 3: `ADD(x, c)` with a 16-bit `c` folds `c` into the offset and keeps `x` (as a target frame index if it is a frame index). */
  lemma SelectAddrFoldsImmediate(dag: seq<Node>, addr: NodeId)
    requires WellFormedDAG(dag) && addr < |dag| && Opcode(dag[addr]) == ISD.ADD
    requires dag[Operands(dag[addr])[1]].ConstantNode? && ImmSExt16(dag[Operands(dag[addr])[1]].value)
    ensures var x := Operands(dag[addr])[0];
            var c := dag[Operands(dag[addr])[1]].value;
            SelectAddr(dag, addr) ==
              Some(AddrMatch(if dag[x].FrameIndexNode? then Built(TargetFrameIndex(dag[x].index)) else Existing(x),
                             TargetConstant(c)))
  {
    assert WellFormedNode(dag[addr], addr);
  }

  /** Rule 4: anything else is used whole as the base, with offset 0. */
  lemma SelectAddrFallback(dag: seq<Node>, addr: NodeId)
    requires WellFormedDAG(dag) && addr < |dag|
    requires !dag[addr].FrameIndexNode? && !IsTargetSymbol(dag[addr])
    requires Opcode(dag[addr]) == ISD.ADD ==>
               !(dag[Operands(dag[addr])[1]].ConstantNode? && ImmSExt16(dag[Operands(dag[addr])[1]].value))
    ensures SelectAddr(dag, addr) == Some(AddrMatch(Existing(addr), TargetConstant(0)))
  {
    assert WellFormedNode(dag[addr], addr);
  }

  /**
   * The decomposition is one level deep: the base is the address itself, its
   * first operand, or the target frame index of one of those two.
   */
  lemma SelectAddrOneLevel(dag: seq<Node>, addr: NodeId)
    requires WellFormedDAG(dag) && addr < |dag|
    requires SelectAddr(dag, addr).Some?
    ensures var base := SelectAddr(dag, addr).value.base;
            var first := if Opcode(dag[addr]) == ISD.ADD then {Operands(dag[addr])[0]} else {};
            || base == Existing(addr)
            || (base.Existing? && base.id in first)
            || (base.Built? && base.node.FrameIndexNode? &&
                exists i | i == addr || i in first :: dag[i].FrameIndexNode? && base.node == TargetFrameIndex(dag[i].index))
  {
    assert WellFormedNode(dag[addr], addr);
  }

  /** The value an operand chosen by the matcher denotes. */
  function OperandValue(dag: seq<Node>, env: Env, o: Operand): Value
    requires WellFormedDAG(dag) && (o.Existing? ==> o.id < |dag|)
  {
    match o
    case Existing(id) => Eval(dag, env, id)
    case Built(n) => LeafValue(env, n)
  }

  /** The address a load or store forms from a base value and a sign-extended offset. */
  function EffectiveAddress(base: Value, offset: int): Value
  {
    if base.Word? then Word(Wrap(base.bits + offset)) else Undefined
  }

  lemma WrapAddRight(a: int, c: int)
    ensures Wrap(a + Wrap(c)) == Wrap(a + c)
  {
    var q := c / WORD;
    assert c == q * WORD + Wrap(c);
    assert a + c == (a + Wrap(c)) + q * WORD;
  }

  /**
   * Soundness of the matcher: whenever the address evaluates to a word, the
   * base and offset it returns form that same address.
   */
  lemma SelectAddrPreservesAddress(dag: seq<Node>, env: Env, addr: NodeId)
    requires WellFormedDAG(dag) && addr < |dag|
    requires SelectAddr(dag, addr).Some? && Eval(dag, env, addr).Word?
    ensures var m := SelectAddr(dag, addr).value;
            (m.base.Existing? ==> m.base.id < |dag|) &&
            EffectiveAddress(OperandValue(dag, env, m.base), m.offset.value) == Eval(dag, env, addr)
  {
    var n := dag[addr];
    assert WellFormedNode(n, addr);
    var m := SelectAddr(dag, addr).value;
    if n.FrameIndexNode? {
    } else if Opcode(n) == ISD.ADD && dag[n.operands[1]].ConstantNode? && ImmSExt16(dag[n.operands[1]].value) {
      var x, c := n.operands[0], dag[n.operands[1]].value;
      assert Eval(dag, env, addr) == Combine(ISD.ADD, Eval(dag, env, x), Word(Wrap(c)));
      assert OperandValue(dag, env, m.base) == Eval(dag, env, x);
      WrapAddRight(Eval(dag, env, x).bits, c);
    } else {
      assert m == AddrMatch(Existing(addr), TargetConstant(0));
    }
  }
}
