# MIPS DAG-to-DAG instruction selection, modelled in Dafny

This project models the hand-written part of LLVM's MIPS instruction selector,
`MipsDAGToDAGISel`. Two pieces are modelled:

- **`SelectAddr`** is the complex pattern behind every MIPS load and store. It
  splits an address node into a base and a 16-bit signed immediate offset, or
  refuses the address.
- **`Select`** is the per-node entry point. It does three things:
  - It leaves nodes in the already-selected opcode range untouched.
  - It lowers MULHS/MULHU, SDIV/UDIV and SREM/UREM by hand. Each becomes a
    MULT/MULTu or DIV/DIVu that yields only a flag, followed by an MFHI or
    MFLO that reads the flag.
  - It passes every other node to the generated matcher `SelectCode`.

## Files and modules

- `opcodes.dfy` holds modules `ISD`, `Mips` and `MipsISD`, one per C++
  namespace. Opcodes are numbers in three consecutive ranges:
  - generic operations, below `ISD.BUILTIN_OP_END`;
  - machine nodes, numbered `BUILTIN_OP_END + Mips::inst` (the numbering
    `getTargetNode` uses);
  - MIPS pseudo operations, from `MipsISD.FIRST_NUMBER`, which is
    `BUILTIN_OP_END + Mips::INSTRUCTION_LIST_END`.
  The concrete numbers are placeholders. Only the ranges and the distinctness
  of the named opcodes matter.
- `dag.dfy` (module `SelectionDAG`) holds the node arena. Nodes are a `seq<Node>`
  indexed by id, with one constructor per node class the selector tells apart:
  - a frame index, generic or target;
  - a constant, generic or target;
  - an external symbol;
  - a global address;
  - any other operation, carrying its opcode, value type and operand ids.
  `WellFormedDAG` is the shape of a legalized DAG. Operands point to older
  nodes, each opcode has its arity, and an i32 constant holds its
  sign-extended 32-bit value.
- `semantics.dfy` (module `Semantics`) is a reference meaning for nodes. Words
  are 32 bits. A multiply or divide yields the HI/LO accumulator pair that its
  flag stands for, and MFHI/MFLO extract one half. Division truncates toward
  zero. Frame slots, symbols and uninspected operations take their values from
  an environment.
- `address_mode.dfy` (module `AddressMode`) holds `SelectAddr` and its lemmas.
- `special_ops.dfy` (module `SpecialOps`) holds the two-instruction lowering as
  a function, and its correctness lemma.
- `isel.dfy` (module `MipsISel`) holds class `MipsDAGToDAGISel`. It has the DAG,
  the queue requests in call order and a ghost log of actions. `Select` is a method on it.

## Model

| member | source | states |
|---|---|---|
| `SelectionDAG.AlreadySelectedIsMachine` | trunk/lib/Target/Mips/MipsISelDAGToDAG.cpp:187-188 | The half-open range `[ISD::BUILTIN_OP_END, MipsISD::FIRST_NUMBER)` holds exactly the machine-node opcodes. |
| `AddressMode.SelectAddr` | trunk/lib/Target/Mips/MipsISelDAGToDAG.cpp:128-169 | The result is "no match" exactly when the address is a TargetExternalSymbol or TargetGlobalAddress; every other input matches. Every offset produced is an i32 target constant that satisfies immSExt16. |
| `AddressMode.SelectAddrFrameIndex` | trunk/lib/Target/Mips/MipsISelDAGToDAG.cpp:131-136 | A frame index (generic or target) gives base = the target frame index of the same slot, offset = target constant 0. |
| `AddressMode.SelectAddrFoldsImmediate` | trunk/lib/Target/Mips/MipsISelDAGToDAG.cpp:145-162 | For `ADD(x, c)` with a constant `c` that fits immSExt16: offset = `c`; base = the target frame index of `x`'s slot if `x` is a frame index, otherwise `x` itself. |
| `AddressMode.SelectAddrFallback` | trunk/lib/Target/Mips/MipsISelDAGToDAG.cpp:145-168 | Any other node gives base = the whole address, offset = 0. This covers an ADD whose operand 1 is not a constant, an ADD whose constant does not fit, and any other node kind. |
| `AddressMode.SelectAddrOneLevel` | trunk/lib/Target/Mips/MipsISelDAGToDAG.cpp:145-168 | The match looks one level deep only. The base is the address, its first operand, or the target frame index of one of the two. |
| `AddressMode.SelectAddrPreservesAddress` | trunk/lib/Target/Mips/MipsISelDAGToDAG.cpp:128-169 | Whenever the address evaluates to a word, the returned base plus the sign-extended offset, wrapped to 32 bits, equals that address. |
| `SpecialOps.Lower` | trunk/lib/Target/Mips/MipsISelDAGToDAG.cpp:207-249 | The producer and consumer are well formed at the two next free ids, and both have opcodes in the already-selected range. Selecting the result again therefore changes nothing. |
| `SpecialOps.LowerTable` | trunk/lib/Target/Mips/MipsISelDAGToDAG.cpp:207-249 | MULHS→MULT+MFHI, MULHU→MULTu+MFHI, SDIV→DIV+MFLO, UDIV→DIVu+MFLO, SREM→DIV+MFHI, UREM→DIVu+MFHI. The producer takes (operand 0, operand 1) and yields only a Flag. The consumer's sole operand is the producer and its result type is i32. |
| `SpecialOps.Lowered` | trunk/lib/Target/Mips/MipsISelDAGToDAG.cpp:207-249 | Lowering appends exactly two nodes, keeps the DAG well formed and leaves every existing node as it was. |
| `SpecialOps.LowerPreservesValue` | trunk/lib/Target/Mips/MipsISelDAGToDAG.cpp:206-249 | In every environment the MFHI/MFLO consumer computes what the generic MULH/DIV/REM node computed. This checks both the signedness of the producer and which accumulator half is read. |
| `MipsISel.MipsDAGToDAGISel.AddToISelQueue` | trunk/lib/Target/Mips/MipsISelDAGToDAG.cpp:211-212 | Records a request to queue the node, appended in call order; the DAG is unchanged. |
| `MipsISel.MipsDAGToDAGISel.GetTargetNode` | trunk/lib/Target/Mips/MipsISelDAGToDAG.cpp:215-218 | Appends one machine node with opcode `BUILTIN_OP_END + inst` and returns its id; the queue is unchanged. |
| `MipsISel.MipsDAGToDAGISel.Select` | trunk/lib/Target/Mips/MipsISelDAGToDAG.cpp:173-266 | Already-selected opcodes: returns NULL (`None`) and changes no state. MULH/DIV/REM: queues operand 0 and operand 1, then builds the producer and the consumer, in that order. It returns the consumer, and the DAG becomes `Lowered(old dag, n)`. Anything else: returns what `SelectCode` returns, appends the nodes it builds and records the nodes it queues, in its order. In every case the selector stays valid, so `Select` can be called again on any node. |

## Left out

- `InstructionSelectBasicBlock` is not modelled. Its three steps are framework
  routines whose bodies are not part of this model: `SelectRoot` (the recursive
  walk that memoizes and shares replacements), `RemoveDeadNodes` and
  `ScheduleAndEmitDAG`.
- Debug tracing is left out: the `DOUT`/`DEBUG` output and the `Indent`
  counter. They have no effect on what is selected.
- The constructor, `getPassName`, `getI32Imm` and `createMipsISelDag` are left
  out. They are pass plumbing.
- The generated code in `MipsGenDAGISel.inc` is not part of this model.
  - `SelectCode` is a function-typed field of the class. It returns its side
    effects and its answer, and `Select` applies them.
  - The class's invariant assumes that `SelectCode`, on a legalized DAG,
    builds only nodes well formed at their new ids and queues only existing
    nodes. The constructor demands this of the matcher it is given.
  - `Predicate_immSExt16` is stated as the assumption −2^15 ≤ c < 2^15. This
    is the usual definition: the value equals its own 16-bit sign extension.
- MipsISel.MipsDAGToDAGISel.AddToISelQueue: the queueing routine is
  generated in `MipsGenDAGISel.inc`, which is not part of this model. The
  model logs each request in call order, with no de-duplication of nodes
  already queued and no priority order. `Select`'s queue clause states those
  requests, not the contents of the generated priority queue.
- MipsISel.MipsDAGToDAGISel.Select: the matcher's effects are modelled only
  as appended nodes and queue requests. Selecting a node in place
  (`SelectNodeTo`, which rewrites node N and returns N, as the test at line
  257 expects) and replacing a node's uses are not captured, so in the model
  the fallback leaves every existing node unchanged. A rewritten node may take
  operands built after it, which the arena's older-operands order cannot hold.
- The opcode numbering is an assumption, because the headers are not part of
  this model. Machine nodes are `BUILTIN_OP_END + inst`, and `MipsISD::FIRST_NUMBER`
  comes after the last instruction. Under this numbering, the range test at
  line 188 catches nodes that are already machine instructions. The comment at
  line 187 calls them custom nodes. The model follows the test as written.
- Node uniquing (CSE) in `getTargetNode`, `getTargetFrameIndex` and
  `getTargetConstant` is not modelled. `getTargetNode` appends a fresh node.
  The target frame index and target constant that `SelectAddr` asks for are
  returned as values (`Operand.Built`, `AddrMatch.offset`), not as arena ids.
- SDOperand result numbers are not modelled. An operand is a node id: the
  model treats every node as single-valued, and the result number of
  forwarded operands is dropped.
- The unused first parameter `Op` of `SelectAddr` is dropped.
- The order of `SelectAddr`'s out-parameters is inconsistent in the source.
  The declaration (lines 83-84) names them `Base, Offset`, and the definition
  (line 129) names them `Offset, Base`. The model returns a named record
  `{base, offset}` whose fields follow the assignments in the body.
- Constants are unbounded integers holding their sign-extended value; a
  well-formed i32 constant lies in [-2^31, 2^31). The 64-bit storage of
  `ConstantSDNode` is not modelled.
- The MIPS result of dividing by zero is unpredictable, and the generic
  operation's is undefined. Both are modelled as `Undefined`.
- Signed division overflow (the most negative i32 divided by −1) is undefined
  for the generic SDIV and SREM, and unpredictable on MIPS. The model gives
  both the wrapped value (quotient −2^31, remainder 0) instead, so the
  generic node and its DIV lowering agree on it. This is a refinement of the
  undefined result, not a promise the source makes.
