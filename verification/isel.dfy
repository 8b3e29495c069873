/**
 * The MIPS DAG-to-DAG instruction selector's `Select`: it leaves already
 * selected nodes alone, lowers multiply-high, divide and remainder by hand,
 * and hands everything else to the generated pattern matcher.
 */
module MipsISel {
  import opened SelectionDAG
  import opened SpecialOps

  /** A side effect on the selector's state: queueing a node for selection, or building a node. */
  datatype Action = Queue(id: NodeId) | Build(node: Node)

  /** What the generated matcher (`SelectCode`) does for one node: its side effects in order, and its answer. */
  datatype PatternOutcome = PatternOutcome(actions: seq<Action>, result: Option<NodeId>)

  /** The nodes a sequence of actions builds, in order. */
  function BuiltNodes(actions: seq<Action>): seq<Node>
  {
    if actions == [] then []
    else (if actions[0].Build? then [actions[0].node] else []) + BuiltNodes(actions[1..])
  }

  /** The ids a sequence of actions queues, in order. */
  function QueuedIds(actions: seq<Action>): seq<NodeId>
  {
    if actions == [] then []
    else (if actions[0].Queue? then [actions[0].id] else []) + QueuedIds(actions[1..])
  }

  /** A matcher outcome that keeps the DAG well formed and queues only nodes that exist. */
  predicate OutcomeFits(dag: seq<Node>, out: PatternOutcome)
  {
    var d := dag + BuiltNodes(out.actions);
    WellFormedDAG(d) && forall i | 0 <= i < |QueuedIds(out.actions)| :: QueuedIds(out.actions)[i] < |d|
  }

  /**
   * The generated matcher keeps the selector consistent: on every legalized DAG
   * and every node it is handed (neither already selected nor lowered by hand),
   * its outcome fits that DAG.
   */
  ghost predicate MatcherFits(matcher: (seq<Node>, NodeId) -> PatternOutcome)
  {
    forall d: seq<Node>, m: NodeId | WellFormedDAG(d) && m < |d| && !AlreadySelected(Opcode(d[m])) && !IsSpecial(Opcode(d[m])) ::
      OutcomeFits(d, matcher(d, m))
  }

  class MipsDAGToDAGISel {
    /** The current DAG's nodes, by id. */
    var dag: seq<Node>
    /** Requests to queue a node for selection, in call order. */
    var queue: seq<NodeId>
    /** Every action taken so far, in order. */
    ghost var log: seq<Action>
    /** The generated matcher. */
    const selectCode: (seq<Node>, NodeId) -> PatternOutcome

    ghost predicate Valid()
      reads this
    {
      && WellFormedDAG(dag)
      && (forall i | 0 <= i < |queue| :: queue[i] < |dag|)
      && MatcherFits(selectCode)
    }

    constructor (initial: seq<Node>, matcher: (seq<Node>, NodeId) -> PatternOutcome)
      requires WellFormedDAG(initial) && MatcherFits(matcher)
      ensures Valid()
      ensures dag == initial && queue == [] && log == [] && selectCode == matcher
    {
      dag := initial;
      queue := [];
      log := [];
      selectCode := matcher;
    }

    /** Queue an existing node for selection. */
    method AddToISelQueue(id: NodeId)
      requires Valid() && id < |dag|
      modifies this
      ensures Valid()
      ensures dag == old(dag) && queue == old(queue) + [id] && log == old(log) + [Queue(id)]
    {
      queue := queue + [id];
      log := log + [Queue(id)];
    }

    /** Build a machine node for instruction `inst`; it gets the next free id. */
    method GetTargetNode(inst: nat, vt: ValueType, ops: seq<NodeId>) returns (id: NodeId)
      requires Valid() && WellFormedNode(OpNode(TargetOpcode(inst), vt, ops), |dag|)
      modifies this
      ensures Valid()
      ensures id == old(|dag|)
      ensures dag == old(dag) + [OpNode(TargetOpcode(inst), vt, ops)]
      ensures queue == old(queue) && log == old(log) + [Build(OpNode(TargetOpcode(inst), vt, ops))]
    {
      var node := OpNode(TargetOpcode(inst), vt, ops);
      WellFormedAppend(dag, [node]);
      id := |dag|;
      dag := dag + [node];
      log := log + [Build(node)];
    }

    /**
     * Select node `n`. An already-selected node yields no replacement and no
     * change. A special node is replaced by the consumer of its lowering, after
     * both of its operands were queued and then the producer and consumer were
     * built. Any other node gets what the generated matcher gives. The
     * selector stays valid either way.
     */
    method Select(n: NodeId) returns (r: Option<NodeId>)
      requires Valid() && n < |dag|
      modifies this
      ensures Valid()
      ensures AlreadySelected(Opcode(old(dag)[n])) ==>
                && r == None
                && dag == old(dag) && queue == old(queue) && log == old(log)
      ensures !AlreadySelected(Opcode(old(dag)[n])) && IsSpecial(Opcode(old(dag)[n])) ==>
                var l := Lower(old(dag), n);
                var ops := Operands(old(dag)[n]);
                && r == Some(|old(dag)| + 1)
                && dag == Lowered(old(dag), n)
                && queue == old(queue) + [ops[0], ops[1]]
                && log == old(log) + [Queue(ops[0]), Queue(ops[1]), Build(l.producer), Build(l.consumer)]
      ensures !AlreadySelected(Opcode(old(dag)[n])) && !IsSpecial(Opcode(old(dag)[n])) ==>
                var out := selectCode(old(dag), n);
                && r == out.result
                && dag == old(dag) + BuiltNodes(out.actions)
                && queue == old(queue) + QueuedIds(out.actions)
                && log == old(log) + out.actions
    {
      var node := dag[n];
      var opc := Opcode(node);

      // A node in the machine range has already been selected.
      if AlreadySelected(opc) {
        return None;
      }

      if IsSpecial(opc) {
        assert WellFormedNode(node, n);
        var op1, op2 := node.operands[0], node.operands[1];
        AddToISelQueue(op1);
        AddToISelQueue(op2);
        var producer := GetTargetNode(ProducerInst(opc), Flag, [op1, op2]);
        var consumer := GetTargetNode(ConsumerInst(opc), I32, [producer]);
        return Some(consumer);
      }

      var out := selectCode(dag, n);
      assert OutcomeFits(dag, out);
      dag := dag + BuiltNodes(out.actions);
      queue := queue + QueuedIds(out.actions);
      log := log + out.actions;
      r := out.result;
    }
  }
}
