/**
 * The slice of the MIR data model that the dataflow direction traverses:
 * basic blocks, their terminators and program locations.
 */
module Mir {
  import opened Wrappers

  /** Identity of a basic block in the control-flow graph. */
  type BlockId = nat

  /** A MIR statement; its internal structure is not part of this model. */
  type Statement(==, !new)

  /**
   * A program point: statement `index` of `block`; the index equal to the
   * statement count denotes the block's terminator.
   */
  datatype Location = Location(block: BlockId, index: nat)

  /** The terminator kinds the forward direction distinguishes. */
  datatype Terminator =
    | Return
    | Resume
    | Unreachable
    | Goto(target: BlockId)
    | Assert(target: BlockId, unwind: Option<BlockId>)
    | FalseUnwind(realTarget: BlockId, unwind: Option<BlockId>)
      /** `targets` is the full target list of the switch, the otherwise branch included. */
    | SwitchInt(targets: seq<BlockId>)

  datatype BasicBlock = BasicBlock(id: BlockId, statements: seq<Statement>, terminator: Terminator)

  /** The location of a block's terminator: one past its last statement. */
  function TerminatorLocation(block: BasicBlock): Location
  {
    Location(block.id, |block.statements|)
  }

  /** The optional unwind edge, as a list of zero or one target. */
  function UnwindEdge(unwind: Option<BlockId>): seq<BlockId>
  {
    match unwind
    case None => []
    case Some(target) => [target]
  }

  /**
   * The successor edges of a terminator, in the order the forward direction
   * propagates to them: the unwind edge (when there is one) before the normal
   * edge, and the targets of a switch in their listed order.
   */
  function Successors(t: Terminator): seq<BlockId>
  {
    match t
    case Return | Resume | Unreachable => []
    case Goto(target) => [target]
    case Assert(target, unwind) => UnwindEdge(unwind) + [target]
    case FalseUnwind(realTarget, unwind) => UnwindEdge(unwind) + [realTarget]
    case SwitchInt(targets) => targets
  }
}
