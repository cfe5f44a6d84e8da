/**
 * The forward direction of the MIR dataflow framework: how an analysis's
 * effects are applied across one basic block, which blocks receive a block's
 * exit state, and how a block is replayed for a results visitor.
 *
 * The domain is a type parameter `D`. The analysis updates its state in place;
 * here each effect is a function from the old state to the new one, and the
 * operations return the state they arrive at. Callbacks with side effects
 * (`propagate`, the visitor) are returned as the trace of calls they receive.
 */
module Direction {
  import opened Mir

  /** The transfer functions of an analysis over domain `D`. */
  datatype Analysis<!D> = Analysis(
    applyStatementEffect: (D, Statement, Location) -> D,
    applyTerminatorEffect: (D, Terminator, Location) -> D)

  // ---------------------------------------------------------------------------
  // applyEffectsInBlock
  // ---------------------------------------------------------------------------

  /** The state after the effects of the first `k` statements of `block`, in index order. */
  function StatementsEffect<D>(a: Analysis<D>, entry: D, block: BasicBlock, k: nat): D
    requires k <= |block.statements|
    decreases k
  {
    if k == 0 then entry
    else a.applyStatementEffect(StatementsEffect(a, entry, block, k - 1), block.statements[k - 1], Location(block.id, k - 1))
  }

  /** The exit state of `block`: every statement effect, then the terminator effect. */
  function BlockEffect<D>(a: Analysis<D>, entry: D, block: BasicBlock): D
  {
    a.applyTerminatorEffect(StatementsEffect(a, entry, block, |block.statements|), block.terminator, TerminatorLocation(block))
  }

  method ApplyEffectsInBlock<D>(a: Analysis<D>, state: D, block: BasicBlock) returns (exit: D)
    ensures exit == BlockEffect(a, state, block)
  {
    exit := state;
    for index := 0 to |block.statements|
      invariant exit == StatementsEffect(a, state, block, index)
    {
      var location := Location(block.id, index);
      exit := a.applyStatementEffect(exit, block.statements[index], location);
    }
    var terminatorLocation := Location(block.id, |block.statements|);
    exit := a.applyTerminatorEffect(exit, block.terminator, terminatorLocation);
  }

  /** One application of an analysis effect, as an analysis would observe it. */
  datatype Effect =
    | StatementEffect(statement: Statement, location: Location)
    | TerminatorEffect(terminator: Terminator, location: Location)

  /** The analysis whose state is the log of every effect applied to it so far. */
  function Recorder(): Analysis<seq<Effect>>
  {
    Analysis(
      (log: seq<Effect>, s: Statement, loc: Location) => log + [StatementEffect(s, loc)],
      (log: seq<Effect>, t: Terminator, loc: Location) => log + [TerminatorEffect(t, loc)])
  }

  lemma {:induction false} RecordedStatements(block: BasicBlock, k: nat)
    requires k <= |block.statements|
    ensures |StatementsEffect(Recorder(), [], block, k)| == k
    ensures forall i :: 0 <= i < k ==>
      StatementsEffect(Recorder(), [], block, k)[i] == StatementEffect(block.statements[i], Location(block.id, i))
  {
    if k > 0 {
      RecordedStatements(block, k - 1);
    }
  }

  /**
   * Applying a block's effects calls the statement effect exactly once per
   * statement, in ascending index order, at location (block, index), and then
   * the terminator effect exactly once, last, at index `|statements|`.
   */
  lemma EffectOrder(block: BasicBlock)
    ensures var log := BlockEffect(Recorder(), [], block);
      && |log| == |block.statements| + 1
      && (forall i :: 0 <= i < |block.statements| ==>
            log[i] == StatementEffect(block.statements[i], Location(block.id, i)))
      && log[|block.statements|] == TerminatorEffect(block.terminator, Location(block.id, |block.statements|))
  {
    RecordedStatements(block, |block.statements|);
  }

  // ---------------------------------------------------------------------------
  // joinStateIntoSuccessorsOf
  // ---------------------------------------------------------------------------

  /** One call of the `propagate` callback: the receiving block and the state passed. */
  datatype Propagation<D> = Propagation(target: BlockId, state: D)

  /**
   * The `propagate` calls the forward direction makes for `block`'s exit
   * state, in call order.
   */
  method JoinStateIntoSuccessorsOf<D>(exitState: D, block: BasicBlock) returns (calls: seq<Propagation<D>>)
    ensures |calls| == |Successors(block.terminator)|
    ensures forall i :: 0 <= i < |calls| ==>
      calls[i] == Propagation(Successors(block.terminator)[i], exitState)
    ensures match block.terminator
      case Return | Resume | Unreachable => calls == []
      case Goto(target) => calls == [Propagation(target, exitState)]
      case Assert(target, unwind) =>
        calls == (if unwind.Some? then [Propagation(unwind.value, exitState), Propagation(target, exitState)]
                  else [Propagation(target, exitState)])
      case FalseUnwind(realTarget, unwind) =>
        calls == (if unwind.Some? then [Propagation(unwind.value, exitState), Propagation(realTarget, exitState)]
                  else [Propagation(realTarget, exitState)])
      case SwitchInt(targets) =>
        |calls| == |targets| && forall i :: 0 <= i < |targets| ==> calls[i] == Propagation(targets[i], exitState)
  {
    calls := [];
    match block.terminator {
      case Return | Resume | Unreachable =>
      case Goto(target) =>
        calls := calls + [Propagation(target, exitState)];
      case Assert(target, unwind) =>
        if unwind.Some? {
          calls := calls + [Propagation(unwind.value, exitState)];
        }
        calls := calls + [Propagation(target, exitState)];
      case FalseUnwind(realTarget, unwind) =>
        if unwind.Some? {
          calls := calls + [Propagation(unwind.value, exitState)];
        }
        calls := calls + [Propagation(realTarget, exitState)];
      case SwitchInt(targets) =>
        for i := 0 to |targets|
          invariant |calls| == i
          invariant forall k :: 0 <= k < i ==> calls[k] == Propagation(targets[k], exitState)
        {
          calls := calls + [Propagation(targets[i], exitState)];
        }
    }
  }

  // ---------------------------------------------------------------------------
  // visitResultsInBlock
  // ---------------------------------------------------------------------------

  /**
   * The results of a finished analysis as the replay sees them: the stored
   * state of each block, and the reconstruction steps run before and as each
   * statement's and terminator's primary effect.
   */
  datatype Results<!D> = Results(
    copyOfBlockState: BasicBlock -> D,
    reconstructBeforeStatementEffect: (D, Statement, Location) -> D,
    reconstructStatementEffect: (D, Statement, Location) -> D,
    reconstructBeforeTerminatorEffect: (D, Terminator, Location) -> D,
    reconstructTerminatorEffect: (D, Terminator, Location) -> D)

  /** One visitor callback, with the state it was shown. */
  datatype VisitEvent<D> =
    | BlockStart(state: D, block: BlockId)
    | StatementBefore(state: D, statement: Statement, location: Location)
    | StatementAfter(state: D, statement: Statement, location: Location)
    | TerminatorBefore(state: D, terminator: Terminator, location: Location)
    | TerminatorAfter(state: D, terminator: Terminator, location: Location)
    | BlockEnd(state: D, block: BlockId)

  /** The replayed state after the first `k` statements of `block`. */
  function ReplayState<D>(r: Results<D>, block: BasicBlock, k: nat): D
    requires k <= |block.statements|
    decreases k
  {
    if k == 0 then r.copyOfBlockState(block)
    else
      var statement, location := block.statements[k - 1], Location(block.id, k - 1);
      var before := r.reconstructBeforeStatementEffect(ReplayState(r, block, k - 1), statement, location);
      r.reconstructStatementEffect(before, statement, location)
  }

  /** The two callbacks of each of the first `k` statements of `block`. */
  function StatementEvents<D>(r: Results<D>, block: BasicBlock, k: nat): seq<VisitEvent<D>>
    requires k <= |block.statements|
    decreases k
  {
    if k == 0 then []
    else
      var statement, location := block.statements[k - 1], Location(block.id, k - 1);
      var before := r.reconstructBeforeStatementEffect(ReplayState(r, block, k - 1), statement, location);
      StatementEvents(r, block, k - 1)
        + [StatementBefore(before, statement, location),
           StatementAfter(r.reconstructStatementEffect(before, statement, location), statement, location)]
  }

  /** The whole callback trace of a block replay. */
  function ReplayEvents<D>(r: Results<D>, block: BasicBlock): seq<VisitEvent<D>>
  {
    var location := TerminatorLocation(block);
    var before := r.reconstructBeforeTerminatorEffect(ReplayState(r, block, |block.statements|), block.terminator, location);
    var after := r.reconstructTerminatorEffect(before, block.terminator, location);
    [BlockStart(r.copyOfBlockState(block), block.id)]
      + StatementEvents(r, block, |block.statements|)
      + [TerminatorBefore(before, block.terminator, location),
         TerminatorAfter(after, block.terminator, location),
         BlockEnd(after, block.id)]
  }

  /** Replays `block` on a copy of its stored state, returning the visitor callbacks in order. */
  method VisitResultsInBlock<D>(block: BasicBlock, r: Results<D>) returns (events: seq<VisitEvent<D>>)
    ensures events == ReplayEvents(r, block)
  {
    var state := r.copyOfBlockState(block);
    events := [BlockStart(state, block.id)];
    for index := 0 to |block.statements|
      invariant state == ReplayState(r, block, index)
      invariant events == [BlockStart(r.copyOfBlockState(block), block.id)] + StatementEvents(r, block, index)
    {
      var statement, location := block.statements[index], Location(block.id, index);
      state := r.reconstructBeforeStatementEffect(state, statement, location);
      events := events + [StatementBefore(state, statement, location)];
      state := r.reconstructStatementEffect(state, statement, location);
      events := events + [StatementAfter(state, statement, location)];
    }
    var terminatorLocation := Location(block.id, |block.statements|);
    state := r.reconstructBeforeTerminatorEffect(state, block.terminator, terminatorLocation);
    events := events + [TerminatorBefore(state, block.terminator, terminatorLocation)];
    state := r.reconstructTerminatorEffect(state, block.terminator, terminatorLocation);
    events := events + [TerminatorAfter(state, block.terminator, terminatorLocation)];
    events := events + [BlockEnd(state, block.id)];
  }

  lemma {:induction false} StatementEventsShape<D>(r: Results<D>, block: BasicBlock, k: nat)
    requires k <= |block.statements|
    ensures |StatementEvents(r, block, k)| == 2 * k
    ensures forall i :: 0 <= i < k ==>
      var before, after := StatementEvents(r, block, k)[2 * i], StatementEvents(r, block, k)[2 * i + 1];
      && before == StatementBefore(before.state, block.statements[i], Location(block.id, i))
      && after == StatementAfter(
           r.reconstructStatementEffect(before.state, block.statements[i], Location(block.id, i)),
           block.statements[i], Location(block.id, i))
  {
    if k > 0 {
      StatementEventsShape(r, block, k - 1);
      var prefix := StatementEvents(r, block, k - 1);
      forall i | 0 <= i < k - 1
        ensures StatementEvents(r, block, k)[2 * i] == prefix[2 * i]
        ensures StatementEvents(r, block, k)[2 * i + 1] == prefix[2 * i + 1]
      {
      }
    }
  }

  /**
   * A replay emits 2n+4 callbacks for a block of n statements: block start
   * with the copied stored state, then for each statement in index order a
   * before-effect callback, showing the before-step applied to the state
   * replayed so far, and an after-effect callback, showing the primary effect
   * applied to that, both at (block, index); then the same pair for the
   * terminator at (block, n), and block end last, showing the state left by
   * the terminator's effect.
   */
  lemma ReplayShape<D>(r: Results<D>, block: BasicBlock)
    ensures var events, n := ReplayEvents(r, block), |block.statements|;
      && |events| == 2 * n + 4
      && events[0] == BlockStart(r.copyOfBlockState(block), block.id)
      && (forall i :: 0 <= i < n ==>
            && events[2 * i + 1] == StatementBefore(
                 r.reconstructBeforeStatementEffect(ReplayState(r, block, i), block.statements[i], Location(block.id, i)),
                 block.statements[i], Location(block.id, i))
            && events[2 * i + 2] == StatementAfter(
                 r.reconstructStatementEffect(events[2 * i + 1].state, block.statements[i], Location(block.id, i)),
                 block.statements[i], Location(block.id, i)))
      && events[2 * n + 1] == TerminatorBefore(
           r.reconstructBeforeTerminatorEffect(ReplayState(r, block, n), block.terminator, Location(block.id, n)),
           block.terminator, Location(block.id, n))
      && events[2 * n + 2] == TerminatorAfter(
           r.reconstructTerminatorEffect(events[2 * n + 1].state, block.terminator, Location(block.id, n)),
           block.terminator, Location(block.id, n))
      && events[2 * n + 3] == BlockEnd(events[2 * n + 2].state, block.id)
  {
    var n := |block.statements|;
    StatementEventsShape(r, block, n);
    var events := ReplayEvents(r, block);
    var middle := StatementEvents(r, block, n);
    forall i | 0 <= i < n
      ensures events[2 * i + 1] == middle[2 * i] && events[2 * i + 2] == middle[2 * i + 1]
      ensures middle[2 * i].state ==
        r.reconstructBeforeStatementEffect(ReplayState(r, block, i), block.statements[i], Location(block.id, i))
    {
      StatementPairAt(r, block, n, i);
    }
  }

  /** Reconstruction steps that replay exactly the analysis: no-op before-steps and the analysis's own effects. */
  ghost predicate ReplaysAnalysis<D(!new)>(r: Results<D>, a: Analysis<D>)
  {
    && (forall s, st, loc :: r.reconstructBeforeStatementEffect(s, st, loc) == s)
    && (forall s, t, loc :: r.reconstructBeforeTerminatorEffect(s, t, loc) == s)
    && r.reconstructStatementEffect == a.applyStatementEffect
    && r.reconstructTerminatorEffect == a.applyTerminatorEffect
  }

  lemma {:induction false} ReplayStateIsEffect<D(!new)>(r: Results<D>, a: Analysis<D>, block: BasicBlock, k: nat)
    requires ReplaysAnalysis(r, a)
    requires k <= |block.statements|
    ensures ReplayState(r, block, k) == StatementsEffect(a, r.copyOfBlockState(block), block, k)
  {
    if k > 0 {
      ReplayStateIsEffect(r, a, block, k - 1);
    }
  }

  /**
   * Replay fidelity: when the before-steps do nothing and the reconstruction
   * steps are the analysis effects, the state after statement i's callback
   * is the state after applying the first i+1 statement effects, and the
   * state shown at block end is the block's exit state under
   * applyEffectsInBlock from the same stored state.
   */
  lemma ReplayFidelity<D(!new)>(r: Results<D>, a: Analysis<D>, block: BasicBlock)
    requires ReplaysAnalysis(r, a)
    ensures var events, n := ReplayEvents(r, block), |block.statements|;
      && |events| == 2 * n + 4
      && (forall i :: 0 <= i < n ==>
            && events[2 * i + 1].state == StatementsEffect(a, r.copyOfBlockState(block), block, i)
            && events[2 * i + 2].state == StatementsEffect(a, r.copyOfBlockState(block), block, i + 1))
      && events[2 * n + 1].state == StatementsEffect(a, r.copyOfBlockState(block), block, n)
      && events[2 * n + 3].state == BlockEffect(a, r.copyOfBlockState(block), block)
  {
    var n := |block.statements|;
    var entry := r.copyOfBlockState(block);
    ReplayShape(r, block);
    StatementEventsShape(r, block, n);
    ReplayStateIsEffect(r, a, block, n);
    forall i | 0 <= i < n
      ensures ReplayEvents(r, block)[2 * i + 1].state == StatementsEffect(a, entry, block, i)
      ensures ReplayEvents(r, block)[2 * i + 2].state == StatementsEffect(a, entry, block, i + 1)
    {
      ReplayStateIsEffect(r, a, block, i);
      ReplayStateIsEffect(r, a, block, i + 1);
      StatementPairAt(r, block, n, i);
    }
  }

  /**
   * The before-effect callback of statement i shows the before-step applied to
   * the state replayed through i statements; the after-effect callback shows
   * the state replayed through i+1 statements.
   */
  lemma {:induction false} StatementPairAt<D>(r: Results<D>, block: BasicBlock, k: nat, i: nat)
    requires i < k <= |block.statements|
    ensures |StatementEvents(r, block, k)| == 2 * k
    ensures StatementEvents(r, block, k)[2 * i].state ==
      r.reconstructBeforeStatementEffect(ReplayState(r, block, i), block.statements[i], Location(block.id, i))
    ensures StatementEvents(r, block, k)[2 * i + 1].state == ReplayState(r, block, i + 1)
  {
    if i < k - 1 {
      StatementPairAt(r, block, k - 1, i);
      assert StatementEvents(r, block, k)[2 * i] == StatementEvents(r, block, k - 1)[2 * i];
      assert StatementEvents(r, block, k)[2 * i + 1] == StatementEvents(r, block, k - 1)[2 * i + 1];
    } else if 0 < i {
      StatementPairAt(r, block, i, i - 1);
    }
  }

  /** Results of a counting analysis: every block starts at 0, and each primary effect adds 1. */
  function CounterResults(): Results<int>
  {
    Results(
      (block: BasicBlock) => 0,
      (n: int, s: Statement, loc: Location) => n,
      (n: int, s: Statement, loc: Location) => n + 1,
      (n: int, t: Terminator, loc: Location) => n,
      (n: int, t: Terminator, loc: Location) => n + 1)
  }

  /**
   * Replaying a one-statement block with the counter shows 0 before and 1
   * after the statement's effect, 1 and 2 around the terminator, and 2 at
   * block end.
   */
  lemma CounterReplay(id: BlockId, statement: Statement, terminator: Terminator)
    ensures var block := BasicBlock(id, [statement], terminator);
      ReplayEvents(CounterResults(), block) == [
        BlockStart(0, id),
        StatementBefore(0, statement, Location(id, 0)),
        StatementAfter(1, statement, Location(id, 0)),
        TerminatorBefore(1, terminator, Location(id, 1)),
        TerminatorAfter(2, terminator, Location(id, 1)),
        BlockEnd(2, id)]
  {
    var block := BasicBlock(id, [statement], terminator);
    assert ReplayState(CounterResults(), block, 1) == 1;
    assert StatementEvents(CounterResults(), block, 1) == [
      StatementBefore(0, statement, Location(id, 0)),
      StatementAfter(1, statement, Location(id, 0))];
  }
}
