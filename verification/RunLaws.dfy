/** Laws of whole runs: the log and the path, the loop budget, the denial latch. */
module RunLaws {
  import opened Basics
  import opened Capabilities
  import opened Ir
  import opened RunLog
  import opened StepMachine
  import opened StepLaws

  function IdsOf(h: History): (ids: seq<string>)
    ensures |ids| == |h| && forall i | 0 <= i < |h| :: ids[i] == h[i].id
  {
    seq(|h|, i requires 0 <= i < |h| => h[i].id)
  }

  lemma IdsOfMore(h: History, r: StepRecord)
    ensures IdsOf(h + [r]) == IdsOf(h) + [r.id]
  {}

  /** The records that a run has added to those of the memory it started from. */
  function Own(before: Memory, mem: Memory): History
    requires before.history <= mem.history
  {
    mem.history[|before.history|..]
  }

  lemma OwnOfMore(before: Memory, mem: Memory, mem': Memory, r: StepRecord)
    requires before.history <= mem.history && mem'.history == mem.history + [r]
    ensures before.history <= mem'.history && Own(before, mem') == Own(before, mem) + [r]
  {}

  // ----- The log follows the edges --------------------------------------------------------

  /** Record `i` of a run's own log is left as `ExitOf` says for its visit number: the visits counted
      before the run, and the occurrences of its step in the log so far. And the run moves where the
      record points. */
  ghost predicate Follows(m: Machine, counts: map<string, int>, h: History, i: nat)
    requires i < |h|
  {
    && m.program.Has(h[i].id)
    && h[i].state.Some? == h[i].returned.Some?
    && (if h[i].state.None? then h[i].exit == Aborted(HandlerRaised(h[i].id))
        else
          && (h[i].state == h[i].returned || h[i].state == Some(DENIED))
          && h[i].exit == ExitOf(h[i].id, m.program.Node(h[i].id),
                                 CountOf(counts, h[i].id) + Count(IdsOf(h)[..i + 1], h[i].id), h[i].state.value))
    && (i + 1 < |h| ==> Goes(h[i], h[i + 1].id))
  }

  /** The record is left for `next`, undenied. */
  predicate Goes(r: StepRecord, next: string) {
    Next(r.exit) == Some(next) && r.state == r.returned && r.state.Some?
  }

  /** Each loop counter is what it was before plus the occurrences of its step on the path. */
  ghost predicate CountedAlong(p: CompiledProgram, before: map<string, int>, path: seq<string>, now: map<string, int>) {
    forall x | p.Has(x) && !p.Node(x).terminal && p.Node(x).loop.Some? ::
      CountOf(now, x) == CountOf(before, x) + Count(path, x)
  }

  /** A run on arrival: its log follows the edges to here, and the loop counters count its path. */
  ghost predicate Arrived(m: Machine, before: Memory, s: Spot) {
    && before.history <= s.mem.history
    && var h := Own(before, s.mem);
    && s.path == IdsOf(h)
    && (forall i | 0 <= i < |h| :: Follows(m, before.counts, h, i))
    && (if h == [] then s.id == m.program.entry else Goes(LastRecord(s.mem), s.id))
    && CountedAlong(m.program, before.counts, s.path, s.mem.counts)
  }

  lemma FollowsInLonger(m: Machine, counts: map<string, int>, h: History, r: StepRecord, i: nat)
    requires i < |h| && Follows(m, counts, h, i)
    requires i + 1 == |h| ==> Goes(h[i], r.id)
    ensures Follows(m, counts, h + [r], i)
  {
    assert IdsOf(h + [r])[..i + 1] == IdsOf(h)[..i + 1];
  }

  lemma LastFollows(m: Machine, before: Memory, s: Spot)
    requires m.program.Has(s.id) && Arrived(m, before, s)
    ensures var h := Own(before, s.mem);
            Follows(m, before.counts, h + [LastRecord(Step(m, s.id, s.mem))], |h|)
  {
    StepLaw(m, s.id, s.mem);
    var h, r := Own(before, s.mem), LastRecord(Step(m, s.id, s.mem));
    IdsOfMore(h, r);
    assert IdsOf(h + [r])[..|h| + 1] == s.path + [s.id];
    assert (s.path + [s.id])[..|h|] == s.path;
  }

  lemma StepFollows(m: Machine, before: Memory, s: Spot)
    requires m.program.Has(s.id) && Arrived(m, before, s)
    ensures before.history <= Step(m, s.id, s.mem).history
    ensures var h := Own(before, Step(m, s.id, s.mem));
            && h != [] && IdsOf(h) == s.path + [s.id]
            && forall i | 0 <= i < |h| :: Follows(m, before.counts, h, i)
  {
    StepAddsRecord(m, s.id, s.mem);
    LastFollows(m, before, s);
    var h, r := Own(before, s.mem), LastRecord(Step(m, s.id, s.mem));
    OwnOfMore(before, s.mem, Step(m, s.id, s.mem), r);
    IdsOfMore(h, r);
    forall i | 0 <= i < |h|
      ensures Follows(m, before.counts, h + [r], i)
    {
      FollowsInLonger(m, before.counts, h, r, i);
    }
  }

  lemma MoveCounts(m: Machine, before: map<string, int>, s: Spot)
    requires CountedAlong(m.program, before, s.path, s.mem.counts) && Moves(m, s)
    ensures CountedAlong(m.program, before, Arrive(m, s).path, Arrive(m, s).mem.counts)
  {
    StepLaw(m, s.id, s.mem);
    MovingStep(m, s);
    assert (s.path + [s.id])[..|s.path|] == s.path;
  }

  lemma MoveKeepsArrived(m: Machine, before: Memory, s: Spot)
    requires Arrived(m, before, s) && Moves(m, s)
    ensures Arrived(m, before, Arrive(m, s))
  {
    StepFollows(m, before, s);
    MoveCounts(m, before.counts, s);
    MovingStep(m, s);
  }

  /** What the log and the path of a run say of each other. The step that exceeds the limit is on the
      path but leaves no record. */
  ghost predicate Logged(m: Machine, before: Memory, r: RunOutcome) {
    && before.history <= r.mem.history
    && var h := Own(before, r.mem);
    && (forall i | 0 <= i < |h| :: Follows(m, before.counts, h, i))
    && match r.result
       case Ok(rr) => r.path == IdsOf(h) && rr.path == r.path && h != [] && LastRecord(r.mem).exit == Finished(rr.finalState)
       case Err(StepNotFound(id)) =>
         && r.path == IdsOf(h) && !m.program.Has(id)
         && if h == [] then id == m.program.entry else Next(LastRecord(r.mem).exit) == Some(id)
       case Err(StepLimitExceeded) =>
         && r.path != [] && r.path[..|r.path| - 1] == IdsOf(h)
         && (h != [] ==> Goes(LastRecord(r.mem), r.path[|r.path| - 1]))
       case Err(e) => r.path == IdsOf(h) && h != [] && LastRecord(r.mem).exit == Aborted(e)
  }

  lemma LoggedAtEnd(m: Machine, before: Memory, s: Spot, left: nat)
    requires Arrived(m, before, s) && (left == 0 || !Moves(m, s))
    ensures Logged(m, before, EndOf(m, s, left))
  {
    assert (s.path + [s.id])[..|s.path|] == s.path;
    if m.program.Has(s.id) && left > 0 {
      StepFollows(m, before, s);
      StepAbortsForItsOwnReason(m, s.id, s.mem);
    }
  }

  lemma StartHasArrived(m: Machine, mem: Memory)
    ensures Arrived(m, mem, Start(m, mem))
  {}

  /** The log that a run adds is its path with what happened at each step, and it follows the edges,
      on an executor with any past. */
  lemma RunIsLogged(m: Machine, policy: Option<seq<Token>>, maxSteps: int, mem: Memory)
    requires Starts(m, policy)
    ensures Logged(m, mem, Execute(m, policy, maxSteps, mem))
  {
    StartHasArrived(m, mem);
    forall s | Arrived(m, mem, s) && Moves(m, s) {
      MoveKeepsArrived(m, mem, s);
    }
    var last, left := ExecuteInduction(m, policy, maxSteps, mem, (s: Spot) => Arrived(m, mem, s));
    LoggedAtEnd(m, mem, last, left);
  }

  // ----- How a run moves and ends -----------------------------------------------------------

  /** Whether the loop of a node, if it has one, is used up on its k-th visit. */
  predicate Exhausted(node: IrNode, k: int) {
    node.loop.Some? && k >= node.loop.value
  }

  /** How position `i` of a path is left. On its k-th visit, k being the visits counted before the run
      and the occurrences on the path up to there, a loop that is used up sends the run along
      `on_limit`, whatever the handler returned; otherwise the run takes the edge of the handler's verdict. */
  ghost predicate MovesByTheLaw(m: Machine, before: Memory, r: RunOutcome, i: nat)
    requires i + 1 < |r.path|
  {
    && m.program.Has(r.path[i])
    && before.history <= r.mem.history && i < |Own(before, r.mem)|
    && var node, record := m.program.Node(r.path[i]), Own(before, r.mem)[i];
    && record.id == r.path[i] && record.returned.Some? && !node.terminal
    && if Exhausted(node, CountOf(before.counts, r.path[i]) + Count(r.path[..i + 1], r.path[i])) then
         node.onLimit == Some(r.path[i + 1]) && record.exit == ToLimit(r.path[i + 1])
       else
         var key := EdgeKey(record.returned.value);
         key in node.edges && r.path[i + 1] == node.edges[key] && record.exit == ToResult(r.path[i + 1])
  }

  lemma LoggedMovesByTheLaw(m: Machine, before: Memory, r: RunOutcome, i: nat)
    requires Logged(m, before, r) && i + 1 < |r.path|
    ensures MovesByTheLaw(m, before, r, i)
  {
    var h := Own(before, r.mem);
    assert i < |h| && Follows(m, before.counts, h, i);
    assert r.path[..i + 1] == IdsOf(h)[..i + 1];
    assert r.path[i] == h[i].id;
    assert Next(h[i].exit) == Some(r.path[i + 1]);
  }

  /** The transition law, for every move of every run. */
  lemma MoveLaw(m: Machine, policy: Option<seq<Token>>, maxSteps: int, mem: Memory, i: nat)
    requires i + 1 < |Execute(m, policy, maxSteps, mem).path|
    ensures MovesByTheLaw(m, mem, Execute(m, policy, maxSteps, mem), i)
  {
    if !Starts(m, policy) {
      NotStarted(m, policy, maxSteps, mem);
    }
    RunIsLogged(m, policy, maxSteps, mem);
    LoggedMovesByTheLaw(m, mem, Execute(m, policy, maxSteps, mem), i);
  }

  /** Why a run is over: it was denied or came to a terminal step; or it failed, and then the error names
      the step at hand and its reason holds there. */
  ghost predicate EndsByTheLaw(m: Machine, before: Memory, r: RunOutcome) {
    && before.history <= r.mem.history
    && var h := Own(before, r.mem);
    match r.result
    case Ok(rr) =>
      && h != [] && m.program.Has(LastRecord(r.mem).id)
      && (rr.finalState == DENIED || m.program.Node(LastRecord(r.mem).id).terminal)
    case Err(StepNotFound(id)) =>
      && !m.program.Has(id)
      && if h == [] then id == m.program.entry else Next(LastRecord(r.mem).exit) == Some(id)
    case Err(HandlerRaised(id)) =>
      h != [] && LastRecord(r.mem).id == id && LastRecord(r.mem).returned.None?
    case Err(MissingEdge(id, key)) =>
      && h != [] && LastRecord(r.mem).id == id && m.program.Has(id) && LastRecord(r.mem).returned.Some?
      && !m.program.Node(id).terminal
      && !Exhausted(m.program.Node(id), CountOf(before.counts, id) + Count(r.path, id))
      && key == EdgeKey(LastRecord(r.mem).returned.value) && key !in m.program.Node(id).edges
    case Err(LoopWithoutLimitEdge(id)) =>
      && h != [] && LastRecord(r.mem).id == id && m.program.Has(id) && !m.program.Node(id).terminal
      && Exhausted(m.program.Node(id), CountOf(before.counts, id) + Count(r.path, id))
      && m.program.Node(id).onLimit.None?
    case Err(StepLimitExceeded) => true
    case Err(_) => false
  }

  lemma EndLaw(m: Machine, policy: Option<seq<Token>>, maxSteps: int, mem: Memory)
    requires Starts(m, policy)
    ensures EndsByTheLaw(m, mem, Execute(m, policy, maxSteps, mem))
  {
    RunIsLogged(m, policy, maxSteps, mem);
    LoggedEndsByTheLaw(m, mem, Execute(m, policy, maxSteps, mem));
  }

  /** The last record of a run is left for its visit number over the whole path. */
  lemma LastIsLeftByTheLaw(m: Machine, before: Memory, r: RunOutcome)
    requires Logged(m, before, r) && Own(before, r.mem) != []
    ensures var last, h := LastRecord(r.mem), Own(before, r.mem);
            && m.program.Has(last.id) && last.state.Some? == last.returned.Some?
            && (last.state.None? ==> last.exit == Aborted(HandlerRaised(last.id)))
            && (last.state.Some? ==>
                  && (last.state == last.returned || last.state == Some(DENIED))
                  && last.exit == ExitOf(last.id, m.program.Node(last.id),
                                         CountOf(before.counts, last.id) + Count(IdsOf(h), last.id), last.state.value))
  {
    var h := Own(before, r.mem);
    assert Follows(m, before.counts, h, |h| - 1);
    assert IdsOf(h)[..|h|] == IdsOf(h);
    assert h[|h| - 1] == LastRecord(r.mem);
  }

  lemma LoggedEndsByTheLaw(m: Machine, before: Memory, r: RunOutcome)
    requires Logged(m, before, r)
    ensures EndsByTheLaw(m, before, r)
  {
    if Own(before, r.mem) != [] {
      LastIsLeftByTheLaw(m, before, r);
    }
  }

  // ----- The loop budget over an executor's lifetime ---------------------------------------

  function ResultExits(h: History, id: string): nat {
    if h == [] then 0
    else
      var last := |h| - 1;
      ResultExits(h[..last], id) + if h[last].id == id && h[last].exit.ToResult? then 1 else 0
  }

  /** The edges of the verdict that a loop may still take. */
  function Allowance(node: IrNode, count: int): nat {
    if node.loop.Some? && !node.terminal && node.loop.value - 1 > count then node.loop.value - 1 - count else 0
  }

  /** Every loop's result exits so far, plus those it may still take, stay within max_iterations - 1. */
  ghost predicate WithinBudget(m: Machine, mem: Memory) {
    forall x | m.program.Has(x) && m.program.Node(x).loop.Some? && !m.program.Node(x).terminal ::
      && CountOf(mem.counts, x) >= 0
      && ResultExits(mem.history, x) + Allowance(m.program.Node(x), CountOf(mem.counts, x))
         <= Allowance(m.program.Node(x), 0)
  }

  lemma StepWithinBudget(m: Machine, id: string, mem: Memory)
    requires m.program.Has(id) && WithinBudget(m, mem)
    ensures WithinBudget(m, Step(m, id, mem))
  {
    StepLaw(m, id, mem);
    var mem' := Step(m, id, mem);
    assert mem'.history[..|mem'.history| - 1] == mem.history;
  }

  lemma ExecuteWithinBudget(m: Machine, policy: Option<seq<Token>>, maxSteps: int, mem: Memory)
    requires WithinBudget(m, mem)
    ensures WithinBudget(m, Execute(m, policy, maxSteps, mem).mem)
  {
    if Starts(m, policy) {
      forall s: Spot | WithinBudget(m, s.mem) && m.program.Has(s.id) {
        StepWithinBudget(m, s.id, s.mem);
      }
      var last, left := ExecuteInduction(m, policy, maxSteps, mem, (s: Spot) => WithinBudget(m, s.mem));
    } else {
      NotStarted(m, policy, maxSteps, mem);
    }
  }

  /** The memory after any number of `run` calls on one executor, each under its own limit. */
  function Lifetime(m: Machine, policy: Option<seq<Token>>, limits: seq<int>, mem: Memory): Memory
    decreases |limits|
  {
    if limits == [] then mem
    else Lifetime(m, policy, limits[1..], Execute(m, policy, limits[0], mem).mem)
  }

  lemma {:induction false} LifetimeWithinBudget(m: Machine, policy: Option<seq<Token>>, limits: seq<int>, mem: Memory)
    requires WithinBudget(m, mem)
    ensures WithinBudget(m, Lifetime(m, policy, limits, mem))
    decreases |limits|
  {
    if limits != [] {
      ExecuteWithinBudget(m, policy, limits[0], mem);
      LifetimeWithinBudget(m, policy, limits[1..], Execute(m, policy, limits[0], mem).mem);
    }
  }

  /** The visits that an executor has counted of a looping step: those that were neither denied nor
      raised out of. */
  function Visits(p: CompiledProgram, h: History, id: string): nat {
    if h == [] then 0
    else
      var last := h[|h| - 1];
      Visits(p, h[..|h| - 1], id) +
      if last.id == id && p.Has(id) && !p.Node(id).terminal && p.Node(id).loop.Some?
         && last.state.Some? && last.state != Some(DENIED) then 1 else 0
  }

  /** Record `i` is left as `ExitOf` says for its visit number, counted over everything executed so far. */
  ghost predicate LeftByTheLaw(p: CompiledProgram, h: History, i: nat)
    requires i < |h|
  {
    && p.Has(h[i].id)
    && match h[i].state
       case None => h[i].exit == Aborted(HandlerRaised(h[i].id))
       case Some(s) => h[i].exit == ExitOf(h[i].id, p.Node(h[i].id), Visits(p, h[..i], h[i].id) + 1, s)
  }

  /** The counters are the visits in the history, and every record is left by the law. */
  ghost predicate Accounted(p: CompiledProgram, mem: Memory) {
    && (forall x :: CountOf(mem.counts, x) == Visits(p, mem.history, x))
    && (forall i | 0 <= i < |mem.history| :: LeftByTheLaw(p, mem.history, i))
  }

  lemma LeftInLonger(p: CompiledProgram, h: History, r: StepRecord, i: nat)
    requires i < |h| && LeftByTheLaw(p, h, i)
    ensures LeftByTheLaw(p, h + [r], i)
  {
    assert (h + [r])[..i] == h[..i];
  }

  lemma StepIsAccounted(m: Machine, id: string, mem: Memory)
    requires m.program.Has(id) && Accounted(m.program, mem)
    ensures Accounted(m.program, Step(m, id, mem))
  {
    StepLaw(m, id, mem);
    var h, r := mem.history, LastRecord(Step(m, id, mem));
    assert (h + [r])[..|h|] == h;
    forall i | 0 <= i < |h|
      ensures LeftByTheLaw(m.program, h + [r], i)
    {
      LeftInLonger(m.program, h, r, i);
    }
    assert LeftByTheLaw(m.program, h + [r], |h|);
  }

  lemma ExecuteIsAccounted(m: Machine, policy: Option<seq<Token>>, maxSteps: int, mem: Memory)
    requires Accounted(m.program, mem)
    ensures Accounted(m.program, Execute(m, policy, maxSteps, mem).mem)
  {
    if Starts(m, policy) {
      forall s: Spot | Accounted(m.program, s.mem) && m.program.Has(s.id) {
        StepIsAccounted(m, s.id, s.mem);
      }
      var last, left := ExecuteInduction(m, policy, maxSteps, mem, (s: Spot) => Accounted(m.program, s.mem));
    } else {
      NotStarted(m, policy, maxSteps, mem);
    }
  }

  lemma {:induction false} LifetimeIsAccounted(m: Machine, policy: Option<seq<Token>>, limits: seq<int>, mem: Memory)
    requires Accounted(m.program, mem)
    ensures Accounted(m.program, Lifetime(m, policy, limits, mem))
    decreases |limits|
  {
    if limits != [] {
      ExecuteIsAccounted(m, policy, limits[0], mem);
      LifetimeIsAccounted(m, policy, limits[1..], Execute(m, policy, limits[0], mem).mem);
    }
  }

  /** The loop law of an executor's whole life. Over all its runs together, every step is left as
      `ExitOf` says for one more than the visits counted in everything executed before, whichever runs
      they belong to; and those visits are what the loop counters hold. */
  lemma LoopLawOverLifetime(m: Machine, policy: Option<seq<Token>>, limits: seq<int>)
    ensures Accounted(m.program, Lifetime(m, policy, limits, FRESH))
  {
    LifetimeIsAccounted(m, policy, limits, FRESH);
  }

  /** Over all runs of one executor together, a looping step is left along its result edges at most
      max_iterations - 1 times: the budget belongs to the executor, not to the run. */
  lemma LoopBudgetIsPerExecutor(m: Machine, policy: Option<seq<Token>>, limits: seq<int>, id: string)
    requires m.program.Has(id) && m.program.Node(id).loop.Some? && !m.program.Node(id).terminal
    ensures var exits := ResultExits(Lifetime(m, policy, limits, FRESH).history, id);
            exits <= m.program.Node(id).loop.value - 1 || exits == 0
  {
    assert WithinBudget(m, FRESH);
    LifetimeWithinBudget(m, policy, limits, FRESH);
  }

  // ----- The denial latch -----------------------------------------------------------------

  /** No request of the log was refused. */
  predicate NoDenials(h: History) {
    forall i | 0 <= i < |h| :: !Denials(h[i].exchanges)
  }

  /** Among the records of the run, refusals lie in the last one only. A result is DENIED with the last
      refused request when that record has a refusal, and otherwise the handler's own verdict without a
      violation. */
  ghost predicate LatchReported(m: Machine, before: Memory, r: RunOutcome) {
    && before.history <= r.mem.history
    && var h := Own(before, r.mem);
    && (h != [] ==> NoDenials(h[..|h| - 1]))
    && (r.result.Ok? ==>
          && h != []
          && var last := LastRecord(r.mem);
          && last.returned.Some?
          && if Denials(last.exchanges) then
               && m.program.Has(last.id)
               && r.result.value.finalState == DENIED
               && r.result.value.violation ==
                  Some(Violation(last.id, LastRefused(last.exchanges), Tokens(m.syn, m.program.Node(last.id).paged)))
             else
               && Some(r.result.value.finalState) == last.returned
               && r.result.value.violation == None)
  }

  /** On arrival nothing has been refused. */
  ghost predicate Undenied(before: Memory, s: Spot) {
    s.mem.violation.None? && before.history <= s.mem.history && NoDenials(Own(before, s.mem))
  }

  lemma MoveKeepsUndenied(m: Machine, before: Memory, s: Spot)
    requires Undenied(before, s) && Moves(m, s)
    ensures Undenied(before, Arrive(m, s))
  {
    StepAddsRecord(m, s.id, s.mem);
    MovingStep(m, s);
    OwnOfMore(before, s.mem, Arrive(m, s).mem, LastRecord(Arrive(m, s).mem));
  }

  lemma LatchReportedAtEnd(m: Machine, before: Memory, s: Spot, left: nat)
    requires Undenied(before, s) && (left == 0 || !Moves(m, s))
    ensures LatchReported(m, before, EndOf(m, s, left))
  {
    if m.program.Has(s.id) && left > 0 {
      StepLaw(m, s.id, s.mem);
      OwnOfMore(before, s.mem, Step(m, s.id, s.mem), LastRecord(Step(m, s.id, s.mem)));
      var h := Own(before, s.mem);
      assert (h + [LastRecord(Step(m, s.id, s.mem))])[..|h|] == h;
    }
  }

  /** On an executor that holds no violation every refusal of a run lies in its last step. A run that
      returns ends DENIED there, whatever the handler returned, and reports the last refused request;
      without a refusal it ends in the handler's last verdict and reports nothing. (What happens on an
      executor that does hold one is said by `ViolationOutlivesTheRun`.) */
  lemma DenialEndsTheRun(m: Machine, policy: Option<seq<Token>>, maxSteps: int, mem: Memory)
    requires mem.violation.None?
    ensures var r := Execute(m, policy, maxSteps, mem);
            LatchReported(m, mem, r) && (r.result.Ok? ==> r.result.value.path == IdsOf(Own(mem, r.mem)))
  {
    if Starts(m, policy) {
      assert Undenied(mem, Start(m, mem));
      forall s | Undenied(mem, s) && Moves(m, s) {
        MoveKeepsUndenied(m, mem, s);
      }
      var last, left := ExecuteInduction(m, policy, maxSteps, mem, (s: Spot) => Undenied(mem, s));
      LatchReportedAtEnd(m, mem, last, left);
      RunIsLogged(m, policy, maxSteps, mem);
    } else {
      NotStarted(m, policy, maxSteps, mem);
    }
  }

  lemma LatchedStepStops(m: Machine, s: Spot)
    requires s.mem.violation.Some?
    ensures !Moves(m, s)
  {
    if Moves(m, s) {
      MovingStep(m, s);
    }
  }

  /** The latch outlives the run. Once an executor holds a violation, every later `run` that starts and
      whose handler returns stops DENIED at the entry step, even when nothing is refused; it then
      reports the old violation. */
  lemma ViolationOutlivesTheRun(m: Machine, policy: Option<seq<Token>>, maxSteps: int, mem: Memory)
    requires mem.violation.Some?
    ensures var r := Execute(m, policy, maxSteps, mem);
            && r.mem.violation.Some?
            && |r.mem.history| <= |mem.history| + 1
            && (r.result.Ok? ==>
                  && r.result.value.finalState == DENIED
                  && r.result.value.path == [m.program.entry]
                  && r.result.value.violation == r.mem.violation
                  && r.mem.history != [] && r.mem.history == mem.history + [LastRecord(r.mem)]
                  && (!Denials(LastRecord(r.mem).exchanges) ==> r.mem.violation == mem.violation))
  {
    if Starts(m, policy) {
      var start := Start(m, mem);
      LatchedStepStops(m, start);
      if m.program.Has(start.id) {
        StepLaw(m, start.id, start.mem);
      }
      assert [] + [m.program.entry] == [m.program.entry];
    } else {
      NotStarted(m, policy, maxSteps, mem);
    }
  }
}
