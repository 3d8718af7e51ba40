/** The step machine of `Executor.run` as pure functions (src/sopvm/runtime/executor.py). */
module StepMachine {
  import opened Basics
  import opened Capabilities
  import opened Ir
  import opened RunLog
  import opened Gate
  import opened Plugins

  // ----- Handlers -------------------------------------------------------------------------

  /** What a step handler does next: request a tool, return a state, or raise. */
  datatype Act = Request(cap: Token, args: Args) | Return(state: StepState) | Raise

  /** A step handler. Each next act may depend on everything the executor has executed, on the node,
      and on the replies so far in this step, so every run of a stateful or randomised handler is a
      run of some handler of this type. `patience` bounds the requests of one step. */
  datatype RawHandler = Handler(
    act: (History, IrNode, seq<Exchange>) -> Act,
    patience: (History, IrNode) -> nat)
  {
    ghost predicate Answers() {
      forall past, node, exchanges :: |exchanges| >= patience(past, node) ==> !act(past, node, exchanges).Request?
    }
  }

  type StepHandler = h: RawHandler | h.Answers() ghost witness Handler((p, n, x) => Return(DONE), (p, n) => 0)

  /** What stays fixed while an executor runs. */
  datatype Machine = Machine(program: CompiledProgram, handler: StepHandler, index: Option<Index>, syn: Syntax)

  /** What an executor carries from step to step and, since `run` resets none of it, from run to run. */
  datatype Memory = Memory(
    counts: map<string, int>,
    violation: Option<Violation>,
    trace: seq<Event>,
    history: History)

  const FRESH := Memory(map[], None, [], [])

  // ----- One tool request -----------------------------------------------------------------

  datatype Call = Call(decision: Decision, reply: Reply, violation: Option<Violation>, events: seq<Event>)

  /** `request_tool`: the gate decides first, and only a granted request is routed to a provider. */
  function RequestTool(
      m: Machine, id: string, node: IrNode, past: History, exchanges: seq<Exchange>,
      cap: Token, args: Args, latched: Option<Violation>)
    : Call
  {
    match Enforce(m.syn, id, cap, node)
    case Err(e) => Call(Unreadable, Threw(BadText(e)), latched, [])
    case Ok(Some(v)) =>
      Call(Refused, Failure(CapabilityDenied(id, cap.raw)), Some(v), [CapabilityRefused(id, cap, v.paged)])
    case Ok(None) =>
      Call(Granted, Route(m.syn, m.index, past, exchanges, cap, args), latched, [CapabilityGranted(id, cap)])
  }

  // ----- One step -------------------------------------------------------------------------

  datatype Dialogue = Dialogue(
    exchanges: seq<Exchange>, returned: Option<StepState>, violation: Option<Violation>, events: seq<Event>)

  function AfterCall(d: Dialogue, cap: Token, args: Args, call: Call): Dialogue {
    Dialogue(d.exchanges + [Exchange(cap, args, call.decision, call.reply)], None, call.violation, d.events + call.events)
  }

  /** The handler's side of a step, from the dialogue so far to its return. */
  function Talk(m: Machine, id: string, node: IrNode, past: History, d: Dialogue): Dialogue
    decreases m.handler.patience(past, node) - |d.exchanges|
  {
    match m.handler.act(past, node, d.exchanges)
    case Return(s) => d.(returned := Some(s))
    case Raise => d.(returned := None)
    case Request(cap, args) =>
      Talk(m, id, node, past,
           AfterCall(d, cap, args, RequestTool(m, id, node, past, d.exchanges, cap, args, d.violation)))
  }

  function Opening(violation: Option<Violation>): Dialogue {
    Dialogue([], None, violation, [])
  }

  function CountOf(counts: map<string, int>, id: string): int {
    if id in counts then counts[id] else 0
  }

  function EdgeKey(state: StepState): string {
    if state == DONE then ON_SUCCESS else ON_FAILURE
  }

  /** How a step is left on its `visit`-th counted visit. */
  function ExitOf(id: string, node: IrNode, visit: int, state: StepState): Exit {
    if state == DENIED then Finished(DENIED)
    else if node.terminal then Finished(state)
    else if node.loop.Some? && visit >= node.loop.value then
      if node.onLimit.Some? then ToLimit(node.onLimit.value) else Aborted(LoopWithoutLimitEdge(id))
    else if EdgeKey(state) in node.edges then ToResult(node.edges[EdgeKey(state)])
    else Aborted(MissingEdge(id, EdgeKey(state)))
  }

  function CompletionEvent(id: string, state: StepState): Event {
    if state == FAILED then StepFailed(id, state) else StepCompleted(id, state)
  }

  /** Whether leaving a step in this state counts as a loop iteration. */
  predicate Counts(node: IrNode, state: StepState) {
    state != DENIED && !node.terminal && node.loop.Some?
  }

  /** What a step leaves behind after the dialogue `d`. */
  function Concluded(id: string, node: IrNode, mem: Memory, d: Dialogue): Memory {
    var begun := mem.trace + [StepStarted(id)] + d.events;
    match d.returned
    case None =>
      var record := StepRecord(id, d.exchanges, None, None, Aborted(HandlerRaised(id)));
      Memory(mem.counts, d.violation, begun, mem.history + [record])
    case Some(returned) =>
      var state := if d.violation.Some? then DENIED else returned;
      var visit := CountOf(mem.counts, id) + 1;
      var counts := if Counts(node, state) then mem.counts[id := visit] else mem.counts;
      var exit := ExitOf(id, node, visit, state);
      var record := StepRecord(id, d.exchanges, Some(returned), Some(state), exit);
      var closing := [CompletionEvent(id, state)] + if exit.Finished? then [RunCompleted(state)] else [];
      Memory(counts, d.violation, begun + closing, mem.history + [record])
  }

  function Step(m: Machine, id: string, mem: Memory): Memory
    requires m.program.Has(id)
  {
    var node := m.program.Node(id);
    Concluded(id, node, mem, Talk(m, id, node, mem.history, Opening(mem.violation)))
  }

  /** The record that the latest step left. */
  function LastRecord(mem: Memory): StepRecord
    requires mem.history != []
  {
    mem.history[|mem.history| - 1]
  }

  // ----- Runs -----------------------------------------------------------------------------

  datatype RunOutcome = RunOutcome(mem: Memory, path: seq<string>, result: Result<RunResult, ExecutorError>)

  /** From the arrival at `id` to the end of the run, with at most `fuel` more steps. */
  function Run(m: Machine, id: string, mem: Memory, fuel: nat, path: seq<string>): RunOutcome
    decreases fuel
  {
    if !m.program.Has(id) then RunOutcome(mem, path, Err(StepNotFound(id)))
    else
      var path' := path + [id];
      if fuel == 0 then RunOutcome(mem, path', Err(StepLimitExceeded))
      else
        var mem' := Step(m, id, mem);
        match LastRecord(mem').exit
        case ToResult(next) => Run(m, next, mem', fuel - 1, path')
        case ToLimit(next) => Run(m, next, mem', fuel - 1, path')
        case Aborted(e) => RunOutcome(mem', path', Err(e))
        case Finished(s) =>
          RunOutcome(mem', path', Ok(RunResult(s, path', if s == DENIED then mem'.violation else None)))
  }

  // ----- Start-up validation --------------------------------------------------------------

  function NodeTampering(syn: Syntax, id: string, paged: seq<string>, policy: seq<Token>): Option<ExecutorError> {
    if paged == [] then None
    else match syn.parse(paged[0])
      case Err(e) => Some(BadPagedCapability(e))
      case Ok(token) =>
        if Allowed(syn, token, policy) then NodeTampering(syn, id, paged[1..], policy)
        else Some(IrTampering(id, paged[0]))
  }

  /** `_validate_paged_capabilities` over the nodes `ids`: the first paged entry that does not parse or
      that no policy entry allows. */
  function Tampering(syn: Syntax, p: CompiledProgram, ids: seq<string>, policy: seq<Token>): Option<ExecutorError>
    requires forall id | id in ids :: p.Has(id)
  {
    if ids == [] then None
    else match NodeTampering(syn, ids[0], p.Node(ids[0]).paged, policy)
      case Some(e) => Some(e)
      case None => Tampering(syn, p, ids[1..], policy)
  }

  function Fuel(maxSteps: int): nat {
    if maxSteps < 0 then 0 else maxSteps
  }

  /** One call of `run`. */
  function Execute(m: Machine, policy: Option<seq<Token>>, maxSteps: int, mem: Memory): RunOutcome {
    if m.program.irVersion != IR_VERSION then
      RunOutcome(mem, [], Err(UnsupportedIrVersion(m.program.irVersion)))
    else if policy.Some? && Tampering(m.syn, m.program, m.program.nodes.keys, policy.value).Some? then
      RunOutcome(mem, [], Err(Tampering(m.syn, m.program, m.program.nodes.keys, policy.value).value))
    else
      Run(m, m.program.entry, mem.(trace := mem.trace + [RunStarted]), Fuel(maxSteps), [])
  }

  // ----- Validation -----------------------------------------------------------------------

  /** Every paged entry of the program parses and is allowed by the policy. */
  predicate Untampered(syn: Syntax, p: CompiledProgram, policy: seq<Token>) {
    forall id | id in p.nodes.values :: Sound(syn, p.nodes.values[id].paged, policy)
  }

  predicate Sound(syn: Syntax, paged: seq<string>, policy: seq<Token>) {
    forall c | c in paged :: syn.parse(c).Ok? && Allowed(syn, syn.parse(c).value, policy)
  }

  /** Entry `k` of a step's paged list is the first at fault, and `e` says what is wrong with it. */
  ghost predicate FirstFault(syn: Syntax, id: string, paged: seq<string>, policy: seq<Token>, k: int, e: ExecutorError) {
    && 0 <= k < |paged| && Sound(syn, paged[..k], policy)
    && match syn.parse(paged[k])
       case Err(g) => e == BadPagedCapability(g)
       case Ok(token) => !Allowed(syn, token, policy) && e == IrTampering(id, paged[k])
  }

  lemma {:induction false} NodeIsSound(syn: Syntax, id: string, paged: seq<string>, policy: seq<Token>)
    ensures NodeTampering(syn, id, paged, policy).None? <==> Sound(syn, paged, policy)
  {
    if paged != [] {
      NodeIsSound(syn, id, paged[1..], policy);
      assert paged == [paged[0]] + paged[1..];
      assert paged[0] in paged;
    }
  }

  lemma {:induction false} NodeIsAtFault(syn: Syntax, id: string, paged: seq<string>, policy: seq<Token>, e: ExecutorError)
    returns (k: nat)
    requires NodeTampering(syn, id, paged, policy) == Some(e)
    ensures FirstFault(syn, id, paged, policy, k, e)
  {
    if syn.parse(paged[0]).Err? || !Allowed(syn, syn.parse(paged[0]).value, policy) {
      return 0;
    }
    k := NodeIsAtFault(syn, id, paged[1..], policy, e);
    assert paged[..k + 1] == [paged[0]] + paged[1..][..k];
    k := k + 1;
  }

  /** Node `n` is the first, in dictionary order, that has a paged entry at fault. */
  ghost predicate FirstFaulty(syn: Syntax, p: CompiledProgram, ids: seq<string>, policy: seq<Token>, n: int, e: ExecutorError)
    requires forall id | id in ids :: p.Has(id)
  {
    && 0 <= n < |ids|
    && (forall i | 0 <= i < n :: Sound(syn, p.Node(ids[i]).paged, policy))
    && exists k :: FirstFault(syn, ids[n], p.Node(ids[n]).paged, policy, k, e)
  }

  lemma FaultInLonger(syn: Syntax, p: CompiledProgram, ids: seq<string>, policy: seq<Token>, n: int, e: ExecutorError)
    requires ids != [] && forall id | id in ids :: p.Has(id)
    requires Sound(syn, p.Node(ids[0]).paged, policy) && FirstFaulty(syn, p, ids[1..], policy, n, e)
    ensures FirstFaulty(syn, p, ids, policy, n + 1, e)
  {
    forall i | 0 <= i < n + 1
      ensures Sound(syn, p.Node(ids[i]).paged, policy)
    {
      if i > 0 {
        assert ids[1..][i - 1] == ids[i];
      }
    }
    assert ids[1..][n] == ids[n + 1];
  }

  lemma {:induction false} NodesAreSound(syn: Syntax, p: CompiledProgram, ids: seq<string>, policy: seq<Token>)
    requires forall id | id in ids :: p.Has(id)
    ensures Tampering(syn, p, ids, policy).None? <==> forall id | id in ids :: Sound(syn, p.Node(id).paged, policy)
  {
    if ids != [] {
      NodeIsSound(syn, ids[0], p.Node(ids[0]).paged, policy);
      NodesAreSound(syn, p, ids[1..], policy);
      assert ids == [ids[0]] + ids[1..];
      assert ids[0] in ids;
    }
  }

  lemma {:induction false} NodesAreAtFault(
      syn: Syntax, p: CompiledProgram, ids: seq<string>, policy: seq<Token>, e: ExecutorError)
    returns (n: nat)
    requires forall id | id in ids :: p.Has(id)
    requires Tampering(syn, p, ids, policy) == Some(e)
    ensures FirstFaulty(syn, p, ids, policy, n, e)
  {
    if NodeTampering(syn, ids[0], p.Node(ids[0]).paged, policy) == Some(e) {
      var k := NodeIsAtFault(syn, ids[0], p.Node(ids[0]).paged, policy, e);
      return 0;
    }
    NodeIsSound(syn, ids[0], p.Node(ids[0]).paged, policy);
    n := NodesAreAtFault(syn, p, ids[1..], policy, e);
    FaultInLonger(syn, p, ids, policy, n, e);
    n := n + 1;
  }

  /** A run starts exactly on the programs whose paged entries all stand under the policy; otherwise the
      error is that of the first entry, of the first node in dictionary order, that does not. */
  lemma ValidationExactly(syn: Syntax, p: CompiledProgram, policy: seq<Token>)
    ensures Tampering(syn, p, p.nodes.keys, policy).None? <==> Untampered(syn, p, policy)
    ensures forall e | Tampering(syn, p, p.nodes.keys, policy) == Some(e) ::
              exists n :: FirstFaulty(syn, p, p.nodes.keys, policy, n, e)
  {
    NodesAreSound(syn, p, p.nodes.keys, policy);
    assert Untampered(syn, p, policy) <==> forall id | id in p.nodes.keys :: Sound(syn, p.Node(id).paged, policy);
    if Tampering(syn, p, p.nodes.keys, policy).Some? {
      var n := NodesAreAtFault(syn, p, p.nodes.keys, policy, Tampering(syn, p, p.nodes.keys, policy).value);
    }
  }

  // ----- The invariant principle ------------------------------------------------------------

  /** A run's arrival at a step. */
  datatype Spot = Spot(id: string, mem: Memory, path: seq<string>)

  function Next(exit: Exit): Option<string> {
    match exit
    case ToResult(next) => Some(next)
    case ToLimit(next) => Some(next)
    case _ => None
  }

  /** Whether the step at this arrival is left along an edge. */
  predicate Moves(m: Machine, s: Spot) {
    m.program.Has(s.id) && Next(LastRecord(Step(m, s.id, s.mem)).exit).Some?
  }

  function Arrive(m: Machine, s: Spot): Spot
    requires Moves(m, s)
  {
    var mem' := Step(m, s.id, s.mem);
    Spot(Next(LastRecord(mem').exit).value, mem', s.path + [s.id])
  }

  /** How a run ends at an arrival from which it does not move on. */
  function EndOf(m: Machine, s: Spot, left: nat): RunOutcome
    requires left == 0 || !Moves(m, s)
  {
    if !m.program.Has(s.id) then RunOutcome(s.mem, s.path, Err(StepNotFound(s.id)))
    else
      var path := s.path + [s.id];
      if left == 0 then RunOutcome(s.mem, path, Err(StepLimitExceeded))
      else
        var mem' := Step(m, s.id, s.mem);
        match LastRecord(mem').exit
        case Aborted(e) => RunOutcome(mem', path, Err(e))
        case Finished(d) => RunOutcome(mem', path, Ok(RunResult(d, path, if d == DENIED then mem'.violation else None)))
  }

  ghost predicate Kept(m: Machine, inv: Spot -> bool) {
    forall s | inv(s) && Moves(m, s) :: inv(Arrive(m, s))
  }

  /** What holds on arrival and is kept by moving on holds where the run ends. */
  lemma {:induction false} RunInduction(m: Machine, s: Spot, fuel: nat, inv: Spot -> bool) returns (last: Spot, left: nat)
    requires inv(s) && Kept(m, inv)
    ensures inv(last) && (left == 0 || !Moves(m, last))
    ensures Run(m, s.id, s.mem, fuel, s.path) == EndOf(m, last, left)
    ensures |last.path| + left == |s.path| + fuel
    decreases fuel
  {
    if fuel == 0 || !Moves(m, s) {
      last, left := s, fuel;
    } else {
      last, left := RunInduction(m, Arrive(m, s), fuel - 1, inv);
    }
  }

  function Start(m: Machine, mem: Memory): Spot {
    Spot(m.program.entry, mem.(trace := mem.trace + [RunStarted]), [])
  }

  /** Whether a call of `run` gets past the version check and the validation. */
  predicate Starts(m: Machine, policy: Option<seq<Token>>) {
    && m.program.irVersion == IR_VERSION
    && (policy.Some? ==> Tampering(m.syn, m.program, m.program.nodes.keys, policy.value).None?)
  }

  /** The principle for a whole call of `run` that starts. */
  lemma ExecuteInduction(m: Machine, policy: Option<seq<Token>>, maxSteps: int, mem: Memory, inv: Spot -> bool)
    returns (last: Spot, left: nat)
    requires Starts(m, policy) && inv(Start(m, mem)) && Kept(m, inv)
    ensures inv(last) && (left == 0 || !Moves(m, last))
    ensures Execute(m, policy, maxSteps, mem) == EndOf(m, last, left)
    ensures |last.path| + left == Fuel(maxSteps)
  {
    last, left := RunInduction(m, Start(m, mem), Fuel(maxSteps), inv);
  }

  /** A call that does not start says why, and changes nothing. */
  predicate StartError(e: ExecutorError) {
    e.UnsupportedIrVersion? || e.BadPagedCapability? || e.IrTampering?
  }

  lemma NotStarted(m: Machine, policy: Option<seq<Token>>, maxSteps: int, mem: Memory)
    requires !Starts(m, policy)
    ensures var r := Execute(m, policy, maxSteps, mem);
            r.mem == mem && r.path == [] && r.result.Err? && StartError(r.result.error)
  {
    if m.program.irVersion == IR_VERSION {
      ValidationExactly(m.syn, m.program, policy.value);
    }
  }

  // ----- One step of a run ------------------------------------------------------------------

  lemma StepAbortsForItsOwnReason(m: Machine, id: string, mem: Memory)
    requires m.program.Has(id)
    ensures LastRecord(Step(m, id, mem)).exit != Aborted(StepLimitExceeded)
    ensures !LastRecord(Step(m, id, mem)).exit.Aborted? || !LastRecord(Step(m, id, mem)).exit.error.StepNotFound?
  {}

  lemma RunMovesOn(m: Machine, s: Spot, fuel: nat)
    requires Moves(m, s) && fuel > 0
    ensures var t := Arrive(m, s);
            Run(m, s.id, s.mem, fuel, s.path) == Run(m, t.id, t.mem, fuel - 1, t.path)
  {}

  lemma RunAtLimit(m: Machine, s: Spot)
    requires m.program.Has(s.id)
    ensures Run(m, s.id, s.mem, 0, s.path).result == Err(StepLimitExceeded)
  {}

  lemma RunEnds(m: Machine, s: Spot, fuel: nat)
    requires m.program.Has(s.id) && !Moves(m, s) && fuel > 0
    ensures Run(m, s.id, s.mem, fuel, s.path) == EndOf(m, s, 1)
    ensures EndOf(m, s, 1).result != Err(StepLimitExceeded)
  {
    StepAbortsForItsOwnReason(m, s.id, s.mem);
  }

  // ----- Fuel -----------------------------------------------------------------------------

  /** Where `n` unlimited steps lead; `None` when the run is over before. */
  function After(m: Machine, s: Spot, n: nat): Option<Spot>
    decreases n
  {
    if n == 0 then Some(s) else if Moves(m, s) then After(m, Arrive(m, s), n - 1) else None
  }

  /** `goal` is where the run from here ends with what is left of `fuel` at a path of this length. */
  ghost predicate Heads(m: Machine, goal: RunOutcome, fuel: nat, s: Spot) {
    |s.path| <= fuel && Run(m, s.id, s.mem, fuel - |s.path|, s.path) == goal
  }

  lemma MoveHeads(m: Machine, goal: RunOutcome, fuel: nat, s: Spot)
    requires Heads(m, goal, fuel, s) && Moves(m, s) && goal.result != Err(StepLimitExceeded)
    ensures Heads(m, goal, fuel, Arrive(m, s))
  {
    if |s.path| < fuel {
      RunMovesOn(m, s, fuel - |s.path|);
    } else {
      RunAtLimit(m, s);
    }
  }

  lemma HeadsToEnd(m: Machine, goal: RunOutcome, fuel: nat, s: Spot, left: nat)
    requires Heads(m, goal, fuel, s) && goal.result != Err(StepLimitExceeded)
    requires left >= fuel - |s.path| && (left == 0 || !Moves(m, s))
    ensures EndOf(m, s, left) == goal
  {
    if m.program.Has(s.id) {
      RunEnds(m, s, fuel - |s.path|);
    }
  }

  lemma LargerFuelAgrees(m: Machine, s: Spot, fuel: nat, more: nat)
    requires fuel <= more && Run(m, s.id, s.mem, fuel, s.path).result != Err(StepLimitExceeded)
    ensures Run(m, s.id, s.mem, more, s.path) == Run(m, s.id, s.mem, fuel, s.path)
  {
    var goal, all := Run(m, s.id, s.mem, fuel, s.path), |s.path| + fuel;
    forall t | Heads(m, goal, all, t) && Moves(m, t) {
      MoveHeads(m, goal, all, t);
    }
    var last, left := RunInduction(m, s, more, (t: Spot) => Heads(m, goal, all, t));
    HeadsToEnd(m, goal, all, last, left);
  }

  lemma {:induction false} FuelRunsOutExactly(m: Machine, s: Spot, fuel: nat)
    ensures Run(m, s.id, s.mem, fuel, s.path).result == Err(StepLimitExceeded) <==>
              After(m, s, fuel).Some? && m.program.Has(After(m, s, fuel).value.id)
    decreases fuel
  {
    if fuel > 0 && m.program.Has(s.id) {
      if Moves(m, s) {
        RunMovesOn(m, s, fuel);
        FuelRunsOutExactly(m, Arrive(m, s), fuel - 1);
      } else {
        RunEnds(m, s, fuel);
      }
    }
  }

  /** The step limit is only fuel: a run that stays within it is the same under any larger limit, and
      a run exceeds it exactly when the unlimited run still has a step to execute after that many. */
  lemma StepLimitIsFuel(m: Machine, s: Spot, fuel: nat, more: nat)
    requires fuel <= more
    ensures Run(m, s.id, s.mem, fuel, s.path).result != Err(StepLimitExceeded) ==>
              Run(m, s.id, s.mem, more, s.path) == Run(m, s.id, s.mem, fuel, s.path)
    ensures Run(m, s.id, s.mem, fuel, s.path).result == Err(StepLimitExceeded) <==>
              After(m, s, fuel).Some? && m.program.Has(After(m, s, fuel).value.id)
  {
    FuelRunsOutExactly(m, s, fuel);
    if Run(m, s.id, s.mem, fuel, s.path).result != Err(StepLimitExceeded) {
      LargerFuelAgrees(m, s, fuel, more);
    }
  }

  /** The same for a whole call of `run`. */
  lemma MaxStepsIsFuel(m: Machine, policy: Option<seq<Token>>, maxSteps: int, more: int, mem: Memory)
    requires maxSteps <= more
    ensures Execute(m, policy, maxSteps, mem).result != Err(StepLimitExceeded) ==>
              Execute(m, policy, more, mem) == Execute(m, policy, maxSteps, mem)
    ensures Starts(m, policy) ==>
              (Execute(m, policy, maxSteps, mem).result == Err(StepLimitExceeded) <==>
                 var reached := After(m, Start(m, mem), Fuel(maxSteps));
                 reached.Some? && m.program.Has(reached.value.id))
  {
    StepLimitIsFuel(m, Start(m, mem), Fuel(maxSteps), Fuel(more));
  }

  // ----- The step limit ---------------------------------------------------------------------

  lemma AddsOneRecord(m: Machine, s: Spot)
    requires m.program.Has(s.id)
    ensures |Step(m, s.id, s.mem).history| == |s.mem.history| + 1
  {}

  /** How far `max_steps` lets a run go, exactly. A call executes at most that many steps, and none if it is
      not positive; it is over the limit exactly when it starts and the unlimited run still has a step to
      execute after that many; and it has then executed that many, and has the next one on its path. */
  lemma StepLimitExactly(m: Machine, policy: Option<seq<Token>>, maxSteps: int, mem: Memory)
    ensures var r := Execute(m, policy, maxSteps, mem);
            var executed := |r.mem.history| - |mem.history|;
            && 0 <= executed && (executed <= maxSteps || executed == 0)
            && (r.result == Err(StepLimitExceeded) ==>
                  && executed == (if maxSteps > 0 then maxSteps else 0)
                  && |r.path| == executed + 1)
            && (r.result.Ok? ==> |r.path| == executed)
    ensures maxSteps >= 0 ==>
              (Execute(m, policy, maxSteps, mem).result == Err(StepLimitExceeded) <==>
                 && Starts(m, policy)
                 && var reached := After(m, Start(m, mem), maxSteps);
                    reached.Some? && m.program.Has(reached.value.id))
    ensures maxSteps <= 0 ==>
              (Execute(m, policy, maxSteps, mem).result == Err(StepLimitExceeded) <==>
                 Starts(m, policy) && m.program.Has(m.program.entry))
  {
    if Starts(m, policy) {
      MaxStepsIsFuel(m, policy, maxSteps, maxSteps, mem);
      forall s: Spot | |s.mem.history| == |mem.history| + |s.path| && m.program.Has(s.id) {
        AddsOneRecord(m, s);
      }
      var last, left := ExecuteInduction(
        m, policy, maxSteps, mem, (s: Spot) => |s.mem.history| == |mem.history| + |s.path|);
      if m.program.Has(last.id) {
        StepAbortsForItsOwnReason(m, last.id, last.mem);
      }
    } else {
      NotStarted(m, policy, maxSteps, mem);
    }
  }

  /** The n-th arrival of the unlimited run comes after n executed steps. */
  lemma {:induction false} AfterExecutes(m: Machine, s: Spot, n: nat)
    requires After(m, s, n).Some?
    ensures |After(m, s, n).value.mem.history| == |s.mem.history| + n && |After(m, s, n).value.path| == |s.path| + n
    decreases n
  {
    if n > 0 {
      AddsOneRecord(m, s);
      AfterExecutes(m, Arrive(m, s), n - 1);
    }
  }

  // ----- Not starting ------------------------------------------------------------------------

  lemma StartedFailsOtherwise(m: Machine, policy: Option<seq<Token>>, maxSteps: int, mem: Memory)
    requires Starts(m, policy)
    ensures var r := Execute(m, policy, maxSteps, mem).result; r.Err? ==> !StartError(r.error)
  {
    var last, left := ExecuteInduction(m, policy, maxSteps, mem, (s: Spot) => true);
  }

  lemma TamperedFailsAtFault(m: Machine, policy: seq<Token>, maxSteps: int, mem: Memory)
    requires m.program.irVersion == "0.1" && !Untampered(m.syn, m.program, policy)
    ensures var r := Execute(m, Some(policy), maxSteps, mem).result;
            r.Err? && exists n :: FirstFaulty(m.syn, m.program, m.program.nodes.keys, policy, n, r.error)
  {
    ValidationExactly(m.syn, m.program, policy);
  }

  /** Why a call does not start, exactly: the IR is of another version than 0.1, or else the executor's own
      policy finds fault with it; an executor without a policy finds none. */
  lemma StartErrorExactly(m: Machine, policy: Option<seq<Token>>, maxSteps: int, mem: Memory)
    ensures var r := Execute(m, policy, maxSteps, mem).result;
            if m.program.irVersion != "0.1" then r == Err(UnsupportedIrVersion(m.program.irVersion))
            else if policy.Some? && !Untampered(m.syn, m.program, policy.value) then
              r.Err? && exists n :: FirstFaulty(m.syn, m.program, m.program.nodes.keys, policy.value, n, r.error)
            else r.Err? ==> !StartError(r.error)
  {
    if m.program.irVersion == "0.1" {
      if policy.Some? && !Untampered(m.syn, m.program, policy.value) {
        TamperedFailsAtFault(m, policy.value, maxSteps, mem);
      } else {
        if policy.Some? {
          ValidationExactly(m.syn, m.program, policy.value);
        }
        StartedFailsOtherwise(m, policy, maxSteps, mem);
      }
    }
  }
}
