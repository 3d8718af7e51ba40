/** The executor as the program has it: an object whose fields each run updates
    (src/sopvm/runtime/executor.py). */
module Executors {
  import opened Basics
  import opened Capabilities
  import opened Ir
  import opened RunLog
  import opened Gate
  import opened Plugins
  import opened StepMachine

  class Executor {
    const program: CompiledProgram
    const handler: StepHandler
    const registry: ProviderRegistry?
    const syn: Syntax
    const policy: Option<seq<Token>>
    const maxSteps: int

    var currentViolation: Option<Violation>
    var loopCounts: map<string, int>
    var trace: seq<Event>
    /** Everything executed so far: what the handler and the providers may have remembered. */
    var history: History

    constructor (program: CompiledProgram, handler: StepHandler, registry: ProviderRegistry?, syn: Syntax,
                 policy: Option<seq<Token>>, maxSteps: int)
      ensures Setup() == Machine(program, handler, IndexOf(registry), syn)
      ensures this.policy == policy && this.maxSteps == maxSteps
      ensures State() == FRESH
    {
      this.program, this.handler, this.registry, this.syn := program, handler, registry, syn;
      this.policy, this.maxSteps := policy, maxSteps;
      currentViolation, loopCounts, trace, history := None, map[], [], [];
    }

    function Setup(): Machine
      reads registry
    {
      Machine(program, handler, IndexOf(registry), syn)
    }

    function State(): Memory
      reads this
    {
      Memory(loopCounts, currentViolation, trace, history)
    }

    method Emit(e: Event)
      modifies this`trace
      ensures trace == old(trace) + [e]
    {
      trace := trace + [e];
    }

    method RequestTool(id: string, node: IrNode, exchanges: seq<Exchange>, cap: Token, args: Args)
      returns (decision: Decision, reply: Reply)
      modifies this`trace, this`currentViolation
      ensures var call := StepMachine.RequestTool(Setup(), id, node, history, exchanges, cap, args, old(currentViolation));
              && decision == call.decision && reply == call.reply
              && currentViolation == call.violation && trace == old(trace) + call.events
    {
      var verdict := Enforce(syn, id, cap, node);
      if verdict.Err? {
        return Unreadable, Threw(BadText(verdict.error));
      }
      if verdict.value.Some? {
        var violation := verdict.value.value;
        currentViolation := Some(violation);
        Emit(CapabilityRefused(id, cap, violation.paged));
        return Refused, Failure(CapabilityDenied(id, cap.raw));
      }
      Emit(CapabilityGranted(id, cap));
      decision := Granted;
      reply := RouteRequest(syn, registry, history, exchanges, cap, args);
    }

    /** `handler.execute(node, request_tool)`; `None` when the handler raises. */
    method ExecuteHandler(id: string, node: IrNode) returns (exchanges: seq<Exchange>, returned: Option<StepState>)
      modifies this`trace, this`currentViolation
      ensures var d := Talk(Setup(), id, node, history, Opening(old(currentViolation)));
              && exchanges == d.exchanges && returned == d.returned
              && currentViolation == d.violation && trace == old(trace) + d.events
    {
      exchanges := [];
      var act := handler.act(history, node, exchanges);
      ghost var events: seq<Event> := [];
      while act.Request?
        invariant act == handler.act(history, node, exchanges)
        invariant trace == old(trace) + events
        invariant Talk(Setup(), id, node, history, Dialogue(exchanges, None, currentViolation, events)) ==
                  Talk(Setup(), id, node, history, Opening(old(currentViolation)))
        decreases handler.patience(history, node) - |exchanges|
      {
        ghost var before := Dialogue(exchanges, None, currentViolation, events);
        ghost var call := StepMachine.RequestTool(Setup(), id, node, history, exchanges, act.cap, act.args, currentViolation);
        var decision, reply := RequestTool(id, node, exchanges, act.cap, act.args);
        exchanges := exchanges + [Exchange(act.cap, act.args, decision, reply)];
        events := events + call.events;
        assert Dialogue(exchanges, None, currentViolation, events) == AfterCall(before, act.cap, act.args, call);
        act := handler.act(history, node, exchanges);
      }
      return exchanges, if act.Return? then Some(act.state) else None;
    }

    method ValidatePagedCapabilities() returns (e: Option<ExecutorError>)
      ensures e == if policy.None? then None else Tampering(syn, program, program.nodes.keys, policy.value)
    {
      if policy.None? {
        return None;
      }
      var ids := program.nodes.keys;
      for i := 0 to |ids|
        invariant Tampering(syn, program, ids, policy.value) == Tampering(syn, program, ids[i..], policy.value)
      {
        assert ids[i..][1..] == ids[i + 1..];
        var paged := program.Node(ids[i]).paged;
        for j := 0 to |paged|
          invariant NodeTampering(syn, ids[i], paged, policy.value) == NodeTampering(syn, ids[i], paged[j..], policy.value)
        {
          assert paged[j..][1..] == paged[j + 1..];
          var token := syn.parse(paged[j]);
          if token.Err? {
            return Some(BadPagedCapability(token.error));
          }
          if !Allowed(syn, token.value, policy.value) {
            return Some(IrTampering(ids[i], paged[j]));
          }
        }
      }
      return None;
    }

    /** The edge out of a non-terminal step, counting the visit when the step loops. */
    method Leave(id: string, node: IrNode, result: StepState) returns (exit: Exit)
      requires !node.terminal && result != DENIED
      modifies this`loopCounts
      ensures exit == ExitOf(id, node, CountOf(old(loopCounts), id) + 1, result)
      ensures loopCounts == if node.loop.Some? then old(loopCounts)[id := CountOf(old(loopCounts), id) + 1]
                            else old(loopCounts)
    {
      if node.loop.Some? {
        var count := CountOf(loopCounts, id) + 1;
        loopCounts := loopCounts[id := count];
        if count >= node.loop.value {
          if node.onLimit.Some? {
            return ToLimit(node.onLimit.value);
          }
          return Aborted(LoopWithoutLimitEdge(id));
        }
      }
      var edgeKey := if result == DONE then ON_SUCCESS else ON_FAILURE;
      if edgeKey !in node.edges {
        return Aborted(MissingEdge(id, edgeKey));
      }
      return ToResult(node.edges[edgeKey]);
    }

    /** Reports how the step ended and decides where the run goes. */
    method Conclude(id: string, node: IrNode, result: StepState) returns (exit: Exit)
      modifies this`trace, this`loopCounts
      ensures exit == ExitOf(id, node, CountOf(old(loopCounts), id) + 1, result)
      ensures loopCounts == if Counts(node, result) then old(loopCounts)[id := CountOf(old(loopCounts), id) + 1]
                            else old(loopCounts)
      ensures trace == old(trace) + ([CompletionEvent(id, result)] + if exit.Finished? then [RunCompleted(result)] else [])
    {
      if result == FAILED {
        Emit(StepFailed(id, result));
      } else {
        Emit(StepCompleted(id, result));
      }
      if result == DENIED {
        Emit(RunCompleted(result));
        exit := Finished(DENIED);
      } else if node.terminal {
        Emit(RunCompleted(result));
        exit := Finished(result);
      } else {
        exit := Leave(id, node, result);
      }
    }

    /** What is left to do when the handler is through with a step. */
    method Finish(id: string, node: IrNode, exchanges: seq<Exchange>, returned: Option<StepState>, ghost before: Memory,
                  ghost d: Dialogue)
      returns (exit: Exit)
      requires d.exchanges == exchanges && d.returned == returned
      requires State() == Memory(before.counts, d.violation, before.trace + [StepStarted(id)] + d.events, before.history)
      modifies this
      ensures State() == Concluded(id, node, before, d)
      ensures exit == LastRecord(State()).exit
    {
      if returned.None? {
        exit := Aborted(HandlerRaised(id));
        history := history + [StepRecord(id, exchanges, None, None, exit)];
      } else {
        // a denial overrides whatever the handler returned
        var result := if currentViolation.Some? then DENIED else returned.value;
        exit := Conclude(id, node, result);
        history := history + [StepRecord(id, exchanges, returned, Some(result), exit)];
      }
    }

    /** The loop body after the step-limit check: executes the step at `id`. */
    method ExecuteStep(id: string) returns (exit: Exit)
      requires program.Has(id)
      modifies this
      ensures State() == Step(Setup(), id, old(State()))
      ensures exit == LastRecord(State()).exit
    {
      ghost var before := State();
      var node := program.Node(id);
      Emit(StepStarted(id));
      var exchanges, returned := ExecuteHandler(id, node);
      exit := Finish(id, node, exchanges, returned, before, Talk(Setup(), id, node, history, Opening(before.violation)));
    }

    /** One pass of the loop, after `stepCount` others: the run is over, or goes on at `next`. */
    method Pass(id: string, stepCount: nat, path: seq<string>)
      returns (over: Option<Result<RunResult, ExecutorError>>, next: string, longer: seq<string>)
      requires stepCount <= Fuel(maxSteps)
      modifies this
      ensures var before := StepMachine.Run(Setup(), id, old(State()), Fuel(maxSteps) - stepCount, path);
              match over
              case Some(r) => r == before.result && State() == before.mem
              case None =>
                && stepCount < Fuel(maxSteps)
                && before == StepMachine.Run(Setup(), next, State(), Fuel(maxSteps) - (stepCount + 1), longer)
    {
      next, longer := id, path;
      if !program.Has(id) {
        return Some(Err(StepNotFound(id))), next, longer;
      }
      longer := path + [id];
      if stepCount + 1 > maxSteps {
        return Some(Err(StepLimitExceeded)), next, longer;
      }
      var exit := ExecuteStep(id);
      match exit
      case Finished(state) =>
        over := Some(Ok(RunResult(state, longer, if state == DENIED then currentViolation else None)));
      case Aborted(error) =>
        over := Some(Err(error));
      case ToResult(target) =>
        over, next := None, target;
      case ToLimit(target) =>
        over, next := None, target;
    }

    /** The `while True` of `run`. */
    method Loop() returns (r: Result<RunResult, ExecutorError>)
      modifies this
      ensures var outcome := StepMachine.Run(Setup(), program.entry, old(State()), Fuel(maxSteps), []);
              r == outcome.result && State() == outcome.mem
    {
      var path: seq<string> := [];
      var currentId := program.entry;
      var stepCount := 0;
      while true
        invariant 0 <= stepCount <= Fuel(maxSteps)
        invariant StepMachine.Run(Setup(), program.entry, old(State()), Fuel(maxSteps), []) ==
                  StepMachine.Run(Setup(), currentId, State(), Fuel(maxSteps) - stepCount, path)
        decreases Fuel(maxSteps) - stepCount
      {
        var over;
        over, currentId, path := Pass(currentId, stepCount, path);
        if over.Some? {
          return over.value;
        }
        stepCount := stepCount + 1;
      }
    }

    /** `run`: the loop computes exactly what the pure machine says, and leaves its memory behind. */
    method Run() returns (r: Result<RunResult, ExecutorError>)
      modifies this
      ensures var outcome := Execute(Setup(), policy, maxSteps, old(State()));
              r == outcome.result && State() == outcome.mem
    {
      if program.irVersion != IR_VERSION {
        return Err(UnsupportedIrVersion(program.irVersion));
      }
      var tampered := ValidatePagedCapabilities();
      if tampered.Some? {
        return Err(tampered.value);
      }
      Emit(RunStarted);
      r := Loop();
    }
  }
}
