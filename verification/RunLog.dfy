/** What a run leaves behind: step states, tool replies, the exchanges between a step handler and
    the executor, and telemetry events (src/sopvm/runtime/state.py, violations.py, telemetry/events.py). */
module RunLog {
  import opened Basics
  import opened Capabilities

  datatype StepState = PENDING | RUNNING | DONE | FAILED | DENIED

  datatype ToolError =
    | CapabilityDenied(stepId: string, requested: string)
    | NoProvider(requested: string)
    | IntegrityViolation(requested: string)
    | ProviderFailed(message: string)

  datatype ToolResult = ToolResult(success: bool, data: Option<string>, error: Option<ToolError>)

  type Args = map<string, string>

  /** An exception: a text that is no capability, or a provider's own when it is asked what it declares. */
  datatype Thrown = BadText(error: GrammarError) | ListingFailed(message: string)

  /** What a call of `request_tool` does to the handler: it returns, or it raises. */
  datatype Reply = Answer(result: ToolResult) | Threw(thrown: Thrown)

  /** The gate's part in a request; `Unreadable` when a paged entry fails to parse. */
  datatype Decision = Granted | Refused | Unreadable

  datatype Exchange = Exchange(cap: Token, args: Args, decision: Decision, reply: Reply)

  datatype ExecutorError =
    | UnsupportedIrVersion(version: string)
    | BadPagedCapability(error: GrammarError)
    | IrTampering(stepId: string, capability: string)
    | StepNotFound(stepId: string)
    | StepLimitExceeded
    | LoopWithoutLimitEdge(stepId: string)
    | MissingEdge(stepId: string, edge: string)
    | HandlerRaised(stepId: string)

  /** How a step was left: along its result edge, along its limit edge, or for good. */
  datatype Exit =
    | ToResult(next: string)
    | ToLimit(next: string)
    | Finished(final: StepState)
    | Aborted(error: ExecutorError)

  /** One execution of a step. `returned` is what the handler returned (`None` if it raised) and
      `state` is the step's state after the executor's override. */
  datatype StepRecord = StepRecord(
    id: string,
    exchanges: seq<Exchange>,
    returned: Option<StepState>,
    state: Option<StepState>,
    exit: Exit)

  /** All steps an executor has executed, oldest first, over all its runs. */
  type History = seq<StepRecord>

  datatype Violation = Violation(stepId: string, requested: Token, paged: seq<Token>)

  /** Telemetry events. Grants and denials carry the requested token, whose `raw` text is what is published. */
  datatype Event =
    | RunStarted
    | StepStarted(stepId: string)
    | CapabilityGranted(stepId: string, requested: Token)
    | CapabilityRefused(stepId: string, requested: Token, paged: seq<Token>)
    | StepCompleted(stepId: string, state: StepState)
    | StepFailed(stepId: string, state: StepState)
    | RunCompleted(state: StepState)

  datatype RunResult = RunResult(finalState: StepState, path: seq<string>, violation: Option<Violation>)

  predicate Denials(exchanges: seq<Exchange>) {
    exists i :: 0 <= i < |exchanges| && exchanges[i].decision.Refused?
  }

  /** The last refused request of a dialogue. */
  function LastRefused(exchanges: seq<Exchange>): (cap: Token)
    requires Denials(exchanges)
    ensures exists i :: && 0 <= i < |exchanges| && exchanges[i].decision.Refused? && exchanges[i].cap == cap
                        && forall j | i < j < |exchanges| :: !exchanges[j].decision.Refused?
  {
    var last := |exchanges| - 1;
    if exchanges[last].decision.Refused? then exchanges[last].cap else LastRefused(exchanges[..last])
  }
}
