# SOPVM core: a verified model

SOPVM compiles a procedure (a graph of steps with declared capabilities) to an IR, narrows the IR by
a policy, and runs it: a step machine with loop budgets and a step limit, a capability gate in front
of the tool providers, a latch that makes a denial final, and an event trace. This project models
that chain in Dafny and proves what it promises, for every document, policy, handler and provider.

`dafny verify dfyconfig.toml` checks everything.

| file | models |
|---|---|
| `Basics.dfy`, `Graphs.dfy` | options, results, insertion-ordered dictionaries, walks and reachability |
| `Capabilities.dfy` | capability values and tokens, `satisfies`, and the order on policies |
| `CapabilityText.dfy`, `CapabilityLanguage.dfy` | the depth-aware splitter and `parse_capability`; which texts they accept and what these mean, exactly |
| `Parser.dfy` | the document and the parser's semantic checks |
| `Ir.dfy`, `Compiler.dfy` | the IR, lowering, paging |
| `Checker.dfy` | the static checker and its agreement with the pager and the gate |
| `Gate.dfy`, `Plugins.dfy` | the gate; provider registry, routing and sandbox |
| `RunLog.dfy`, `StepMachine.dfy` | the executor as pure functions, and an invariant principle for its runs |
| `Executors.dfy` | the executor as an object with mutable fields, which refines those functions |
| `StepLaws.dfy`, `RunLaws.dfy`, `Traces.dfy` | what one step does; transitions, loop budgets, the denial latch; telemetry |
| `Courses.dfy`, `Termination.dfy`, `Grants.dfy` | the ways runs can take, where they get stuck, when they end, and what they can be granted |
| `Safety.dfy`, `Narrowing.dfy`, `EndToEnd.dfy` | the other theorems about whole runs |

## How the world outside is modelled

- **Handlers.** A handler is a function from everything the executor has executed so far, the node, and
  the replies of the current step to its next act: request a tool, return any `StepState`, or raise. It
  must stop asking at some point in each step. A theorem for all such handlers covers every
  deterministic, stateful or random handler that returns, because the past never repeats within an
  executor's life. What `request_tool` raises (a malformed paged entry) is a reply like any other, so a
  handler that catches it is covered too.
- **Providers** answer, fail or raise as a function of the same past; what they declare may change from one
  request to the next, and listing it may itself raise, at once or after some entries.
- **Executors** may have a past: unless a theorem names a fresh one, it holds for a call of `run` on any
  violation, counters, trace and history that earlier calls may have left.
- **Float parsing** is a parameter: `float(text)` is some function from texts to floats, and floats are
  reals, infinities and NaN. Outside `CapabilityText.dfy` `parse_capability` itself is a parameter as
  well, so those theorems hold for the real parser in particular.
- **Events** carry the requested token; the program publishes its raw text. Timestamps, run ids and
  error wording are left opaque, and a failing sink or callback changes nothing, as in `_emit`.

## Main results

- **Termination, exactly.** A configuration is a step with the loop counters; it is free when its step has no
  loop or the loop's verdict edges are used up. Some step limit suffices for all handlers if and only if
  no course of configurations from the entry comes back to a step through free ones (`BoundedExactly`, which
  also covers calls that do not start and executors that are already denied). The limit is then
  N * (1 + sum of max_iterations - 1) for N nodes (`TerminationBound`), a trap shows within one configuration
  more (`TrapsAreShort`), and one handler exceeds every limit where there is a trap (`TrapExceedsEveryLimit`).
  Graphs whose residual cycles are all broken by bounded loops have none (`BrokenCyclesHoldNoTrap`), but not only
  they (`UnbrokenCycleWithoutTrap`).
- **Getting stuck, exactly.** A call can fail for want of a step or an edge if and only if a course leads to a
  missing step or to a verdict without an edge (`GetsStuckExactly`), and the courses up to the same bound tell
  (`DeadEndsAreShort`).
- **Narrowing only truncates.** Under a stricter policy a run is the run under the laxer one or a prefix of
  it that ends where the stricter gate refuses what the laxer one grants
  (`NarrowingTruncates`, `RelaxingPolicyOnlyLengthensRuns`).
- **Policy soundness** for arbitrary, even hand-edited IR on an executor that holds a policy
  (`PolicySoundness`), and for paged IR on any executor (`UntamperedGrantsAllowed`), resting on the transitivity
  of `satisfies`.
- **Grants, exactly.** On an executor with or without a policy, and for any IR, a request can be granted if and
  only if the call starts and a course leads to a step whose gate grants it (`GrantableExactly`); again the
  courses up to the bound tell (`WaysToGrantAreShort`).
- **Reachability.** The parser's worklist stops and computes reachability exactly
  (`CheckReachability`), and no run leaves the computed set (`VisitedIsReachable`).
- **The language of capabilities, exactly.** Which texts `parse_capability` accepts and what they mean is said
  character by character: the surface (`SurfaceExactly`), the splitter (`SplitExactly`), one parameter with its
  precedence of operators (`ParameterExactly`), and the whole token (`CapabilityExactly`).
- **The report, exactly.** `check` reports for every node, in order, what the policy withholds, each with its
  reason, and nothing else (`Check`, `ReportExactly`).
- **The step limit, exactly.** A call executes at most `max_steps` steps and fails for it exactly when there
  is a further one to execute (`StepLimitExactly`).
- **Refinement.** The mutable executor, with its registry and sandbox objects, computes the pure machine
  (`Executor.Run`), and the step limit is only fuel (`MaxStepsIsFuel`).
- **Telemetry.** A reader that knows only the event grammar recovers path and final state of every run
  that returns, and the executed steps of every run that raises (`TraceReplaysToResult`).
- **The chain.** Which documents compile, and to what (`Compile`); what a compiled document can do when it
  runs (`CompiledRunIsSafe`, `RunFollowsDocument`, `RunLeavesAsDeclared`); and what a passing check buys
  (`CheckedRunIsNeverDenied`).

Five facts a reader of the documentation may not expect, all of them what the code does:

- `run` resets neither the violation nor the loop counters. An executor that holds a violation stops every
  later run DENIED at its entry (`ViolationOutlivesTheRun`); on one that holds none, fresh or used, a refused
  request ends the run DENIED in that step, and nothing else overrides a handler's verdict (`DenialEndsTheRun`).
  A loop's budget is spent once per executor, not once per run: the k-th visit is counted over the executor's
  whole life (`LoopLawOverLifetime`).
- Neither the public `Runtime`, nor the command line, nor the LangGraph adapter hands the executor a policy
  (src/sopvm/__init__.py:79, src/sopvm/cli/main.py:135, src/sopvm/integrations/langgraph/node.py:75), so the
  start-up validation is off there. What a compiled document may do is then up to paging and the gate, and
  they suffice: `CompiledRunIsSafe`, `CheckedRunIsNeverDenied` and `RelaxingPolicyOnlyLengthensRuns` hold for
  executors with and without a policy. What an IR that was edited by hand can be granted there is said exactly
  by `GrantableExactly`.
- The parser asks of a step that does not end the procedure only one of its two edges, so an accepted document
  can get stuck (`AcceptedDocumentGetsStuck`).
- The parser accepts capability texts that paging rejects with an exception: `db:r(,)` is one
  (`SurfaceAcceptsBlankParameter`), and `ParseFailsExactly` says which they are.
- A provider that is asked for what it does not declare yields a failed tool result, not a DENIED step, although
  INTERFACES.md section 6 says otherwise; `SandboxRefusalIsNoDenial` is such a run. The sandbox refuses
  exactly the providers whose present declarations lack the routed pair (`SandboxRefusesExactly`), which those
  that declare what they registered never do (`RoutedRequestIsInvoked`); and only requests that the gate
  refuses make a step DENIED against the handler's verdict (`OnlyRefusalsDeny`).

## Model

| member | source | states |
|---|---|---|
| Capabilities.NumericCeiling | src/sopvm/checker/check.py:91-124 | a numeric ceiling admits exactly the numbers for which the real comparison holds; a bare parameter counts as 1; no operator admits a NaN |
| Capabilities.InfiniteCeiling | src/sopvm/checker/check.py:105-115 | the infinities bound every real number and each other, from above and from below |
| Capabilities.NumericReadings | src/sopvm/checker/check.py:96-124 | under a comparator a bare parameter counts as 1, and a text that reads as a number as that number, on either side |
| Capabilities.ExactCeiling | src/sopvm/checker/check.py:79-86 | a bare ceiling needs a bare parameter; a named value needs the same value, where a bare parameter equals the number 1 and nothing equals NaN |
| Capabilities.ComparatorMeetsNothing | src/sopvm/checker/check.py:73-124 | a comparator in a request meets no ceiling on its parameter |
| Capabilities.TextCeiling | src/sopvm/checker/check.py:97-103 | a text that is not a number is met by an equality with the same text only, and meets no other comparator; no number or bare parameter comes under it |
| Capabilities.CeilingExactly | src/sopvm/checker/check.py:62-88 | a token meets a ceiling if and only if namespace and action are equal and it meets each parameter of the ceiling taken alone |
| Capabilities.CeilingBindsItsParameters | src/sopvm/checker/check.py:45-88 | a ceiling binds each parameter it names, which must be present, and leaves all others free |
| Capabilities.AllowedPlainly | src/sopvm/checker/check.py:62-115 | what a policy allows has an entry of its namespace and action whose parameters it has and whose numeric bounds it keeps |
| Capabilities.SatisfiesTransitive | src/sopvm/checker/check.py:45-124 | meeting a ceiling that meets another is meeting that one, over bare, numeric, text and comparator values |
| Capabilities.SatisfiesReflexiveExactly | src/sopvm/checker/check.py:45-124 | a token meets itself if and only if it has no comparator and no NaN |
| Capabilities.RelaxedPolicyAllowsMore | src/sopvm/checker/check.py:67-115 | adding entries, dropping parameters and loosening bounds never disallows a token |
| CapabilityText.SplitParams | src/sopvm/capability/token.py:132-151 | the character loop computes the recursive depth-aware split |
| CapabilityText.DepthCountsParentheses | src/sopvm/capability/token.py:135-143 | the splitter's depth is the number of opening less closing parentheses, below zero if need be |
| CapabilityText.JoinOfSplit | src/sopvm/capability/token.py:132-151 | joining the parts gives the text back, less one trailing depth-0 comma |
| CapabilityText.SplitOfJoin | src/sopvm/capability/token.py:132-151 | splitting joined parts gives them back when each is balanced without a depth-0 comma and the last is not empty |
| CapabilityText.Parse | src/sopvm/capability/token.py:76-129 | the parameter loop computes the parse function, errors included |
| CapabilityText.RenderedCapabilityParsesBack | src/sopvm/capability/token.py:21-129 | a written capability parses to its namespace, action and parameters, a repeated key keeping its last value, whatever blanks surround keys, operators and values |
| CapabilityText.WrittenTokenParsesBack | src/sopvm/capability/token.py:21-159 | a token written once per parameter, in any order and layout, parses back to itself |
| CapabilityText.ParseFailsExactly | src/sopvm/capability/token.py:91-127 | parsing fails if and only if the surface form is wrong or some separated parameter is blank |
| CapabilityText.SurfaceAcceptsBlankParameter | src/sopvm/parser/parse.py:169-176 | the parser's grammar check accepts `db:r(,)`, which the token parser rejects |
| CapabilityLanguage.CharacterClasses | src/sopvm/capability/token.py:22-49 | identifiers are of ASCII letters, digits and the underscore; white space is Unicode's, by code point |
| CapabilityLanguage.StripExactly | src/sopvm/capability/token.py:102-120 | stripping takes away the white space at both ends and nothing else |
| CapabilityLanguage.NoSeparatorExactly | src/sopvm/capability/token.py:137-148 | a text holds no separator exactly when no comma of it stands at depth 0 |
| CapabilityLanguage.SplitExactly | src/sopvm/capability/token.py:132-151 | the splitter cuts at the commas of depth 0 and nowhere else |
| CapabilityLanguage.SurfaceExactly | src/sopvm/capability/token.py:22-26 | a text has these parts if and only if it is two identifiers, a colon and maybe parentheses on one line, with or without a final newline |
| CapabilityLanguage.SurfaceTextsExactly | src/sopvm/parser/parse.py:20-22 | the grammar check lets exactly the texts of that form pass |
| CapabilityLanguage.ParameterExactly | src/sopvm/capability/token.py:28-49 | a part is a comparison, an assignment or a bare name, in this order, by the signs it is written with, its value a number exactly if it reads as one; only white space is refused |
| CapabilityLanguage.LastPartWins | src/sopvm/capability/token.py:102-120 | a key has the value of the last part that names it |
| CapabilityLanguage.CapabilityExactly | src/sopvm/capability/token.py:76-129 | a text gives the token of its parts, raises on a blank part, or is malformed, exactly by how it is written |
| Gate.CheckCallByOrder | src/sopvm/runtime/gate.py:24-44 | the first entry that covers the request or does not parse decides: it grants, or raises its own error; without one the request is refused |
| Gate.CheckCallMeaning | src/sopvm/runtime/gate.py:24-44 | whatever the order, a grant means coverage, a refusal that all entries parse and none covers, an exception that one does not parse |
| Gate.GateIsCoverage | src/sopvm/runtime/gate.py:24-44 | on well-formed entries the gate grants exactly the covered requests |
| Plugins.ProviderRegistry.constructor | src/sopvm/plugins/registry.py:17-19 | a registry starts empty |
| Plugins.ProviderRegistry.Register | src/sopvm/plugins/registry.py:21-30 | the provider is listed and takes over each pair it declares, up to the first malformed declaration or the provider's own exception, which is raised |
| Plugins.IndexedMeaning | src/sopvm/plugins/registry.py:28-30 | registration hands the provider exactly the readable pairs and leaves all others alone |
| Plugins.ReadableKeysExactly | src/sopvm/plugins/registry.py:28-30 | the pairs read from a declaration are the namespaces and actions of its entries up to the first malformed one |
| Plugins.LookupIsLatest | src/sopvm/plugins/registry.py:21-38 | after any registrations, lookup finds the latest provider that declared the namespace and action, or none did |
| Plugins.SandboxWrapper.ReadDeclarations | src/sopvm/plugins/sandbox.py:33-38 | wrapping collects exactly the declared pairs, or raises on the first malformed declaration or the provider's own exception |
| Plugins.RouteRequest | src/sopvm/runtime/executor.py:227-242 | lookup, wrapping and the guarded call give the reply that the routing function says, exceptions of the wrapping included |
| Plugins.RoutingExactly | src/sopvm/runtime/executor.py:227-242 | the reply to every granted request: the stub success, no provider, or the latest provider's own answer, its exceptions raised while wrapping and failed results when called |
| Plugins.RoutedRequestIsInvoked | src/sopvm/runtime/executor.py:227-242 | the latest provider to declare the pair, if it still declares what it registered, is reached; its result is the reply, its exception a failed one |
| Plugins.SandboxRefusesExactly | src/sopvm/plugins/sandbox.py:43-52 | a tool call fails with an integrity violation if and only if the found provider's present declarations can be read and lack the pair, or the provider answers just that itself |
| Parser.CheckEdges | src/sopvm/parser/parse.py:113-136 | raises for the first step that does not resolve, blaming its success, failure and limit edge in that order, and never otherwise |
| Parser.DeclaredEdgeExactly | src/sopvm/parser/parse.py:142-150 | the edges of the reachability check are all that steps spell out, limit edges without a loop included |
| Parser.BuildEdges | src/sopvm/parser/parse.py:142-150 | the edge table holds exactly the declared edges, limit edges and duplicate ids included |
| Parser.CheckReachability | src/sopvm/parser/parse.py:139-166 | the worklist stops on every document, visits exactly what the first step reaches, and raises exactly for the steps outside |
| Parser.CheckCapabilityGrammar | src/sopvm/parser/parse.py:169-176 | passes exactly when every declared capability has the surface form, else names the first that has not and its step |
| Parser.SemanticChecks | src/sopvm/parser/parse.py:86-89 | a document passes exactly when it meets all three checks, and otherwise the first one it fails says what is wrong |
| Compiler.Lower | src/sopvm/compiler/lower.py:19-69 | succeeds exactly on non-empty documents with distinct ids, one node per step in order, else names the first repeated id |
| Compiler.LoweredExactly | src/sopvm/compiler/lower.py:34-69 | the lowered program, field by field: both edges under their names, everything else as it stands in the step |
| Ir.FirstMalformedIsFirst | src/sopvm/compiler/page.py:36-38 | the error raised over a list of capabilities is that of the entry with only well-formed ones before it |
| Compiler.PageDeclared | src/sopvm/compiler/page.py:36-40 | one step's declared capabilities are filtered by the policy, in order, or the first malformed one raises its error |
| Compiler.PageNext | src/sopvm/compiler/page.py:35-50 | the outer loop's body stores one more paged node in order, or raises the error of its first malformed declaration |
| Compiler.ApplyPaging | src/sopvm/compiler/page.py:23-56 | raises the error of the first malformed declaration in node order, else replaces every paged list and nothing else |
| Compiler.PagedExactly | src/sopvm/compiler/page.py:33-56 | the paged program, field by field: only paged lists change, and hold just the allowed declarations |
| Compiler.NarrowPageWithinWide | src/sopvm/compiler/page.py:35-40 | a narrower policy's list is a subsequence of a wider one's |
| Checker.CheckStep | src/sopvm/checker/check.py:144-171 | the inner loop reports one step's violations in order |
| Checker.Check | src/sopvm/checker/check.py:127-176 | for every node exactly the declared capabilities the policy does not allow, each with the right reason, in order; passed means none |
| Checker.ReportExactly | src/sopvm/checker/check.py:141-171 | the same of the report as a function of the program |
| Checker.PagedAndReportedInterleave | src/sopvm/checker/check.py:143-171 | pager and checker deal out the declared list between them, in order, without loss or overlap |
| Checker.ViolationsAreExplained | src/sopvm/checker/check.py:145-171 | each violation names its step, a declared capability and the right reason, the first matching ceiling if there is one |
| Checker.CheckPassesExactly | src/sopvm/checker/check.py:173-176 | the check passes if and only if paging withholds nothing |
| Checker.WideningClearsViolations | src/sopvm/checker/check.py:143-171 | what is reported under a wider policy was reported under the narrower one |
| Checker.WideningKeepsGrants | src/sopvm/runtime/gate.py:35-44 | a wider policy never turns a granted request into a refused one |
| Checker.ConcretePagedEntryIsGranted | src/sopvm/runtime/gate.py:35-44 | a request repeating a paged concrete entry is granted |
| StepMachine.ValidationExactly | src/sopvm/runtime/executor.py:129-150 | a run starts exactly when every paged entry parses and stands under the policy, else the error is that of the first entry, in node order, that does not |
| StepMachine.RunInduction | src/sopvm/runtime/executor.py:180-305 | what holds on arrival and is kept by moving on holds where the run ends |
| StepMachine.StepLimitIsFuel | src/sopvm/runtime/executor.py:180-194 | a larger limit changes nothing about a run that stayed within it, and the limit is hit exactly when the unlimited run has a further step |
| StepMachine.MaxStepsIsFuel | src/sopvm/runtime/executor.py:152-305 | the same for a whole call of run |
| StepMachine.StepLimitExactly | src/sopvm/runtime/executor.py:180-194 | a call executes at most max_steps steps, and fails for the limit if and only if the unlimited run has one more, which is then on the path but not executed |
| StepMachine.StartErrorExactly | src/sopvm/runtime/executor.py:163-170 | a call is refused for a version other than 0.1, else for the first paged entry outside its policy, and for nothing else |
| StepLaws.TalkIsLawful | src/sopvm/runtime/executor.py:199-253 | in a dialogue each request answers to the replies before it, is judged by coverage, reported, and latched if refused, and only a granted one reaches a provider |
| StepLaws.StepLaw | src/sopvm/runtime/executor.py:186-305 | a step appends one record, and events, violation and counters follow from that record |
| StepLaws.OnlyRefusalsDeny | src/sopvm/runtime/executor.py:200-253 | a step stays without a violation, and keeps the handler's verdict, exactly when the gate refused nothing; what the sandbox fails was granted |
| Executors.Executor.constructor | src/sopvm/runtime/executor.py:91-110 | a new executor has no violation, no counts and an empty trace |
| Executors.Executor.RequestTool | src/sopvm/runtime/executor.py:200-242 | reply, violation field and event are those of the pure request |
| Executors.Executor.ExecuteHandler | src/sopvm/runtime/executor.py:246-249 | the request loop stops and leaves what the pure dialogue says |
| Executors.Executor.ValidatePagedCapabilities | src/sopvm/runtime/executor.py:129-150 | the nested loops find the first offending paged entry |
| Executors.Executor.Finish | src/sopvm/runtime/executor.py:251-305 | the denial override, the events and the way out of a step that its handler is through with |
| Executors.Executor.ExecuteStep | src/sopvm/runtime/executor.py:196-305 | one execution of a step changes the fields as the pure step does |
| Executors.Executor.Conclude | src/sopvm/runtime/executor.py:255-305 | completion events, the run's end on DENIED or a terminal step, or the edge to follow |
| Executors.Executor.Leave | src/sopvm/runtime/executor.py:281-305 | the loop counter and the edge out of a non-terminal step |
| Executors.Executor.Pass | src/sopvm/runtime/executor.py:180-305 | one pass of the loop ends the run or goes on to the next step, as the pure run does |
| Executors.Executor.Loop | src/sopvm/runtime/executor.py:172-305 | the loop with its step limit computes the pure run |
| Executors.Executor.Run | src/sopvm/runtime/executor.py:152-305 | a call of run returns the pure machine's result and leaves its memory in the fields |
| RunLaws.RunIsLogged | src/sopvm/runtime/executor.py:180-305 | path and log of a run agree, position by position, and follow the edges |
| RunLaws.MoveLaw | src/sopvm/runtime/executor.py:274-305 | on any executor, the k-th counted visit leaves along the verdict's edge while k is below max_iterations, and along on_limit from then on whatever the handler returned |
| RunLaws.EndLaw | src/sopvm/runtime/executor.py:181-305 | a result is a denial or a terminal step; each error names the step at hand and its reason holds there |
| RunLaws.LoopLawOverLifetime | src/sopvm/runtime/executor.py:283-305 | over all runs of one executor every step is left as its visit number says, counting all earlier runs |
| RunLaws.LoopBudgetIsPerExecutor | src/sopvm/runtime/executor.py:109-110 | over all runs of one executor a loop is left along its verdict edges at most max_iterations - 1 times |
| RunLaws.DenialEndsTheRun | src/sopvm/runtime/executor.py:202-279 | on an executor without a violation, refusals lie in the last step only, which ends DENIED with the last refused request; otherwise the last verdict stands |
| RunLaws.ViolationOutlivesTheRun | src/sopvm/runtime/executor.py:251-272 | an executor that holds a violation stops every later run DENIED at its entry |
| Traces.TraceReplaysToResult | src/sopvm/runtime/executor.py:177-305 | replaying the events by their grammar recovers path and final state of a run that returns, and of one that raises exactly the steps it executed and whether the last is closed |
| Traces.TraceTellsTheLog | src/sopvm/runtime/executor.py:177-279 | what a run reports is exactly the events of the records it adds, every grant and refusal in order |
| Traces.DecisionsAreReported | src/sopvm/runtime/executor.py:201-225 | the grants and refusals reported are, one by one, those of the dialogues, with step, request and paged tokens |
| Safety.UntamperedGrantsAllowed | src/sopvm/runtime/gate.py:24-44 | where every paged entry stands under a policy, a run on any executor, with or without a policy, grants only what that policy allows |
| Safety.PolicySoundness | src/sopvm/runtime/executor.py:129-150 | for any IR and handler, a run under a policy grants only what the policy allows, or does not start |
| Safety.RunsStayPlainlyWithin | src/sopvm/checker/check.py:62-115 | every granted request has a policy entry of its namespace and action, has its parameters, and keeps its numeric bounds |
| Safety.PagedProgramIsUntampered | src/sopvm/compiler/page.py:33-56 | the validation accepts every paging output under the same or a wider policy |
| Safety.VisitedIsReachable | src/sopvm/parser/parse.py:142-160 | no run of a document's program visits an id outside the statically reachable set |
| Safety.EdgeCheckExactly | src/sopvm/parser/parse.py:113-136 | the edge check passes if and only if every edge that a run can follow leads to a step and every non-terminal step has one |
| Safety.AcceptedProgramsDoNotGetStuck | src/sopvm/runtime/executor.py:181-184 | an accepted program never raises step-not-found; fully wired, only the step limit or the handler can fail it |
| Courses.GetsStuckExactly | src/sopvm/runtime/executor.py:181-305 | a call can raise a missing step or edge if and only if it starts and a course leads to one, or a denied executor has no entry |
| Termination.DeadEndsAreShort | src/sopvm/runtime/executor.py:181-305 | a course leads to a missing step or edge if and only if one does that is at most one longer than the bound |
| Termination.TerminationBound | src/sopvm/runtime/executor.py:180-305 | without a trap every run, whatever the handler, is at most as long as the bound |
| Termination.TrapExceedsEveryLimit | src/sopvm/runtime/executor.py:190-194 | a trap lets one handler that requests nothing exceed every step limit |
| Termination.TrapsAreShort | src/sopvm/runtime/executor.py:180-305 | there is a trap if and only if one shows on a course at most one longer than the bound |
| Termination.BoundedExactly | src/sopvm/runtime/executor.py:180-305 | some limit suffices for all handlers if and only if the call does not start, the executor is already denied, or there is no trap |
| Termination.BrokenCyclesHoldNoTrap | src/sopvm/runtime/executor.py:282-305 | where bounded loops break every cycle that can be come to there is no trap |
| Termination.UnbrokenCycleWithoutTrap | src/sopvm/runtime/executor.py:282-305 | a program with an unbroken cycle and no trap |
| Grants.GrantableExactly | src/sopvm/runtime/executor.py:180-253 | some handler is granted a request by a call if and only if the call starts and a course leads to a step whose gate grants it |
| Grants.WaysToGrantAreShort | src/sopvm/runtime/executor.py:180-253 | such a course exists if and only if one does that is no longer than the termination bound |
| Narrowing.NarrowingTruncates | src/sopvm/runtime/executor.py:200-305 | the narrower program's run is the wider one's, unless it is a prefix ending at a request refused by the one and granted by the other |
| Narrowing.NarrowPolicyNarrows | src/sopvm/compiler/page.py:33-56 | paging under a narrower policy narrows every node and nothing else |
| Narrowing.PagingNarrows | src/sopvm/compiler/page.py:33-56 | paging narrows a freshly lowered program |
| Narrowing.RelaxingPolicyOnlyLengthensRuns | src/sopvm/compiler/page.py:23-56 | compiling under a laxer policy only lengthens runs, and an undenied run stays as it is, whether or not the executors hold policies |
| EndToEnd.AcceptedDocumentPagesExactly | src/sopvm/compiler/page.py:35-40 | a document that passed the grammar check can be paged if and only if no declared capability has a blank parameter |
| EndToEnd.Compile | src/sopvm/compiler/pipeline.py:16-38 | succeeds exactly on accepted documents with distinct ids and capabilities without blank parameters, giving the lowered, paged program with the policy's path; else the first failing stage raises for its first fault |
| EndToEnd.CompiledRunIsSafe | src/sopvm/__init__.py:67-84 | on an executor with or without a policy a compiled document stays reachable and grants only what it declares and its compile policy allows; it starts where that is admitted and finds its steps |
| EndToEnd.CheckedProgramIsNotNarrowed | src/sopvm/checker/check.py:173-176 | the check passes if and only if paging leaves a lowered program unchanged |
| EndToEnd.AskingAsPagedIsNeverDenied | src/sopvm/runtime/executor.py:200-253 | a handler that repeats paged entries without comparator or NaN is granted every request |
| EndToEnd.CheckedRunIsNeverDenied | src/sopvm/__init__.py:34-46 | after a passing check of the compiled IR, a handler that asks as declared is granted everything on any executor and its own verdict stands |
| EndToEnd.AcceptedDocumentGetsStuck | src/sopvm/parser/parse.py:117-123 | an accepted document whose run ends in a missing edge |
| EndToEnd.RunFollowsDocument | src/sopvm/compiler/lower.py:38-63 | every move of a run is the one that the document's step declares for the verdict and the visit count |
| EndToEnd.RunLeavesAsDeclared | src/sopvm/runtime/executor.py:255-305 | every executed step is left where the document sends the verdict, is stuck only where it sends it nowhere, and ends the run only when denied or terminal |
| EndToEnd.SandboxRefusalIsNoDenial | src/sopvm/runtime/executor.py:227-253 | a run whose only tool call the sandbox fails after a grant, and which ends DONE without a violation |

## Left out

- YAML loading, JSON Schema validation, policy files, the command line and the LangGraph adapter: library calls and I/O. The model starts from a built document and a list of policy tokens.
- `_to_dict` and `from_json` of the IR: a field-by-field copy that would only add easy members. Theorems about arbitrary IR need no assumption about where it came from.
- Events' timestamps, run ids and error texts, and failures of sinks and callbacks, which `_emit` swallows.
- Handlers that keep a `request_tool` closure beyond their step, and handlers that never return from a step.
- Registrations during a run: the registry stays as it is while the executor runs.
- Values that only a hand-built token can hold, such as `False`, `None` or a list; tokens here hold what the parser produces, and text that a handler puts in place of a number.
- Rounding: floats are exact reals, infinities and NaN; which text denotes which float is a parameter.
- SandboxWrapper.ReadDeclarations: the wrapper's constructor raises on a malformed declaration; a Dafny constructor cannot fail, so reading the declarations is a method of its own.
