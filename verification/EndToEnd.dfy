/** The chain from document to run: parse, lower, page, check, run. */
module EndToEnd {
  import opened Basics
  import opened Capabilities
  import CapabilityText
  import opened Graphs
  import opened Ir
  import opened RunLog
  import opened Plugins
  import opened Parser
  import opened Compiler
  import opened Checker
  import opened Gate
  import opened StepMachine
  import opened StepLaws
  import opened RunLaws
  import opened Courses
  import opened Safety

  // ----- Compilation ----------------------------------------------------------------------

  predicate NoBlankParameters(doc: SopDocument) {
    forall s, c | s in doc.steps && c in s.capabilities :: !CapabilityText.HasBlankParameter(c)
  }

  /** The declarations of a lowered program are those of the document. */
  lemma DeclaredInDocument(syn: Syntax, doc: SopDocument, p: CompiledProgram)
    requires LowersTo(doc, p)
    ensures Compiler.WellDeclared(syn, p) <==> forall s, c | s in doc.steps && c in s.capabilities :: syn.parse(c).Ok?
  {
    LoweringGivesShape(doc, p);
    forall id | p.Has(id)
      ensures exists s :: s in doc.steps && s.id == id && p.Node(id).declared == s.capabilities
    {
      var s := NodeHasStep(doc, p, id);
    }
    forall s | s in doc.steps
      ensures p.Has(s.id) && p.Node(s.id).declared == s.capabilities
    {
    }
  }

  /** A text of the right surface form parses unless it has a blank parameter. */
  ghost predicate ParsesUnlessBlank(syn: Syntax) {
    forall c | WellFormedCap(c) :: syn.parse(c).Ok? <==> !CapabilityText.HasBlankParameter(c)
  }

  lemma StandardSyntaxParsesUnlessBlank(toFloat: string -> Option<Float>)
    ensures ParsesUnlessBlank(CapabilityText.StandardSyntax(toFloat))
  {
    forall c | WellFormedCap(c)
      ensures CapabilityText.StandardSyntax(toFloat).parse(c).Ok? <==> !CapabilityText.HasBlankParameter(c)
    {
      CapabilityText.ParseFailsExactly(toFloat, c);
    }
  }

  lemma PagesUnlessBlank(syn: Syntax, doc: SopDocument, p: CompiledProgram)
    requires ParsesUnlessBlank(syn) && LowersTo(doc, p) && AllWellFormed(doc)
    ensures Compiler.WellDeclared(syn, p) <==> NoBlankParameters(doc)
  {
    DeclaredInDocument(syn, doc, p);
    forall s, c | s in doc.steps && c in s.capabilities
      ensures syn.parse(c).Ok? <==> !CapabilityText.HasBlankParameter(c)
    {
      assert WellFormedCaps(s.capabilities) && WellFormedCap(c);
    }
  }

  /** A document that passed the parser's grammar check can be paged exactly when no declared
      capability has a blank parameter; otherwise paging raises although parsing did not. */
  lemma AcceptedDocumentPagesExactly(toFloat: string -> Option<Float>, doc: SopDocument, p: CompiledProgram)
    requires LowersTo(doc, p) && AllWellFormed(doc)
    ensures Compiler.WellDeclared(CapabilityText.StandardSyntax(toFloat), p) <==> NoBlankParameters(doc)
  {
    StandardSyntaxParsesUnlessBlank(toFloat);
    PagesUnlessBlank(CapabilityText.StandardSyntax(toFloat), doc, p);
  }

  /** `q` is the document lowered, paged under the policy, and stored with the policy's path. */
  ghost predicate CompilesTo(syn: Syntax, doc: SopDocument, policy: seq<Token>, path: string, q: CompiledProgram) {
    exists p :: LowersTo(doc, p) && q == Page(syn, p, policy).(policyRef := path)
  }

  datatype CompileError =
    | NotAccepted(semantic: SemanticError)
    | NotLowered(lowering: LoweringError)
    | NotPaged(grammar: GrammarError)

  /** Paging meets the first malformed capability of the document in step `i`, and raises its error. */
  predicate RaisesAtStep(syn: Syntax, doc: SopDocument, i: int, e: GrammarError) {
    && 0 <= i < |doc.steps|
    && (forall k | 0 <= k < i :: AllParse(syn, doc.steps[k].capabilities))
    && FirstMalformed(syn, doc.steps[i].capabilities) == Some(e)
  }

  lemma RaisesInDocument(syn: Syntax, doc: SopDocument, p: CompiledProgram, n: int, e: GrammarError)
    requires LowersTo(doc, p) && RaisesAt(syn, p.nodes, n, e)
    ensures RaisesAtStep(syn, doc, n, e)
  {
    forall k | 0 <= k <= n
      ensures p.nodes.keys[k] in p.nodes.values
      ensures p.nodes.values[p.nodes.keys[k]].declared == doc.steps[k].capabilities
    {
      assert doc.steps[k] in doc.steps;
    }
  }

  /** `compile_sop` from the built document on: the parser's checks, lowering, paging. It succeeds exactly
      on accepted documents with distinct step ids and well-formed capabilities without blank
      parameters; otherwise the first stage that fails raises, for the first fault in document order. */
  method Compile(toFloat: string -> Option<Float>, doc: SopDocument, policy: seq<Token>, path: string)
    returns (r: Result<CompiledProgram, CompileError>)
    ensures r.Ok? <==> Accepted(doc) && AllWellFormed(doc) && Distinct(doc) && NoBlankParameters(doc)
    ensures match r
            case Ok(q) => CompilesTo(CapabilityText.StandardSyntax(toFloat), doc, policy, path, q)
            case Err(NotAccepted(e)) => !PassesChecks(doc) && FailsWith(doc, e)
            case Err(NotLowered(e)) => PassesChecks(doc) && Rejected(doc, e)
            case Err(NotPaged(e)) =>
              && PassesChecks(doc) && doc.steps != [] && Distinct(doc)
              && exists i :: RaisesAtStep(CapabilityText.StandardSyntax(toFloat), doc, i, e)
  {
    var e := SemanticChecks(doc);
    if e.Some? {
      return Err(NotAccepted(e.value));
    }
    var lowered := Lower(doc);
    if lowered.Err? {
      return Err(NotLowered(lowered.error));
    }
    var syn := CapabilityText.StandardSyntax(toFloat);
    AcceptedDocumentPagesExactly(toFloat, doc, lowered.value);
    var paged := ApplyPaging(syn, lowered.value, policy);
    if paged.Err? {
      ghost var n :| RaisesAt(syn, lowered.value.nodes, n, paged.error);
      RaisesInDocument(syn, doc, lowered.value, n, paged.error);
      return Err(NotPaged(paged.error));
    }
    return Ok(paged.value.(policyRef := path));
  }

  ghost predicate Distinct(doc: SopDocument) {
    NoDuplicates(StepIds(doc.steps))
  }

  // ----- Compiled programs run safely -------------------------------------------------------

  /** Every granted request in the log, from record `from` on, is covered by a capability that its step
      declares. */
  ghost predicate GrantsDeclared(syn: Syntax, p: CompiledProgram, h: History, from: nat) {
    forall i, j | from <= i < |h| && 0 <= j < |h[i].exchanges| && h[i].exchanges[j].decision.Granted? ::
      p.Has(h[i].id) && Covered(syn, h[i].exchanges[j].cap, p.Node(h[i].id).declared)
  }

  /** Nothing is paged that is not declared. */
  predicate PagedWithinDeclared(p: CompiledProgram) {
    forall id | id in p.nodes.values :: forall c | c in p.nodes.values[id].paged :: c in p.nodes.values[id].declared
  }

  lemma StepGrantsDeclared(m: Machine, s: Spot, from: nat)
    requires PagedWithinDeclared(m.program) && GrantsDeclared(m.syn, m.program, s.mem.history, from) && m.program.Has(s.id)
    ensures GrantsDeclared(m.syn, m.program, Step(m, s.id, s.mem).history, from)
  {
    StepLaw(m, s.id, s.mem);
    var node, r := m.program.Node(s.id), LastRecord(Step(m, s.id, s.mem));
    forall j | 0 <= j < |r.exchanges| && r.exchanges[j].decision.Granted?
      ensures Covered(m.syn, r.exchanges[j].cap, node.declared)
    {
      assert Exchanged(m, s.id, node, s.mem.history, r.exchanges, j);
      var i :| 0 <= i < |node.paged| && m.syn.parse(node.paged[i]).Ok?
               && Satisfies(m.syn, r.exchanges[j].cap, m.syn.parse(node.paged[i]).value);
      assert node.paged[i] in node.paged;
      var k :| 0 <= k < |node.declared| && node.declared[k] == node.paged[i];
    }
  }

  lemma ExecuteGrantsDeclared(m: Machine, policy: Option<seq<Token>>, maxSteps: int, mem: Memory)
    requires PagedWithinDeclared(m.program)
    ensures GrantsDeclared(m.syn, m.program, Execute(m, policy, maxSteps, mem).mem.history, |mem.history|)
  {
    if Starts(m, policy) {
      var from := |mem.history|;
      forall s: Spot | GrantsDeclared(m.syn, m.program, s.mem.history, from) && m.program.Has(s.id) {
        StepGrantsDeclared(m, s, from);
      }
      var last, left :=
        ExecuteInduction(m, policy, maxSteps, mem, (s: Spot) => GrantsDeclared(m.syn, m.program, s.mem.history, from));
    } else {
      NotStarted(m, policy, maxSteps, mem);
    }
  }

  lemma CompiledProgramIsSound(syn: Syntax, doc: SopDocument, policy: seq<Token>, path: string, q: CompiledProgram)
    requires CompilesTo(syn, doc, policy, path, q)
    ensures ShapedBy(doc, q) && Untampered(syn, q, policy) && PagedWithinDeclared(q)
  {
    var p :| LowersTo(doc, p) && q == Page(syn, p, policy).(policyRef := path);
    LoweringGivesShape(doc, p);
    PagingKeepsShape(syn, doc, p, policy);
    PagedProgramIsUntampered(syn, p, policy, policy);
  }

  /** The chain as a whole. Compile an accepted document under a policy and run it, with any handler, any
      providers and any past, on an executor with or without a policy of its own. It visits reachable
      steps only, and what it grants is both declared by the step at hand and allowed by the policy it was
      compiled under. It starts on every executor that admits it, and then does not come to a step that is
      not there. */
  lemma CompiledRunIsSafe(
      doc: SopDocument, policy: seq<Token>, path: string, own: Option<seq<Token>>, m: Machine, maxSteps: int, mem: Memory)
    requires Accepted(doc) && CompilesTo(m.syn, doc, policy, path, m.program)
    ensures var r := Execute(m, own, maxSteps, mem);
            && AllReachable(doc, r.path)
            && GrantsAllowed(m.syn, r.mem.history, |mem.history|, policy)
            && GrantsDeclared(m.syn, m.program, r.mem.history, |mem.history|)
            && (Starts(m, own) ==> OnlyExpectedError(m.program, r))
    ensures Admits(m.syn, own, policy) ==> Starts(m, own)
  {
    CompiledProgramIsSound(m.syn, doc, policy, path, m.program);
    VisitedIsReachable(doc, m, own, maxSteps, mem);
    UntamperedGrantsAllowed(m, own, policy, maxSteps, mem);
    ExecuteGrantsDeclared(m, own, maxSteps, mem);
    if Admits(m.syn, own, policy) {
      UntamperedStarts(m, own, policy);
    }
    if Starts(m, own) {
      if own.Some? {
        ValidationExactly(m.syn, m.program, own.value);
      }
      AcceptedProgramsDoNotGetStuck(doc, m, own, maxSteps, mem);
    }
  }

  // ----- What the checker vouches for -------------------------------------------------------

  lemma LoweredProgramPagesAll(doc: SopDocument, p: CompiledProgram)
    requires LowersTo(doc, p)
    ensures forall id | p.Has(id) :: p.Node(id).paged == p.Node(id).declared
  {
    forall id | p.Has(id)
      ensures p.Node(id).paged == p.Node(id).declared
    {
      LoweringGivesShape(doc, p);
      var s := NodeHasStep(doc, p, id);
    }
  }

  lemma PageOfSamePages(syn: Syntax, p: CompiledProgram, policy: seq<Token>)
    requires p.policyRef == ""
    requires forall id | p.Has(id) :: Page(syn, p, policy).Node(id).paged == p.Node(id).paged
    ensures Page(syn, p, policy) == p
  {
    var values := Page(syn, p, policy).nodes.values;
    forall id | p.Has(id)
      ensures values[id] == p.nodes.values[id]
    {
      assert Page(syn, p, policy).Node(id) == p.Node(id).(paged := p.Node(id).paged);
    }
    assert values == p.nodes.values;
  }

  /** When `check` passes, paging changes nothing about a lowered program, and so nothing about its runs. */
  lemma CheckedProgramIsNotNarrowed(syn: Syntax, doc: SopDocument, p: CompiledProgram, policy: seq<Token>)
    requires LowersTo(doc, p)
    ensures Violations(syn, Declarations(p), policy) == [] <==> Page(syn, p, policy) == p
  {
    LoweredProgramPagesAll(doc, p);
    CheckPassesExactly(syn, p, policy);
    if Violations(syn, Declarations(p), policy) == [] {
      PageOfSamePages(syn, p, policy);
    }
  }

  /** `cap` repeats one of the texts word for word, in concrete terms. */
  predicate Repeats(syn: Syntax, caps: seq<string>, cap: Token) {
    Concrete(cap) && exists i :: 0 <= i < |caps| && syn.parse(caps[i]) == Ok(cap)
  }

  /** The handler only ever asks for what the step at hand has paged. */
  ghost predicate AsksAsPaged(m: Machine) {
    forall past, id, xs | m.program.Has(id) && m.handler.act(past, m.program.Node(id), xs).Request? ::
      Repeats(m.syn, m.program.Node(id).paged, m.handler.act(past, m.program.Node(id), xs).cap)
  }

  /** The handler only ever asks for what the step at hand declares. */
  ghost predicate AsksAsDeclared(m: Machine) {
    forall past, id, xs | m.program.Has(id) && m.handler.act(past, m.program.Node(id), xs).Request? ::
      Repeats(m.syn, m.program.Node(id).declared, m.handler.act(past, m.program.Node(id), xs).cap)
  }

  predicate PagesParse(syn: Syntax, p: CompiledProgram) {
    forall id | id in p.nodes.values :: AllParse(syn, p.nodes.values[id].paged)
  }

  predicate AllGranted(xs: seq<Exchange>) {
    forall i | 0 <= i < |xs| :: xs[i].decision.Granted?
  }

  lemma RepeatedCapIsGranted(syn: Syntax, node: IrNode, cap: Token)
    requires Repeats(syn, node.paged, cap) && AllParse(syn, node.paged)
    ensures CheckCall(syn, cap, node.paged) == Ok(true)
  {
    var i :| 0 <= i < |node.paged| && syn.parse(node.paged[i]) == Ok(cap);
    SatisfiesReflexiveExactly(syn, cap);
    assert Covered(syn, cap, node.paged);
    GateIsCoverage(syn, cap, node.paged);
  }

  lemma {:induction false} TalkGrantsAll(m: Machine, id: string, past: History, d: Dialogue)
    requires AsksAsPaged(m) && PagesParse(m.syn, m.program) && m.program.Has(id)
    requires AllGranted(d.exchanges)
    ensures AllGranted(Talk(m, id, m.program.Node(id), past, d).exchanges)
    decreases m.handler.patience(past, m.program.Node(id)) - |d.exchanges|
  {
    var node := m.program.Node(id);
    var act := m.handler.act(past, node, d.exchanges);
    if act.Request? {
      RepeatedCapIsGranted(m.syn, node, act.cap);
      var call := RequestTool(m, id, node, past, d.exchanges, act.cap, act.args, d.violation);
      TalkGrantsAll(m, id, past, AfterCall(d, act.cap, act.args, call));
    }
  }

  ghost predicate EveryRequestGranted(h: History, from: nat) {
    forall i | from <= i < |h| :: AllGranted(h[i].exchanges)
  }

  lemma StepGrantsAll(m: Machine, s: Spot, from: nat)
    requires AsksAsPaged(m) && PagesParse(m.syn, m.program)
    requires m.program.Has(s.id) && EveryRequestGranted(s.mem.history, from)
    ensures EveryRequestGranted(Step(m, s.id, s.mem).history, from)
  {
    TalkGrantsAll(m, s.id, s.mem.history, Opening(s.mem.violation));
    StepRecordsTalk(m, s.id, s.mem);
    StepAddsRecord(m, s.id, s.mem);
  }

  lemma ExecuteGrantsAll(m: Machine, policy: Option<seq<Token>>, maxSteps: int, mem: Memory)
    requires AsksAsPaged(m) && PagesParse(m.syn, m.program)
    ensures EveryRequestGranted(Execute(m, policy, maxSteps, mem).mem.history, |mem.history|)
  {
    if Starts(m, policy) {
      var from := |mem.history|;
      forall s: Spot | EveryRequestGranted(s.mem.history, from) && m.program.Has(s.id) {
        StepGrantsAll(m, s, from);
      }
      var last, left :=
        ExecuteInduction(m, policy, maxSteps, mem, (s: Spot) => EveryRequestGranted(s.mem.history, from));
    } else {
      NotStarted(m, policy, maxSteps, mem);
    }
  }

  /** Every request of the run was granted, and a run that returned ended in the handler's own verdict. */
  ghost predicate Undisturbed(r: RunOutcome, from: nat) {
    && EveryRequestGranted(r.mem.history, from)
    && (r.result.Ok? ==>
          && r.result.value.violation.None? && from < |r.mem.history|
          && Some(r.result.value.finalState) == LastRecord(r.mem).returned)
  }

  /** A handler that asks as paged, in concrete terms, is never denied on an executor without a violation. */
  lemma AskingAsPagedIsNeverDenied(m: Machine, policy: Option<seq<Token>>, maxSteps: int, mem: Memory)
    requires AsksAsPaged(m) && PagesParse(m.syn, m.program) && mem.violation.None?
    ensures Undisturbed(Execute(m, policy, maxSteps, mem), |mem.history|)
  {
    ExecuteGrantsAll(m, policy, maxSteps, mem);
    DenialEndsTheRun(m, policy, maxSteps, mem);
  }

  lemma PagesOfPageParse(syn: Syntax, p: CompiledProgram, policy: seq<Token>)
    ensures PagesParse(syn, Page(syn, p, policy))
  {
    var q := Page(syn, p, policy);
    forall id, c | id in q.nodes.values && c in q.nodes.values[id].paged
      ensures syn.parse(c).Ok?
    {
      assert Allows(syn, c, policy);
    }
  }

  /** Paging leaves what is declared, and so what the checker looks at. */
  lemma PagingKeepsDeclarations(syn: Syntax, p: CompiledProgram, policy: seq<Token>, path: string)
    ensures Declarations(Page(syn, p, policy).(policyRef := path)) == Declarations(p)
  {
    var q := Page(syn, p, policy).(policyRef := path);
    forall i | 0 <= i < |p.nodes.keys|
      ensures Declarations(q)[i] == Declarations(p)[i]
    {
      assert p.nodes.keys[i] in p.nodes.keys;
    }
  }

  /** After a passing check every node of the compiled program has paged all it declares. */
  lemma CheckedProgramPagesAll(syn: Syntax, p: CompiledProgram, policy: seq<Token>, path: string)
    requires Violations(syn, Declarations(p), policy) == []
    ensures var q := Page(syn, p, policy).(policyRef := path);
            PagesParse(syn, q) && forall id | q.Has(id) :: q.Node(id).paged == q.Node(id).declared
  {
    CheckPassesExactly(syn, p, policy);
    PagesOfPageParse(syn, p, policy);
    var q := Page(syn, p, policy);
    forall id | q.(policyRef := path).Has(id)
      ensures q.(policyRef := path).Node(id).paged == q.(policyRef := path).Node(id).declared
    {
      assert p.Has(id) && q.Node(id).declared == p.Node(id).declared;
      assert q.(policyRef := path).Node(id) == q.Node(id);
    }
  }

  lemma AskingAsDeclaredIsAskingAsPaged(m: Machine)
    requires AsksAsDeclared(m) && forall id | m.program.Has(id) :: m.program.Node(id).paged == m.program.Node(id).declared
    ensures AsksAsPaged(m)
  {}

  /** The static check is worth having: when it passes on a compiled document, a handler that asks as
      declared is granted every request of a run on an executor without a violation, whatever policy of its
      own that holds, and a run that returns ends in that handler's own verdict. */
  lemma CheckedRunIsNeverDenied(
      doc: SopDocument, policy: seq<Token>, path: string, own: Option<seq<Token>>, m: Machine, maxSteps: int, mem: Memory)
    requires CompilesTo(m.syn, doc, policy, path, m.program)
    requires Violations(m.syn, Declarations(m.program), policy) == []
    requires AsksAsDeclared(m) && mem.violation.None?
    ensures Undisturbed(Execute(m, own, maxSteps, mem), |mem.history|)
  {
    var p :| LowersTo(doc, p) && m.program == Page(m.syn, p, policy).(policyRef := path);
    PagingKeepsDeclarations(m.syn, p, policy, path);
    CheckedProgramPagesAll(m.syn, p, policy, path);
    AskingAsDeclaredIsAskingAsPaged(m);
    AskingAsPagedIsNeverDenied(m, own, maxSteps, mem);
  }

  // ----- Runs follow the document -----------------------------------------------------------

  /** Where the document sends a step that the handler has left with `verdict` on its k-th visit. */
  function DocumentTarget(s: StepNode, k: int, verdict: StepState): Option<string> {
    if s.loop.Some? && k >= s.loop.value then s.onLimit
    else if verdict == DONE then s.onSuccess
    else s.onFailure
  }

  /** The run's move at position `i` is the one that step `s` of the document declares. */
  ghost predicate MovesAsDeclared(s: StepNode, before: Memory, r: RunOutcome, i: nat)
    requires i + 1 < |r.path|
  {
    && s.id == r.path[i] && !s.terminal
    && before.history <= r.mem.history && i < |Own(before, r.mem)|
    && var record := Own(before, r.mem)[i];
    && record.id == s.id && record.returned.Some?
    && var k := CountOf(before.counts, s.id) + Count(r.path[..i + 1], s.id);
    DocumentTarget(s, k, record.returned.value) == Some(r.path[i + 1])
  }

  lemma LawfulMoveIsDeclared(doc: SopDocument, m: Machine, before: Memory, r: RunOutcome, i: nat) returns (s: StepNode)
    requires ShapedBy(doc, m.program) && i + 1 < |r.path| && MovesByTheLaw(m, before, r, i)
    ensures s in doc.steps && MovesAsDeclared(s, before, r, i)
  {
    s := NodeHasStep(doc, m.program, r.path[i]);
  }

  /** Every move of a run, of a lowered program with or without paging, is the one that the document's own
      step declares for the handler's verdict and the number of visits. */
  lemma RunFollowsDocument(doc: SopDocument, m: Machine, policy: Option<seq<Token>>, maxSteps: int, mem: Memory, i: nat)
    returns (s: StepNode)
    requires ShapedBy(doc, m.program) && i + 1 < |Execute(m, policy, maxSteps, mem).path|
    ensures s in doc.steps && MovesAsDeclared(s, mem, Execute(m, policy, maxSteps, mem), i)
  {
    MoveLaw(m, policy, maxSteps, mem, i);
    s := LawfulMoveIsDeclared(doc, m, mem, Execute(m, policy, maxSteps, mem), i);
  }

  /** How a record of a run leaves step `s` on its k-th visit, by what the document says. A handler that raises
      aborts the run. A denied step ends it, and so does a terminal step, in the handler's verdict. From any
      other step the run goes where the document sends that verdict; and it is stuck if, and only if, the
      document sends it nowhere. */
  ghost predicate LeavesAsDeclared(s: StepNode, k: int, record: StepRecord) {
    && record.id == s.id
    && match record.state
       case None => record.returned.None? && record.exit == Aborted(HandlerRaised(s.id))
       case Some(state) =>
         if state == DENIED then record.exit == Finished(DENIED)
         else if s.terminal then record.returned == Some(state) && record.exit == Finished(state)
         else
           && record.returned == Some(state)
           && match DocumentTarget(s, k, state)
              case Some(t) => record.exit == if s.loop.Some? && k >= s.loop.value then ToLimit(t) else ToResult(t)
              case None =>
                record.exit ==
                Aborted(if s.loop.Some? && k >= s.loop.value then LoopWithoutLimitEdge(s.id)
                        else MissingEdge(s.id, if state == DONE then "on_success" else "on_failure"))
  }

  lemma LawfulExitIsDeclared(doc: SopDocument, m: Machine, counts: map<string, int>, h: History, i: nat) returns (s: StepNode)
    requires ShapedBy(doc, m.program) && i < |h| && Follows(m, counts, h, i)
    ensures s in doc.steps
    ensures LeavesAsDeclared(s, CountOf(counts, h[i].id) + Count(IdsOf(h)[..i + 1], h[i].id), h[i])
  {
    s := NodeHasStep(doc, m.program, h[i].id);
    assert m.program.Node(h[i].id).edges == LowerStep(s).edges;
  }

  /** Every record that a run adds leaves its step as the document says, for every run of a lowered program,
      with or without paging: the edges that the document declares can all be taken. */
  lemma RunLeavesAsDeclared(doc: SopDocument, m: Machine, policy: Option<seq<Token>>, maxSteps: int, mem: Memory, i: nat)
    returns (s: StepNode)
    requires ShapedBy(doc, m.program) && Starts(m, policy)
    requires var r := Execute(m, policy, maxSteps, mem); mem.history <= r.mem.history && i < |Own(mem, r.mem)|
    ensures var h := Own(mem, Execute(m, policy, maxSteps, mem).mem);
            && s in doc.steps
            && LeavesAsDeclared(s, CountOf(mem.counts, h[i].id) + Count(IdsOf(h)[..i + 1], h[i].id), h[i])
  {
    RunIsLogged(m, policy, maxSteps, mem);
    s := LawfulExitIsDeclared(doc, m, mem.counts, Own(mem, Execute(m, policy, maxSteps, mem).mem), i);
  }

  // ----- An accepted document that gets stuck -----------------------------------------------

  // Two steps, the first of which says only where success leads.
  const HALF_WIRED := SopDocument("0.1", "", [
    StepNode("s", None, [], Some("t"), None, false, None, None, None),
    StepNode("t", None, [], None, None, true, None, None, None)])

  const ALWAYS_FAILS: StepHandler := Handler((past, node, xs) => Return(FAILED), (past, node) => 0)

  lemma HalfWiredIsAccepted()
    ensures PassesChecks(HALF_WIRED) && Distinct(HALF_WIRED) && NoBlankParameters(HALF_WIRED) && Accepted(HALF_WIRED)
  {
    assert HALF_WIRED.steps[0].id == "s" && HALF_WIRED.steps[1].id == "t";
    assert Ids(HALF_WIRED) == {"s", "t"};
    ReachSelf(DocGraph(HALF_WIRED), "s");
    assert "t" in Targets(HALF_WIRED.steps[0]);
    assert DocGraph(HALF_WIRED)("s", "t");
    ReachStep(DocGraph(HALF_WIRED), "s", "s", "t");
  }

  /** The parser is content with one outgoing edge, so an accepted document can get stuck: here a handler
      fails a step that has no failure edge. */
  lemma AcceptedDocumentGetsStuck(m: Machine, own: Option<seq<Token>>, maxSteps: int)
    requires ShapedBy(HALF_WIRED, m.program) && m.handler == ALWAYS_FAILS && Starts(m, own) && maxSteps > 0
    ensures Accepted(HALF_WIRED)
    ensures Execute(m, own, maxSteps, FRESH).result == Err(MissingEdge("s", ON_FAILURE))
  {
    HalfWiredIsAccepted();
    assert HALF_WIRED.steps[0] in HALF_WIRED.steps;
    ReturnAtOnce(m, "s", Start(m, FRESH).mem, FAILED);
  }

  // ----- A provider that changes its mind -----------------------------------------------------

  // A provider that declares `db:r` when it is registered and nothing afterwards.
  const FICKLE := Provider(
    (now: Moment) => Declaration(if now.Registering? then ["db:r"] else [], None),
    (past, exchanges, cap, args) => Returned(ToolResult(true, None, None)))

  // One terminal step that may call `db:r`, and a handler that calls it once and is done.
  const ONE_CALL := CompiledProgram(
    IR_VERSION, "s", Dict(["s"], map["s" := IrNode(["db:r"], ["db:r"], map[], true, None, None, None)]), "")

  function CallOnce(cap: Token): StepHandler {
    Handler((past, node, xs) => if xs == [] then Request(cap, map[]) else Return(DONE), (past, node) => 1)
  }

  lemma PlainCapability(toFloat: string -> Option<Float>)
    ensures CapabilityText.ParseCapability(toFloat, "db:r") == Ok(Token("db", "r", map[], "db:r"))
  {
    CapabilityText.RenderedCapabilityParsesBack(toFloat, "db", "r", []);
    assert CapabilityText.RenderCapability("db", "r", []) == "db:r";
  }

  /** The registry routes `db:r` to the provider, and the sandbox then refuses to call it. */
  lemma FickleProviderIsRefused(syn: Syntax, cap: Token) returns (index: Index)
    requires syn.parse("db:r") == Ok(cap)
    ensures index == IndexAfter(syn, [Registration(FICKLE, FICKLE.declare(Registering([], 0)))])
    ensures Route(syn, Some(index), [], [], cap, map[]) == Failure(IntegrityViolation(cap.raw))
  {
    var reg := Registration(FICKLE, Declaration(["db:r"], None));
    index := IndexAfter(syn, [reg]);
    assert [reg][..0] == [];
    IndexedMeaning(syn, map[], FICKLE, ["db:r"], KeyOf(cap));
    SandboxRefusesExactly(syn, Some(index), [], [], cap, map[]);
  }

  lemma CallsOnce(m: Machine, cap: Token)
    requires m.program == ONE_CALL && m.handler == CallOnce(cap) && m.syn.parse("db:r") == Ok(cap) && cap.params == map[]
    ensures var x := Exchange(cap, map[], Granted, Route(m.syn, m.index, [], [], cap, map[]));
            var mem := Step(m, "s", Start(m, FRESH).mem);
            && mem.violation.None? && |mem.history| == 1 && mem.history[0].exchanges == [x]
            && mem.history[0].exit == Finished(DONE)
  {
    var node := ONE_CALL.Node("s");
    assert node.paged[0] == "db:r";
    var call := RequestTool(m, "s", node, [], [], cap, map[], None);
    assert Satisfies(m.syn, cap, cap);
    assert call.decision == Granted;
    var d := AfterCall(Opening(None), cap, map[], call);
    assert d.exchanges == [Exchange(cap, map[], Granted, Route(m.syn, m.index, [], [], cap, map[]))];
    assert Talk(m, "s", node, [], d) == d.(returned := Some(DONE));
    assert Talk(m, "s", node, [], Opening(None)) == Talk(m, "s", node, [], d);
  }

  /** A run whose first step finishes is over with it. */
  lemma OneStepRun(m: Machine, maxSteps: int, d: StepState)
    requires m.program.irVersion == IR_VERSION && m.program.Has(m.program.entry) && maxSteps > 0 && d != DENIED
    requires LastRecord(Step(m, m.program.entry, Start(m, FRESH).mem)).exit == Finished(d)
    ensures var r := Execute(m, None, maxSteps, FRESH);
            && r.mem == Step(m, m.program.entry, Start(m, FRESH).mem)
            && r.result == Ok(RunResult(d, [m.program.entry], None))
  {
    assert [] + [m.program.entry] == [m.program.entry];
  }

  /** A sandbox refusal is a failed tool result and not a denial: the run of this program on a registry that
      holds this provider gets one, after a grant, and ends DONE without a violation. */
  lemma SandboxRefusalIsNoDenial(toFloat: string -> Option<Float>) returns (m: Machine, cap: Token)
    ensures m.program == ONE_CALL && m.syn == CapabilityText.StandardSyntax(toFloat)
    ensures m.index == Some(IndexAfter(m.syn, [Registration(FICKLE, FICKLE.declare(Registering([], 0)))]))
    ensures var r := Execute(m, None, 1, FRESH);
            && r.result == Ok(RunResult(DONE, ["s"], None)) && r.mem.violation.None?
            && |r.mem.history| == 1
            && r.mem.history[0].exchanges == [Exchange(cap, map[], Granted, Failure(IntegrityViolation("db:r")))]
  {
    var syn := CapabilityText.StandardSyntax(toFloat);
    PlainCapability(toFloat);
    cap := Token("db", "r", map[], "db:r");
    var index := FickleProviderIsRefused(syn, cap);
    m := Machine(ONE_CALL, CallOnce(cap), Some(index), syn);
    CallsOnce(m, cap);
    OneStepRun(m, 1, DONE);
  }
}
