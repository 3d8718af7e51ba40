/** Safety over whole runs: every grant stands under the policy, no step runs that the parser would
    call unreachable, and compiled programs do not get stuck. */
module Safety {
  import opened Basics
  import opened Capabilities
  import opened Graphs
  import opened Ir
  import opened RunLog
  import opened Parser
  import opened Compiler
  import opened StepMachine
  import opened StepLaws
  import opened RunLaws

  // ----- Policy soundness -----------------------------------------------------------------

  /** Every granted request in the log, from record `from` on, is allowed by the policy. */
  ghost predicate GrantsAllowed(syn: Syntax, h: History, from: nat, policy: seq<Token>) {
    forall i, j | from <= i < |h| && 0 <= j < |h[i].exchanges| && h[i].exchanges[j].decision.Granted? ::
      Allowed(syn, h[i].exchanges[j].cap, policy)
  }

  lemma CoveredByUntampered(syn: Syntax, p: CompiledProgram, id: string, policy: seq<Token>, cap: Token)
    requires p.Has(id) && Untampered(syn, p, policy) && Covered(syn, cap, p.Node(id).paged)
    ensures Allowed(syn, cap, policy)
  {
    var paged := p.Node(id).paged;
    var i :| 0 <= i < |paged| && syn.parse(paged[i]).Ok? && Satisfies(syn, cap, syn.parse(paged[i]).value);
    assert paged[i] in paged;
    AllowedTransitive(syn, cap, syn.parse(paged[i]).value, policy);
  }

  lemma StepGrantsAllowed(m: Machine, id: string, mem: Memory, from: nat, policy: seq<Token>)
    requires m.program.Has(id) && Untampered(m.syn, m.program, policy) && GrantsAllowed(m.syn, mem.history, from, policy)
    ensures GrantsAllowed(m.syn, Step(m, id, mem).history, from, policy)
  {
    StepLaw(m, id, mem);
    var r := LastRecord(Step(m, id, mem));
    forall j | 0 <= j < |r.exchanges| && r.exchanges[j].decision.Granted?
      ensures Allowed(m.syn, r.exchanges[j].cap, policy)
    {
      assert Exchanged(m, id, m.program.Node(id), mem.history, r.exchanges, j);
      CoveredByUntampered(m.syn, m.program, id, policy, r.exchanges[j].cap);
    }
  }

  /** What the paged lists stand for. When every paged entry stands under a policy, a run on any executor,
      whether it holds a policy of its own or not, grants only requests that this policy allows: the gate
      alone sees to it. */
  lemma UntamperedGrantsAllowed(m: Machine, own: Option<seq<Token>>, policy: seq<Token>, maxSteps: int, mem: Memory)
    requires Untampered(m.syn, m.program, policy)
    ensures var r := Execute(m, own, maxSteps, mem);
            mem.history <= r.mem.history && GrantsAllowed(m.syn, r.mem.history, |mem.history|, policy)
  {
    if Starts(m, own) {
      var from := |mem.history|;
      RunIsLogged(m, own, maxSteps, mem);
      forall s: Spot | GrantsAllowed(m.syn, s.mem.history, from, policy) && m.program.Has(s.id) {
        StepGrantsAllowed(m, s.id, s.mem, from, policy);
      }
      var last, left :=
        ExecuteInduction(m, own, maxSteps, mem, (s: Spot) => GrantsAllowed(m.syn, s.mem.history, from, policy));
    } else {
      NotStarted(m, own, maxSteps, mem);
    }
  }

  /** Policy soundness, for any IR whatsoever, however it was edited, any handler, and an executor with any
      past: under a policy, a run either does not start or grants only requests that some policy entry
      allows. */
  lemma PolicySoundness(m: Machine, policy: seq<Token>, maxSteps: int, mem: Memory)
    ensures var r := Execute(m, Some(policy), maxSteps, mem);
            mem.history <= r.mem.history && GrantsAllowed(m.syn, r.mem.history, |mem.history|, policy)
    ensures !Untampered(m.syn, m.program, policy) ==>
              Execute(m, Some(policy), maxSteps, mem).mem == mem && Execute(m, Some(policy), maxSteps, mem).result.Err?
  {
    ValidationExactly(m.syn, m.program, policy);
    if Untampered(m.syn, m.program, policy) {
      UntamperedGrantsAllowed(m, Some(policy), policy, maxSteps, mem);
    } else {
      NotStarted(m, Some(policy), maxSteps, mem);
    }
  }

  /** Every granted request in the log, from record `from` on, lies within an entry of the policy, in plain
      terms: its namespace and action, all its parameters, and its numeric bounds. */
  ghost predicate GrantsPlainlyWithin(h: History, from: nat, policy: seq<Token>) {
    forall i, j | from <= i < |h| && 0 <= j < |h[i].exchanges| && h[i].exchanges[j].decision.Granted? ::
      exists e :: e in policy && PlainlyWithin(h[i].exchanges[j].cap, e)
  }

  lemma AllowedGrantsLiePlainlyWithin(syn: Syntax, h: History, from: nat, policy: seq<Token>)
    requires GrantsAllowed(syn, h, from, policy)
    ensures GrantsPlainlyWithin(h, from, policy)
  {
    forall i, j | from <= i < |h| && 0 <= j < |h[i].exchanges| && h[i].exchanges[j].decision.Granted?
      ensures exists e :: e in policy && PlainlyWithin(h[i].exchanges[j].cap, e)
    {
      AllowedPlainly(syn, h[i].exchanges[j].cap, policy);
    }
  }

  /** What a policy keeps out, whoever edited the IR: a run under a policy, or of paged IR that stands under
      one, is granted no request of another namespace or action, none that leaves out a parameter of the
      entry it comes under, and none beyond that entry's numeric bounds. */
  lemma RunsStayPlainlyWithin(m: Machine, own: Option<seq<Token>>, policy: seq<Token>, maxSteps: int, mem: Memory)
    requires own == Some(policy) || Untampered(m.syn, m.program, policy)
    ensures GrantsPlainlyWithin(Execute(m, own, maxSteps, mem).mem.history, |mem.history|, policy)
  {
    if Untampered(m.syn, m.program, policy) {
      UntamperedGrantsAllowed(m, own, policy, maxSteps, mem);
    } else {
      PolicySoundness(m, policy, maxSteps, mem);
    }
    AllowedGrantsLiePlainlyWithin(m.syn, Execute(m, own, maxSteps, mem).mem.history, |mem.history|, policy);
  }

  /** Pages made under a policy pass the start-up validation under that policy and any wider one. */
  lemma PagedProgramIsUntampered(syn: Syntax, p: CompiledProgram, narrow: seq<Token>, wide: seq<Token>)
    requires AllowsMore(syn, narrow, wide)
    ensures Untampered(syn, Page(syn, p, narrow), wide)
  {
    var q := Page(syn, p, narrow);
    forall id, c | id in q.nodes.values && c in q.nodes.values[id].paged
      ensures syn.parse(c).Ok? && Allowed(syn, syn.parse(c).value, wide)
    {
      assert Allows(syn, c, narrow);
    }
  }

  /** An executor with a policy of its own lets a program paged under `policy` start if that is one which
      allows no less; an executor without one lets every program start. */
  ghost predicate Admits(syn: Syntax, own: Option<seq<Token>>, policy: seq<Token>) {
    own.Some? ==> AllowsMore(syn, policy, own.value)
  }

  /** A program paged under `policy` starts on every executor that admits it. */
  lemma UntamperedStarts(m: Machine, own: Option<seq<Token>>, policy: seq<Token>)
    requires m.program.irVersion == IR_VERSION && Untampered(m.syn, m.program, policy) && Admits(m.syn, own, policy)
    ensures Starts(m, own)
  {
    if own.Some? {
      ValidationExactly(m.syn, m.program, own.value);
      forall id, c | id in m.program.nodes.values && c in m.program.nodes.values[id].paged
        ensures m.syn.parse(c).Ok? && Allowed(m.syn, m.syn.parse(c).value, own.value)
      {
        assert Sound(m.syn, m.program.nodes.values[id].paged, policy);
      }
    }
  }

  // ----- What a run can visit -------------------------------------------------------------

  /** An edge of the program that a run can follow. */
  ghost predicate ProgramEdge(p: CompiledProgram, a: string, b: string) {
    && p.Has(a)
    && !p.Node(a).terminal
    && (|| (p.Node(a).loop.Some? && p.Node(a).onLimit == Some(b))
        || (ON_SUCCESS in p.Node(a).edges && p.Node(a).edges[ON_SUCCESS] == b)
        || (ON_FAILURE in p.Node(a).edges && p.Node(a).edges[ON_FAILURE] == b))
  }

  lemma MoveFollowsProgramEdge(m: Machine, s: Spot)
    requires Moves(m, s)
    ensures ProgramEdge(m.program, s.id, Arrive(m, s).id)
  {
    StepLaw(m, s.id, s.mem);
  }

  lemma ProgramEdgeIsDeclared(doc: SopDocument, p: CompiledProgram, a: string, b: string)
    requires ShapedBy(doc, p) && ProgramEdge(p, a, b)
    ensures DeclaredEdge(doc.steps, a, b)
  {
    var s := NodeHasStep(doc, p, a);
    var i :| 0 <= i < |doc.steps| && doc.steps[i] == s;
    assert b in Targets(doc.steps[i]);
  }

  ghost predicate AllReachable(doc: SopDocument, ids: seq<string>)
    requires doc.steps != []
  {
    forall x | x in ids :: ReachableStep(doc, x)
  }

  lemma MoveStaysReachable(doc: SopDocument, m: Machine, s: Spot)
    requires ShapedBy(doc, m.program) && AllReachable(doc, s.path + [s.id]) && Moves(m, s)
    ensures AllReachable(doc, Arrive(m, s).path + [Arrive(m, s).id])
  {
    assert s.id in s.path + [s.id] && ReachableStep(doc, s.id);
    MoveFollowsProgramEdge(m, s);
    ProgramEdgeIsDeclared(doc, m.program, s.id, Arrive(m, s).id);
    ReachStep(DocGraph(doc), doc.steps[0].id, s.id, Arrive(m, s).id);
  }

  /** Static reachability is sound: whatever the handler and the paging, a run of a program of the
      document visits only ids that the parser's worklist visits. */
  lemma VisitedIsReachable(doc: SopDocument, m: Machine, policy: Option<seq<Token>>, maxSteps: int, mem: Memory)
    requires ShapedBy(doc, m.program)
    ensures AllReachable(doc, Execute(m, policy, maxSteps, mem).path)
  {
    if Starts(m, policy) {
      ReachSelf(DocGraph(doc), doc.steps[0].id);
      forall s: Spot | AllReachable(doc, s.path + [s.id]) && Moves(m, s) {
        MoveStaysReachable(doc, m, s);
      }
      var last, left := ExecuteInduction(m, policy, maxSteps, mem, (s: Spot) => AllReachable(doc, s.path + [s.id]));
      assert forall x | x in last.path :: x in last.path + [last.id];
    } else {
      NotStarted(m, policy, maxSteps, mem);
    }
  }

  // ----- Nothing left unresolved -----------------------------------------------------------

  /** Every edge that a run can follow leads to a step. */
  ghost predicate Resolved(p: CompiledProgram) {
    p.Has(p.entry) && forall a, b | ProgramEdge(p, a, b) :: p.Has(b)
  }

  /** No verdict and no exhausted loop finds its edge missing. */
  predicate FullyWired(p: CompiledProgram) {
    forall id | id in p.nodes.values && !p.nodes.values[id].terminal ::
      && ON_SUCCESS in p.nodes.values[id].edges
      && ON_FAILURE in p.nodes.values[id].edges
      && (p.nodes.values[id].loop.Some? ==> p.nodes.values[id].onLimit.Some?)
  }

  lemma StepsAreNodes(doc: SopDocument, p: CompiledProgram, id: string)
    requires ShapedBy(doc, p) && id in Ids(doc)
    ensures p.Has(id)
  {
    var i :| 0 <= i < |doc.steps| && doc.steps[i].id == id;
    assert doc.steps[i] in doc.steps;
  }

  lemma ResolvedEdge(doc: SopDocument, p: CompiledProgram, a: string, b: string)
    requires AllResolve(doc) && ShapedBy(doc, p) && ProgramEdge(p, a, b)
    ensures p.Has(b)
  {
    var s := NodeHasStep(doc, p, a);
    assert StepResolves(s, Ids(doc)) && !s.terminal;
    StepsAreNodes(doc, p, b);
  }

  lemma AcceptedProgramIsResolved(doc: SopDocument, p: CompiledProgram)
    requires Accepted(doc) && ShapedBy(doc, p)
    ensures Resolved(p)
  {
    StepsAreNodes(doc, p, doc.steps[0].id);
    forall a, b | ProgramEdge(p, a, b)
      ensures p.Has(b)
    {
      ResolvedEdge(doc, p, a, b);
    }
  }

  lemma ResolvedNodeHasEdge(doc: SopDocument, p: CompiledProgram, id: string)
    requires AllResolve(doc) && ShapedBy(doc, p) && p.Has(id) && !p.Node(id).terminal
    ensures p.Node(id).edges != map[]
  {
    var s := NodeHasStep(doc, p, id);
    assert StepResolves(s, Ids(doc));
    assert p.Node(id).edges == LowerStep(s).edges;
    assert if s.onSuccess.Some? then ON_SUCCESS in p.Node(id).edges else ON_FAILURE in p.Node(id).edges;
  }

  /** Every edge that a run can follow leads to a step, and every step that does not end the procedure has an
      edge for some verdict. */
  ghost predicate EdgesLead(p: CompiledProgram) {
    && (forall a, b | ProgramEdge(p, a, b) :: p.Has(b))
    && (forall id | p.Has(id) && !p.Node(id).terminal :: p.Node(id).edges != map[])
  }

  lemma NodeIsResolved(doc: SopDocument, p: CompiledProgram, s: StepNode)
    requires ShapedBy(doc, p) && s in doc.steps && !s.terminal
    requires EdgesLead(p)
    ensures StepResolves(s, Ids(doc))
  {
    forall b | ProgramEdge(p, s.id, b)
      ensures b in Ids(doc)
    {
      var t := NodeHasStep(doc, p, b);
    }
    assert p.Node(s.id).edges == LowerStep(s).edges;
    assert s.onSuccess.Some? ==> ProgramEdge(p, s.id, s.onSuccess.value);
    assert s.onFailure.Some? ==> ProgramEdge(p, s.id, s.onFailure.value);
    assert s.loop.Some? && s.onLimit.Some? ==> ProgramEdge(p, s.id, s.onLimit.value);
  }

  lemma ResolvedEdgesLead(doc: SopDocument, p: CompiledProgram)
    requires ShapedBy(doc, p) && AllResolve(doc)
    ensures EdgesLead(p)
  {
    forall a, b | ProgramEdge(p, a, b) {
      ResolvedEdge(doc, p, a, b);
    }
    forall id | p.Has(id) && !p.Node(id).terminal {
      ResolvedNodeHasEdge(doc, p, id);
    }
  }

  /** What the parser's edge check comes to, exactly: it passes a document with distinct step ids if and only
      if the edges of its program lead somewhere. */
  lemma EdgeCheckExactly(doc: SopDocument, p: CompiledProgram)
    requires ShapedBy(doc, p)
    ensures AllResolve(doc) <==> EdgesLead(p)
  {
    if AllResolve(doc) {
      ResolvedEdgesLead(doc, p);
    }
    if EdgesLead(p) {
      forall s | s in doc.steps && !s.terminal {
        NodeIsResolved(doc, p, s);
      }
    }
  }

  /** The ways to fail that a resolved program leaves open. */
  predicate OnlyExpectedError(p: CompiledProgram, r: RunOutcome) {
    r.result.Err? ==>
      && !r.result.error.StepNotFound?
      && (FullyWired(p) ==> r.result.error.StepLimitExceeded? || r.result.error.HandlerRaised?)
  }

  lemma ExpectedAtEnd(m: Machine, s: Spot, left: nat)
    requires m.program.Has(s.id) && (left == 0 || !Moves(m, s))
    ensures OnlyExpectedError(m.program, EndOf(m, s, left))
  {
    StepLaw(m, s.id, s.mem);
    StepAbortsForItsOwnReason(m, s.id, s.mem);
  }

  /** A program of an accepted document, paged or not, never raises "step not found", for any handler;
      if every non-terminal step has both edges and every loop a limit edge, then apart from an
      exception of the handler's own the step limit is the only way to fail. */
  lemma AcceptedProgramsDoNotGetStuck(doc: SopDocument, m: Machine, policy: Option<seq<Token>>, maxSteps: int, mem: Memory)
    requires Accepted(doc) && ShapedBy(doc, m.program)
    requires policy.Some? ==> Untampered(m.syn, m.program, policy.value)
    ensures OnlyExpectedError(m.program, Execute(m, policy, maxSteps, mem))
  {
    AcceptedProgramIsResolved(doc, m.program);
    if policy.Some? {
      ValidationExactly(m.syn, m.program, policy.value);
    }
    forall s: Spot | m.program.Has(s.id) && Moves(m, s)
      ensures m.program.Has(Arrive(m, s).id)
    {
      MoveFollowsProgramEdge(m, s);
    }
    var last, left := ExecuteInduction(m, policy, maxSteps, mem, (s: Spot) => m.program.Has(s.id));
    ExpectedAtEnd(m, last, left);
  }
}
