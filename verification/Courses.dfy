/** The ways that runs can take through a program, whoever steers them, and where they can get stuck. */
module Courses {
  import opened Basics
  import opened Capabilities
  import opened Ir
  import opened RunLog
  import opened StepMachine
  import opened StepLaws

  // ----- Courses --------------------------------------------------------------------------

  /** Where a run is, as far as the way it can go from here depends on it: the step, and the visits of
      looping steps counted so far. */
  datatype Config = Config(id: string, counts: map<string, int>)

  /** The counters when the step is left along an edge. */
  function CountsAfter(p: CompiledProgram, c: Config): map<string, int>
    requires p.Has(c.id)
  {
    if p.Node(c.id).loop.Some? then c.counts[c.id := CountOf(c.counts, c.id) + 1] else c.counts
  }

  /** The verdict sends the run from `c` on to `d`. */
  predicate Leads(p: CompiledProgram, c: Config, verdict: StepState, d: Config) {
    && p.Has(c.id)
    && Next(ExitOf(c.id, p.Node(c.id), CountOf(c.counts, c.id) + 1, verdict)) == Some(d.id)
    && d.counts == CountsAfter(p, c)
  }

  ghost predicate CanMove(p: CompiledProgram, c: Config, d: Config) {
    exists verdict: StepState :: Leads(p, c, verdict, d)
  }

  /** A way that a run can take from the entry, as some handler steers it. */
  ghost predicate Course(p: CompiledProgram, counts: map<string, int>, cs: seq<Config>) {
    && cs != [] && cs[0] == Config(p.entry, counts)
    && forall i | 0 < i < |cs| :: CanMove(p, cs[i - 1], cs[i])
  }

  lemma CourseMoves(p: CompiledProgram, counts: map<string, int>, cs: seq<Config>, k: nat)
    requires Course(p, counts, cs) && k + 1 < |cs|
    ensures CanMove(p, cs[k], cs[k + 1])
  {
    assert CanMove(p, cs[k + 1 - 1], cs[k + 1]);
  }

  // ----- Runs take courses ------------------------------------------------------------------

  /** On arrival the run has taken a course. */
  ghost predicate OnCourse(p: CompiledProgram, counts: map<string, int>, s: Spot) {
    exists cs :: CourseTo(p, counts, cs, s)
  }

  ghost predicate CourseTo(p: CompiledProgram, counts: map<string, int>, cs: seq<Config>, s: Spot) {
    Course(p, counts, cs) && |cs| == |s.path| + 1 && cs[|cs| - 1] == Config(s.id, s.mem.counts)
  }

  lemma StartsOnCourse(m: Machine, mem: Memory)
    ensures OnCourse(m.program, mem.counts, Start(m, mem))
  {
    assert CourseTo(m.program, mem.counts, [Config(m.program.entry, mem.counts)], Start(m, mem));
  }

  lemma MoveKeepsCourse(m: Machine, counts: map<string, int>, s: Spot)
    requires OnCourse(m.program, counts, s) && Moves(m, s)
    ensures OnCourse(m.program, counts, Arrive(m, s))
  {
    var cs :| CourseTo(m.program, counts, cs, s);
    StepLaw(m, s.id, s.mem);
    MovingStep(m, s);
    var t := Arrive(m, s);
    assert Leads(m.program, Config(s.id, s.mem.counts), LastRecord(t.mem).state.value, Config(t.id, t.mem.counts));
    assert CourseTo(m.program, counts, cs + [Config(t.id, t.mem.counts)], t);
  }

  /** A handler that returns at once requests nothing. */
  lemma ReturnAtOnce(m: Machine, id: string, mem: Memory, s: StepState)
    requires m.program.Has(id) && mem.violation.None?
    requires m.handler.act(mem.history, m.program.Node(id), []) == Return(s)
    ensures Talk(m, id, m.program.Node(id), mem.history, Opening(mem.violation)) == Dialogue([], Some(s), None, [])
    ensures LastRecord(Step(m, id, mem)).exit == ExitOf(id, m.program.Node(id), CountOf(mem.counts, id) + 1, s)
    ensures Step(m, id, mem).violation.None? && |Step(m, id, mem).history| == |mem.history| + 1
  {}

  // ----- Every course is taken --------------------------------------------------------------

  /** The handler that requests nothing and, counting the steps executed since `before`, returns the
      verdicts of a plan. */
  function Scripted(plan: seq<StepState>, before: nat): StepHandler {
    Handler((past, node, exchanges) =>
              Return(if before <= |past| < before + |plan| then plan[|past| - before] else DONE),
            (past, node) => 0)
  }

  /** The plan leads along the course. */
  predicate Plans(p: CompiledProgram, cs: seq<Config>, plan: seq<StepState>) {
    |plan| <= |cs| && forall k | 0 <= k < |plan| && k + 1 < |cs| :: Leads(p, cs[k], plan[k], cs[k + 1])
  }

  lemma {:induction false} PlanOf(p: CompiledProgram, counts: map<string, int>, cs: seq<Config>) returns (plan: seq<StepState>)
    requires Course(p, counts, cs)
    ensures |plan| == |cs| - 1 && Plans(p, cs, plan)
    decreases |cs|
  {
    if |cs| == 1 {
      return [];
    }
    var n := |cs| - 1;
    plan := PlanOf(p, counts, cs[..n]);
    CourseMoves(p, counts, cs, n - 1);
    var verdict: StepState :| Leads(p, cs[n - 1], verdict, cs[n]);
    plan := plan + [verdict];
  }

  /** The run has come as far along the course as it has executed steps. */
  predicate OnScript(cs: seq<Config>, before: nat, s: Spot) {
    && s.mem.violation.None?
    && before <= |s.mem.history| < before + |cs|
    && Config(s.id, s.mem.counts) == cs[|s.mem.history| - before]
    && |s.path| == |s.mem.history| - before
  }

  ghost predicate Recites(m: Machine, plan: seq<StepState>, before: nat) {
    forall past, node | before <= |past| < before + |plan| ::
      m.handler.act(past, node, []) == Return(plan[|past| - before])
  }

  /** A step of the script is left as its verdict says. */
  lemma ScriptedStep(m: Machine, c: Config, verdict: StepState, s: Spot)
    requires m.program.Has(c.id) && Config(s.id, s.mem.counts) == c && s.mem.violation.None?
    requires m.handler.act(s.mem.history, m.program.Node(c.id), []) == Return(verdict)
    ensures LastRecord(Step(m, s.id, s.mem)).exit == ExitOf(c.id, m.program.Node(c.id), CountOf(c.counts, c.id) + 1, verdict)
    ensures Moves(m, s) ==>
              var t := Arrive(m, s);
              && Leads(m.program, c, verdict, Config(t.id, t.mem.counts))
              && t.mem.violation.None? && |t.mem.history| == |s.mem.history| + 1 && |t.path| == |s.path| + 1
  {
    ReturnAtOnce(m, s.id, s.mem, verdict);
    if Moves(m, s) {
      StepLaw(m, s.id, s.mem);
      MovingStep(m, s);
    }
  }

  /** Two moves of one verdict lead to one configuration. */
  lemma LeadsToOne(p: CompiledProgram, c: Config, verdict: StepState, d: Config, d': Config)
    requires Leads(p, c, verdict, d) && Leads(p, c, verdict, d')
    ensures d == d'
  {}

  // ----- Getting stuck ----------------------------------------------------------------------

  /** The program has no way on from `c`: no such step, or not the edge that the verdict asks for. */
  predicate Stuck(p: CompiledProgram, c: Config, verdict: StepState) {
    p.Has(c.id) ==> ExitOf(c.id, p.Node(c.id), CountOf(c.counts, c.id) + 1, verdict).Aborted?
  }

  ghost predicate DeadEnd(p: CompiledProgram, counts: map<string, int>, cs: seq<Config>, verdict: StepState) {
    Course(p, counts, cs) && Stuck(p, cs[|cs| - 1], verdict)
  }

  /** The errors that a run raises because of the program's graph. */
  predicate GraphError(r: RunOutcome) {
    r.result.Err? && (r.result.error.StepNotFound? || r.result.error.MissingEdge? || r.result.error.LoopWithoutLimitEdge?)
  }

  /** Some handler, with some registry and step limit, gets the call stuck. */
  ghost predicate CanGetStuck(m: Machine, policy: Option<seq<Token>>, mem: Memory) {
    exists other: Machine, limit: int :: GetsStuck(m, policy, mem, other, limit)
  }

  ghost predicate GetsStuck(m: Machine, policy: Option<seq<Token>>, mem: Memory, other: Machine, limit: int) {
    other.program == m.program && other.syn == m.syn && GraphError(Execute(other, policy, limit, mem))
  }

  lemma ScriptMoves(m: Machine, cs: seq<Config>, plan: seq<StepState>, before: nat, s: Spot)
    requires cs != [] && |plan| == |cs| && Plans(m.program, cs, plan) && Stuck(m.program, cs[|cs| - 1], plan[|cs| - 1])
    requires Recites(m, plan, before) && OnScript(cs, before, s)
    ensures if |s.mem.history| - before < |cs| - 1 then Moves(m, s) && OnScript(cs, before, Arrive(m, s))
            else !Moves(m, s) && GraphError(EndOf(m, s, 1))
  {
    var k := |s.mem.history| - before;
    if k < |cs| - 1 {
      assert Leads(m.program, cs[k], plan[k], cs[k + 1]);
      ScriptedStep(m, cs[k], plan[k], s);
      LeadsToOne(m.program, cs[k], plan[k], cs[k + 1], Config(Arrive(m, s).id, Arrive(m, s).mem.counts));
    } else if m.program.Has(s.id) {
      ScriptedStep(m, cs[k], plan[k], s);
    }
  }

  lemma DeadEndGetsStuck(
      m: Machine, policy: Option<seq<Token>>, mem: Memory, cs: seq<Config>, plan: seq<StepState>)
    requires Starts(m, policy) && mem.violation.None?
    requires Course(m.program, mem.counts, cs) && |plan| == |cs| && Plans(m.program, cs, plan)
    requires Stuck(m.program, cs[|cs| - 1], plan[|cs| - 1]) && m.handler == Scripted(plan, |mem.history|)
    ensures GraphError(Execute(m, policy, |cs|, mem))
  {
    var before := |mem.history|;
    assert Recites(m, plan, before);
    forall s | OnScript(cs, before, s) && Moves(m, s)
      ensures OnScript(cs, before, Arrive(m, s))
    {
      ScriptMoves(m, cs, plan, before, s);
    }
    var last, left := ExecuteInduction(m, policy, |cs|, mem, (s: Spot) => OnScript(cs, before, s));
    ScriptMoves(m, cs, plan, before, last);
  }

  lemma StuckRunHasDeadEnd(m: Machine, counts: map<string, int>, s: Spot, left: nat)
    requires OnCourse(m.program, counts, s) && s.mem.violation.None? && (left == 0 || !Moves(m, s))
    requires GraphError(EndOf(m, s, left))
    ensures exists cs, verdict :: DeadEnd(m.program, counts, cs, verdict)
  {
    var cs :| CourseTo(m.program, counts, cs, s);
    if m.program.Has(s.id) {
      StepLaw(m, s.id, s.mem);
      assert DeadEnd(m.program, counts, cs, LastRecord(Step(m, s.id, s.mem)).state.value);
    } else {
      assert DeadEnd(m.program, counts, cs, DONE);
    }
  }

  /** An executor that holds a violation gets stuck only where there is no entry step. */
  lemma LatchedGetsStuckAtEntry(m: Machine, policy: Option<seq<Token>>, limit: int, mem: Memory)
    requires Starts(m, policy) && mem.violation.Some? && m.program.Has(m.program.entry)
    ensures !GraphError(Execute(m, policy, limit, mem))
  {
    var start := Start(m, mem);
    StepLaw(m, start.id, start.mem);
    if Moves(m, start) {
      MovingStep(m, start);
    }
  }

  lemma StuckCallHasDeadEnd(m: Machine, policy: Option<seq<Token>>, limit: int, mem: Memory)
    requires Starts(m, policy) && mem.violation.None? && GraphError(Execute(m, policy, limit, mem))
    ensures exists cs, verdict :: DeadEnd(m.program, mem.counts, cs, verdict)
  {
    var counts := mem.counts;
    StartsOnCourse(m, mem);
    forall s | OnCourse(m.program, counts, s) && s.mem.violation.None? && Moves(m, s)
      ensures OnCourse(m.program, counts, Arrive(m, s)) && Arrive(m, s).mem.violation.None?
    {
      MoveKeepsCourse(m, counts, s);
      MovingStep(m, s);
    }
    var last, left := ExecuteInduction(
      m, policy, limit, mem, (s: Spot) => OnCourse(m.program, counts, s) && s.mem.violation.None?);
    StuckRunHasDeadEnd(m, counts, last, left);
  }

  lemma DeadEndIsReached(m: Machine, policy: Option<seq<Token>>, mem: Memory, cs: seq<Config>, verdict: StepState)
    requires Starts(m, policy) && mem.violation.None? && DeadEnd(m.program, mem.counts, cs, verdict)
    ensures CanGetStuck(m, policy, mem)
  {
    var plan := PlanOf(m.program, mem.counts, cs);
    var other := m.(handler := Scripted(plan + [verdict], |mem.history|));
    DeadEndGetsStuck(other, policy, mem, cs, plan + [verdict]);
    assert GetsStuck(m, policy, mem, other, |cs|);
  }

  /** When a call can fail for want of a step or an edge, exactly: it starts, and a course from the entry
      leads to a step that is not there or to a verdict without an edge; or, on an executor that holds a
      violation and so makes one step at most, the entry itself is not there. */
  lemma GetsStuckExactly(m: Machine, policy: Option<seq<Token>>, mem: Memory)
    ensures CanGetStuck(m, policy, mem) <==>
            && Starts(m, policy)
            && if mem.violation.Some? then !m.program.Has(m.program.entry)
               else exists cs, verdict :: DeadEnd(m.program, mem.counts, cs, verdict)
  {
    if other, limit :| GetsStuck(m, policy, mem, other, limit) {
      if !Starts(m, policy) {
        NotStarted(other, policy, limit, mem);
      } else if mem.violation.None? {
        StuckCallHasDeadEnd(other, policy, limit, mem);
      } else if m.program.Has(m.program.entry) {
        LatchedGetsStuckAtEntry(other, policy, limit, mem);
      }
    }
    if Starts(m, policy) && mem.violation.None? {
      if cs, verdict :| DeadEnd(m.program, mem.counts, cs, verdict) {
        DeadEndIsReached(m, policy, mem, cs, verdict);
      }
    }
    if Starts(m, policy) && mem.violation.Some? && !m.program.Has(m.program.entry) {
      assert GetsStuck(m, policy, mem, m, 1);
    }
  }
}
