/** What a run can be granted, exactly. */
module Grants {
  import opened Basics
  import opened Capabilities
  import opened Ir
  import opened RunLog
  import opened Gate
  import opened StepMachine
  import opened StepLaws
  import opened Courses
  import opened Termination

  /** The log, from record `from` on, holds a grant of the request. */
  ghost predicate HoldsGrant(h: History, from: nat, cap: Token) {
    exists i, j :: GrantAt(h, from, cap, i, j)
  }

  predicate GrantAt(h: History, from: nat, cap: Token, i: int, j: int) {
    && from <= i < |h| && 0 <= j < |h[i].exchanges|
    && h[i].exchanges[j].cap == cap && h[i].exchanges[j].decision.Granted?
  }

  /** Some handler, with some registry and step limit, is granted the request by the call. */
  ghost predicate CanBeGranted(m: Machine, own: Option<seq<Token>>, mem: Memory, cap: Token) {
    exists other: Machine, limit: int :: IsGranted(m, own, mem, cap, other, limit)
  }

  ghost predicate IsGranted(m: Machine, own: Option<seq<Token>>, mem: Memory, cap: Token, other: Machine, limit: int) {
    && other.program == m.program && other.syn == m.syn
    && HoldsGrant(Execute(other, own, limit, mem).mem.history, |mem.history|, cap)
  }

  /** A course leads to a step whose gate grants the request. An executor that holds a violation does not
      get further than the entry. */
  ghost predicate WayToGrant(p: CompiledProgram, syn: Syntax, mem: Memory, cap: Token, cs: seq<Config>) {
    && Course(p, mem.counts, cs)
    && (mem.violation.Some? ==> |cs| == 1)
    && p.Has(cs[|cs| - 1].id)
    && CheckCall(syn, cap, p.Node(cs[|cs| - 1].id).paged) == Ok(true)
  }

  // ----- What is granted lies on a course ------------------------------------------------------

  /** On arrival every grant so far was on the way, and a latched executor is still at its entry. */
  ghost predicate GrantsOnTheWay(m: Machine, mem: Memory, s: Spot) {
    && OnCourse(m.program, mem.counts, s)
    && (mem.violation.Some? ==> s.path == [] && s.mem.violation.Some?)
    && |mem.history| <= |s.mem.history|
    && OnlyGrantsOnTheWay(m, mem, s.mem.history)
  }

  ghost predicate OnlyGrantsOnTheWay(m: Machine, mem: Memory, h: History) {
    forall cap | HoldsGrant(h, |mem.history|, cap) :: exists cs :: WayToGrant(m.program, m.syn, mem, cap, cs)
  }

  lemma StepGrantsOnTheWay(m: Machine, mem: Memory, s: Spot)
    requires GrantsOnTheWay(m, mem, s) && m.program.Has(s.id)
    ensures OnlyGrantsOnTheWay(m, mem, Step(m, s.id, s.mem).history)
  {
    StepLaw(m, s.id, s.mem);
    var h, r := s.mem.history, LastRecord(Step(m, s.id, s.mem));
    var cs :| CourseTo(m.program, mem.counts, cs, s);
    forall cap | HoldsGrant(h + [r], |mem.history|, cap)
      ensures exists cs :: WayToGrant(m.program, m.syn, mem, cap, cs)
    {
      var i, j :| GrantAt(h + [r], |mem.history|, cap, i, j);
      if i < |h| {
        assert GrantAt(h, |mem.history|, cap, i, j);
        assert HoldsGrant(h, |mem.history|, cap);
      } else {
        assert Exchanged(m, s.id, m.program.Node(s.id), h, r.exchanges, j);
        assert WayToGrant(m.program, m.syn, mem, cap, cs);
      }
    }
  }

  lemma MoveGrantsOnTheWay(m: Machine, mem: Memory, s: Spot)
    requires GrantsOnTheWay(m, mem, s) && Moves(m, s)
    ensures GrantsOnTheWay(m, mem, Arrive(m, s))
  {
    StepGrantsOnTheWay(m, mem, s);
    MoveKeepsCourse(m, mem.counts, s);
    MovingStep(m, s);
    StepAddsRecord(m, s.id, s.mem);
  }

  lemma CallGrantsOnTheWay(m: Machine, own: Option<seq<Token>>, limit: int, mem: Memory)
    requires Starts(m, own)
    ensures OnlyGrantsOnTheWay(m, mem, Execute(m, own, limit, mem).mem.history)
  {
    StartsOnCourse(m, mem);
    forall s | GrantsOnTheWay(m, mem, s) && Moves(m, s) {
      MoveGrantsOnTheWay(m, mem, s);
    }
    var last, left := ExecuteInduction(m, own, limit, mem, (s: Spot) => GrantsOnTheWay(m, mem, s));
    if m.program.Has(last.id) {
      StepGrantsOnTheWay(m, mem, last);
    }
  }

  // ----- What lies on a course can be granted --------------------------------------------------

  /** The handler that follows a plan, and then requests the tool. */
  function Asking(plan: seq<StepState>, before: nat, cap: Token): StepHandler {
    Handler((past, node, exchanges) =>
              if |past| == before + |plan| && exchanges == [] then Request(cap, map[])
              else Return(if before <= |past| < before + |plan| then plan[|past| - before] else DONE),
            (past, node) => 1)
  }

  ghost predicate Asks(m: Machine, plan: seq<StepState>, before: nat, cap: Token) {
    && Recites(m, plan, before)
    && forall past, node | |past| == before + |plan| :: m.handler.act(past, node, []) == Request(cap, map[])
  }

  /** A step whose handler first asks for what the gate grants has that grant in its record. */
  lemma AskedIsGranted(m: Machine, id: string, mem: Memory, cap: Token)
    requires m.program.Has(id) && CheckCall(m.syn, cap, m.program.Node(id).paged) == Ok(true)
    requires m.handler.act(mem.history, m.program.Node(id), []) == Request(cap, map[])
    ensures var xs := LastRecord(Step(m, id, mem)).exchanges;
            xs != [] && xs[0].cap == cap && xs[0].decision.Granted?
  {
    var node, d := m.program.Node(id), Opening(mem.violation);
    var call := RequestTool(m, id, node, mem.history, [], cap, map[], mem.violation);
    var d' := AfterCall(d, cap, map[], call);
    assert Talk(m, id, node, mem.history, d) == Talk(m, id, node, mem.history, d');
    TalkExtends(m, id, node, mem.history, d');
    StepRecordsTalk(m, id, mem);
    assert d'.exchanges[0] == LastRecord(Step(m, id, mem)).exchanges[0];
  }

  /** The run is on its way along the course, or has its grant. */
  ghost predicate OnTheWay(cs: seq<Config>, before: nat, cap: Token, s: Spot) {
    || HoldsGrant(s.mem.history, before, cap)
    || (&& before <= |s.mem.history| < before + |cs|
        && Config(s.id, s.mem.counts) == cs[|s.mem.history| - before]
        && |s.path| == |s.mem.history| - before
        && (s.mem.violation.Some? ==> |cs| == 1))
  }

  lemma GrantIsKept(m: Machine, s: Spot, before: nat, cap: Token)
    requires m.program.Has(s.id) && HoldsGrant(s.mem.history, before, cap)
    ensures HoldsGrant(Step(m, s.id, s.mem).history, before, cap)
  {
    StepAddsRecord(m, s.id, s.mem);
    var i, j :| GrantAt(s.mem.history, before, cap, i, j);
    assert GrantAt(Step(m, s.id, s.mem).history, before, cap, i, j);
  }

  /** Before the end of the course the run moves along it; at the end it gets its grant. */
  lemma StepOnTheWay(m: Machine, cs: seq<Config>, plan: seq<StepState>, before: nat, cap: Token, s: Spot)
    requires cs != [] && |plan| == |cs| - 1 && Plans(m.program, cs, plan) && Asks(m, plan, before, cap)
    requires m.program.Has(cs[|cs| - 1].id) && CheckCall(m.syn, cap, m.program.Node(cs[|cs| - 1].id).paged) == Ok(true)
    requires OnTheWay(cs, before, cap, s) && !HoldsGrant(s.mem.history, before, cap)
    ensures if |s.path| < |cs| - 1 then Moves(m, s) && OnTheWay(cs, before, cap, Arrive(m, s))
            else m.program.Has(s.id) && HoldsGrant(Step(m, s.id, s.mem).history, before, cap)
  {
    var k := |s.mem.history| - before;
    if k < |cs| - 1 {
      assert Leads(m.program, cs[k], plan[k], cs[k + 1]);
      ScriptedStep(m, cs[k], plan[k], s);
      LeadsToOne(m.program, cs[k], plan[k], cs[k + 1], Config(Arrive(m, s).id, Arrive(m, s).mem.counts));
    } else {
      AskedIsGranted(m, s.id, s.mem, cap);
      StepAddsRecord(m, s.id, s.mem);
      assert GrantAt(Step(m, s.id, s.mem).history, before, cap, |s.mem.history|, 0);
    }
  }

  lemma MoveOnTheWay(m: Machine, cs: seq<Config>, plan: seq<StepState>, before: nat, cap: Token, s: Spot)
    requires cs != [] && |plan| == |cs| - 1 && Plans(m.program, cs, plan) && Asks(m, plan, before, cap)
    requires m.program.Has(cs[|cs| - 1].id) && CheckCall(m.syn, cap, m.program.Node(cs[|cs| - 1].id).paged) == Ok(true)
    requires OnTheWay(cs, before, cap, s) && Moves(m, s)
    ensures OnTheWay(cs, before, cap, Arrive(m, s))
  {
    if HoldsGrant(s.mem.history, before, cap) {
      GrantIsKept(m, s, before, cap);
    } else {
      StepOnTheWay(m, cs, plan, before, cap, s);
    }
  }

  lemma WayIsGranted(
      m: Machine, own: Option<seq<Token>>, mem: Memory, cap: Token, cs: seq<Config>, plan: seq<StepState>)
    requires Starts(m, own) && WayToGrant(m.program, m.syn, mem, cap, cs)
    requires |plan| == |cs| - 1 && Plans(m.program, cs, plan) && m.handler == Asking(plan, |mem.history|, cap)
    ensures HoldsGrant(Execute(m, own, |cs|, mem).mem.history, |mem.history|, cap)
  {
    var before := |mem.history|;
    assert Asks(m, plan, before, cap);
    forall s | OnTheWay(cs, before, cap, s) && Moves(m, s)
      ensures OnTheWay(cs, before, cap, Arrive(m, s))
    {
      MoveOnTheWay(m, cs, plan, before, cap, s);
    }
    var last, left := ExecuteInduction(m, own, |cs|, mem, (s: Spot) => OnTheWay(cs, before, cap, s));
    if HoldsGrant(last.mem.history, before, cap) {
      if m.program.Has(last.id) {
        GrantIsKept(m, last, before, cap);
      }
    } else {
      StepOnTheWay(m, cs, plan, before, cap, last);
    }
  }

  // ----- The exact condition -------------------------------------------------------------------

  /** What a call can grant, exactly, for any program, however it was made or edited, on an executor with
      or without a policy: a request can be granted if and only if the call starts and a course leads to a
      step whose gate grants it. On an executor without a policy nothing else holds a run back, so paged
      lists that were edited by hand count wherever a course leads. */
  lemma GrantableExactly(m: Machine, own: Option<seq<Token>>, mem: Memory, cap: Token)
    ensures CanBeGranted(m, own, mem, cap) <==>
            Starts(m, own) && exists cs :: WayToGrant(m.program, m.syn, mem, cap, cs)
  {
    if other, limit :| IsGranted(m, own, mem, cap, other, limit) {
      if Starts(m, own) {
        CallGrantsOnTheWay(other, own, limit, mem);
      } else {
        NotStarted(other, own, limit, mem);
      }
    }
    if Starts(m, own) {
      if cs :| WayToGrant(m.program, m.syn, mem, cap, cs) {
        var plan := PlanOf(m.program, mem.counts, cs);
        var other := m.(handler := Asking(plan, |mem.history|, cap));
        WayIsGranted(other, own, mem, cap, cs, plan);
        assert IsGranted(m, own, mem, cap, other, |cs|);
      }
    }
  }

  /** Whether a request can be granted can be found out by trying the courses up to the termination bound. */
  lemma WaysToGrantAreShort(p: CompiledProgram, syn: Syntax, mem: Memory, cap: Token)
    ensures (exists cs :: WayToGrant(p, syn, mem, cap, cs)) <==>
            (exists cs :: WayToGrant(p, syn, mem, cap, cs) && |cs| <= StepBound(p, mem.counts))
  {
    if cs :| WayToGrant(p, syn, mem, cap, cs) {
      if |cs| == 1 {
        CourseIsShort(p, mem.counts, cs);
      } else {
        var short := Straightened(p, mem.counts, cs);
        CourseIsShort(p, mem.counts, short);
        assert WayToGrant(p, syn, mem, cap, short);
      }
    }
  }
}
