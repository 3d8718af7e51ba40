/** When runs end: the exact condition under which some step limit is enough for every handler. */
module Termination {
  import opened Basics
  import opened Capabilities
  import opened Graphs
  import opened Ir
  import opened RunLog
  import opened StepMachine
  import opened StepLaws
  import opened RunLaws
  import opened Courses

  // ----- Free courses -----------------------------------------------------------------------

  /** Leaving the step does not use up the budget of a loop: it has none, or none is left. */
  predicate Free(p: CompiledProgram, c: Config) {
    p.Has(c.id) && Allowance(p.Node(c.id), CountOf(c.counts, c.id)) == 0
  }

  /** From position `i` to `j` the course comes back to the same step, and nothing is used up on the way. */
  predicate Circles(p: CompiledProgram, cs: seq<Config>, i: int, j: int) {
    0 <= i < j < |cs| && cs[i].id == cs[j].id && forall k | i <= k < j :: Free(p, cs[k])
  }

  ghost predicate Straight(p: CompiledProgram, cs: seq<Config>) {
    forall i, j :: !Circles(p, cs, i, j)
  }

  ghost predicate Trap(p: CompiledProgram, counts: map<string, int>, cs: seq<Config>, i: int, j: int) {
    Course(p, counts, cs) && Circles(p, cs, i, j)
  }

  /** No course ever comes back to a step for nothing. */
  ghost predicate NoTrap(p: CompiledProgram, counts: map<string, int>) {
    forall cs | Course(p, counts, cs) :: Straight(p, cs)
  }

  // ----- The bound ------------------------------------------------------------------------

  /** The verdict edges that all loops together may still take. */
  function Budget(p: CompiledProgram, ids: seq<string>, counts: map<string, int>): nat {
    if ids == [] then 0
    else (if p.Has(ids[0]) then Allowance(p.Node(ids[0]), CountOf(counts, ids[0])) else 0) + Budget(p, ids[1..], counts)
  }

  lemma {:induction false} BudgetAfterVisit(p: CompiledProgram, ids: seq<string>, counts: map<string, int>, id: string)
    ensures var counts' := counts[id := CountOf(counts, id) + 1];
            && Budget(p, ids, counts') <= Budget(p, ids, counts)
            && (id in ids && p.Has(id) && Allowance(p.Node(id), CountOf(counts, id)) > 0 ==>
                  Budget(p, ids, counts') < Budget(p, ids, counts))
  {
    if ids != [] {
      BudgetAfterVisit(p, ids[1..], counts, id);
      assert ids == [ids[0]] + ids[1..];
    }
  }

  /** A move leaves the budget no larger, and smaller unless the step is free. */
  lemma MoveSpends(p: CompiledProgram, c: Config, d: Config)
    requires CanMove(p, c, d)
    ensures p.Has(c.id)
    ensures Budget(p, p.nodes.keys, d.counts) <= Budget(p, p.nodes.keys, c.counts)
    ensures !Free(p, c) ==> Budget(p, p.nodes.keys, d.counts) < Budget(p, p.nodes.keys, c.counts)
  {
    BudgetAfterVisit(p, p.nodes.keys, c.counts, c.id);
    assert c.id in p.nodes.keys;
  }

  /** `n * b` as repeated addition, which is how the bound is used up. */
  function Times(n: nat, b: nat): nat {
    if b == 0 then 0 else n + Times(n, b - 1)
  }

  lemma {:induction false} TimesMonotone(n: nat, a: nat, b: nat)
    requires a <= b
    ensures Times(n, a) <= Times(n, b)
    ensures a < b ==> Times(n, a) + n <= Times(n, b)
    decreases b
  {
    if a < b {
      TimesMonotone(n, a, b - 1);
    }
  }

  lemma {:induction false} TimesIsProduct(n: nat, b: nat)
    ensures Times(n, b) == n * b
  {
    if b > 0 {
      TimesIsProduct(n, b - 1);
    }
  }

  /** The number of steps times one more than the verdict edges that the loops may still take; with no
      visits counted yet, the latter is the sum of max_iterations - 1 over the loops. */
  function StepBound(p: CompiledProgram, counts: map<string, int>): int {
    |p.nodes.keys| * (1 + Budget(p, p.nodes.keys, counts))
  }

  /** How many moves are left: those of the free stretch that is `used` long, and a whole stretch for
      every verdict edge still to be spent. */
  function Room(p: CompiledProgram, counts: map<string, int>, used: int): int {
    |p.nodes.keys| - used + Times(|p.nodes.keys|, Budget(p, p.nodes.keys, counts))
  }

  lemma BoundIsRoom(p: CompiledProgram, counts: map<string, int>)
    ensures StepBound(p, counts) == Room(p, counts, 0)
  {
    TimesIsProduct(|p.nodes.keys|, 1 + Budget(p, p.nodes.keys, counts));
  }

  function IdsBetween(cs: seq<Config>, i: nat, j: nat): (ids: seq<string>)
    requires i <= j <= |cs|
    ensures |ids| == j - i && forall k | 0 <= k < |ids| :: ids[k] == cs[i + k].id
  {
    seq(j - i, k requires 0 <= k < j - i => cs[i + k].id)
  }

  /** The course has been free from `i` up to its last configuration. */
  predicate FreeStretch(p: CompiledProgram, cs: seq<Config>, i: int) {
    0 <= i < |cs| && forall k | i <= k < |cs| - 1 :: Free(p, cs[k])
  }

  /** A free stretch that does not circle visits each step at most once. */
  lemma StretchIsShort(p: CompiledProgram, cs: seq<Config>, i: nat, j: nat)
    requires FreeStretch(p, cs, i) && i <= j <= |cs|
    requires forall k | i <= k < j :: p.Has(cs[k].id)
    requires Straight(p, cs)
    ensures j - i <= |p.nodes.keys|
  {
    var ids := IdsBetween(cs, i, j);
    forall a, b | 0 <= a < b < |ids|
      ensures ids[a] != ids[b]
    {
      assert !Circles(p, cs, i + a, i + b);
    }
    Pigeonhole(ids, p.nodes.keys);
  }

  /** Moves made and room left stay within the bound, counting from where the free stretch began. */
  ghost predicate Within(p: CompiledProgram, counts: map<string, int>, cs: seq<Config>, i: int)
    requires cs != []
  {
    FreeStretch(p, cs, i) && |cs| - 1 + Room(p, cs[|cs| - 1].counts, |cs| - 1 - i) <= StepBound(p, counts)
  }

  /** Every move takes room: on in the free stretch, or from any place in it to the start of the next. */
  lemma MoveTakesRoom(p: CompiledProgram, c: Config, d: Config, used: int)
    requires CanMove(p, c, d)
    ensures Free(p, c) ==> Room(p, d.counts, used + 1) < Room(p, c.counts, used)
    ensures !Free(p, c) && used < |p.nodes.keys| ==> Room(p, d.counts, 0) < Room(p, c.counts, used)
  {
    MoveSpends(p, c, d);
    TimesMonotone(|p.nodes.keys|, Budget(p, p.nodes.keys, d.counts), Budget(p, p.nodes.keys, c.counts));
  }

  lemma MoveStaysWithin(p: CompiledProgram, counts: map<string, int>, cs: seq<Config>, d: Config, i: nat)
    returns (next: nat)
    requires cs != [] && CanMove(p, cs[|cs| - 1], d) && Straight(p, cs) && Within(p, counts, cs, i)
    ensures Within(p, counts, cs + [d], next)
  {
    var n := |cs| - 1;
    MoveTakesRoom(p, cs[n], d, n - i);
    if Free(p, cs[n]) {
      next := i;
    } else {
      StretchIsShort(p, cs, i, n + 1);
      next := n + 1;
    }
  }

  lemma StartsWithin(p: CompiledProgram, counts: map<string, int>, cs: seq<Config>)
    requires Course(p, counts, cs) && |cs| == 1
    ensures Within(p, counts, cs, 0)
  {
    BoundIsRoom(p, counts);
  }

  lemma {:induction false} CourseStaysWithin(p: CompiledProgram, counts: map<string, int>, cs: seq<Config>)
    returns (i: nat)
    requires Course(p, counts, cs) && Straight(p, cs)
    ensures Within(p, counts, cs, i)
    decreases |cs|
  {
    if |cs| == 1 {
      StartsWithin(p, counts, cs);
      return 0;
    }
    var front, last := cs[..|cs| - 1], cs[|cs| - 1];
    assert cs == front + [last];
    CourseFront(p, counts, cs);
    i := CourseStaysWithin(p, counts, front);
    i := MoveStaysWithin(p, counts, front, last, i);
  }

  /** The beginning of a course is one, and a straight one if the course is. */
  lemma CourseFront(p: CompiledProgram, counts: map<string, int>, cs: seq<Config>)
    requires Course(p, counts, cs) && |cs| > 1
    ensures Course(p, counts, cs[..|cs| - 1]) && CanMove(p, cs[..|cs| - 1][|cs| - 2], cs[|cs| - 1])
    ensures Straight(p, cs) ==> Straight(p, cs[..|cs| - 1])
  {
    var n := |cs| - 1;
    CourseMoves(p, counts, cs, n - 1);
    if Straight(p, cs) {
      forall i, j
        ensures !Circles(p, cs[..n], i, j)
      {
        assert !Circles(p, cs, i, j);
      }
    }
  }

  /** A course that does not circle makes no more visits than the bound. */
  lemma CourseIsShort(p: CompiledProgram, counts: map<string, int>, cs: seq<Config>)
    requires Course(p, counts, cs) && Straight(p, cs)
    ensures |cs| - 1 <= StepBound(p, counts)
    ensures p.Has(cs[|cs| - 1].id) ==> |cs| <= StepBound(p, counts)
  {
    var i := CourseStaysWithin(p, counts, cs);
    StretchIsShort(p, cs, i, if p.Has(cs[|cs| - 1].id) then |cs| else |cs| - 1);
  }

  /** Whether there is a trap can be found out by trying the courses up to the bound: a course that
      circles does so within one configuration more than the bound. */
  lemma TrapsAreShort(p: CompiledProgram, counts: map<string, int>)
    ensures NoTrap(p, counts) <==>
            forall cs | Course(p, counts, cs) && |cs| <= StepBound(p, counts) + 1 :: Straight(p, cs)
  {
    if cs :| Course(p, counts, cs) && !Straight(p, cs) {
      ShortTrap(p, counts, cs);
    }
  }

  lemma {:induction false} ShortTrap(p: CompiledProgram, counts: map<string, int>, cs: seq<Config>)
    requires Course(p, counts, cs) && !Straight(p, cs)
    ensures exists short :: Course(p, counts, short) && |short| <= StepBound(p, counts) + 1 && !Straight(p, short)
    decreases |cs|
  {
    var front := cs[..|cs| - 1];
    CourseFront(p, counts, cs);
    if Straight(p, front) {
      CourseIsShort(p, counts, front);
    } else {
      ShortTrap(p, counts, front);
    }
  }

  // ----- Dead ends are short ----------------------------------------------------------------

  /** Counters between which no step can tell: a loop has the same count, or is used up under both. */
  ghost predicate Alike(p: CompiledProgram, a: map<string, int>, b: map<string, int>) {
    forall x | p.Has(x) :: CountOf(a, x) == CountOf(b, x) || (Free(p, Config(x, a)) && Free(p, Config(x, b)))
  }

  /** A step is left alike under alike counters. */
  lemma AlikeExits(p: CompiledProgram, id: string, a: map<string, int>, b: map<string, int>, verdict: StepState)
    requires p.Has(id) && Alike(p, a, b)
    ensures ExitOf(id, p.Node(id), CountOf(a, id) + 1, verdict) == ExitOf(id, p.Node(id), CountOf(b, id) + 1, verdict)
  {}

  /** A move can be made from an alike configuration, and leads to an alike one. */
  lemma AlikeMoves(p: CompiledProgram, c: Config, next: Config, d: Config)
    requires CanMove(p, c, next) && c.id == d.id && Alike(p, c.counts, d.counts)
    ensures CanMove(p, d, Config(next.id, CountsAfter(p, d))) && Alike(p, next.counts, CountsAfter(p, d))
  {
    var verdict: StepState :| Leads(p, c, verdict, next);
    AlikeExits(p, c.id, c.counts, d.counts, verdict);
    assert Leads(p, d, verdict, Config(next.id, CountsAfter(p, d)));
  }

  /** A free stretch of a course leaves the counters alike. */
  lemma {:induction false} FreeStretchIsAlike(p: CompiledProgram, counts: map<string, int>, cs: seq<Config>, i: nat, j: nat)
    requires Course(p, counts, cs) && i <= j < |cs| && forall k | i <= k < j :: Free(p, cs[k])
    ensures Alike(p, cs[i].counts, cs[j].counts)
    decreases j
  {
    if i < j {
      FreeStretchIsAlike(p, counts, cs, i, j - 1);
      CourseMoves(p, counts, cs, j - 1);
      FreeMoveIsAlike(p, cs[j - 1], cs[j]);
    }
  }

  lemma FreeMoveIsAlike(p: CompiledProgram, c: Config, next: Config)
    requires CanMove(p, c, next) && Free(p, c)
    ensures Alike(p, c.counts, next.counts)
  {}

  lemma CirclesAtEnd(p: CompiledProgram, cs: seq<Config>, d: Config, i: int, j: int)
    requires Straight(p, cs) && Circles(p, cs + [d], i, j)
    ensures j == |cs|
  {
    if j < |cs| {
      forall k | i <= k < j
        ensures Free(p, cs[k])
      {
        assert (cs + [d])[k] == cs[k];
      }
      assert Circles(p, cs, i, j);
    }
  }

  /** Where a straight course would come back to a step for nothing, it can stop when it is there first. */
  lemma StraightOrBefore(p: CompiledProgram, counts: map<string, int>, cs: seq<Config>, d: Config) returns (short: seq<Config>)
    requires Course(p, counts, cs + [d]) && Course(p, counts, cs) && Straight(p, cs)
    ensures Course(p, counts, short) && Straight(p, short)
    ensures short[|short| - 1].id == d.id && Alike(p, short[|short| - 1].counts, d.counts)
  {
    var all := cs + [d];
    if i, j :| Circles(p, all, i, j) {
      CirclesAtEnd(p, cs, d, i, j);
      FreeStretchIsAlike(p, counts, all, i, |cs|);
      short := cs[..i + 1];
      PrefixIsStraight(p, counts, cs, i + 1);
    } else {
      short := all;
    }
  }

  lemma PrefixIsStraight(p: CompiledProgram, counts: map<string, int>, cs: seq<Config>, n: nat)
    requires Course(p, counts, cs) && Straight(p, cs) && 0 < n <= |cs|
    ensures Course(p, counts, cs[..n]) && Straight(p, cs[..n])
  {
    forall i, j
      ensures !Circles(p, cs[..n], i, j)
    {
      assert !Circles(p, cs, i, j);
    }
    forall i | 0 < i < n
      ensures CanMove(p, cs[..n][i - 1], cs[..n][i])
    {
      CourseMoves(p, counts, cs, i - 1);
    }
  }

  /** Every course leads where a straight one does, but for counters that no step can tell apart. */
  lemma {:induction false} Straightened(p: CompiledProgram, counts: map<string, int>, cs: seq<Config>)
    returns (short: seq<Config>)
    requires Course(p, counts, cs)
    ensures Course(p, counts, short) && Straight(p, short)
    ensures short[|short| - 1].id == cs[|cs| - 1].id && Alike(p, cs[|cs| - 1].counts, short[|short| - 1].counts)
    decreases |cs|
  {
    if |cs| == 1 {
      return cs;
    }
    var c, next := cs[|cs| - 2], cs[|cs| - 1];
    CourseFront(p, counts, cs);
    var front := Straightened(p, counts, cs[..|cs| - 1]);
    var d := front[|front| - 1];
    AlikeMoves(p, c, next, d);
    var e := Config(next.id, CountsAfter(p, d));
    CourseOfMore(p, counts, front, e);
    short := StraightOrBefore(p, counts, front, e);
  }

  lemma CourseOfMore(p: CompiledProgram, counts: map<string, int>, cs: seq<Config>, d: Config)
    requires Course(p, counts, cs) && CanMove(p, cs[|cs| - 1], d)
    ensures Course(p, counts, cs + [d])
  {}

  /** Whether a call can get stuck can be found out by trying the courses up to the bound: there is a dead
      end if and only if one lies within one configuration more than the bound. */
  lemma DeadEndsAreShort(p: CompiledProgram, counts: map<string, int>)
    ensures (exists cs, verdict :: DeadEnd(p, counts, cs, verdict)) <==>
            (exists cs, verdict :: DeadEnd(p, counts, cs, verdict) && |cs| <= StepBound(p, counts) + 1)
  {
    if cs: seq<Config>, verdict: StepState :| DeadEnd(p, counts, cs, verdict) {
      var short := Straightened(p, counts, cs);
      CourseIsShort(p, counts, short);
      if p.Has(cs[|cs| - 1].id) {
        AlikeExits(p, cs[|cs| - 1].id, cs[|cs| - 1].counts, short[|short| - 1].counts, verdict);
      }
      assert DeadEnd(p, counts, short, verdict);
    }
  }

  // ----- Runs are bounded -------------------------------------------------------------------

  lemma BoundedAtEnd(m: Machine, counts: map<string, int>, s: Spot, left: nat)
    requires NoTrap(m.program, counts) && OnCourse(m.program, counts, s) && (left == 0 || !Moves(m, s))
    ensures |EndOf(m, s, left).path| <= StepBound(m.program, counts)
    ensures |s.path| + left >= StepBound(m.program, counts) ==> EndOf(m, s, left).result != Err(StepLimitExceeded)
  {
    var cs :| CourseTo(m.program, counts, cs, s);
    CourseIsShort(m.program, counts, cs);
    if m.program.Has(s.id) {
      StepAbortsForItsOwnReason(m, s.id, s.mem);
    }
  }

  /** The termination bound. Without a trap, whatever the handler does, no run is longer than the bound,
      and a step limit of at least the bound is never exceeded. */
  lemma TerminationBound(m: Machine, policy: Option<seq<Token>>, maxSteps: int, mem: Memory)
    requires NoTrap(m.program, mem.counts)
    ensures |Execute(m, policy, maxSteps, mem).path| <= StepBound(m.program, mem.counts)
    ensures maxSteps >= StepBound(m.program, mem.counts) ==>
              Execute(m, policy, maxSteps, mem).result != Err(StepLimitExceeded)
  {
    if Starts(m, policy) {
      StartsOnCourse(m, mem);
      forall s | OnCourse(m.program, mem.counts, s) && Moves(m, s) {
        MoveKeepsCourse(m, mem.counts, s);
      }
      var last, left := ExecuteInduction(m, policy, maxSteps, mem, (s: Spot) => OnCourse(m.program, mem.counts, s));
      BoundedAtEnd(m, mem.counts, last, left);
    } else {
      NotStarted(m, policy, maxSteps, mem);
    }
  }

  // ----- Traps ----------------------------------------------------------------------------

  /** Where a run that goes round and round stands after `k` steps: positions run up to `j` and back to `i`. */
  function Position(i: nat, j: nat, k: nat): (pos: nat)
    requires i < j
    ensures pos < j
  {
    if k == 0 then 0
    else
      var next := Position(i, j, k - 1) + 1;
      if next == j then i else next
  }

  function Toward(node: IrNode, target: string): StepState {
    if ON_SUCCESS in node.edges && node.edges[ON_SUCCESS] == target then DONE else FAILED
  }

  /** The handler that requests nothing and, counting the steps executed since `before`, returns whichever
      verdict leads to the next position. */
  function Driver(cs: seq<Config>, i: nat, j: nat, before: nat): StepHandler
    requires i < j < |cs|
  {
    Handler((past, node, exchanges) => Return(Toward(node, Target(cs, i, j, |past| - before))), (past, node) => 0)
  }

  function Target(cs: seq<Config>, i: nat, j: nat, k: int): string
    requires i < j < |cs|
  {
    cs[Position(i, j, if k < 0 then 0 else k) + 1].id
  }

  ghost predicate NoFewer(counts: map<string, int>, more: map<string, int>) {
    forall x :: CountOf(counts, x) <= CountOf(more, x)
  }

  /** A configuration with no fewer visits counted; as many exactly where the step is not free. */
  ghost predicate Ahead(p: CompiledProgram, c: Config, d: Config) {
    && c.id == d.id
    && NoFewer(c.counts, d.counts)
    && (!Free(p, c) ==> CountOf(c.counts, c.id) == CountOf(d.counts, c.id))
  }

  /** Where a verdict leads on from `c`, the driver's verdict leads on from any configuration ahead of it. */
  lemma TowardLeads(p: CompiledProgram, c: Config, next: Config, d: Config)
    requires CanMove(p, c, next) && Ahead(p, c, d)
    ensures Next(ExitOf(d.id, p.Node(d.id), CountOf(d.counts, d.id) + 1, Toward(p.Node(d.id), next.id))) == Some(next.id)
  {
    var verdict: StepState :| Leads(p, c, verdict, next);
  }

  lemma {:induction false} CountsGrow(p: CompiledProgram, counts: map<string, int>, cs: seq<Config>, i: nat, j: nat)
    requires Course(p, counts, cs) && i <= j < |cs|
    ensures NoFewer(cs[i].counts, cs[j].counts)
    decreases j
  {
    if i < j {
      CountsGrow(p, counts, cs, i, j - 1);
      CourseMoves(p, counts, cs, j - 1);
    }
  }

  /** The driven run stands where the driver thinks it does: up to position `i` with the very counters of
      the course, and from then on with counters at least as high. */
  ghost predicate Driven(cs: seq<Config>, i: nat, j: nat, before: nat, s: Spot)
    requires i < j < |cs|
  {
    && s.mem.violation.None? && |s.mem.history| >= before
    && var c := cs[Position(i, j, |s.mem.history| - before)];
    && s.id == c.id
    && NoFewer(c.counts, s.mem.counts)
    && (Position(i, j, |s.mem.history| - before) < i ==> s.mem.counts == c.counts)
  }

  ghost predicate Steers(m: Machine, cs: seq<Config>, i: nat, j: nat, before: nat)
    requires i < j < |cs|
  {
    forall past, node :: m.handler.act(past, node, []) == Return(Toward(node, Target(cs, i, j, |past| - before)))
  }

  lemma DriverSteers(m: Machine, cs: seq<Config>, i: nat, j: nat, before: nat)
    requires i < j < |cs| && m.handler == Driver(cs, i, j, before)
    ensures Steers(m, cs, i, j, before)
  {}

  lemma CountsStayAhead(p: CompiledProgram, c: Config, next: Config, d: Config)
    requires CanMove(p, c, next) && Ahead(p, c, d)
    ensures NoFewer(next.counts, CountsAfter(p, d))
    ensures c.counts == d.counts ==> next.counts == CountsAfter(p, d)
  {
    assert next.counts == CountsAfter(p, c);
    forall x
      ensures CountOf(next.counts, x) <= CountOf(CountsAfter(p, d), x)
    {
      assert CountOf(c.counts, x) <= CountOf(d.counts, x) && CountOf(c.counts, c.id) <= CountOf(d.counts, c.id);
    }
  }

  /** The run has gone on from `s` to `t` as the course goes from `c` to `next`. */
  ghost predicate Onward(c: Config, next: Config, s: Spot, t: Spot) {
    && t.id == next.id && t.mem.violation.None? && |t.mem.history| == |s.mem.history| + 1
    && NoFewer(next.counts, t.mem.counts)
    && (c.counts == s.mem.counts ==> t.mem.counts == next.counts)
  }

  /** The driver's verdict takes the run on, from any configuration ahead of that of the course. */
  lemma DrivenStep(m: Machine, s: Spot, c: Config, next: Config)
    requires CanMove(m.program, c, next) && Ahead(m.program, c, Config(s.id, s.mem.counts)) && s.mem.violation.None?
    requires m.handler.act(s.mem.history, m.program.Node(s.id), []) == Return(Toward(m.program.Node(s.id), next.id))
    ensures Moves(m, s) && Onward(c, next, s, Arrive(m, s))
  {
    CountsStayAhead(m.program, c, next, Config(s.id, s.mem.counts));
    TowardLeads(m.program, c, next, Config(s.id, s.mem.counts));
    ReturnAtOnce(m, s.id, s.mem, Toward(m.program.Node(s.id), next.id));
    StepLaw(m, s.id, s.mem);
    MovingStep(m, s);
  }

  /** Where the driven run stands there is a next position to go to. */
  lemma DrivenIsAhead(p: CompiledProgram, counts: map<string, int>, cs: seq<Config>, i: nat, j: nat, before: nat, s: Spot)
    requires Trap(p, counts, cs, i, j) && Driven(cs, i, j, before, s)
    ensures var pos := Position(i, j, |s.mem.history| - before);
            CanMove(p, cs[pos], cs[pos + 1]) && Ahead(p, cs[pos], Config(s.id, s.mem.counts))
  {
    CourseMoves(p, counts, cs, Position(i, j, |s.mem.history| - before));
  }

  lemma SteeredStep(m: Machine, cs: seq<Config>, i: nat, j: nat, before: nat, s: Spot)
    requires i < j < |cs| && Steers(m, cs, i, j, before) && s.mem.violation.None? && |s.mem.history| >= before
    requires var pos := Position(i, j, |s.mem.history| - before);
             CanMove(m.program, cs[pos], cs[pos + 1]) && Ahead(m.program, cs[pos], Config(s.id, s.mem.counts))
    ensures var pos := Position(i, j, |s.mem.history| - before);
            Moves(m, s) && Onward(cs[pos], cs[pos + 1], s, Arrive(m, s))
  {
    var pos := Position(i, j, |s.mem.history| - before);
    DrivenStep(m, s, cs[pos], cs[pos + 1]);
  }

  lemma DrivenOn(
      p: CompiledProgram, counts: map<string, int>, cs: seq<Config>, i: nat, j: nat, before: nat, s: Spot, t: Spot)
    requires Trap(p, counts, cs, i, j) && Driven(cs, i, j, before, s)
    requires var pos := Position(i, j, |s.mem.history| - before);
             Onward(cs[pos], cs[pos + 1], s, t)
    ensures Driven(cs, i, j, before, t)
  {
    if Position(i, j, |s.mem.history| - before) + 1 == j {
      CountsGrow(p, counts, cs, i, j);
    }
  }

  lemma DriverMoves(m: Machine, counts: map<string, int>, cs: seq<Config>, i: nat, j: nat, before: nat, s: Spot)
    requires Trap(m.program, counts, cs, i, j) && Steers(m, cs, i, j, before) && Driven(cs, i, j, before, s)
    ensures Moves(m, s) && Driven(cs, i, j, before, Arrive(m, s))
  {
    DrivenIsAhead(m.program, counts, cs, i, j, before, s);
    SteeredStep(m, cs, i, j, before, s);
    DrivenOn(m.program, counts, cs, i, j, before, s, Arrive(m, s));
  }

  /** A trap lets one handler that requests nothing drive a run past every step limit. */
  lemma TrapExceedsEveryLimit(
      m: Machine, policy: Option<seq<Token>>, maxSteps: int, mem: Memory, cs: seq<Config>, i: nat, j: nat)
    requires Starts(m, policy) && mem.violation.None?
    requires Trap(m.program, mem.counts, cs, i, j) && m.handler == Driver(cs, i, j, |mem.history|)
    ensures Execute(m, policy, maxSteps, mem).result == Err(StepLimitExceeded)
  {
    DriverSteers(m, cs, i, j, |mem.history|);
    forall s | Driven(cs, i, j, |mem.history|, s)
      ensures Moves(m, s) && Driven(cs, i, j, |mem.history|, Arrive(m, s))
    {
      DriverMoves(m, mem.counts, cs, i, j, |mem.history|, s);
    }
    var last, left := ExecuteInduction(m, policy, maxSteps, mem, (s: Spot) => Driven(cs, i, j, |mem.history|, s));
  }

  // ----- The exact condition ----------------------------------------------------------------

  /** Some step limit is enough for every handler and every registry. */
  ghost predicate Bounded(m: Machine, policy: Option<seq<Token>>, mem: Memory) {
    exists limit: nat :: EnoughForAll(m, policy, mem, limit)
  }

  ghost predicate EnoughForAll(m: Machine, policy: Option<seq<Token>>, mem: Memory, limit: nat) {
    forall other: Machine | other.program == m.program && other.syn == m.syn ::
      Execute(other, policy, limit, mem).result != Err(StepLimitExceeded)
  }

  /** An executor that holds a violation makes one step at most. */
  lemma LatchedRunIsShort(m: Machine, policy: Option<seq<Token>>, mem: Memory)
    requires mem.violation.Some?
    ensures Execute(m, policy, 1, mem).result != Err(StepLimitExceeded)
  {
    if Starts(m, policy) {
      LatchedStepStops(m, Start(m, mem));
      if m.program.Has(m.program.entry) {
        StepAbortsForItsOwnReason(m, m.program.entry, Start(m, mem).mem);
      }
    } else {
      NotStarted(m, policy, 1, mem);
    }
  }

  /** When runs are bounded, exactly: some step limit suffices for all handlers if and only if the call
      does not start, or the executor already holds a violation, or no course from the entry comes back
      to a step without using up the budget of a loop on the way. */
  lemma BoundedExactly(m: Machine, policy: Option<seq<Token>>, mem: Memory)
    ensures Bounded(m, policy, mem) <==> !Starts(m, policy) || mem.violation.Some? || NoTrap(m.program, mem.counts)
  {
    if !Starts(m, policy) || mem.violation.Some? || NoTrap(m.program, mem.counts) {
      BoundedIf(m, policy, mem);
    } else {
      var cs :| Course(m.program, mem.counts, cs) && !Straight(m.program, cs);
      var i, j :| Circles(m.program, cs, i, j);
      var driven := m.(handler := Driver(cs, i, j, |mem.history|));
      forall limit: nat
        ensures !EnoughForAll(m, policy, mem, limit)
      {
        TrapExceedsEveryLimit(driven, policy, limit, mem, cs, i, j);
      }
    }
  }

  lemma BoundedIf(m: Machine, policy: Option<seq<Token>>, mem: Memory)
    requires !Starts(m, policy) || mem.violation.Some? || NoTrap(m.program, mem.counts)
    ensures Bounded(m, policy, mem)
  {
    CourseIsShort(m.program, mem.counts, [Config(m.program.entry, mem.counts)]);
    var limit: nat := 1 + StepBound(m.program, mem.counts);
    forall other: Machine | other.program == m.program && other.syn == m.syn
      ensures Execute(other, policy, limit, mem).result != Err(StepLimitExceeded)
    {
      if !Starts(m, policy) {
        NotStarted(other, policy, limit, mem);
      } else if mem.violation.Some? {
        LatchedRunIsShort(other, policy, mem);
        MaxStepsIsFuel(other, policy, 1, limit, mem);
      } else {
        TerminationBound(other, policy, limit, mem);
      }
    }
    assert EnoughForAll(m, policy, mem, limit);
  }

  // ----- Cycles broken by loops --------------------------------------------------------------

  predicate VerdictEdge(n: IrNode, b: string) {
    || (ON_SUCCESS in n.edges && n.edges[ON_SUCCESS] == b)
    || (ON_FAILURE in n.edges && n.edges[ON_FAILURE] == b)
  }

  /** The edges a run can take from a step: those of the verdict, unless the loop is exhausted on its
      first visit, and the limit edge of a loop. */
  predicate LiveEdge(p: CompiledProgram, a: string, b: string) {
    && p.Has(a) && !p.Node(a).terminal
    && match p.Node(a).loop
       case None => VerdictEdge(p.Node(a), b)
       case Some(max) => p.Node(a).onLimit == Some(b) || (max > 1 && VerdictEdge(p.Node(a), b))
  }

  /** What remains of the edges when each loop has used up its iterations. */
  predicate ResidualEdge(p: CompiledProgram, a: string, b: string) {
    && p.Has(a) && !p.Node(a).terminal
    && if p.Node(a).loop.Some? then p.Node(a).onLimit == Some(b) else VerdictEdge(p.Node(a), b)
  }

  function LiveGraph(p: CompiledProgram): Relation {
    (a, b) => LiveEdge(p, a, b)
  }

  function ResidualGraph(p: CompiledProgram): Relation {
    (a, b) => ResidualEdge(p, a, b)
  }

  /** No cycle of residual edges can be reached from the entry: every cycle goes through a verdict edge
      of a bounded loop. */
  ghost predicate LoopsBreakCycles(p: CompiledProgram) {
    AcyclicFrom(ResidualGraph(p), LiveGraph(p), p.entry)
  }

  ghost predicate NonNegative(counts: map<string, int>) {
    forall k | k in counts :: counts[k] >= 0
  }

  lemma MoveIsLive(p: CompiledProgram, c: Config, d: Config)
    requires CanMove(p, c, d) && NonNegative(c.counts)
    ensures LiveEdge(p, c.id, d.id) && NonNegative(d.counts)
    ensures Free(p, c) ==> ResidualEdge(p, c.id, d.id)
  {}

  lemma {:induction false} CourseIsLive(p: CompiledProgram, counts: map<string, int>, cs: seq<Config>, i: nat)
    requires Course(p, counts, cs) && NonNegative(counts) && i < |cs|
    ensures NonNegative(cs[i].counts) && Reach(LiveGraph(p), p.entry, cs[i].id)
  {
    if i == 0 {
      ReachSelf(LiveGraph(p), p.entry);
    } else {
      CourseIsLive(p, counts, cs, i - 1);
      MoveIsLive(p, cs[i - 1], cs[i]);
      ReachStep(LiveGraph(p), p.entry, cs[i - 1].id, cs[i].id);
    }
  }

  /** A condition on the graph alone: where bounded loops break every cycle that a run can come to, there
      is no trap, whatever has been counted so far. */
  lemma BrokenCyclesHoldNoTrap(p: CompiledProgram, counts: map<string, int>)
    requires LoopsBreakCycles(p) && NonNegative(counts)
    ensures NoTrap(p, counts)
  {
    forall cs | Course(p, counts, cs)
      ensures Straight(p, cs)
    {
      if i, j :| Circles(p, cs, i, j) {
        TrapHoldsCycle(p, counts, cs, i, j);
      }
    }
  }

  lemma TrapHoldsCycle(p: CompiledProgram, counts: map<string, int>, cs: seq<Config>, i: nat, j: nat)
    requires Trap(p, counts, cs, i, j) && NonNegative(counts)
    ensures !LoopsBreakCycles(p)
  {
    var w := IdsBetween(cs, i, j + 1);
    forall k | 0 < k < |w|
      ensures ResidualGraph(p)(w[k - 1], w[k])
    {
      CourseIsLive(p, counts, cs, i + k - 1);
      assert CanMove(p, cs[i + k - 1], cs[i + k]);
      MoveIsLive(p, cs[i + k - 1], cs[i + k]);
    }
    CourseIsLive(p, counts, cs, i);
    assert Walk(ResidualGraph(p), w) && w[0] == w[j - i];
  }

  // A loop of two iterations whose only visit is left for the end, and a cycle through its limit edge.
  const LEFT_ONCE := IrNode([], [], map[ON_SUCCESS := "t", ON_FAILURE := "t"], false, None, Some(2), Some("b"))
  const BACK_AGAIN := IrNode([], [], map[ON_SUCCESS := "a", ON_FAILURE := "a"], false, None, None, None)
  const THE_END := IrNode([], [], map[], true, None, None, None)
  const UNBROKEN := CompiledProgram(
    IR_VERSION, "a", Dict(["a", "b", "t"], map["a" := LEFT_ONCE, "b" := BACK_AGAIN, "t" := THE_END]), "")

  /** Broken cycles are not needed: a residual cycle may lie where the budget of its own loop keeps runs
      from ever closing it. */
  lemma UnbrokenCycleWithoutTrap()
    ensures !LoopsBreakCycles(UNBROKEN) && NoTrap(UNBROKEN, map[])
  {
    UnbrokenCycle();
    forall cs | Course(UNBROKEN, map[], cs)
      ensures Straight(UNBROKEN, cs)
    {
      UnbrokenCourse(cs);
    }
  }

  lemma UnbrokenCycle()
    ensures !LoopsBreakCycles(UNBROKEN)
  {
    var w := ["a", "b", "a"];
    assert ResidualEdge(UNBROKEN, "a", "b") && ResidualEdge(UNBROKEN, "b", "a");
    assert Walk(ResidualGraph(UNBROKEN), w);
    ReachSelf(LiveGraph(UNBROKEN), "a");
    assert w[0] == w[2];
  }

  lemma TerminalStepStays(p: CompiledProgram, c: Config, d: Config)
    requires p.Has(c.id) && p.Node(c.id).terminal
    ensures !CanMove(p, c, d)
  {}

  lemma UnbrokenCourse(cs: seq<Config>)
    requires Course(UNBROKEN, map[], cs)
    ensures |cs| <= 2 && cs[0].id == "a" && (|cs| == 2 ==> cs[1].id == "t")
  {
    if |cs| > 1 {
      assert CanMove(UNBROKEN, cs[0], cs[1]);
      UnbrokenFirstMove(cs[0], cs[1]);
    }
    if |cs| > 2 {
      TerminalStepStays(UNBROKEN, cs[1], cs[2]);
    }
  }

  lemma UnbrokenFirstMove(c: Config, d: Config)
    requires CanMove(UNBROKEN, c, d) && c == Config("a", map[])
    ensures d.id == "t"
  {
    assert UNBROKEN.Node("a") == LEFT_ONCE;
  }
}
