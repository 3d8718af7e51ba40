/** Narrowing a program's capabilities only cuts its runs short. */
module Narrowing {
  import opened Basics
  import opened Capabilities
  import opened Ir
  import opened RunLog
  import opened Compiler
  import opened Gate
  import opened StepMachine
  import opened StepLaws
  import opened Safety

  /** A handler that does not look at the paged capabilities of a node. */
  ghost predicate PagingBlind(h: StepHandler) {
    forall past, a, b, xs {:trigger h.act(past, a, xs), h.act(past, b, xs)} ::
      SameButPaged(a, b) ==> h.act(past, a, xs) == h.act(past, b, xs)
  }

  /** The same step with no more than the wide node's grants. */
  ghost predicate NarrowsNode(syn: Syntax, narrow: IrNode, wide: IrNode) {
    && SameButPaged(narrow, wide)
    && AllParse(syn, narrow.paged) && AllParse(syn, wide.paged)
    && forall cap :: Covered(syn, cap, narrow.paged) ==> Covered(syn, cap, wide.paged)
  }

  ghost predicate Narrows(syn: Syntax, narrow: CompiledProgram, wide: CompiledProgram) {
    && narrow.irVersion == wide.irVersion && narrow.entry == wide.entry
    && (forall id :: narrow.Has(id) <==> wide.Has(id))
    && (forall id | narrow.Has(id) :: NarrowsNode(syn, narrow.Node(id), wide.Node(id)))
  }

  /** Two machines that differ only in how far the program is narrowed. */
  ghost predicate Paired(mn: Machine, mw: Machine) {
    && mn.handler == mw.handler && PagingBlind(mn.handler)
    && mn.index == mw.index && mn.syn == mw.syn
    && Narrows(mn.syn, mn.program, mw.program)
  }

  /** The dialogues part at a request that the narrow gate refuses and the wide gate grants; up to
      there they are the same. */
  predicate PartAt(xs: seq<Exchange>, ys: seq<Exchange>, i: int) {
    && 0 <= i < |xs| && i < |ys|
    && xs[..i] == ys[..i]
    && xs[i].cap == ys[i].cap && xs[i].args == ys[i].args
    && xs[i].decision.Refused? && ys[i].decision.Granted?
  }

  ghost predicate Part(xs: seq<Exchange>, ys: seq<Exchange>) {
    exists i :: PartAt(xs, ys, i)
  }

  // ----- Dialogues ------------------------------------------------------------------------

  /** One request under both gates: refused by the narrow one only, or answered alike. */
  lemma RequestTogether(
      mn: Machine, mw: Machine, id: string, past: History, xs: seq<Exchange>, cap: Token, args: Args,
      vn: Option<Violation>, vw: Option<Violation>)
    requires Paired(mn, mw) && mn.program.Has(id)
    ensures var n := RequestTool(mn, id, mn.program.Node(id), past, xs, cap, args, vn);
            var w := RequestTool(mw, id, mw.program.Node(id), past, xs, cap, args, vw);
            || (n.decision.Refused? && w.decision.Granted?)
            || (n.decision == w.decision && n.reply == w.reply)
  {
    GateIsCoverage(mn.syn, cap, mn.program.Node(id).paged);
    GateIsCoverage(mn.syn, cap, mw.program.Node(id).paged);
  }

  lemma {:induction false} TalkTogether(mn: Machine, mw: Machine, id: string, past: History, dn: Dialogue, dw: Dialogue)
    requires Paired(mn, mw) && mn.program.Has(id) && dn.exchanges == dw.exchanges
    ensures var tn := Talk(mn, id, mn.program.Node(id), past, dn);
            var tw := Talk(mw, id, mw.program.Node(id), past, dw);
            || (tn.exchanges == tw.exchanges && tn.returned == tw.returned)
            || Part(tn.exchanges, tw.exchanges)
    decreases mn.handler.patience(past, mn.program.Node(id)) - |dn.exchanges|
  {
    var nn, nw, xs := mn.program.Node(id), mw.program.Node(id), dn.exchanges;
    assert SameButPaged(nn, nw);
    var act := mn.handler.act(past, nn, xs);
    assert act == mw.handler.act(past, nw, xs);
    if act.Request? {
      var cn := RequestTool(mn, id, nn, past, xs, act.cap, act.args, dn.violation);
      var cw := RequestTool(mw, id, nw, past, xs, act.cap, act.args, dw.violation);
      var dn', dw' := AfterCall(dn, act.cap, act.args, cn), AfterCall(dw, act.cap, act.args, cw);
      RequestTogether(mn, mw, id, past, xs, act.cap, act.args, dn.violation, dw.violation);
      if cn.decision == cw.decision {
        TalkTogether(mn, mw, id, past, dn', dw');
      } else {
        TalkExtends(mn, id, nn, past, dn');
        TalkExtends(mw, id, nw, past, dw');
        var tn, tw := Talk(mn, id, nn, past, dn'), Talk(mw, id, nw, past, dw');
        assert tn.exchanges[..|xs|] == dn'.exchanges[..|xs|] == xs == dw'.exchanges[..|xs|] == tw.exchanges[..|xs|];
        assert tn.exchanges[|xs|] == dn'.exchanges[|xs|] && tw.exchanges[|xs|] == dw'.exchanges[|xs|];
        assert PartAt(tn.exchanges, tw.exchanges, |xs|);
      }
    }
  }

  // ----- Steps ----------------------------------------------------------------------------

  /** Violations that may differ in the paged tokens they list. */
  predicate SameViolation(a: Option<Violation>, b: Option<Violation>) {
    a.Some? == b.Some? && (a.Some? ==> a.value.(paged := []) == b.value.(paged := []))
  }

  /** The two executors have come equally far. */
  predicate InStep(n: Memory, w: Memory) {
    n.history == w.history && n.counts == w.counts && SameViolation(n.violation, w.violation)
  }

  /** The two executors have made the same step. */
  predicate SameStep(n: Memory, w: Memory) {
    n.history != [] && InStep(n, w)
  }

  lemma EqualDialogues(mn: Machine, mw: Machine, id: string, n: Memory, w: Memory)
    requires Paired(mn, mw) && mn.program.Has(id) && InStep(n, w)
    requires var rn, rw := LastRecord(Step(mn, id, n)), LastRecord(Step(mw, id, w));
             rn.exchanges == rw.exchanges && rn.returned == rw.returned
    ensures SameStep(Step(mn, id, n), Step(mw, id, w))
  {
    StepLaw(mn, id, n);
    StepLaw(mw, id, w);
    ExitIgnoresPaging(id, mn.program.Node(id), mw.program.Node(id), CountOf(n.counts, id) + 1);
    var rn, rw := LastRecord(Step(mn, id, n)), LastRecord(Step(mw, id, w));
    assert rn.state == rw.state;
    assert rn == rw;
  }

  lemma StepTogether(mn: Machine, mw: Machine, id: string, n: Memory, w: Memory)
    requires Paired(mn, mw) && mn.program.Has(id) && InStep(n, w)
    ensures var n', w' := Step(mn, id, n), Step(mw, id, w);
            || SameStep(n', w')
            || (Part(LastRecord(n').exchanges, LastRecord(w').exchanges) && Stops(LastRecord(n').exit))
  {
    TalkTogether(mn, mw, id, n.history, Opening(n.violation), Opening(w.violation));
    StepRecordsTalk(mn, id, n);
    StepRecordsTalk(mw, id, w);
    var rn, rw := LastRecord(Step(mn, id, n)), LastRecord(Step(mw, id, w));
    if Part(rn.exchanges, rw.exchanges) {
      var i :| PartAt(rn.exchanges, rw.exchanges, i);
      RefusalStops(mn, id, n);
    } else {
      EqualDialogues(mn, mw, id, n, w);
    }
  }

  lemma ExitIgnoresPaging(id: string, a: IrNode, b: IrNode, visit: int)
    requires SameButPaged(a, b)
    ensures forall s :: ExitOf(id, a, visit, s) == ExitOf(id, b, visit, s) && Counts(a, s) == Counts(b, s)
  {}

  // ----- Runs -----------------------------------------------------------------------------

  /** The same result, up to the paged tokens that a violation lists. */
  predicate SameResult(a: Result<RunResult, ExecutorError>, b: Result<RunResult, ExecutorError>) {
    match (a, b)
    case (Ok(x), Ok(y)) => x.finalState == y.finalState && x.path == y.path && SameViolation(x.violation, y.violation)
    case (Err(x), Err(y)) => x == y
    case _ => false
  }

  predicate Agree(n: RunOutcome, w: RunOutcome) {
    n.path == w.path && n.mem.history == w.mem.history && SameResult(n.result, w.result)
  }

  /** The narrow run stops in a step in which the wide run was granted a request that it was refused;
      before that step the two are the same, and the wide run goes on from there. */
  ghost predicate CutShort(n: RunOutcome, w: RunOutcome) {
    var hn, hw := n.mem.history, w.mem.history;
    && hn != [] && |hn| <= |hw|
    && hn[..|hn| - 1] == hw[..|hn| - 1]
    && Part(hn[|hn| - 1].exchanges, hw[|hn| - 1].exchanges)
    && n.path <= w.path
    && match n.result
       case Ok(r) => r.finalState == DENIED && r.path == n.path
       case Err(e) => e.HandlerRaised?
  }

  /** Both runs move on together from here. */
  ghost predicate MoveTogether(mn: Machine, mw: Machine, id: string, n: Memory, w: Memory) {
    && mn.program.Has(id) && mw.program.Has(id)
    && SameStep(Step(mn, id, n), Step(mw, id, w)) && Next(LastRecord(Step(mn, id, n)).exit).Some?
  }

  /** The two runs come together to an arrival from which they do not move on together. */
  lemma {:induction false} RunTogether(mn: Machine, mw: Machine, id: string, n: Memory, w: Memory, fuel: nat, path: seq<string>)
    returns (id': string, n': Memory, w': Memory, left: nat, path': seq<string>)
    requires InStep(n, w)
    ensures InStep(n', w') && (left == 0 || !MoveTogether(mn, mw, id', n', w'))
    ensures Run(mn, id, n, fuel, path) == Run(mn, id', n', left, path')
    ensures Run(mw, id, w, fuel, path) == Run(mw, id', w', left, path')
    decreases fuel
  {
    if fuel == 0 || !MoveTogether(mn, mw, id, n, w) {
      return id, n, w, fuel, path;
    }
    RunMovesOn(mn, Spot(id, n, path), fuel);
    RunMovesOn(mw, Spot(id, w, path), fuel);
    var next := Next(LastRecord(Step(mn, id, n)).exit).value;
    id', n', w', left, path' := RunTogether(mn, mw, next, Step(mn, id, n), Step(mw, id, w), fuel - 1, path + [id]);
  }

  /** A run goes on from what it has: its path and its log only grow. */
  lemma RunExtends(m: Machine, s: Spot, fuel: nat)
    ensures var r := Run(m, s.id, s.mem, fuel, s.path);
            s.path <= r.path && s.mem.history <= r.mem.history
  {
    forall t: Spot | s.path <= t.path && s.mem.history <= t.mem.history && m.program.Has(t.id)
      ensures s.mem.history <= Step(m, t.id, t.mem).history
    {
      StepAddsRecord(m, t.id, t.mem);
    }
    var last, left := RunInduction(m, s, fuel, (t: Spot) => s.path <= t.path && s.mem.history <= t.mem.history);
  }

  /** A run that makes a step has that step on its path and in its log. */
  lemma RunHoldsStep(m: Machine, s: Spot, fuel: nat)
    requires m.program.Has(s.id) && fuel > 0
    ensures var r := Run(m, s.id, s.mem, fuel, s.path);
            s.path + [s.id] <= r.path && Step(m, s.id, s.mem).history <= r.mem.history
  {
    if Moves(m, s) {
      RunExtends(m, Arrive(m, s), fuel - 1);
    }
  }

  lemma CutShortHere(mn: Machine, mw: Machine, id: string, n: Memory, w: Memory, fuel: nat, path: seq<string>)
    requires mn.program.Has(id) && mw.program.Has(id) && n.history == w.history && fuel > 0
    requires var rn, rw := LastRecord(Step(mn, id, n)), LastRecord(Step(mw, id, w));
             Part(rn.exchanges, rw.exchanges) && Stops(rn.exit)
    ensures CutShort(EndOf(mn, Spot(id, n, path), fuel), Run(mw, id, w, fuel, path))
  {
    StepAddsRecord(mn, id, n);
    StepAddsRecord(mw, id, w);
    RunHoldsStep(mw, Spot(id, w, path), fuel);
    var hw, k := Run(mw, id, w, fuel, path).mem.history, |w.history|;
    assert hw[..k + 1] == w.history + [LastRecord(Step(mw, id, w))];
    assert hw[k] == hw[..k + 1][k] && hw[..k] == hw[..k + 1][..k] == w.history;
  }

  /** The same step that moves neither run on ends both alike. */
  lemma SameStepEndsAlike(mn: Machine, mw: Machine, id: string, n: Memory, w: Memory, left: nat, path: seq<string>)
    requires mn.program.Has(id) && mw.program.Has(id) && left > 0
    requires SameStep(Step(mn, id, n), Step(mw, id, w)) && Next(LastRecord(Step(mn, id, n)).exit).None?
    ensures Agree(Run(mn, id, n, left, path), Run(mw, id, w, left, path))
  {}

  /** Where the runs do not move on together they end alike, or the narrow one is cut short. */
  lemma EndTogether(mn: Machine, mw: Machine, id: string, n: Memory, w: Memory, left: nat, path: seq<string>)
    requires Paired(mn, mw) && InStep(n, w) && (left == 0 || !MoveTogether(mn, mw, id, n, w))
    ensures var rn, rw := Run(mn, id, n, left, path), Run(mw, id, w, left, path);
            Agree(rn, rw) || CutShort(rn, rw)
  {
    if mn.program.Has(id) && left > 0 {
      StepTogether(mn, mw, id, n, w);
      if SameStep(Step(mn, id, n), Step(mw, id, w)) {
        SameStepEndsAlike(mn, mw, id, n, w, left, path);
      } else {
        CutShortHere(mn, mw, id, n, w, left, path);
      }
    }
  }

  lemma PartsDiffer(xs: seq<Exchange>, ys: seq<Exchange>)
    requires Part(xs, ys)
    ensures xs != ys
  {
    var i :| PartAt(xs, ys, i);
    assert xs[i] != ys[i];
  }

  /** The two cases exclude each other. */
  lemma CutShortDisagrees(n: RunOutcome, w: RunOutcome)
    requires CutShort(n, w)
    ensures !Agree(n, w)
  {
    var k := |n.mem.history| - 1;
    PartsDiffer(n.mem.history[k].exchanges, w.mem.history[k].exchanges);
  }

  /** The narrow outcome is the wide one, or else a beginning of it that is cut short. */
  ghost predicate Truncated(n: RunOutcome, w: RunOutcome) {
    (Agree(n, w) <==> !CutShort(n, w)) && n.path <= w.path
  }

  lemma EitherTruncates(n: RunOutcome, w: RunOutcome)
    requires Agree(n, w) || CutShort(n, w)
    ensures Truncated(n, w)
  {
    if CutShort(n, w) {
      CutShortDisagrees(n, w);
    }
  }

  lemma RunTruncates(mn: Machine, mw: Machine, id: string, n: Memory, w: Memory, fuel: nat)
    requires Paired(mn, mw) && InStep(n, w)
    ensures Truncated(Run(mn, id, n, fuel, []), Run(mw, id, w, fuel, []))
  {
    var id', n', w', left, path := RunTogether(mn, mw, id, n, w, fuel, []);
    EndTogether(mn, mw, id', n', w', left, path);
    EitherTruncates(Run(mn, id, n, fuel, []), Run(mw, id, w, fuel, []));
  }

  /** Narrowing only truncates. For any handler that does not look at the paged lists, the run of the
      narrower program is the run of the wider one, unless it is a prefix of it that ends where the narrow
      gate refuses a request that the wide gate grants. */
  lemma NarrowingTruncates(
      mn: Machine, mw: Machine, policyN: Option<seq<Token>>, policyW: Option<seq<Token>>, maxSteps: int, n: Memory, w: Memory)
    requires Paired(mn, mw) && InStep(n, w)
    requires policyN.Some? ==> Untampered(mn.syn, mn.program, policyN.value)
    requires policyW.Some? ==> Untampered(mw.syn, mw.program, policyW.value)
    ensures Truncated(Execute(mn, policyN, maxSteps, n), Execute(mw, policyW, maxSteps, w))
  {
    if policyN.Some? {
      ValidationExactly(mn.syn, mn.program, policyN.value);
    }
    if policyW.Some? {
      ValidationExactly(mw.syn, mw.program, policyW.value);
    }
    if mn.program.irVersion == IR_VERSION {
      RunTruncates(mn, mw, mn.program.entry, Start(mn, n).mem, Start(mw, w).mem, Fuel(maxSteps));
    } else {
      EitherTruncates(Execute(mn, policyN, maxSteps, n), Execute(mw, policyW, maxSteps, w));
    }
  }

  // ----- Policies -------------------------------------------------------------------------

  lemma MorePagedCoversMore(syn: Syntax, few: seq<string>, many: seq<string>, cap: Token)
    requires forall c | c in few :: c in many
    requires Covered(syn, cap, few)
    ensures Covered(syn, cap, many)
  {
    var i :| 0 <= i < |few| && syn.parse(few[i]).Ok? && Satisfies(syn, cap, syn.parse(few[i]).value);
    assert few[i] in few;
    var j :| 0 <= j < |many| && many[j] == few[i];
  }

  lemma NarrowPageNode(syn: Syntax, node: IrNode, narrow: seq<Token>, wide: seq<Token>)
    requires AllowsMore(syn, narrow, wide)
    ensures NarrowsNode(syn, PageNode(syn, node, narrow), PageNode(syn, node, wide))
  {
    var few, many := PagedCaps(syn, node.declared, narrow), PagedCaps(syn, node.declared, wide);
    forall c | c in few
      ensures c in many
    {
      assert Allows(syn, c, narrow);
    }
    forall cap | Covered(syn, cap, few)
      ensures Covered(syn, cap, many)
    {
      MorePagedCoversMore(syn, few, many, cap);
    }
  }

  /** Paging under a narrower policy narrows, compared with paging under a wider one. */
  lemma NarrowPolicyNarrows(syn: Syntax, p: CompiledProgram, narrow: seq<Token>, wide: seq<Token>)
    requires AllowsMore(syn, narrow, wide)
    ensures Narrows(syn, Page(syn, p, narrow), Page(syn, p, wide))
  {
    forall id | p.Has(id)
      ensures NarrowsNode(syn, Page(syn, p, narrow).Node(id), Page(syn, p, wide).Node(id))
    {
      NarrowPageNode(syn, p.Node(id), narrow, wide);
    }
  }

  /** Paging narrows a well-declared program that grants, as lowering leaves it, all it declares. */
  lemma PagingNarrows(syn: Syntax, p: CompiledProgram, policy: seq<Token>)
    requires Compiler.WellDeclared(syn, p) && forall id | p.Has(id) :: p.Node(id).paged == p.Node(id).declared
    ensures Narrows(syn, Page(syn, p, policy), p)
  {
    forall id | p.Has(id)
      ensures NarrowsNode(syn, Page(syn, p, policy).Node(id), p.Node(id))
    {
      var few, many := PagedCaps(syn, p.Node(id).declared, policy), p.Node(id).declared;
      assert AllParse(syn, many);
      forall cap | Covered(syn, cap, few)
        ensures Covered(syn, cap, many)
      {
        MorePagedCoversMore(syn, few, many, cap);
      }
    }
  }

  /** End to end: relaxing a policy lengthens runs and changes nothing else. Compile one program under a
      strict policy and under one that allows whatever the strict one allows, and run it on two executors
      with the same past, with or without policies of their own: the strict run is the relaxed run or a
      proper beginning of it, and a strict run that returns undenied is the relaxed run. */
  lemma RelaxingPolicyOnlyLengthensRuns(
      p: CompiledProgram, strict: seq<Token>, relaxed: seq<Token>, ownN: Option<seq<Token>>, ownW: Option<seq<Token>>,
      m: Machine, maxSteps: int, mem: Memory)
    requires AllowsMore(m.syn, strict, relaxed) && PagingBlind(m.handler)
    requires Admits(m.syn, ownN, strict) && Admits(m.syn, ownW, relaxed)
    ensures var rn := Execute(m.(program := Page(m.syn, p, strict)), ownN, maxSteps, mem);
            var rw := Execute(m.(program := Page(m.syn, p, relaxed)), ownW, maxSteps, mem);
            && Truncated(rn, rw)
            && (rn.result.Ok? && rn.result.value.finalState != DENIED ==> Agree(rn, rw))
  {
    NarrowPolicyNarrows(m.syn, p, strict, relaxed);
    if ownN.Some? {
      PagedProgramIsUntampered(m.syn, p, strict, ownN.value);
    }
    if ownW.Some? {
      PagedProgramIsUntampered(m.syn, p, relaxed, ownW.value);
    }
    NarrowingTruncates(m.(program := Page(m.syn, p, strict)), m.(program := Page(m.syn, p, relaxed)),
                       ownN, ownW, maxSteps, mem, mem);
  }
}
