/** The telemetry of a run: its grammar, its contents, and replaying it. */
module Traces {
  import opened Basics
  import opened Capabilities
  import opened Ir
  import opened RunLog
  import opened StepMachine
  import opened StepLaws
  import opened RunLaws

  /** A reader of one run's events that knows neither the program nor the executor. */
  datatype Cursor =
    | Outside
    | Between(path: seq<string>, last: Option<StepState>)
    | Inside(path: seq<string>, id: string, denied: bool)
    | Complete(path: seq<string>, finalState: StepState)
    | Broken

  /** The event grammar: run_started; then one block per step, of step_started, the grants and denials
      of that step, and one step_completed or step_failed; then run_completed with the last step's
      state. A denial forces the block and the run to close DENIED, and nothing follows a DENIED block. */
  function Feed(c: Cursor, e: Event): Cursor {
    match (c, e)
    case (Outside, RunStarted) => Between([], None)
    case (Between(path, last), StepStarted(id)) => if last == Some(DENIED) then Broken else Inside(path + [id], id, false)
    case (Inside(path, id, denied), CapabilityGranted(sid, _)) => if sid == id then c else Broken
    case (Inside(path, id, denied), CapabilityRefused(sid, _, _)) => if sid == id then Inside(path, id, true) else Broken
    case (Inside(path, id, denied), StepCompleted(sid, s)) =>
      if sid == id && s != FAILED && (denied ==> s == DENIED) then Between(path, Some(s)) else Broken
    case (Inside(path, id, denied), StepFailed(sid, s)) =>
      if sid == id && s == FAILED && !denied then Between(path, Some(s)) else Broken
    case (Between(path, Some(s)), RunCompleted(t)) => if s == t then Complete(path, t) else Broken
    case _ => Broken
  }

  function Replay(c: Cursor, es: seq<Event>): Cursor {
    if es == [] then c else Feed(Replay(c, es[..|es| - 1]), es[|es| - 1])
  }

  lemma {:induction false} ReplayConcat(c: Cursor, a: seq<Event>, b: seq<Event>)
    ensures Replay(c, a + b) == Replay(Replay(c, a), b)
  {
    if b == [] {
      assert a + b == a;
    } else {
      assert (a + b)[..|a + b| - 1] == a + b[..|b| - 1];
      ReplayConcat(c, a, b[..|b| - 1]);
    }
  }

  lemma ReplayOne(c: Cursor, e: Event)
    ensures Replay(c, [e]) == Feed(c, e)
  {
    assert [e][..0] == [];
  }

  lemma DenialsOfMore(xs: seq<Exchange>, x: Exchange)
    ensures Denials(xs + [x]) <==> Denials(xs) || x.decision.Refused?
  {
    var more := xs + [x];
    assert more[|xs|] == x && forall i | 0 <= i < |xs| :: more[i] == xs[i];
  }

  /** One more exchange read inside a block. */
  lemma ReplayExchange(c: Cursor, before: seq<Event>, e: Event, path: seq<string>, id: string, denied: bool)
    requires Replay(c, before) == Inside(path, id, denied) && (e.CapabilityGranted? || e.CapabilityRefused?) && e.stepId == id
    ensures e.CapabilityGranted? ==> Replay(c, before + [e]) == Inside(path, id, denied)
    ensures e.CapabilityRefused? ==> Replay(c, before + [e]) == Inside(path, id, true)
  {
    ReplayConcat(c, before, [e]);
    ReplayOne(Replay(c, before), e);
  }

  lemma {:induction false} ReplayExchanges(syn: Syntax, id: string, node: IrNode, xs: seq<Exchange>, path: seq<string>)
    ensures Replay(Inside(path, id, false), ExchangeEvents(syn, id, node, xs)) == Inside(path, id, Denials(xs))
  {
    if xs != [] {
      var front, last := xs[..|xs| - 1], xs[|xs| - 1];
      var c, before := Inside(path, id, false), ExchangeEvents(syn, id, node, front);
      ReplayExchanges(syn, id, node, front, path);
      assert xs == front + [last];
      DenialsOfMore(front, last);
      match last.decision
      case Granted => ReplayExchange(c, before, CapabilityGranted(id, last.cap), path, id, Denials(front));
      case Refused =>
        ReplayExchange(c, before, CapabilityRefused(id, last.cap, Tokens(syn, node.paged)), path, id, Denials(front));
      case Unreadable => assert before + [] == before;
    }
  }

  /** Where a block's events lead the reader: out of the block, or nowhere if the handler raised. */
  function Closed(r: StepRecord, path: seq<string>): Cursor {
    match r.state
    case None => Inside(path + [r.id], r.id, Denials(r.exchanges))
    case Some(s) => if r.exit.Finished? then Complete(path + [r.id], s) else Between(path + [r.id], Some(s))
  }

  lemma ReplayOpening(m: Machine, r: StepRecord, path: seq<string>, last: Option<StepState>)
    requires m.program.Has(r.id) && last != Some(DENIED)
    ensures var xs := ExchangeEvents(m.syn, r.id, m.program.Node(r.id), r.exchanges);
            Replay(Between(path, last), [StepStarted(r.id)] + xs) == Inside(path + [r.id], r.id, Denials(r.exchanges))
  {
    var node := m.program.Node(r.id);
    ReplayOne(Between(path, last), StepStarted(r.id));
    ReplayConcat(Between(path, last), [StepStarted(r.id)], ExchangeEvents(m.syn, r.id, node, r.exchanges));
    ReplayExchanges(m.syn, r.id, node, r.exchanges, path + [r.id]);
  }

  lemma ReplayClosing(inside: Cursor, id: string, s: StepState)
    requires inside.Inside? && inside.id == id && (inside.denied ==> s == DENIED)
    ensures Replay(inside, [CompletionEvent(id, s)]) == Between(inside.path, Some(s))
    ensures Replay(inside, [CompletionEvent(id, s), RunCompleted(s)]) == Complete(inside.path, s)
  {
    ReplayOne(inside, CompletionEvent(id, s));
    assert [CompletionEvent(id, s), RunCompleted(s)] == [CompletionEvent(id, s)] + [RunCompleted(s)];
    ReplayConcat(inside, [CompletionEvent(id, s)], [RunCompleted(s)]);
    ReplayOne(Between(inside.path, Some(s)), RunCompleted(s));
  }

  /** Replaying a step's events reads its block. */
  lemma ReplayBlock(m: Machine, r: StepRecord, path: seq<string>, last: Option<StepState>)
    requires m.program.Has(r.id) && last != Some(DENIED)
    requires Denials(r.exchanges) && r.state.Some? ==> r.state.value == DENIED
    ensures Replay(Between(path, last), StepEvents(m, r)) == Closed(r, path)
  {
    var c := Between(path, last);
    var opening := [StepStarted(r.id)] + ExchangeEvents(m.syn, r.id, m.program.Node(r.id), r.exchanges);
    ReplayOpening(m, r, path, last);
    match r.state
    case None =>
      assert StepEvents(m, r) == opening;
    case Some(s) =>
      var closing := [CompletionEvent(r.id, s)] + if r.exit.Finished? then [RunCompleted(s)] else [];
      assert StepEvents(m, r) == opening + closing;
      ReplayConcat(c, opening, closing);
      ReplayClosing(Inside(path + [r.id], r.id, Denials(r.exchanges)), r.id, s);
      assert closing == if r.exit.Finished? then [CompletionEvent(r.id, s), RunCompleted(s)] else [CompletionEvent(r.id, s)];
  }

  /** The state of the last record that a run has added. */
  function LastState(before: Memory, mem: Memory): Option<StepState>
    requires before.history <= mem.history
  {
    if Own(before, mem) == [] then None else LastRecord(mem).state
  }

  /** On arrival, what the run has reported since `before` reads as its path, every block closed, and the
      path as the records that the run has added. */
  ghost predicate ReadSoFar(s: Spot, before: Memory) {
    exists es :: ReadAs(s, before, es)
  }

  ghost predicate ReadAs(s: Spot, before: Memory, es: seq<Event>) {
    && before.history <= s.mem.history && s.path == IdsOf(Own(before, s.mem))
    && s.mem.trace == before.trace + es
    && LastState(before, s.mem) != Some(DENIED)
    && Replay(Outside, es) == Between(s.path, LastState(before, s.mem))
  }

  /** A step's events continue the reading by its block. */
  lemma StepReads(m: Machine, s: Spot, before: Memory, es: seq<Event>)
    requires m.program.Has(s.id) && ReadAs(s, before, es)
    ensures var r := LastRecord(Step(m, s.id, s.mem));
            && r.id == s.id
            && Step(m, s.id, s.mem).trace == before.trace + (es + StepEvents(m, r))
            && Replay(Outside, es + StepEvents(m, r)) == Closed(r, s.path)
  {
    StepLaw(m, s.id, s.mem);
    var r := LastRecord(Step(m, s.id, s.mem));
    ReplayBlock(m, r, s.path, LastState(before, s.mem));
    ReplayConcat(Outside, es, StepEvents(m, r));
    ConcatAssociates(before.trace, es, StepEvents(m, r));
  }

  /** A step's record continues the path. */
  lemma StepExtendsOwn(m: Machine, s: Spot, before: Memory)
    requires m.program.Has(s.id) && before.history <= s.mem.history && s.path == IdsOf(Own(before, s.mem))
    ensures before.history <= Step(m, s.id, s.mem).history
    ensures IdsOf(Own(before, Step(m, s.id, s.mem))) == s.path + [s.id]
    ensures LastState(before, Step(m, s.id, s.mem)) == LastRecord(Step(m, s.id, s.mem)).state
  {
    StepAddsRecord(m, s.id, s.mem);
    OwnOfMore(before, s.mem, Step(m, s.id, s.mem), LastRecord(Step(m, s.id, s.mem)));
    IdsOfMore(Own(before, s.mem), LastRecord(Step(m, s.id, s.mem)));
  }

  lemma MoveKeepsReading(m: Machine, s: Spot, before: Memory)
    requires ReadSoFar(s, before) && Moves(m, s)
    ensures ReadSoFar(Arrive(m, s), before)
  {
    var es :| ReadAs(s, before, es);
    StepReads(m, s, before, es);
    StepExtendsOwn(m, s, before);
    MovingStep(m, s);
    var r := LastRecord(Step(m, s.id, s.mem));
    assert ReadAs(Arrive(m, s), before, es + StepEvents(m, r));
  }

  /** How the events of a run read, exactly. Those of one that returns read as its result. Those of one that
      raises read as the records it has added: inside the last step's block if its handler raised, and
      otherwise behind it; and as nothing at all if the run did not start. */
  ghost predicate Reads(r: RunOutcome, before: Memory) {
    && before.trace <= r.mem.trace && before.history <= r.mem.history
    && var c, h := Replay(Outside, r.mem.trace[|before.trace|..]), Own(before, r.mem);
    match r.result
    case Ok(rr) => c == Complete(rr.path, rr.finalState) && rr.path == IdsOf(h)
    case Err(e) =>
      if StartError(e) then c == Outside && h == []
      else if e.HandlerRaised? then h != [] && c == Inside(IdsOf(h), e.stepId, Denials(LastRecord(r.mem).exchanges))
      else c == Between(IdsOf(h), LastState(before, r.mem))
  }

  /** A step that ends the run closes the reading, or leaves it open if its handler raises. */
  lemma LastBlock(m: Machine, s: Spot)
    requires m.program.Has(s.id) && !Moves(m, s)
    ensures var r, path := LastRecord(Step(m, s.id, s.mem)), s.path + [s.id];
            match r.exit
            case Finished(d) => Closed(r, s.path) == Complete(path, d)
            case Aborted(HandlerRaised(id)) => id == s.id && Closed(r, s.path) == Inside(path, id, Denials(r.exchanges))
            case _ => r.exit.Aborted? && !StartError(r.exit.error) && Closed(r, s.path) == Between(path, r.state)
  {
    StepLaw(m, s.id, s.mem);
  }

  lemma ReadsAtEnd(m: Machine, s: Spot, left: nat, before: Memory)
    requires ReadSoFar(s, before) && (left == 0 || !Moves(m, s))
    ensures Reads(EndOf(m, s, left), before)
  {
    var es :| ReadAs(s, before, es);
    assert s.mem.trace[|before.trace|..] == es;
    if m.program.Has(s.id) && left > 0 {
      StepReads(m, s, before, es);
      StepExtendsOwn(m, s, before);
      LastBlock(m, s);
      var all := es + StepEvents(m, LastRecord(Step(m, s.id, s.mem)));
      assert Step(m, s.id, s.mem).trace[|before.trace|..] == all;
    }
  }

  /** Replaying the events of any run that returns, on a fresh executor or a used one, accepts them
      and recovers exactly the result's path and final state; the events of a run that raises are an
      unfinished reading of the steps it executed, never a broken one. */
  lemma TraceReplaysToResult(m: Machine, policy: Option<seq<Token>>, maxSteps: int, mem: Memory)
    ensures Reads(Execute(m, policy, maxSteps, mem), mem)
  {
    if Starts(m, policy) {
      ReplayOne(Outside, RunStarted);
      assert ReadAs(Start(m, mem), mem, [RunStarted]);
      forall s | ReadSoFar(s, mem) && Moves(m, s) {
        MoveKeepsReading(m, s, mem);
      }
      var last, left := ExecuteInduction(m, policy, maxSteps, mem, (s: Spot) => ReadSoFar(s, mem));
      ReadsAtEnd(m, last, left, mem);
    } else {
      NotStarted(m, policy, maxSteps, mem);
      assert mem.trace[|mem.trace|..] == [];
    }
  }

  // ----- The trace tells the whole log -----------------------------------------------------

  ghost predicate Known(m: Machine, h: History) {
    forall i | 0 <= i < |h| :: m.program.Has(h[i].id)
  }

  function Blocks(m: Machine, h: History): seq<Event>
    requires Known(m, h)
  {
    if h == [] then [] else Blocks(m, h[..|h| - 1]) + StepEvents(m, h[|h| - 1])
  }

  /** What has been reported since `before` is run_started and the events of the records added. */
  ghost predicate Told(m: Machine, before: Memory, mem: Memory) {
    && before.history <= mem.history
    && Known(m, Own(before, mem))
    && mem.trace == before.trace + [RunStarted] + Blocks(m, Own(before, mem))
  }

  lemma StepIsTold(m: Machine, id: string, before: Memory, mem: Memory)
    requires m.program.Has(id) && Told(m, before, mem)
    ensures Told(m, before, Step(m, id, mem))
  {
    StepLaw(m, id, mem);
    var r, h := LastRecord(Step(m, id, mem)), Own(before, mem);
    OwnOfMore(before, mem, Step(m, id, mem), r);
    ToldOfMore(m, h, r);
    ConcatAssociates(before.trace + [RunStarted], Blocks(m, h), StepEvents(m, r));
  }

  lemma ToldOfMore(m: Machine, h: History, r: StepRecord)
    requires Known(m, h) && m.program.Has(r.id)
    ensures Known(m, h + [r]) && Blocks(m, h + [r]) == Blocks(m, h) + StepEvents(m, r)
  {
    assert (h + [r])[..|h|] == h;
  }

  /** The trace of a run is run_started and then, step by step, exactly the events of the records that the
      run adds to the log: every grant and every refusal of every dialogue is reported, in order, and no
      other. */
  lemma TraceTellsTheLog(m: Machine, policy: Option<seq<Token>>, maxSteps: int, mem: Memory)
    requires Starts(m, policy)
    ensures Told(m, mem, Execute(m, policy, maxSteps, mem).mem)
  {
    assert Told(m, mem, Start(m, mem).mem);
    forall s: Spot | Told(m, mem, s.mem) && m.program.Has(s.id) {
      StepIsTold(m, s.id, mem, s.mem);
    }
    var last, left := ExecuteInduction(m, policy, maxSteps, mem, (s: Spot) => Told(m, mem, s.mem));
  }

  // ----- Decisions in the trace --------------------------------------------------------------

  /** A gate decision as it is reported: the step, the request, and, if it was refused, the tokens that the
      step may use. */
  type Verdict = (string, Token, Option<seq<Token>>)

  /** The decisions that the events report. */
  function Reported(es: seq<Event>): seq<Verdict> {
    if es == [] then []
    else
      Reported(es[..|es| - 1]) +
      match es[|es| - 1]
      case CapabilityGranted(id, cap) => [(id, cap, None)]
      case CapabilityRefused(id, cap, paged) => [(id, cap, Some(paged))]
      case _ => []
  }

  /** The decisions of the gate in a dialogue of a step with these paged tokens. */
  function Decided(id: string, paged: seq<Token>, xs: seq<Exchange>): seq<Verdict> {
    if xs == [] then []
    else
      var last := xs[|xs| - 1];
      Decided(id, paged, xs[..|xs| - 1]) +
      match last.decision
      case Granted => [(id, last.cap, None)]
      case Refused => [(id, last.cap, Some(paged))]
      case Unreadable => []
  }

  function DecidedIn(m: Machine, h: History): seq<Verdict>
    requires Known(m, h)
  {
    if h == [] then []
    else
      var last := h[|h| - 1];
      DecidedIn(m, h[..|h| - 1]) + Decided(last.id, Tokens(m.syn, m.program.Node(last.id).paged), last.exchanges)
  }

  lemma {:induction false} ReportedConcat(a: seq<Event>, b: seq<Event>)
    ensures Reported(a + b) == Reported(a) + Reported(b)
    decreases |b|
  {
    if b == [] {
      assert a + b == a;
    } else {
      assert (a + b)[..|a + b| - 1] == a + b[..|b| - 1];
      ReportedConcat(a, b[..|b| - 1]);
    }
  }

  lemma {:induction false} ExchangesReport(syn: Syntax, id: string, node: IrNode, xs: seq<Exchange>)
    ensures Reported(ExchangeEvents(syn, id, node, xs)) == Decided(id, Tokens(syn, node.paged), xs)
  {
    if xs != [] {
      var front, last := xs[..|xs| - 1], xs[|xs| - 1];
      ExchangesReport(syn, id, node, front);
      var before := ExchangeEvents(syn, id, node, front);
      match last.decision
      case Granted => ReportedConcat(before, [CapabilityGranted(id, last.cap)]);
      case Refused => ReportedConcat(before, [CapabilityRefused(id, last.cap, Tokens(syn, node.paged))]);
      case Unreadable => assert before + [] == before;
    }
  }

  lemma ReportedOne(e: Event)
    ensures Reported([e]) == match e
            case CapabilityGranted(id, cap) => [(id, cap, None)]
            case CapabilityRefused(id, cap, paged) => [(id, cap, Some(paged))]
            case _ => []
  {
    assert [e][..0] == [];
  }

  lemma ClosingReportsNothing(id: string, s: StepState, over: bool)
    ensures Reported([CompletionEvent(id, s)] + if over then [RunCompleted(s)] else []) == []
  {
    ReportedOne(CompletionEvent(id, s));
    ReportedOne(RunCompleted(s));
    ReportedConcat([CompletionEvent(id, s)], if over then [RunCompleted(s)] else []);
  }

  lemma OpeningReports(syn: Syntax, id: string, node: IrNode, xs: seq<Exchange>)
    ensures Reported([StepStarted(id)] + ExchangeEvents(syn, id, node, xs)) == Decided(id, Tokens(syn, node.paged), xs)
  {
    ReportedOne(StepStarted(id));
    ReportedConcat([StepStarted(id)], ExchangeEvents(syn, id, node, xs));
    ExchangesReport(syn, id, node, xs);
  }

  lemma StepReports(m: Machine, r: StepRecord)
    requires m.program.Has(r.id)
    ensures Reported(StepEvents(m, r)) == Decided(r.id, Tokens(m.syn, m.program.Node(r.id).paged), r.exchanges)
  {
    var opening := [StepStarted(r.id)] + ExchangeEvents(m.syn, r.id, m.program.Node(r.id), r.exchanges);
    OpeningReports(m.syn, r.id, m.program.Node(r.id), r.exchanges);
    match r.state
    case None =>
      assert StepEvents(m, r) == opening;
    case Some(s) =>
      var closing := [CompletionEvent(r.id, s)] + if r.exit.Finished? then [RunCompleted(s)] else [];
      assert StepEvents(m, r) == opening + closing;
      ClosingReportsNothing(r.id, s, r.exit.Finished?);
      ReportedConcat(opening, closing);
  }

  lemma {:induction false} BlocksReport(m: Machine, h: History)
    requires Known(m, h)
    ensures Reported(Blocks(m, h)) == DecidedIn(m, h)
  {
    if h != [] {
      var n := |h| - 1;
      BlocksReport(m, h[..n]);
      StepReports(m, h[n]);
      ReportedConcat(Blocks(m, h[..n]), StepEvents(m, h[n]));
    }
  }

  /** Every decision of the gate is on record: the grants and refusals that a run reports are, one by one and in
      order, those of the dialogues that it adds to the log, with the step and the request of each. */
  lemma DecisionsAreReported(m: Machine, policy: Option<seq<Token>>, maxSteps: int, mem: Memory)
    ensures var r := Execute(m, policy, maxSteps, mem);
            && mem.trace <= r.mem.trace && mem.history <= r.mem.history
            && Known(m, Own(mem, r.mem))
            && Reported(r.mem.trace[|mem.trace|..]) == DecidedIn(m, Own(mem, r.mem))
  {
    var r := Execute(m, policy, maxSteps, mem);
    if Starts(m, policy) {
      TraceTellsTheLog(m, policy, maxSteps, mem);
      BlocksReport(m, Own(mem, r.mem));
      ReportedOne(RunStarted);
      ReportedConcat([RunStarted], Blocks(m, Own(mem, r.mem)));
      ConcatAssociates(mem.trace, [RunStarted], Blocks(m, Own(mem, r.mem)));
      assert r.mem.trace[|mem.trace|..] == [RunStarted] + Blocks(m, Own(mem, r.mem));
    } else {
      NotStarted(m, policy, maxSteps, mem);
      assert r.mem.trace[|mem.trace|..] == [];
    }
  }
}
