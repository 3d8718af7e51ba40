/** What one step leaves in the executor's memory, stated by its record alone. */
module StepLaws {
  import opened Basics
  import opened Capabilities
  import opened Ir
  import opened RunLog
  import opened Gate
  import opened Plugins
  import opened StepMachine

  /** Exchange `i` of a dialogue: the handler asked for it, knowing the exchanges before it and no
      others; the gate's decision is what the decision means; and only a granted request got further
      than the gate. */
  ghost predicate Exchanged(m: Machine, id: string, node: IrNode, past: History, xs: seq<Exchange>, i: nat)
    requires i < |xs|
  {
    var x := xs[i];
    && m.handler.act(past, node, xs[..i]) == Request(x.cap, x.args)
    && match x.decision
       case Granted =>
         && CheckCall(m.syn, x.cap, node.paged) == Ok(true) && Covered(m.syn, x.cap, node.paged)
         && x.reply == Route(m.syn, m.index, past, xs[..i], x.cap, x.args)
       case Refused =>
         && AllParse(m.syn, node.paged) && !Covered(m.syn, x.cap, node.paged)
         && x.reply == Answer(ToolResult(false, None, Some(CapabilityDenied(id, x.cap.raw))))
       case Unreadable =>
         exists i :: Decides(m.syn, x.cap, node.paged, i) && RaisesFor(m.syn, node.paged[i], x.reply)
  }

  /** The reply is the grammar error of this malformed entry. */
  predicate RaisesFor(syn: Syntax, entry: string, reply: Reply) {
    syn.parse(entry).Err? && reply == Threw(BadText(syn.parse(entry).error))
  }

  ghost predicate Played(m: Machine, id: string, node: IrNode, past: History, xs: seq<Exchange>) {
    forall i | 0 <= i < |xs| :: Exchanged(m, id, node, past, xs, i)
  }

  /** The telemetry of a dialogue. */
  function ExchangeEvents(syn: Syntax, id: string, node: IrNode, xs: seq<Exchange>): seq<Event> {
    if xs == [] then []
    else
      var last := |xs| - 1;
      ExchangeEvents(syn, id, node, xs[..last]) +
      match xs[last].decision
      case Granted => [CapabilityGranted(id, xs[last].cap)]
      case Refused => [CapabilityRefused(id, xs[last].cap, Tokens(syn, node.paged))]
      case Unreadable => []
  }

  /** The violation field after a dialogue: the last refusal, or what was there before. */
  function Latched(syn: Syntax, id: string, node: IrNode, xs: seq<Exchange>, before: Option<Violation>): Option<Violation> {
    if Denials(xs) then Some(Violation(id, LastRefused(xs), Tokens(syn, node.paged))) else before
  }

  lemma RequestIsExchanged(
      m: Machine, id: string, node: IrNode, past: History, xs: seq<Exchange>, cap: Token, args: Args, latched: Option<Violation>)
    requires Played(m, id, node, past, xs) && m.handler.act(past, node, xs) == Request(cap, args)
    ensures var call := RequestTool(m, id, node, past, xs, cap, args, latched);
            var x := Exchange(cap, args, call.decision, call.reply);
            && Played(m, id, node, past, xs + [x])
            && ExchangeEvents(m.syn, id, node, xs + [x]) == ExchangeEvents(m.syn, id, node, xs) + call.events
            && call.violation == if x.decision.Refused? then Some(Violation(id, cap, Tokens(m.syn, node.paged))) else latched
  {
    CheckCallMeaning(m.syn, cap, node.paged);
    CheckCallByOrder(m.syn, cap, node.paged);
    var call := RequestTool(m, id, node, past, xs, cap, args, latched);
    var x := Exchange(cap, args, call.decision, call.reply);
    assert (xs + [x])[..|xs|] == xs;
    forall i | 0 <= i < |xs|
      ensures Exchanged(m, id, node, past, xs + [x], i)
    {
      assert Exchanged(m, id, node, past, xs, i);
      assert (xs + [x])[..i] == xs[..i];
    }
  }

  lemma LatchedByMore(syn: Syntax, id: string, node: IrNode, xs: seq<Exchange>, x: Exchange, before: Option<Violation>)
    ensures Latched(syn, id, node, xs + [x], before) ==
            if x.decision.Refused? then Some(Violation(id, x.cap, Tokens(syn, node.paged)))
            else Latched(syn, id, node, xs, before)
  {
    var more := xs + [x];
    assert more[..|xs|] == xs && more[|xs|] == x;
    if Denials(xs) {
      var i :| 0 <= i < |xs| && xs[i].decision.Refused?;
      assert more[i].decision.Refused?;
    }
    if Denials(more) && !x.decision.Refused? {
      var i :| 0 <= i < |more| && more[i].decision.Refused?;
      assert xs[i].decision.Refused?;
    }
  }

  /** A dialogue in order: played, reported and latched. */
  ghost predicate Lawful(m: Machine, id: string, node: IrNode, past: History, before: Option<Violation>, d: Dialogue) {
    && Played(m, id, node, past, d.exchanges)
    && d.events == ExchangeEvents(m.syn, id, node, d.exchanges)
    && d.violation == Latched(m.syn, id, node, d.exchanges, before)
  }

  /** How a dialogue ended: by the handler's own last act. */
  predicate Ended(m: Machine, node: IrNode, past: History, d: Dialogue) {
    match m.handler.act(past, node, d.exchanges)
    case Return(s) => d.returned == Some(s)
    case Raise => d.returned == None
    case Request(_, _) => false
  }

  /** A dialogue only grows. */
  lemma {:induction false} TalkExtends(m: Machine, id: string, node: IrNode, past: History, d: Dialogue)
    ensures d.exchanges <= Talk(m, id, node, past, d).exchanges
    decreases m.handler.patience(past, node) - |d.exchanges|
  {
    var act := m.handler.act(past, node, d.exchanges);
    if act.Request? {
      var call := RequestTool(m, id, node, past, d.exchanges, act.cap, act.args, d.violation);
      TalkExtends(m, id, node, past, AfterCall(d, act.cap, act.args, call));
    }
  }

  lemma {:induction false} TalkIsLawful(m: Machine, id: string, node: IrNode, past: History, before: Option<Violation>, d: Dialogue)
    requires Lawful(m, id, node, past, before, d)
    ensures Lawful(m, id, node, past, before, Talk(m, id, node, past, d))
    ensures Ended(m, node, past, Talk(m, id, node, past, d))
    ensures d.exchanges <= Talk(m, id, node, past, d).exchanges
    decreases m.handler.patience(past, node) - |d.exchanges|
  {
    TalkExtends(m, id, node, past, d);
    var act := m.handler.act(past, node, d.exchanges);
    if act.Request? {
      var call := RequestTool(m, id, node, past, d.exchanges, act.cap, act.args, d.violation);
      var x := Exchange(act.cap, act.args, call.decision, call.reply);
      RequestIsExchanged(m, id, node, past, d.exchanges, act.cap, act.args, d.violation);
      LatchedByMore(m.syn, id, node, d.exchanges, x, before);
      TalkIsLawful(m, id, node, past, before, AfterCall(d, act.cap, act.args, call));
    }
  }

  // ----- The step law ---------------------------------------------------------------------

  /** The telemetry of a step. */
  function StepEvents(m: Machine, r: StepRecord): seq<Event>
    requires m.program.Has(r.id)
  {
    [StepStarted(r.id)] + ExchangeEvents(m.syn, r.id, m.program.Node(r.id), r.exchanges) +
    match r.state
    case None => []
    case Some(s) => [CompletionEvent(r.id, s)] + if r.exit.Finished? then [RunCompleted(s)] else []
  }

  /** `r` is what a step at `id` with memory `mem` may leave behind. */
  ghost predicate RecordOf(m: Machine, id: string, mem: Memory, r: StepRecord)
    requires m.program.Has(id)
  {
    var node := m.program.Node(id);
    var violation := Latched(m.syn, id, node, r.exchanges, mem.violation);
    && r.id == id
    && Played(m, id, node, mem.history, r.exchanges)
    && Ended(m, node, mem.history, Dialogue(r.exchanges, r.returned, violation, []))
    && (match r.returned
        case None => r.state == None && r.exit == Aborted(HandlerRaised(id))
        case Some(s) =>
          && r.state == Some(if violation.Some? then DENIED else s)
          && r.exit == ExitOf(id, node, CountOf(mem.counts, id) + 1, r.state.value))
  }

  /** A step appends one record, and the rest of the memory follows from that record. */
  ghost predicate LawfulStep(m: Machine, id: string, mem: Memory, mem': Memory)
    requires m.program.Has(id)
  {
    && mem'.history != [] && mem'.history == mem.history + [LastRecord(mem')]
    && RecordOf(m, id, mem, LastRecord(mem'))
    && mem'.trace == mem.trace + StepEvents(m, LastRecord(mem'))
    && mem'.violation == Latched(m.syn, id, m.program.Node(id), LastRecord(mem').exchanges, mem.violation)
    && mem'.counts == if LastRecord(mem').state.Some? && Counts(m.program.Node(id), LastRecord(mem').state.value)
                      then mem.counts[id := CountOf(mem.counts, id) + 1] else mem.counts
  }

  lemma LawfulDialogueConcludes(m: Machine, id: string, mem: Memory, d: Dialogue)
    requires m.program.Has(id)
    requires Lawful(m, id, m.program.Node(id), mem.history, mem.violation, d) && Ended(m, m.program.Node(id), mem.history, d)
    ensures LawfulStep(m, id, mem, Concluded(id, m.program.Node(id), mem, d))
  {}

  /** The law of the step, for every step. */
  lemma StepLaw(m: Machine, id: string, mem: Memory)
    requires m.program.Has(id)
    ensures LawfulStep(m, id, mem, Step(m, id, mem))
  {
    TalkIsLawful(m, id, m.program.Node(id), mem.history, mem.violation, Opening(mem.violation));
    LawfulDialogueConcludes(m, id, mem, Talk(m, id, m.program.Node(id), mem.history, Opening(mem.violation)));
  }

  /** A step that is left along an edge was neither denied nor raised out of, and no violation is latched. */
  lemma MovingStep(m: Machine, s: Spot)
    requires Moves(m, s)
    ensures var r := LastRecord(Arrive(m, s).mem);
            && s.mem.violation.None? && Arrive(m, s).mem.violation.None? && !Denials(r.exchanges)
            && r.returned.Some? && r.state == r.returned && r.state != Some(DENIED)
            && !m.program.Node(s.id).terminal
  {
    StepLaw(m, s.id, s.mem);
  }

  lemma StepAddsRecord(m: Machine, id: string, mem: Memory)
    requires m.program.Has(id)
    ensures Step(m, id, mem).history == mem.history + [LastRecord(Step(m, id, mem))]
    ensures LastRecord(Step(m, id, mem)).id == id
  {}

  /** The record of a step holds the dialogue of that step. */
  lemma StepRecordsTalk(m: Machine, id: string, mem: Memory)
    requires m.program.Has(id)
    ensures var d := Talk(m, id, m.program.Node(id), mem.history, Opening(mem.violation));
            && Step(m, id, mem).history != []
            && LastRecord(Step(m, id, mem)).exchanges == d.exchanges
            && LastRecord(Step(m, id, mem)).returned == d.returned
  {}

  /** Only a refusal latches: a step on an executor without a violation stays without one exactly when
      nothing was refused, and then its state is the handler's own. In particular a tool call that the
      sandbox fails was granted and denies nothing. */
  lemma OnlyRefusalsDeny(m: Machine, id: string, mem: Memory)
    requires m.program.Has(id) && mem.violation.None?
    ensures var mem', r := Step(m, id, mem), LastRecord(Step(m, id, mem));
            && (mem'.violation.None? <==> !Denials(r.exchanges))
            && (mem'.violation.None? ==> r.state == r.returned)
            && (forall x, cap | x in r.exchanges && x.reply == Failure(IntegrityViolation(cap)) :: x.decision.Granted?)
  {
    StepLaw(m, id, mem);
    var r := LastRecord(Step(m, id, mem));
    forall x, cap | x in r.exchanges && x.reply == Failure(IntegrityViolation(cap))
      ensures x.decision.Granted?
    {
      var i :| 0 <= i < |r.exchanges| && r.exchanges[i] == x;
      assert Exchanged(m, id, m.program.Node(id), mem.history, r.exchanges, i);
    }
  }

  /** A refusal ends the run with its step, unless the handler raises, which ends it too. */
  predicate Stops(exit: Exit) {
    exit == Finished(DENIED) || (exit.Aborted? && exit.error.HandlerRaised?)
  }

  lemma RefusalStops(m: Machine, id: string, mem: Memory)
    requires m.program.Has(id) && Denials(LastRecord(Step(m, id, mem)).exchanges)
    ensures Stops(LastRecord(Step(m, id, mem)).exit)
  {
    StepLaw(m, id, mem);
  }
}
