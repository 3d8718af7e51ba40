/** Lowering a document to the IR and narrowing the IR by a policy (src/sopvm/compiler/). */
module Compiler {
  import opened Basics
  import opened Capabilities
  import opened Ir
  import opened Parser

  // ----- Lowering -------------------------------------------------------------------------

  datatype LoweringError = EmptyDocument | DuplicateStepId(id: string)

  function LowerEdges(s: StepNode): map<string, string> {
    (if s.onSuccess.Some? then map[ON_SUCCESS := s.onSuccess.value] else map[]) +
    (if s.onFailure.Some? then map[ON_FAILURE := s.onFailure.value] else map[])
  }

  function LowerStep(s: StepNode): IrNode {
    IrNode(s.capabilities, s.capabilities, LowerEdges(s), s.terminal, s.condition, s.loop, s.onLimit)
  }

  function StepIds(steps: seq<StepNode>): (ids: seq<string>)
    ensures |ids| == |steps| && forall i | 0 <= i < |ids| :: ids[i] == steps[i].id
  {
    seq(|steps|, i requires 0 <= i < |steps| => steps[i].id)
  }

  /** The nodes are the steps, in document order, each lowered. */
  ghost predicate NodesOf(nodes: RawDict<string, IrNode>, steps: seq<StepNode>) {
    && nodes.keys == StepIds(steps)
    && forall s | s in steps :: s.id in nodes.values && nodes.values[s.id] == LowerStep(s)
  }

  ghost predicate LowersTo(doc: SopDocument, p: CompiledProgram) {
    && doc.steps != []
    && p.irVersion == IR_VERSION && p.entry == doc.steps[0].id && p.policyRef == ""
    && NodesOf(p.nodes, doc.steps)
  }

  /** The document cannot be lowered, and `e` says why: it names the first id that occurs again. */
  ghost predicate Rejected(doc: SopDocument, e: LoweringError) {
    match e
    case EmptyDocument => doc.steps == []
    case DuplicateStepId(id) =>
      && !NoDuplicates(StepIds(doc.steps))
      && exists i :: && 0 <= i < |doc.steps| && doc.steps[i].id == id
                     && id in StepIds(doc.steps[..i]) && NoDuplicates(StepIds(doc.steps[..i]))
  }

  /** Lowering succeeds exactly on non-empty documents with distinct step ids. */
  method Lower(doc: SopDocument) returns (r: Result<CompiledProgram, LoweringError>)
    ensures match r
            case Ok(p) => NoDuplicates(StepIds(doc.steps)) && LowersTo(doc, p)
            case Err(e) => Rejected(doc, e)
  {
    if doc.steps == [] {
      return Err(EmptyDocument);
    }
    var nodes: Dict<string, IrNode> := Dict([], map[]);
    for i := 0 to |doc.steps|
      invariant NodesOf(nodes, doc.steps[..i])
    {
      var step := doc.steps[i];
      if step.id in nodes.values {
        RepeatedId(nodes, doc, i);
        return Err(DuplicateStepId(step.id));
      }
      LoweringOneMore(nodes, doc.steps, i);
      nodes := nodes.Put(step.id, LowerStep(step));
    }
    LoweringDone(nodes, doc);
    return Ok(CompiledProgram(IR_VERSION, doc.steps[0].id, nodes, ""));
  }

  /** What lowering makes of a document, field by field: version 0.1, the first step as the entry, one node per
      step in document order, with both edges under their names, everything declared granted for the time
      being, and the rest as it stands in the step. */
  lemma LoweredExactly(doc: SopDocument, p: CompiledProgram, i: nat)
    requires LowersTo(doc, p) && i < |doc.steps|
    ensures p.irVersion == "0.1" && p.entry == doc.steps[0].id && p.policyRef == "" && |p.nodes.keys| == |doc.steps|
    ensures var s := doc.steps[i];
            && p.nodes.keys[i] == s.id && p.Has(s.id)
            && var n := p.Node(s.id);
            && n.declared == s.capabilities && n.paged == s.capabilities
            && n.terminal == s.terminal && n.condition == s.condition && n.loop == s.loop && n.onLimit == s.onLimit
            && ("on_success" in n.edges <==> s.onSuccess.Some?) && ("on_failure" in n.edges <==> s.onFailure.Some?)
            && (s.onSuccess.Some? ==> n.edges["on_success"] == s.onSuccess.value)
            && (s.onFailure.Some? ==> n.edges["on_failure"] == s.onFailure.value)
            && (forall key | key in n.edges :: key == "on_success" || key == "on_failure")
  {
    assert doc.steps[i] in doc.steps;
  }

  lemma RepeatedId(nodes: Dict<string, IrNode>, doc: SopDocument, i: nat)
    requires i < |doc.steps| && NodesOf(nodes, doc.steps[..i]) && doc.steps[i].id in nodes.values
    ensures Rejected(doc, DuplicateStepId(doc.steps[i].id))
  {
    var ids := StepIds(doc.steps[..i]);
    assert doc.steps[i].id in nodes.keys;
    var k :| 0 <= k < i && ids[k] == doc.steps[i].id;
    assert StepIds(doc.steps)[k] == StepIds(doc.steps)[i];
  }

  lemma LoweringDone(nodes: Dict<string, IrNode>, doc: SopDocument)
    requires doc.steps != [] && NodesOf(nodes, doc.steps[..|doc.steps|])
    ensures NoDuplicates(StepIds(doc.steps))
    ensures LowersTo(doc, CompiledProgram(IR_VERSION, doc.steps[0].id, nodes, ""))
  {
    assert doc.steps[..|doc.steps|] == doc.steps;
  }

  lemma LoweringOneMore(nodes: Dict<string, IrNode>, steps: seq<StepNode>, i: nat)
    requires i < |steps| && NodesOf(nodes, steps[..i]) && steps[i].id !in nodes.values
    ensures NodesOf(nodes.Put(steps[i].id, LowerStep(steps[i])), steps[..i + 1])
  {
    assert steps[..i + 1] == steps[..i] + [steps[i]];
    assert StepIds(steps[..i + 1]) == StepIds(steps[..i]) + [steps[i].id];
  }

  // ----- Paging ---------------------------------------------------------------------------

  predicate Allows(syn: Syntax, cap: string, policy: seq<Token>) {
    syn.parse(cap).Ok? && Allowed(syn, syn.parse(cap).value, policy)
  }

  /** The declared capabilities that the policy allows, in declaration order. */
  function PagedCaps(syn: Syntax, declared: seq<string>, policy: seq<Token>): (paged: seq<string>)
    ensures forall c :: c in paged <==> c in declared && Allows(syn, c, policy)
  {
    if declared == [] then []
    else
      var last := |declared| - 1;
      var before := PagedCaps(syn, declared[..last], policy);
      if Allows(syn, declared[last], policy) then before + [declared[last]] else before
  }

  function PageNode(syn: Syntax, n: IrNode, policy: seq<Token>): IrNode {
    n.(paged := PagedCaps(syn, n.declared, policy))
  }

  /** The paged program; it forgets the policy path, which the pipeline stores again. */
  function Page(syn: Syntax, p: CompiledProgram, policy: seq<Token>): CompiledProgram {
    CompiledProgram(
      p.irVersion,
      p.entry,
      Dict(p.nodes.keys, map k | k in p.nodes.values :: PageNode(syn, p.nodes.values[k], policy)),
      "")
  }

  predicate WellDeclared(syn: Syntax, p: CompiledProgram) {
    forall id | id in p.nodes.values :: AllParse(syn, p.nodes.values[id].declared)
  }

  /** The inner loop of `apply_paging`: the paged list of one node. */
  method PageDeclared(syn: Syntax, declared: seq<string>, policy: seq<Token>) returns (r: Result<seq<string>, GrammarError>)
    ensures match FirstMalformed(syn, declared)
            case Some(e) => r == Err(e)
            case None => r == Ok(PagedCaps(syn, declared, policy))
  {
    var paged: seq<string> := [];
    for j := 0 to |declared|
      invariant paged == PagedCaps(syn, declared[..j], policy)
      invariant FirstMalformed(syn, declared) == FirstMalformed(syn, declared[j..])
    {
      var cap := declared[j];
      assert declared[..j + 1][..j] == declared[..j] && declared[j..][1..] == declared[j + 1..];
      var token := syn.parse(cap);
      if token.Err? {
        return Err(token.error);
      }
      if Allowed(syn, token.value, policy) {
        paged := paged + [cap];
      }
    }
    assert declared[..|declared|] == declared;
    return Ok(paged);
  }

  /** The first `n` nodes are paged and stored in order. */
  ghost predicate PagedSoFar(
      syn: Syntax, nodes: Dict<string, IrNode>, newNodes: RawDict<string, IrNode>, n: nat, policy: seq<Token>)
    requires n <= |nodes.keys|
  {
    && newNodes.keys == nodes.keys[..n]
    && (forall k | 0 <= k < n ::
          && nodes.keys[k] in newNodes.values
          && newNodes.values[nodes.keys[k]] == PageNode(syn, nodes.values[nodes.keys[k]], policy)
          && AllParse(syn, nodes.values[nodes.keys[k]].declared))
  }

  lemma PagingOneMore(syn: Syntax, nodes: Dict<string, IrNode>, newNodes: Dict<string, IrNode>, n: nat, policy: seq<Token>)
    requires n < |nodes.keys| && PagedSoFar(syn, nodes, newNodes, n, policy)
    requires AllParse(syn, nodes.values[nodes.keys[n]].declared)
    ensures var id := nodes.keys[n];
            PagedSoFar(syn, nodes, newNodes.Put(id, PageNode(syn, nodes.values[id], policy)), n + 1, policy)
  {
    var id := nodes.keys[n];
    assert id !in newNodes.keys;
    assert nodes.keys[..n + 1] == nodes.keys[..n] + [id];
  }

  lemma PagingDone(syn: Syntax, p: CompiledProgram, newNodes: Dict<string, IrNode>, policy: seq<Token>)
    requires PagedSoFar(syn, p.nodes, newNodes, |p.nodes.keys|, policy)
    ensures CompiledProgram(p.irVersion, p.entry, newNodes, "") == Page(syn, p, policy)
    ensures WellDeclared(syn, p)
  {
    assert p.nodes.keys[..|p.nodes.keys|] == p.nodes.keys;
    forall id | p.Has(id)
      ensures id in newNodes.values && newNodes.values[id] == Page(syn, p, policy).nodes.values[id]
      ensures AllParse(syn, p.Node(id).declared)
    {
      assert id in p.nodes.keys;
      var k :| 0 <= k < |p.nodes.keys| && p.nodes.keys[k] == id;
    }
    assert newNodes.values.Keys == p.nodes.values.Keys;
  }

  /** The outer loop's body: pages one more node. */
  method PageNext(syn: Syntax, nodes: Dict<string, IrNode>, newNodes: Dict<string, IrNode>, n: nat, policy: seq<Token>)
    returns (r: Result<Dict<string, IrNode>, GrammarError>)
    requires n < |nodes.keys| && nodes.keys[n] in nodes.values && PagedSoFar(syn, nodes, newNodes, n, policy)
    ensures match r
            case Ok(d) => PagedSoFar(syn, nodes, d, n + 1, policy)
            case Err(e) => FirstMalformed(syn, nodes.values[nodes.keys[n]].declared) == Some(e)
  {
    var id := nodes.keys[n];
    var node := nodes.values[id];
    var paged := PageDeclared(syn, node.declared, policy);
    if paged.Err? {
      return Err(paged.error);
    }
    PagingOneMore(syn, nodes, newNodes, n, policy);
    return Ok(newNodes.Put(id, node.(paged := paged.value)));
  }

  /** Paging meets the first malformed declaration in node `n`, and raises its error. */
  predicate RaisesAt(syn: Syntax, nodes: Dict<string, IrNode>, n: int, e: GrammarError)
    requires forall id | id in nodes.keys :: id in nodes.values
  {
    && 0 <= n < |nodes.keys|
    && (forall k | 0 <= k < n :: AllParse(syn, nodes.values[nodes.keys[k]].declared))
    && FirstMalformed(syn, nodes.values[nodes.keys[n]].declared) == Some(e)
  }

  /** `apply_paging`: raises the error of the first malformed declaration, else narrows every node and
      nothing else. */
  method ApplyPaging(syn: Syntax, p: CompiledProgram, policy: seq<Token>) returns (r: Result<CompiledProgram, GrammarError>)
    ensures match r
            case Ok(q) => WellDeclared(syn, p) && q == Page(syn, p, policy)
            case Err(e) => !WellDeclared(syn, p) && exists n :: RaisesAt(syn, p.nodes, n, e)
  {
    var newNodes: Dict<string, IrNode> := Dict([], map[]);
    for i := 0 to |p.nodes.keys|
      invariant PagedSoFar(syn, p.nodes, newNodes, i, policy)
    {
      assert p.nodes.keys[i] in p.nodes.keys;
      var next := PageNext(syn, p.nodes, newNodes, i, policy);
      if next.Err? {
        assert RaisesAt(syn, p.nodes, i, next.error);
        return Err(next.error);
      }
      newNodes := next.value;
    }
    PagingDone(syn, p, newNodes, policy);
    return Ok(CompiledProgram(p.irVersion, p.entry, newNodes, ""));
  }

  /** What paging makes of a program, field by field: nothing changes but the paged lists, and the policy path,
      which is forgotten. */
  lemma PagedExactly(syn: Syntax, p: CompiledProgram, policy: seq<Token>, id: string)
    ensures var q := Page(syn, p, policy);
            && q.irVersion == p.irVersion && q.entry == p.entry && q.nodes.keys == p.nodes.keys && q.policyRef == ""
            && (q.Has(id) <==> p.Has(id))
            && (p.Has(id) ==>
                  var n, was := q.Node(id), p.Node(id);
                  && n.declared == was.declared && n.edges == was.edges && n.terminal == was.terminal
                  && n.condition == was.condition && n.loop == was.loop && n.onLimit == was.onLimit
                  && forall c :: c in n.paged <==>
                                 c in was.declared && syn.parse(c).Ok? && Allowed(syn, syn.parse(c).value, policy))
  {
    if p.Has(id) {
      var paged := PagedCaps(syn, p.Node(id).declared, policy);
      assert Page(syn, p, policy).Node(id).paged == paged;
    }
  }

  /** A wider policy only adds paged entries: filtering its list by the narrow policy gives the
      narrow list back, so that one is a subsequence of it. */
  lemma {:induction false} NarrowPageWithinWide(syn: Syntax, declared: seq<string>, narrow: seq<Token>, wide: seq<Token>)
    requires AllowsMore(syn, narrow, wide)
    ensures PagedCaps(syn, PagedCaps(syn, declared, wide), narrow) == PagedCaps(syn, declared, narrow)
  {
    if declared != [] {
      var last := |declared| - 1;
      NarrowPageWithinWide(syn, declared[..last], narrow, wide);
      var before := PagedCaps(syn, declared[..last], wide);
      assert (before + [declared[last]])[..|before|] == before;
    }
  }

  // ----- Programs of a document -----------------------------------------------------------

  /** `p` has the shape of the document: it may differ from the lowered program in paged entries only. */
  ghost predicate ShapedBy(doc: SopDocument, p: CompiledProgram) {
    && doc.steps != []
    && p.irVersion == IR_VERSION && p.entry == doc.steps[0].id
    && p.nodes.keys == StepIds(doc.steps)
    && forall s | s in doc.steps :: p.Has(s.id) && SameButPaged(p.Node(s.id), LowerStep(s))
  }

  lemma PagingKeepsShape(syn: Syntax, doc: SopDocument, p: CompiledProgram, policy: seq<Token>)
    requires ShapedBy(doc, p)
    ensures ShapedBy(doc, Page(syn, p, policy))
  {}

  lemma LoweringGivesShape(doc: SopDocument, p: CompiledProgram)
    requires LowersTo(doc, p)
    ensures ShapedBy(doc, p)
  {}

  /** Every node of such a program comes from a step of the document. */
  lemma NodeHasStep(doc: SopDocument, p: CompiledProgram, id: string) returns (s: StepNode)
    requires ShapedBy(doc, p) && p.Has(id)
    ensures s in doc.steps && s.id == id && SameButPaged(p.Node(id), LowerStep(s))
  {
    assert id in p.nodes.keys;
    var i :| 0 <= i < |doc.steps| && StepIds(doc.steps)[i] == id;
    s := doc.steps[i];
  }
}
