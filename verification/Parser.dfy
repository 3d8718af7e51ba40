/** The procedure document and the parser's semantic checks (src/sopvm/parser/). */
module Parser {
  import opened Basics
  import opened Graphs
  import CapabilityText

  datatype StepNode = StepNode(
    id: string,
    description: Option<string>,
    capabilities: seq<string>,
    onSuccess: Option<string>,
    onFailure: Option<string>,
    terminal: bool,
    condition: Option<string>,
    loop: Option<int>,        // max_iterations
    onLimit: Option<string>)

  datatype SopDocument = SopDocument(version: string, policyRef: string, steps: seq<StepNode>)

  datatype SemanticError =
    | NoOutgoingEdges(stepId: string)
    | UnknownTarget(stepId: string, target: string)
    | UnknownLimitTarget(stepId: string, target: string)
    | Unreachable(stepIds: set<string>)
    | MalformedCapability(stepId: string, raw: string)

  function Ids(doc: SopDocument): set<string> {
    set i | 0 <= i < |doc.steps| :: doc.steps[i].id
  }

  // ----- Edge resolution ------------------------------------------------------------------

  predicate Resolves(target: Option<string>, ids: set<string>) {
    target.Some? ==> target.value in ids
  }

  /** A step whose followed edges all lead to steps. Terminal steps and the limit edge of a step
      without a loop are not looked at. */
  predicate StepResolves(s: StepNode, ids: set<string>) {
    || s.terminal
    || (&& (s.onSuccess.Some? || s.onFailure.Some?)
        && Resolves(s.onSuccess, ids)
        && Resolves(s.onFailure, ids)
        && (s.loop.Some? ==> Resolves(s.onLimit, ids)))
  }

  /** What is wrong with a step: the success edge is blamed before the failure edge, and the limit edge last. */
  predicate BlamesStep(e: SemanticError, s: StepNode, ids: set<string>) {
    match e
    case NoOutgoingEdges(id) => id == s.id && s.onSuccess.None? && s.onFailure.None?
    case UnknownTarget(id, t) =>
      id == s.id && t !in ids && (s.onSuccess == Some(t) || (s.onFailure == Some(t) && Resolves(s.onSuccess, ids)))
    case UnknownLimitTarget(id, t) =>
      && id == s.id && t !in ids && s.loop.Some? && s.onLimit == Some(t)
      && Resolves(s.onSuccess, ids) && Resolves(s.onFailure, ids) && (s.onSuccess.Some? || s.onFailure.Some?)
    case _ => false
  }

  /** Step `i` is the first that does not resolve, and `e` says why. */
  predicate BlamesFirst(doc: SopDocument, i: int, e: SemanticError) {
    && 0 <= i < |doc.steps|
    && (forall j | 0 <= j < i :: StepResolves(doc.steps[j], Ids(doc)))
    && !StepResolves(doc.steps[i], Ids(doc)) && BlamesStep(e, doc.steps[i], Ids(doc))
  }

  predicate AllResolve(doc: SopDocument) {
    forall s | s in doc.steps :: StepResolves(s, Ids(doc))
  }

  /** `_check_edges`: raises for the first step that does not resolve, and for none otherwise. */
  method CheckEdges(doc: SopDocument) returns (e: Option<SemanticError>)
    ensures e.None? <==> AllResolve(doc)
    ensures e.Some? ==> exists i :: BlamesFirst(doc, i, e.value)
  {
    var ids := Ids(doc);
    for i := 0 to |doc.steps|
      invariant forall j | 0 <= j < i :: StepResolves(doc.steps[j], ids)
    {
      var step := doc.steps[i];
      assert step in doc.steps;
      if !step.terminal {
        if step.onSuccess.None? && step.onFailure.None? {
          assert BlamesFirst(doc, i, NoOutgoingEdges(step.id));
          return Some(NoOutgoingEdges(step.id));
        }
        if step.onSuccess.Some? && step.onSuccess.value !in ids {
          assert BlamesFirst(doc, i, UnknownTarget(step.id, step.onSuccess.value));
          return Some(UnknownTarget(step.id, step.onSuccess.value));
        }
        if step.onFailure.Some? && step.onFailure.value !in ids {
          assert BlamesFirst(doc, i, UnknownTarget(step.id, step.onFailure.value));
          return Some(UnknownTarget(step.id, step.onFailure.value));
        }
        if step.loop.Some? && step.onLimit.Some? && step.onLimit.value !in ids {
          assert BlamesFirst(doc, i, UnknownLimitTarget(step.id, step.onLimit.value));
          return Some(UnknownLimitTarget(step.id, step.onLimit.value));
        }
      }
    }
    return None;
  }

  // ----- Reachability ---------------------------------------------------------------------

  function OptionSet(o: Option<string>): set<string> {
    if o.Some? then {o.value} else {}
  }

  /** Every edge a step declares, whether or not the runtime would follow it. */
  function Targets(s: StepNode): set<string> {
    OptionSet(s.onSuccess) + OptionSet(s.onFailure) + OptionSet(s.onLimit)
  }

  ghost predicate DeclaredEdge(steps: seq<StepNode>, a: string, b: string) {
    exists i :: 0 <= i < |steps| && steps[i].id == a && b in Targets(steps[i])
  }

  /** Every edge that a step spells out counts, limit edges of steps without a loop and edges of terminal steps
      included. */
  lemma DeclaredEdgeExactly(steps: seq<StepNode>, a: string, b: string)
    ensures DeclaredEdge(steps, a, b) <==>
            exists s :: s in steps && s.id == a && (s.onSuccess == Some(b) || s.onFailure == Some(b) || s.onLimit == Some(b))
  {
    if s :| s in steps && s.id == a && (s.onSuccess == Some(b) || s.onFailure == Some(b) || s.onLimit == Some(b)) {
      var i :| 0 <= i < |steps| && steps[i] == s;
    }
    if i :| 0 <= i < |steps| && steps[i].id == a && b in Targets(steps[i]) {
      assert steps[i] in steps;
    }
  }

  ghost function DocGraph(doc: SopDocument): Relation {
    (a, b) => DeclaredEdge(doc.steps, a, b)
  }

  /** The ids `_check_reachability` ought to visit. */
  ghost predicate ReachableStep(doc: SopDocument, id: string)
    requires doc.steps != []
  {
    Reach(DocGraph(doc), doc.steps[0].id, id)
  }

  /** The elements of a set in some order; a Python set iterates in an order nobody chooses. */
  method SomeOrder(s: set<string>) returns (order: seq<string>)
    ensures forall x :: x in order <==> x in s
  {
    order := [];
    var left := s;
    while left != {}
      invariant forall x :: x in s <==> x in order || x in left
    {
      var x :| x in left;
      left := left - {x};
      order := order + [x];
    }
  }

  lemma DeclaredEdgeOfMore(steps: seq<StepNode>, s: StepNode, a: string, b: string)
    ensures DeclaredEdge(steps + [s], a, b) <==> DeclaredEdge(steps, a, b) || (s.id == a && b in Targets(s))
  {
    var more := steps + [s];
    if DeclaredEdge(steps, a, b) {
      var i :| 0 <= i < |steps| && steps[i].id == a && b in Targets(steps[i]);
      assert more[i] == steps[i];
    }
    assert more[|steps|] == s;
  }

  /** The table holds exactly the edges that the steps declare. */
  ghost predicate TableOf(edges: map<string, set<string>>, steps: seq<StepNode>) {
    forall a, b :: a in edges && b in edges[a] <==> DeclaredEdge(steps, a, b)
  }

  lemma TableOfMore(edges: map<string, set<string>>, steps: seq<StepNode>, s: StepNode)
    requires s.id in edges && TableOf(edges, steps)
    ensures TableOf(edges[s.id := edges[s.id] + Targets(s)], steps + [s])
  {
    var more := edges[s.id := edges[s.id] + Targets(s)];
    forall a, b
      ensures a in more && b in more[a] <==> DeclaredEdge(steps + [s], a, b)
    {
      DeclaredEdgeOfMore(steps, s, a, b);
    }
  }

  method BuildEdges(doc: SopDocument) returns (edges: map<string, set<string>>)
    ensures TableOf(edges, doc.steps)
  {
    edges := map i | 0 <= i < |doc.steps| :: doc.steps[i].id := {};
    for i := 0 to |doc.steps|
      invariant forall k | 0 <= k < |doc.steps| :: doc.steps[k].id in edges
      invariant TableOf(edges, doc.steps[..i])
    {
      var s := doc.steps[i];
      TableOfMore(edges, doc.steps[..i], s);
      edges := edges[s.id := edges[s.id] + Targets(s)];
      assert doc.steps[..i + 1] == doc.steps[..i] + [s];
    }
    assert doc.steps[..|doc.steps|] == doc.steps;
  }

  /** Everything the worklist can ever hold: the first step and all targets. */
  ghost function Universe(doc: SopDocument): set<string>
    requires doc.steps != []
  {
    {doc.steps[0].id} + set i, t | 0 <= i < |doc.steps| && t in Targets(doc.steps[i]) :: t
  }

  /** The worklist invariant: what is seen or queued is reachable, and what the seen ids lead to is
      seen or queued. */
  ghost predicate Exploring(doc: SopDocument, seen: set<string>, queue: seq<string>)
    requires doc.steps != []
  {
    && seen <= Universe(doc)
    && (forall x | x in queue :: x in Universe(doc))
    && (forall x | x in seen || x in queue :: ReachableStep(doc, x))
    && (doc.steps[0].id in seen || doc.steps[0].id in queue)
    && (forall a, b | a in seen && DeclaredEdge(doc.steps, a, b) :: b in seen || b in queue)
  }

  lemma StartsExploring(doc: SopDocument)
    requires doc.steps != []
    ensures Exploring(doc, {}, [doc.steps[0].id])
  {
    ReachSelf(DocGraph(doc), doc.steps[0].id);
  }

  lemma SkipKeepsExploring(doc: SopDocument, seen: set<string>, queue: seq<string>)
    requires doc.steps != [] && queue != [] && Exploring(doc, seen, queue)
    requires queue[|queue| - 1] in seen
    ensures Exploring(doc, seen, queue[..|queue| - 1])
  {
    assert queue == queue[..|queue| - 1] + [queue[|queue| - 1]];
  }

  lemma VisitKeepsExploring(doc: SopDocument, seen: set<string>, queue: seq<string>, added: seq<string>)
    requires doc.steps != [] && queue != [] && Exploring(doc, seen, queue)
    requires var current := queue[|queue| - 1];
             forall x :: x in added <==> DeclaredEdge(doc.steps, current, x) && x !in seen + {current}
    ensures Exploring(doc, seen + {queue[|queue| - 1]}, queue[..|queue| - 1] + added)
  {
    var current := queue[|queue| - 1];
    assert queue == queue[..|queue| - 1] + [current];
    forall x | x in added
      ensures x in Universe(doc) && ReachableStep(doc, x)
    {
      ReachStep(DocGraph(doc), doc.steps[0].id, current, x);
    }
  }

  lemma ExploredIsReachable(doc: SopDocument, seen: set<string>)
    requires doc.steps != [] && Exploring(doc, seen, [])
    ensures forall id :: id in seen <==> ReachableStep(doc, id)
  {
    forall id | ReachableStep(doc, id)
      ensures id in seen
    {
      var w :| Joins(DocGraph(doc), w, doc.steps[0].id, id);
      ClosedSetHoldsWalk(DocGraph(doc), seen, w);
    }
  }

  lemma VisitShrinksRemainder(universe: set<string>, seen: set<string>, current: string)
    requires current in universe && current !in seen
    ensures |universe - (seen + {current})| < |universe - seen|
  {
    assert universe - (seen + {current}) == universe - seen - {current};
  }

  ghost predicate AllReached(doc: SopDocument) {
    doc.steps != [] ==> forall s | s in doc.steps :: ReachableStep(doc, s.id)
  }

  lemma ReachedExactly(doc: SopDocument, visited: set<string>)
    requires doc.steps != [] ==> forall id :: id in visited <==> ReachableStep(doc, id)
    ensures Ids(doc) <= visited <==> AllReached(doc)
  {
    if AllReached(doc) {
      forall id | id in Ids(doc)
        ensures id in visited
      {
        var i :| 0 <= i < |doc.steps| && doc.steps[i].id == id;
        assert doc.steps[i] in doc.steps;
      }
    } else {
      var s :| s in doc.steps && !ReachableStep(doc, s.id);
      assert s.id in Ids(doc);
    }
  }

  /** `_check_reachability`. The worklist stops on every document, and whatever the order in which
      successors are queued its visited set is exactly what is reachable from the first step; it
      raises exactly when some step is not. */
  method CheckReachability(doc: SopDocument) returns (e: Option<SemanticError>, ghost visited: set<string>)
    ensures doc.steps == [] ==> visited == {}
    ensures doc.steps != [] ==> forall id :: id in visited <==> ReachableStep(doc, id)
    ensures e.None? <==> AllReached(doc)
    ensures e.Some? ==> e == Some(Unreachable(Ids(doc) - visited))
  {
    if doc.steps == [] {
      return None, {};
    }
    var edges := BuildEdges(doc);
    var entry := doc.steps[0].id;
    var seen: set<string> := {};
    var queue := [entry];
    StartsExploring(doc);
    while queue != []
      invariant Exploring(doc, seen, queue)
      decreases |Universe(doc) - seen|, |queue|
    {
      ghost var seenBefore, queueBefore := seen, queue;
      var current := queue[|queue| - 1];
      queue := queue[..|queue| - 1];
      if current in seen {
        SkipKeepsExploring(doc, seenBefore, queueBefore);
        continue;
      }
      VisitShrinksRemainder(Universe(doc), seen, current);
      seen := seen + {current};
      var successors := if current in edges then edges[current] else {};
      var added := SomeOrder(successors - seen);
      VisitKeepsExploring(doc, seenBefore, queueBefore, added);
      queue := queue + added;
    }
    ExploredIsReachable(doc, seen);
    visited := seen;
    ReachedExactly(doc, visited);
    var unreachable := Ids(doc) - seen;
    if unreachable != {} {
      return Some(Unreachable(unreachable)), visited;
    }
    return None, visited;
  }

  // ----- Capability grammar ---------------------------------------------------------------

  predicate WellFormedCap(c: string) {
    CapabilityText.Surface(c).Some?
  }

  predicate WellFormedCaps(caps: seq<string>) {
    forall c | c in caps :: WellFormedCap(c)
  }

  /** The first malformed capability of the document is entry `k` of step `i`. */
  predicate FirstMalformedAt(doc: SopDocument, i: int, k: int) {
    && 0 <= i < |doc.steps| && 0 <= k < |doc.steps[i].capabilities|
    && (forall j | 0 <= j < i :: WellFormedCaps(doc.steps[j].capabilities))
    && WellFormedCaps(doc.steps[i].capabilities[..k])
    && !WellFormedCap(doc.steps[i].capabilities[k])
  }

  predicate NamesFirstMalformed(doc: SopDocument, i: int, k: int, e: SemanticError) {
    FirstMalformedAt(doc, i, k) && e == MalformedCapability(doc.steps[i].id, doc.steps[i].capabilities[k])
  }

  predicate AllWellFormed(doc: SopDocument) {
    forall s | s in doc.steps :: WellFormedCaps(s.capabilities)
  }

  /** `_check_capability_grammar`: only the surface form of each declared capability is examined, and the
      first malformed one is reported. */
  method CheckCapabilityGrammar(doc: SopDocument) returns (e: Option<SemanticError>)
    ensures e.None? <==> AllWellFormed(doc)
    ensures e.Some? ==> exists i, k :: NamesFirstMalformed(doc, i, k, e.value)
  {
    for i := 0 to |doc.steps|
      invariant forall j | 0 <= j < i :: WellFormedCaps(doc.steps[j].capabilities)
    {
      var step := doc.steps[i];
      assert step in doc.steps;
      for k := 0 to |step.capabilities|
        invariant WellFormedCaps(step.capabilities[..k])
      {
        var c := step.capabilities[k];
        assert c in step.capabilities;
        if !WellFormedCap(c) {
          assert NamesFirstMalformed(doc, i, k, MalformedCapability(step.id, c));
          return Some(MalformedCapability(step.id, c));
        }
        assert step.capabilities[..k + 1] == step.capabilities[..k] + [c];
      }
      assert step.capabilities[..|step.capabilities|] == step.capabilities;
    }
    return None;
  }

  // ----- The checks together ----------------------------------------------------------------

  ghost predicate PassesChecks(doc: SopDocument) {
    AllResolve(doc) && AllReached(doc) && AllWellFormed(doc)
  }

  /** The first of the checks that the document fails says what is wrong. */
  ghost predicate FailsWith(doc: SopDocument, e: SemanticError) {
    if !AllResolve(doc) then exists i :: BlamesFirst(doc, i, e)
    else if !AllReached(doc) then
      doc.steps != [] && e.Unreachable? && forall id :: id in e.stepIds <==> id in Ids(doc) && !ReachableStep(doc, id)
    else exists i, k :: NamesFirstMalformed(doc, i, k, e)
  }

  /** The semantic checks of `parse`, in their order: a document passes exactly when it meets all three, and
      otherwise the first check that it fails says what is wrong. */
  method SemanticChecks(doc: SopDocument) returns (e: Option<SemanticError>)
    ensures e.None? <==> PassesChecks(doc)
    ensures e.Some? ==> FailsWith(doc, e.value)
  {
    e := CheckEdges(doc);
    if e.Some? {
      return e;
    }
    ghost var visited: set<string>;
    e, visited := CheckReachability(doc);
    if e.Some? {
      return e;
    }
    e := CheckCapabilityGrammar(doc);
  }

  /** What the edge and reachability checks establish for a non-empty document that `parse` returns. */
  ghost predicate Accepted(doc: SopDocument) {
    doc.steps != [] && AllResolve(doc) && AllReached(doc)
  }
}
