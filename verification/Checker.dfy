/** The static checker (`check` in src/sopvm/checker/check.py) and its agreement with the pager. */
module Checker {
  import opened Basics
  import opened Capabilities
  import opened Ir
  import opened Compiler
  import opened Gate

  datatype Reason = MalformedText | ExceedsCeiling(ceiling: string) | NotMentioned

  datatype CheckViolation = CheckViolation(stepId: string, requested: string, reason: Reason)

  datatype CheckResult = CheckResult(passed: bool, violations: seq<CheckViolation>)

  function Matching(token: Token, policy: seq<Token>): seq<Token> {
    if policy == [] then []
    else if policy[0].namespace == token.namespace && policy[0].action == token.action then
      [policy[0]] + Matching(token, policy[1..])
    else
      Matching(token, policy[1..])
  }

  /** What the checker says of one declared capability. */
  function Verdict(syn: Syntax, id: string, cap: string, policy: seq<Token>): Option<CheckViolation> {
    match syn.parse(cap)
    case Err(_) => Some(CheckViolation(id, cap, MalformedText))
    case Ok(token) =>
      if Allowed(syn, token, policy) then None
      else
        var m := Matching(token, policy);
        Some(CheckViolation(id, cap, if m != [] then ExceedsCeiling(m[0].raw) else NotMentioned))
  }

  function StepViolations(syn: Syntax, id: string, declared: seq<string>, policy: seq<Token>): seq<CheckViolation> {
    if declared == [] then []
    else
      var last := |declared| - 1;
      var before := StepViolations(syn, id, declared[..last], policy);
      var v := Verdict(syn, id, declared[last], policy);
      if v.Some? then before + [v.value] else before
  }

  /** The nodes in dictionary order, each with its declared capabilities. */
  function Declarations(p: CompiledProgram): (ds: seq<(string, seq<string>)>)
    ensures |ds| == |p.nodes.keys|
  {
    seq(|p.nodes.keys|, i requires 0 <= i < |p.nodes.keys| =>
      (p.nodes.keys[i], p.nodes.values[p.nodes.keys[i]].declared))
  }

  function Violations(syn: Syntax, declarations: seq<(string, seq<string>)>, policy: seq<Token>): seq<CheckViolation> {
    if declarations == [] then []
    else
      var last := |declarations| - 1;
      Violations(syn, declarations[..last], policy)
      + StepViolations(syn, declarations[last].0, declarations[last].1, policy)
  }

  /** The inner loop of `check`: the violations of one step. */
  method CheckStep(syn: Syntax, id: string, declared: seq<string>, policy: seq<Token>)
    returns (violations: seq<CheckViolation>)
    ensures violations == StepViolations(syn, id, declared, policy)
  {
    violations := [];
    for j := 0 to |declared|
      invariant violations == StepViolations(syn, id, declared[..j], policy)
    {
      var cap := declared[j];
      assert declared[..j + 1][..j] == declared[..j];
      var token := syn.parse(cap);
      if token.Err? {
        violations := violations + [CheckViolation(id, cap, MalformedText)];
        continue;
      }
      if !Allowed(syn, token.value, policy) {
        var matching := Matching(token.value, policy);
        var reason := if matching != [] then ExceedsCeiling(matching[0].raw) else NotMentioned;
        violations := violations + [CheckViolation(id, cap, reason)];
      }
    }
    assert declared[..|declared|] == declared;
  }

  // ----- Agreement of checker and pager ---------------------------------------------------

  function Requested(vs: seq<CheckViolation>): (caps: seq<string>)
    ensures |caps| == |vs| && forall i | 0 <= i < |vs| :: caps[i] == vs[i].requested
  {
    seq(|vs|, i requires 0 <= i < |vs| => vs[i].requested)
  }

  /** `merged` interleaves `a` and `b`, keeping the order of each. */
  ghost predicate Interleaves(merged: seq<string>, a: seq<string>, b: seq<string>) {
    if merged == [] then a == [] && b == []
    else
      var before, last := merged[..|merged| - 1], merged[|merged| - 1];
      || (a != [] && a[|a| - 1] == last && Interleaves(before, a[..|a| - 1], b))
      || (b != [] && b[|b| - 1] == last && Interleaves(before, a, b[..|b| - 1]))
  }

  /** The declared capabilities of a step are dealt out, in order, to the pager's list and to the
      checker's violations: what one omits the other reports. */
  lemma {:induction false} PagedAndReportedInterleave(syn: Syntax, id: string, declared: seq<string>, policy: seq<Token>)
    ensures Interleaves(declared, PagedCaps(syn, declared, policy), Requested(StepViolations(syn, id, declared, policy)))
  {
    if declared != [] {
      var n := |declared| - 1;
      PagedAndReportedInterleave(syn, id, declared[..n], policy);
      var a, vs := PagedCaps(syn, declared[..n], policy), StepViolations(syn, id, declared[..n], policy);
      assert (a + [declared[n]])[..|a|] == a;
      var v := Verdict(syn, id, declared[n], policy);
      if v.Some? {
        assert Requested(vs + [v.value])[..|vs|] == Requested(vs);
      }
    }
  }

  lemma {:induction false} MatchingFirst(token: Token, policy: seq<Token>)
    ensures Matching(token, policy) == [] <==>
            forall i | 0 <= i < |policy| :: policy[i].namespace != token.namespace || policy[i].action != token.action
    ensures Matching(token, policy) != [] ==> exists i :: FirstMention(token, policy, i, Matching(token, policy)[0])
  {
    if policy != [] {
      MatchingFirst(token, policy[1..]);
      assert forall i | 1 <= i < |policy| :: policy[i] == policy[1..][i - 1];
      if policy[0].namespace == token.namespace && policy[0].action == token.action {
        assert Matching(token, policy)[0] == policy[0];
        assert FirstMention(token, policy, 0, Matching(token, policy)[0]);
      } else if Matching(token, policy[1..]) != [] {
        var i :| FirstMention(token, policy[1..], i, Matching(token, policy[1..])[0]);
        assert FirstMention(token, policy, i + 1, Matching(token, policy)[0]);
      }
    }
  }

  /** Entry `i` is the first that speaks of the token's namespace and action. */
  predicate FirstMention(token: Token, policy: seq<Token>, i: int, entry: Token) {
    && 0 <= i < |policy| && policy[i] == entry
    && entry.namespace == token.namespace && entry.action == token.action
    && forall j | 0 <= j < i :: policy[j].namespace != token.namespace || policy[j].action != token.action
  }

  /** The reason given for a violation is the right one. */
  ghost predicate Explains(syn: Syntax, policy: seq<Token>, v: CheckViolation) {
    match v.reason
    case MalformedText => syn.parse(v.requested).Err?
    case ExceedsCeiling(raw) =>
      && syn.parse(v.requested).Ok? && !Allowed(syn, syn.parse(v.requested).value, policy)
      && exists i, entry :: FirstMention(syn.parse(v.requested).value, policy, i, entry) && entry.raw == raw
    case NotMentioned =>
      && syn.parse(v.requested).Ok?
      && var t := syn.parse(v.requested).value;
      forall i | 0 <= i < |policy| :: policy[i].namespace != t.namespace || policy[i].action != t.action
  }

  lemma {:induction false} ViolationsAreExplained(syn: Syntax, id: string, declared: seq<string>, policy: seq<Token>)
    ensures forall v | v in StepViolations(syn, id, declared, policy) ::
              v.stepId == id && v.requested in declared && Explains(syn, policy, v)
  {
    if declared != [] {
      var n := |declared| - 1;
      ViolationsAreExplained(syn, id, declared[..n], policy);
      if syn.parse(declared[n]).Ok? {
        MatchingFirst(syn.parse(declared[n]).value, policy);
      }
    }
  }

  lemma {:induction false} InterleaveLengths(merged: seq<string>, a: seq<string>, b: seq<string>)
    requires Interleaves(merged, a, b)
    ensures |merged| == |a| + |b|
    ensures b == [] ==> merged == a
    decreases |merged|
  {
    if merged != [] {
      var before, last := merged[..|merged| - 1], merged[|merged| - 1];
      if a != [] && a[|a| - 1] == last && Interleaves(before, a[..|a| - 1], b) {
        InterleaveLengths(before, a[..|a| - 1], b);
      } else {
        InterleaveLengths(before, a, b[..|b| - 1]);
      }
    }
  }

  lemma StepPassesExactly(syn: Syntax, id: string, declared: seq<string>, policy: seq<Token>)
    ensures StepViolations(syn, id, declared, policy) == [] <==> PagedCaps(syn, declared, policy) == declared
  {
    PagedAndReportedInterleave(syn, id, declared, policy);
    InterleaveLengths(declared, PagedCaps(syn, declared, policy), Requested(StepViolations(syn, id, declared, policy)));
  }

  lemma {:induction false} NoViolationsExactly(syn: Syntax, declarations: seq<(string, seq<string>)>, policy: seq<Token>)
    ensures Violations(syn, declarations, policy) == [] <==>
            forall i | 0 <= i < |declarations| :: PagedCaps(syn, declarations[i].1, policy) == declarations[i].1
  {
    if declarations != [] {
      var n := |declarations| - 1;
      StepPassesExactly(syn, declarations[n].0, declarations[n].1, policy);
      NoViolationsExactly(syn, declarations[..n], policy);
      assert forall i | 0 <= i < n :: declarations[..n][i] == declarations[i];
    }
  }

  /** `check` passes exactly when paging withholds nothing from any step. */
  lemma CheckPassesExactly(syn: Syntax, p: CompiledProgram, policy: seq<Token>)
    ensures Violations(syn, Declarations(p), policy) == [] <==>
            forall id | p.Has(id) :: Page(syn, p, policy).Node(id).paged == p.Node(id).declared
  {
    NoViolationsExactly(syn, Declarations(p), policy);
    forall id | p.Has(id)
      ensures exists i :: 0 <= i < |Declarations(p)| && Declarations(p)[i] == (id, p.Node(id).declared)
    {
      assert id in p.nodes.keys;
      var i :| 0 <= i < |p.nodes.keys| && p.nodes.keys[i] == id;
      assert Declarations(p)[i] == (id, p.Node(id).declared);
    }
    forall i | 0 <= i < |Declarations(p)|
      ensures p.Has(Declarations(p)[i].0) && Declarations(p)[i].1 == p.Node(Declarations(p)[i].0).declared
    {
      assert p.nodes.keys[i] in p.nodes.keys;
    }
  }

  // ----- The whole report -------------------------------------------------------------------

  /** The reports about one step, in their order. */
  function About(vs: seq<CheckViolation>, id: string): seq<CheckViolation> {
    if vs == [] then []
    else
      var last := vs[|vs| - 1];
      About(vs[..|vs| - 1], id) + if last.stepId == id then [last] else []
  }

  /** The capabilities that the policy does not allow, malformed ones included, in declaration order. */
  function Withheld(syn: Syntax, declared: seq<string>, policy: seq<Token>): seq<string> {
    if declared == [] then []
    else
      var last := declared[|declared| - 1];
      Withheld(syn, declared[..|declared| - 1], policy) +
      if syn.parse(last).Ok? && Allowed(syn, syn.parse(last).value, policy) then [] else [last]
  }

  lemma {:induction false} ReportedIsWithheld(syn: Syntax, id: string, declared: seq<string>, policy: seq<Token>)
    ensures Requested(StepViolations(syn, id, declared, policy)) == Withheld(syn, declared, policy)
  {
    if declared != [] {
      ReportedIsWithheld(syn, id, declared[..|declared| - 1], policy);
    }
  }

  lemma {:induction false} AboutConcat(a: seq<CheckViolation>, b: seq<CheckViolation>, id: string)
    ensures About(a + b, id) == About(a, id) + About(b, id)
    decreases |b|
  {
    if b == [] {
      assert a + b == a;
    } else {
      assert (a + b)[..|a + b| - 1] == a + b[..|b| - 1];
      AboutConcat(a, b[..|b| - 1], id);
    }
  }

  lemma {:induction false} AboutOneStep(vs: seq<CheckViolation>, step: string, id: string)
    requires forall v | v in vs :: v.stepId == step
    ensures About(vs, id) == if id == step then vs else []
  {
    if vs != [] {
      var n := |vs| - 1;
      assert vs[n] in vs;
      AboutOneStep(vs[..n], step, id);
      assert vs == vs[..n] + [vs[n]];
    }
  }

  /** What the report says of the `k`-th step, and of no other id than the steps'. */
  ghost predicate ReportsStep(
      syn: Syntax, ds: seq<(string, seq<string>)>, policy: seq<Token>, vs: seq<CheckViolation>, k: nat)
    requires k < |ds|
  {
    && Requested(About(vs, ds[k].0)) == Withheld(syn, ds[k].1, policy)
    && forall v | v in About(vs, ds[k].0) :: Explains(syn, policy, v)
  }

  /** Both ids are steps, and the second does not come before the first. */
  predicate ComeInOrder(ds: seq<(string, seq<string>)>, first: string, second: string) {
    exists a, b :: 0 <= a <= b < |ds| && ds[a].0 == first && ds[b].0 == second
  }

  /** The reports come in the order of the steps, and are about steps only. */
  ghost predicate InStepOrder(ds: seq<(string, seq<string>)>, vs: seq<CheckViolation>) {
    forall i, j | 0 <= i <= j < |vs| :: ComeInOrder(ds, vs[i].stepId, vs[j].stepId)
  }

  ghost predicate DistinctSteps(ds: seq<(string, seq<string>)>) {
    forall i, j :: 0 <= i < j < |ds| ==> ds[i].0 != ds[j].0
  }

  ghost predicate Reports(syn: Syntax, ds: seq<(string, seq<string>)>, policy: seq<Token>, vs: seq<CheckViolation>) {
    (forall k | 0 <= k < |ds| :: ReportsStep(syn, ds, policy, vs, k)) && InStepOrder(ds, vs)
  }

  lemma StepsReports(syn: Syntax, id: string, declared: seq<string>, policy: seq<Token>, other: string)
    ensures var vs := StepViolations(syn, id, declared, policy);
            && About(vs, other) == (if other == id then vs else [])
            && Requested(vs) == Withheld(syn, declared, policy)
            && forall v | v in vs :: v.stepId == id && Explains(syn, policy, v)
  {
    ViolationsAreExplained(syn, id, declared, policy);
    ReportedIsWithheld(syn, id, declared, policy);
    AboutOneStep(StepViolations(syn, id, declared, policy), id, other);
  }

  lemma ReportsEarlierStep(
      syn: Syntax, ds: seq<(string, seq<string>)>, policy: seq<Token>, vs: seq<CheckViolation>, n: nat, k: nat)
    requires DistinctSteps(ds) && k < n < |ds| && ReportsStep(syn, ds[..n], policy, vs, k)
    ensures ReportsStep(syn, ds, policy, vs + StepViolations(syn, ds[n].0, ds[n].1, policy), k)
  {
    var more := StepViolations(syn, ds[n].0, ds[n].1, policy);
    StepsReports(syn, ds[n].0, ds[n].1, policy, ds[k].0);
    AboutConcat(vs, more, ds[k].0);
    assert ds[..n][k] == ds[k] && About(vs, ds[k].0) + [] == About(vs, ds[k].0);
  }

  lemma ReportsThisStep(
      syn: Syntax, ds: seq<(string, seq<string>)>, policy: seq<Token>, vs: seq<CheckViolation>, n: nat)
    requires DistinctSteps(ds) && n < |ds| && InStepOrder(ds[..n], vs)
    ensures ReportsStep(syn, ds, policy, vs + StepViolations(syn, ds[n].0, ds[n].1, policy), n)
  {
    var more := StepViolations(syn, ds[n].0, ds[n].1, policy);
    StepsReports(syn, ds[n].0, ds[n].1, policy, ds[n].0);
    AboutConcat(vs, more, ds[n].0);
    NothingAbout(ds[..n], vs, ds[n].0);
    assert [] + more == more;
  }

  lemma {:induction false} NothingAbout(ds: seq<(string, seq<string>)>, vs: seq<CheckViolation>, id: string)
    requires InStepOrder(ds, vs) && forall k | 0 <= k < |ds| :: ds[k].0 != id
    ensures About(vs, id) == []
  {
    if vs != [] {
      var n := |vs| - 1;
      assert ComeInOrder(ds, vs[n].stepId, vs[n].stepId);
      NothingAbout(ds, vs[..n], id);
    }
  }

  lemma MoreInStepOrder(
      syn: Syntax, ds: seq<(string, seq<string>)>, policy: seq<Token>, vs: seq<CheckViolation>, n: nat)
    requires n < |ds| && InStepOrder(ds[..n], vs)
    ensures InStepOrder(ds[..n + 1], vs + StepViolations(syn, ds[n].0, ds[n].1, policy))
  {
    var more := StepViolations(syn, ds[n].0, ds[n].1, policy);
    StepsReports(syn, ds[n].0, ds[n].1, policy, ds[n].0);
    var all, now := vs + more, ds[..n + 1];
    forall i, j | 0 <= i <= j < |all|
      ensures ComeInOrder(now, all[i].stepId, all[j].stepId)
    {
      if j < |vs| {
        assert ComeInOrder(ds[..n], vs[i].stepId, vs[j].stepId);
        var a, b :| 0 <= a <= b < n && ds[..n][a].0 == vs[i].stepId && ds[..n][b].0 == vs[j].stepId;
        assert now[a].0 == all[i].stepId && now[b].0 == all[j].stepId;
      } else {
        assert all[j] in more && now[n].0 == all[j].stepId;
        if i < |vs| {
          assert ComeInOrder(ds[..n], vs[i].stepId, vs[i].stepId);
          var a, b :| 0 <= a <= b < n && ds[..n][a].0 == vs[i].stepId && ds[..n][b].0 == vs[i].stepId;
          assert now[a].0 == all[i].stepId;
        } else {
          assert all[i] in more;
        }
      }
    }
  }

  lemma {:induction false} ViolationsReport(syn: Syntax, ds: seq<(string, seq<string>)>, policy: seq<Token>)
    requires DistinctSteps(ds)
    ensures Reports(syn, ds, policy, Violations(syn, ds, policy))
  {
    if ds != [] {
      var n := |ds| - 1;
      var vs := Violations(syn, ds[..n], policy);
      ViolationsReport(syn, ds[..n], policy);
      forall k | 0 <= k < n
        ensures ReportsStep(syn, ds, policy, Violations(syn, ds, policy), k)
      {
        assert ReportsStep(syn, ds[..n], policy, vs, k);
        ReportsEarlierStep(syn, ds, policy, vs, n, k);
      }
      ReportsThisStep(syn, ds, policy, vs, n);
      MoreInStepOrder(syn, ds, policy, vs, n);
      assert ds[..n + 1] == ds;
    }
  }

  /** Both ids are nodes, and the second does not come before the first. */
  predicate NodesInOrder(p: CompiledProgram, first: string, second: string) {
    exists a, b :: 0 <= a <= b < |p.nodes.keys| && p.nodes.keys[a] == first && p.nodes.keys[b] == second
  }

  ghost predicate ReportsNode(syn: Syntax, p: CompiledProgram, policy: seq<Token>, vs: seq<CheckViolation>, id: string)
    requires p.Has(id)
  {
    && Requested(About(vs, id)) == Withheld(syn, p.Node(id).declared, policy)
    && forall v | v in About(vs, id) :: Explains(syn, policy, v)
  }

  /** The report of a whole program: for every node, in declaration order, exactly the declared capabilities
      that the policy does not allow, each with the right reason; node after node in dictionary order; and
      nothing about anything else. */
  ghost predicate ReportsProgram(syn: Syntax, p: CompiledProgram, policy: seq<Token>, vs: seq<CheckViolation>) {
    && (forall id | p.Has(id) :: ReportsNode(syn, p, policy, vs, id))
    && (forall i, j | 0 <= i <= j < |vs| :: NodesInOrder(p, vs[i].stepId, vs[j].stepId))
  }

  lemma NodeIsReported(syn: Syntax, p: CompiledProgram, policy: seq<Token>, vs: seq<CheckViolation>, id: string)
    requires Reports(syn, Declarations(p), policy, vs) && p.Has(id)
    ensures ReportsNode(syn, p, policy, vs, id)
  {
    assert id in p.nodes.keys;
    var k :| 0 <= k < |p.nodes.keys| && p.nodes.keys[k] == id;
    assert ReportsStep(syn, Declarations(p), policy, vs, k);
  }

  lemma StepOrderIsNodeOrder(p: CompiledProgram, first: string, second: string)
    requires ComeInOrder(Declarations(p), first, second)
    ensures NodesInOrder(p, first, second)
  {
    var a, b :| 0 <= a <= b < |Declarations(p)| && Declarations(p)[a].0 == first && Declarations(p)[b].0 == second;
    assert p.nodes.keys[a] == first && p.nodes.keys[b] == second;
  }

  lemma ReportExactly(syn: Syntax, p: CompiledProgram, policy: seq<Token>)
    ensures ReportsProgram(syn, p, policy, Violations(syn, Declarations(p), policy))
  {
    var vs := Violations(syn, Declarations(p), policy);
    ViolationsReport(syn, Declarations(p), policy);
    forall id | p.Has(id) {
      NodeIsReported(syn, p, policy, vs, id);
    }
    forall i, j | 0 <= i <= j < |vs|
      ensures NodesInOrder(p, vs[i].stepId, vs[j].stepId)
    {
      StepOrderIsNodeOrder(p, vs[i].stepId, vs[j].stepId);
    }
  }

  /** `check`: the report of the whole program, which passes exactly when there is nothing to report. */
  method Check(syn: Syntax, p: CompiledProgram, policy: seq<Token>) returns (r: CheckResult)
    ensures r.violations == Violations(syn, Declarations(p), policy)
    ensures ReportsProgram(syn, p, policy, r.violations)
    ensures r.passed <==> r.violations == []
  {
    var violations: seq<CheckViolation> := [];
    var all := Declarations(p);
    for i := 0 to |all|
      invariant violations == Violations(syn, all[..i], policy)
    {
      var more := CheckStep(syn, all[i].0, all[i].1, policy);
      assert all[..i + 1][..i] == all[..i];
      violations := violations + more;
    }
    assert all[..|all|] == all;
    ReportExactly(syn, p, policy);
    return CheckResult(violations == [], violations);
  }

  /** A wider policy never adds a violation: what it still reports, the narrow one reports too. */
  lemma {:induction false} WideningClearsViolations(
      syn: Syntax, id: string, declared: seq<string>, narrow: seq<Token>, wide: seq<Token>)
    requires AllowsMore(syn, narrow, wide)
    ensures Requested(StepViolations(syn, id, Refusals(syn, id, declared, narrow), wide)) ==
            Requested(StepViolations(syn, id, declared, wide))
  {
    if declared != [] {
      var n := |declared| - 1;
      WideningClearsViolations(syn, id, declared[..n], narrow, wide);
      var refused := Refusals(syn, id, declared[..n], narrow);
      if Verdict(syn, id, declared[n], narrow).Some? {
        assert Refusals(syn, id, declared, narrow) == refused + [declared[n]];
        assert (refused + [declared[n]])[..|refused|] == refused;
      } else {
        assert Verdict(syn, id, declared[n], wide).None?;
      }
    }
  }

  /** The declared capabilities that the checker reports for a step. */
  function Refusals(syn: Syntax, id: string, declared: seq<string>, policy: seq<Token>): seq<string> {
    Requested(StepViolations(syn, id, declared, policy))
  }

  /** A wider policy never turns a grant into a refusal, in any step, for any request. */
  lemma WideningKeepsGrants(syn: Syntax, n: IrNode, narrow: seq<Token>, wide: seq<Token>, request: Token)
    requires AllowsMore(syn, narrow, wide)
    requires CheckCall(syn, request, PagedCaps(syn, n.declared, narrow)) == Ok(true)
    ensures CheckCall(syn, request, PagedCaps(syn, n.declared, wide)) == Ok(true)
  {
    var few, many := PagedCaps(syn, n.declared, narrow), PagedCaps(syn, n.declared, wide);
    CheckCallMeaning(syn, request, few);
    var i :| 0 <= i < |few| && syn.parse(few[i]).Ok? && Satisfies(syn, request, syn.parse(few[i]).value);
    assert few[i] in few;
    var j :| 0 <= j < |many| && many[j] == few[i];
    assert Covered(syn, request, many);
    GateIsCoverage(syn, request, many);
  }

  /** A request that literally repeats a paged entry without comparator or NaN is granted. */
  lemma ConcretePagedEntryIsGranted(syn: Syntax, declared: seq<string>, policy: seq<Token>, cap: string)
    requires cap in PagedCaps(syn, declared, policy) && Concrete(syn.parse(cap).value)
    ensures CheckCall(syn, syn.parse(cap).value, PagedCaps(syn, declared, policy)) == Ok(true)
  {
    var paged := PagedCaps(syn, declared, policy);
    var i :| 0 <= i < |paged| && paged[i] == cap;
    SatisfiesReflexiveExactly(syn, syn.parse(cap).value);
    assert Covered(syn, syn.parse(cap).value, paged);
    GateIsCoverage(syn, syn.parse(cap).value, paged);
  }
}
