/** The run-time capability gate (src/sopvm/runtime/gate.py). */
module Gate {
  import opened Basics
  import opened Capabilities
  import opened Ir
  import opened RunLog

  /** `check_call`: the paged entries are parsed one by one until one covers the request, so a
      malformed entry raises only when no earlier entry covers it. */
  function CheckCall(syn: Syntax, requested: Token, paged: seq<string>): Result<bool, GrammarError> {
    if paged == [] then Ok(false) else
    match syn.parse(paged[0])
    case Err(e) => Err(e)
    case Ok(entry) => if Satisfies(syn, requested, entry) then Ok(true) else CheckCall(syn, requested, paged[1..])
  }

  /** `enforce`: no violation when the call is covered, otherwise the request with all paged tokens. */
  function Enforce(syn: Syntax, id: string, requested: Token, node: IrNode): Result<Option<Violation>, GrammarError> {
    match CheckCall(syn, requested, node.paged)
    case Err(e) => Err(e)
    case Ok(true) => Ok(None)
    case Ok(false) => Ok(Some(Violation(id, requested, Tokens(syn, node.paged))))
  }

  /** Entry `i` decides the request: it is the first that does not parse or that covers it. */
  ghost predicate Decides(syn: Syntax, requested: Token, paged: seq<string>, i: int) {
    && 0 <= i < |paged|
    && (syn.parse(paged[i]).Ok? ==> Satisfies(syn, requested, syn.parse(paged[i]).value))
    && forall j | 0 <= j < i :: syn.parse(paged[j]).Ok? && !Satisfies(syn, requested, syn.parse(paged[j]).value)
  }

  lemma DecidesInRest(syn: Syntax, requested: Token, paged: seq<string>, i: int)
    requires paged != [] && Decides(syn, requested, paged[1..], i)
    requires syn.parse(paged[0]).Ok? && !Satisfies(syn, requested, syn.parse(paged[0]).value)
    ensures Decides(syn, requested, paged, i + 1) && paged[i + 1] == paged[1..][i]
  {
    forall j | 0 <= j < i + 1
      ensures syn.parse(paged[j]).Ok? && !Satisfies(syn, requested, syn.parse(paged[j]).value)
    {
      if j > 0 {
        assert paged[j] == paged[1..][j - 1];
      }
    }
  }

  /** The gate by entry order: the deciding entry grants the request, or raises its own grammar error;
      when no entry decides, the request is refused. */
  lemma {:induction false} CheckCallByOrder(syn: Syntax, requested: Token, paged: seq<string>)
    ensures match CheckCall(syn, requested, paged)
            case Err(e) => exists i :: Decides(syn, requested, paged, i) && syn.parse(paged[i]) == Err(e)
            case Ok(true) => exists i :: Decides(syn, requested, paged, i) && syn.parse(paged[i]).Ok?
            case Ok(false) => AllParse(syn, paged) && !Covered(syn, requested, paged)
  {
    if paged != [] {
      if syn.parse(paged[0]).Err? || Satisfies(syn, requested, syn.parse(paged[0]).value) {
        assert Decides(syn, requested, paged, 0);
      } else {
        CheckCallByOrder(syn, requested, paged[1..]);
        assert paged == [paged[0]] + paged[1..];
        if i :| Decides(syn, requested, paged[1..], i) {
          DecidesInRest(syn, requested, paged, i);
        }
      }
    }
  }

  /** What the gate promises whatever the order: a grant means that some paged entry covers the request, a
      refusal that all entries parse and none does, and an exception that some entry does not parse. */
  lemma CheckCallMeaning(syn: Syntax, requested: Token, paged: seq<string>)
    ensures CheckCall(syn, requested, paged) == Ok(true) ==> Covered(syn, requested, paged)
    ensures CheckCall(syn, requested, paged) == Ok(false) <==>
            AllParse(syn, paged) && !Covered(syn, requested, paged)
    ensures CheckCall(syn, requested, paged).Err? ==> !AllParse(syn, paged)
  {
    CheckCallByOrder(syn, requested, paged);
    if i :| Decides(syn, requested, paged, i) {
      assert paged[i] in paged;
    }
  }

  /** On well-formed entries the gate is exactly coverage. */
  lemma GateIsCoverage(syn: Syntax, requested: Token, paged: seq<string>)
    requires AllParse(syn, paged)
    ensures CheckCall(syn, requested, paged) == Ok(Covered(syn, requested, paged))
  {
    CheckCallMeaning(syn, requested, paged);
  }
}
