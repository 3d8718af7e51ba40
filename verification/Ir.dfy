/** The compiled program graph (src/sopvm/ir/model.py). */
module Ir {
  import opened Basics
  import opened Capabilities

  const ON_SUCCESS := "on_success"
  const ON_FAILURE := "on_failure"
  const IR_VERSION := "0.1"

  datatype IrNode = IrNode(
    declared: seq<string>,
    paged: seq<string>,
    edges: map<string, string>,
    terminal: bool,
    condition: Option<string>,
    loop: Option<int>,        // max_iterations
    onLimit: Option<string>)

  datatype CompiledProgram = CompiledProgram(
    irVersion: string,
    entry: string,
    nodes: Dict<string, IrNode>,
    policyRef: string)
  {
    predicate Has(id: string) {
      id in nodes.values
    }

    function Node(id: string): IrNode
      requires Has(id)
    {
      nodes.values[id]
    }
  }

  /** The same step, apart from what it may do: only the paged capabilities differ. */
  predicate SameButPaged(a: IrNode, b: IrNode) {
    a.(paged := []) == b.(paged := [])
  }

  /** Every entry is a well-formed capability. */
  predicate AllParse(syn: Syntax, caps: seq<string>) {
    forall c | c in caps :: syn.parse(c).Ok?
  }

  /** The tokens of the leading well-formed entries; all of them when every entry is well-formed. */
  function Tokens(syn: Syntax, caps: seq<string>): (ts: seq<Token>)
    ensures |ts| <= |caps|
    ensures forall i | 0 <= i < |ts| :: syn.parse(caps[i]) == Ok(ts[i])
    ensures |ts| < |caps| ==> syn.parse(caps[|ts|]).Err?
  {
    if caps == [] then []
    else match syn.parse(caps[0])
      case Err(_) => []
      case Ok(t) => [t] + Tokens(syn, caps[1..])
  }

  /** The error that a loop over the entries meets first. */
  function FirstMalformed(syn: Syntax, caps: seq<string>): (e: Option<GrammarError>)
    ensures e.None? <==> AllParse(syn, caps)
  {
    if caps == [] then None
    else match syn.parse(caps[0])
      case Err(e) => Some(e)
      case Ok(_) => FirstMalformed(syn, caps[1..])
  }

  /** It is the error of the one malformed entry that has only well-formed ones before it. */
  lemma {:induction false} FirstMalformedIsFirst(syn: Syntax, caps: seq<string>, i: nat)
    requires i < |caps| && AllParse(syn, caps[..i]) && syn.parse(caps[i]).Err?
    ensures FirstMalformed(syn, caps) == Some(syn.parse(caps[i]).error)
  {
    if i > 0 {
      assert caps[..i][0] == caps[0] && caps[1..][..i - 1] == caps[..i][1..];
      FirstMalformedIsFirst(syn, caps[1..], i - 1);
    }
  }

  lemma {:induction false} FirstMalformedIndex(syn: Syntax, caps: seq<string>) returns (i: nat)
    requires !AllParse(syn, caps)
    ensures i < |caps| && AllParse(syn, caps[..i]) && syn.parse(caps[i]).Err?
  {
    if syn.parse(caps[0]).Err? {
      return 0;
    }
    i := FirstMalformedIndex(syn, caps[1..]);
    assert caps[..i + 1] == [caps[0]] + caps[1..][..i];
    i := i + 1;
  }

  /** Some well-formed entry of `caps` covers the request. */
  predicate Covered(syn: Syntax, request: Token, caps: seq<string>) {
    exists i :: 0 <= i < |caps| && syn.parse(caps[i]).Ok? && Satisfies(syn, request, syn.parse(caps[i]).value)
  }
}
