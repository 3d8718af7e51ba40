/** Provider registration, routing and the provider sandbox (src/sopvm/plugins/). */
module Plugins {
  import opened Basics
  import opened Capabilities
  import opened Ir
  import opened RunLog

  datatype Outcome = Returned(result: ToolResult) | Raised(message: string)

  /** When a provider is asked what it declares: on its registration, after so many earlier ones, or while a
      request of the current step is routed. */
  datatype Moment =
    | Registering(past: History, earlier: nat)
    | Requesting(past: History, exchanges: seq<Exchange>)

  /** What a provider lists, and the message of the exception, if any, with which the listing ends. */
  datatype Declaration = Declaration(caps: seq<string>, fault: Option<string>)

  /** A tool provider: what it declares and how it answers may depend on everything that happened so far. */
  datatype Provider = Provider(
    declare: Moment -> Declaration,
    invoke: (History, seq<Exchange>, Token, Args) -> Outcome)

  type Key = (string, string)
  type Index = map<Key, Provider>

  function KeyOf(t: Token): Key {
    (t.namespace, t.action)
  }

  /** The exception that a loop over a declaration raises, if it does not come to its end. */
  function ReadingError(syn: Syntax, d: Declaration): Option<Thrown> {
    match FirstMalformed(syn, d.caps)
    case Some(e) => Some(BadText(e))
    case None => if d.fault.Some? then Some(ListingFailed(d.fault.value)) else None
  }

  // ----- Registry -------------------------------------------------------------------------

  /** The keys of the declarations that registration reads before it meets a malformed one. */
  function ReadableKeys(syn: Syntax, declared: seq<string>): set<Key> {
    if declared == [] || syn.parse(declared[0]).Err? then {}
    else {KeyOf(syn.parse(declared[0]).value)} + ReadableKeys(syn, declared[1..])
  }

  /** The index after registering `p`, declaration by declaration up to a malformed one. */
  function Indexed(syn: Syntax, index: Index, p: Provider, declared: seq<string>): Index
    decreases |declared|
  {
    if declared == [] || syn.parse(declared[0]).Err? then index
    else Indexed(syn, index[KeyOf(syn.parse(declared[0]).value) := p], p, declared[1..])
  }

  /** Registration hands the provider exactly the readable keys and leaves all others alone. */
  lemma {:induction false} IndexedMeaning(syn: Syntax, index: Index, p: Provider, declared: seq<string>, k: Key)
    ensures var after := Indexed(syn, index, p, declared);
            if k in ReadableKeys(syn, declared) then k in after && after[k] == p
            else (k in after <==> k in index) && (k in index ==> after[k] == index[k])
    decreases |declared|
  {
    if declared != [] && syn.parse(declared[0]).Ok? {
      IndexedMeaning(syn, index[KeyOf(syn.parse(declared[0]).value) := p], p, declared[1..], k);
    }
  }

  /** Entry `i` can be read and is of the same namespace and action as the request. */
  predicate DeclaresAt(syn: Syntax, declared: seq<string>, cap: Token, i: int) {
    && 0 <= i < |declared| && AllParse(syn, declared[..i + 1])
    && syn.parse(declared[i]).Ok?
    && syn.parse(declared[i]).value.namespace == cap.namespace && syn.parse(declared[i]).value.action == cap.action
  }

  /** Some entry, of those before the first malformed one, is of the request's namespace and action. */
  ghost predicate Declares(syn: Syntax, declared: seq<string>, cap: Token) {
    exists i :: DeclaresAt(syn, declared, cap, i)
  }

  lemma DeclaresInRest(syn: Syntax, declared: seq<string>, cap: Token)
    requires declared != [] && syn.parse(declared[0]).Ok?
    ensures Declares(syn, declared, cap) <==> DeclaresAt(syn, declared, cap, 0) || Declares(syn, declared[1..], cap)
  {
    forall i | 0 < i < |declared|
      ensures DeclaresAt(syn, declared, cap, i) <==> DeclaresAt(syn, declared[1..], cap, i - 1)
    {
      assert declared[..i + 1] == [declared[0]] + declared[1..][..i];
    }
    if i :| DeclaresAt(syn, declared[1..], cap, i) {
      assert DeclaresAt(syn, declared, cap, i + 1);
    }
    if i :| DeclaresAt(syn, declared, cap, i) {
      assert i > 0 ==> DeclaresAt(syn, declared[1..], cap, i - 1);
    }
  }

  /** The readable keys are the namespace and action of the entries that can be read, both of them. */
  lemma {:induction false} ReadableKeysExactly(syn: Syntax, declared: seq<string>, cap: Token)
    ensures KeyOf(cap) in ReadableKeys(syn, declared) <==> Declares(syn, declared, cap)
  {
    if declared != [] {
      if syn.parse(declared[0]).Ok? {
        ReadableKeysExactly(syn, declared[1..], cap);
        DeclaresInRest(syn, declared, cap);
        assert declared[..1] == [declared[0]];
      } else {
        forall i
          ensures !DeclaresAt(syn, declared, cap, i)
        {
          assert 0 <= i < |declared| ==> declared[0] in declared[..i + 1];
        }
      }
    }
  }

  class ProviderRegistry {
    var providers: seq<Provider>
    var index: Index

    constructor ()
      ensures providers == [] && index == map[]
    {
      providers, index := [], map[];
    }

    /** A malformed declaration, or a provider that fails to list its own, raises half way: the entries
        before it stay registered. */
    method Register(syn: Syntax, p: Provider, past: History) returns (r: Result<(), Thrown>)
      modifies this
      ensures var declared := p.declare(Registering(past, |old(providers)|));
              && providers == old(providers) + [p]
              && index == Indexed(syn, old(index), p, declared.caps)
              && match ReadingError(syn, declared)
                 case Some(e) => r == Err(e)
                 case None => r == Ok(())
    {
      var declared := p.declare(Registering(past, |providers|));
      var caps := declared.caps;
      providers := providers + [p];
      for i := 0 to |caps|
        invariant providers == old(providers) + [p]
        invariant FirstMalformed(syn, caps) == FirstMalformed(syn, caps[i..])
        invariant Indexed(syn, old(index), p, caps) == Indexed(syn, index, p, caps[i..])
      {
        var token := syn.parse(caps[i]);
        if token.Err? {
          return Err(BadText(token.error));
        }
        assert caps[i..][1..] == caps[i + 1..];
        index := index[KeyOf(token.value) := p];
      }
      if declared.fault.Some? {
        return Err(ListingFailed(declared.fault.value));
      }
      return Ok(());
    }

    function Lookup(cap: Token): Option<Provider>
      reads this
    {
      Find(index, cap)
    }
  }

  function Find(index: Index, cap: Token): Option<Provider> {
    if KeyOf(cap) in index then Some(index[KeyOf(cap)]) else None
  }

  /** A registration: the provider and what it declared at the time. */
  datatype Registration = Registration(provider: Provider, declared: Declaration)

  /** The index of a registry after a series of `register` calls. */
  function IndexAfter(syn: Syntax, regs: seq<Registration>): Index {
    if regs == [] then map[]
    else
      var last := regs[|regs| - 1];
      Indexed(syn, IndexAfter(syn, regs[..|regs| - 1]), last.provider, last.declared.caps)
  }

  /** Registration `i` is the latest that declares the request's namespace and action. */
  ghost predicate Latest(syn: Syntax, regs: seq<Registration>, cap: Token, i: int) {
    && 0 <= i < |regs|
    && Declares(syn, regs[i].declared.caps, cap)
    && forall j | i < j < |regs| :: !Declares(syn, regs[j].declared.caps, cap)
  }

  /** Last registration wins: `lookup` finds the latest provider that declared the request's namespace and
      action, or none did. */
  lemma {:induction false} LookupIsLatest(syn: Syntax, regs: seq<Registration>, cap: Token)
    ensures match Find(IndexAfter(syn, regs), cap)
            case Some(p) => exists i :: Latest(syn, regs, cap, i) && regs[i].provider == p
            case None => forall i | 0 <= i < |regs| :: !Declares(syn, regs[i].declared.caps, cap)
  {
    if regs != [] {
      var n := |regs| - 1;
      LookupIsLatest(syn, regs[..n], cap);
      IndexedMeaning(syn, IndexAfter(syn, regs[..n]), regs[n].provider, regs[n].declared.caps, KeyOf(cap));
      ReadableKeysExactly(syn, regs[n].declared.caps, cap);
      if Declares(syn, regs[n].declared.caps, cap) {
        assert Latest(syn, regs, cap, n);
      } else if KeyOf(cap) in IndexAfter(syn, regs) {
        var i :| Latest(syn, regs[..n], cap, i) && regs[..n][i].provider == Find(IndexAfter(syn, regs[..n]), cap).value;
        assert Latest(syn, regs, cap, i);
      }
    }
  }

  // ----- Sandbox --------------------------------------------------------------------------

  class SandboxWrapper {
    const provider: Provider
    var declared: set<Key>

    constructor (provider: Provider)
      ensures this.provider == provider && declared == {}
    {
      this.provider, declared := provider, {};
    }

    /** Reads the provider's declarations; a malformed one, or a provider that fails to list them, raises out
        of the wrapper's construction. */
    method ReadDeclarations(syn: Syntax, now: Moment) returns (r: Result<(), Thrown>)
      requires declared == {}
      modifies this
      ensures match ReadingError(syn, provider.declare(now))
              case Some(e) => r == Err(e)
              case None => r == Ok(()) && declared == ReadableKeys(syn, provider.declare(now).caps)
    {
      var listed := provider.declare(now);
      var caps := listed.caps;
      for i := 0 to |caps|
        invariant ReadableKeys(syn, caps) == declared + ReadableKeys(syn, caps[i..])
        invariant FirstMalformed(syn, caps) == FirstMalformed(syn, caps[i..])
      {
        assert caps[i..][1..] == caps[i + 1..];
        var token := syn.parse(caps[i]);
        if token.Err? {
          return Err(BadText(token.error));
        }
        declared := declared + {KeyOf(token.value)};
      }
      if listed.fault.Some? {
        return Err(ListingFailed(listed.fault.value));
      }
      return Ok(());
    }

    /** Only a declared pair gets through to the provider. */
    method Invoke(past: History, exchanges: seq<Exchange>, cap: Token, args: Args) returns (r: Result<Outcome, ToolError>)
      ensures r.Ok? <==> KeyOf(cap) in declared
      ensures r.Ok? ==> r.value == provider.invoke(past, exchanges, cap, args)
      ensures r.Err? ==> r.error == IntegrityViolation(cap.raw)
    {
      if KeyOf(cap) !in declared {
        return Err(IntegrityViolation(cap.raw));
      }
      return Ok(provider.invoke(past, exchanges, cap, args));
    }
  }

  // ----- Routing --------------------------------------------------------------------------

  function Failure(error: ToolError): Reply {
    Answer(ToolResult(false, None, Some(error)))
  }

  /** What a tool call makes of the provider's outcome: an exception becomes a failed result. */
  function Delivered(outcome: Outcome): Reply {
    match outcome
    case Raised(message) => Failure(ProviderFailed(message))
    case Returned(result) => Answer(result)
  }

  /** Provider routing of a granted request. Without a registry the call is a stub success; an
      exception inside the sandboxed call becomes a failed result, one while wrapping does not. */
  function Route(
      syn: Syntax, index: Option<Index>, past: History, exchanges: seq<Exchange>, cap: Token, args: Args)
    : Reply
  {
    match index
    case None => Answer(ToolResult(true, None, None))
    case Some(ix) =>
      match Find(ix, cap)
      case None => Failure(NoProvider(cap.raw))
      case Some(p) =>
        var declared := p.declare(Requesting(past, exchanges));
        match ReadingError(syn, declared)
        case Some(e) => Threw(e)
        case None =>
          if KeyOf(cap) in ReadableKeys(syn, declared.caps) then Delivered(p.invoke(past, exchanges, cap, args))
          else Failure(IntegrityViolation(cap.raw))
  }

  function IndexOf(registry: ProviderRegistry?): Option<Index>
    reads registry
  {
    if registry == null then None else Some(registry.index)
  }

  /** The provider's side of `request_tool`: look the provider up, wrap it, and call it through the wrapper. */
  method RouteRequest(
      syn: Syntax, registry: ProviderRegistry?, past: History, exchanges: seq<Exchange>, cap: Token, args: Args)
    returns (reply: Reply)
    ensures reply == Route(syn, IndexOf(registry), past, exchanges, cap, args)
  {
    if registry == null {
      return Answer(ToolResult(true, None, None));
    }
    var provider := registry.Lookup(cap);
    if provider.None? {
      return Failure(NoProvider(cap.raw));
    }
    var sandboxed := new SandboxWrapper(provider.value);
    var wrapped := sandboxed.ReadDeclarations(syn, Requesting(past, exchanges));
    if wrapped.Err? {
      return Threw(wrapped.error);
    }
    var outcome := sandboxed.Invoke(past, exchanges, cap, args);
    if outcome.Err? {
      return Failure(outcome.error);
    }
    return Delivered(outcome.value);
  }

  /** What the provider `p` has to do with the reply to a request routed to it. */
  ghost predicate RepliedBy(
      syn: Syntax, p: Provider, past: History, exchanges: seq<Exchange>, cap: Token, args: Args, reply: Reply)
  {
    var declared := p.declare(Requesting(past, exchanges));
    if !AllParse(syn, declared.caps) then
      exists i :: && 0 <= i < |declared.caps| && AllParse(syn, declared.caps[..i]) && syn.parse(declared.caps[i]).Err?
                  && reply == Threw(BadText(syn.parse(declared.caps[i]).error))
    else if declared.fault.Some? then reply == Threw(ListingFailed(declared.fault.value))
    else if !Declares(syn, declared.caps, cap) then
      reply == Answer(ToolResult(false, None, Some(IntegrityViolation(cap.raw))))
    else match p.invoke(past, exchanges, cap, args)
      case Raised(message) => reply == Answer(ToolResult(false, None, Some(ProviderFailed(message))))
      case Returned(result) => reply == Answer(result)
  }

  lemma FoundProviderReplies(
      syn: Syntax, index: Index, past: History, exchanges: seq<Exchange>, cap: Token, args: Args)
    requires Find(index, cap).Some?
    ensures RepliedBy(syn, Find(index, cap).value, past, exchanges, cap, args,
                      Route(syn, Some(index), past, exchanges, cap, args))
  {
    var declared := Find(index, cap).value.declare(Requesting(past, exchanges));
    ReadableKeysExactly(syn, declared.caps, cap);
    if !AllParse(syn, declared.caps) {
      var i := FirstMalformedIndex(syn, declared.caps);
      FirstMalformedIsFirst(syn, declared.caps, i);
    }
  }

  /** The whole of routing. Without a registry every granted request succeeds with nothing; with one it goes to
      the provider that was the latest to declare its namespace and action, or fails if there is none; and
      that provider's exceptions are raised while it is wrapped and become failed results when it is called. */
  lemma RoutingExactly(
      syn: Syntax, regs: seq<Registration>, past: History, exchanges: seq<Exchange>, cap: Token, args: Args)
    ensures Route(syn, None, past, exchanges, cap, args) == Answer(ToolResult(true, None, None))
    ensures var reply := Route(syn, Some(IndexAfter(syn, regs)), past, exchanges, cap, args);
            if forall i | 0 <= i < |regs| :: !Declares(syn, regs[i].declared.caps, cap) then
              reply == Answer(ToolResult(false, None, Some(NoProvider(cap.raw))))
            else
              exists i :: Latest(syn, regs, cap, i) && RepliedBy(syn, regs[i].provider, past, exchanges, cap, args, reply)
  {
    LookupIsLatest(syn, regs, cap);
    if Find(IndexAfter(syn, regs), cap).Some? {
      FoundProviderReplies(syn, IndexAfter(syn, regs), past, exchanges, cap, args);
    }
  }

  /** Registry and sandbox agree: a provider that still declares what it declared when it was registered,
      and declares it well-formed, is let through by the sandbox on every request routed to it. */
  lemma RoutedRequestIsInvoked(
      syn: Syntax, regs: seq<Registration>, past: History, exchanges: seq<Exchange>, cap: Token, args: Args, i: int)
    requires Latest(syn, regs, cap, i)
    requires var d := regs[i].declared;
             AllParse(syn, d.caps) && d.fault.None? && regs[i].provider.declare(Requesting(past, exchanges)) == d
    ensures regs[i].provider.invoke.requires(past, exchanges, cap, args)
    ensures Route(syn, Some(IndexAfter(syn, regs)), past, exchanges, cap, args) ==
            match regs[i].provider.invoke(past, exchanges, cap, args)
            case Raised(message) => Answer(ToolResult(false, None, Some(ProviderFailed(message))))
            case Returned(result) => Answer(result)
  {
    RoutingExactly(syn, regs, past, exchanges, cap, args);
  }

  /** When a tool call fails with an integrity violation, exactly: a provider was found whose declarations,
      as it makes them now, can be read but do not hold the routed pair, or the provider itself answered
      with that very failure. */
  lemma SandboxRefusesExactly(
      syn: Syntax, index: Option<Index>, past: History, exchanges: seq<Exchange>, cap: Token, args: Args)
    ensures Route(syn, index, past, exchanges, cap, args) ==
            Answer(ToolResult(false, None, Some(IntegrityViolation(cap.raw)))) <==>
            && index.Some? && Find(index.value, cap).Some?
            && var p := Find(index.value, cap).value;
            var declared := p.declare(Requesting(past, exchanges));
            && AllParse(syn, declared.caps) && declared.fault.None?
            && (|| !Declares(syn, declared.caps, cap)
                || (&& p.invoke.requires(past, exchanges, cap, args)
                    && p.invoke(past, exchanges, cap, args) ==
                       Returned(ToolResult(false, None, Some(IntegrityViolation(cap.raw))))))
  {
    if index.Some? && Find(index.value, cap).Some? {
      FoundProviderReplies(syn, index.value, past, exchanges, cap, args);
    }
  }
}
