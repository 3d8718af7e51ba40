/** Capability tokens and the ceiling relation `satisfies` (src/sopvm/checker/check.py). */
module Capabilities {
  import opened Basics

  // ----- Values ---------------------------------------------------------------------------

  /** A Python float: a real number, an infinity, or a NaN. */
  datatype Float = Finite(r: real) | PosInf | NegInf | NaN

  predicate FloatLt(a: Float, b: Float) {
    match (a, b)
    case (Finite(x), Finite(y)) => x < y
    case (NegInf, Finite(_)) => true
    case (NegInf, PosInf) => true
    case (Finite(_), PosInf) => true
    case _ => false
  }

  /** Floating-point equality: a NaN is not equal even to itself. */
  predicate FloatEq(a: Float, b: Float) {
    a == b && a != NaN
  }

  predicate FloatLe(a: Float, b: Float) {
    FloatLt(a, b) || FloatEq(a, b)
  }

  datatype CompareOp = Le | Ge | Lt | Gt | EqEq

  predicate Holds(op: CompareOp, a: Float, b: Float) {
    match op
    case Le => FloatLe(a, b)
    case Ge => FloatLe(b, a)
    case Lt => FloatLt(a, b)
    case Gt => FloatLt(b, a)
    case EqEq => FloatEq(a, b)
  }

  datatype Scalar = Number(f: Float) | Text(s: string)

  /** A parameter value: a bare resource (`True`), an assigned scalar, or a comparator ceiling. */
  datatype Value = Bare | Plain(scalar: Scalar) | Comparator(op: CompareOp, ceiling: Scalar)

  datatype Token = Token(namespace: string, action: string, params: map<string, Value>, raw: string)

  datatype GrammarError = Malformed(raw: string) | EmptyParameter(raw: string)

  /** What the code calls out to when it meets text: `parse_capability` and Python's `float(str)`.
      Every theorem outside CapabilityText holds for all such functions. */
  datatype Syntax = Syntax(parse: string -> Result<Token, GrammarError>, toFloat: string -> Option<Float>)

  // ----- The ceiling relation -------------------------------------------------------------

  /** `_to_float`: `True` counts as 1.0, and a comparator (a dict) is not a number. */
  function ToFloat(syn: Syntax, v: Value): Option<Float> {
    match v
    case Bare => Some(Finite(1.0))
    case Plain(Number(f)) => Some(f)
    case Plain(Text(s)) => syn.toFloat(s)
    case Comparator(_, _) => None
  }

  /** Python's `==` between a parameter value and a scalar; `True == 1.0` holds. */
  predicate EqualsScalar(v: Value, s: Scalar) {
    match (v, s)
    case (Bare, Number(f)) => f == Finite(1.0)
    case (Plain(Number(f)), Number(g)) => FloatEq(f, g)
    case (Plain(Text(t)), Text(u)) => t == u
    case _ => false
  }

  predicate Compare(syn: Syntax, requested: Value, op: CompareOp, ceiling: Scalar) {
    match (ToFloat(syn, requested), ToFloat(syn, Plain(ceiling)))
    case (Some(r), Some(c)) => Holds(op, r, c)
    case _ => op == EqEq && EqualsScalar(requested, ceiling)
  }

  predicate ValueSatisfies(syn: Syntax, requested: Value, allowed: Value) {
    match allowed
    case Comparator(op, ceiling) => Compare(syn, requested, op, ceiling)
    case Bare => requested == Bare
    case Plain(s) => EqualsScalar(requested, s)
  }

  predicate Satisfies(syn: Syntax, requested: Token, allowed: Token) {
    && requested.namespace == allowed.namespace
    && requested.action == allowed.action
    && forall key | key in allowed.params ::
         key in requested.params && ValueSatisfies(syn, requested.params[key], allowed.params[key])
  }

  /** `any(satisfies(token, a) for a in entries)`. */
  predicate Allowed(syn: Syntax, token: Token, entries: seq<Token>) {
    exists i :: 0 <= i < |entries| && Satisfies(syn, token, entries[i])
  }

  // ----- What the rules mean --------------------------------------------------------------

  /** The operator's meaning on real numbers. */
  predicate RealHolds(op: CompareOp, x: real, b: real) {
    match op
    case Le => x <= b
    case Ge => x >= b
    case Lt => x < b
    case Gt => x > b
    case EqEq => x == b
  }

  /** A numeric ceiling admits a number exactly when the real comparison holds; a bare parameter counts
      as 1; a NaN on either side is admitted by no operator. */
  lemma NumericCeiling(syn: Syntax, op: CompareOp, x: real, b: real, f: Float)
    ensures ValueSatisfies(syn, Plain(Number(Finite(x))), Comparator(op, Number(Finite(b)))) <==> RealHolds(op, x, b)
    ensures ValueSatisfies(syn, Bare, Comparator(op, Number(Finite(b)))) <==> RealHolds(op, 1.0, b)
    ensures !ValueSatisfies(syn, Plain(Number(NaN)), Comparator(op, Number(f)))
    ensures !ValueSatisfies(syn, Plain(Number(f)), Comparator(op, Number(NaN)))
  {}

  /** The infinities bound all real numbers, and each other, from above and from below. */
  lemma InfiniteCeiling(syn: Syntax, op: CompareOp, x: real)
    ensures ValueSatisfies(syn, Plain(Number(Finite(x))), Comparator(op, Number(PosInf))) <==> op == Le || op == Lt
    ensures ValueSatisfies(syn, Plain(Number(Finite(x))), Comparator(op, Number(NegInf))) <==> op == Ge || op == Gt
    ensures ValueSatisfies(syn, Plain(Number(PosInf)), Comparator(op, Number(Finite(x)))) <==> op == Ge || op == Gt
    ensures ValueSatisfies(syn, Plain(Number(NegInf)), Comparator(op, Number(Finite(x)))) <==> op == Le || op == Lt
    ensures ValueSatisfies(syn, Plain(Number(NegInf)), Comparator(op, Number(PosInf))) <==> op == Le || op == Lt
    ensures ValueSatisfies(syn, Plain(Number(PosInf)), Comparator(op, Number(NegInf))) <==> op == Ge || op == Gt
    ensures ValueSatisfies(syn, Plain(Number(PosInf)), Comparator(op, Number(PosInf))) <==> op != Lt && op != Gt
    ensures ValueSatisfies(syn, Plain(Number(NegInf)), Comparator(op, Number(NegInf))) <==> op != Lt && op != Gt
  {}

  /** Under a comparator a bare parameter counts as 1 and a text that reads as a number counts as that
      number, on either side. */
  lemma NumericReadings(syn: Syntax, op: CompareOp, r: Value, c: Scalar, s: string, f: Float)
    requires syn.toFloat(s) == Some(f)
    ensures ValueSatisfies(syn, Bare, Comparator(op, c)) <==> ValueSatisfies(syn, Plain(Number(Finite(1.0))), Comparator(op, c))
    ensures ValueSatisfies(syn, Plain(Text(s)), Comparator(op, c)) <==> ValueSatisfies(syn, Plain(Number(f)), Comparator(op, c))
    ensures ValueSatisfies(syn, r, Comparator(op, Text(s))) <==> ValueSatisfies(syn, r, Comparator(op, Number(f)))
  {}

  /** What meets a ceiling without a comparator: the same value, and for the number 1 a bare parameter too. */
  lemma ExactCeiling(syn: Syntax, r: Value, f: Float, t: string)
    ensures ValueSatisfies(syn, r, Bare) <==> r == Bare
    ensures ValueSatisfies(syn, r, Plain(Text(t))) <==> r == Plain(Text(t))
    ensures ValueSatisfies(syn, r, Plain(Number(f))) <==>
            f != NaN && (r == Plain(Number(f)) || (r == Bare && f == Finite(1.0)))
  {}

  /** A request that is itself a comparator meets no ceiling on that parameter. */
  lemma ComparatorMeetsNothing(syn: Syntax, r: Value, allowed: Value)
    requires r.Comparator?
    ensures !ValueSatisfies(syn, r, allowed)
  {
    assert ToFloat(syn, r) == None;
  }

  /** Text that is not a number can only be asked for by an equality with the same text, and a ceiling on such
      a text admits only that text: no number, no bare parameter, no other text. */
  lemma TextCeiling(syn: Syntax, op: CompareOp, s: string, r: Value, c: Scalar)
    requires syn.toFloat(s).None?
    ensures ValueSatisfies(syn, r, Comparator(op, Text(s))) <==> op == EqEq && r == Plain(Text(s))
    ensures ValueSatisfies(syn, Plain(Text(s)), Comparator(op, c)) <==> op == EqEq && c == Text(s)
  {}

  /** The ceiling that names one parameter of `allowed` only. */
  function Alone(allowed: Token, key: string): Token
    requires key in allowed.params
  {
    allowed.(params := map[key := allowed.params[key]])
  }

  /** A token meets a ceiling exactly when it is of the same namespace and action and meets each parameter of
      the ceiling taken alone; and one parameter alone is met by a value for it that meets it. */
  lemma CeilingExactly(syn: Syntax, request: Token, allowed: Token)
    ensures Satisfies(syn, request, allowed) <==>
            && request.namespace == allowed.namespace && request.action == allowed.action
            && forall key | key in allowed.params :: Satisfies(syn, request, Alone(allowed, key))
    ensures forall key | key in allowed.params ::
              Satisfies(syn, request, Alone(allowed, key)) <==>
              && request.namespace == allowed.namespace && request.action == allowed.action
              && key in request.params && ValueSatisfies(syn, request.params[key], allowed.params[key])
  {
    forall key | key in allowed.params
      ensures Satisfies(syn, request, Alone(allowed, key)) <==>
              && request.namespace == allowed.namespace && request.action == allowed.action
              && key in request.params && ValueSatisfies(syn, request.params[key], allowed.params[key])
    {
      assert Alone(allowed, key).params[key] == allowed.params[key];
    }
  }

  /** What a request cannot have without being outside of an entry, in plain terms: another namespace or
      action, a parameter missing, or a number beyond a numeric bound. */
  predicate PlainlyWithin(request: Token, entry: Token) {
    && request.namespace == entry.namespace && request.action == entry.action
    && forall key | key in entry.params ::
         && key in request.params
         && (entry.params[key].Comparator? && entry.params[key].ceiling.Number? && entry.params[key].ceiling.f.Finite? ==>
               match request.params[key]
               case Bare => RealHolds(entry.params[key].op, 1.0, entry.params[key].ceiling.f.r)
               case Plain(Number(Finite(x))) => RealHolds(entry.params[key].op, x, entry.params[key].ceiling.f.r)
               case Plain(Number(NaN)) => false
               case Comparator(_, _) => false
               case _ => true)
  }

  lemma AllowedPlainly(syn: Syntax, request: Token, entries: seq<Token>)
    requires Allowed(syn, request, entries)
    ensures exists e :: e in entries && PlainlyWithin(request, e)
  {
    var i :| 0 <= i < |entries| && Satisfies(syn, request, entries[i]);
    assert PlainlyWithin(request, entries[i]);
  }

  /** A ceiling binds the parameters it names, all of them, and leaves every other parameter free. */
  lemma CeilingBindsItsParameters(syn: Syntax, request: Token, allowed: Token, key: string, v: Value)
    ensures key !in allowed.params ==>
              (Satisfies(syn, request.(params := request.params[key := v]), allowed) <==> Satisfies(syn, request, allowed))
    ensures key in allowed.params ==>
              (Satisfies(syn, request.(params := request.params[key := v]), allowed) ==>
                 ValueSatisfies(syn, v, allowed.params[key]))
    ensures key in allowed.params ==> !Satisfies(syn, request.(params := request.params - {key}), allowed)
  {
    var changed := request.(params := request.params[key := v]);
    if key in allowed.params && Satisfies(syn, changed, allowed) {
      assert changed.params[key] == v;
    }
    if key !in allowed.params {
      forall k | k in allowed.params
        ensures k in changed.params <==> k in request.params
        ensures k in request.params ==> changed.params[k] == request.params[k]
      {
      }
    }
  }

  // ----- Order laws -----------------------------------------------------------------------

  lemma ValueTransitive(syn: Syntax, a: Value, b: Value, c: Value)
    requires ValueSatisfies(syn, a, b) && ValueSatisfies(syn, b, c)
    ensures ValueSatisfies(syn, a, c)
  {
    if b.Plain? {
      assert ToFloat(syn, a) == ToFloat(syn, b);
    }
  }

  /** Ceilings compose: passing `b`, which itself passes `c`, is passing `c`. */
  lemma SatisfiesTransitive(syn: Syntax, a: Token, b: Token, c: Token)
    requires Satisfies(syn, a, b) && Satisfies(syn, b, c)
    ensures Satisfies(syn, a, c)
  {
    forall key | key in c.params
      ensures key in a.params && ValueSatisfies(syn, a.params[key], c.params[key])
    {
      ValueTransitive(syn, a.params[key], b.params[key], c.params[key]);
    }
  }

  lemma AllowedTransitive(syn: Syntax, a: Token, b: Token, entries: seq<Token>)
    requires Satisfies(syn, a, b) && Allowed(syn, b, entries)
    ensures Allowed(syn, a, entries)
  {
    var i :| 0 <= i < |entries| && Satisfies(syn, b, entries[i]);
    SatisfiesTransitive(syn, a, b, entries[i]);
  }

  /** A token that a request can literally repeat: no comparator and no NaN among its values. */
  predicate Concrete(t: Token) {
    forall key | key in t.params :: !t.params[key].Comparator? && t.params[key] != Plain(Number(NaN))
  }

  /** A token meets itself as a ceiling exactly when it is concrete. */
  lemma SatisfiesReflexiveExactly(syn: Syntax, t: Token)
    ensures Satisfies(syn, t, t) <==> Concrete(t)
  {
    forall key | key in t.params
      ensures ValueSatisfies(syn, t.params[key], t.params[key]) <==>
              !t.params[key].Comparator? && t.params[key] != Plain(Number(NaN))
    {
      if t.params[key].Comparator? {
        assert ToFloat(syn, t.params[key]) == None;
      }
    }
  }

  // ----- Widening -------------------------------------------------------------------------

  /** The bound `op' d` leaves out no float that the bound `op c` lets through. */
  predicate BoundLooser(op: CompareOp, c: Float, op': CompareOp, d: Float) {
    match (op, op')
    case (EqEq, _) => Holds(op', c, d)
    case (Le, Le) => FloatLe(c, d)
    case (Lt, Lt) => FloatLe(c, d)
    case (Lt, Le) => FloatLe(c, d)
    case (Le, Lt) => FloatLt(c, d)
    case (Ge, Ge) => FloatLe(d, c)
    case (Gt, Gt) => FloatLe(d, c)
    case (Gt, Ge) => FloatLe(d, c)
    case (Ge, Gt) => FloatLt(d, c)
    case _ => false
  }

  /** `w` relaxes the ceiling `v`: the same value, a ceiling that `v` meets, or a looser numeric bound. */
  predicate Relaxes(syn: Syntax, v: Value, w: Value) {
    || v == w
    || ValueSatisfies(syn, v, w)
    || (&& v.Comparator? && w.Comparator?
        && match (ToFloat(syn, Plain(v.ceiling)), ToFloat(syn, Plain(w.ceiling)))
           case (Some(c), Some(d)) => BoundLooser(v.op, c, w.op, d)
           case _ => false)
  }

  /** `wide` drops some parameters of `narrow` and relaxes the others. */
  predicate RelaxesToken(syn: Syntax, narrow: Token, wide: Token) {
    && narrow.namespace == wide.namespace
    && narrow.action == wide.action
    && forall key | key in wide.params ::
         key in narrow.params && Relaxes(syn, narrow.params[key], wide.params[key])
  }

  /** Every entry of `narrow` has a relaxed counterpart in `wide`, which may have further entries. */
  predicate RelaxesPolicy(syn: Syntax, narrow: seq<Token>, wide: seq<Token>) {
    forall i | 0 <= i < |narrow| :: exists j :: 0 <= j < |wide| && RelaxesToken(syn, narrow[i], wide[j])
  }

  /** The semantic order on policies: `wide` allows whatever `narrow` allows. */
  ghost predicate AllowsMore(syn: Syntax, narrow: seq<Token>, wide: seq<Token>) {
    forall t: Token :: Allowed(syn, t, narrow) ==> Allowed(syn, t, wide)
  }

  lemma BoundLooserSound(x: Float, op: CompareOp, c: Float, op': CompareOp, d: Float)
    requires BoundLooser(op, c, op', d) && Holds(op, x, c)
    ensures Holds(op', x, d)
  {}

  lemma RelaxesSound(syn: Syntax, r: Value, v: Value, w: Value)
    requires Relaxes(syn, v, w) && ValueSatisfies(syn, r, v)
    ensures ValueSatisfies(syn, r, w)
  {
    if v == w {
    } else if ValueSatisfies(syn, v, w) {
      ValueTransitive(syn, r, v, w);
    } else {
      var x, c, d := ToFloat(syn, r), ToFloat(syn, Plain(v.ceiling)), ToFloat(syn, Plain(w.ceiling));
      if x.Some? {
        BoundLooserSound(x.value, v.op, c.value, w.op, d.value);
      }
    }
  }

  /** Adding entries, dropping parameters and loosening bounds never disallows anything. */
  lemma RelaxedPolicyAllowsMore(syn: Syntax, narrow: seq<Token>, wide: seq<Token>)
    requires RelaxesPolicy(syn, narrow, wide)
    ensures AllowsMore(syn, narrow, wide)
  {
    forall t: Token | Allowed(syn, t, narrow)
      ensures Allowed(syn, t, wide)
    {
      var i :| 0 <= i < |narrow| && Satisfies(syn, t, narrow[i]);
      var j :| 0 <= j < |wide| && RelaxesToken(syn, narrow[i], wide[j]);
      forall key | key in wide[j].params
        ensures key in t.params && ValueSatisfies(syn, t.params[key], wide[j].params[key])
      {
        RelaxesSound(syn, t.params[key], narrow[i].params[key], wide[j].params[key]);
      }
      assert Satisfies(syn, t, wide[j]);
    }
  }
}
