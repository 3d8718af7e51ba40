/** Which texts are capabilities and what they mean, exactly, in terms of the characters they are
    written with (src/sopvm/capability/token.py). */
module CapabilityLanguage {
  import opened Basics
  import opened Capabilities
  import opened CapabilityText

  // ----- Characters and trimming ----------------------------------------------------------

  // Python's white space, by code point.
  const SPACES := {9, 10, 11, 12, 13, 28, 29, 30, 31, 32, 133, 160, 5760, 8192, 8193, 8194, 8195, 8196, 8197, 8198, 8199,
    8200, 8201, 8202, 8232, 8233, 8239, 8287, 12288}

  /** The character classes by code point: ASCII letters, digits and the underscore; Unicode white space. */
  lemma CharacterClasses(c: char)
    ensures IsIdentStart(c) <==> var n := c as int; 65 <= n < 91 || 97 <= n < 123 || n == 95
    ensures IsIdentPart(c) <==> IsIdentStart(c) || 48 <= c as int < 58
    ensures IsSpace(c) <==> c as int in SPACES
  {}

  lemma {:induction false} TrimLeftSplits(s: string)
    ensures var n := |s| - |TrimLeft(s)|;
            AllSpace(s[..n]) && TrimLeft(s) == s[n..]
  {
    if s != "" && IsSpace(s[0]) {
      TrimLeftSplits(s[1..]);
      var n := |s| - |TrimLeft(s)|;
      assert s[..n] == [s[0]] + s[1..][..n - 1];
    }
  }

  lemma {:induction false} TrimRightSplits(s: string)
    ensures AllSpace(s[|TrimRight(s)|..]) && TrimRight(s) == s[..|TrimRight(s)|]
    ensures TrimRight(s) != "" ==> !IsSpace(TrimRight(s)[|TrimRight(s)| - 1])
  {
    if s != "" && IsSpace(s[|s| - 1]) {
      var n := |TrimRight(s)|;
      TrimRightSplits(s[..|s| - 1]);
      assert s[n..] == s[..|s| - 1][n..] + [s[|s| - 1]];
    }
  }

  predicate Trimmed(t: string) {
    t == "" || (!IsSpace(t[0]) && !IsSpace(t[|t| - 1]))
  }

  /** `strip` takes away the white space at both ends and nothing else. */
  lemma StripExactly(s: string) returns (lead: string, trail: string)
    ensures s == lead + Strip(s) + trail && AllSpace(lead) && AllSpace(trail) && Trimmed(Strip(s))
    ensures Strip(s) == "" <==> AllSpace(s)
  {
    var t := TrimLeft(s);
    TrimLeftSplits(s);
    TrimRightSplits(t);
    lead, trail := s[..|s| - |t|], t[|Strip(s)|..];
    assert s == lead + t && t == Strip(s) + trail;
    if t != "" {
      TrimRightNonBlank(t);
    }
  }

  // ----- Splitting ------------------------------------------------------------------------

  /** A text holds no separator exactly when none of its commas stands at depth 0. */
  lemma {:induction false} NoSeparatorExactly(s: string, depth: int)
    ensures NoSeparator(s, depth) <==> forall i | 0 <= i < |s| && s[i] == ',' :: DepthAfter(s[..i], depth) != 0
    decreases |s|
  {
    if s != "" {
      var d := Deeper(s[0], depth);
      NoSeparatorExactly(s[1..], d);
      forall i | 0 < i < |s|
        ensures s[i] == s[1..][i - 1] && DepthAfter(s[..i], depth) == DepthAfter(s[1..][..i - 1], d)
      {
        assert s[..i][1..] == s[1..][..i - 1];
      }
      assert s[..0] == "";
      if s[0] != ',' || depth != 0 {
        assert forall i | 0 <= i < |s[1..]| && s[1..][i] == ',' :: s[i + 1] == ',';
      }
    }
  }

  /** No part holds a separator, and every part but the last is balanced. */
  predicate Whole(parts: seq<string>) {
    forall i | 0 <= i < |parts| ::
      NoSeparator(parts[i], 0) && (i < |parts| - 1 ==> DepthAfter(parts[i], 0) == 0)
  }

  lemma WholeOfCons(p: string, rest: seq<string>)
    requires OnePart(p) && Whole(rest)
    ensures Whole([p] + rest)
  {
    var parts := [p] + rest;
    forall i | 0 <= i < |parts|
      ensures NoSeparator(parts[i], 0) && (i < |parts| - 1 ==> DepthAfter(parts[i], 0) == 0)
    {
      if i > 0 {
        assert parts[i] == rest[i - 1];
      }
    }
  }

  lemma {:induction false} SeparatorOfMore(s: string, c: char, depth: int)
    requires NoSeparator(s, depth) && !(c == ',' && DepthAfter(s, depth) == 0)
    ensures NoSeparator(s + [c], depth)
    decreases |s|
  {
    if s == "" {
      assert s + [c] == [c] && [c][1..] == "";
    } else {
      assert (s + [c])[1..] == s[1..] + [c];
      SeparatorOfMore(s[1..], c, Deeper(s[0], depth));
    }
  }

  lemma {:induction false} SplitFromIsWhole(s: string, depth: int, current: string)
    requires NoSeparator(current, 0) && DepthAfter(current, 0) == depth
    ensures Whole(SplitFrom(s, depth, current))
    decreases |s|
  {
    if s != "" {
      if s[0] == ',' && depth == 0 {
        SplitFromIsWhole(s[1..], depth, "");
        WholeOfCons(current, SplitFrom(s[1..], depth, ""));
      } else {
        SeparatorOfMore(current, s[0], 0);
        DepthAfterMore(current, s[0], 0);
        SplitFromIsWhole(s[1..], Deeper(s[0], depth), current + [s[0]]);
      }
    }
  }

  /** The splitter cuts at the commas of depth 0 and nowhere else: no part holds one, every part but the last is
      balanced, so that the commas between them are of depth 0, and joining the parts gives the text back
      less one such comma at its end. */
  lemma SplitExactly(s: string)
    ensures var parts := SplitFrom(s, 0, "");
            && Whole(parts) && (parts == [] <==> s == "")
            && Join(parts) == if EndsOnSeparator(s, 0) then s[..|s| - 1] else s
  {
    SplitFromIsWhole(s, 0, "");
    SplitFromEmpty(s, 0, "");
    JoinOfSplit(s);
  }

  // ----- The surface ----------------------------------------------------------------------

  lemma {:induction false} IdentRunIsPart(s: string)
    ensures forall i | 0 <= i < IdentRun(s) :: IsIdentPart(s[i])
  {
    if s != "" && IsIdentPart(s[0]) {
      IdentRunIsPart(s[1..]);
      assert forall i | 1 <= i < |s| :: s[i] == s[1..][i - 1];
    }
  }

  lemma IdentLengthIsIdentifier(s: string)
    requires IdentLength(s) > 0
    ensures IsIdentifier(s[..IdentLength(s)])
  {
    IdentRunIsPart(s);
  }

  /** The text of a capability without the final newline that the grammar lets pass. */
  function Written(ns: string, action: string, inner: Option<string>): string {
    ns + ":" + action + TailText(inner)
  }

  /** `s` is a namespace and an action, both identifiers, and maybe parameters in parentheses on one line. */
  predicate IsWritten(s: string, ns: string, action: string, inner: Option<string>) {
    && IsIdentifier(ns) && IsIdentifier(action) && (inner.Some? ==> '\n' !in inner.value)
    && (s == Written(ns, action, inner) || s == Written(ns, action, inner) + "\n")
  }

  lemma ParamsAreTail(tail: string)
    requires MatchParams(tail).Some?
    ensures tail == TailText(MatchParams(tail).value)
    ensures MatchParams(tail).value.Some? ==> '\n' !in MatchParams(tail).value.value
  {
    if tail != "" {
      assert tail == [tail[0]] + tail[1..|tail| - 1] + [tail[|tail| - 1]];
    }
  }

  lemma HeadIsWritten(body: string)
    requires MatchHead(body).Some?
    ensures var h := MatchHead(body).value;
            && IsIdentifier(h.namespace) && IsIdentifier(h.action) && (h.params.Some? ==> '\n' !in h.params.value)
            && body == Written(h.namespace, h.action, h.params)
  {
    var n := IdentLength(body);
    var rest := body[n + 1..];
    var k := IdentLength(rest);
    IdentLengthIsIdentifier(body);
    IdentLengthIsIdentifier(rest);
    ParamsAreTail(rest[k..]);
    assert body == body[..n] + ":" + rest && rest == rest[..k] + rest[k..];
    ConcatAssociates(body[..n] + ":", rest[..k], rest[k..]);
  }

  lemma WrittenRegroups(ns: string, action: string, tail: string)
    ensures ns + ":" + action + tail == ns + (":" + (action + tail))
  {
    ConcatAssociates(ns, ":", action);
    ConcatAssociates(ns, ":" + action, tail);
    ConcatAssociates(":", action, tail);
  }

  lemma WrittenHasHead(ns: string, action: string, inner: Option<string>)
    requires IsIdentifier(ns) && IsIdentifier(action) && (inner.Some? ==> '\n' !in inner.value)
    ensures MatchHead(Written(ns, action, inner)) == Some(Head(ns, action, inner))
  {
    HeadOfRendered(ns, action, inner);
    WrittenRegroups(ns, action, TailText(inner));
  }

  lemma SurfaceOfLine(body: string)
    ensures Surface(body + "\n") == MatchHead(body)
  {
    assert (body + "\n")[..|body|] == body;
  }

  lemma WrittenIsRead(s: string, ns: string, action: string, inner: Option<string>)
    requires IsWritten(s, ns, action, inner)
    ensures Surface(s) == Some(Head(ns, action, inner))
  {
    if s == Written(ns, action, inner) {
      SurfaceOfRendered(ns, action, inner);
    } else {
      WrittenHasHead(ns, action, inner);
      SurfaceOfLine(Written(ns, action, inner));
    }
  }

  /** The text that is read, which is all but the final newline if there is one. */
  lemma SurfaceBody(s: string) returns (body: string)
    ensures Surface(s) == MatchHead(body) && (s == body || s == body + "\n")
  {
    if s != "" && s[|s| - 1] == '\n' {
      body := s[..|s| - 1];
      assert s == body + "\n";
    } else {
      body := s;
    }
  }

  lemma BodyIsWritten(s: string, body: string, ns: string, action: string, inner: Option<string>)
    requires MatchHead(body) == Some(Head(ns, action, inner)) && (s == body || s == body + "\n")
    ensures IsWritten(s, ns, action, inner)
  {
    HeadIsWritten(body);
  }

  /** The surface grammar, exactly: a text has this form, with these parts, if and only if it is written from
      them, with or without one final newline. */
  lemma SurfaceExactly(s: string, ns: string, action: string, inner: Option<string>)
    ensures Surface(s) == Some(Head(ns, action, inner)) <==> IsWritten(s, ns, action, inner)
  {
    if Surface(s) == Some(Head(ns, action, inner)) {
      var body := SurfaceBody(s);
      BodyIsWritten(s, body, ns, action, inner);
    } else if IsWritten(s, ns, action, inner) {
      WrittenIsRead(s, ns, action, inner);
    }
  }

  /** The texts that the parser's grammar check lets pass. */
  lemma SurfaceTextsExactly(s: string)
    ensures Surface(s).Some? <==> exists ns, action, inner :: IsWritten(s, ns, action, inner)
  {
    if Surface(s).Some? {
      var h := Surface(s).value;
      SurfaceExactly(s, h.namespace, h.action, h.params);
    }
    if ns, action, inner :| IsWritten(s, ns, action, inner) {
      SurfaceExactly(s, ns, action, inner);
    }
  }

  // ----- One parameter --------------------------------------------------------------------

  /** The value in a text after an operator: what is left when it is trimmed, or its last character when
      nothing is. */
  function ValueIn(t: string): string
    requires t != ""
  {
    if AllSpace(t) then t[|t| - 1..] else Strip(t)
  }

  lemma ValueExactly(t: string)
    ensures MatchValue(t) == if t == "" then None else Some(ValueIn(t))
  {
    var lead, trail := StripExactly(t);
  }

  /** A part with a key: white space, the key, white space, a sign, and some text. */
  predicate KeyedAs(part: string, lead: string, key: string, gap: string, sign: string, t: string) {
    AllSpace(lead) && AllSpace(gap) && IsIdentifier(key) && t != "" && part == lead + (key + (gap + (sign + t)))
  }

  ghost predicate Keyed(part: string, key: string, sign: string, t: string) {
    exists lead, gap :: KeyedAs(part, lead, key, gap, sign, t)
  }

  /** A strict comparison or an assignment is not prolonged by an equals sign, unless that is all there is. */
  predicate NotProlonged(t: string) {
    t != "" && (t[0] != '=' || t == "=")
  }

  predicate Strict(op: CompareOp) {
    op == Lt || op == Gt
  }

  ghost predicate ReadsCompare(part: string, key: string, op: CompareOp, t: string) {
    Keyed(part, key, OpText(op), t) && (Strict(op) ==> NotProlonged(t))
  }

  ghost predicate ReadsAssign(part: string, key: string, t: string) {
    Keyed(part, key, "=", t) && NotProlonged(t)
  }

  /** A value that reads as a number is that number, and any other is its own text. */
  predicate Coerced(toFloat: string -> Option<Float>, text: string, c: Scalar) {
    match toFloat(text)
    case Some(f) => c == Number(f)
    case None => c == Text(text)
  }

  lemma LoneEquals()
    ensures ValueIn("=") == "="
  {
    assert !IsSpace('=');
    assert Strip("=") == "=";
  }

  function OpStart(op: CompareOp): char {
    if op == EqEq then '=' else if op == Lt || op == Le then '<' else '>'
  }

  lemma OperatorTexts(op: CompareOp)
    ensures OpText(op) == if Strict(op) then [OpStart(op)] else [OpStart(op), '=']
  {}

  lemma LoneStrictIsRead(op: CompareOp, s: string)
    requires Strict(op) && |s| == 2 && s[0] == OpStart(op) && s[1] == '='
    ensures MatchComparator(s) == Some((op, "="))
  {}

  lemma StrictTextIsRead(op: CompareOp, s: string, t: string)
    requires Strict(op) && t != "" && t[0] != '=' && |s| > 1 && s[0] == OpStart(op) && s[1..] == t
    ensures MatchComparator(s) == WithOp(op, MatchValue(t))
  {
    assert s[1] == t[0];
  }

  lemma StrictIsRead(op: CompareOp, s: string, t: string)
    requires Strict(op) && NotProlonged(t) && s == [OpStart(op)] + t
    ensures MatchComparator(s) == Some((op, ValueIn(t)))
  {
    assert s[1..] == t && s[1] == t[0];
    if t[0] == '=' {
      LoneEquals();
      LoneStrictIsRead(op, s);
    } else {
      StrictTextIsRead(op, s, t);
      ValueExactly(t);
    }
  }

  lemma WeakIsRead(op: CompareOp, s: string, t: string)
    requires !Strict(op) && t != "" && s == [OpStart(op), '='] + t
    ensures MatchComparator(s) == Some((op, ValueIn(t)))
  {
    assert s[2..] == t;
    ValueExactly(t);
  }

  lemma ComparatorIsRead(op: CompareOp, t: string)
    requires t != "" && (Strict(op) ==> NotProlonged(t))
    ensures MatchComparator(OpText(op) + t) == Some((op, ValueIn(t)))
  {
    OperatorTexts(op);
    if Strict(op) {
      StrictIsRead(op, OpText(op) + t, t);
    } else {
      WeakIsRead(op, OpText(op) + t, t);
    }
  }

  lemma StrictWasWritten(rest: string, op: CompareOp, v: string)
    requires MatchComparator(rest) == Some((op, v)) && Strict(op)
    ensures |rest| > 1 && rest[0] == OpStart(op)
    ensures if rest[1] == '=' then |rest| == 2 && v == "=" else MatchValue(rest[1..]) == Some(v)
  {}

  lemma WeakWasWritten(rest: string, op: CompareOp, v: string)
    requires MatchComparator(rest) == Some((op, v)) && !Strict(op)
    ensures |rest| > 2 && rest[0] == OpStart(op) && rest[1] == '=' && v == ValueIn(rest[2..])
  {
    if |rest| > 1 {
      ValueExactly(rest[2..]);
    }
  }

  lemma ComparatorWasWritten(rest: string, op: CompareOp, v: string) returns (t: string)
    requires MatchComparator(rest) == Some((op, v))
    ensures t != "" && rest == OpText(op) + t && (Strict(op) ==> NotProlonged(t)) && v == ValueIn(t)
  {
    OperatorTexts(op);
    if Strict(op) {
      StrictWasWritten(rest, op, v);
      t := rest[1..];
      assert rest == [rest[0]] + t && t[0] == rest[1];
      if t[0] == '=' {
        assert t == "=";
        LoneEquals();
      } else {
        ValueExactly(t);
      }
    } else {
      WeakWasWritten(rest, op, v);
      t := rest[2..];
      assert rest == [rest[0], rest[1]] + t;
    }
  }

  lemma AssignmentIsRead(t: string)
    requires NotProlonged(t)
    ensures MatchComparator("=" + t).None? && MatchAssignment("=" + t) == Some(ValueIn(t))
  {
    var s := "=" + t;
    assert s[1..] == t && s[1] == t[0];
    ValueExactly(t);
  }

  lemma AssignmentWasWritten(rest: string, v: string) returns (t: string)
    requires MatchComparator(rest).None? && MatchAssignment(rest) == Some(v)
    ensures rest == "=" + t && NotProlonged(t) && v == ValueIn(t)
  {
    t := rest[1..];
    assert rest == "=" + t;
    ValueExactly(t);
    if |rest| > 2 && rest[1] == '=' {
      ValueExactly(rest[2..]);
    }
  }

  /** What follows the key of a part, and the key: the reading of any part with one. */
  lemma KeyedIsRead(
      toFloat: string -> Option<Float>, part: string, lead: string, key: string, gap: string, sign: string, t: string)
    requires KeyedAs(part, lead, key, gap, sign, t) && sign != ""
    requires !IsIdentPart(sign[0]) && !IsSpace(sign[0])
    requires RestMeaning(toFloat, sign + t).Some?
    ensures ParseParam(toFloat, part) == Some((key, RestMeaning(toFloat, sign + t).value))
  {
    var rest := sign + t;
    var q := key + (gap + rest);
    TrimLeftSkips(lead, q);
    assert q[0] == key[0] && !IsSpace(q[0]);
    KeyThenRest(q, key, gap, rest);
    KeyedParse(toFloat, part, q, key, rest);
  }

  lemma CoercedIs(toFloat: string -> Option<Float>, text: string)
    ensures Coerced(toFloat, text, Coerce(toFloat, text))
  {}

  /** A part that reads as a comparison is parsed as that comparison. */
  lemma ComparisonIsParsed(toFloat: string -> Option<Float>, part: string, key: string, op: CompareOp, t: string)
    returns (c: Scalar)
    requires ReadsCompare(part, key, op, t)
    ensures ParseParam(toFloat, part) == Some((key, Comparator(op, c))) && Coerced(toFloat, ValueIn(t), c)
  {
    var lead, gap :| KeyedAs(part, lead, key, gap, OpText(op), t);
    c := Coerce(toFloat, ValueIn(t));
    CoercedIs(toFloat, ValueIn(t));
    ComparatorIsRead(op, t);
    SignsAreNoKey(OpText(op));
    KeyedIsRead(toFloat, part, lead, key, gap, OpText(op), t);
  }

  lemma SignsAreNoKey(sign: string)
    requires sign == "=" || exists op :: sign == OpText(op)
    ensures sign != "" && !IsIdentPart(sign[0]) && !IsSpace(sign[0])
  {}

  /** A part that reads as an assignment is parsed as that assignment. */
  lemma AssignmentIsParsed(toFloat: string -> Option<Float>, part: string, key: string, t: string)
    returns (c: Scalar)
    requires ReadsAssign(part, key, t)
    ensures ParseParam(toFloat, part) == Some((key, Plain(c))) && Coerced(toFloat, ValueIn(t), c)
  {
    var lead, gap :| KeyedAs(part, lead, key, gap, "=", t);
    c := Coerce(toFloat, ValueIn(t));
    CoercedIs(toFloat, ValueIn(t));
    AssignmentIsRead(t);
    SignsAreNoKey("=");
    KeyedIsRead(toFloat, part, lead, key, gap, "=", t);
  }

  lemma LeadOf(s: string) returns (lead: string)
    ensures AllSpace(lead) && s == lead + TrimLeft(s)
  {
    TrimLeftSplits(s);
    var n := |s| - |TrimLeft(s)|;
    lead := s[..n];
    assert s == s[..n] + s[n..];
  }

  /** The white space and the key that a part begins with. */
  lemma PartBegins(part: string) returns (lead: string, key: string, gap: string, rest: string)
    requires IdentLength(TrimLeft(part)) > 0
    ensures key == TrimLeft(part)[..IdentLength(TrimLeft(part))] && rest == TrimLeft(TrimLeft(part)[|key|..])
    ensures AllSpace(lead) && AllSpace(gap) && IsIdentifier(key) && part == lead + (key + (gap + rest))
  {
    var p := TrimLeft(part);
    lead := LeadOf(part);
    key := p[..IdentLength(p)];
    gap := LeadOf(p[|key|..]);
    rest := TrimLeft(p[|key|..]);
    IdentLengthIsIdentifier(p);
    assert p == key + p[|key|..];
  }

  lemma ComparisonWasWritten(toFloat: string -> Option<Float>, part: string, key: string, op: CompareOp, c: Scalar)
    returns (t: string)
    requires ParseParam(toFloat, part) == Some((key, Comparator(op, c)))
    ensures ReadsCompare(part, key, op, t) && Coerced(toFloat, ValueIn(t), c)
  {
    var lead, k, gap, rest := PartBegins(part);
    var v := MatchComparator(rest).value.1;
    CoercedIs(toFloat, v);
    t := ComparatorWasWritten(rest, op, v);
    assert KeyedAs(part, lead, key, gap, OpText(op), t);
  }

  lemma AssignmentWasWrittenAs(toFloat: string -> Option<Float>, part: string, key: string, c: Scalar)
    returns (t: string)
    requires ParseParam(toFloat, part) == Some((key, Plain(c)))
    ensures ReadsAssign(part, key, t) && Coerced(toFloat, ValueIn(t), c)
  {
    var lead, k, gap, rest := PartBegins(part);
    var v := MatchAssignment(rest).value;
    CoercedIs(toFloat, v);
    t := AssignmentWasWritten(rest, v);
    assert KeyedAs(part, lead, key, gap, "=", t);
  }

  /** The grammar of one parameter, exactly. A part is a comparison, an assignment or a bare name, in this
      order of precedence, by the signs it is written with; a bare name is the whole part without the white space
      around it; and only a part of white space is refused. */
  lemma ParameterExactly(toFloat: string -> Option<Float>, part: string)
    ensures match ParseParam(toFloat, part)
            case None => AllSpace(part)
            case Some((key, Comparator(op, c))) => exists t :: ReadsCompare(part, key, op, t) && Coerced(toFloat, ValueIn(t), c)
            case Some((key, Plain(c))) => exists t :: ReadsAssign(part, key, t) && Coerced(toFloat, ValueIn(t), c)
            case Some((key, Bare)) =>
              && key == Strip(part) && !AllSpace(part)
              && (forall k, op, t :: !ReadsCompare(part, k, op, t)) && (forall k, t :: !ReadsAssign(part, k, t))
  {
    var lead, trail := StripExactly(part);
    match ParseParam(toFloat, part)
    case None =>
    case Some((key, Comparator(op, c))) =>
      var t := ComparisonWasWritten(toFloat, part, key, op, c);
    case Some((key, Plain(c))) =>
      var t := AssignmentWasWrittenAs(toFloat, part, key, c);
    case Some((key, Bare)) =>
      forall k, op, t
        ensures !ReadsCompare(part, k, op, t)
      {
        if ReadsCompare(part, k, op, t) {
          var c := ComparisonIsParsed(toFloat, part, k, op, t);
        }
      }
      forall k, t
        ensures !ReadsAssign(part, k, t)
      {
        if ReadsAssign(part, k, t) {
          var c := AssignmentIsParsed(toFloat, part, k, t);
        }
      }
  }

  // ----- All parameters, and the whole text -----------------------------------------------

  /** Part `i` is the last that has this key, and gives it this value. */
  predicate LastOf(toFloat: string -> Option<Float>, parts: seq<string>, key: string, i: int, v: Value) {
    && 0 <= i < |parts| && ParseParam(toFloat, parts[i]) == Some((key, v))
    && forall j | i < j < |parts| && ParseParam(toFloat, parts[j]).Some? :: ParseParam(toFloat, parts[j]).value.0 != key
  }

  lemma LastOfRest(toFloat: string -> Option<Float>, parts: seq<string>, key: string, i: int, v: Value)
    requires parts != [] && LastOf(toFloat, parts[1..], key, i, v)
    ensures LastOf(toFloat, parts, key, i + 1, v)
  {
    assert parts[i + 1] == parts[1..][i];
    forall j | i + 1 < j < |parts| && ParseParam(toFloat, parts[j]).Some?
      ensures ParseParam(toFloat, parts[j]).value.0 != key
    {
      assert parts[j] == parts[1..][j - 1];
    }
  }

  /** The parameters are stored from left to right: a key has the value of the last part that names it. */
  lemma {:induction false} LastPartWins(
      toFloat: string -> Option<Float>, parts: seq<string>, acc: map<string, Value>, m: map<string, Value>, key: string)
    returns (i: int)
    requires ParseParams(toFloat, parts, acc) == Some(m)
    ensures if i < 0 then
              && (forall j | 0 <= j < |parts| && ParseParam(toFloat, parts[j]).Some? ::
                    ParseParam(toFloat, parts[j]).value.0 != key)
              && (key in m <==> key in acc) && (key in m ==> m[key] == acc[key])
            else key in m && LastOf(toFloat, parts, key, i, m[key])
    decreases |parts|
  {
    if parts == [] {
      return -1;
    }
    var (k, v) := ParseParam(toFloat, parts[0]).value;
    i := LastPartWins(toFloat, parts[1..], acc[k := v], m, key);
    if i >= 0 {
      LastOfRest(toFloat, parts, key, i, m[key]);
      i := i + 1;
    } else {
      assert forall j | 1 <= j < |parts| :: parts[j] == parts[1..][j - 1];
      if k == key {
        i := 0;
      }
    }
  }

  /** The parameters that a text in parentheses gives: none if it is blank, and otherwise, for each key that a
      part names, the value in the last part that names it. */
  ghost predicate ParamsOf(toFloat: string -> Option<Float>, inner: Option<string>, m: map<string, Value>) {
    if inner.None? || AllSpace(inner.value) then m == map[]
    else
      var parts := SplitFrom(inner.value, 0, "");
      && (forall i | 0 <= i < |parts| ::
            ParseParam(toFloat, parts[i]).Some? && ParseParam(toFloat, parts[i]).value.0 in m)
      && (forall key | key in m :: exists i :: LastOf(toFloat, parts, key, i, m[key]))
  }

  lemma StoredParams(toFloat: string -> Option<Float>, parts: seq<string>, m: map<string, Value>)
    requires ParseParams(toFloat, parts, map[]) == Some(m)
    ensures forall i | 0 <= i < |parts| ::
              ParseParam(toFloat, parts[i]).Some? && ParseParam(toFloat, parts[i]).value.0 in m
    ensures forall key | key in m :: exists i :: LastOf(toFloat, parts, key, i, m[key])
  {
    ParseParamsFailsExactly(toFloat, parts, map[]);
    forall i | 0 <= i < |parts|
      ensures ParseParam(toFloat, parts[i]).Some? && ParseParam(toFloat, parts[i]).value.0 in m
    {
      BlankPartExactly(toFloat, parts[i]);
      var j := LastPartWins(toFloat, parts, map[], m, ParseParam(toFloat, parts[i]).value.0);
    }
    forall key | key in m
      ensures exists i :: LastOf(toFloat, parts, key, i, m[key])
    {
      var i := LastPartWins(toFloat, parts, map[], m, key);
    }
  }

  /** Some part between the separators is blank. */
  predicate BlankPart(inner: string) {
    !AllSpace(inner) && exists i :: 0 <= i < |SplitFrom(inner, 0, "")| && AllSpace(SplitFrom(inner, 0, "")[i])
  }

  lemma BlankPartsExactly(inner: string)
    ensures BlankPart(inner) <==> Strip(inner) != "" && HasBlank(SplitFrom(inner, 0, ""))
  {
    var lead, trail := StripExactly(inner);
    forall i | 0 <= i < |SplitFrom(inner, 0, "")|
      ensures Strip(SplitFrom(inner, 0, "")[i]) == "" <==> AllSpace(SplitFrom(inner, 0, "")[i])
    {
      var l, t := StripExactly(SplitFrom(inner, 0, "")[i]);
    }
  }

  lemma WrittenCapabilityExactly(toFloat: string -> Option<Float>, s: string, ns: string, action: string, inner: Option<string>)
    requires Surface(s) == Some(Head(ns, action, inner))
    ensures if inner.Some? && BlankPart(inner.value) then ParseCapability(toFloat, s) == Err(EmptyParameter(s))
            else exists m :: ParamsOf(toFloat, inner, m) && ParseCapability(toFloat, s) == Ok(Token(ns, action, m, s))
  {
    if inner.None? {
      assert ParamsOf(toFloat, inner, map[]);
    } else {
      BlankPartsExactly(inner.value);
      var lead, trail := StripExactly(inner.value);
      if AllSpace(inner.value) {
        assert ParamsOf(toFloat, inner, map[]);
      } else {
        var parts := SplitFrom(inner.value, 0, "");
        ParseParamsFailsExactly(toFloat, parts, map[]);
        if !HasBlank(parts) {
          var m := ParseParams(toFloat, parts, map[]).value;
          StoredParams(toFloat, parts, m);
          assert ParamsOf(toFloat, inner, m);
        }
      }
    }
  }

  /** `parse_capability`, exactly. A text that is written from a namespace, an action and maybe parameters gives
      the token of these, with the text itself kept, unless a part between its separators is blank; and every
      other text is malformed. */
  lemma CapabilityExactly(toFloat: string -> Option<Float>, s: string)
    ensures match ParseCapability(toFloat, s)
            case Ok(t) =>
              t.raw == s && exists inner :: IsWritten(s, t.namespace, t.action, inner) && ParamsOf(toFloat, inner, t.params)
            case Err(EmptyParameter(raw)) =>
              raw == s && exists ns, action, inner :: IsWritten(s, ns, action, Some(inner)) && BlankPart(inner)
            case Err(Malformed(raw)) =>
              raw == s && forall ns, action, inner :: !IsWritten(s, ns, action, inner)
  {
    match Surface(s)
    case None =>
      forall ns, action, inner
        ensures !IsWritten(s, ns, action, inner)
      {
        SurfaceExactly(s, ns, action, inner);
      }
    case Some(Head(ns, action, inner)) =>
      SurfaceExactly(s, ns, action, inner);
      WrittenCapabilityExactly(toFloat, s, ns, action, inner);
  }
}
