/** The textual form of capabilities: the depth-aware splitter and the token parser
    (src/sopvm/capability/token.py). The module's regular expressions are written out as
    recursive matchers with the same matches, backtracking included. */
module CapabilityText {
  import opened Basics
  import opened Capabilities

  // ----- Characters and trimming ----------------------------------------------------------

  predicate IsIdentStart(c: char) {
    'a' <= c <= 'z' || 'A' <= c <= 'Z' || c == '_'
  }

  predicate IsIdentPart(c: char) {
    IsIdentStart(c) || '0' <= c <= '9'
  }

  /** Python's `str.isspace`, which `\s` and `str.strip` share. */
  predicate IsSpace(c: char) {
    || c == ' ' || '\t' <= c <= '\r' || '\U{1C}' <= c <= '\U{1F}' || c == '\U{85}' || c == '\U{A0}'
    || c == '\U{1680}' || '\U{2000}' <= c <= '\U{200A}' || c == '\U{2028}' || c == '\U{2029}'
    || c == '\U{202F}' || c == '\U{205F}' || c == '\U{3000}'
  }

  predicate IsIdentifier(s: string) {
    s != "" && IsIdentStart(s[0]) && forall i | 0 <= i < |s| :: IsIdentPart(s[i])
  }

  function IdentRun(s: string): (n: nat)
    ensures n <= |s|
  {
    if s != "" && IsIdentPart(s[0]) then 1 + IdentRun(s[1..]) else 0
  }

  /** The length of the identifier that `s` begins with; 0 when there is none. */
  function IdentLength(s: string): (n: nat)
    ensures n <= |s|
  {
    if s != "" && IsIdentStart(s[0]) then IdentRun(s) else 0
  }

  function TrimLeft(s: string): (t: string)
    ensures |t| <= |s|
    ensures t != "" ==> !IsSpace(t[0])
  {
    if s != "" && IsSpace(s[0]) then TrimLeft(s[1..]) else s
  }

  function TrimRight(s: string): (t: string)
    ensures |t| <= |s|
  {
    if s != "" && IsSpace(s[|s| - 1]) then TrimRight(s[..|s| - 1]) else s
  }

  function Strip(s: string): string {
    TrimRight(TrimLeft(s))
  }

  // ----- Splitting ------------------------------------------------------------------------

  /** The nesting depth after reading `c`; unmatched closers take it below zero. */
  function Deeper(c: char, depth: int): int {
    if c == '(' then depth + 1 else if c == ')' then depth - 1 else depth
  }

  function DepthAfter(s: string, depth: int): int {
    if s == "" then depth else DepthAfter(s[1..], Deeper(s[0], depth))
  }

  lemma {:induction false} DepthAfterMore(s: string, c: char, depth: int)
    ensures DepthAfter(s + [c], depth) == Deeper(c, DepthAfter(s, depth))
    decreases |s|
  {
    if s == "" {
      assert s + [c] == [c] && [c][1..] == "";
    } else {
      assert (s + [c])[1..] == s[1..] + [c];
      DepthAfterMore(s[1..], c, Deeper(s[0], depth));
    }
  }

  /** The depth is the number of openers less the number of closers, in whatever order they stand. */
  lemma {:induction false} DepthCountsParentheses(s: string, depth: int)
    ensures DepthAfter(s, depth) == depth + Count(s, '(') - Count(s, ')')
  {
    if s != "" {
      var front, last := s[..|s| - 1], s[|s| - 1];
      assert s == front + [last];
      DepthAfterMore(front, last, depth);
      DepthCountsParentheses(front, depth);
    }
  }

  function SplitFrom(s: string, depth: int, current: string): seq<string> {
    if s == "" then
      if current == "" then [] else [current]
    else if s[0] == ',' && depth == 0 then
      [current] + SplitFrom(s[1..], depth, "")
    else
      SplitFrom(s[1..], Deeper(s[0], depth), current + [s[0]])
  }

  method SplitParams(s: string) returns (parts: seq<string>)
    ensures parts == SplitFrom(s, 0, "")
  {
    parts := [];
    var depth := 0;
    var current := "";
    for i := 0 to |s|
      invariant parts + SplitFrom(s[i..], depth, current) == SplitFrom(s, 0, "")
    {
      var ch := s[i];
      assert s[i..][1..] == s[i + 1..];
      if ch == '(' {
        depth := depth + 1;
        current := current + [ch];
      } else if ch == ')' {
        depth := depth - 1;
        current := current + [ch];
      } else if ch == ',' && depth == 0 {
        parts := parts + [current];
        current := "";
      } else {
        current := current + [ch];
      }
    }
    if current != "" {
      parts := parts + [current];
    }
  }

  function Join(parts: seq<string>): string {
    if parts == [] then "" else if |parts| == 1 then parts[0] else parts[0] + "," + Join(parts[1..])
  }

  /** Whether reading `s` from `depth` ends on a separator, whose empty last part the splitter drops. */
  predicate EndsOnSeparator(s: string, depth: int) {
    s != "" && s[|s| - 1] == ',' && DepthAfter(s[..|s| - 1], depth) == 0
  }

  /** The text without a final separator. */
  function Kept(s: string, depth: int): string {
    if s == "" || (|s| == 1 && s[0] == ',' && depth == 0) then ""
    else [s[0]] + Kept(s[1..], Deeper(s[0], depth))
  }

  lemma {:induction false} KeptDropsSeparator(s: string, depth: int)
    ensures Kept(s, depth) == if EndsOnSeparator(s, depth) then s[..|s| - 1] else s
  {
    if |s| == 1 {
      assert s[..0] == "" && s[1..] == "";
    } else if |s| > 1 {
      KeptDropsSeparator(s[1..], Deeper(s[0], depth));
      assert s[..|s| - 1][1..] == s[1..][..|s[1..]| - 1];
    }
  }

  lemma {:induction false} SplitFromEmpty(s: string, depth: int, current: string)
    ensures SplitFrom(s, depth, current) == [] <==> s == "" && current == ""
    decreases |s|
  {
    if s != "" && !(s[0] == ',' && depth == 0) {
      SplitFromEmpty(s[1..], Deeper(s[0], depth), current + [s[0]]);
    }
  }

  lemma JoinOfCons(p: string, rest: seq<string>)
    ensures Join([p] + rest) == if rest == [] then p else p + "," + Join(rest)
  {
    assert ([p] + rest)[1..] == rest;
  }

  lemma {:induction false} JoinOfSplitFrom(s: string, depth: int, current: string)
    ensures Join(SplitFrom(s, depth, current)) == current + Kept(s, depth)
    decreases |s|
  {
    if s == "" {
      assert current + "" == current;
    } else {
      var tail := s[1..];
      if s[0] == ',' && depth == 0 {
        JoinOfCons(current, SplitFrom(tail, 0, ""));
        SplitFromEmpty(tail, 0, "");
        JoinOfSplitFrom(tail, 0, "");
        assert "" + Kept(tail, 0) == Kept(tail, 0) && current + "" == current;
        assert current + "," + Kept(tail, 0) == current + ("," + Kept(tail, 0));
      } else {
        JoinOfSplitFrom(tail, Deeper(s[0], depth), current + [s[0]]);
        var k := Kept(tail, Deeper(s[0], depth));
        assert current + [s[0]] + k == current + ([s[0]] + k);
      }
    }
  }

  /** Joining the split parts gives the text back, up to one trailing separator. */
  lemma JoinOfSplit(s: string)
    ensures Join(SplitFrom(s, 0, "")) == if EndsOnSeparator(s, 0) then s[..|s| - 1] else s
  {
    JoinOfSplitFrom(s, 0, "");
    KeptDropsSeparator(s, 0);
    assert "" + Kept(s, 0) == Kept(s, 0);
  }

  /** No comma of `s`, read from `depth`, separates parameters. */
  predicate NoSeparator(s: string, depth: int) {
    s == "" || (!(s[0] == ',' && depth == 0) && NoSeparator(s[1..], Deeper(s[0], depth)))
  }

  /** One part: balanced overall, and whole to the splitter. */
  predicate OnePart(s: string) {
    NoSeparator(s, 0) && DepthAfter(s, 0) == 0
  }

  lemma {:induction false} SplitSkipsPart(p: string, rest: string, depth: int, current: string)
    requires NoSeparator(p, depth)
    ensures SplitFrom(p + rest, depth, current) == SplitFrom(rest, DepthAfter(p, depth), current + p)
    decreases |p|
  {
    if p == "" {
      assert p + rest == rest && current + p == current;
    } else {
      assert (p + rest)[1..] == p[1..] + rest;
      SplitSkipsPart(p[1..], rest, Deeper(p[0], depth), current + [p[0]]);
      assert current + [p[0]] + p[1..] == current + p;
    }
  }

  lemma SplitAfterPart(p: string, tail: string)
    requires OnePart(p)
    ensures SplitFrom(p + "," + tail, 0, "") == [p] + SplitFrom(tail, 0, "")
  {
    SplitSkipsPart(p, "," + tail, 0, "");
    assert p + "," + tail == p + ("," + tail) && "" + p == p;
    assert ("," + tail)[1..] == tail;
  }

  lemma SplitOfOnePart(p: string)
    requires OnePart(p) && p != ""
    ensures SplitFrom(p, 0, "") == [p]
  {
    SplitSkipsPart(p, "", 0, "");
    assert p + "" == p && "" + p == p;
  }

  /** Splitting undoes joining whenever each part is whole and the last one is not empty. */
  lemma {:induction false} SplitOfJoin(parts: seq<string>)
    requires forall p | p in parts :: OnePart(p)
    requires parts != [] ==> parts[|parts| - 1] != ""
    ensures SplitFrom(Join(parts), 0, "") == parts
  {
    if parts != [] {
      assert parts[0] in parts;
      if |parts| == 1 {
        SplitOfOnePart(parts[0]);
      } else {
        SplitOfJoin(parts[1..]);
        SplitAfterPart(parts[0], Join(parts[1..]));
        assert parts == [parts[0]] + parts[1..];
      }
    }
  }

  // ----- Parsing one parameter ------------------------------------------------------------

  /** `_coerce_value`. */
  function Coerce(toFloat: string -> Option<Float>, raw: string): Scalar {
    match toFloat(raw)
    case Some(f) => Number(f)
    case None => Text(raw)
  }

  /** `\s*(?P<value>.+?)\s*$`: the stripped text, or the last character of an all-blank text. */
  function MatchValue(s: string): Option<string> {
    if s == "" then None
    else if Strip(s) == "" then Some(s[|s| - 1..])
    else Some(Strip(s))
  }

  /** The operator and value of a comparator; `k<=` with nothing after it reads as `k < "="`. */
  function MatchComparator(s: string): Option<(CompareOp, string)> {
    if s == "" then None
    else if s[0] == '<' || s[0] == '>' then
      var (strict, weak) := if s[0] == '<' then (Lt, Le) else (Gt, Ge);
      if |s| == 1 || s[1] != '=' then WithOp(strict, MatchValue(s[1..]))
      else if |s| == 2 then Some((strict, "="))
      else WithOp(weak, MatchValue(s[2..]))
    else if s[0] == '=' && |s| > 1 && s[1] == '=' then
      WithOp(EqEq, MatchValue(s[2..]))
    else
      None
  }

  function WithOp(op: CompareOp, value: Option<string>): Option<(CompareOp, string)> {
    if value.Some? then Some((op, value.value)) else None
  }

  function MatchAssignment(s: string): Option<string> {
    if s != "" && s[0] == '=' then MatchValue(s[1..]) else None
  }

  /** One parameter part: comparator first, then assignment, then bare; `None` when it is blank. */
  function ParseParam(toFloat: string -> Option<Float>, part: string): Option<(string, Value)> {
    var p := TrimLeft(part);
    var n := IdentLength(p);
    var rest := TrimLeft(p[n..]);
    if n > 0 && MatchComparator(rest).Some? then
      var (op, text) := MatchComparator(rest).value;
      Some((p[..n], Comparator(op, Coerce(toFloat, text))))
    else if n > 0 && MatchAssignment(rest).Some? then
      Some((p[..n], Plain(Coerce(toFloat, MatchAssignment(rest).value))))
    else if Strip(part) != "" then
      Some((Strip(part), Bare))
    else
      None
  }

  // ----- Parsing a capability -------------------------------------------------------------

  datatype Head = Head(namespace: string, action: string, params: Option<string>)

  /** What may follow the action: nothing, or parameters in parentheses on one line. */
  function MatchParams(tail: string): Option<Option<string>> {
    if tail == "" then Some(None)
    else if |tail| >= 2 && tail[0] == '(' && tail[|tail| - 1] == ')' && '\n' !in tail then
      Some(Some(tail[1..|tail| - 1]))
    else None
  }

  function MatchAction(ns: string, rest: string): Option<Head> {
    var n := IdentLength(rest);
    if n > 0 && MatchParams(rest[n..]).Some? then Some(Head(ns, rest[..n], MatchParams(rest[n..]).value)) else None
  }

  /** `_CAP_RE` on the text before an optional final newline, which its `$` skips. */
  function MatchHead(body: string): Option<Head> {
    var n := IdentLength(body);
    if 0 < n < |body| && body[n] == ':' then MatchAction(body[..n], body[n + 1..]) else None
  }

  function Surface(s: string): Option<Head> {
    MatchHead(if s != "" && s[|s| - 1] == '\n' then s[..|s| - 1] else s)
  }

  /** Stores the parameters left to right, so a repeated key keeps its last value; `None` on a blank part. */
  function ParseParams(toFloat: string -> Option<Float>, parts: seq<string>, params: map<string, Value>)
    : Option<map<string, Value>>
  {
    if parts == [] then Some(params) else
    match ParseParam(toFloat, parts[0])
    case None => None
    case Some((key, value)) => ParseParams(toFloat, parts[1..], params[key := value])
  }

  /** `parse_capability`. */
  function ParseCapability(toFloat: string -> Option<Float>, s: string): Result<Token, GrammarError> {
    match Surface(s)
    case None => Err(Malformed(s))
    case Some(Head(ns, action, params)) =>
      if params.None? || Strip(params.value) == "" then
        Ok(Token(ns, action, map[], s))
      else
        match ParseParams(toFloat, SplitFrom(params.value, 0, ""), map[])
        case None => Err(EmptyParameter(s))
        case Some(values) => Ok(Token(ns, action, values, s))
  }

  method Parse(toFloat: string -> Option<Float>, s: string) returns (r: Result<Token, GrammarError>)
    ensures r == ParseCapability(toFloat, s)
  {
    var head := Surface(s);
    if head.None? {
      return Err(Malformed(s));
    }
    var params: map<string, Value> := map[];
    if head.value.params.Some? && Strip(head.value.params.value) != "" {
      var parts := SplitParams(head.value.params.value);
      for i := 0 to |parts|
        invariant ParseParams(toFloat, parts, map[]) == ParseParams(toFloat, parts[i..], params)
      {
        assert parts[i..][1..] == parts[i + 1..];
        var parsed := ParseParam(toFloat, parts[i]);
        if parsed.None? {
          return Err(EmptyParameter(s));
        }
        params := params[parsed.value.0 := parsed.value.1];
      }
    }
    return Ok(Token(head.value.namespace, head.value.action, params, s));
  }

  function StandardSyntax(toFloat: string -> Option<Float>): Syntax {
    Syntax(s => ParseCapability(toFloat, s), toFloat)
  }

  // ----- Which texts are capabilities -----------------------------------------------------

  predicate HasBlank(parts: seq<string>) {
    exists i :: 0 <= i < |parts| && Strip(parts[i]) == ""
  }

  lemma {:induction false} ParseParamsFailsExactly(
      toFloat: string -> Option<Float>, parts: seq<string>, params: map<string, Value>)
    ensures ParseParams(toFloat, parts, params).None? <==> HasBlank(parts)
    decreases |parts|
  {
    if parts != [] {
      BlankPartExactly(toFloat, parts[0]);
      match ParseParam(toFloat, parts[0])
      case None =>
      case Some((key, value)) =>
        ParseParamsFailsExactly(toFloat, parts[1..], params[key := value]);
        assert forall i | 1 <= i < |parts| :: parts[i] == parts[1..][i - 1];
    }
  }

  lemma {:induction false} TrimRightNonBlank(s: string)
    requires s != "" && !IsSpace(s[0])
    ensures TrimRight(s) != "" && TrimRight(s)[0] == s[0]
  {
    if IsSpace(s[|s| - 1]) {
      TrimRightNonBlank(s[..|s| - 1]);
    }
  }

  lemma BlankPartExactly(toFloat: string -> Option<Float>, part: string)
    ensures ParseParam(toFloat, part).None? <==> Strip(part) == ""
  {
    if TrimLeft(part) != "" {
      TrimRightNonBlank(TrimLeft(part));
    }
  }

  /** A part between the separators is blank, though the parameters as a whole are not. */
  predicate HasBlankParameter(s: string) {
    match Surface(s)
    case Some(Head(_, _, Some(params))) => Strip(params) != "" && HasBlank(SplitFrom(params, 0, ""))
    case _ => false
  }

  /** The parser's grammar check looks at the surface only; `parse_capability` also refuses a blank
      parameter. A text passes the one and fails the other exactly then. */
  lemma ParseFailsExactly(toFloat: string -> Option<Float>, s: string)
    ensures ParseCapability(toFloat, s).Err? <==> Surface(s).None? || HasBlankParameter(s)
  {
    if Surface(s).Some? && Surface(s).value.params.Some? {
      ParseParamsFailsExactly(toFloat, SplitFrom(Surface(s).value.params.value, 0, ""), map[]);
    }
  }

  /** A document may declare `db:r(,)`: the surface check accepts it and the token parser does not. */
  lemma SurfaceAcceptsBlankParameter(toFloat: string -> Option<Float>)
    ensures Surface("db:r(,)") == Some(Head("db", "r", Some(",")))
    ensures ParseCapability(toFloat, "db:r(,)") == Err(EmptyParameter("db:r(,)"))
  {
    OneLetterHead();
    SurfaceWithoutNewline("db:r(,)");
    LoneSeparator(toFloat);
  }

  lemma LoneSeparator(toFloat: string -> Option<Float>)
    ensures Strip(",") != ""
    ensures ParseParams(toFloat, SplitFrom(",", 0, ""), map[]).None?
  {
    assert SplitFrom(",", 0, "") == [""] by {
      assert ","[1..] == "" && SplitFrom("", 0, "") == [];
    }
    assert Strip(",") == ",";
    BlankPartExactly(toFloat, "");
  }

  lemma OneLetterHead()
    ensures MatchHead("db:r(,)") == Some(Head("db", "r", Some(",")))
  {
    HeadOfRendered("db", "r", Some(","));
    assert "db:r(,)" == "db" + (":" + ("r" + TailText(Some(","))));
  }

  // ----- Rendering and the round trip -----------------------------------------------------

  /** The blanks around a written parameter and around its operator. */
  datatype Layout = Layout(lead: string, gap: string, pad: string, trail: string)
  {
    predicate Blank() {
      IsBlank(lead) && IsBlank(gap) && IsBlank(pad) && IsBlank(trail)
    }
  }

  predicate AllSpace(s: string) {
    forall i | 0 <= i < |s| :: IsSpace(s[i])
  }

  predicate IsBlank(s: string) {
    AllSpace(s) && '\n' !in s
  }

  /** One written parameter, laid out as its author pleased. */
  datatype ParamText =
    | BareText(layout: Layout, name: string)
    | AssignText(layout: Layout, key: string, text: string)
    | CompareText(layout: Layout, key: string, op: CompareOp, text: string)
  {
    function Key(): string {
      if BareText? then name else key
    }

    function Operator(): string
      requires !BareText?
    {
      if AssignText? then "=" else OpText(op)
    }

    /** What stands before the value or the bare name. */
    function Prefix(): string {
      if BareText? then layout.lead else layout.lead + key + layout.gap + Operator() + layout.pad
    }

    function Body(): string {
      if BareText? then name else text
    }

    function Render(): string {
      Prefix() + Body() + layout.trail
    }

    function Meaning(toFloat: string -> Option<Float>): Value {
      match this
      case BareText(_, _) => Bare
      case AssignText(_, _, t) => Plain(Coerce(toFloat, t))
      case CompareText(_, _, op, t) => Comparator(op, Coerce(toFloat, t))
    }

    /** Keys are identifiers; texts are trimmed, hold no separator and do not prolong the operator;
        a bare name has no operator character. */
    predicate Writable() {
      && layout.Blank()
      && CleanText(Body())
      && if BareText? then forall c | c in name :: c != '<' && c != '>' && c != '='
         else IsIdentifier(key) && text[0] != '='
    }
  }

  predicate CleanText(t: string) {
    t != "" && !IsSpace(t[0]) && !IsSpace(t[|t| - 1]) && OnePart(t) && '\n' !in t
  }

  function OpText(op: CompareOp): string {
    match op
    case Le => "<="
    case Ge => ">="
    case Lt => "<"
    case Gt => ">"
    case EqEq => "=="
  }

  function RenderEach(params: seq<ParamText>): (parts: seq<string>)
    ensures |parts| == |params| && forall i | 0 <= i < |params| :: parts[i] == params[i].Render()
  {
    seq(|params|, i requires 0 <= i < |params| => params[i].Render())
  }

  function RenderCapability(ns: string, action: string, params: seq<ParamText>): string {
    ns + ":" + action + if params == [] then "" else "(" + Join(RenderEach(params)) + ")"
  }

  function Meanings(toFloat: string -> Option<Float>, params: seq<ParamText>, acc: map<string, Value>): map<string, Value> {
    if params == [] then acc
    else Meanings(toFloat, params[1..], acc[params[0].Key() := params[0].Meaning(toFloat)])
  }

  lemma {:induction false} IdentRunOfPrefix(id: string, rest: string)
    requires forall i | 0 <= i < |id| :: IsIdentPart(id[i])
    requires rest == "" || !IsIdentPart(rest[0])
    ensures IdentRun(id + rest) == |id|
  {
    if id == "" {
      assert id + rest == rest;
    } else {
      assert (id + rest)[1..] == id[1..] + rest;
      IdentRunOfPrefix(id[1..], rest);
    }
  }

  lemma IdentLengthOfPrefix(id: string, rest: string)
    requires IsIdentifier(id)
    requires rest == "" || !IsIdentPart(rest[0])
    ensures IdentLength(id + rest) == |id|
  {
    IdentRunOfPrefix(id, rest);
  }

  predicate IsFlat(s: string) {
    forall i | 0 <= i < |s| :: s[i] != '(' && s[i] != ')' && s[i] != ',' && s[i] != '\n'
  }

  /** A prefix without parentheses and commas splits nothing and leaves the depth alone. */
  lemma {:induction false} FlatPrefix(prefix: string, rest: string, depth: int)
    requires IsFlat(prefix)
    ensures NoSeparator(prefix + rest, depth) == NoSeparator(rest, depth)
    ensures DepthAfter(prefix + rest, depth) == DepthAfter(rest, depth)
  {
    if prefix == "" {
      assert prefix + rest == rest;
    } else {
      assert (prefix + rest)[1..] == prefix[1..] + rest;
      FlatPrefix(prefix[1..], rest, depth);
    }
  }

  lemma {:induction false} FlatSuffix(s: string, suffix: string, depth: int)
    requires IsFlat(suffix) && NoSeparator(s, depth)
    ensures NoSeparator(s + suffix, depth)
    ensures DepthAfter(s + suffix, depth) == DepthAfter(s, depth)
    decreases |s|
  {
    if s == "" {
      assert s + suffix == suffix + "";
      FlatPrefix(suffix, "", depth);
    } else {
      assert (s + suffix)[1..] == s[1..] + suffix;
      FlatSuffix(s[1..], suffix, Deeper(s[0], depth));
    }
  }

  lemma {:induction false} TrimLeftSkips(blank: string, s: string)
    requires AllSpace(blank)
    ensures TrimLeft(blank + s) == TrimLeft(s)
  {
    if blank == "" {
      assert blank + s == s;
    } else {
      assert (blank + s)[1..] == blank[1..] + s;
      TrimLeftSkips(blank[1..], s);
    }
  }

  lemma {:induction false} TrimRightSkips(s: string, blank: string)
    requires AllSpace(blank)
    ensures TrimRight(s + blank) == TrimRight(s)
  {
    if blank == "" {
      assert s + blank == s;
    } else {
      var n := |blank| - 1;
      assert (s + blank)[..|s| + n] == s + blank[..n];
      TrimRightSkips(s, blank[..n]);
    }
  }

  lemma TrimmedText(lead: string, t: string, trail: string)
    requires IsBlank(lead) && IsBlank(trail) && CleanText(t)
    ensures Strip(lead + t + trail) == t && TrimLeft(lead + t + trail) == t + trail
  {
    assert lead + t + trail == lead + (t + trail);
    TrimLeftSkips(lead, t + trail);
    TrimRightSkips(t, trail);
  }

  lemma ValueReadsBack(pad: string, t: string, trail: string)
    requires IsBlank(pad) && IsBlank(trail) && CleanText(t)
    ensures MatchValue(pad + t + trail) == Some(t)
  {
    TrimmedText(pad, t, trail);
  }

  lemma ComparatorReadsBack(op: CompareOp, value: string, t: string)
    requires value != "" && value[0] != '=' && MatchValue(value) == Some(t)
    ensures MatchComparator(OpText(op) + value) == Some((op, t))
  {
    var s := OpText(op) + value;
    assert s[|OpText(op)|..] == value;
    assert s[0] == OpText(op)[0];
    assert s[1] == if op.Lt? || op.Gt? then value[0] else '=';
  }

  lemma AssignmentReadsBack(value: string, t: string)
    requires value != "" && value[0] != '=' && MatchValue(value) == Some(t)
    ensures MatchComparator("=" + value).None? && MatchAssignment("=" + value) == Some(t)
  {
    var s := "=" + value;
    assert s[1..] == value && s[1] == value[0];
  }

  lemma PrefixIsFlat(p: ParamText)
    requires p.Writable()
    ensures IsFlat(p.Prefix())
  {
    var prefix := p.Prefix();
    forall i | 0 <= i < |prefix|
      ensures prefix[i] != '(' && prefix[i] != ')' && prefix[i] != ',' && prefix[i] != '\n'
    {
      assert prefix[i] in p.layout.lead || (!p.BareText? &&
        (prefix[i] in p.key || prefix[i] in p.layout.gap || prefix[i] in p.Operator() || prefix[i] in p.layout.pad));
    }
  }

  lemma RenderedParamIsOnePart(p: ParamText)
    requires p.Writable()
    ensures OnePart(p.Render()) && '\n' !in p.Render() && p.Render() != ""
  {
    PrefixIsFlat(p);
    FlatPrefix(p.Prefix(), p.Body(), 0);
    assert IsFlat(p.layout.trail);
    FlatSuffix(p.Prefix() + p.Body(), p.layout.trail, 0);
  }

  function ValueText(p: ParamText): string
    requires !p.BareText?
  {
    p.layout.pad + p.text + p.layout.trail
  }

  /** A keyed parameter from its operator on. */
  function OperatorText(p: ParamText): string
    requires !p.BareText?
  {
    p.Operator() + ValueText(p)
  }

  /** What follows the lead of a written parameter begins with the key or the bare name. */
  function AfterLead(p: ParamText): string {
    if p.BareText? then p.name + p.layout.trail else p.key + (p.layout.gap + OperatorText(p))
  }

  lemma Regroup(a: string, b: string, c: string, d: string, e: string)
    ensures a + b + c + d + e == a + (b + (c + (d + e)))
  {
    ConcatAssociates(a + b + c, d, e);
    ConcatAssociates(a + b, c, d + e);
    ConcatAssociates(a, b, c + (d + e));
  }

  lemma RenderIsLeadAndRest(p: ParamText)
    requires p.Writable()
    ensures p.Render() == p.layout.lead + AfterLead(p)
    ensures AfterLead(p) != "" && !IsSpace(AfterLead(p)[0])
    ensures TrimLeft(p.Render()) == AfterLead(p)
  {
    var l := p.layout;
    if p.BareText? {
      assert l.lead + p.name + l.trail == l.lead + (p.name + l.trail);
    } else {
      var head := l.lead + p.key + l.gap + p.Operator();
      assert head + l.pad + p.text + l.trail == head + ValueText(p);
      Regroup(l.lead, p.key, l.gap, p.Operator(), ValueText(p));
      assert AfterLead(p)[0] == p.key[0];
    }
    TrimLeftSkips(l.lead, AfterLead(p));
  }

  lemma ValueTextReadsBack(p: ParamText)
    requires p.Writable() && !p.BareText?
    ensures ValueText(p) != "" && ValueText(p)[0] != '=' && MatchValue(ValueText(p)) == Some(p.text)
  {
    ValueReadsBack(p.layout.pad, p.text, p.layout.trail);
    assert ValueText(p)[0] == if p.layout.pad == "" then p.text[0] else p.layout.pad[0];
  }

  lemma KeyThenRest(q: string, key: string, gap: string, rest: string)
    requires IsIdentifier(key) && AllSpace(gap) && q == key + (gap + rest)
    requires rest != "" && !IsIdentPart(rest[0]) && !IsSpace(rest[0])
    ensures IdentLength(q) == |key| && q[..|key|] == key && TrimLeft(q[|key|..]) == rest
  {
    IdentLengthOfPrefix(key, gap + rest);
    assert q[|key|..] == gap + rest;
    TrimLeftSkips(gap, rest);
  }

  /** What the rest of a part after its key means. */
  function RestMeaning(toFloat: string -> Option<Float>, rest: string): Option<Value> {
    match MatchComparator(rest)
    case Some((op, t)) => Some(Comparator(op, Coerce(toFloat, t)))
    case None => match MatchAssignment(rest)
      case Some(t) => Some(Plain(Coerce(toFloat, t)))
      case None => None
  }

  /** A part with a key parses by what follows the key. */
  lemma KeyedParse(toFloat: string -> Option<Float>, part: string, q: string, key: string, rest: string)
    requires TrimLeft(part) == q && key != ""
    requires IdentLength(q) == |key| && q[..|key|] == key && TrimLeft(q[|key|..]) == rest
    requires RestMeaning(toFloat, rest).Some?
    ensures ParseParam(toFloat, part) == Some((key, RestMeaning(toFloat, rest).value))
  {}

  lemma OperatorBegins(p: ParamText)
    requires !p.BareText?
    ensures OperatorText(p) != "" && OperatorText(p)[0] == p.Operator()[0]
    ensures OperatorText(p)[0] == '<' || OperatorText(p)[0] == '>' || OperatorText(p)[0] == '='
  {}

  lemma ComparatorMeaning(toFloat: string -> Option<Float>, op: CompareOp, value: string, t: string)
    requires value != "" && value[0] != '=' && MatchValue(value) == Some(t)
    ensures RestMeaning(toFloat, OpText(op) + value) == Some(Comparator(op, Coerce(toFloat, t)))
  {
    ComparatorReadsBack(op, value, t);
  }

  lemma AssignmentMeaning(toFloat: string -> Option<Float>, value: string, t: string)
    requires value != "" && value[0] != '=' && MatchValue(value) == Some(t)
    ensures RestMeaning(toFloat, "=" + value) == Some(Plain(Coerce(toFloat, t)))
  {
    AssignmentReadsBack(value, t);
  }

  lemma OperatorReadsBack(toFloat: string -> Option<Float>, p: ParamText)
    requires p.Writable() && !p.BareText?
    ensures RestMeaning(toFloat, OperatorText(p)) == Some(p.Meaning(toFloat))
  {
    ValueTextReadsBack(p);
    if p.AssignText? {
      AssignmentMeaning(toFloat, ValueText(p), p.text);
    } else {
      ComparatorMeaning(toFloat, p.op, ValueText(p), p.text);
    }
  }

  lemma KeyedReadsBack(toFloat: string -> Option<Float>, p: ParamText)
    requires p.Writable() && !p.BareText?
    ensures ParseParam(toFloat, p.Render()) == Some((p.key, p.Meaning(toFloat)))
  {
    RenderIsLeadAndRest(p);
    OperatorReadsBack(toFloat, p);
    OperatorBegins(p);
    KeyThenRest(AfterLead(p), p.key, p.layout.gap, OperatorText(p));
    KeyedParse(toFloat, p.Render(), AfterLead(p), p.key, OperatorText(p));
  }

  lemma NoOperator(s: string)
    requires s == "" || (s[0] != '<' && s[0] != '>' && s[0] != '=')
    ensures MatchComparator(s).None? && MatchAssignment(s).None?
  {}

  lemma BareHasNoOperator(p: ParamText)
    requires p.Writable() && p.BareText?
    ensures var q := AfterLead(p);
            var rest := TrimLeft(q[IdentLength(q)..]);
            MatchComparator(rest).None? && MatchAssignment(rest).None?
  {
    var q := AfterLead(p);
    var after := q[IdentLength(q)..];
    var rest := TrimLeft(after);
    TrimLeftIsSuffix(after);
    if rest != "" {
      assert rest[0] in after && rest[0] in q;
    }
    NoOperator(rest);
  }

  lemma BareReadsBack(toFloat: string -> Option<Float>, p: ParamText)
    requires p.Writable() && p.BareText?
    ensures ParseParam(toFloat, p.Render()) == Some((p.name, Bare))
  {
    RenderIsLeadAndRest(p);
    TrimmedText(p.layout.lead, p.name, p.layout.trail);
    BareHasNoOperator(p);
  }

  lemma ParamReadsBack(toFloat: string -> Option<Float>, p: ParamText)
    requires p.Writable()
    ensures ParseParam(toFloat, p.Render()) == Some((p.Key(), p.Meaning(toFloat)))
  {
    if p.BareText? {
      BareReadsBack(toFloat, p);
    } else {
      KeyedReadsBack(toFloat, p);
    }
  }

  lemma {:induction false} TrimLeftIsSuffix(s: string)
    ensures TrimLeft(s) == s[|s| - |TrimLeft(s)|..]
  {
    if s != "" && IsSpace(s[0]) {
      TrimLeftIsSuffix(s[1..]);
    }
  }

  lemma RenderedParts(params: seq<ParamText>)
    requires forall p | p in params :: p.Writable()
    ensures forall part | part in RenderEach(params) :: OnePart(part) && part != "" && '\n' !in part
  {
    forall part | part in RenderEach(params)
      ensures OnePart(part) && part != "" && '\n' !in part
    {
      var i :| 0 <= i < |params| && RenderEach(params)[i] == part;
      assert params[i] in params;
      RenderedParamIsOnePart(params[i]);
    }
  }

  lemma {:induction false} ParamsReadBack(toFloat: string -> Option<Float>, params: seq<ParamText>, acc: map<string, Value>)
    requires forall p | p in params :: p.Writable()
    ensures ParseParams(toFloat, RenderEach(params), acc) == Some(Meanings(toFloat, params, acc))
    decreases |params|
  {
    if params != [] {
      assert params[0] in params;
      ParamReadsBack(toFloat, params[0]);
      assert RenderEach(params)[1..] == RenderEach(params[1..]);
      ParamsReadBack(toFloat, params[1..], acc[params[0].Key() := params[0].Meaning(toFloat)]);
    }
  }

  lemma {:induction false} JoinHasNoNewline(parts: seq<string>)
    requires forall p | p in parts :: '\n' !in p
    ensures '\n' !in Join(parts)
  {
    if |parts| > 1 {
      JoinHasNoNewline(parts[1..]);
    }
  }

  lemma TextAfterLeadIsNotBlank(lead: string, text: string, more: string)
    requires IsBlank(lead) && text != "" && !IsSpace(text[0])
    ensures Strip(lead + text + more) != ""
  {
    assert lead + text + more == lead + (text + more);
    TrimLeftSkips(lead, text + more);
    TrimRightNonBlank(text + more);
  }

  lemma JoinAfterLeadIsNotBlank(lead: string, text: string, rest: seq<string>)
    requires IsBlank(lead) && text != "" && !IsSpace(text[0])
    ensures Strip(Join([lead + text] + rest)) != ""
  {
    JoinOfCons(lead + text, rest);
    var more := if rest == [] then "" else "," + Join(rest);
    assert Join([lead + text] + rest) == lead + text + more;
    TextAfterLeadIsNotBlank(lead, text, more);
  }

  /** The joined parameters begin with the first one, which is not blank. */
  lemma JoinedIsNotBlank(params: seq<ParamText>)
    requires params != [] && forall p | p in params :: p.Writable()
    ensures Strip(Join(RenderEach(params))) != ""
  {
    var p, rest := params[0], RenderEach(params[1..]);
    assert p in params;
    RenderIsLeadAndRest(p);
    JoinAfterLeadIsNotBlank(p.layout.lead, AfterLead(p), rest);
    assert RenderEach(params) == [p.layout.lead + AfterLead(p)] + rest;
  }

  function TailText(inner: Option<string>): string {
    if inner.None? then "" else "(" + inner.value + ")"
  }

  lemma ParamsOfRendered(inner: Option<string>)
    requires inner.Some? ==> '\n' !in inner.value
    ensures MatchParams(TailText(inner)) == Some(inner)
  {
    if inner.Some? {
      var tail := TailText(inner);
      assert tail[1..|tail| - 1] == inner.value;
    }
  }

  lemma ActionOfRendered(ns: string, action: string, tail: string)
    requires IsIdentifier(action) && MatchParams(tail).Some?
    ensures MatchAction(ns, action + tail) == Some(Head(ns, action, MatchParams(tail).value))
  {
    IdentLengthOfPrefix(action, tail);
    assert (action + tail)[..|action|] == action && (action + tail)[|action|..] == tail;
  }

  lemma NamespaceOfBody(ns: string, rest: string)
    requires IsIdentifier(ns)
    ensures var body := ns + (":" + rest);
            IdentLength(body) == |ns| && body[..|ns|] == ns && body[|ns|] == ':' && body[|ns| + 1..] == rest
  {
    IdentLengthOfPrefix(ns, ":" + rest);
  }

  lemma HeadOfBody(body: string, ns: string, rest: string)
    requires ns != "" && |ns| < |body| && IdentLength(body) == |ns|
    requires body[..|ns|] == ns && body[|ns|] == ':' && body[|ns| + 1..] == rest
    ensures MatchHead(body) == MatchAction(ns, rest)
  {}

  lemma HeadOfRendered(ns: string, action: string, inner: Option<string>)
    requires IsIdentifier(ns) && IsIdentifier(action)
    requires inner.Some? ==> '\n' !in inner.value
    ensures MatchHead(ns + (":" + (action + TailText(inner)))) == Some(Head(ns, action, inner))
  {
    var rest := action + TailText(inner);
    NamespaceOfBody(ns, rest);
    HeadOfBody(ns + (":" + rest), ns, rest);
    ParamsOfRendered(inner);
    ActionOfRendered(ns, action, TailText(inner));
  }

  lemma SurfaceWithoutNewline(s: string)
    requires s != "" && s[|s| - 1] != '\n'
    ensures Surface(s) == MatchHead(s)
  {}

  lemma LastOfRendered(action: string, inner: Option<string>)
    requires IsIdentifier(action)
    ensures var rest := action + TailText(inner); rest[|rest| - 1] != '\n'
  {
    assert IsIdentPart(action[|action| - 1]);
  }

  lemma SurfaceOfRendered(ns: string, action: string, inner: Option<string>)
    requires IsIdentifier(ns) && IsIdentifier(action)
    requires inner.Some? ==> '\n' !in inner.value
    ensures Surface(ns + ":" + action + TailText(inner)) == Some(Head(ns, action, inner))
  {
    var rest := action + TailText(inner);
    var s := ns + (":" + rest);
    assert ns + ":" + action + TailText(inner) == s;
    LastOfRendered(action, inner);
    assert s[|s| - 1] == rest[|rest| - 1];
    SurfaceWithoutNewline(s);
    HeadOfRendered(ns, action, inner);
  }

  /** The round trip: a rendered capability parses to the token it was rendered from. */
  lemma RenderedCapabilityParsesBack(
      toFloat: string -> Option<Float>, ns: string, action: string, params: seq<ParamText>)
    requires IsIdentifier(ns) && IsIdentifier(action)
    requires forall p | p in params :: p.Writable()
    ensures ParseCapability(toFloat, RenderCapability(ns, action, params)) ==
            Ok(Token(ns, action, Meanings(toFloat, params, map[]), RenderCapability(ns, action, params)))
  {
    if params == [] {
      SurfaceOfRendered(ns, action, None);
    } else {
      RenderedParts(params);
      var joined := Join(RenderEach(params));
      JoinHasNoNewline(RenderEach(params));
      SurfaceOfRendered(ns, action, Some(joined));
      JoinedIsNotBlank(params);
      SplitOfJoin(RenderEach(params));
      ParamsReadBack(toFloat, params, map[]);
    }
  }

  /** With distinct keys nothing is overwritten: the token holds every written parameter and no other. */
  lemma {:induction false} MeaningsOfDistinctKeys(
      toFloat: string -> Option<Float>, params: seq<ParamText>, acc: map<string, Value>)
    requires forall i, j :: 0 <= i < j < |params| ==> params[i].Key() != params[j].Key()
    requires forall i | 0 <= i < |params| :: params[i].Key() !in acc
    ensures var m := Meanings(toFloat, params, acc);
            && (forall i | 0 <= i < |params| :: params[i].Key() in m && m[params[i].Key()] == params[i].Meaning(toFloat))
            && (forall k | k in acc :: k in m && m[k] == acc[k])
            && (forall k | k in m :: k in acc || HasKey(params, k))
    decreases |params|
  {
    if params != [] {
      var next := acc[params[0].Key() := params[0].Meaning(toFloat)];
      MeaningsOfDistinctKeys(toFloat, params[1..], next);
      assert forall i | 1 <= i < |params| :: params[i] == params[1..][i - 1];
      forall k | HasKey(params[1..], k)
        ensures HasKey(params, k)
      {
        var i :| 0 <= i < |params[1..]| && params[1..][i].Key() == k;
        assert params[i + 1].Key() == k;
      }
    }
  }

  predicate HasKey(params: seq<ParamText>, k: string) {
    exists i :: 0 <= i < |params| && params[i].Key() == k
  }

  /** `params` writes each parameter of `t` once. */
  ghost predicate Writes(toFloat: string -> Option<Float>, params: seq<ParamText>, t: Token) {
    && (forall p | p in params :: p.Writable())
    && (forall i | 0 <= i < |params| ::
          params[i].Key() in t.params && t.params[params[i].Key()] == params[i].Meaning(toFloat))
    && (forall i, j :: 0 <= i < j < |params| ==> params[i].Key() != params[j].Key())
    && (forall k | k in t.params :: HasKey(params, k))
  }

  lemma MeaningsOfWritten(toFloat: string -> Option<Float>, params: seq<ParamText>, t: Token)
    requires Writes(toFloat, params, t)
    ensures Meanings(toFloat, params, map[]) == t.params
  {
    MeaningsOfDistinctKeys(toFloat, params, map[]);
    var m := Meanings(toFloat, params, map[]);
    forall k
      ensures k in t.params <==> k in m
      ensures k in m ==> m[k] == t.params[k]
    {
      if k in t.params || k in m {
        var i :| 0 <= i < |params| && params[i].Key() == k;
      }
    }
  }

  /** A token written out parameter by parameter, in any order and with any blanks between keys,
      operators, values and separators, parses back to the same token. */
  lemma WrittenTokenParsesBack(toFloat: string -> Option<Float>, params: seq<ParamText>, t: Token)
    requires IsIdentifier(t.namespace) && IsIdentifier(t.action)
    requires Writes(toFloat, params, t)
    ensures ParseCapability(toFloat, RenderCapability(t.namespace, t.action, params)) ==
            Ok(t.(raw := RenderCapability(t.namespace, t.action, params)))
  {
    RenderedCapabilityParsesBack(toFloat, t.namespace, t.action, params);
    MeaningsOfWritten(toFloat, params, t);
  }
}
