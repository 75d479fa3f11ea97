/** Path parameters from the tool call to the REST handler: substituted twice, normalised, matched, decoded. */
module PathParams {
  import opened Basics
  import opened SlashPaths
  import opened UriEncoding

  type Params = map<string, string>

  // ---- substitution ----------------------------------------------------------------------------

  datatype Outcome = Ok(text: string) | Missing(key: string)

  function Prefixed(p: string, o: Outcome): Outcome {
    match o
    case Ok(text) => Ok(p + text)
    case Missing(_) => o
  }

  function Filling(key: string, params: Params, rest: Outcome): Outcome {
    if key in params then Prefixed(Encode(params[key]), rest) else Missing(key)
  }

  /** Every `{key}`, from the left; a key is anything but `}` and not empty. */
  function SubstituteBraces(s: string, params: Params): Outcome
    decreases |s|
  {
    if s == "" then Ok("")
    else
      var close := IndexOf('}', s);
      if s[0] == '{' && close > 1 then
        Filling(s[1..close], params, SubstituteBraces(s[close + 1..], params))
      else Prefixed([s[0]], SubstituteBraces(s[1..], params))
  }

  predicate IdentifierStart(c: char) {
    'A' <= c <= 'Z' || 'a' <= c <= 'z' || c == '_'
  }

  predicate IdentifierPart(c: char) {
    IdentifierStart(c) || '0' <= c <= '9'
  }

  /** How many characters of s, from the first, can be part of an identifier. */
  function Span(s: string): (r: nat)
    ensures r <= |s|
    ensures forall i | 0 <= i < r :: IdentifierPart(s[i])
    ensures r < |s| ==> !IdentifierPart(s[r])
  {
    if s == "" || !IdentifierPart(s[0]) then 0 else 1 + Span(s[1..])
  }

  /** Every `:identifier`, from the left, as long as possible. */
  function SubstituteColons(s: string, params: Params): Outcome
    decreases |s|
  {
    if s == "" then Ok("")
    else if s[0] == ':' && |s| > 1 && IdentifierStart(s[1]) then
      var end := 1 + Span(s[1..]);
      Filling(s[1..end], params, SubstituteColons(s[end..], params))
    else Prefixed([s[0]], SubstituteColons(s[1..], params))
  }

  function Substitute(path: string, params: Option<Params>): Outcome {
    match params
    case None => Ok(path)
    case Some(p) =>
      match SubstituteBraces(path, p)
      case Missing(key) => Missing(key)
      case Ok(text) => SubstituteColons(text, p)
  }

  // ---- the sending side ------------------------------------------------------------------------

  predicate IsSpace(c: char) {
    var n := c as int;
    || 9 <= n <= 13 || n == 32 || n == 0xA0 || n == 0x1680 || 0x2000 <= n <= 0x200A
    || n in {0x2028, 0x2029, 0x202F, 0x205F, 0x3000, 0xFEFF}
  }

  predicate ValidPath(path: string) {
    path != "" && path[0] == '/' && forall c | c in path :: c != '\0' && !IsSpace(c)
  }

  datatype Sent = Url(text: string) | Lacking(key: string) | InvalidPath

  function Pairs(query: seq<(string, string)>): string {
    if query == [] then ""
    else Encode(query[0].0) + "=" + Encode(query[0].1) + (if |query| == 1 then "" else "&" + Pairs(query[1..]))
  }

  function QueryText(query: seq<(string, string)>): (r: string) {
    if query == [] then "" else "?" + Pairs(query)
  }

  /** The transport: it validates the path it is given, substitutes in it, and appends the query. */
  function Send(path: string, params: Option<Params>, query: seq<(string, string)>): Sent {
    if !ValidPath(path) then InvalidPath
    else
      match Substitute(path, params)
      case Missing(key) => Lacking(key)
      case Ok(text) => Url(text + QueryText(query))
  }

  /** The invoker substitutes already, and hands the transport the parameters as well. */
  function Invoke(template: string, params: Option<Params>, query: seq<(string, string)>): Sent {
    match Substitute(template, params)
    case Missing(key) => Lacking(key)
    case Ok(path) => Send(path, params, query)
  }

  // ---- the receiving side ----------------------------------------------------------------------

  /** "." as a URL parser reads it (section 5.2.4 of RFC 3986), and ".." likewise. */
  predicate SingleDot(s: string) {
    s in [".", "%2e", "%2E"]
  }

  predicate DoubleDot(s: string) {
    || (s != "" && s[0] == '.' && SingleDot(s[1..]))
    || (|s| >= 3 && SingleDot(s[..3]) && SingleDot(s[3..]))
  }

  /** The parser's path stack after the remaining parts. */
  function RemoveDots(stack: seq<string>, parts: seq<string>): seq<string>
    decreases |parts|
  {
    if parts == [] then stack
    else
      var end := if |parts| == 1 then [""] else [];
      var next :=
        if DoubleDot(parts[0]) then (if stack == [] then [] else stack[..|stack| - 1]) + end
        else if SingleDot(parts[0]) then stack + end
        else stack + [parts[0]];
      RemoveDots(next, parts[1..])
  }

  /** The path segments of a request target. */
  function PathSegments(url: string): seq<string> {
    var query := IndexOf('?', url);
    var path := if query < 0 then url else url[..query];
    RemoveDots([], Split(if path == "" then "" else path[1..]))
  }

  /** One segment of a route: fixed text, or a placeholder in either notation. */
  datatype Segment = Literal(text: string) | Brace(key: string) | Colon(key: string)

  /**
   * What the route's pattern captures: fixed text as it is, one non-empty segment for a placeholder, and for
   * a last placeholder of an open route whatever remains.
   */
  function Captures(route: seq<Segment>, open: bool, parts: seq<string>): Option<seq<string>> {
    if route == [] then (if parts == [] then Some([]) else None)
    else if parts == [] then None
    else if route[0].Literal? then
      (if parts[0] == route[0].text then Captures(route[1..], open, parts[1..]) else None)
    else if open && |route| == 1 then
      (if Join(parts) == "" then None else Some([Join(parts)]))
    else if parts[0] == "" then None
    else
      match Captures(route[1..], open, parts[1..])
      case Some(rest) => Some([parts[0]] + rest)
      case None => None
  }

  function Names(route: seq<Segment>): seq<string> {
    if route == [] then []
    else (if route[0].Literal? then [] else [route[0].key]) + Names(route[1..])
  }

  /** The decoded parameters, or None when an escape is malformed. */
  function Collected(names: seq<string>, captures: seq<string>, n: nat): Option<Params>
    requires n <= |names|
  {
    if n == 0 then Some(map[])
    else
      match Collected(names, captures, n - 1)
      case None => None
      case Some(earlier) =>
        if n > |captures| || captures[n - 1] == "" then Some(earlier)
        else
          match Decode(captures[n - 1])
          case None => None
          case Some(value) => Some(earlier[names[n - 1] := value])
  }

  /** The handler's loop over the names of the route's captures. */
  method CollectParams(names: seq<string>, captures: seq<string>) returns (r: Option<Params>)
    ensures r == Collected(names, captures, |names|)
  {
    hide Decode;
    var params: Params := map[];
    for index := 0 to |names|
      invariant Collected(names, captures, index) == Some(params)
      invariant forall n: nat | n <= index :: Collected(names, captures, n).Some?
    {
      if index < |captures| && |captures[index]| > 0 {
        var value := Decode(captures[index]);
        if value == None {
          StaysMalformed(names, captures, index + 1);
          return None;
        }
        params := params[names[index] := value.value];
      }
    }
    r := Some(params);
  }

  lemma {:induction false} StaysMalformed(names: seq<string>, captures: seq<string>, n: nat)
    requires n <= |names| && Collected(names, captures, n) == None
    ensures Collected(names, captures, |names|) == None
    decreases |names| - n
  {
    if n < |names| { StaysMalformed(names, captures, n + 1); }
  }

  datatype Received = Unmatched | Malformed | Params(params: Params)

  function Receive(route: seq<Segment>, open: bool, url: string): Received {
    match Captures(route, open, PathSegments(url))
    case None => Unmatched
    case Some(captures) =>
      match Collected(Names(route), captures, |Names(route)|)
      case None => Malformed
      case Some(params) => Params(params)
  }

  // ---- templates -------------------------------------------------------------------------------

  function SegmentText(s: Segment): string {
    match s
    case Literal(text) => text
    case Brace(key) => "{" + key + "}"
    case Colon(key) => ":" + key
  }

  function Template(route: seq<Segment>): string {
    if route == [] then "" else "/" + SegmentText(route[0]) + Template(route[1..])
  }

  predicate Identifier(key: string) {
    key != "" && IdentifierStart(key[0]) && forall c | c in key :: IdentifierPart(c)
  }

  predicate PlainSegment(s: Segment) {
    match s
    case Literal(text) => text != "" && text != "." && text != ".." && forall c | c in text :: Unreserved(c)
    case Brace(key) => key != "" && '}' !in key
    case Colon(key) => Identifier(key)
  }

  ghost predicate Plain(route: seq<Segment>) {
    forall s | s in route :: PlainSegment(s)
  }

  /** A segment once its placeholder is replaced. */
  function Piece(s: Segment, params: Params): string
    requires !s.Literal? ==> s.key in params
  {
    if s.Literal? then s.text else Encode(params[s.key])
  }

  ghost predicate Covers(route: seq<Segment>, params: Params) {
    forall s | s in route :: !s.Literal? ==> s.key in params
  }

  function Pieces(route: seq<Segment>, params: Params): (r: seq<string>)
    requires Covers(route, params)
    ensures |r| == |route|
    ensures forall i | 0 <= i < |r| :: r[i] == Piece(route[i], params)
  {
    if route == [] then [] else [Piece(route[0], params)] + Pieces(route[1..], params)
  }

  function Rooted(pieces: seq<string>): string {
    if pieces == [] then "" else "/" + pieces[0] + Rooted(pieces[1..])
  }

  // ---- substitution in a template --------------------------------------------------------------

  lemma CopyOne(s: string, params: Params)
    requires s != ""
    ensures s[0] != '{' ==> SubstituteBraces(s, params) == Prefixed([s[0]], SubstituteBraces(s[1..], params))
    ensures s[0] != ':' ==> SubstituteColons(s, params) == Prefixed([s[0]], SubstituteColons(s[1..], params))
  {
    hide IndexOf, Encode, Span, Prefixed, Filling;
  }

  lemma {:induction false} CopyBraces(p: string, rest: string, params: Params)
    requires '{' !in p
    ensures SubstituteBraces(p + rest, params) == Prefixed(p, SubstituteBraces(rest, params))
  {
    hide SubstituteBraces;
    if p == "" {
      assert p + rest == rest;
    } else {
      CopyBraces(p[1..], rest, params);
      CopyOne(p + rest, params);
      assert (p + rest)[1..] == p[1..] + rest;
      assert p == [p[0]] + p[1..];
    }
  }

  lemma {:induction false} CopyColons(p: string, rest: string, params: Params)
    requires ':' !in p
    ensures SubstituteColons(p + rest, params) == Prefixed(p, SubstituteColons(rest, params))
  {
    hide SubstituteColons;
    if p == "" {
      assert p + rest == rest;
    } else {
      CopyColons(p[1..], rest, params);
      CopyOne(p + rest, params);
      assert (p + rest)[1..] == p[1..] + rest;
      assert p == [p[0]] + p[1..];
    }
  }

  lemma BraceFills(key: string, rest: string, params: Params)
    requires key != "" && '}' !in key
    ensures SubstituteBraces("{" + key + "}" + rest, params) == Filling(key, params, SubstituteBraces(rest, params))
  {
    hide Encode, IndexOf;
    var s := "{" + key + "}" + rest;
    var close := IndexOf('}', s);
    assert s[|key| + 1] == '}';
    assert forall i | 1 <= i < |key| + 1 :: s[i] == key[i - 1] && s[i] != '}';
    assert close == |key| + 1;
    assert s[1..close] == key && s[close + 1..] == rest;
  }

  lemma ColonFills(key: string, rest: string, params: Params)
    requires Identifier(key) && (rest == "" || rest[0] == '/')
    ensures SubstituteColons(":" + key + rest, params) == Filling(key, params, SubstituteColons(rest, params))
  {
    hide Encode, Span;
    var s := ":" + key + rest;
    assert s[1..] == key + rest;
    SpanIs(key, rest);
    assert s[1..1 + |key|] == key && s[1 + |key|..] == rest;
  }

  lemma SpanIs(key: string, rest: string)
    requires forall c | c in key :: IdentifierPart(c)
    requires rest == "" || rest[0] == '/'
    ensures Span(key + rest) == |key|
  {
    var n := Span(key + rest);
    assert forall i | 0 <= i < |key| :: (key + rest)[i] == key[i] && IdentifierPart(key[i]);
    assert rest != "" ==> (key + rest)[|key|] == '/';
  }

  /** A route with its braces filled in. */
  function Half(s: Segment, params: Params): Segment {
    if s.Brace? && s.key in params then Literal(Encode(params[s.key])) else s
  }

  function Halves(route: seq<Segment>, params: Params): (r: seq<Segment>)
    ensures |r| == |route|
    ensures forall i | 0 <= i < |r| :: r[i] == Half(route[i], params)
  {
    if route == [] then [] else [Half(route[0], params)] + Halves(route[1..], params)
  }

  ghost predicate BracesCovered(route: seq<Segment>, params: Params) {
    forall s | s in route :: s.Brace? ==> s.key in params
  }

  /** The outcome names a placeholder of the route that has no value. */
  ghost predicate NamesMissing(o: Outcome, route: seq<Segment>, params: Params) {
    o.Missing? && o.key !in params && exists s :: s in route && !s.Literal? && s.key == o.key
  }

  lemma PlainText(s: Segment)
    requires PlainSegment(s) && !s.Brace?
    ensures '{' !in SegmentText(s)
  {
    assert !Unreserved('{') && !IdentifierPart('{');
  }

  lemma {:induction false} BracesFilled(route: seq<Segment>, params: Params)
    requires Plain(route)
    ensures BracesCovered(route, params) ==>
              SubstituteBraces(Template(route), params) == Ok(Template(Halves(route, params)))
    ensures !BracesCovered(route, params) ==> NamesMissing(SubstituteBraces(Template(route), params), route, params)
  {
    hide SubstituteBraces, Encode;
    if route == [] {
      CopyBraces("", "", params);
      EmptyOutcome(params);
    } else {
      var s, rest := route[0], Template(route[1..]);
      BracesFilled(route[1..], params);
      BraceStep(s, rest, params);
      assert route == [s] + route[1..];
    }
  }

  lemma EmptyOutcome(params: Params)
    ensures SubstituteBraces("", params) == Ok("") && SubstituteColons("", params) == Ok("")
  {
  }

  lemma {:induction false} BraceStep(s: Segment, rest: string, params: Params)
    requires PlainSegment(s)
    ensures var after := SubstituteBraces(rest, params);
      var all := SubstituteBraces("/" + SegmentText(s) + rest, params);
      if s.Brace? && s.key !in params then all == Missing(s.key)
      else all == Prefixed("/" + SegmentText(Half(s, params)), after)
  {
    hide SubstituteBraces, Encode;
    if s.Brace? {
      assert "/" + SegmentText(s) + rest == "/" + ("{" + s.key + "}" + rest);
      CopyBraces("/", "{" + s.key + "}" + rest, params);
      BraceFills(s.key, rest, params);
    } else {
      PlainText(s);
      CopyBraces("/" + SegmentText(s), rest, params);
    }
  }

  lemma TemplateStart(route: seq<Segment>)
    ensures Template(route) == "" || Template(route)[0] == '/'
  {
  }

  lemma HalfHasNoColon(s: Segment, params: Params)
    requires PlainSegment(s) && !s.Colon? && (s.Brace? ==> s.key in params)
    ensures ':' !in SegmentText(Half(s, params)) && SegmentText(Half(s, params)) == Piece(s, params)
  {
    hide Encode;
    assert !Unreserved(':');
    if s.Brace? { EncodedChars(params[s.key]); }
  }

  lemma {:induction false} ColonStep(s: Segment, rest: string, params: Params)
    requires PlainSegment(s) && (s.Brace? ==> s.key in params) && (rest == "" || rest[0] == '/')
    ensures var after := SubstituteColons(rest, params);
      var all := SubstituteColons("/" + SegmentText(Half(s, params)) + rest, params);
      if s.Colon? && s.key !in params then all == Missing(s.key)
      else all == Prefixed("/" + Piece(s, params), after)
  {
    hide SubstituteColons, Encode;
    if s.Colon? {
      assert "/" + SegmentText(s) + rest == "/" + (":" + s.key + rest);
      CopyColons("/", ":" + s.key + rest, params);
      ColonFills(s.key, rest, params);
    } else {
      HalfHasNoColon(s, params);
      CopyColons("/" + Piece(s, params), rest, params);
    }
  }

  lemma {:induction false} ColonsFilled(route: seq<Segment>, params: Params)
    requires Plain(route) && BracesCovered(route, params)
    ensures Covers(route, params) ==>
              SubstituteColons(Template(Halves(route, params)), params) == Ok(Rooted(Pieces(route, params)))
    ensures !Covers(route, params) ==>
              NamesMissing(SubstituteColons(Template(Halves(route, params)), params), route, params)
  {
    hide SubstituteColons, Encode;
    if route == [] {
      EmptyOutcome(params);
    } else {
      var s := route[0];
      ColonsFilled(route[1..], params);
      TemplateStart(Halves(route[1..], params));
      ColonStep(s, Template(Halves(route[1..], params)), params);
      assert route == [s] + route[1..];
    }
  }

  /** Substitution replaces every placeholder, and fails exactly when one has no value, naming such a one. */
  lemma SubstituteExactly(route: seq<Segment>, params: Params)
    requires Plain(route)
    ensures Covers(route, params) ==> Substitute(Template(route), Some(params)) == Ok(Rooted(Pieces(route, params)))
    ensures !Covers(route, params) ==> NamesMissing(Substitute(Template(route), Some(params)), route, params)
  {
    hide SubstituteBraces, SubstituteColons, Encode, PlainSegment;
    BracesFilled(route, params);
    if BracesCovered(route, params) { ColonsFilled(route, params); }
  }

  // ---- the second substitution -----------------------------------------------------------------

  predicate PathChar(c: char) {
    EncodedChar(c) || c == '/'
  }

  lemma PieceChars(s: Segment, params: Params)
    requires PlainSegment(s) && (!s.Literal? ==> s.key in params)
    ensures forall c | c in Piece(s, params) :: EncodedChar(c)
  {
    if !s.Literal? { EncodedChars(params[s.key]); }
  }

  lemma {:induction false} RootedChars(route: seq<Segment>, params: Params)
    requires Plain(route) && Covers(route, params)
    ensures forall c | c in Rooted(Pieces(route, params)) :: PathChar(c)
  {
    hide Unreserved;
    if route != [] {
      PieceChars(route[0], params);
      assert forall s | s in route[1..] :: s in route;
      RootedChars(route[1..], params);
    }
  }

  lemma PathCharsPlain()
    ensures !PathChar('{') && !PathChar(':') && !PathChar('?') && !PathChar('\0')
    ensures forall c | PathChar(c) :: !IsSpace(c)
  {
  }

  /** Where nothing is left to replace, whatever the parameters, the path stays as it is. */
  lemma SecondSubstitutionIdle(path: string, params: Params)
    requires forall c | c in path :: PathChar(c)
    ensures Substitute(path, Some(params)) == Ok(path)
  {
    hide SubstituteBraces, SubstituteColons, PathChar;
    PathCharsPlain();
    CopyBraces(path, "", params);
    CopyColons(path, "", params);
    EmptyOutcome(params);
    assert path + "" == path;
  }

  /** The invoker and the transport together send the template's path filled in once, and the query. */
  lemma SentPath(route: seq<Segment>, params: Params, query: seq<(string, string)>)
    requires Plain(route) && route != [] && Covers(route, params)
    ensures Invoke(Template(route), Some(params), query) == Url(Rooted(Pieces(route, params)) + QueryText(query))
  {
    hide Substitute, QueryText, PathChar;
    SubstituteExactly(route, params);
    RootedChars(route, params);
    PathCharsPlain();
    SecondSubstitutionIdle(Rooted(Pieces(route, params)), params);
  }

  /** Some `{key}` begins in s. */
  predicate HasBrace(s: string) {
    s != "" && ((s[0] == '{' && IndexOf('}', s) > 1) || HasBrace(s[1..]))
  }

  /** Some `:identifier` begins in s. */
  predicate HasColon(s: string) {
    s != "" && ((s[0] == ':' && |s| > 1 && IdentifierStart(s[1])) || HasColon(s[1..]))
  }

  /** How many characters could begin a placeholder. */
  function Marks(s: string): nat {
    if s == "" then 0 else (if s[0] in "{:" then 1 else 0) + Marks(s[1..])
  }

  lemma {:induction false} MarksAppend(a: string, b: string)
    ensures Marks(a + b) == Marks(a) + Marks(b)
  {
    if a == "" {
      assert a + b == b;
    } else {
      assert (a + b)[1..] == a[1..] + b;
      MarksAppend(a[1..], b);
    }
  }

  lemma {:induction false} NoMarks(s: string)
    requires '{' !in s && ':' !in s
    ensures Marks(s) == 0
  {
    if s != "" { NoMarks(s[1..]); }
  }

  lemma EncodedNoMarks(value: string)
    ensures '{' !in Encode(value) && ':' !in Encode(value) && Marks(Encode(value)) == 0
  {
    EncodedChars(value);
    assert !EncodedChar('{') && !EncodedChar(':');
    NoMarks(Encode(value));
  }

  /** What is filled in for a placeholder that begins s and ends before index n has fewer marks than s. */
  lemma {:induction false} FillingShrinks(s: string, n: nat, key: string, params: Params, rest: Outcome)
    requires n <= |s| && s != "" && n > 0 && s[0] in "{:"
    requires rest.Ok? ==> Marks(rest.text) <= Marks(s[n..])
    ensures var o := Filling(key, params, rest); o.Ok? ==> Marks(o.text) < Marks(s)
  {
    hide Encode;
    if key in params && rest.Ok? {
      EncodedNoMarks(params[key]);
      MarksAppend(Encode(params[key]), rest.text);
      MarksAppend(s[..n], s[n..]);
      assert s == s[..n] + s[n..];
    }
  }

  lemma {:induction false} PrefixedMarks(s: string, rest: Outcome)
    requires s != ""
    ensures var o := Prefixed([s[0]], rest);
      rest.Ok? ==> Marks(o.text) - Marks(rest.text) == Marks(s) - Marks(s[1..])
    ensures rest == Ok(s[1..]) ==> Prefixed([s[0]], rest) == Ok(s)
  {
    assert s == [s[0]] + s[1..];
    if rest.Ok? { MarksAppend([s[0]], rest.text); }
    MarksAppend([s[0]], s[1..]);
  }

  lemma {:induction false} BracesShrink(s: string, params: Params)
    ensures var o := SubstituteBraces(s, params);
      if HasBrace(s) then (o.Ok? ==> Marks(o.text) < Marks(s)) else o == Ok(s)
    decreases |s|
  {
    hide IndexOf, Filling, Prefixed, Marks;
    if s != "" {
      var close := IndexOf('}', s);
      if s[0] == '{' && close > 1 {
        BracesShrink(s[close + 1..], params);
        FillingShrinks(s, close + 1, s[1..close], params, SubstituteBraces(s[close + 1..], params));
      } else {
        BracesShrink(s[1..], params);
        PrefixedMarks(s, SubstituteBraces(s[1..], params));
        PrefixedOk(s, SubstituteBraces(s[1..], params));
      }
    }
  }

  lemma {:induction false} ColonsShrink(s: string, params: Params)
    ensures var o := SubstituteColons(s, params);
      if HasColon(s) then (o.Ok? ==> Marks(o.text) < Marks(s)) else o == Ok(s)
    decreases |s|
  {
    hide Span, Filling, Prefixed, Marks;
    if s != "" {
      if s[0] == ':' && |s| > 1 && IdentifierStart(s[1]) {
        var end := 1 + Span(s[1..]);
        ColonsShrink(s[end..], params);
        FillingShrinks(s, end, s[1..end], params, SubstituteColons(s[end..], params));
      } else {
        ColonsShrink(s[1..], params);
        PrefixedMarks(s, SubstituteColons(s[1..], params));
        PrefixedOk(s, SubstituteColons(s[1..], params));
      }
    }
  }

  lemma PrefixedOk(s: string, rest: Outcome)
    requires s != ""
    ensures Prefixed([s[0]], rest).Ok? <==> rest.Ok?
  {
  }

  /** A substitution leaves a path alone, whatever the parameters, exactly when no placeholder begins in it. */
  lemma SubstitutionIdleExactly(path: string, params: Params)
    ensures Substitute(path, Some(params)) == Ok(path) <==> !HasBrace(path) && !HasColon(path)
  {
    hide SubstituteBraces, SubstituteColons, HasBrace, HasColon, Marks;
    BracesShrink(path, params);
    var first := SubstituteBraces(path, params);
    if first.Ok? { ColonsShrink(first.text, params); }
  }

  /** So what was substituted once is substituted again exactly when a placeholder begins in the result. */
  lemma SecondSubstitutionExactly(template: string, params: Params, path: string, query: seq<(string, string)>)
    requires Substitute(template, Some(params)) == Ok(path) && ValidPath(path)
    ensures Invoke(template, Some(params), query) == Url(path + QueryText(query)) <==>
      !HasBrace(path) && !HasColon(path)
  {
    hide Substitute, HasBrace, HasColon, ValidPath;
    SubstitutionIdleExactly(path, params);
    match Substitute(path, Some(params)) {
      case Ok(text) =>
        if text + QueryText(query) == path + QueryText(query) { SameFront(text, path, QueryText(query)); }
      case Missing(_) =>
    }
  }

  lemma SameFront(a: string, b: string, end: string)
    requires a + end == b + end
    ensures a == b
  {
    assert |a| == |b| && (a + end)[..|a|] == a && (b + end)[..|b|] == b;
  }

  /**
   * A placeholder straight after a colon is one such case, already within one substitution: the value filled in
   * is read as a placeholder in its turn, as far as it can be, exactly when it begins like an identifier.
   */
  lemma {:induction false} GluedPlaceholder(p: string, key: string, params: Params)
    requires '{' !in p && ':' !in p && key != "" && '}' !in key && key in params
    ensures var value := Encode(params[key]); var n := Span(value);
      Substitute(p + ":{" + key + "}", Some(params))
      == if value != "" && IdentifierStart(value[0])
         then Prefixed(p, Filling(value[..n], params, Ok(value[n..])))
         else Ok(p + ":" + value)
  {
    hide SubstituteBraces, SubstituteColons, Encode, Span;
    var value := Encode(params[key]);
    EmptyOutcome(params);
    EncodedNoMarks(params[key]);
    assert p + ":{" + key + "}" == (p + ":") + ("{" + key + "}" + "");
    CopyBraces(p + ":", "{" + key + "}" + "", params);
    BraceFills(key, "", params);
    assert (p + ":") + (value + "") == p + (":" + value);
    CopyColons(p, ":" + value, params);
    ColonThen(value, params);
    assert p + (":" + value) == p + ":" + value;
  }

  lemma {:induction false} ColonThen(value: string, params: Params)
    requires ':' !in value
    ensures var n := Span(value);
      SubstituteColons(":" + value, params)
      == if value != "" && IdentifierStart(value[0])
         then Filling(value[..n], params, Ok(value[n..])) else Ok(":" + value)
  {
    hide Span, Filling;
    var s, n := ":" + value, Span(value);
    assert s[1..] == value;
    EmptyOutcome(params);
    CopyColons(value, "", params);
    CopyColons(value[n..], "", params);
    assert value + "" == value && value[n..] + "" == value[n..];
    assert s[1..1 + n] == value[..n] && s[1 + n..] == value[n..];
    assert value != "" ==> s[1] == value[0];
  }

  // ---- receiving what was sent -----------------------------------------------------------------

  lemma {:induction false} SplitRooted(pieces: seq<string>)
    requires pieces != [] && SlashFree(pieces)
    ensures Rooted(pieces) != "" && Split(Rooted(pieces)[1..]) == pieces
  {
    JoinRooted(pieces);
    SplitJoin(pieces);
    assert ("/" + Join(pieces))[1..] == Join(pieces);
  }

  lemma {:induction false} JoinRooted(pieces: seq<string>)
    requires pieces != []
    ensures Rooted(pieces) == "/" + Join(pieces)
  {
    if |pieces| == 1 {
      assert Rooted(pieces[1..]) == "";
    } else {
      JoinRooted(pieces[1..]);
    }
  }

  ghost predicate DotFree(parts: seq<string>) {
    forall i | 0 <= i < |parts| :: !SingleDot(parts[i]) && !DoubleDot(parts[i])
  }

  lemma {:induction false} NoDotsToRemove(stack: seq<string>, parts: seq<string>)
    requires DotFree(parts)
    ensures RemoveDots(stack, parts) == stack + parts
    decreases |parts|
  {
    hide SingleDot, DoubleDot;
    if parts != [] {
      NoDotsToRemove(stack + [parts[0]], parts[1..]);
      assert parts == [parts[0]] + parts[1..];
    }
  }

  /** Removing dot segments never lengthens a path, and shortens it unless it leaves an empty last segment. */
  lemma {:induction false} DotsShorten(stack: seq<string>, parts: seq<string>)
    ensures var r := RemoveDots(stack, parts);
      && |r| <= |stack| + |parts|
      && (DotFree(parts) || |r| < |stack| + |parts| || (r != [] && r[|r| - 1] == ""))
    decreases |parts|
  {
    hide SingleDot, DoubleDot;
    if parts != [] {
      var end := if |parts| == 1 then [""] else [];
      var next :=
        if DoubleDot(parts[0]) then (if stack == [] then [] else stack[..|stack| - 1]) + end
        else if SingleDot(parts[0]) then stack + end
        else stack + [parts[0]];
      DotsShorten(next, parts[1..]);
      if |parts| > 1 && DotFree(parts[1..]) && !SingleDot(parts[0]) && !DoubleDot(parts[0]) {
        forall i | 0 <= i < |parts| ensures !SingleDot(parts[i]) && !DoubleDot(parts[i]) {
          if i > 0 { assert parts[i] == parts[1..][i - 1]; }
        }
      }
    }
  }

  /** A route can match no fewer segments than it has, and with just as many none may be empty. */
  lemma {:induction false} MatchNeeds(route: seq<Segment>, open: bool, parts: seq<string>)
    requires Plain(route) && Captures(route, open, parts).Some? && |parts| <= |route|
    ensures |parts| == |route| && "" !in parts
  {
    if route != [] {
      assert forall s | s in route[1..] :: s in route;
      if route[0].Literal? || !(open && |route| == 1) {
        MatchNeeds(route[1..], open, parts[1..]);
      }
      assert PlainSegment(route[0]);
      assert parts == [parts[0]] + parts[1..];
    }
  }

  /** The encoded values of a route's placeholders, in order. */
  function Values(route: seq<Segment>, params: Params): (r: seq<string>)
    requires Covers(route, params)
  {
    if route == [] then []
    else (if route[0].Literal? then [] else [Encode(params[route[0].key])]) + Values(route[1..], params)
  }

  lemma {:induction false} MatchesItsPieces(route: seq<Segment>, open: bool, params: Params)
    requires Covers(route, params) && "" !in Pieces(route, params)
    ensures Captures(route, open, Pieces(route, params)) == Some(Values(route, params))
  {
    hide Encode;
    if route != [] {
      var parts := Pieces(route, params);
      assert parts[0] in parts && parts[1..] == Pieces(route[1..], params);
      MatchesItsPieces(route[1..], open, params);
      if open && |route| == 1 && !route[0].Literal? {
        assert Join(parts) == parts[0] == Encode(params[route[0].key]);
        assert Values(route[1..], params) == [];
        assert Values(route, params) == [parts[0]];
      } else if route[0].Literal? {
        assert parts[0] == route[0].text;
        assert Captures(route, open, parts) == Captures(route[1..], open, parts[1..]);
        assert Values(route, params) == Values(route[1..], params);
      } else {
        assert parts[0] != "";
        assert Values(route, params) == [parts[0]] + Values(route[1..], params);
      }
    }
  }

  lemma {:induction false} NamesOfRoute(route: seq<Segment>, params: Params)
    requires Covers(route, params)
    ensures |Values(route, params)| == |Names(route)|
    ensures forall i | 0 <= i < |Names(route)| ::
              Names(route)[i] in params && Values(route, params)[i] == Encode(params[Names(route)[i]])
    ensures forall s | s in route :: !s.Literal? ==> s.key in Names(route)
  {
    hide Encode;
    if route != [] {
      NamesOfRoute(route[1..], params);
      assert route == [route[0]] + route[1..];
    }
  }

  /** The parameters the names stand for. */
  function Restricted(names: seq<string>, params: Params): Params {
    map k | k in names && k in params :: params[k]
  }

  lemma {:induction false} CollectsAll(names: seq<string>, params: Params, captures: seq<string>, n: nat)
    requires n <= |names| == |captures|
    requires forall i | 0 <= i < |names| ::
               names[i] in params && params[names[i]] != "" && captures[i] == Encode(params[names[i]])
    ensures Collected(names, captures, n) == Some(Restricted(names[..n], params))
  {
    hide Encode, Decode;
    if n > 0 {
      CollectsAll(names, params, captures, n - 1);
      var value := params[names[n - 1]];
      DecodeEncoded(value);
      EncodedChars(value);
      assert names[..n] == names[..n - 1] + [names[n - 1]];
      assert Restricted(names[..n], params) == Restricted(names[..n - 1], params)[names[n - 1] := value];
    }
  }

  lemma DecodeDot(dot: string, rest: string)
    requires SingleDot(dot)
    ensures Decode(dot + rest) == match Decode(rest) { case Some(r) => Some("." + r) case None => None }
  {
    var s := dot + rest;
    if dot == "." {
      assert s[0] == '.' && s[1..] == rest;
    } else {
      assert s[0] == '%' && s[1] == '2' && (s[2] == 'e' || s[2] == 'E') && s[3..] == rest;
      assert OctetAt(s, 0) == 0x2E;
    }
  }

  /** An encoded value is a dot segment only if it was one before. */
  lemma EncodedDots(value: string)
    ensures SingleDot(Encode(value)) <==> value == "."
    ensures DoubleDot(Encode(value)) <==> value == ".."
  {
    hide Encode, Decode;
    var e := Encode(value);
    DecodeEncoded(value);
    UnreservedEncodesToItself(".");
    UnreservedEncodesToItself("..");
    assert Decode("") == Some("") by { DecodeEncoded(""); assert Encode("") == "" by { EncodedChars(""); } }
    if SingleDot(e) {
      DecodeDot(e, "");
      assert e + "" == e;
    }
    if DoubleDot(e) {
      var n := if e[0] == '.' && SingleDot(e[1..]) then 1 else 3;
      assert n == 1 ==> e[..n] == ".";
      DecodeDot(e[..n], e[n..]);
      DecodeDot(e[n..], "");
      assert e[n..] + "" == e[n..] && e[..n] + e[n..] == e;
    }
  }

  /** A value survives the URL unless it is empty or a dot segment. */
  predicate Carried(value: string) {
    value != "" && value != "." && value != ".."
  }

  ghost predicate AllCarried(route: seq<Segment>, params: Params)
    requires Covers(route, params)
  {
    forall s | s in route :: !s.Literal? ==> Carried(params[s.key])
  }

  lemma {:induction false} PieceCarried(s: Segment, params: Params)
    requires PlainSegment(s) && (!s.Literal? ==> s.key in params)
    ensures var p := Piece(s, params);
      p != "" && !SingleDot(p) && !DoubleDot(p) <==> s.Literal? || Carried(params[s.key])
  {
    hide Encode;
    if s.Literal? {
      PlainTextIsNoDot(s.text);
    } else {
      EncodedDots(params[s.key]);
      EncodedChars(params[s.key]);
    }
  }

  lemma PlainTextIsNoDot(text: string)
    requires text != "." && text != ".." && forall c | c in text :: Unreserved(c)
    ensures !SingleDot(text) && !DoubleDot(text)
  {
    PercentIsReserved();
    assert forall i | 0 <= i < |text| :: text[i] in text && text[i] != '%';
    if text != "" {
      assert text == [text[0]] + text[1..];
      assert |text| > 1 ==> text[1..][0] == text[1];
      assert |text| >= 3 ==> text[..3][0] == text[0] && |text[..3]| == 3;
    }
  }

  predicate PieceArrives(p: string) {
    p != "" && !SingleDot(p) && !DoubleDot(p)
  }

  lemma PiecesCarried(route: seq<Segment>, params: Params)
    requires Plain(route) && Covers(route, params)
    ensures DotFree(Pieces(route, params)) && "" !in Pieces(route, params) <==> AllCarried(route, params)
  {
    hide PlainSegment, SingleDot, DoubleDot, Piece, Carried, Pieces;
    var parts := Pieces(route, params);
    forall i | 0 <= i < |parts|
      ensures PieceArrives(parts[i]) <==> route[i].Literal? || Carried(params[route[i].key])
    {
      assert route[i] in route;
      PieceCarried(route[i], params);
    }
    AllArrive(parts);
  }

  lemma AllArrive(parts: seq<string>)
    ensures DotFree(parts) && "" !in parts <==> forall i | 0 <= i < |parts| :: PieceArrives(parts[i])
  {
    hide SingleDot, DoubleDot;
    if forall i | 0 <= i < |parts| :: PieceArrives(parts[i]) {
      forall i | 0 <= i < |parts| ensures !SingleDot(parts[i]) && !DoubleDot(parts[i]) {
        assert PieceArrives(parts[i]);
      }
      forall p | p in parts ensures p != "" {
        var i :| 0 <= i < |parts| && parts[i] == p;
        assert PieceArrives(parts[i]);
      }
    }
    assert forall i | 0 <= i < |parts| :: parts[i] in parts;
  }

  lemma PathOfUrl(route: seq<Segment>, params: Params, query: seq<(string, string)>)
    requires Plain(route) && route != [] && Covers(route, params)
    ensures PathSegments(Rooted(Pieces(route, params)) + QueryText(query)) == RemoveDots([], Pieces(route, params))
  {
    hide RemoveDots, Split, PathChar, Piece, IndexOf, Rooted;
    var parts := Pieces(route, params);
    var path := Rooted(parts);
    var url := path + QueryText(query);
    RootedChars(route, params);
    PathCharsPlain();
    assert forall i | 0 <= i < |path| :: url[i] == path[i] && path[i] in path;
    forall i | 0 <= i < |parts| ensures '/' !in parts[i] {
      assert route[i] in route;
      PieceChars(route[i], params);
      assert !EncodedChar('/');
    }
    SplitRooted(parts);
    assert url[..|path|] == path;
    assert '?' !in path;
    if query == [] { assert url == path; }
    assert QueryText(query) != "" ==> url[|path|] == '?';
  }

  /**
   * The handler receives exactly the parameters that were sent when every value used is neither empty nor a dot
   * segment; otherwise its route does not match the request at all.
   */
  lemma {:induction false} ParametersArriveExactly(
      route: seq<Segment>, open: bool, params: Params, query: seq<(string, string)>)
    requires Plain(route) && route != [] && Covers(route, params)
    ensures var sent := Invoke(Template(route), Some(params), query);
      && sent.Url?
      && Receive(route, open, sent.text)
         == if AllCarried(route, params) then Params(Restricted(Names(route), params)) else Unmatched
  {
    hide Invoke, PathSegments, RemoveDots, Collected, PlainSegment, Carried, Captures, SingleDot, DoubleDot;
    var parts := Pieces(route, params);
    SentPath(route, params, query);
    PathOfUrl(route, params, query);
    PiecesCarried(route, params);
    if AllCarried(route, params) {
      NoDotsToRemove([], parts);
      assert [] + parts == parts;
      MatchesItsPieces(route, open, params);
      NamesOfRoute(route, params);
      NamedValuesCarried(route, params);
      CollectsAll(Names(route), params, Values(route, params), |Names(route)|);
      assert Names(route)[..|Names(route)|] == Names(route);
    } else {
      Unrecovered(route, open, parts);
    }
  }

  lemma {:induction false} NamedValuesCarried(route: seq<Segment>, params: Params)
    requires Covers(route, params) && AllCarried(route, params)
    ensures forall i | 0 <= i < |Names(route)| :: Names(route)[i] in params && params[Names(route)[i]] != ""
  {
    if route != [] {
      assert forall s | s in route[1..] :: s in route;
      NamedValuesCarried(route[1..], params);
      assert route[0] in route;
    }
  }

  lemma Unrecovered(route: seq<Segment>, open: bool, parts: seq<string>)
    requires Plain(route) && |parts| == |route| && !(DotFree(parts) && "" !in parts)
    ensures Captures(route, open, RemoveDots([], parts)) == None
  {
    hide RemoveDots, PlainSegment, Captures, SingleDot, DoubleDot;
    var r := RemoveDots([], parts);
    DotsShorten([], parts);
    if DotFree(parts) { NoDotsToRemove([], parts); }
    if Captures(route, open, r).Some? { MatchNeeds(route, open, r); }
  }
}
