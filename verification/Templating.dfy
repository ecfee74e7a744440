/**
 Rendering templates (src/engine/templating.rs): what a template string is made of, what text it
 renders to, and how rendering goes through arrays and objects.
 */
module Templating {
  import opened Wrappers
  import opened Text
  import opened Strings
  import opened Json
  import opened TemplatePath
  import opened TemplateExpression

  /**
   A template string, from left to right: text, an expression between `${` and `}`, and so on, up to
   its last text, or to a `${` that nothing closes.
   */
  datatype Pieces =
    | Last(literal: string)
    | Piece(literal: string, expr: string, more: Pieces)
    | Cut(literal: string, tail: string)

  /** `${` occurs nowhere. */
  ghost predicate Quiet(s: string) {
    forall k: nat :: !OccursAt(s, "${", k)
  }

  function ReadPieces(template: string): Pieces
    decreases |template|
  {
    match Find(template, "${")
    case None => Last(template)
    case Some(start) =>
      assert OccursAt(template, "${", start);
      var rest := template[start + 2..];
      match Find(rest, "}")
      case None => Cut(template[..start], rest)
      case Some(end) =>
        assert OccursAt(rest, "}", end);
        Piece(template[..start], rest[..end], ReadPieces(rest[end + 1..]))
  }

  function WritePieces(p: Pieces): string {
    match p
    case Last(literal) => literal
    case Piece(literal, expr, more) => literal + "${" + (expr + "}" + WritePieces(more))
    case Cut(literal, tail) => literal + "${" + tail
  }

  ghost predicate PlainPieces(p: Pieces) {
    Quiet(p.literal)
    && match p
       case Last(_) => true
       case Piece(_, expr, more) => '}' !in expr && PlainPieces(more)
       case Cut(_, tail) => '}' !in tail
  }

  lemma FindsOpen(literal: string, rest: string)
    requires Quiet(literal)
    ensures Find(literal + "${" + rest, "${") == Some(|literal|)
  {
    var s := literal + "${" + rest;
    assert OccursAt(s, "${", |literal|);
    forall k: nat | k < |literal| ensures !OccursAt(s, "${", k) {
      assert !OccursAt(literal, "${", k);
      if k + 2 <= |literal| {
        assert s[k..k + 2] == literal[k..k + 2];
      } else {
        assert s[k..k + 2][1] == '$';
      }
    }
  }

  lemma FindsClose(expr: string, rest: string)
    requires '}' !in expr
    ensures Find(expr + "}" + rest, "}") == Some(|expr|)
  {
    var s := expr + "}" + rest;
    assert OccursAt(s, "}", |expr|);
    forall k: nat | k < |expr| ensures !OccursAt(s, "}", k) {
      assert s[k] == expr[k];
      assert s[k..k + 1][0] == s[k];
    }
  }

  lemma NoClose(s: string)
    ensures Find(s, "}").None? <==> '}' !in s
  {
    forall k: nat ensures OccursAt(s, "}", k) <==> k < |s| && s[k] == '}' {
      if k < |s| {
        assert s[k..k + 1] == [s[k]];
      }
    }
  }

  lemma BeforeFirst(s: string, at: nat)
    requires FirstAt(s, "${", at)
    ensures at + 2 <= |s| && Quiet(s[..at]) && s == s[..at] + "${" + s[at + 2..]
  {
    assert OccursAt(s, "${", at);
    forall k: nat ensures !OccursAt(s[..at], "${", k) {
      if k + 2 <= at {
        assert !OccursAt(s, "${", k);
        assert s[..at][k..k + 2] == s[k..k + 2];
      }
    }
  }

  lemma BeforeClose(s: string, at: nat)
    requires FirstAt(s, "}", at)
    ensures at < |s| && '}' !in s[..at] && s == s[..at] + "}" + s[at + 1..]
  {
    assert OccursAt(s, "}", at);
    forall k | 0 <= k < at ensures s[..at][k] != '}' {
      assert !OccursAt(s, "}", k);
      assert s[k..k + 1] == [s[k]];
    }
  }

  /** Reading loses nothing, and finds the pieces whose texts hold no marks of their own. */
  lemma {:induction false} ReadThenWrite(template: string)
    ensures PlainPieces(ReadPieces(template)) && WritePieces(ReadPieces(template)) == template
    decreases |template|
  {
    var open := Find(template, "${");
    if open.Some? {
      BeforeFirst(template, open.value);
      var rest := template[open.value + 2..];
      NoClose(rest);
      var close := Find(rest, "}");
      if close.Some? {
        BeforeClose(rest, close.value);
        ReadThenWrite(rest[close.value + 1..]);
      }
    }
  }

  lemma {:induction false} WriteThenRead(p: Pieces)
    requires PlainPieces(p)
    ensures ReadPieces(WritePieces(p)) == p
  {
    match p {
      case Last(literal) =>
      case Piece(literal, expr, more) =>
        var tail := expr + "}" + WritePieces(more);
        FindsOpen(literal, tail);
        FindsClose(expr, WritePieces(more));
        assert WritePieces(p)[..|literal|] == literal && WritePieces(p)[|literal| + 2..] == tail;
        assert tail[..|expr|] == expr && tail[|expr| + 1..] == WritePieces(more);
        WriteThenRead(more);
      case Cut(literal, tail) =>
        FindsOpen(literal, tail);
        NoClose(tail);
        assert WritePieces(p)[..|literal|] == literal && WritePieces(p)[|literal| + 2..] == tail;
    }
  }

  /** A template string is its pieces: each plain list of pieces is read from exactly one string. */
  lemma PiecesRoundTrip(p: Pieces)
    ensures ReadPieces(WritePieces(p)) == p <==> PlainPieces(p)
  {
    ReadThenWrite(WritePieces(p));
    if PlainPieces(p) {
      WriteThenRead(p);
    }
  }

  // ---------------------------------------------------------------- rendering a string

  function Shown(r: Rendered): string {
    match r
    case Value(value) => StringOf(value)
    case Omit => ""
  }

  function Prefixed(prefix: string, r: Result<string, TemplateError>): Result<string, TemplateError> {
    match r
    case Ok(text) => Ok(prefix + text)
    case Err(error) => Err(error)
  }

  /** The literals and the shown values in order; the first thing that fails fails the whole. */
  function Substitute(p: Pieces, ctx: Context): Result<string, TemplateError> {
    match p
    case Last(literal) => Ok(literal)
    case Piece(literal, expr, more) =>
      (match Render(expr, ctx)
       case Err(error) => Err(error)
       case Ok(value) => Prefixed(literal + Shown(value), Substitute(more, ctx)))
    case Cut(_, _) => Err(Unterminated)
  }

  function SinglePlaceholder(s: string): Option<string> {
    if "${" <= s && |s| >= 3 && s[|s| - 1] == '}' then
      var inner := s[2..|s| - 1];
      if Find(inner, "${").None? && Find(inner, "}").None? then Some(inner) else None
    else None
  }

  function RenderText(template: string, ctx: Context): Result<Rendered, TemplateError> {
    match SinglePlaceholder(Trim(template))
    case Some(expr) => Render(expr, ctx)
    case None =>
      match Mixed(template, ctx)
      case Ok(text) => Ok(Value(Str(text)))
      case Err(error) => Err(error)
  }

  lemma PrefixNothing(r: Result<string, TemplateError>)
    ensures Prefixed("", r) == r
  {
    if r.Ok? {
      assert "" + r.value == r.value;
    }
  }

  lemma PrefixTwice(a: string, b: string, r: Result<string, TemplateError>)
    ensures Prefixed(a, Prefixed(b, r)) == Prefixed(a + b, r)
  {
    if r.Ok? {
      assert a + (b + r.value) == a + b + r.value;
    }
  }

  function Mixed(template: string, ctx: Context): Result<string, TemplateError> {
    Substitute(ReadPieces(template), ctx)
  }

  /** One turn of the loop in `render_string`: the text up to and with the next expression, and the rest. */
  method RenderNext(rest: string, start: nat, ctx: Context) returns (r: Result<(string, string), TemplateError>)
    requires Find(rest, "${") == Some(start)
    ensures
      match r
      case Err(error) => Mixed(rest, ctx) == Err(error)
      case Ok((text, left)) => |left| < |rest| && Mixed(rest, ctx) == Prefixed(text, Mixed(left, ctx))
  {
    var literal := rest[..start];
    var after := rest[start + 2..];
    var end := Find(after, "}");
    if end.None? {
      return Err(Unterminated);
    }
    var shown := RenderExpression(after[..end.value], ctx);
    if shown.Err? {
      return Err(shown.error);
    }
    return Ok((literal + Shown(shown.value), after[end.value + 1..]));
  }

  method RenderMixed(template: string, ctx: Context) returns (r: Result<string, TemplateError>)
    ensures r == Mixed(template, ctx)
  {
    var output := "";
    var rest := template;
    var start := Find(rest, "${");
    PrefixNothing(Mixed(template, ctx));
    while start.Some?
      invariant start == Find(rest, "${")
      invariant Mixed(template, ctx) == Prefixed(output, Mixed(rest, ctx))
      decreases |rest|
    {
      var next := RenderNext(rest, start.value, ctx);
      if next.Err? {
        return Err(next.error);
      }
      PrefixTwice(output, next.value.0, Mixed(next.value.1, ctx));
      output := output + next.value.0;
      rest := next.value.1;
      start := Find(rest, "${");
    }
    return Ok(output + rest);
  }

  /** `render_string`. */
  method RenderString(template: string, ctx: Context) returns (r: Result<Rendered, TemplateError>)
    ensures r == RenderText(template, ctx)
  {
    var single := SinglePlaceholder(Trim(template));
    if single.Some? {
      r := RenderExpression(single.value, ctx);
      return;
    }
    var text := RenderMixed(template, ctx);
    match text {
      case Ok(output) => return Ok(Value(Str(output)));
      case Err(error) => return Err(error);
    }
  }

  // ---------------------------------------------------------------- rendering in parts

  predicate Complete(p: Pieces) {
    match p
    case Last(_) => true
    case Piece(_, _, more) => Complete(more)
    case Cut(_, _) => false
  }

  function WithPrefix(prefix: string, p: Pieces): Pieces {
    p.(literal := prefix + p.literal)
  }

  function Append(p: Pieces, q: Pieces): Pieces
    requires Complete(p)
  {
    match p
    case Last(literal) => WithPrefix(literal, q)
    case Piece(_, _, more) => p.(more := Append(more, q))
  }

  /** A `${` whose halves stand on either side. */
  predicate Straddles(a: string, b: string) {
    EndsWith(a, '$') && b != "" && b[0] == '{'
  }

  lemma QuietTogether(a: string, b: string)
    requires Quiet(a) && Quiet(b)
    ensures Quiet(a + b) <==> !Straddles(a, b)
  {
    if Straddles(a, b) {
      var k := |a| - 1;
      assert (a + b)[k..k + 2] == "${";
      assert OccursAt(a + b, "${", k);
    } else {
      forall k: nat ensures !OccursAt(a + b, "${", k) {
        assert !OccursAt(a, "${", k);
        if k + 2 <= |a| {
          assert (a + b)[k..k + 2] == a[k..k + 2];
        } else if k >= |a| {
          assert !OccursAt(b, "${", k - |a|);
          if k + 2 <= |a + b| {
            assert (a + b)[k..k + 2] == b[k - |a|..k - |a| + 2];
          }
        } else if k + 2 <= |a + b| {
          assert (a + b)[k..k + 2] == [a[k], b[0]];
        }
      }
    }
  }

  lemma PrefixWrites(prefix: string, q: Pieces)
    ensures WritePieces(WithPrefix(prefix, q)) == prefix + WritePieces(q)
    ensures q.literal == "" ==> WritePieces(q) == "" || WritePieces(q)[0] == '$'
    ensures q.literal != "" ==> WritePieces(q) != "" && WritePieces(q)[0] == q.literal[0]
  {
    match q {
      case Last(literal) =>
      case Piece(literal, expr, more) =>
        var tail := "${" + (expr + "}" + WritePieces(more));
        assert WritePieces(q) == literal + tail;
        assert prefix + literal + tail == prefix + (literal + tail);
        assert WritePieces(WithPrefix(prefix, q)) == prefix + literal + tail;
      case Cut(literal, tail) =>
        assert WritePieces(WithPrefix(prefix, q)) == prefix + (literal + "${" + tail);
    }
  }

  lemma {:induction false} AppendWrites(p: Pieces, q: Pieces)
    requires Complete(p)
    ensures WritePieces(Append(p, q)) == WritePieces(p) + WritePieces(q)
  {
    match p {
      case Last(literal) => PrefixWrites(literal, q);
      case Piece(literal, expr, more) =>
        AppendWrites(more, q);
        var left, right := WritePieces(more), WritePieces(q);
        assert expr + "}" + (left + right) == expr + "}" + left + right;
        assert literal + "${" + (expr + "}" + left + right) == literal + "${" + (expr + "}" + left) + right;
    }
  }

  lemma {:induction false} AppendPlain(p: Pieces, q: Pieces)
    requires PlainPieces(p) && PlainPieces(q) && Complete(p)
    ensures PlainPieces(Append(p, q)) <==> !Straddles(WritePieces(p), WritePieces(q))
  {
    match p {
      case Last(literal) =>
        PrefixWrites("", q);
        QuietTogether(literal, q.literal);
      case Piece(literal, expr, more) =>
        AppendPlain(more, q);
        var tail := WritePieces(more);
        assert WritePieces(p) == literal + "${" + expr + "}" + tail;
        assert EndsWith(WritePieces(p), '$') <==> EndsWith(tail, '$');
    }
  }

  /** Both texts, or what fails first. */
  function Both(a: Result<string, TemplateError>, b: Result<string, TemplateError>): Result<string, TemplateError> {
    match a
    case Ok(text) => Prefixed(text, b)
    case Err(error) => Err(error)
  }

  lemma {:induction false} PrefixSubstitutes(prefix: string, q: Pieces, ctx: Context)
    ensures Substitute(WithPrefix(prefix, q), ctx) == Prefixed(prefix, Substitute(q, ctx))
  {
    match q {
      case Last(_) =>
      case Cut(_, _) =>
      case Piece(literal, expr, more) =>
        var value := Render(expr, ctx);
        assert WithPrefix(prefix, q) == Piece(prefix + literal, expr, more);
        if value.Ok? {
          var text, rest := Shown(value.value), Substitute(more, ctx);
          PrefixTwice(prefix, literal + text, rest);
          Associative(prefix, literal, text);
        }
    }
  }

  lemma {:induction false} AppendSubstitutes(p: Pieces, q: Pieces, ctx: Context)
    requires Complete(p)
    ensures Substitute(Append(p, q), ctx) == Both(Substitute(p, ctx), Substitute(q, ctx))
  {
    match p {
      case Last(literal) => PrefixSubstitutes(literal, q, ctx);
      case Piece(literal, expr, more) =>
        AppendSubstitutes(more, q, ctx);
        if Render(expr, ctx).Ok? && Substitute(more, ctx).Ok? {
          PrefixTwice(literal + Shown(Render(expr, ctx).value), Substitute(more, ctx).value, Substitute(q, ctx));
        }
    }
  }

  /**
   Where no expression is left open and no `${` straddles the seam, and only there, a template reads as its
   two parts do. By `PiecesRoundTrip` the plain pieces of a part are those it is read as.
   */
  lemma ReadsInParts(p: Pieces, q: Pieces, a: string, b: string, whole: string)
    requires PlainPieces(p) && PlainPieces(q) && Complete(p)
    requires a == WritePieces(p) && b == WritePieces(q) && whole == a + b
    ensures ReadPieces(whole) == Append(p, q) <==> !Straddles(a, b)
  {
    AppendWrites(p, q);
    AppendPlain(p, q);
    PiecesRoundTrip(Append(p, q));
  }

  /**
   Rendering in one pass: a template renders to what its parts render to, one after the other. Text
   that came from a value is in neither part, so it is never read for expressions of its own.
   */
  lemma {:induction false} RendersInParts(a: string, b: string, whole: string, ctx: Context)
    requires Complete(ReadPieces(a)) && !Straddles(a, b) && whole == a + b
    ensures Mixed(whole, ctx) == Both(Mixed(a, ctx), Mixed(b, ctx))
  {
    ReadThenWrite(a);
    ReadThenWrite(b);
    ReadsInParts(ReadPieces(a), ReadPieces(b), a, b, whole);
    AppendSubstitutes(ReadPieces(a), ReadPieces(b), ctx);
  }

  /** Whatever text a value has, `${` and all, it appears as it is between the literals around it. */
  lemma ValueAppearsVerbatim(before: string, expr: string, after: string, ctx: Context)
    requires Quiet(before) && Quiet(after) && '}' !in expr
    requires Render(expr, ctx).Ok?
    ensures Mixed(before + "${" + (expr + "}" + after), ctx)
         == Ok(before + Shown(Render(expr, ctx).value) + after)
    ensures forall text :: Render(expr, ctx) == Ok(Value(Str(text))) ==>
      Mixed(before + "${" + (expr + "}" + after), ctx) == Ok(before + text + after)
  {
    var p := Piece(before, expr, Last(after));
    PiecesRoundTrip(p);
    assert WritePieces(p) == before + "${" + (expr + "}" + after);
    assert Substitute(p.more, ctx) == Ok(after);
  }

  // ---------------------------------------------------------------- any string

  type Rendering = Result<Rendered, TemplateError>

  predicate AllOk(renderings: seq<Rendering>, from: nat) {
    forall i :: from <= i < |renderings| ==> renderings[i].Ok?
  }

  predicate FailsFirst(renderings: seq<Rendering>, from: nat, i: nat) {
    from <= i < |renderings| && renderings[i].Err? && forall j :: from <= j < i ==> renderings[j].Ok?
  }

  /** `error` is the first there is. */
  ghost predicate FirstError(renderings: seq<Rendering>, from: nat, error: TemplateError) {
    exists i: nat :: FailsFirst(renderings, from, i) && renderings[i].error == error
  }

  /** The texts around the expressions, one more than there are expressions. */
  function Literals(p: Pieces): seq<string> {
    if p.Piece? then [p.literal] + Literals(p.more) else [p.literal]
  }

  function Renderings(p: Pieces, ctx: Context): seq<Rendering> {
    if p.Piece? then [Render(p.expr, ctx)] + Renderings(p.more, ctx) else []
  }

  /** What an expression leaves in the text: nothing if it is left out. */
  predicate Leaves(rendering: Rendering, text: string) {
    match rendering
    case Ok(Value(value)) => text == StringOf(value)
    case Ok(Omit) => text == ""
    case Err(_) => false
  }

  predicate AllLeave(renderings: seq<Rendering>, texts: seq<string>) {
    |texts| == |renderings| && forall i :: 0 <= i < |renderings| ==> Leaves(renderings[i], texts[i])
  }

  function Interleaved(literals: seq<string>, texts: seq<string>): string
    requires |literals| == |texts| + 1
  {
    if texts == [] then literals[0] else literals[0] + texts[0] + Interleaved(literals[1..], texts[1..])
  }

  predicate IsInterleaved(text: string, literals: seq<string>, texts: seq<string>) {
    |literals| == |texts| + 1 && text == Interleaved(literals, texts)
  }

  /**
   The literals with what the expressions leave between them; or the error of the first expression that
   fails, or, where none does, that an expression is left open.
   */
  ghost predicate ComesTo(
    literals: seq<string>, renderings: seq<Rendering>, closed: bool, r: Result<string, TemplateError>)
  {
    match r
    case Ok(text) =>
      closed && exists texts :: AllLeave(renderings, texts) && IsInterleaved(text, literals, texts)
    case Err(error) =>
      FirstError(renderings, 0, error) || (!closed && AllOk(renderings, 0) && error == Unterminated)
  }

  lemma OneMore(
    literal: string, first: Rendered, literals: seq<string>, renderings: seq<Rendering>, closed: bool,
    r: Result<string, TemplateError>)
    requires ComesTo(literals, renderings, closed, r)
    ensures ComesTo([literal] + literals, [Ok(first)] + renderings, closed, Prefixed(literal + Shown(first), r))
  {
    var all := [Ok(first)] + renderings;
    match r {
      case Ok(text) =>
        var texts :| AllLeave(renderings, texts) && IsInterleaved(text, literals, texts);
        var left := [Shown(first)] + texts;
        assert ([literal] + literals)[1..] == literals && left[1..] == texts;
        assert AllLeave(all, left) && IsInterleaved(literal + Shown(first) + text, [literal] + literals, left);
      case Err(error) =>
        if i: nat :| FailsFirst(renderings, 0, i) && renderings[i].error == error {
          assert FailsFirst(all, 0, i + 1);
        }
    }
  }

  lemma {:induction false} SubstitutesExactly(p: Pieces, ctx: Context)
    ensures ComesTo(Literals(p), Renderings(p, ctx), Complete(p), Substitute(p, ctx))
    decreases p
  {
    match p {
      case Last(literal) => assert AllLeave([], []) && IsInterleaved(literal, [literal], []);
      case Cut(_, _) =>
      case Piece(literal, expr, more) =>
        SubstitutesExactly(more, ctx);
        var first := Render(expr, ctx);
        if first.Ok? {
          OneMore(literal, first.value, Literals(more), Renderings(more, ctx), Complete(more), Substitute(more, ctx));
        } else {
          assert FailsFirst(Renderings(p, ctx), 0, 0);
        }
    }
  }

  /** What any string comes to that is not a single placeholder. */
  lemma MixedExactly(template: string, ctx: Context)
    ensures
      var p := ReadPieces(template);
      ComesTo(Literals(p), Renderings(p, ctx), Complete(p), Mixed(template, ctx))
  {
    SubstitutesExactly(ReadPieces(template), ctx);
  }

  // ---------------------------------------------------------------- a placeholder on its own

  lemma SingleReads(expr: string)
    requires Quiet(expr) && '}' !in expr
    ensures SinglePlaceholder("${" + expr + "}") == Some(expr)
  {
    var s := "${" + expr + "}";
    assert s[2..|s| - 1] == expr;
    NoClose(expr);
  }

  /** A string is taken for a single placeholder exactly when that is all it is made of. */
  lemma SingleExactly(s: string, expr: string)
    ensures SinglePlaceholder(s) == Some(expr) <==> Quiet(expr) && ReadPieces(s) == Piece("", expr, Last(""))
  {
    var p := Piece("", expr, Last(""));
    assert WritePieces(p) == "${" + expr + "}";
    if SinglePlaceholder(s) == Some(expr) {
      NoClose(expr);
      assert s == "${" + expr + "}";
      PiecesRoundTrip(p);
    }
    if Quiet(expr) && ReadPieces(s) == p {
      ReadThenWrite(s);
      SingleReads(expr);
    }
  }

  /**
   A placeholder with nothing but space around it renders to the value a path selects, of whatever
   type it is.
   */
  lemma PlaceholderKeepsType(left: string, tokens: seq<PathToken>, right: string, ctx: Context)
    requires AllWhite(left) && AllWhite(right) && Plain(tokens)
    requires
      var path := WritePath(tokens);
      PlainExpression(Expression(path, false, [])) && !NamesResponse(path) && Quiet(path) && '}' !in path
    requires !Missing(Follow(ctx.args, tokens))
    ensures RenderText(left + ("${" + WritePath(tokens) + "}") + right, ctx)
         == Ok(Value(Follow(ctx.args, tokens).value))
  {
    var path := WritePath(tokens);
    TrimsPadding(left, "${" + path + "}", right);
    SingleReads(path);
    PathRenders(tokens, ctx);
  }

  // ---------------------------------------------------------------- rendering a value

  function RenderJson(template: Json, ctx: Context): Rendering
    decreases template, 0
  {
    match template
    case Str(text) => RenderText(text, ctx)
    case Array(items) =>
      (match RenderItems(items, ctx)
       case Ok(out) => Ok(Value(Array(out)))
       case Err(error) => Err(error))
    case Object(members) =>
      (match RenderMembers(members, ctx)
       case Ok(out) => Ok(Value(Object(out)))
       case Err(error) => Err(error))
    case _ => Ok(Value(template))
  }

  function Collected<T>(items: seq<T>, r: Result<seq<T>, TemplateError>): Result<seq<T>, TemplateError> {
    match r
    case Ok(more) => Ok(items + more)
    case Err(error) => Err(error)
  }

  function ItemOf(r: Rendered): seq<Json> {
    match r
    case Value(value) => [value]
    case Omit => []
  }

  function MemberOf(key: string, r: Rendered): seq<Member> {
    match r
    case Value(value) => [Member(key, value)]
    case Omit => []
  }

  function RenderItems(items: seq<Json>, ctx: Context): Result<seq<Json>, TemplateError>
    decreases items
  {
    if items == [] then Ok([])
    else
      match RenderJson(items[0], ctx)
      case Err(error) => Err(error)
      case Ok(r) => Collected(ItemOf(r), RenderItems(items[1..], ctx))
  }

  function RenderMembers(members: seq<Member>, ctx: Context): Result<seq<Member>, TemplateError>
    decreases members
  {
    if members == [] then Ok([])
    else
      match RenderJson(members[0].value, ctx)
      case Err(error) => Err(error)
      case Ok(r) => Collected(MemberOf(members[0].key, r), RenderMembers(members[1..], ctx))
  }

  lemma CollectNothing<T>(r: Result<seq<T>, TemplateError>)
    ensures Collected([], r) == r
  {
    if r.Ok? {
      assert [] + r.value == r.value;
    }
  }

  lemma CollectTwice<T>(a: seq<T>, b: seq<T>, r: Result<seq<T>, TemplateError>)
    ensures Collected(a, Collected(b, r)) == Collected(a + b, r)
  {
    if r.Ok? {
      assert a + (b + r.value) == a + b + r.value;
    }
  }

  /** `render_inner`. */
  method RenderInner(template: Json, ctx: Context) returns (r: Rendering)
    ensures r == RenderJson(template, ctx)
    decreases template
  {
    match template {
      case Str(text) => r := RenderString(text, ctx);
      case Array(items) =>
        var rendered := RenderArray(items, ctx);
        r := match rendered case Ok(out) => Ok(Value(Array(out))) case Err(error) => Err(error);
      case Object(members) =>
        var rendered := RenderObject(members, ctx);
        r := match rendered case Ok(out) => Ok(Value(Object(out))) case Err(error) => Err(error);
      case _ => r := Ok(Value(template));
    }
  }

  /** The loop of `render_inner` over an array. */
  method RenderArray(items: seq<Json>, ctx: Context) returns (r: Result<seq<Json>, TemplateError>)
    ensures r == RenderItems(items, ctx)
    decreases items
  {
    var out := [];
    var i := 0;
    CollectNothing(RenderItems(items, ctx));
    assert items[0..] == items;
    while i < |items|
      invariant 0 <= i <= |items|
      invariant RenderItems(items, ctx) == Collected(out, RenderItems(items[i..], ctx))
    {
      assert items[i..][0] == items[i] && items[i..][1..] == items[i + 1..];
      var item := RenderInner(items[i], ctx);
      if item.Err? {
        return Err(item.error);
      }
      CollectTwice(out, ItemOf(item.value), RenderItems(items[i + 1..], ctx));
      out := out + ItemOf(item.value);
      i := i + 1;
    }
    assert out + [] == out;
    return Ok(out);
  }

  /**
   The loop of `render_inner` over an object. Keys of an object are distinct, so inserting a rendered
   member appends it; the output is in the order of the input.
   */
  method RenderObject(members: seq<Member>, ctx: Context) returns (r: Result<seq<Member>, TemplateError>)
    ensures r == RenderMembers(members, ctx)
    decreases members
  {
    var out := [];
    var i := 0;
    CollectNothing(RenderMembers(members, ctx));
    assert members[0..] == members;
    while i < |members|
      invariant 0 <= i <= |members|
      invariant RenderMembers(members, ctx) == Collected(out, RenderMembers(members[i..], ctx))
    {
      assert members[i..][0] == members[i] && members[i..][1..] == members[i + 1..];
      var value := RenderInner(members[i].value, ctx);
      if value.Err? {
        return Err(value.error);
      }
      CollectTwice(out, MemberOf(members[i].key, value.value), RenderMembers(members[i + 1..], ctx));
      out := out + MemberOf(members[i].key, value.value);
      i := i + 1;
    }
    assert out + [] == out;
    return Ok(out);
  }

  /** `render_value`. */
  method RenderValue(template: Json, ctx: Context) returns (r: Result<Json, TemplateError>)
    ensures
      match RenderJson(template, ctx)
      case Err(error) => r == Err(error)
      case Ok(Value(value)) => r == Ok(value)
      case Ok(Omit) => r == Ok(Null)
  {
    var rendering := RenderInner(template, ctx);
    match rendering {
      case Err(error) => return Err(error);
      case Ok(Value(value)) => return Ok(value);
      case Ok(Omit) => return Ok(Null);
    }
  }
}
