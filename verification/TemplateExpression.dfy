/**
 The expressions inside `${…}` (src/engine/templating.rs): a base path, `|`-separated filters, and a
 trailing `?` for values that may be missing.
 */
module TemplateExpression {
  import opened Wrappers
  import opened Strings
  import opened Json
  import opened TemplatePath

  datatype TemplateError =
    | Unterminated
    | EmptyExpression
    | UnsupportedFilter(filter: string)
    | MissingValue(base: string)

  // ---------------------------------------------------------------- parsing

  /** A default keeps the text between its parentheses; `DefaultLiteral` says what it stands for. */
  datatype Filter = Csv | Default(literal: string)

  datatype Expression = Expression(base: string, optional: bool, filters: seq<Filter>)

  predicate IsCsv(s: string) {
    |s| == 3 && Lower(s[0]) == 'c' && Lower(s[1]) == 's' && Lower(s[2]) == 'v'
  }

  function ParseFilter(raw: string): Result<Filter, TemplateError> {
    var filter := Trim(raw);
    if IsCsv(filter) then Ok(Csv)
    else if |filter| >= 9 && filter[..8] == "default(" && EndsWith(filter, ')') then
      Ok(Default(filter[8..|filter| - 1]))
    else Err(UnsupportedFilter(filter))
  }

  function ParseFilters(raws: seq<string>): Result<seq<Filter>, TemplateError> {
    if raws == [] then Ok([])
    else
      match ParseFilter(raws[0])
      case Err(error) => Err(error)
      case Ok(filter) =>
        match ParseFilters(raws[1..])
        case Err(error) => Err(error)
        case Ok(filters) => Ok([filter] + filters)
  }

  function Parse(text: string): Result<Expression, TemplateError> {
    var trimmed := Trim(text);
    var parts := Split(TrimEndMatches(trimmed, '?'), '|');
    var base := Trim(parts[0]);
    if base == "" then Err(EmptyExpression)
    else
      match ParseFilters(parts[1..])
      case Err(error) => Err(error)
      case Ok(filters) => Ok(Expression(base, EndsWith(trimmed, '?'), filters))
  }

  function WithFilter(filters: seq<Filter>, last: Result<Filter, TemplateError>): Result<seq<Filter>, TemplateError> {
    match last
    case Err(error) => Err(error)
    case Ok(filter) => Ok(filters + [filter])
  }

  lemma ParseFiltersCons(raws: seq<string>, k: nat)
    requires 0 < k <= |raws|
    ensures
      ParseFilters(raws[..k])
      == match ParseFilter(raws[0])
         case Err(error) => Err(error)
         case Ok(filter) =>
           match ParseFilters(raws[1..][..k - 1])
           case Err(error) => Err(error)
           case Ok(filters) => Ok([filter] + filters)
  {
    assert raws[..k][1..] == raws[1..][..k - 1];
  }

  lemma FilterAlone(only: Result<Filter, TemplateError>)
    ensures only.Ok? ==> WithFilter([], only) == Ok([only.value] + [])
  {
    if only.Ok? {
      assert [only.value] + [] == [] + [only.value];
    }
  }

  lemma FilterBetween(first: Filter, inner: seq<Filter>, last: Result<Filter, TemplateError>)
    ensures last.Ok? ==> WithFilter([first] + inner, last) == Ok([first] + WithFilter(inner, last).value)
  {
    if last.Ok? {
      assert [first] + (inner + [last.value]) == [first] + inner + [last.value];
    }
  }

  lemma {:induction false} ParseFiltersSnoc(raws: seq<string>, k: nat)
    requires k < |raws| && ParseFilters(raws[..k]).Ok?
    ensures ParseFilters(raws[..k + 1]) == WithFilter(ParseFilters(raws[..k]).value, ParseFilter(raws[k]))
    decreases k
  {
    ParseFiltersCons(raws, k + 1);
    if k > 0 {
      ParseFiltersCons(raws, k);
      ParseFiltersSnoc(raws[1..], k - 1);
      FilterBetween(ParseFilter(raws[0]).value, ParseFilters(raws[1..][..k - 1]).value, ParseFilter(raws[k]));
    } else {
      assert raws[..0] == [] && raws[1..][..0] == [];
      FilterAlone(ParseFilter(raws[0]));
    }
  }

  lemma {:induction false} ParseFiltersStops(raws: seq<string>, k: nat)
    requires k <= |raws| && ParseFilters(raws[..k]).Err?
    ensures ParseFilters(raws) == ParseFilters(raws[..k])
    decreases k
  {
    ParseFiltersCons(raws, k);
    ParseFiltersCons(raws, |raws|);
    assert raws[1..][..|raws| - 1] == raws[1..];
    assert raws[..|raws|] == raws;
    if ParseFilter(raws[0]).Ok? {
      ParseFiltersStops(raws[1..], k - 1);
    }
  }

  /** `parse_expression`. */
  method ParseExpression(text: string) returns (r: Result<Expression, TemplateError>)
    ensures r == Parse(text)
  {
    var trimmed := Trim(text);
    var optional := EndsWith(trimmed, '?');
    var parts := Split(TrimEndMatches(trimmed, '?'), '|');
    var base := Trim(parts[0]);
    if base == "" {
      return Err(EmptyExpression);
    }
    var raws := parts[1..];
    var filters := [];
    var k := 0;
    while k < |raws|
      invariant 0 <= k <= |raws|
      invariant ParseFilters(raws[..k]) == Ok(filters)
    {
      ParseFiltersSnoc(raws, k);
      var filter := ParseFilter(raws[k]);
      if filter.Err? {
        ParseFiltersStops(raws, k + 1);
        return Err(filter.error);
      }
      filters := filters + [filter.value];
      k := k + 1;
    }
    assert raws[..|raws|] == raws;
    return Ok(Expression(base, optional, filters));
  }

  // ---------------------------------------------------------------- writing an expression

  function WriteFilter(f: Filter): string {
    match f
    case Csv => "csv"
    case Default(literal) => "default(" + literal + ")"
  }

  function FilterTexts(filters: seq<Filter>): seq<string> {
    seq(|filters|, i requires 0 <= i < |filters| => WriteFilter(filters[i]))
  }

  function WriteFilters(filters: seq<Filter>): string {
    if filters == [] then "" else "|" + WriteFilter(filters[0]) + WriteFilters(filters[1..])
  }

  function WriteExpression(e: Expression): string {
    e.base + WriteFilters(e.filters) + if e.optional then "?" else ""
  }

  predicate PlainFilter(f: Filter) {
    f.Default? ==> '|' !in f.literal
  }

  /**
   No stray spaces or bars, and no question mark that would be read as the trailing one. A default with
   a bar in it is out: the bar splits it.
   */
  predicate PlainExpression(e: Expression) {
    && e.base != "" && Trimmed(e.base) && '|' !in e.base
    && (e.filters == [] ==> !EndsWith(e.base, '?'))
    && forall f <- e.filters :: PlainFilter(f)
  }

  lemma ParseWrittenFilter(f: Filter)
    ensures ParseFilter(WriteFilter(f)) == Ok(f)
  {
    if f.Default? {
      DefaultText(f.literal);
    }
  }

  lemma DefaultText(literal: string)
    ensures var text := "default(" + literal + ")";
            && |text| >= 9 && text[..8] == "default(" && EndsWith(text, ')')
            && text[8..|text| - 1] == literal && Trim(text) == text
  {
    var text := "default(" + literal + ")";
    assert text[..8] == "default(";
    assert text[8..|text| - 1] == literal;
    assert text[0] == 'd' && !White('d') && !White(')');
  }

  predicate ParsesTo(raw: string, filter: Filter) {
    ParseFilter(raw) == Ok(filter)
  }

  lemma {:induction false} ParseTexts(raws: seq<string>, filters: seq<Filter>)
    requires |raws| == |filters| && forall i :: 0 <= i < |raws| ==> ParsesTo(raws[i], filters[i])
    ensures ParseFilters(raws) == Ok(filters)
    decreases |raws|
  {
    if raws != [] {
      assert ParsesTo(raws[0], filters[0]);
      ParseTexts(raws[1..], filters[1..]);
      assert filters == [filters[0]] + filters[1..];
    }
  }

  lemma ParseWrittenFilters(filters: seq<Filter>)
    ensures ParseFilters(FilterTexts(filters)) == Ok(filters)
  {
    var raws := FilterTexts(filters);
    forall i | 0 <= i < |raws| ensures ParsesTo(raws[i], filters[i]) {
      ParseWrittenFilter(filters[i]);
    }
    ParseTexts(raws, filters);
  }

  lemma FilterTextsCons(filters: seq<Filter>)
    requires filters != []
    ensures FilterTexts(filters) == [WriteFilter(filters[0])] + FilterTexts(filters[1..])
  {
  }

  lemma SplitBar(base: string, after: string)
    requires '|' !in base
    ensures Split(base + ("|" + after), '|') == [base] + Split(after, '|')
  {
    assert base + ("|" + after) == base + ['|'] + after;
    SplitAt(base, '|', after);
  }

  lemma NoBarWritten(f: Filter)
    requires PlainFilter(f)
    ensures '|' !in WriteFilter(f)
  {
  }

  lemma {:induction false} SplitWritten(base: string, filters: seq<Filter>)
    requires '|' !in base && forall f <- filters :: PlainFilter(f)
    ensures Split(base + WriteFilters(filters), '|') == [base] + FilterTexts(filters)
    decreases |filters|
  {
    if filters == [] {
      assert base + WriteFilters(filters) == base;
      SplitWhole(base, '|');
    } else {
      var head, rest := WriteFilter(filters[0]), WriteFilters(filters[1..]);
      assert PlainFilter(filters[0]);
      NoBarWritten(filters[0]);
      assert WriteFilters(filters) == "|" + (head + rest);
      SplitBar(base, head + rest);
      SplitWritten(head, filters[1..]);
      FilterTextsCons(filters);
    }
  }

  lemma {:induction false} WrittenEnds(base: string, filters: seq<Filter>)
    requires base != "" && Trimmed(base) && (filters == [] ==> !EndsWith(base, '?'))
    ensures
      var s := base + WriteFilters(filters);
      s != "" && !White(s[0]) && !White(s[|s| - 1]) && !EndsWith(s, '?')
    decreases |filters|
  {
    if filters == [] {
      assert base + WriteFilters(filters) == base;
    } else {
      var head := "|" + WriteFilter(filters[0]);
      WrittenEnds(head, filters[1..]);
      assert base + WriteFilters(filters) == base + (head + WriteFilters(filters[1..]));
    }
  }

  lemma {:induction false} PlainParses(e: Expression)
    requires PlainExpression(e)
    ensures Parse(WriteExpression(e)) == Ok(e)
  {
    var body := e.base + WriteFilters(e.filters);
    var text := WriteExpression(e);
    WrittenEnds(e.base, e.filters);
    assert Trim(text) == text;
    assert TrimEndMatches(body, '?') == body;
    if e.optional {
      assert text[..|text| - 1] == body;
    } else {
      assert text == body;
    }
    assert TrimEndMatches(text, '?') == body;
    SplitWritten(e.base, e.filters);
    ParseWrittenFilters(e.filters);
  }

  lemma {:induction false} ParsedFiltersPlain(raws: seq<string>)
    requires forall raw <- raws :: '|' !in raw
    requires ParseFilters(raws).Ok?
    ensures forall f <- ParseFilters(raws).value :: PlainFilter(f)
  {
    if raws != [] {
      ParsedFilterPlain(raws[0]);
      ParsedFiltersPlain(raws[1..]);
    }
  }

  lemma {:induction false} TrimKeepsOut(s: string, c: char)
    requires c !in s
    ensures c !in Trim(s)
  {
    StartKeepsOut(s, c);
  }

  lemma {:induction false} StartKeepsOut(s: string, c: char)
    requires c !in s
    ensures c !in TrimStart(s)
  {
    if s != "" && White(s[0]) {
      StartKeepsOut(s[1..], c);
    }
  }

  lemma ParsedFilterPlain(raw: string)
    requires '|' !in raw && ParseFilter(raw).Ok?
    ensures PlainFilter(ParseFilter(raw).value)
  {
    TrimKeepsOut(raw, '|');
  }

  /** Exactly the plain expressions survive being written and parsed. */
  lemma ExpressionRoundTrip(e: Expression)
    ensures Parse(WriteExpression(e)) == Ok(e) <==> PlainExpression(e)
  {
    if PlainExpression(e) {
      PlainParses(e);
    } else if Parse(WriteExpression(e)) == Ok(e) {
      var parts := Split(TrimEndMatches(Trim(WriteExpression(e)), '?'), '|');
      TrimKeepsOut(parts[0], '|');
      ParsedFiltersPlain(parts[1..]);
    }
  }

  // ---------------------------------------------------------------- any expression

  predicate AllMarks(s: string) {
    forall c <- s :: c == '?'
  }

  /** Parts with bars between them and question marks behind, and space around it all. */
  ghost predicate SpeltAs(text: string, parts: seq<string>, marks: string) {
    var body := Joined(parts, '|');
    && parts != [] && NoneHas(parts, '|') && AllMarks(marks) && !EndsWith(body, '?')
    && Trim(text) == body + marks
  }

  lemma MarksTaken(body: string, marks: string)
    requires AllMarks(marks) && !EndsWith(body, '?')
    ensures TrimEndMatches(body + marks, '?') == body
  {
    var s := body + marks;
    forall i | |body| <= i < |s| ensures s[i] == '?' {
      assert s[i] == marks[i - |body|] && marks[i - |body|] in marks;
    }
    assert body != "" ==> s[|body| - 1] == body[|body| - 1];
  }

  /** Every text is spelt in exactly one way. */
  lemma SpeltOneWay(text: string, parts: seq<string>, marks: string)
    ensures
      var body := TrimEndMatches(Trim(text), '?');
      SpeltAs(text, parts, marks) <==> parts == Split(body, '|') && Trim(text) == body + marks
  {
    var trimmed := Trim(text);
    var body := TrimEndMatches(trimmed, '?');
    JoinSplit(body, '|');
    if SpeltAs(text, parts, marks) {
      MarksTaken(Joined(parts, '|'), marks);
      SplitJoined(parts, '|');
    }
    if trimmed == body + marks {
      forall i | 0 <= i < |marks| ensures marks[i] == '?' {
        assert marks[i] == trimmed[|body| + i];
      }
    }
  }

  predicate SpellsCsv(s: string) {
    |s| == 3 && s[0] in "cC" && s[1] in "sS" && s[2] in "vV"
  }

  /** The text between two bars, trimmed, is `csv` in any letter case, or a literal in `default(` and `)`. */
  predicate FilterSpelt(raw: string, f: Filter) {
    match f
    case Csv => SpellsCsv(Trim(raw))
    case Default(literal) => Trim(raw) == "default(" + literal + ")"
  }

  ghost predicate IsFilter(raw: string) {
    exists f :: FilterSpelt(raw, f)
  }

  lemma FilterExactly(raw: string, f: Filter)
    ensures ParseFilter(raw) == Ok(f) <==> FilterSpelt(raw, f)
    ensures ParseFilter(raw).Err? ==> ParseFilter(raw) == Err(UnsupportedFilter(Trim(raw))) && !IsFilter(raw)
  {
    var filter := Trim(raw);
    if f.Default? {
      DefaultText(f.literal);
    }
    forall g | FilterSpelt(raw, g) ensures ParseFilter(raw) == Ok(g) {
      if g.Default? {
        DefaultText(g.literal);
      }
    }
    if |filter| >= 9 && filter[..8] == "default(" && EndsWith(filter, ')') {
      assert filter == filter[..8] + filter[8..|filter| - 1] + ")";
    }
  }

  predicate FiltersSpelt(raws: seq<string>, filters: seq<Filter>) {
    |raws| == |filters| && forall k :: 0 <= k < |raws| ==> FilterSpelt(raws[k], filters[k])
  }

  /** The first part that is no filter is the `k`-th. */
  ghost predicate FirstUnsupported(raws: seq<string>, k: nat) {
    k < |raws| && !IsFilter(raws[k]) && forall j :: 0 <= j < k ==> IsFilter(raws[j])
  }

  lemma {:induction false} FiltersExactly(raws: seq<string>)
    ensures
      match ParseFilters(raws)
      case Ok(filters) => FiltersSpelt(raws, filters)
      case Err(error) => exists k: nat :: FirstUnsupported(raws, k) && error == UnsupportedFilter(Trim(raws[k]))
    decreases |raws|
  {
    if raws != [] {
      var first, rest := ParseFilter(raws[0]), raws[1..];
      FiltersExactly(rest);
      if first.Err? {
        FilterExactly(raws[0], Csv);
        assert FirstUnsupported(raws, 0);
      } else {
        FilterExactly(raws[0], first.value);
        if ParseFilters(rest).Err? {
          var k: nat :| FirstUnsupported(rest, k) && ParseFilters(rest).error == UnsupportedFilter(Trim(rest[k]));
          assert FirstUnsupported(raws, k + 1) by {
            forall j | 0 <= j < k + 1 ensures IsFilter(raws[j]) {
              assert j > 0 ==> raws[j] == rest[j - 1];
            }
          }
        }
      }
    }
  }

  /** What an expression spelt with these parts and marks is, or what is wrong with it. */
  ghost predicate Means(parts: seq<string>, marks: string, r: Result<Expression, TemplateError>)
    requires parts != []
  {
    match r
    case Ok(e) =>
      Trim(parts[0]) == e.base != "" && FiltersSpelt(parts[1..], e.filters) && (e.optional <==> marks != "")
    case Err(EmptyExpression) => Trim(parts[0]) == ""
    case Err(error) =>
      Trim(parts[0]) != ""
      && exists k: nat :: FirstUnsupported(parts[1..], k) && error == UnsupportedFilter(Trim(parts[1..][k]))
  }

  /**
   How any expression at all is read: spaces around it and around its parts mean nothing, any number of
   question marks makes it optional, filters come in their order, and the first fault is reported.
   */
  lemma ParsesExactly(text: string, parts: seq<string>, marks: string)
    requires SpeltAs(text, parts, marks)
    ensures Means(parts, marks, Parse(text))
  {
    SpeltOneWay(text, parts, marks);
    FiltersExactly(parts[1..]);
    var body := TrimEndMatches(Trim(text), '?');
    assert EndsWith(Trim(text), '?') <==> marks != "" by {
      if marks != "" {
        assert Trim(text)[|Trim(text)| - 1] == marks[|marks| - 1];
      } else {
        assert Trim(text) == body;
      }
    }
  }

  // ---------------------------------------------------------------- rendering

  /** `json` stands for `serde_json::from_str`. */
  datatype Context = Context(args: Json, response: Option<Json>, json: string -> Option<Json>)

  datatype Rendered = Value(value: Json) | Omit

  /** `value_to_string`: a string as it is, anything else as JSON. */
  function StringOf(v: Json): string {
    if v.Str? then v.text else ToText(v)
  }

  function Texts(items: seq<Json>): seq<string> {
    seq(|items|, i requires 0 <= i < |items| => StringOf(items[i]))
  }

  function CsvText(v: Json): string {
    if v.Array? then Joined(Texts(v.items), ',') else StringOf(v)
  }

  /** `parse_default_literal`: nothing is null, JSON is itself, and anything else is a string. */
  function DefaultLiteral(raw: string, ctx: Context): Json {
    var trimmed := Trim(raw);
    if trimmed == "" then Null
    else match ctx.json(trimmed) case Some(v) => v case None => Str(trimmed)
  }

  predicate Missing(value: Option<Json>) {
    value == None || value == Some(Null)
  }

  function Resolve(base: string, ctx: Context): Option<Json> {
    if base == "$" then ctx.response
    else if |base| >= 2 && base[..2] == "$." then
      match ctx.response
      case Some(response) => Follow(response, Tokens(base[2..], ""))
      case None => None
    else Follow(ctx.args, Tokens(base, ""))
  }

  function ApplyFilter(value: Option<Json>, f: Filter, ctx: Context): Option<Json> {
    match f
    case Default(literal) => if Missing(value) then Some(DefaultLiteral(literal, ctx)) else value
    case Csv => (match value case Some(v) => Some(Str(CsvText(v))) case None => None)
  }

  function ApplyFilters(value: Option<Json>, filters: seq<Filter>, ctx: Context): Option<Json>
    decreases |filters|
  {
    if filters == [] then value else ApplyFilters(ApplyFilter(value, filters[0], ctx), filters[1..], ctx)
  }

  function Render(text: string, ctx: Context): Result<Rendered, TemplateError> {
    match Parse(text)
    case Err(error) => Err(error)
    case Ok(e) =>
      var value := ApplyFilters(Resolve(e.base, ctx), e.filters, ctx);
      if !Missing(value) then Ok(Value(value.value))
      else if e.optional then Ok(Omit)
      else Err(MissingValue(e.base))
  }

  /** `render_expression`. */
  method RenderExpression(text: string, ctx: Context) returns (r: Result<Rendered, TemplateError>)
    ensures r == Render(text, ctx)
  {
    var parsed := ParseExpression(text);
    if parsed.Err? {
      return Err(parsed.error);
    }
    var e := parsed.value;
    var value := Resolve(e.base, ctx);
    var k := 0;
    while k < |e.filters|
      invariant 0 <= k <= |e.filters|
      invariant ApplyFilters(Resolve(e.base, ctx), e.filters, ctx) == ApplyFilters(value, e.filters[k..], ctx)
    {
      assert e.filters[k..][1..] == e.filters[k + 1..];
      match e.filters[k] {
        case Default(literal) =>
          if Missing(value) {
            value := Some(DefaultLiteral(literal, ctx));
          }
        case Csv =>
          if value.Some? {
            value := Some(Str(CsvText(value.value)));
          }
      }
      k := k + 1;
    }
    if Missing(value) {
      if e.optional {
        return Ok(Omit);
      }
      return Err(MissingValue(e.base));
    }
    return Ok(Value(value.value));
  }

  // ---------------------------------------------------------------- when a value is missing

  predicate DefaultIsNull(f: Filter, ctx: Context) {
    f.Default? ==> DefaultLiteral(f.literal, ctx) == Null
  }

  /** A `csv` that meets a null, which it turns into the text "null". */
  predicate CsvMeetsNull(value: Option<Json>, filters: seq<Filter>, i: nat)
    requires i < |filters|
  {
    filters[i].Csv? && (value == Some(Null) || exists j :: 0 <= j < i && filters[j].Default?)
  }

  /**
   Nothing supplies a value: no default is other than null, and no `csv` comes where there is a null,
   which only a value that is absent altogether, and not yet defaulted to null, escapes.
   */
  predicate StaysMissing(value: Option<Json>, filters: seq<Filter>, ctx: Context) {
    && Missing(value)
    && (forall f <- filters :: DefaultIsNull(f, ctx))
    && (forall i :: 0 <= i < |filters| ==> !CsvMeetsNull(value, filters, i))
  }

  lemma StaysMissingStep(value: Option<Json>, filters: seq<Filter>, ctx: Context)
    requires filters != []
    ensures StaysMissing(value, filters, ctx)
       <==> Missing(value) && StaysMissing(ApplyFilter(value, filters[0], ctx), filters[1..], ctx)
  {
    var next, rest := ApplyFilter(value, filters[0], ctx), filters[1..];
    if StaysMissing(value, filters, ctx) {
      assert DefaultIsNull(filters[0], ctx);
      assert !CsvMeetsNull(value, filters, 0);
      forall i | 0 <= i < |rest| ensures !CsvMeetsNull(next, rest, i) {
        assert !CsvMeetsNull(value, filters, i + 1);
        assert rest[i] == filters[i + 1];
        assert forall j :: 0 <= j < i && rest[j].Default? ==> filters[j + 1].Default?;
      }
    }
    if Missing(value) && StaysMissing(next, rest, ctx) {
      forall f | f in filters ensures DefaultIsNull(f, ctx) {
        assert f == filters[0] || f in rest;
      }
      forall i | 0 <= i < |filters| ensures !CsvMeetsNull(value, filters, i) {
        if i > 0 {
          assert !CsvMeetsNull(next, rest, i - 1);
          assert rest[i - 1] == filters[i];
          assert forall j :: 0 < j < i && filters[j].Default? ==> rest[j - 1].Default?;
        }
      }
    }
  }

  lemma {:induction false} MissingIffStaysMissing(value: Option<Json>, filters: seq<Filter>, ctx: Context)
    ensures Missing(ApplyFilters(value, filters, ctx)) <==> StaysMissing(value, filters, ctx)
    decreases |filters|
  {
    if filters != [] {
      var next := ApplyFilter(value, filters[0], ctx);
      MissingIffStaysMissing(next, filters[1..], ctx);
      StaysMissingStep(value, filters, ctx);
      if !Missing(value) {
        assert !Missing(next);
      }
    }
  }

  /**
   The three outcomes of a parsed expression: an optional one is left out, and a required one fails,
   exactly when nothing supplies a value; otherwise there is a value, and it is not null.
   */
  lemma {:induction false} OutcomeExactly(text: string, ctx: Context)
    requires Parse(text).Ok?
    ensures
      var e := Parse(text).value;
      var missing := StaysMissing(Resolve(e.base, ctx), e.filters, ctx);
      && (Render(text, ctx) == Ok(Omit) <==> missing && e.optional)
      && (Render(text, ctx) == Err(MissingValue(e.base)) <==> missing && !e.optional)
      && (!missing ==> Render(text, ctx).Ok? && Render(text, ctx).value.Value? && Render(text, ctx).value.value != Null)
  {
    var e := Parse(text).value;
    MissingIffStaysMissing(Resolve(e.base, ctx), e.filters, ctx);
  }

  /** `$` and what starts with `$.` name the response; any other base is looked up in the arguments. */
  predicate NamesResponse(base: string) {
    base == "$" || "$." <= base
  }

  lemma ResolvesArgument(base: string, ctx: Context)
    requires !NamesResponse(base)
    ensures Resolve(base, ctx) == Follow(ctx.args, Tokens(base, ""))
  {
    assert |base| >= 2 && base[..2] == "$." ==> "$." <= base;
  }

  // ---------------------------------------------------------------- which value is supplied

  predicate NoCsv(filters: seq<Filter>) {
    forall f <- filters :: f.Default?
  }

  /** The first default that is not null is at `i`. */
  predicate FirstDefault(filters: seq<Filter>, i: nat, ctx: Context) {
    && i < |filters| && filters[i].Default? && !DefaultIsNull(filters[i], ctx)
    && forall j :: 0 <= j < i ==> DefaultIsNull(filters[j], ctx)
  }

  /** Defaults give way to a value that is there, and to each other in order. */
  lemma {:induction false} DefaultsInOrder(value: Option<Json>, filters: seq<Filter>, ctx: Context)
    requires NoCsv(filters)
    ensures !Missing(value) ==> ApplyFilters(value, filters, ctx) == value
    ensures Missing(value) ==> forall i: nat :: FirstDefault(filters, i, ctx) ==>
              ApplyFilters(value, filters, ctx) == Some(DefaultLiteral(filters[i].literal, ctx))
    decreases |filters|
  {
    if filters != [] {
      var next := ApplyFilter(value, filters[0], ctx);
      assert filters[0] in filters;
      DefaultsInOrder(next, filters[1..], ctx);
      if Missing(value) {
        forall i: nat | FirstDefault(filters, i, ctx)
          ensures ApplyFilters(value, filters, ctx) == Some(DefaultLiteral(filters[i].literal, ctx))
        {
          if i > 0 {
            assert DefaultIsNull(filters[0], ctx);
            assert FirstDefault(filters[1..], i - 1, ctx);
          }
        }
      }
    }
  }

  /** The texts of an array can be told again from their csv, unless one of them has a comma. */
  lemma CsvSplitsBack(items: seq<Json>)
    requires items != []
    ensures Split(CsvText(Array(items)), ',') == Texts(items) <==> forall text <- Texts(items) :: ',' !in text
  {
    SplitJoined(Texts(items), ',');
  }

  /** What a value looks like in a text: a string as it is, everything else as compact JSON; csv changes arrays. */
  lemma ShownAs(v: Json)
    ensures !v.Array? ==> CsvText(v) == StringOf(v)
    ensures
      StringOf(v) ==
      match v
      case Null => "null"
      case Bool(b) => if b then "true" else "false"
      case Number(lexeme) => lexeme
      case Str(text) => text
      case Array(items) => "[" + Joined(ItemTexts(items), ',') + "]"
      case Object(members) => "{" + Joined(MemberTexts(members), ',') + "}"
  {
    TextShape(v);
  }

  /** A default is the JSON value its trimmed text is, or else that text; blank, it is null. */
  lemma DefaultMeans(left: string, text: string, right: string, ctx: Context)
    requires AllWhite(left) && AllWhite(right) && Trimmed(text)
    ensures DefaultLiteral(left + text + right, ctx)
         == if text == "" then Null else if ctx.json(text).Some? then ctx.json(text).value else Str(text)
  {
    TrimsPadding(left, text, right);
  }

  /**
   What `${base|default(text)}` comes to where the base is missing: the JSON value the text is, or else the
   text; a blank or null default leaves it missing.
   */
  lemma DefaultSupplies(e: Expression, left: string, text: string, right: string, ctx: Context)
    requires PlainExpression(e) && e.filters == [Default(left + text + right)]
    requires AllWhite(left) && AllWhite(right) && Trimmed(text)
    requires Missing(Resolve(e.base, ctx))
    ensures
      Render(WriteExpression(e), ctx)
      == if text != "" && ctx.json(text) == None then Ok(Value(Str(text)))
         else if text != "" && ctx.json(text) != Some(Null) then Ok(Value(ctx.json(text).value))
         else if e.optional then Ok(Omit)
         else Err(MissingValue(e.base))
  {
    PlainParses(e);
    DefaultMeans(left, text, right, ctx);
    OneDefault(Resolve(e.base, ctx), left + text + right, ctx);
  }

  lemma OneDefault(value: Option<Json>, literal: string, ctx: Context)
    requires Missing(value)
    ensures ApplyFilters(value, [Default(literal)], ctx) == Some(DefaultLiteral(literal, ctx))
  {
    assert [Default(literal)][1..] == [];
  }

  /** A path behind `$.` selects from the response, and `$` is all of it. */
  lemma ResponsePaths(tokens: seq<PathToken>, ctx: Context)
    requires Plain(tokens)
    ensures Resolve("$." + WritePath(tokens), ctx)
         == match ctx.response case Some(response) => Follow(response, tokens) case None => None
    ensures Resolve("$", ctx) == ctx.response
  {
    var path := WritePath(tokens);
    PathRoundTrip(tokens);
    assert ("$." + path)[..2] == "$." && ("$." + path)[2..] == path;
  }

  /** A written path, alone, renders to the very value it selects. */
  lemma PathRenders(tokens: seq<PathToken>, ctx: Context)
    requires Plain(tokens)
    requires var path := WritePath(tokens); PlainExpression(Expression(path, false, [])) && !NamesResponse(path)
    requires !Missing(Follow(ctx.args, tokens))
    ensures Render(WritePath(tokens), ctx) == Ok(Value(Follow(ctx.args, tokens).value))
  {
    var path := WritePath(tokens);
    var e := Expression(path, false, []);
    PathRoundTrip(tokens);
    ResolvesArgument(path, ctx);
    PlainParses(e);
    assert WriteExpression(e) == path;
  }
}
