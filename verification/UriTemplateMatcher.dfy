/** The loops of src/engine/resources.rs, proved against the functions on tokens. */
module UriTemplateMatcher {
  import opened Wrappers
  import opened Text
  import opened UriTemplate
  import opened UriGreedy

  datatype TemplateError = InvalidPlaceholder | UnbalancedBraces | InvalidUri

  /** The template with `x` for every placeholder, which is what the URI parser gets to see. */
  function Normalized(tokens: seq<Token>): string {
    if tokens == [] then ""
    else NormalToken(tokens[0]) + Normalized(tokens[1..])
  }

  function NormalToken(token: Token): string {
    match token
    case Literal(text) => text
    case Var(_) => "x"
  }

  /** What validation decides, told on the tokens; `urlParses` stands for the URL parser. */
  function Validate(template: string, urlParses: string -> bool): Result<seq<Token>, TemplateError> {
    match Tokenize(template)
    case None => Err(InvalidPlaceholder)
    case Some(tokens) =>
      if StrayBrace(tokens) then Err(UnbalancedBraces)
      else if !urlParses(Normalized(tokens)) then Err(InvalidUri)
      else Ok(tokens)
  }

  ghost predicate Spells(tokens: seq<Token>, template: string) {
    WellFormed(tokens) && Print(tokens) == template
  }

  predicate StrayBrace(tokens: seq<Token>) {
    exists i :: 0 <= i < |tokens| && tokens[i].Literal? && '}' in tokens[i].text
  }

  /** The template with `x` in place of every variable. */
  ghost predicate FilledIn(tokens: seq<Token>, text: string) {
    exists pieces :: Instance(tokens, pieces) && Join(pieces) == text
                     && forall i :: 0 <= i < |tokens| && tokens[i].Var? ==> pieces[i] == "x"
  }

  lemma {:induction false} FillsIn(tokens: seq<Token>, pieces: seq<string>)
    requires Instance(tokens, pieces) && forall i :: 0 <= i < |tokens| && tokens[i].Var? ==> pieces[i] == "x"
    ensures Join(pieces) == Normalized(tokens)
    decreases |tokens|
  {
    if tokens != [] {
      FillsIn(tokens[1..], pieces[1..]);
    }
  }

  lemma NormalizedFillsIn(tokens: seq<Token>, text: string)
    ensures FilledIn(tokens, text) <==> text == Normalized(tokens)
  {
    forall pieces | Instance(tokens, pieces) && forall i :: 0 <= i < |tokens| && tokens[i].Var? ==> pieces[i] == "x"
      ensures Join(pieces) == Normalized(tokens)
    {
      FillsIn(tokens, pieces);
    }
    var filled := seq(|tokens|, i requires 0 <= i < |tokens| =>
      match tokens[i] case Literal(text) => text case Var(_) => "x");
    assert Instance(tokens, filled);
  }

  /**
   What validation decides. A template passes exactly if it is the print of well-formed tokens, none of whose
   literals has a closing brace, and what it is with `x` for every variable parses as a URL; otherwise the
   first of the three that is not so is the error.
   */
  lemma ValidTemplateRoundTrips(template: string, urlParses: string -> bool)
    ensures Validate(template, urlParses) == Err(InvalidPlaceholder) <==> forall tokens :: !Spells(tokens, template)
    ensures Validate(template, urlParses) == Err(UnbalancedBraces)
       <==> exists tokens :: Spells(tokens, template) && StrayBrace(tokens)
    ensures Validate(template, urlParses).Ok?
       <==> exists tokens, text ::
              Spells(tokens, template) && !StrayBrace(tokens) && FilledIn(tokens, text) && urlParses(text)
  {
    forall tokens: seq<Token> ensures Spells(tokens, template) <==> Tokenize(template) == Some(tokens) {
      TokenizeInvertsPrint(template, tokens);
    }
    forall tokens: seq<Token>, text ensures FilledIn(tokens, text) <==> text == Normalized(tokens) {
      NormalizedFillsIn(tokens, text);
    }
    if Tokenize(template).Some? {
      assert Spells(Tokenize(template).value, template);
      assert FilledIn(Tokenize(template).value, Normalized(Tokenize(template).value));
    }
  }

  lemma {:induction false} NormalizedConcat(a: seq<Token>, b: seq<Token>)
    ensures Normalized(a + b) == Normalized(a) + Normalized(b)
  {
    if a == [] {
      assert a + b == b;
    } else {
      NormalizedConcat(a[1..], b);
      assert (a + b)[1..] == a[1..] + b;
      Associative(NormalToken(a[0]), Normalized(a[1..]), Normalized(b));
    }
  }

  lemma NormalizedFlush(tokens: seq<Token>, literal: string)
    ensures Normalized(tokens + Flush(literal)) == Normalized(tokens) + literal
  {
    NormalizedConcat(tokens, Flush(literal));
    if literal == "" {
      assert Normalized(tokens) + literal == Normalized(tokens);
    } else {
      assert Flush(literal)[1..] == [];
    }
  }

  lemma {:induction false} BracesInNormalized(tokens: seq<Token>, brace: char)
    requires brace != 'x'
    ensures brace in Normalized(tokens) <==>
            exists i :: 0 <= i < |tokens| && tokens[i].Literal? && brace in tokens[i].text
  {
    if tokens != [] {
      var tail := tokens[1..];
      BracesInNormalized(tail, brace);
      forall i | 0 <= i < |tail|
        ensures tail[i] == tokens[i + 1]
      {}
      forall i | 0 < i < |tokens|
        ensures tokens[i] == tail[i - 1]
      {}
    }
  }

  /** The inner loop both scanners share: reads a name up to its closing brace. */
  method ReadPlaceholder(template: string, from: nat) returns (name: string, closed: bool, next: nat)
    requires from <= |template|
    ensures from <= next <= |template|
    ensures closed <==> CloseAt(template[from..]).Some?
    ensures closed ==> from < next && |name| == CloseAt(template[from..]).value && name == template[from..][..|name|]
    ensures closed ==> next == from + |name| + 1
  {
    name, closed, next := "", false, from;
    while next < |template|
      invariant from <= next <= |template| && !closed
      invariant name == template[from..next] && '}' !in name
    {
      var ch := template[next];
      next := next + 1;
      if ch == '}' {
        closed := true;
        assert template[from..] == name + "}" + template[next..];
        CloseAtName(name, template[next..]);
        return;
      }
      name := name + [ch];
    }
    assert name == template[from..];
  }

  /** One placeholder met by a scanner. */
  lemma ScanPlaceholder(template: string, i: nat, literal: string, name: string, next: nat)
    requires i < |template| && template[i] == '{'
    requires CloseAt(template[i + 1..]).Some?
    requires |name| == CloseAt(template[i + 1..]).value && name == template[i + 1..][..|name|]
    requires next == i + 1 + |name| + 1 && name != ""
    ensures TokenizeFrom(literal, template[i..])
         == Prepend(Flush(literal) + [Var(name)], TokenizeFrom("", template[next..]))
  {
    var rest := template[i..];
    assert rest[1..] == template[i + 1..];
    assert rest[1..][|name| + 1..] == template[next..];
  }

  lemma ScanChar(template: string, i: nat, literal: string)
    requires i < |template| && template[i] != '{'
    ensures TokenizeFrom(literal, template[i..]) == TokenizeFrom(literal + [template[i]], template[i + 1..])
  {
    assert template[i..][1..] == template[i + 1..];
  }

  lemma ScanUnclosed(template: string, i: nat, literal: string)
    requires i < |template| && template[i] == '{'
    requires CloseAt(template[i + 1..]) in {None, Some(0)}
    ensures TokenizeFrom(literal, template[i..]).None?
  {
    assert template[i..][1..] == template[i + 1..];
  }

  lemma NormalizedVar(tokens: seq<Token>, literal: string, name: string)
    ensures Normalized(tokens + (Flush(literal) + [Var(name)])) == Normalized(tokens) + literal + "x"
  {
    NormalizedFlush(tokens, literal);
    NormalizedConcat(tokens + Flush(literal), [Var(name)]);
    assert tokens + (Flush(literal) + [Var(name)]) == tokens + Flush(literal) + [Var(name)];
    assert [Var(name)][1..] == [];
    assert Normalized([Var(name)]) == "x";
  }

  /** In tokens of a template only literals can bring a brace into the normalized form. */
  lemma NormalizedBraces(template: string, tokens: seq<Token>)
    requires Tokenize(template) == Some(tokens)
    ensures '{' !in Normalized(tokens)
    ensures '}' in Normalized(tokens) <==> StrayBrace(tokens)
  {
    TokenizeInvertsPrint(template, tokens);
    BracesInNormalized(tokens, '{');
    BracesInNormalized(tokens, '}');
    assert forall k :: 0 <= k < |tokens| ==> ValidToken(tokens[k]);
  }

  /** The loop of validate_resource_template_uri. */
  method NormalizeTemplate(template: string) returns (r: Option<string>)
    ensures r == match Tokenize(template) case Some(tokens) => Some(Normalized(tokens)) case None => None
  {
    var normalized := "";
    ghost var tokens: seq<Token>, literal := [], "";
    var i := 0;
    assert template[0..] == template;
    PrependNothing(Tokenize(template));
    while i < |template|
      invariant 0 <= i <= |template|
      invariant Prepend(tokens, TokenizeFrom(literal, template[i..])) == Tokenize(template)
      invariant normalized == Normalized(tokens) + literal
    {
      var ch := template[i];
      if ch == '{' {
        var name, closed, next := ReadPlaceholder(template, i + 1);
        if name == "" || !closed {
          ScanUnclosed(template, i, literal);
          return None;
        }
        ScanPlaceholder(template, i, literal, name, next);
        PrependTwice(tokens, Flush(literal) + [Var(name)], TokenizeFrom("", template[next..]));
        NormalizedVar(tokens, literal, name);
        tokens, literal := tokens + (Flush(literal) + [Var(name)]), "";
        normalized := normalized + "x";
        i := next;
      } else {
        ScanChar(template, i, literal);
        literal := literal + [ch];
        normalized := normalized + [ch];
        i := i + 1;
      }
    }
    NormalizedFlush(tokens, literal);
    assert Tokenize(template) == Some(tokens + Flush(literal));
    return Some(normalized);
  }

  /** validate_resource_template_uri. */
  method ValidateResourceTemplateUri(template: string, urlParses: string -> bool)
    returns (r: Result<(), TemplateError>)
    ensures r == match Validate(template, urlParses)
                 case Ok(_) => Ok(())
                 case Err(error) => Err(error)
  {
    var scanned := NormalizeTemplate(template);
    if scanned.None? {
      return Err(InvalidPlaceholder);
    }
    var normalized := scanned.value;
    NormalizedBraces(template, Tokenize(template).value);
    if '{' in normalized || '}' in normalized {
      return Err(UnbalancedBraces);
    }
    if !urlParses(normalized) {
      return Err(InvalidUri);
    }
    return Ok(());
  }

  /** The first half of match_uri_template. */
  method TokenizeTemplate(template: string) returns (r: Option<seq<Token>>)
    ensures r == Tokenize(template)
  {
    var tokens: seq<Token>, literal := [], "";
    var i := 0;
    assert template[0..] == template;
    PrependNothing(Tokenize(template));
    while i < |template|
      invariant 0 <= i <= |template|
      invariant Prepend(tokens, TokenizeFrom(literal, template[i..])) == Tokenize(template)
    {
      var ch := template[i];
      if ch == '{' {
        ghost var flushed := Flush(literal);
        ghost var before, pending := tokens, literal;
        if literal != "" {
          tokens, literal := tokens + [Literal(literal)], "";
        }
        var name, closed, next := ReadPlaceholder(template, i + 1);
        if name == "" || !closed {
          ScanUnclosed(template, i, pending);
          return None;
        }
        tokens := tokens + [Var(name)];
        ScanPlaceholder(template, i, pending, name, next);
        PrependTwice(before, flushed + [Var(name)], TokenizeFrom("", template[next..]));
        assert tokens == before + (flushed + [Var(name)]);
        i := next;
        continue;
      }
      ScanChar(template, i, literal);
      literal := literal + [ch];
      i := i + 1;
    }
    assert Tokenize(template) == Some(tokens + Flush(literal));
    if literal != "" {
      tokens := tokens + [Literal(literal)];
    } else {
      assert tokens + [] == tokens;
    }
    return Some(tokens);
  }

  /** The look-ahead of the matching loop. */
  method FindNextLiteral(tokens: seq<Token>, from: nat) returns (r: Option<string>)
    requires from <= |tokens|
    ensures r == NextLiteral(tokens, from)
  {
    var i := from;
    while i < |tokens|
      invariant from <= i <= |tokens|
      invariant NextLiteral(tokens, from) == NextLiteral(tokens, i)
    {
      if tokens[i].Literal? && tokens[i].text != "" {
        return Some(tokens[i].text);
      }
      i := i + 1;
    }
    return None;
  }

  lemma {:induction false} ArgsLocal(tokens: seq<Token>, pieces: seq<string>, more: seq<string>, n: nat)
    requires n <= |tokens| && n <= |pieces|
    ensures ArgsUpTo(tokens, pieces + more, n) == ArgsUpTo(tokens, pieces, n)
  {
    if 0 < n {
      ArgsLocal(tokens, pieces, more, n - 1);
    }
  }

  /** What one more piece adds to the arguments. */
  lemma ArgsGrow(tokens: seq<Token>, pieces: seq<string>, piece: string)
    requires |pieces| < |tokens|
    ensures
      var args := ArgsUpTo(tokens, pieces, |pieces|);
      ArgsUpTo(tokens, pieces + [piece], |pieces| + 1)
      == match tokens[|pieces|] case Literal(_) => args case Var(name) => args[name := piece]
  {
    ArgsLocal(tokens, pieces, [piece], |pieces|);
  }

  lemma TakesLiteral(tokens: seq<Token>, i: nat, uri: string, at: nat)
    requires i < |tokens| && tokens[i].Literal? && at <= |uri|
    ensures
      var text := tokens[i].text;
      if text <= uri[at..] then
        at + |text| <= |uri|
        && MatchFrom(tokens, i, uri[at..]) == Prepend([text], MatchFrom(tokens, i + 1, uri[at + |text|..]))
      else MatchFrom(tokens, i, uri[at..]) == None
  {
    var rest, text := uri[at..], tokens[i].text;
    if text <= rest {
      assert rest[|text|..] == uri[at + |text|..];
    }
  }

  lemma TakesVar(tokens: seq<Token>, i: nat, uri: string, at: nat)
    requires i < |tokens| && tokens[i].Var? && at <= |uri|
    ensures
      match NextLiteral(tokens, i + 1)
      case None =>
        MatchFrom(tokens, i, uri[at..]) == Prepend([uri[at..]], MatchFrom(tokens, i + 1, uri[|uri|..]))
      case Some(next) =>
        match Find(uri[at..], next)
        case None => MatchFrom(tokens, i, uri[at..]) == None
        case Some(k) =>
          at + k <= |uri|
          && MatchFrom(tokens, i, uri[at..]) == Prepend([uri[at..][..k]], MatchFrom(tokens, i + 1, uri[at + k..]))
  {
    var rest := uri[at..];
    match NextLiteral(tokens, i + 1) {
      case None => assert uri[|uri|..] == "";
      case Some(next) =>
        match Find(rest, next) {
          case None =>
          case Some(k) =>
            assert OccursAt(rest, next, k);
            assert rest[k..] == uri[at + k..];
        }
    }
  }

  /** `taken` is the text the token takes at `at`, and where the next one starts. */
  predicate Takes(tokens: seq<Token>, i: nat, uri: string, at: nat, taken: Option<(string, nat)>)
    requires i < |tokens| && at <= |uri|
  {
    match taken
    case None => MatchFrom(tokens, i, uri[at..]) == None
    case Some((piece, next)) =>
      && next <= |uri|
      && MatchFrom(tokens, i, uri[at..]) == Prepend([piece], MatchFrom(tokens, i + 1, uri[next..]))
  }

  /** A variable takes the text up to the literal after it. */
  method MatchVar(tokens: seq<Token>, index: nat, uri: string, position: nat) returns (r: Option<(string, nat)>)
    requires index < |tokens| && tokens[index].Var? && position <= |uri|
    ensures Takes(tokens, index, uri, position, r)
  {
    TakesVar(tokens, index, uri, position);
    var nextLiteral := FindNextLiteral(tokens, index + 1);
    var remaining := uri[position..];
    if nextLiteral.None? {
      return Some((remaining, |uri|));
    }
    var offset := Find(remaining, nextLiteral.value);
    if offset.None? {
      return None;
    }
    return Some((remaining[..offset.value], position + offset.value));
  }

  /** One turn of the matching loop. */
  method MatchToken(tokens: seq<Token>, index: nat, uri: string, position: nat) returns (r: Option<(string, nat)>)
    requires index < |tokens| && position <= |uri|
    ensures Takes(tokens, index, uri, position, r)
  {
    match tokens[index] {
      case Var(_) => r := MatchVar(tokens, index, uri, position);
      case Literal(text) =>
        TakesLiteral(tokens, index, uri, position);
        r := if text <= uri[position..] then Some((text, position + |text|)) else None;
    }
  }

  /** match_uri_template. */
  method MatchUriTemplate(template: string, uri: string) returns (r: Option<map<string, string>>)
    ensures Tokenize(template).None? ==> r.None?
    ensures Tokenize(template).Some? ==>
              var tokens := Tokenize(template).value;
              && (r.Some? <==> Match(tokens, uri).Some?)
              && (r.Some? ==>
                    var pieces := Match(tokens, uri).value;
                    && |pieces| == |tokens| && r.value == Args(tokens, pieces)
                    && IsArgsOf(r.value, tokens, pieces))
  {
    var tokenized := TokenizeTemplate(template);
    if tokenized.None? {
      return None;
    }
    var tokens := tokenized.value;
    var position := 0;
    var args: map<string, string> := map[];
    ghost var pieces: seq<string> := [];
    assert uri[0..] == uri;
    PrependNothing(Match(tokens, uri));
    for index := 0 to |tokens|
      invariant 0 <= position <= |uri| && |pieces| == index
      invariant Prepend(pieces, MatchFrom(tokens, index, uri[position..])) == Match(tokens, uri)
      invariant args == ArgsUpTo(tokens, pieces, index)
    {
      var taken := MatchToken(tokens, index, uri, position);
      if taken.None? {
        return None;
      }
      var (piece, next) := taken.value;
      PrependTwice(pieces, [piece], MatchFrom(tokens, index + 1, uri[next..]));
      ArgsGrow(tokens, pieces, piece);
      if tokens[index].Var? {
        args := args[tokens[index].name := piece];
      }
      position := next;
      pieces := pieces + [piece];
    }
    MatchEnds(tokens, uri[position..], pieces);
    if position != |uri| {
      return None;
    }
    ArgsExactly(tokens, pieces);
    return Some(args);
  }

  lemma MatchEnds(tokens: seq<Token>, rest: string, pieces: seq<string>)
    ensures Prepend(pieces, MatchFrom(tokens, |tokens|, rest)) == if rest == "" then Some(pieces) else None
  {
    assert pieces + [] == pieces;
  }
}
