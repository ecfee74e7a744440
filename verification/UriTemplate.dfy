/**
 URI templates: tokens, their printed form, the tokeniser and the greedy matcher of
 src/engine/resources.rs as functions. A string is a sequence of code points; the source's byte
 positions always fall on code-point boundaries, so prefix tests and searches agree.
 */
module UriTemplate {
  import opened Wrappers
  import opened Text

  datatype Token = Literal(text: string) | Var(name: string)

  // ---------------------------------------------------------------- printed form

  function PrintToken(token: Token): string {
    match token
    case Literal(text) => text
    case Var(name) => "{" + name + "}"
  }

  function Print(tokens: seq<Token>): string {
    if tokens == [] then "" else PrintToken(tokens[0]) + Print(tokens[1..])
  }

  predicate ValidToken(token: Token) {
    match token
    case Literal(text) => text != "" && '{' !in text
    case Var(name) => name != "" && '}' !in name
  }

  predicate Separated(tokens: seq<Token>, i: nat)
    requires 0 < i < |tokens|
  {
    tokens[i].Literal? ==> tokens[i - 1].Var?
  }

  /** The token lists the tokeniser can produce. */
  predicate WellFormed(tokens: seq<Token>) {
    && (forall i :: 0 <= i < |tokens| ==> ValidToken(tokens[i]))
    && (forall i :: 0 < i < |tokens| ==> Separated(tokens, i))
  }

  // ---------------------------------------------------------------- tokeniser

  /** A pending literal becomes a token unless it is empty. */
  function Flush(literal: string): seq<Token> {
    if literal == "" then [] else [Literal(literal)]
  }

  /** Position of the brace that closes a placeholder whose name starts at the front of `rest`. */
  function CloseAt(rest: string): (r: Option<nat>)
    ensures r.Some? ==> r.value < |rest| && rest[r.value] == '}' && '}' !in rest[..r.value]
    ensures r.None? ==> '}' !in rest
  {
    if rest == "" then None
    else if rest[0] == '}' then Some(0)
    else match CloseAt(rest[1..])
      case None => None
      case Some(n) =>
        assert rest[..n + 1] == [rest[0]] + rest[1..][..n];
        Some(n + 1)
  }

  function Prepend<T>(front: seq<T>, back: Option<seq<T>>): Option<seq<T>> {
    match back
    case None => None
    case Some(items) => Some(front + items)
  }

  lemma PrependNothing<T>(items: Option<seq<T>>)
    ensures Prepend([], items) == items
  {
    if items.Some? {
      assert [] + items.value == items.value;
    }
  }

  lemma PrependTwice<T>(a: seq<T>, b: seq<T>, rest: Option<seq<T>>)
    ensures Prepend(a, Prepend(b, rest)) == Prepend(a + b, rest)
  {
    if rest.Some? {
      assert a + (b + rest.value) == a + b + rest.value;
    }
  }

  /** Tokens of the pending literal followed by the unread template text. */
  function TokenizeFrom(literal: string, rest: string): Option<seq<Token>>
    decreases |rest|
  {
    if rest == "" then Some(Flush(literal))
    else if rest[0] == '{' then
      match CloseAt(rest[1..])
      case None => None
      case Some(n) =>
        if n == 0 then None
        else Prepend(Flush(literal) + [Var(rest[1..][..n])], TokenizeFrom("", rest[1..][n + 1..]))
    else TokenizeFrom(literal + [rest[0]], rest[1..])
  }

  function Tokenize(template: string): Option<seq<Token>> {
    TokenizeFrom("", template)
  }

  lemma WellFormedCons(token: Token, tail: seq<Token>)
    requires ValidToken(token) && WellFormed(tail)
    requires token.Literal? && tail != [] ==> tail[0].Var?
    ensures WellFormed([token] + tail)
    ensures Print([token] + tail) == PrintToken(token) + Print(tail)
  {
    var tokens := [token] + tail;
    assert tokens[1..] == tail;
    forall i | 0 < i < |tokens|
      ensures Separated(tokens, i)
    {
      if 1 < i {
        assert Separated(tail, i - 1);
      }
    }
  }

  /** What one more literal and placeholder in front do to a token list and its printed form. */
  lemma PrintFront(literal: string, name: string, tail: seq<Token>)
    requires '{' !in literal && name != "" && '}' !in name && WellFormed(tail)
    ensures var tokens := Flush(literal) + [Var(name)] + tail;
            WellFormed(tokens) && Print(tokens) == literal + ("{" + name + "}" + Print(tail))
  {
    var short := [Var(name)] + tail;
    WellFormedCons(Var(name), tail);
    if literal == "" {
      assert Flush(literal) + [Var(name)] + tail == short;
      assert literal + Print(short) == Print(short);
    } else {
      WellFormedCons(Literal(literal), short);
      assert Flush(literal) + [Var(name)] + tail == [Literal(literal)] + short;
    }
  }

  /** What a placeholder at the front of the text is read as. */
  lemma TokenizeOpen(literal: string, rest: string) returns (name: string, after: string)
    requires rest != "" && rest[0] == '{' && TokenizeFrom(literal, rest).Some?
    ensures rest == "{" + name + "}" + after && name != "" && '}' !in name
    ensures TokenizeFrom("", after).Some?
    ensures TokenizeFrom(literal, rest).value == Flush(literal) + [Var(name)] + TokenizeFrom("", after).value
  {
    var n := CloseAt(rest[1..]).value;
    name, after := rest[1..][..n], rest[1..][n + 1..];
    assert rest[1..] == name + "}" + after;
    assert rest == "{" + rest[1..];
  }

  lemma {:induction false} TokenizeFromSound(literal: string, rest: string)
    requires '{' !in literal
    requires TokenizeFrom(literal, rest).Some?
    ensures WellFormed(TokenizeFrom(literal, rest).value)
    ensures Print(TokenizeFrom(literal, rest).value) == literal + rest
    decreases |rest|
  {
    if rest == "" {
      FlushPrints(literal);
    } else if rest[0] == '{' {
      var name, after := TokenizeOpen(literal, rest);
      TokenizeFromSound("", after);
      var tail := TokenizeFrom("", after).value;
      assert Print(tail) == after;
      PrintFront(literal, name, tail);
    } else {
      TokenizeFromSound(literal + [rest[0]], rest[1..]);
      assert literal + rest == literal + [rest[0]] + rest[1..];
    }
  }

  lemma FlushPrints(literal: string)
    requires '{' !in literal
    ensures WellFormed(Flush(literal)) && Print(Flush(literal)) == literal + ""
  {
    if literal != "" {
      assert Print([Literal(literal)]) == literal + Print([]);
    }
  }

  lemma {:induction false} AbsorbLiteral(literal: string, text: string, rest: string)
    requires '{' !in text
    ensures TokenizeFrom(literal, text + rest) == TokenizeFrom(literal + text, rest)
    decreases |text|
  {
    if text == "" {
      assert text + rest == rest && literal + text == literal;
    } else {
      AbsorbLiteral(literal + [text[0]], text[1..], rest);
      assert (text + rest)[1..] == text[1..] + rest;
      assert literal + text == literal + [text[0]] + text[1..];
    }
  }

  lemma {:induction false} CloseAtName(name: string, rest: string)
    requires '}' !in name
    ensures CloseAt(name + "}" + rest) == Some(|name|)
  {
    var s := name + "}" + rest;
    if name == "" {
      assert s[0] == '}';
    } else {
      assert s[1..] == name[1..] + "}" + rest;
      CloseAtName(name[1..], rest);
    }
  }

  lemma {:induction false} TokenizePrinted(literal: string, tokens: seq<Token>)
    requires WellFormed(tokens)
    requires '{' !in literal
    requires literal != "" && tokens != [] ==> tokens[0].Var?
    ensures TokenizeFrom(literal, Print(tokens)) == Some(Flush(literal) + tokens)
    decreases |tokens|
  {
    if tokens == [] {
      assert Flush(literal) + tokens == Flush(literal);
    } else {
      var tail := tokens[1..];
      WellFormedTail(tokens);
      if tokens[0].Literal? {
        TokenizeLiteral(tokens[0].text, Print(tail));
        TokenizePrinted(tokens[0].text, tail);
        assert Flush("") + tokens == Flush(tokens[0].text) + tail;
      } else {
        TokenizePlaceholder(literal, tokens[0].name, Print(tail));
        TokenizePrinted("", tail);
        PrependTail(literal, tokens);
      }
    }
  }

  lemma TokenizeLiteral(text: string, rest: string)
    requires '{' !in text
    ensures TokenizeFrom("", text + rest) == TokenizeFrom(text, rest)
  {
    AbsorbLiteral("", text, rest);
    assert "" + text == text;
  }

  lemma PrependTail(literal: string, tokens: seq<Token>)
    requires tokens != []
    ensures Prepend(Flush(literal) + [tokens[0]], Some(Flush("") + tokens[1..])) == Some(Flush(literal) + tokens)
  {
    assert Flush("") + tokens[1..] == tokens[1..];
    assert Flush(literal) + [tokens[0]] + tokens[1..] == Flush(literal) + tokens;
  }

  lemma WellFormedTail(tokens: seq<Token>)
    requires WellFormed(tokens) && tokens != []
    ensures WellFormed(tokens[1..]) && ValidToken(tokens[0])
    ensures tokens[0].Literal? && |tokens| > 1 ==> tokens[1].Var?
  {
    var tail := tokens[1..];
    forall i | 0 < i < |tail|
      ensures Separated(tail, i)
    {
      assert Separated(tokens, i + 1);
    }
    if |tokens| > 1 {
      assert Separated(tokens, 1);
    }
  }

  lemma TokenizePlaceholder(literal: string, name: string, rest: string)
    requires name != "" && '}' !in name
    ensures TokenizeFrom(literal, "{" + name + "}" + rest)
         == Prepend(Flush(literal) + [Var(name)], TokenizeFrom("", rest))
  {
    var whole := "{" + name + "}" + rest;
    assert whole[1..] == name + "}" + rest;
    CloseAtName(name, rest);
    assert whole[1..][..|name|] == name;
    assert whole[1..][|name| + 1..] == rest;
  }

  /** Tokenising and printing are inverse to each other, on every string and every token list. */
  lemma TokenizeInvertsPrint(template: string, tokens: seq<Token>)
    ensures Tokenize(template) == Some(tokens) <==> WellFormed(tokens) && Print(tokens) == template
  {
    if Tokenize(template) == Some(tokens) {
      TokenizeFromSound("", template);
    }
    if WellFormed(tokens) && Print(tokens) == template {
      TokenizePrinted("", tokens);
      assert Flush("") + tokens == tokens;
    }
  }

  // ---------------------------------------------------------------- instances of a template

  /** The first literal among the tokens from index `i` on. */
  function NextLiteral(tokens: seq<Token>, i: nat): (r: Option<string>)
    requires i <= |tokens|
    decreases |tokens| - i
  {
    if i == |tokens| then None
    else match tokens[i]
      case Literal(text) => if text != "" then Some(text) else NextLiteral(tokens, i + 1)
      case Var(_) => NextLiteral(tokens, i + 1)
  }

  function Join(pieces: seq<string>): string {
    if pieces == [] then "" else pieces[0] + Join(pieces[1..])
  }

  /** One piece of text per token, where a literal token can only stand for itself. */
  predicate Instance(tokens: seq<Token>, pieces: seq<string>) {
    && |pieces| == |tokens|
    && forall i :: 0 <= i < |tokens| && tokens[i].Literal? ==> pieces[i] == tokens[i].text
  }

  predicate AfterVar(tokens: seq<Token>, i: nat)
    requires i <= |tokens|
  {
    0 < i && tokens[i - 1].Var?
  }

  /**
   Every variable stops at the first occurrence of the literal that comes next, and a variable
   directly after another one is empty.
   */
  ghost predicate Tight(tokens: seq<Token>, pieces: seq<string>)
    requires |pieces| == |tokens|
  {
    forall i :: 0 <= i < |tokens| && tokens[i].Var? ==> TightAt(tokens, i, pieces[i])
  }

  ghost predicate TightAt(tokens: seq<Token>, i: nat, piece: string)
    requires i < |tokens|
  {
    && (AfterVar(tokens, i) ==> piece == "")
    && match NextLiteral(tokens, i + 1)
       case None => true
       case Some(next) => FirstAt(piece + next, next, |piece|)
  }

  // ---------------------------------------------------------------- greedy matching

  /** Pieces the matcher assigns to the tokens from `i` on, given the unread rest of the URI. */
  function MatchFrom(tokens: seq<Token>, i: nat, uri: string): Option<seq<string>>
    requires i <= |tokens|
    decreases |tokens| - i
  {
    if i == |tokens| then
      if uri == "" then Some([]) else None
    else match tokens[i]
      case Literal(text) =>
        if text <= uri then Prepend([text], MatchFrom(tokens, i + 1, uri[|text|..])) else None
      case Var(_) =>
        match NextLiteral(tokens, i + 1)
        case Some(next) => (
          match Find(uri, next)
          case None => None
          case Some(offset) => Prepend([uri[..offset]], MatchFrom(tokens, i + 1, uri[offset..])))
        case None => Prepend([uri], MatchFrom(tokens, i + 1, ""))
  }

  function Match(tokens: seq<Token>, uri: string): Option<seq<string>> {
    MatchFrom(tokens, 0, uri)
  }

  /** The unread text a variable leaves behind always starts with the next literal. */
  predicate Resumable(tokens: seq<Token>, i: nat, uri: string)
    requires i <= |tokens|
  {
    AfterVar(tokens, i) ==>
      match NextLiteral(tokens, i)
      case None => uri == ""
      case Some(next) => next <= uri
  }

  lemma PrefixFoundAtZero(uri: string, next: string)
    requires next <= uri
    ensures Find(uri, next) == Some(0)
  {
    assert OccursAt(uri, next, 0);
  }

  lemma JoinFrom(pieces: seq<string>, i: nat)
    requires i < |pieces|
    ensures Join(pieces[i..]) == pieces[i] + Join(pieces[i + 1..])
  {
    assert pieces[i..][1..] == pieces[i + 1..];
  }

  /** Pieces for the tokens from `i` on that a tight instance may end with. */
  ghost predicate Assigned(tokens: seq<Token>, i: nat, pieces: seq<string>)
    requires i <= |tokens|
  {
    && |pieces| == |tokens| - i
    && forall k :: 0 <= k < |pieces| ==> AssignedAt(tokens, i + k, pieces[k])
  }

  ghost predicate AssignedAt(tokens: seq<Token>, k: nat, piece: string)
    requires k < |tokens|
  {
    match tokens[k]
    case Literal(text) => piece == text
    case Var(_) => TightAt(tokens, k, piece)
  }

  lemma AssignedCons(tokens: seq<Token>, i: nat, piece: string, rest: seq<string>)
    requires i < |tokens| && AssignedAt(tokens, i, piece) && Assigned(tokens, i + 1, rest)
    ensures Assigned(tokens, i, [piece] + rest) && Join([piece] + rest) == piece + Join(rest)
  {
    var pieces := [piece] + rest;
    assert pieces[1..] == rest;
    forall k | 0 <= k < |pieces|
      ensures AssignedAt(tokens, i + k, pieces[k])
    {
      if 0 < k {
        assert pieces[k] == rest[k - 1];
      }
    }
  }

  lemma {:induction false} MatchFromSound(tokens: seq<Token>, i: nat, uri: string)
    requires WellFormed(tokens) && i <= |tokens| && Resumable(tokens, i, uri)
    requires MatchFrom(tokens, i, uri).Some?
    ensures Assigned(tokens, i, MatchFrom(tokens, i, uri).value)
    ensures Join(MatchFrom(tokens, i, uri).value) == uri
    decreases |tokens| - i
  {
    if i < |tokens| {
      var piece := MatchFrom(tokens, i, uri).value[0];
      MatchStep(tokens, i, uri);
      var rest := uri[|piece|..];
      MatchFromSound(tokens, i + 1, rest);
      AssignedCons(tokens, i, piece, MatchFrom(tokens, i + 1, rest).value);
      assert uri == piece + rest;
    }
  }

  /** One token of a successful match. */
  lemma MatchStep(tokens: seq<Token>, i: nat, uri: string)
    requires WellFormed(tokens) && i < |tokens| && Resumable(tokens, i, uri)
    requires MatchFrom(tokens, i, uri).Some?
    ensures var pieces := MatchFrom(tokens, i, uri).value;
            && pieces != [] && pieces[0] <= uri && AssignedAt(tokens, i, pieces[0])
            && var rest := uri[|pieces[0]|..];
               && Resumable(tokens, i + 1, rest)
               && MatchFrom(tokens, i + 1, rest).Some?
               && pieces == [pieces[0]] + MatchFrom(tokens, i + 1, rest).value
  {
    var next := NextLiteral(tokens, i + 1);
    if tokens[i].Var? && next.Some? {
      var offset := Find(uri, next.value).value;
      FirstInPrefix(uri, next.value, offset);
      if AfterVar(tokens, i) {
        PrefixFoundAtZero(uri, next.value);
      }
    } else if tokens[i].Var? {
      assert uri[|uri|..] == "";
    }
  }

  /** A first occurrence only depends on the text up to its end. */
  lemma FirstInPrefix(uri: string, next: string, offset: nat)
    requires offset + |next| <= |uri|
    ensures FirstAt(uri, next, offset) <==>
            FirstAt(uri[..offset] + next, next, offset) && next <= uri[offset..]
  {
    var head := uri[..offset] + next;
    assert OccursAt(head, next, offset);
    if next <= uri[offset..] {
      assert head == uri[..offset + |next|];
      forall k: nat | k < offset
        ensures OccursAt(uri, next, k) <==> OccursAt(head, next, k)
      {
        assert head[k..k + |next|] == uri[k..k + |next|];
      }
    }
    if FirstAt(uri, next, offset) {
      assert OccursAt(uri, next, offset);
      assert uri[offset..][..|next|] == next;
    }
  }

  lemma {:induction false} TightStartsWithNext(tokens: seq<Token>, pieces: seq<string>, i: nat)
    requires WellFormed(tokens) && Instance(tokens, pieces) && Tight(tokens, pieces)
    requires i <= |tokens|
    ensures Resumable(tokens, i, Join(pieces[i..]))
    decreases |tokens| - i
  {
    if i < |tokens| && AfterVar(tokens, i) {
      JoinFrom(pieces, i);
      if tokens[i].Var? {
        TightStartsWithNext(tokens, pieces, i + 1);
        assert pieces[i] == "";
        assert Join(pieces[i..]) == Join(pieces[i + 1..]);
      }
    }
  }

  lemma {:induction false} TightMatches(tokens: seq<Token>, pieces: seq<string>, i: nat)
    requires WellFormed(tokens) && Instance(tokens, pieces) && Tight(tokens, pieces)
    requires i <= |tokens|
    ensures MatchFrom(tokens, i, Join(pieces[i..])) == Some(pieces[i..])
    decreases |tokens| - i
  {
    if i < |tokens| {
      var uri, rest := Join(pieces[i..]), Join(pieces[i + 1..]);
      JoinFrom(pieces, i);
      TightMatches(tokens, pieces, i + 1);
      TightStartsWithNext(tokens, pieces, i + 1);
      assert uri[|pieces[i]|..] == rest;
      assert pieces[i..] == [pieces[i]] + pieces[i + 1..];
      if tokens[i].Var? && NextLiteral(tokens, i + 1).Some? {
        var next := NextLiteral(tokens, i + 1).value;
        assert TightAt(tokens, i, pieces[i]);
        assert uri[..|pieces[i]|] == pieces[i];
        FirstInPrefix(uri, next, |pieces[i]|);
        FoundFirst(uri, next, |pieces[i]|);
      } else if tokens[i].Var? {
        NoLiteralLeft(tokens, pieces, i + 1);
        assert uri == pieces[i];
      }
    }
  }

  lemma FoundFirst(hay: string, needle: string, at: nat)
    requires FirstAt(hay, needle, at)
    ensures Find(hay, needle) == Some(at)
  {
    assert OccursAt(hay, needle, at);
  }

  lemma {:induction false} NoLiteralLeft(tokens: seq<Token>, pieces: seq<string>, i: nat)
    requires WellFormed(tokens) && Instance(tokens, pieces) && Tight(tokens, pieces)
    requires 0 < i <= |tokens| && tokens[i - 1].Var? && NextLiteral(tokens, i).None?
    ensures Join(pieces[i..]) == ""
  {
    TightStartsWithNext(tokens, pieces, i);
  }

  /**
   Soundness and recovery of matching in one statement: the matcher answers `pieces` exactly when
   they are a tight instance of the template that spells the URI.
   */
  lemma MatchIffTight(tokens: seq<Token>, uri: string, pieces: seq<string>)
    requires WellFormed(tokens)
    ensures Match(tokens, uri) == Some(pieces) <==>
            Instance(tokens, pieces) && Tight(tokens, pieces) && Join(pieces) == uri
  {
    if Match(tokens, uri) == Some(pieces) {
      MatchFromSound(tokens, 0, uri);
      forall k | 0 <= k < |tokens|
        ensures AssignedAt(tokens, k, pieces[k])
      {
        assert AssignedAt(tokens, 0 + k, pieces[k]);
      }
    }
    if Instance(tokens, pieces) && Tight(tokens, pieces) && Join(pieces) == uri {
      TightMatches(tokens, pieces, 0);
      assert pieces[0..] == pieces;
    }
  }
}
