/**
 Dotted paths into a JSON value, as template expressions write them (src/engine/templating.rs): how a
 path is read into tokens, how tokens are written as a path, and what a path selects.
 */
module TemplatePath {
  import opened Wrappers
  import opened Json
  import Decimal

  datatype PathToken = Field(name: string) | Index(index: nat)

  // ---------------------------------------------------------------- reading a path

  function Flush(current: string): seq<PathToken> {
    if current == "" then [] else [Field(current)]
  }

  /** Up to the next `]`, or to the end of the path where there is none. */
  function BracketText(s: string): string {
    if s == "" || s[0] == ']' then "" else [s[0]] + BracketText(s[1..])
  }

  /** After the next `]`; nothing where there is none. */
  function AfterBracket(s: string): (r: string)
    ensures |r| <= |s|
  {
    if s == "" then "" else if s[0] == ']' then s[1..] else AfterBracket(s[1..])
  }

  /** What does not parse as a number is dropped. */
  function BracketToken(text: string): seq<PathToken> {
    match Decimal.ParseUsize(text)
    case Some(index) => [Index(index)]
    case None => []
  }

  /** The tokens of the rest of a path, when `current` has been read of a name. */
  function Tokens(path: string, current: string): seq<PathToken>
    decreases |path|
  {
    if path == "" then Flush(current)
    else if path[0] == '.' then Flush(current) + Tokens(path[1..], "")
    else if path[0] == '[' then
      Flush(current) + BracketToken(BracketText(path[1..])) + Tokens(AfterBracket(path[1..]), "")
    else Tokens(path[1..], current + [path[0]])
  }

  lemma {:induction false} BracketSplits(s: string, n: nat)
    requires n <= |s| && ']' !in s[..n] && (n == |s| || s[n] == ']')
    ensures BracketText(s) == s[..n]
    ensures AfterBracket(s) == if n == |s| then "" else s[n + 1..]
    decreases n
  {
    if n > 0 {
      assert s[0] == s[..n][0];
      assert s[1..][..n - 1] == s[..n][1..];
      BracketSplits(s[1..], n - 1);
      assert s[..n] == [s[0]] + s[1..][..n - 1];
    }
  }

  /** Reads from `start` up to and over the next `]`. */
  method ReadBracket(path: string, start: nat) returns (text: string, next: nat)
    requires start <= |path|
    ensures start <= next <= |path|
    ensures text == BracketText(path[start..]) && path[next..] == AfterBracket(path[start..])
  {
    text := "";
    next := start;
    while next < |path| && path[next] != ']'
      invariant start <= next <= |path|
      invariant text == path[start..next] && ']' !in text
    {
      text := text + [path[next]];
      next := next + 1;
    }
    assert path[start..][..next - start] == text;
    BracketSplits(path[start..], next - start);
    if next < |path| {
      next := next + 1;
    }
  }

  lemma TokensStep(path: string, i: nat, current: string)
    requires i < |path|
    ensures
      var ch := path[i];
      Tokens(path[i..], current)
      == if ch == '.' then Flush(current) + Tokens(path[i + 1..], "")
         else if ch == '[' then
           Flush(current) + BracketToken(BracketText(path[i + 1..])) + Tokens(AfterBracket(path[i + 1..]), "")
         else Tokens(path[i + 1..], current + [ch])
  {
    assert path[i..][1..] == path[i + 1..];
  }

  lemma Regroup(a: seq<PathToken>, b: seq<PathToken>, c: seq<PathToken>, d: seq<PathToken>)
    ensures a + (b + c + d) == a + b + c + d
    ensures a + (b + c) == a + b + c
  {
  }

  /** `parse_path`. */
  method ParsePath(path: string) returns (tokens: seq<PathToken>)
    ensures tokens == Tokens(path, "")
  {
    tokens := [];
    var current := "";
    var i := 0;
    while i < |path|
      invariant 0 <= i <= |path|
      invariant Tokens(path, "") == tokens + Tokens(path[i..], current)
    {
      var ch := path[i];
      TokensStep(path, i, current);
      i := i + 1;
      if ch == '.' {
        Regroup(tokens, Flush(current), Tokens(path[i..], ""), []);
        tokens := tokens + Flush(current);
        current := "";
      } else if ch == '[' {
        var text, next := ReadBracket(path, i);
        Regroup(tokens, Flush(current), BracketToken(text), Tokens(path[next..], ""));
        tokens := tokens + Flush(current) + BracketToken(text);
        current := "";
        i := next;
      } else {
        current := current + [ch];
      }
    }
    tokens := tokens + Flush(current);
  }

  // ---------------------------------------------------------------- writing a path

  function WriteTokens(tokens: seq<PathToken>): string {
    if tokens == [] then ""
    else WriteToken(tokens[0]) + WriteTokens(tokens[1..])
  }

  function WriteToken(t: PathToken): string {
    match t
    case Field(name) => "." + name
    case Index(index) => "[" + Decimal.Print(index) + "]"
  }

  /** A path such as `data.items[0].name`. */
  function WritePath(tokens: seq<PathToken>): string {
    if tokens != [] && tokens[0].Field? then tokens[0].name + WriteTokens(tokens[1..])
    else WriteTokens(tokens)
  }

  predicate PlainName(name: string) {
    '.' !in name && '[' !in name
  }

  /** Names a path can hold, and indices a machine word can. */
  predicate Plain(tokens: seq<PathToken>) {
    forall t <- tokens :: PlainToken(t)
  }

  predicate PlainToken(t: PathToken) {
    match t
    case Field(name) => name != "" && PlainName(name)
    case Index(index) => index <= Decimal.USIZE_MAX
  }

  lemma {:induction false} ReadName(name: string, rest: string, current: string)
    requires PlainName(name)
    ensures Tokens(name + rest, current) == Tokens(rest, current + name)
    decreases |name|
  {
    if name == "" {
      assert name + rest == rest && current + name == current;
    } else {
      assert (name + rest)[1..] == name[1..] + rest;
      ReadName(name[1..], rest, current + [name[0]]);
      assert current + [name[0]] + name[1..] == current + name;
    }
  }

  lemma ReadIndex(index: nat, rest: string, current: string)
    requires index <= Decimal.USIZE_MAX
    ensures Tokens(WriteToken(Index(index)) + rest, current) == Flush(current) + [Index(index)] + Tokens(rest, "")
  {
    var digits := Decimal.Print(index);
    var path := WriteToken(Index(index)) + rest;
    Decimal.ParsePrint(index);
    var inner := path[1..];
    assert inner == digits + "]" + rest;
    assert inner[..|digits|] == digits;
    BracketSplits(inner, |digits|);
    assert inner[|digits| + 1..] == rest;
  }

  lemma ReadDot(rest: string, current: string)
    ensures Tokens("." + rest, current) == Flush(current) + Tokens(rest, "")
  {
    assert ("." + rest)[1..] == rest;
  }

  lemma ReadField(name: string, rest: string, current: string)
    requires PlainName(name)
    ensures Tokens(WriteToken(Field(name)) + rest, current) == Flush(current) + Tokens(rest, name)
  {
    var after := name + rest;
    assert WriteToken(Field(name)) + rest == "." + after;
    ReadDot(after, current);
    ReadName(name, rest, "");
    assert "" + name == name;
  }

  lemma {:induction false} TokensInvertWrite(tokens: seq<PathToken>, current: string)
    requires Plain(tokens)
    ensures Tokens(WriteTokens(tokens), current) == Flush(current) + tokens
    decreases |tokens|
  {
    if tokens != [] {
      var first, tail := tokens[0], tokens[1..];
      assert PlainToken(first);
      TokensInvertWrite(tail, if first.Field? then first.name else "");
      ReadFirst(first, WriteTokens(tail), tail, current);
      assert tokens == [first] + tail;
    }
  }

  lemma ReadFirst(first: PathToken, rest: string, tail: seq<PathToken>, current: string)
    requires PlainToken(first)
    requires
      var left := if first.Field? then first.name else "";
      Tokens(rest, left) == Flush(left) + tail
    ensures Tokens(WriteToken(first) + rest, current) == Flush(current) + ([first] + tail)
  {
    if first.Field? {
      ReadField(first.name, rest, current);
    } else {
      ReadIndex(first.index, rest, current);
      assert [] + tail == tail;
    }
    Regroup(Flush(current), [first], tail, []);
  }

  lemma {:induction false} TokensArePlain(path: string, current: string)
    requires PlainName(current)
    ensures Plain(Tokens(path, current))
    decreases |path|
  {
    if path != "" {
      if path[0] == '.' {
        TokensArePlain(path[1..], "");
      } else if path[0] == '[' {
        TokensArePlain(AfterBracket(path[1..]), "");
      } else {
        TokensArePlain(path[1..], current + [path[0]]);
      }
    }
  }

  /**
   Exactly the plain token lists survive being written and read: reading gives back what was written,
   and reading anything at all gives a plain list.
   */
  lemma PathRoundTrip(tokens: seq<PathToken>)
    ensures Tokens(WritePath(tokens), "") == tokens <==> Plain(tokens)
  {
    TokensArePlain(WritePath(tokens), "");
    if Plain(tokens) {
      if tokens != [] && tokens[0].Field? {
        assert PlainToken(tokens[0]);
        ReadName(tokens[0].name, WriteTokens(tokens[1..]), "");
        assert "" + tokens[0].name == tokens[0].name;
        TokensInvertWrite(tokens[1..], tokens[0].name);
        assert tokens == [tokens[0]] + tokens[1..];
      } else {
        TokensInvertWrite(tokens, "");
      }
    }
  }

  // ---------------------------------------------------------------- any path

  /** The path ends inside brackets. */
  ghost predicate Unclosed(path: string) {
    exists i :: OpensAt(path, i)
  }

  predicate OpensAt(path: string, i: nat) {
    i < |path| && path[i] == '[' && ']' !in path[i..]
  }

  lemma TailCloses(path: string, n: nat)
    requires n <= |path| && !Unclosed(path)
    ensures !Unclosed(path[n..])
  {
    forall i: nat ensures !OpensAt(path[n..], i) {
      assert i < |path[n..]| ==> path[n..][i..] == path[n + i..];
      assert !OpensAt(path, n + i);
    }
  }

  lemma BracketEnd(path: string) returns (n: nat)
    requires path != "" && path[0] == '[' && !Unclosed(path)
    ensures n < |path| - 1 && path[n + 1] == ']' && ']' !in path[1..n + 1]
  {
    assert !OpensAt(path, 0);
    n := 0;
    while path[n + 1] != ']'
      invariant n < |path| - 1 && ']' !in path[..n + 1]
      decreases |path| - n
    {
      assert path[..n + 2] == path[..n + 1] + [path[n + 1]];
      n := n + 1;
    }
  }

  /** Where no bracket is open, a dot or a bracket starts afresh. */
  lemma {:induction false} ReadsInParts(a: string, b: string, current: string)
    requires !Unclosed(a) && (b == "" || b[0] in {'.', '['})
    ensures Tokens(a + b, current) == Tokens(a, current) + Tokens(b, "")
    decreases |a|
  {
    if a == "" {
      assert a + b == b;
    } else {
      assert (a + b)[1..] == a[1..] + b;
      if a[0] == '[' {
        var n := BracketEnd(a);
        var inner := a[1..];
        assert inner[..n] == a[1..n + 1] && (inner + b)[..n] == inner[..n];
        BracketSplits(inner, n);
        BracketSplits(inner + b, n);
        assert (inner + b)[n + 1..] == inner[n + 1..] + b && inner[n + 1..] == a[n + 2..];
        TailCloses(a, n + 2);
        ReadsInParts(a[n + 2..], b, "");
        Regroup(Flush(current) + BracketToken(inner[..n]), Tokens(a[n + 2..], ""), Tokens(b, ""), []);
      } else {
        TailCloses(a, 1);
        ReadsInParts(a[1..], b, if a[0] == '.' then "" else current + [a[0]]);
        Regroup(Flush(current), Tokens(a[1..], ""), Tokens(b, ""), []);
      }
    }
  }

  /** The indices that text in brackets stands for: one, or none where it is no number that fits. */
  ghost predicate BracketMeans(text: string, tokens: seq<PathToken>) {
    if exists index: nat :: index <= Decimal.USIZE_MAX && Decimal.Spells(text, index)
    then exists index: nat :: Decimal.Spells(text, index) && tokens == [Index(index)]
    else tokens == []
  }

  lemma BracketTokenMeans(text: string)
    ensures BracketMeans(text, BracketToken(text))
  {
    forall index: nat
      ensures Decimal.ParseUsize(text) == Some(index) <==> index <= Decimal.USIZE_MAX && Decimal.Spells(text, index)
    {
      Decimal.ParsesExactly(text, index);
    }
  }

  lemma BracketReads(text: string, b: string)
    requires ']' !in text
    ensures Tokens("[" + text, "") == BracketToken(text)
    ensures Tokens("[" + text + "]" + b, "") == BracketToken(text) + Tokens(b, "")
  {
    var open, closed := "[" + text, "[" + text + "]" + b;
    var inner := text + "]" + b;
    assert open[1..] == text && text[..|text|] == text;
    BracketSplits(text, |text|);
    assert closed[1..] == inner && inner[..|text|] == text && inner[|text| + 1..] == b;
    BracketSplits(inner, |text|);
    Regroup([], [], BracketToken(text), []);
    assert BracketToken(text) + [] == BracketToken(text);
  }

  lemma NameReads(name: string)
    requires PlainName(name)
    ensures Tokens(name, "") == if name == "" then [] else [Field(name)]
  {
    ReadName(name, "", "");
    assert name + "" == name && "" + name == name;
  }

  /**
   How any path at all is read. A name is a field, unless it is empty; text in brackets, closed or not, is an
   index if it is a number and nothing otherwise; and parts that start with a dot or a bracket are read on
   their own.
   */
  lemma AnyPath(a: string, name: string, text: string, b: string) returns (tokens: seq<PathToken>)
    requires !Unclosed(a) && PlainName(name) && ']' !in text
    ensures Tokens(name, "") == if name == "" then [] else [Field(name)]
    ensures Tokens(a + ("." + b), "") == Tokens(a, "") + Tokens(b, "")
    ensures BracketMeans(text, tokens)
    ensures Tokens(a + ("[" + text), "") == Tokens(a, "") + tokens
    ensures Tokens(a + ("[" + text + "]" + b), "") == Tokens(a, "") + (tokens + Tokens(b, ""))
  {
    NameReads(name);
    ReadsInParts(a, "." + b, "");
    ReadDot(b, "");
    assert Flush("") + Tokens(b, "") == Tokens(b, "");
    ReadsInParts(a, "[" + text, "");
    ReadsInParts(a, "[" + text + "]" + b, "");
    tokens := BracketToken(text);
    BracketTokenMeans(text);
    BracketReads(text, b);
  }

  // ---------------------------------------------------------------- selecting

  function Lookup(members: seq<Member>, name: string): Option<Json> {
    if members == [] then None
    else if members[0].key == name then Some(members[0].value)
    else Lookup(members[1..], name)
  }

  function Child(v: Json, t: PathToken): Option<Json> {
    match t
    case Field(name) => if v.Object? then Lookup(v.members, name) else None
    case Index(index) => if v.Array? && index < |v.items| then Some(v.items[index]) else None
  }

  function Follow(v: Json, tokens: seq<PathToken>): Option<Json>
    decreases |tokens|
  {
    if tokens == [] then Some(v)
    else
      match Child(v, tokens[0])
      case Some(child) => Follow(child, tokens[1..])
      case None => None
  }

  /** The token names this child: a member by its key, an item by its position. */
  predicate Names(v: Json, t: PathToken, child: Json) {
    match t
    case Field(name) => v.Object? && Member(name, child) in v.members
    case Index(index) => v.Array? && index < |v.items| && v.items[index] == child
  }

  /** `w` stands in `v` under these tokens. */
  ghost predicate StandsUnder(w: Json, v: Json, tokens: seq<PathToken>)
    decreases |tokens|
  {
    if tokens == [] then w == v
    else exists child :: Names(v, tokens[0], child) && StandsUnder(w, child, tokens[1..])
  }

  lemma {:induction false} LookupExactly(members: seq<Member>, name: string, w: Json)
    requires DistinctKeys(members)
    ensures Lookup(members, name) == Some(w) <==> Member(name, w) in members
  {
    if members != [] {
      LookupExactly(members[1..], name, w);
      assert forall m :: m in members <==> m == members[0] || m in members[1..];
      assert forall m <- members[1..] :: m.key != members[0].key;
    }
  }

  lemma ChildExactly(v: Json, t: PathToken, w: Json)
    requires Valid(v)
    ensures Child(v, t) == Some(w) <==> Names(v, t, w)
    ensures Names(v, t, w) ==> Valid(w)
  {
    if v.Object? && t.Field? {
      LookupExactly(v.members, t.name, w);
    }
  }

  /** A path selects exactly what stands under it, and so nothing exactly where nothing does. */
  lemma {:induction false} SelectsExactly(v: Json, tokens: seq<PathToken>, w: Json)
    requires Valid(v)
    ensures Follow(v, tokens) == Some(w) <==> StandsUnder(w, v, tokens)
    decreases |tokens|
  {
    if tokens != [] {
      forall child | Names(v, tokens[0], child)
        ensures Follow(child, tokens[1..]) == Some(w) <==> StandsUnder(w, child, tokens[1..])
      {
        ChildExactly(v, tokens[0], child);
        SelectsExactly(child, tokens[1..], w);
      }
      forall child ensures Child(v, tokens[0]) == Some(child) <==> Names(v, tokens[0], child) {
        ChildExactly(v, tokens[0], child);
      }
    }
  }

  /** `select_path`. */
  method SelectPath(value: Json, path: string) returns (r: Option<Json>)
    ensures r == Follow(value, Tokens(path, ""))
    ensures Valid(value) ==> forall w :: r == Some(w) <==> StandsUnder(w, value, Tokens(path, ""))
  {
    var tokens := ParsePath(path);
    forall w | Valid(value) ensures Follow(value, tokens) == Some(w) <==> StandsUnder(w, value, tokens) {
      SelectsExactly(value, tokens, w);
    }
    var current := value;
    var i := 0;
    while i < |tokens|
      invariant 0 <= i <= |tokens|
      invariant Follow(value, tokens) == Follow(current, tokens[i..])
    {
      var next := Child(current, tokens[i]);
      assert tokens[i..][1..] == tokens[i + 1..];
      if next.None? {
        return None;
      }
      current := next.value;
      i := i + 1;
    }
    return Some(current);
  }

  /** Following one path after another. */
  lemma {:induction false} FollowAppends(v: Json, tokens: seq<PathToken>, more: seq<PathToken>)
    ensures Follow(v, tokens + more)
         == match Follow(v, tokens) case Some(inner) => Follow(inner, more) case None => None
    decreases |tokens|
  {
    if tokens == [] {
      assert tokens + more == more;
    } else {
      assert (tokens + more)[1..] == tokens[1..] + more;
      var child := Child(v, tokens[0]);
      if child.Some? {
        FollowAppends(child.value, tokens[1..], more);
      }
    }
  }

}
