/**
 JSON values and the compact text serde_json writes for them. An object keeps its members in the
 order the map iterates them; whether that is insertion or key order depends on the build, and
 nothing here relies on it.
 */
module Json {
  import opened Strings

  datatype Json =
    | Null
    | Bool(value: bool)
    /** A number is what it prints as, since printing a number loses nothing. */
    | Number(lexeme: string)
    | Str(text: string)
    | Array(items: seq<Json>)
    | Object(members: seq<Member>)

  datatype Member = Member(key: string, value: Json)

  predicate NumberChar(c: char) {
    '0' <= c <= '9' || c in {'-', '+', '.', 'e', 'E'}
  }

  predicate ValidLexeme(s: string) {
    && s != "" && (forall i :: 0 <= i < |s| ==> NumberChar(s[i]))
    && ('0' <= s[0] <= '9' || s[0] == '-')
  }

  predicate DistinctKeys(members: seq<Member>) {
    forall i, j :: 0 <= i < j < |members| ==> members[i].key != members[j].key
  }

  /** Numbers print as numbers and no object has a key twice, at any depth. */
  predicate Valid(v: Json) {
    match v
    case Null => true
    case Bool(_) => true
    case Str(_) => true
    case Number(lexeme) => ValidLexeme(lexeme)
    case Array(items) => forall i :: 0 <= i < |items| ==> Valid(items[i])
    case Object(members) =>
      DistinctKeys(members) && forall i :: 0 <= i < |members| ==> Valid(members[i].value)
  }

  // ---------------------------------------------------------------- writing

  function HexDigit(n: nat): char
    requires n < 16
  {
    if n < 10 then ('0' as nat + n) as char else ('a' as nat + n - 10) as char
  }

  function Escape(c: char): string {
    if c == '\"' then "\\\""
    else if c == '\\' then "\\\\"
    else if c == 8 as char then "\\b"
    else if c == 12 as char then "\\f"
    else if c == '\n' then "\\n"
    else if c == '\r' then "\\r"
    else if c == '\t' then "\\t"
    else if c < 32 as char then "\\u00" + [HexDigit(c as nat / 16), HexDigit(c as nat % 16)]
    else [c]
  }

  /** The characters of a string, its closing quote, and what follows it. */
  function Chars(s: string, rest: string): string {
    if s == "" then "\"" + rest else Escape(s[0]) + Chars(s[1..], rest)
  }

  function Quote(s: string, rest: string): string {
    "\"" + Chars(s, rest)
  }

  /** The text of a value and what follows it: serde_json writes front to back. */
  function Write(v: Json, rest: string): string
    decreases v, 1
  {
    match v
    case Null => "null" + rest
    case Bool(b) => (if b then "true" else "false") + rest
    case Number(lexeme) => lexeme + rest
    case Str(text) => Quote(text, rest)
    case Array(items) =>
      "[" + if items == [] then "]" + rest else Write(items[0], WriteItems(items[1..], rest))
    case Object(members) =>
      "{" + if members == [] then "}" + rest
            else Quote(members[0].key, ":" + Write(members[0].value, WriteMembers(members[1..], rest)))
  }

  function WriteItems(items: seq<Json>, rest: string): string
    decreases items, 0
  {
    if items == [] then "]" + rest else "," + Write(items[0], WriteItems(items[1..], rest))
  }

  function WriteMembers(members: seq<Member>, rest: string): string
    decreases members, 0
  {
    if members == [] then "}" + rest
    else "," + Quote(members[0].key, ":" + Write(members[0].value, WriteMembers(members[1..], rest)))
  }

  function ToText(v: Json): string {
    Write(v, "")
  }

  // ---------------------------------------------------------------- reading back is unambiguous

  /** What follows cannot be taken for more of a number. */
  predicate Delimited(rest: string) {
    rest == "" || !NumberChar(rest[0])
  }

  lemma EscapeInjective(c: char, d: char, x: string, y: string)
    requires Escape(c) + x == Escape(d) + y
    ensures c == d && x == y
  {
    var s := Escape(c) + x;
    assert s[0] == Escape(c)[0] == Escape(d)[0];
    if s[0] == '\\' {
      assert s[1] == Escape(c)[1] == Escape(d)[1];
      if s[1] == 'u' {
        assert s[4] == Escape(c)[4] == Escape(d)[4];
        assert s[5] == Escape(c)[5] == Escape(d)[5];
      }
    }
    assert c == d;
    assert s[|Escape(c)|..] == x;
    assert s[|Escape(d)|..] == y;
  }

  lemma EscapeStart(c: char, x: string)
    ensures (Escape(c) + x)[0] != '\"'
  {
  }

  lemma {:induction false} CharsInjective(s: string, t: string, x: string, y: string)
    requires Chars(s, x) == Chars(t, y)
    ensures s == t && x == y
    decreases |s|
  {
    if s == "" {
      if t != "" {
        EscapeStart(t[0], Chars(t[1..], y));
      }
      assert ("\"" + x)[1..] == x && ("\"" + y)[1..] == y;
    } else {
      EscapeStart(s[0], Chars(s[1..], x));
      EscapeInjective(s[0], t[0], Chars(s[1..], x), Chars(t[1..], y));
      CharsInjective(s[1..], t[1..], x, y);
    }
  }

  lemma QuoteInjective(s: string, t: string, x: string, y: string)
    requires Quote(s, x) == Quote(t, y)
    ensures s == t && x == y
  {
    assert Quote(s, x)[1..] == Chars(s, x);
    assert Quote(t, y)[1..] == Chars(t, y);
    CharsInjective(s, t, x, y);
  }

  lemma NextCharacter(s: string, t: string, x: string, y: string)
    requires s + x == t + y && |s| < |t|
    ensures x != "" && x[0] == t[|s|]
  {
    assert (s + x)[|s|] == (t + y)[|s|];
  }

  lemma LexemeInjective(s: string, t: string, x: string, y: string)
    requires ValidLexeme(s) && ValidLexeme(t) && Delimited(x) && Delimited(y)
    requires s + x == t + y
    ensures s == t && x == y
  {
    if |s| < |t| {
      NextCharacter(s, t, x, y);
    } else if |t| < |s| {
      NextCharacter(t, s, y, x);
    } else {
      assert (s + x)[..|s|] == s && (t + y)[..|t|] == t;
      DropWord(s, x, y);
    }
  }

  /** The kind of a value shows in the first character of its text. */
  function Mark(v: Json): char
    requires Valid(v)
  {
    match v
    case Null => 'n'
    case Bool(b) => if b then 't' else 'f'
    case Number(_) => '0'
    case Str(_) => '\"'
    case Array(_) => '['
    case Object(_) => '{'
  }

  lemma MarkShows(v: Json, rest: string)
    requires Valid(v)
    ensures Write(v, rest) != ""
    ensures var c := Write(v, rest)[0]; c == Mark(v) || (v.Number? && ('0' <= c <= '9' || c == '-'))
  {
  }

  lemma DropFirst(c: char, x: string, y: string)
    requires [c] + x == [c] + y
    ensures x == y
  {
    assert ([c] + x)[1..] == x && ([c] + y)[1..] == y;
  }

  lemma DropWord(w: string, x: string, y: string)
    requires w + x == w + y
    ensures x == y
  {
    assert (w + x)[|w|..] == x && (w + y)[|w|..] == y;
  }

  lemma ItemsDelimited(items: seq<Json>, members: seq<Member>, rest: string)
    ensures Delimited(WriteItems(items, rest)) && Delimited(WriteMembers(members, rest))
    ensures WriteItems(items, rest) != "" && WriteItems(items, rest)[0] == (if items == [] then ']' else ',')
    ensures WriteMembers(members, rest) != "" && WriteMembers(members, rest)[0] == (if members == [] then '}' else ',')
  {
  }

  lemma ItemsTail(items: seq<Json>)
    requires Valid(Array(items)) && items != []
    ensures Valid(items[0]) && Valid(Array(items[1..]))
  {
  }

  lemma MembersTail(members: seq<Member>)
    requires Valid(Object(members)) && members != []
    ensures Valid(members[0].value) && Valid(Object(members[1..]))
  {
  }

  /**
   Texts can be told apart: from what was written, value and rest can be recovered, as long as the
   rest does not continue a number.
   */
  lemma {:induction false} WriteInjective(v: Json, w: Json, x: string, y: string)
    requires Valid(v) && Valid(w) && Delimited(x) && Delimited(y)
    requires Write(v, x) == Write(w, y)
    ensures v == w && x == y
    decreases v, 1
  {
    MarkShows(v, x);
    MarkShows(w, y);
    match v {
      case Null => DropWord("null", x, y);
      case Bool(b) => DropWord(if b then "true" else "false", x, y);
      case Number(lexeme) => LexemeInjective(lexeme, w.lexeme, x, y);
      case Str(text) => QuoteInjective(text, w.text, x, y);
      case Array(items) => ArrayInjective(items, w.items, x, y);
      case Object(members) => ObjectInjective(members, w.members, x, y);
    }
  }

  lemma {:induction false} ArrayInjective(a: seq<Json>, b: seq<Json>, x: string, y: string)
    requires Valid(Array(a)) && Valid(Array(b)) && Delimited(x) && Delimited(y)
    requires Write(Array(a), x) == Write(Array(b), y)
    ensures a == b && x == y
    decreases a, 1
  {
    var left := if a == [] then "]" + x else Write(a[0], WriteItems(a[1..], x));
    var right := if b == [] then "]" + y else Write(b[0], WriteItems(b[1..], y));
    DropFirst('[', left, right);
    if a != [] {
      ItemsTail(a);
      MarkShows(a[0], WriteItems(a[1..], x));
    }
    if b != [] {
      ItemsTail(b);
      MarkShows(b[0], WriteItems(b[1..], y));
    }
    if a == [] {
      DropFirst(']', x, y);
    } else {
      ItemsDelimited(a[1..], [], x);
      ItemsDelimited(b[1..], [], y);
      WriteInjective(a[0], b[0], WriteItems(a[1..], x), WriteItems(b[1..], y));
      ItemsInjective(a[1..], b[1..], x, y);
      assert a == [a[0]] + a[1..] && b == [b[0]] + b[1..];
    }
  }

  lemma {:induction false} ItemsInjective(a: seq<Json>, b: seq<Json>, x: string, y: string)
    requires Valid(Array(a)) && Valid(Array(b)) && Delimited(x) && Delimited(y)
    requires WriteItems(a, x) == WriteItems(b, y)
    ensures a == b && x == y
    decreases a, 0
  {
    ItemsDelimited(a, [], x);
    ItemsDelimited(b, [], y);
    if a == [] {
      DropFirst(']', x, y);
    } else {
      ItemsTail(a);
      ItemsTail(b);
      ItemsDelimited(a[1..], [], x);
      ItemsDelimited(b[1..], [], y);
      DropFirst(',', Write(a[0], WriteItems(a[1..], x)), Write(b[0], WriteItems(b[1..], y)));
      WriteInjective(a[0], b[0], WriteItems(a[1..], x), WriteItems(b[1..], y));
      ItemsInjective(a[1..], b[1..], x, y);
      assert a == [a[0]] + a[1..] && b == [b[0]] + b[1..];
    }
  }

  function WriteMember(m: Member, rest: string): string {
    Quote(m.key, ":" + Write(m.value, rest))
  }

  lemma {:induction false} MemberInjective(m: Member, n: Member, x: string, y: string)
    requires Valid(m.value) && Valid(n.value) && Delimited(x) && Delimited(y)
    requires WriteMember(m, x) == WriteMember(n, y)
    ensures m == n && x == y
    decreases m, 2
  {
    QuoteInjective(m.key, n.key, ":" + Write(m.value, x), ":" + Write(n.value, y));
    DropFirst(':', Write(m.value, x), Write(n.value, y));
    WriteInjective(m.value, n.value, x, y);
  }

  lemma {:induction false} ObjectInjective(a: seq<Member>, b: seq<Member>, x: string, y: string)
    requires Valid(Object(a)) && Valid(Object(b)) && Delimited(x) && Delimited(y)
    requires Write(Object(a), x) == Write(Object(b), y)
    ensures a == b && x == y
    decreases a, 1
  {
    var left := if a == [] then "}" + x else WriteMember(a[0], WriteMembers(a[1..], x));
    var right := if b == [] then "}" + y else WriteMember(b[0], WriteMembers(b[1..], y));
    DropFirst('{', left, right);
    assert left[0] == (if a == [] then '}' else '\"');
    assert right[0] == (if b == [] then '}' else '\"');
    if a == [] {
      DropFirst('}', x, y);
    } else {
      MembersTail(a);
      MembersTail(b);
      ItemsDelimited([], a[1..], x);
      ItemsDelimited([], b[1..], y);
      MemberInjective(a[0], b[0], WriteMembers(a[1..], x), WriteMembers(b[1..], y));
      MembersInjective(a[1..], b[1..], x, y);
      assert a == [a[0]] + a[1..] && b == [b[0]] + b[1..];
    }
  }

  lemma {:induction false} MembersInjective(a: seq<Member>, b: seq<Member>, x: string, y: string)
    requires Valid(Object(a)) && Valid(Object(b)) && Delimited(x) && Delimited(y)
    requires WriteMembers(a, x) == WriteMembers(b, y)
    ensures a == b && x == y
    decreases a, 0
  {
    ItemsDelimited([], a, x);
    ItemsDelimited([], b, y);
    if a == [] {
      DropFirst('}', x, y);
    } else {
      MembersTail(a);
      MembersTail(b);
      ItemsDelimited([], a[1..], x);
      ItemsDelimited([], b[1..], y);
      DropFirst(',', WriteMember(a[0], WriteMembers(a[1..], x)), WriteMember(b[0], WriteMembers(b[1..], y)));
      MemberInjective(a[0], b[0], WriteMembers(a[1..], x), WriteMembers(b[1..], y));
      MembersInjective(a[1..], b[1..], x, y);
      assert a == [a[0]] + a[1..] && b == [b[0]] + b[1..];
    }
  }

  /** Different values have different texts. */
  lemma TextInjective(v: Json, w: Json)
    requires Valid(v) && Valid(w)
    ensures ToText(v) == ToText(w) <==> v == w
  {
    if ToText(v) == ToText(w) {
      WriteInjective(v, w, "", "");
    }
  }

  // ---------------------------------------------------------------- what a text looks like

  function Escaped(s: string): string {
    if s == "" then "" else Escape(s[0]) + Escaped(s[1..])
  }

  function ItemTexts(items: seq<Json>): seq<string> {
    seq(|items|, i requires 0 <= i < |items| => ToText(items[i]))
  }

  function MemberTexts(members: seq<Member>): seq<string> {
    seq(|members|, i requires 0 <= i < |members| => ToText(Str(members[i].key)) + ":" + ToText(members[i].value))
  }

  lemma {:induction false} CharsAre(s: string, rest: string)
    ensures Chars(s, rest) == Escaped(s) + "\"" + rest
    decreases |s|
  {
    if s != "" {
      CharsAre(s[1..], rest);
    }
  }

  lemma QuoteIs(s: string, rest: string)
    ensures Quote(s, rest) == ToText(Str(s)) + rest
  {
    CharsAre(s, rest);
    CharsAre(s, "");
  }

  lemma {:induction false} TextFirst(v: Json, rest: string)
    ensures Write(v, rest) == ToText(v) + rest
    decreases v, 1
  {
    match v {
      case Null =>
      case Bool(_) =>
      case Number(_) =>
      case Str(text) => QuoteIs(text, rest);
      case Array(items) =>
        ArrayText(items, rest);
        ArrayText(items, "");
      case Object(members) =>
        ObjectText(members, rest);
        ObjectText(members, "");
    }
  }

  lemma {:induction false} ArrayText(items: seq<Json>, rest: string)
    ensures Write(Array(items), rest) == "[" + Joined(ItemTexts(items), ',') + "]" + rest
    decreases items, 1
  {
    if items != [] {
      ItemsText(items, rest);
    }
  }

  lemma ItemTextsCons(items: seq<Json>)
    requires items != []
    ensures ItemTexts(items) == [ToText(items[0])] + ItemTexts(items[1..])
  {
  }

  lemma MemberTextsCons(members: seq<Member>)
    requires members != []
    ensures
      MemberTexts(members)
      == [ToText(Str(members[0].key)) + ":" + ToText(members[0].value)] + MemberTexts(members[1..])
  {
  }

  lemma CommasCons(first: string, texts: seq<string>, close: string, rest: string)
    ensures
      Joined([first] + texts, ',') + close + rest
      == first + if texts == [] then close + rest else "," + (Joined(texts, ',') + close + rest)
  {
    JoinedCons(first, texts, ',');
    if texts == [] {
      assert first + close + rest == first + (close + rest);
    } else {
      assert first + "," + Joined(texts, ',') + close + rest == first + ("," + (Joined(texts, ',') + close + rest));
    }
  }

  lemma {:induction false} ItemsText(items: seq<Json>, rest: string)
    requires items != []
    ensures Write(items[0], WriteItems(items[1..], rest)) == Joined(ItemTexts(items), ',') + "]" + rest
    decreases items, 0
  {
    var more := items[1..];
    ItemTextsCons(items);
    TextFirst(items[0], WriteItems(more, rest));
    CommasCons(ToText(items[0]), ItemTexts(more), "]", rest);
    if more != [] {
      ItemsText(more, rest);
    }
  }

  lemma {:induction false} ObjectText(members: seq<Member>, rest: string)
    ensures Write(Object(members), rest) == "{" + Joined(MemberTexts(members), ',') + "}" + rest
    decreases members, 1
  {
    if members != [] {
      MembersText(members, rest);
    }
  }

  lemma {:induction false} MemberText(m: Member, rest: string)
    ensures WriteMember(m, rest) == ToText(Str(m.key)) + ":" + ToText(m.value) + rest
    decreases m, 2
  {
    var key, value := ToText(Str(m.key)), ToText(m.value);
    TextFirst(m.value, rest);
    QuoteIs(m.key, ":" + Write(m.value, rest));
    assert key + (":" + (value + rest)) == key + ":" + value + rest;
  }

  lemma {:induction false} MembersText(members: seq<Member>, rest: string)
    requires members != []
    ensures WriteMember(members[0], WriteMembers(members[1..], rest)) == Joined(MemberTexts(members), ',') + "}" + rest
    decreases members, 0
  {
    var m, more := members[0], members[1..];
    MemberTextsCons(members);
    MemberText(m, WriteMembers(more, rest));
    CommasCons(ToText(Str(m.key)) + ":" + ToText(m.value), MemberTexts(more), "}", rest);
    if more != [] {
      MembersText(more, rest);
    }
  }

  predicate Hex(c: char, n: nat) {
    (n < 10 && c as nat == '0' as nat + n) || (10 <= n < 16 && c as nat == 'a' as nat + n - 10)
  }

  /** What section 7 of RFC 8259 has this stand for in a string. */
  predicate StandsFor(s: string, c: char) {
    if s == [c] then c as nat >= 32 && c !in {'\"', '\\'}
    else if |s| == 2 then
      s[0] == '\\' && match s[1]
        case '\"' => c == '\"'
        case '\\' => c == '\\'
        case 'b' => c as nat == 0x08
        case 't' => c as nat == 0x09
        case 'n' => c as nat == 0x0A
        case 'f' => c as nat == 0x0C
        case 'r' => c as nat == 0x0D
        case _ => false
    else
      && |s| == 6 && s[..4] == "\\u00" && (c as nat) < 256
      && Hex(s[4], c as nat / 16) && Hex(s[5], c as nat % 16)
  }

  lemma EscapeStandsFor(c: char)
    ensures StandsFor(Escape(c), c)
  {
  }

  /** The text of a value is put together from the texts of its parts, commas and brackets. */
  lemma TextShape(v: Json)
    ensures
      ToText(v) ==
      match v
      case Null => "null"
      case Bool(b) => if b then "true" else "false"
      case Number(lexeme) => lexeme
      case Str(text) => "\"" + Escaped(text) + "\""
      case Array(items) => "[" + Joined(ItemTexts(items), ',') + "]"
      case Object(members) => "{" + Joined(MemberTexts(members), ',') + "}"
  {
    match v {
      case Str(text) => CharsAre(text, "");
      case Array(items) => ArrayText(items, "");
      case Object(members) => ObjectText(members, "");
      case _ =>
    }
  }
}
