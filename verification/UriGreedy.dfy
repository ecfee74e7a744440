/**
 How much the greedy matcher of src/engine/resources.rs gives up: exactly which templates it
 matches completely, and exactly when its argument map spells the URI again.
 */
module UriGreedy {
  import opened Wrappers
  import opened Text
  import opened UriTemplate

  lemma {:induction false} JoinConcat(a: seq<string>, b: seq<string>)
    ensures Join(a + b) == Join(a) + Join(b)
  {
    if a == [] {
      assert a + b == b;
    } else {
      JoinConcat(a[1..], b);
      assert (a + b)[1..] == a[1..] + b;
      Associative(a[0], Join(a[1..]), Join(b));
    }
  }

  // ---------------------------------------------------------------- completeness

  /** The next literal from `i` on stands at index `j`, behind variables only. */
  ghost predicate LiteralAt(tokens: seq<Token>, i: nat, j: nat) {
    && i <= j < |tokens| && tokens[j].Literal?
    && forall k :: i <= k < j ==> tokens[k].Var?
  }

  lemma {:induction false} NextLiteralIndex(tokens: seq<Token>, i: nat) returns (j: nat)
    requires WellFormed(tokens) && i <= |tokens| && NextLiteral(tokens, i).Some?
    ensures LiteralAt(tokens, i, j) && NextLiteral(tokens, i).value == tokens[j].text
    decreases |tokens| - i
  {
    assert ValidToken(tokens[i]);
    if tokens[i].Literal? {
      j := i;
    } else {
      j := NextLiteralIndex(tokens, i + 1);
    }
  }

  lemma {:induction false} NextLiteralValue(tokens: seq<Token>, i: nat, j: nat)
    requires WellFormed(tokens) && LiteralAt(tokens, i, j)
    ensures NextLiteral(tokens, i) == Some(tokens[j].text)
    decreases j - i
  {
    assert ValidToken(tokens[i]);
    if i < j {
      NextLiteralValue(tokens, i + 1, j);
    }
  }

  lemma {:induction false} TrailingVarsMatch(tokens: seq<Token>, i: nat)
    requires WellFormed(tokens) && i <= |tokens| && NextLiteral(tokens, i).None?
    ensures MatchFrom(tokens, i, "").Some?
    decreases |tokens| - i
  {
    if i < |tokens| {
      assert ValidToken(tokens[i]);
      TrailingVarsMatch(tokens, i + 1);
    }
  }

  predicate EndsInVar(tokens: seq<Token>) {
    tokens != [] && tokens[|tokens| - 1].Var?
  }

  lemma JoinAround(pieces: seq<string>, i: nat, j: nat)
    requires i <= j < |pieces|
    ensures Join(pieces[i..]) == Join(pieces[i..j]) + pieces[j] + Join(pieces[j + 1..])
  {
    JoinConcat(pieces[i..j], pieces[j..]);
    assert pieces[i..j] + pieces[j..] == pieces[i..];
    JoinFrom(pieces, j);
  }

  /** A literal that stands behind `slack + front` is found there at the latest. */
  lemma FoundNoLater(slack: string, front: string, next: string, back: string) returns (offset: nat, less: string)
    ensures var uri := slack + (front + next + back);
            && Find(uri, next) == Some(offset) && offset <= |uri|
            && next <= uri[offset..] && uri[offset..][|next|..] == less + back
  {
    var uri, at := slack + (front + next + back), |slack| + |front|;
    assert uri[at..at + |next|] == next;
    assert OccursAt(uri, next, at);
    offset := Find(uri, next).value;
    assert OccursAt(uri, next, offset) && offset <= at;
    less := uri[offset + |next|..at + |next|];
    assert uri[at + |next|..] == back;
    assert uri[offset..][|next|..] == uri[offset + |next|..] == less + back;
  }

  /**
   Exchange step: whatever instance the URI has, a variable that stops at the earliest possible
   place only leaves more text for the variable behind the literal.
   */
  lemma {:induction false} SlackMatches(tokens: seq<Token>, pieces: seq<string>, i: nat, slack: string)
    requires WellFormed(tokens) && Instance(tokens, pieces) && EndsInVar(tokens)
    requires i < |tokens| && tokens[i].Var?
    ensures MatchFrom(tokens, i, slack + Join(pieces[i..])).Some?
    decreases |tokens| - i, 1
  {
    var uri := slack + Join(pieces[i..]);
    if NextLiteral(tokens, i + 1).None? {
      TrailingVarsMatch(tokens, i + 1);
    } else {
      var j := NextLiteralIndex(tokens, i + 1);
      var next := tokens[j].text;
      JoinAround(pieces, i, j);
      var offset, less := FoundNoLater(slack, Join(pieces[i..j]), next, Join(pieces[j + 1..]));
      ResumeMatches(tokens, pieces, i + 1, j, uri[offset..], less);
    }
  }

  lemma {:induction false} ResumeMatches(
      tokens: seq<Token>, pieces: seq<string>, i: nat, j: nat, uri: string, slack: string)
    requires WellFormed(tokens) && Instance(tokens, pieces) && EndsInVar(tokens)
    requires LiteralAt(tokens, i, j) && tokens[j].text <= uri
    requires uri[|tokens[j].text|..] == slack + Join(pieces[j + 1..])
    ensures MatchFrom(tokens, i, uri).Some?
    decreases |tokens| - i, 0
  {
    if i == j {
      assert Separated(tokens, j + 1);
      SlackMatches(tokens, pieces, j + 1, slack);
    } else {
      NextLiteralValue(tokens, i + 1, j);
      PrefixFoundAtZero(uri, tokens[j].text);
      assert uri[0..] == uri;
      ResumeMatches(tokens, pieces, i + 1, j, uri, slack);
    }
  }

  /** Every URI the template can spell is matched. */
  ghost predicate Complete(tokens: seq<Token>) {
    forall pieces :: Instance(tokens, pieces) ==> Match(tokens, Join(pieces)).Some?
  }

  lemma CompleteWhenEndsInVar(tokens: seq<Token>)
    requires WellFormed(tokens) && EndsInVar(tokens)
    ensures Complete(tokens)
  {
    forall pieces | Instance(tokens, pieces)
      ensures Match(tokens, Join(pieces)).Some?
    {
      assert pieces[0..] == pieces;
      if tokens[0].Var? {
        SlackMatches(tokens, pieces, 0, "");
        assert "" + Join(pieces) == Join(pieces);
      } else {
        JoinFrom(pieces, 0);
        assert Join(pieces)[|pieces[0]|..] == "" + Join(pieces[1..]);
        ResumeMatches(tokens, pieces, 0, 0, Join(pieces), "");
      }
    }
  }

  /**
   Greedy completeness: for a template that ends in a variable, a URI is matched exactly when it is
   the template with some text for each variable.
   */
  lemma GreedyCompleteness(tokens: seq<Token>, uri: string)
    requires WellFormed(tokens) && EndsInVar(tokens)
    ensures Match(tokens, uri).Some? <==>
            exists pieces :: Instance(tokens, pieces) && Join(pieces) == uri
  {
    if Match(tokens, uri).Some? {
      var pieces := Match(tokens, uri).value;
      MatchIffTight(tokens, uri, pieces);
      assert Instance(tokens, pieces) && Join(pieces) == uri;
    }
    CompleteWhenEndsInVar(tokens);
  }

  /** The instance with every variable empty, except one at index `k` that holds `text`. */
  function OnlyAt(tokens: seq<Token>, k: nat, text: string): (pieces: seq<string>)
    ensures Instance(tokens, pieces)
  {
    seq(|tokens|, i requires 0 <= i < |tokens| =>
      match tokens[i]
      case Literal(literal) => literal
      case Var(_) => if i == k then text else "")
  }

  lemma {:induction false} EmptyStartsWithNext(tokens: seq<Token>, pieces: seq<string>, i: nat, j: nat)
    requires WellFormed(tokens) && Instance(tokens, pieces) && LiteralAt(tokens, i, j)
    requires forall k :: i <= k < j ==> pieces[k] == ""
    ensures tokens[j].text <= Join(pieces[i..])
    decreases j - i
  {
    JoinFrom(pieces, i);
    if i < j {
      EmptyStartsWithNext(tokens, pieces, i + 1, j);
    }
  }

  /** With a literal at the end, text left over behind it can never be taken up. */
  lemma {:induction false} Stuck(tokens: seq<Token>, pieces: seq<string>, i: nat, tail: string)
    requires WellFormed(tokens) && Instance(tokens, pieces) && i <= |tokens|
    requires tokens != [] && !EndsInVar(tokens) && tail != ""
    requires forall k :: i <= k < |tokens| && tokens[k].Var? ==> pieces[k] == ""
    ensures MatchFrom(tokens, i, Join(pieces[i..]) + tail).None?
    decreases |tokens| - i
  {
    if i < |tokens| {
      var uri, rest := Join(pieces[i..]) + tail, Join(pieces[i + 1..]) + tail;
      JoinFrom(pieces, i);
      assert uri == pieces[i] + rest;
      Stuck(tokens, pieces, i + 1, tail);
      if tokens[i].Var? {
        LastLiteralComes(tokens, i + 1);
        var j := NextLiteralIndex(tokens, i + 1);
        EmptyStartsWithNext(tokens, pieces, i + 1, j);
        PrefixFoundAtZero(uri, tokens[j].text);
        assert uri[0..] == rest;
      } else {
        assert uri[|pieces[i]|..] == rest;
      }
    }
  }

  lemma {:induction false} LastLiteralComes(tokens: seq<Token>, i: nat)
    requires WellFormed(tokens) && i < |tokens| && tokens[|tokens| - 1].Literal?
    ensures NextLiteral(tokens, i).Some?
    decreases |tokens| - i
  {
    assert ValidToken(tokens[i]);
    if i + 1 < |tokens| {
      LastLiteralComes(tokens, i + 1);
    }
  }

  /** A template that ends in a literal misses the URI in which its last variable is that literal. */
  lemma MissedUri(tokens: seq<Token>)
    requires WellFormed(tokens) && |tokens| > 1 && !EndsInVar(tokens)
    ensures !Complete(tokens)
  {
    var n := |tokens|;
    var last := tokens[n - 1].text;
    assert Separated(tokens, n - 1) && ValidToken(tokens[n - 1]);
    var empty, full := OnlyAt(tokens, n, ""), OnlyAt(tokens, n - 2, last);
    assert empty == empty[..n - 2] + ["", last];
    assert full == empty[..n - 2] + [last, last];
    JoinConcat(empty[..n - 2], ["", last]);
    JoinConcat(empty[..n - 2], [last, last]);
    JoinPair("", last);
    JoinPair(last, last);
    assert Join(full) == Join(empty) + last;
    Stuck(tokens, empty, 0, last);
    assert empty[0..] == empty;
  }

  lemma JoinPair(a: string, b: string)
    ensures Join([a, b]) == a + b
  {
    assert [a, b][1..] == [b];
    assert Join([b]) == b + Join([]);
  }

  lemma {:induction false} NoVarComplete(tokens: seq<Token>)
    requires WellFormed(tokens) && |tokens| <= 1 && !EndsInVar(tokens)
    ensures Complete(tokens)
  {
    forall pieces | Instance(tokens, pieces)
      ensures Match(tokens, Join(pieces)).Some?
    {
      if |tokens| == 1 {
        JoinFrom(pieces, 0);
        assert pieces[0..] == pieces && pieces[1..] == [];
        assert Join(pieces)[|pieces[0]|..] == "";
        assert MatchFrom(tokens, 1, "").Some?;
      }
    }
  }

  /** The exact condition for completeness: the template ends in a variable or has none. */
  lemma CompleteExactly(tokens: seq<Token>)
    requires WellFormed(tokens)
    ensures Complete(tokens) <==> EndsInVar(tokens) || forall i :: 0 <= i < |tokens| ==> tokens[i].Literal?
  {
    if EndsInVar(tokens) {
      CompleteWhenEndsInVar(tokens);
    } else if |tokens| <= 1 {
      NoVarComplete(tokens);
    } else {
      assert Separated(tokens, |tokens| - 1);
      MissedUri(tokens);
    }
  }

  // ---------------------------------------------------------------- the argument map

  /** The map the matcher has filled after the first `n` tokens; a repeated name is overwritten. */
  function ArgsUpTo(tokens: seq<Token>, pieces: seq<string>, n: nat): map<string, string>
    requires n <= |pieces| && n <= |tokens|
  {
    if n == 0 then map[]
    else
      var before := ArgsUpTo(tokens, pieces, n - 1);
      match tokens[n - 1]
      case Literal(_) => before
      case Var(name) => before[name := pieces[n - 1]]
  }

  function Args(tokens: seq<Token>, pieces: seq<string>): map<string, string>
    requires |pieces| == |tokens|
  {
    ArgsUpTo(tokens, pieces, |tokens|)
  }

  predicate IsVar(tokens: seq<Token>, i: int, name: string) {
    0 <= i < |tokens| && tokens[i] == Var(name)
  }

  /** The map holds the piece of the last occurrence of every name. */
  lemma {:induction false} ArgsHoldLast(tokens: seq<Token>, pieces: seq<string>, n: nat, i: nat) returns (last: nat)
    requires |pieces| == |tokens| && i < n <= |tokens| && tokens[i].Var?
    ensures i <= last < n && IsVar(tokens, last, tokens[i].name)
    ensures tokens[i].name in ArgsUpTo(tokens, pieces, n)
    ensures ArgsUpTo(tokens, pieces, n)[tokens[i].name] == pieces[last]
    ensures forall k :: last < k < n ==> !IsVar(tokens, k, tokens[i].name)
    decreases n
  {
    if IsVar(tokens, n - 1, tokens[i].name) {
      last := n - 1;
    } else {
      last := ArgsHoldLast(tokens, pieces, n - 1, i);
    }
  }

  /** The map has the names of the variables, and no others. */
  lemma {:induction false} ArgsNamed(tokens: seq<Token>, pieces: seq<string>, n: nat, name: string)
    requires n <= |pieces| && n <= |tokens|
    ensures name in ArgsUpTo(tokens, pieces, n) <==> exists i :: 0 <= i < n && IsVar(tokens, i, name)
    decreases n
  {
    if n > 0 {
      ArgsNamed(tokens, pieces, n - 1, name);
      assert name in ArgsUpTo(tokens, pieces, n) <==>
        name in ArgsUpTo(tokens, pieces, n - 1) || IsVar(tokens, n - 1, name);
    }
  }

  /** Every name of the template, and nothing else, with the text of its last variable. */
  ghost predicate IsArgsOf(args: map<string, string>, tokens: seq<Token>, pieces: seq<string>)
    requires |pieces| == |tokens|
  {
    forall name ::
      && (name in args <==> exists i :: IsVar(tokens, i, name))
      && (name in args ==> exists last :: LastVar(tokens, last, name) && args[name] == pieces[last])
  }

  /** The last variable of that name is at `last`. */
  predicate LastVar(tokens: seq<Token>, last: int, name: string) {
    IsVar(tokens, last, name) && forall k :: last < k < |tokens| ==> !IsVar(tokens, k, name)
  }

  /** The map a match fills is just that: without variables it is empty. */
  lemma ArgsExactly(tokens: seq<Token>, pieces: seq<string>)
    requires |pieces| == |tokens|
    ensures IsArgsOf(Args(tokens, pieces), tokens, pieces)
  {
    var args := Args(tokens, pieces);
    forall name
      ensures name in args <==> exists i :: IsVar(tokens, i, name)
      ensures name in args ==> exists last :: LastVar(tokens, last, name) && args[name] == pieces[last]
    {
      ArgsNamed(tokens, pieces, |tokens|, name);
      if i :| IsVar(tokens, i, name) {
        var last := ArgsHoldLast(tokens, pieces, |tokens|, i);
        assert LastVar(tokens, last, name);
      }
    }
  }

  /** The template with the map's value for every variable. */
  function ByName(tokens: seq<Token>, args: map<string, string>): (pieces: seq<string>)
    ensures Instance(tokens, pieces)
  {
    seq(|tokens|, i requires 0 <= i < |tokens| =>
      match tokens[i]
      case Literal(literal) => literal
      case Var(name) => if name in args then args[name] else "")
  }

  ghost predicate RebuildsByName(tokens: seq<Token>) {
    forall uri, pieces :: |pieces| == |tokens| && Match(tokens, uri) == Some(pieces) ==>
      Join(ByName(tokens, Args(tokens, pieces))) == uri
  }

  /** A name only stands twice where both places directly follow another variable. */
  ghost predicate RepeatsOnlyAfterVars(tokens: seq<Token>) {
    forall i, j :: 0 <= i < j < |tokens| && tokens[i].Var? && tokens[i] == tokens[j] ==>
      AfterVar(tokens, i) && AfterVar(tokens, j)
  }

  lemma ByNameRecovers(tokens: seq<Token>, uri: string, pieces: seq<string>)
    requires WellFormed(tokens) && RepeatsOnlyAfterVars(tokens)
    requires |pieces| == |tokens| && Match(tokens, uri) == Some(pieces)
    ensures ByName(tokens, Args(tokens, pieces)) == pieces
  {
    MatchIffTight(tokens, uri, pieces);
    EmptyAfterVars(tokens, pieces);
    forall i | 0 <= i < |tokens| ensures ByName(tokens, Args(tokens, pieces))[i] == pieces[i] {
      PieceComesBack(tokens, pieces, i);
    }
  }

  /** Variables directly behind others hold nothing. */
  predicate NothingAfterVars(tokens: seq<Token>, pieces: seq<string>)
    requires |pieces| == |tokens|
  {
    forall i :: 0 <= i < |tokens| && tokens[i].Var? && AfterVar(tokens, i) ==> pieces[i] == ""
  }

  lemma EmptyAfterVars(tokens: seq<Token>, pieces: seq<string>)
    requires |pieces| == |tokens| && Tight(tokens, pieces)
    ensures NothingAfterVars(tokens, pieces)
  {
    forall i | 0 <= i < |tokens| && tokens[i].Var? && AfterVar(tokens, i) ensures pieces[i] == "" {
      assert TightAt(tokens, i, pieces[i]);
    }
  }

  lemma PieceComesBack(tokens: seq<Token>, pieces: seq<string>, i: nat)
    requires i < |tokens| && Instance(tokens, pieces)
    requires RepeatsOnlyAfterVars(tokens) && NothingAfterVars(tokens, pieces)
    ensures ByName(tokens, Args(tokens, pieces))[i] == pieces[i]
  {
    if tokens[i].Var? {
      var last := ArgsHoldLast(tokens, pieces, |tokens|, i);
      assert last != i ==> AfterVar(tokens, i) && AfterVar(tokens, last);
    }
  }

  lemma {:induction false} JoinLength(a: seq<string>, b: seq<string>, at: nat)
    requires |a| == |b| && forall k :: 0 <= k < |a| ==> |a[k]| <= |b[k]|
    ensures |Join(a)| <= |Join(b)|
    ensures at < |a| && |a[at]| < |b[at]| ==> |Join(a)| < |Join(b)|
  {
    if a != [] {
      JoinLength(a[1..], b[1..], if at == 0 then 0 else at - 1);
    }
  }

  /** One character in a single variable, chosen so that it cannot start the next literal. */
  lemma OneCharTight(tokens: seq<Token>, k: nat) returns (c: char)
    requires WellFormed(tokens) && k < |tokens| && tokens[k].Var? && !AfterVar(tokens, k)
    ensures Tight(tokens, OnlyAt(tokens, k, [c]))
  {
    var next := NextLiteral(tokens, k + 1);
    c := if next.Some? && next.value != "" && next.value[0] == 'x' then 'y' else 'x';
    var pieces := OnlyAt(tokens, k, [c]);
    forall i | 0 <= i < |tokens| && tokens[i].Var?
      ensures TightAt(tokens, i, pieces[i])
    {
      var follows := NextLiteral(tokens, i + 1);
      if follows.Some? {
        var j := NextLiteralIndex(tokens, i + 1);
        assert ValidToken(tokens[j]);
        var whole := pieces[i] + follows.value;
        assert OccursAt(whole, follows.value, |pieces[i]|);
        if i == k {
          OtherStart(whole, follows.value);
        }
      }
    }
  }

  lemma OtherStart(hay: string, needle: string)
    requires hay != "" && needle != "" && hay[0] != needle[0]
    ensures !OccursAt(hay, needle, 0)
  {
    assert |needle| <= |hay| ==> hay[0..0 + |needle|][0] == hay[0];
  }

  /** A repeat with a free occurrence loses text: the map forgets one of two different pieces. */
  lemma RepeatLosesText(tokens: seq<Token>, i: nat, j: nat)
    requires WellFormed(tokens) && i < j < |tokens| && tokens[i].Var? && tokens[i] == tokens[j]
    requires !AfterVar(tokens, i) || !AfterVar(tokens, j)
    ensures !RebuildsByName(tokens)
  {
    var k, other := if !AfterVar(tokens, i) then i else j, if !AfterVar(tokens, i) then j else i;
    var c := OneCharTight(tokens, k);
    var pieces := OnlyAt(tokens, k, [c]);
    MatchIffTight(tokens, Join(pieces), pieces);
    OneCharRepeated(tokens, k, other, c);
  }

  /** A name that occurs elsewhere too comes back with both texts equal: one character too many or too few. */
  lemma OneCharRepeated(tokens: seq<Token>, k: nat, other: nat, c: char)
    requires k < |tokens| && other < |tokens| && k != other && tokens[k].Var? && tokens[k] == tokens[other]
    ensures var pieces := OnlyAt(tokens, k, [c]);
            Join(ByName(tokens, Args(tokens, pieces))) != Join(pieces)
  {
    var pieces := OnlyAt(tokens, k, [c]);
    var again := ByName(tokens, Args(tokens, pieces));
    var last := ArgsHoldLast(tokens, pieces, |tokens|, k);
    forall m | 0 <= m < |tokens| && tokens[m] != tokens[k] ensures again[m] == pieces[m] {
      OthersComeBack(tokens, pieces, k, m);
    }
    if last == k {
      JoinLength(pieces, again, other);
    } else {
      JoinLength(again, pieces, k);
    }
  }

  lemma OthersComeBack(tokens: seq<Token>, pieces: seq<string>, k: nat, m: nat)
    requires k < |tokens| && m < |tokens| && tokens[k].Var? && tokens[m] != tokens[k]
    requires Instance(tokens, pieces)
    requires forall i :: 0 <= i < |tokens| && tokens[i].Var? && i != k ==> pieces[i] == ""
    ensures ByName(tokens, Args(tokens, pieces))[m] == pieces[m]
  {
    if tokens[m].Var? {
      var last := ArgsHoldLast(tokens, pieces, |tokens|, m);
    }
  }

  /** The exact condition for the argument map to spell the URI again. */
  lemma RebuildsExactly(tokens: seq<Token>)
    requires WellFormed(tokens)
    ensures RebuildsByName(tokens) <==> RepeatsOnlyAfterVars(tokens)
  {
    if RepeatsOnlyAfterVars(tokens) {
      forall uri, pieces | |pieces| == |tokens| && Match(tokens, uri) == Some(pieces)
        ensures Join(ByName(tokens, Args(tokens, pieces))) == uri
      {
        ByNameRecovers(tokens, uri, pieces);
        MatchIffTight(tokens, uri, pieces);
      }
    } else {
      var i, j :| 0 <= i < j < |tokens| && tokens[i].Var? && tokens[i] == tokens[j] &&
                  !(AfterVar(tokens, i) && AfterVar(tokens, j));
      RepeatLosesText(tokens, i, j);
    }
  }
}
