/** Trimming, splitting and letter case, as the Rust standard library has them. */
module Strings {
  import opened Text

  /** `char::is_whitespace`: the Unicode White_Space property. */
  predicate White(c: char) {
    var n := c as int;
    9 <= n <= 13 || 0x2000 <= n <= 0x200A || n in {0x20, 0x85, 0xA0, 0x1680, 0x2028, 0x2029, 0x202F, 0x205F, 0x3000}
  }

  predicate AllWhite(s: string) {
    forall c <- s :: White(c)
  }

  function TrimStart(s: string): (r: string)
    ensures |r| <= |s| && (r != "" ==> !White(r[0]))
    ensures s != "" && !White(s[0]) ==> r == s
  {
    if s != "" && White(s[0]) then TrimStart(s[1..]) else s
  }

  function TrimEnd(s: string): (r: string)
    ensures |r| <= |s| && r == s[..|r|] && (r != "" ==> !White(r[|r| - 1]))
    ensures s != "" && !White(s[|s| - 1]) ==> r == s
  {
    if s != "" && White(s[|s| - 1]) then TrimEnd(s[..|s| - 1]) else s
  }

  function Trim(s: string): (r: string)
    ensures |r| <= |s| && Trimmed(r)
    ensures Trimmed(s) ==> r == s
  {
    TrimEnd(TrimStart(s))
  }

  lemma {:induction false} StartTrims(pad: string, s: string)
    requires AllWhite(pad) && (s != "" ==> !White(s[0]))
    ensures TrimStart(pad + s) == s
    decreases |pad|
  {
    if pad == "" {
      assert pad + s == s;
    } else {
      assert White(pad[0]);
      assert (pad + s)[1..] == pad[1..] + s;
      StartTrims(pad[1..], s);
    }
  }

  lemma {:induction false} EndTrims(s: string, pad: string)
    requires AllWhite(pad) && (s != "" ==> !White(s[|s| - 1]))
    ensures TrimEnd(s + pad) == s
    decreases |pad|
  {
    if pad == "" {
      assert s + pad == s;
    } else {
      assert White(pad[|pad| - 1]);
      assert (s + pad)[..|s + pad| - 1] == s + pad[..|pad| - 1];
      EndTrims(s, pad[..|pad| - 1]);
    }
  }

  /** Trimming takes off the white space around a text, and that alone. */
  lemma TrimsPadding(left: string, s: string, right: string)
    requires AllWhite(left) && AllWhite(right) && Trimmed(s)
    ensures Trim(left + s + right) == s
  {
    if s == "" {
      assert left + s + right == left + right + "";
      StartTrims(left + right, "");
    } else {
      assert left + s + right == left + (s + right);
      StartTrims(left, s + right);
      EndTrims(s, right);
    }
  }

  lemma {:induction false} StartDrops(s: string)
    ensures var n := |s| - |TrimStart(s)|; AllWhite(s[..n]) && TrimStart(s) == s[n..]
    decreases |s|
  {
    if s != "" && White(s[0]) {
      StartDrops(s[1..]);
      var n := |s| - |TrimStart(s)|;
      assert s[..n] == [s[0]] + s[1..][..n - 1] && s[n..] == s[1..][n - 1..];
    }
  }

  predicate Trimmed(s: string) {
    s != "" ==> !White(s[0]) && !White(s[|s| - 1])
  }

  predicate EndsWith(s: string, c: char) {
    s != "" && s[|s| - 1] == c
  }

  /** `str::trim_end_matches` with a character. */
  function TrimEndMatches(s: string, c: char): (r: string)
    ensures |r| <= |s| && r == s[..|r|] && !EndsWith(r, c)
    ensures !EndsWith(s, c) ==> r == s
    ensures forall k :: |r| <= k < |s| ==> s[k] == c
  {
    if EndsWith(s, c) then TrimEndMatches(s[..|s| - 1], c) else s
  }

  /** `str::split`. */
  function Split(s: string, c: char): (parts: seq<string>)
    ensures parts != []
    ensures |parts[0]| <= |s| && forall part <- parts :: c !in part
  {
    if s == "" then [""]
    else
      var rest := Split(s[1..], c);
      if s[0] == c then [""] + rest else [[s[0]] + rest[0]] + rest[1..]
  }

  lemma {:induction false} SplitWhole(s: string, c: char)
    requires c !in s
    ensures Split(s, c) == [s]
  {
    if s != "" {
      SplitWhole(s[1..], c);
      assert [s[0]] + s[1..] == s;
    }
  }

  lemma {:induction false} SplitAt(part: string, c: char, rest: string)
    requires c !in part
    ensures Split(part + [c] + rest, c) == [part] + Split(rest, c)
  {
    var s := part + [c] + rest;
    if part == "" {
      assert s[1..] == rest;
    } else {
      assert s[1..] == part[1..] + [c] + rest;
      SplitAt(part[1..], c, rest);
      assert [part[0]] + part[1..] == part;
    }
  }

  /** The parts one after the other, with `c` between them. */
  function Joined(parts: seq<string>, c: char): string {
    if parts == [] then ""
    else if |parts| == 1 then parts[0]
    else parts[0] + [c] + Joined(parts[1..], c)
  }

  predicate NoneHas(parts: seq<string>, c: char) {
    forall part <- parts :: c !in part
  }

  /** Splitting undoes joining. */
  lemma {:induction false} SplitJoined(parts: seq<string>, c: char)
    requires parts != []
    ensures Split(Joined(parts, c), c) == parts <==> NoneHas(parts, c)
  {
    if NoneHas(parts, c) {
      assert c !in parts[0];
      if |parts| == 1 {
        SplitWhole(parts[0], c);
      } else {
        assert forall part <- parts[1..] :: part in parts;
        SplitJoined(parts[1..], c);
        SplitAt(parts[0], c, Joined(parts[1..], c));
      }
    }
  }

  lemma JoinedCons(first: string, rest: seq<string>, c: char)
    ensures Joined([first] + rest, c) == if rest == [] then first else first + [c] + Joined(rest, c)
  {
    assert ([first] + rest)[1..] == rest;
  }

  lemma JoinedGrows(x: char, parts: seq<string>, c: char)
    requires parts != []
    ensures Joined([[x] + parts[0]] + parts[1..], c) == [x] + Joined(parts, c)
  {
    var first, rest := parts[0], parts[1..];
    JoinedCons([x] + first, rest, c);
    if rest != [] {
      Associative([x], first, [c] + Joined(rest, c));
      Associative([x] + first, [c], Joined(rest, c));
      Associative(first, [c], Joined(rest, c));
    }
  }

  /** And joining undoes splitting. */
  lemma {:induction false} JoinSplit(s: string, c: char)
    ensures Joined(Split(s, c), c) == s
  {
    if s != "" {
      JoinSplit(s[1..], c);
      var rest := Split(s[1..], c);
      if s[0] == c {
        JoinedCons("", rest, c);
        Associative("", [c], s[1..]);
      } else {
        JoinedGrows(s[0], rest, c);
      }
      assert [s[0]] + s[1..] == s;
    }
  }

  /** `char::to_ascii_lowercase`. */
  function Lower(c: char): char {
    if 'A' <= c <= 'Z' then (c as int + 32) as char else c
  }
}
