/**
 The canonical form behind the validator cache's keys (src/engine/schema_validator_cache.rs): every
 object's members in key order, at every depth. Two schemas share a key exactly when they differ in
 nothing but the order of object members.
 */
module JsonCanonical {
  import opened Json

  // ---------------------------------------------------------------- the order of keys

  /** `str::cmp`: UTF-8 bytes compare as code points do. */
  predicate Before(a: string, b: string) {
    b != "" && (a == "" || a[0] < b[0] || (a[0] == b[0] && Before(a[1..], b[1..])))
  }

  lemma {:induction false} KeysCompare(a: string, b: string)
    ensures Before(a, b) || Before(b, a) || a == b
    ensures !(Before(a, b) && Before(b, a))
    ensures a == b ==> !Before(a, b)
  {
    if a != "" && b != "" {
      KeysCompare(a[1..], b[1..]);
      assert a == [a[0]] + a[1..] && b == [b[0]] + b[1..];
    }
  }

  lemma {:induction false} BeforeTransitive(a: string, b: string, c: string)
    requires Before(a, b) && Before(b, c)
    ensures Before(a, c)
  {
    if a != "" && a[0] == b[0] == c[0] {
      BeforeTransitive(a[1..], b[1..], c[1..]);
    }
  }

  // ---------------------------------------------------------------- canonicalizing

  function Insert(m: Member, sorted: seq<Member>): seq<Member> {
    if sorted == [] || !Before(sorted[0].key, m.key) then [m] + sorted
    else [sorted[0]] + Insert(m, sorted[1..])
  }

  function SortByKey(members: seq<Member>): seq<Member> {
    if members == [] then [] else Insert(members[0], SortByKey(members[1..]))
  }

  /**
   Sorting looks at keys alone, so canonicalizing the values first, as here, or after, as in the
   source, gives the same object (`SortCommutes`).
   */
  function Canonicalize(v: Json): Json
    decreases v, 0
  {
    match v
    case Array(items) => Array(CanonicalItems(items))
    case Object(members) => Object(SortByKey(CanonicalMembers(members)))
    case _ => v
  }

  function CanonicalItems(items: seq<Json>): (r: seq<Json>)
    ensures |r| == |items| && forall i :: 0 <= i < |r| ==> r[i] == Canonicalize(items[i])
    decreases items
  {
    if items == [] then [] else [Canonicalize(items[0])] + CanonicalItems(items[1..])
  }

  function CanonicalMembers(members: seq<Member>): (r: seq<Member>)
    ensures |r| == |members|
    ensures forall i :: 0 <= i < |r| ==> r[i] == Member(members[i].key, Canonicalize(members[i].value))
    decreases members
  {
    if members == [] then []
    else [Member(members[0].key, Canonicalize(members[0].value))] + CanonicalMembers(members[1..])
  }

  /** The cache key: `canonical_schema_bytes`. */
  function CanonicalText(v: Json): string {
    ToText(Canonicalize(v))
  }

  // ---------------------------------------------------------------- sorting

  predicate SortedByKey(members: seq<Member>) {
    forall i, j :: 0 <= i < j < |members| ==> Before(members[i].key, members[j].key)
  }

  predicate KeyNotIn(key: string, members: seq<Member>) {
    forall i :: 0 <= i < |members| ==> members[i].key != key
  }

  lemma {:induction false} InsertKeepsMembers(m: Member, sorted: seq<Member>)
    ensures multiset(Insert(m, sorted)) == multiset(sorted) + multiset{m}
  {
    if sorted != [] {
      assert sorted == [sorted[0]] + sorted[1..];
      if Before(sorted[0].key, m.key) {
        InsertKeepsMembers(m, sorted[1..]);
      }
    }
  }

  lemma {:induction false} SortKeepsMembers(members: seq<Member>)
    ensures multiset(SortByKey(members)) == multiset(members)
    ensures |SortByKey(members)| == |members|
  {
    if members != [] {
      SortKeepsMembers(members[1..]);
      InsertKeepsMembers(members[0], SortByKey(members[1..]));
      assert members == [members[0]] + members[1..];
    }
    assert |multiset(SortByKey(members))| == |multiset(members)|;
  }

  lemma SortedFront(m: Member, sorted: seq<Member>)
    requires SortedByKey(sorted)
    requires sorted != [] ==> Before(m.key, sorted[0].key)
    ensures SortedByKey([m] + sorted)
  {
    forall j | 0 <= j < |sorted| ensures Before(m.key, sorted[j].key) {
      if j > 0 {
        BeforeTransitive(m.key, sorted[0].key, sorted[j].key);
      }
    }
  }

  lemma {:induction false} InsertSorts(m: Member, sorted: seq<Member>)
    requires SortedByKey(sorted) && KeyNotIn(m.key, sorted)
    ensures SortedByKey(Insert(m, sorted))
  {
    if sorted == [] || !Before(sorted[0].key, m.key) {
      if sorted != [] {
        KeysCompare(sorted[0].key, m.key);
      }
      SortedFront(m, sorted);
    } else {
      InsertSorts(m, sorted[1..]);
      var rest := Insert(m, sorted[1..]);
      InsertKeepsMembers(m, sorted[1..]);
      assert rest[0] in multiset(sorted[1..]) + multiset{m};
      SortedFront(sorted[0], rest);
    }
  }

  lemma {:induction false} SortSorts(members: seq<Member>)
    requires DistinctKeys(members)
    ensures SortedByKey(SortByKey(members))
  {
    if members != [] {
      SortSorts(members[1..]);
      var rest := SortByKey(members[1..]);
      SortKeepsMembers(members[1..]);
      forall i | 0 <= i < |rest| ensures rest[i].key != members[0].key {
        assert rest[i] in multiset(members[1..]);
      }
      InsertSorts(members[0], rest);
    }
  }

  predicate AllIn(s: seq<Member>, t: seq<Member>) {
    forall i :: 0 <= i < |s| ==> s[i] in t
  }

  lemma FoundLater(m: Member, t: seq<Member>, j: nat)
    requires SortedByKey(t) && j < |t| && m in t && Before(t[j].key, m.key)
    ensures m in t[j + 1..]
  {
    var k :| 0 <= k < |t| && t[k] == m;
    KeysCompare(t[j].key, t[k].key);
    assert k > j;
    assert t[j + 1..][k - j - 1] == m;
  }

  lemma TailAllIn(s: seq<Member>, t: seq<Member>, j: nat)
    requires SortedByKey(s) && SortedByKey(t) && AllIn(s, t)
    requires s != [] && j < |t| && t[j] == s[0]
    ensures AllIn(s[1..], t[j + 1..])
  {
    forall i | 0 <= i < |s[1..]| ensures s[1..][i] in t[j + 1..] {
      FoundLater(s[i + 1], t, j);
    }
  }

  /** Members in key order are determined by which they are. */
  lemma {:induction false} SortedOnlyOneWay(s: seq<Member>, t: seq<Member>)
    requires SortedByKey(s) && SortedByKey(t) && AllIn(s, t)
    ensures |s| <= |t|
    ensures |s| == |t| ==> s == t
    decreases |s|
  {
    if s != [] {
      assert s[0] in t;
      var j :| 0 <= j < |t| && t[j] == s[0];
      TailAllIn(s, t, j);
      SortedOnlyOneWay(s[1..], t[j + 1..]);
      if |s| == |t| {
        assert s == [s[0]] + s[1..] && t == [t[0]] + t[1..];
      }
    }
  }

  // ---------------------------------------------------------------- what the key means

  ghost predicate HasCounterpart(m: Member, members: seq<Member>)
    decreases m, 0
  {
    exists j :: 0 <= j < |members| && members[j].key == m.key && Same(m.value, members[j].value)
  }

  /** Equal but for the order of object members, at every depth. */
  ghost predicate Same(v: Json, w: Json)
    decreases v
  {
    match v
    case Array(items) =>
      w.Array? && |items| == |w.items| && forall i :: 0 <= i < |items| ==> Same(items[i], w.items[i])
    case Object(members) =>
      w.Object? && |members| == |w.members|
      && forall i :: 0 <= i < |members| ==> HasCounterpart(members[i], w.members)
    case _ => v == w
  }

  lemma CanonicalDistinct(members: seq<Member>)
    requires DistinctKeys(members)
    ensures DistinctKeys(CanonicalMembers(members))
  {
  }

  lemma SortedDistinct(members: seq<Member>)
    requires SortedByKey(members)
    ensures DistinctKeys(members)
  {
    forall i, j | 0 <= i < j < |members| ensures members[i].key != members[j].key {
      KeysCompare(members[i].key, members[j].key);
    }
  }

  /** A canonical value is a proper value, in which every object is in key order. */
  lemma {:induction false} CanonicalIsValid(v: Json)
    requires Valid(v)
    ensures Valid(Canonicalize(v))
    ensures v.Object? ==> SortedByKey(Canonicalize(v).members)
    decreases v
  {
    match v {
      case Array(items) =>
        forall i | 0 <= i < |items| ensures Valid(Canonicalize(items[i])) {
          CanonicalIsValid(items[i]);
        }
      case Object(members) =>
        var inner := CanonicalMembers(members);
        CanonicalDistinct(members);
        SortSorts(inner);
        SortKeepsMembers(inner);
        var sorted := SortByKey(inner);
        SortedDistinct(sorted);
        forall i | 0 <= i < |sorted| ensures Valid(sorted[i].value) {
          assert sorted[i] in multiset(inner);
          var k :| 0 <= k < |inner| && inner[k] == sorted[i];
          CanonicalIsValid(members[k].value);
        }
      case _ =>
    }
  }

  lemma SortedHas(members: seq<Member>, m: Member)
    ensures m in SortByKey(members) <==> m in members
  {
    SortKeepsMembers(members);
    assert m in SortByKey(members) <==> m in multiset(SortByKey(members));
    assert m in members <==> m in multiset(members);
  }

  /** Canonical forms agree exactly when the values are the same up to member order. */
  lemma {:induction false} CanonicalIffSame(v: Json, w: Json)
    requires Valid(v) && Valid(w)
    ensures Canonicalize(v) == Canonicalize(w) <==> Same(v, w)
    decreases v, 2
  {
    match v {
      case Array(items) =>
        if w.Array? {
          ArraysIffSame(items, w.items);
        }
      case Object(members) =>
        if w.Object? {
          ObjectsIffSame(members, w.members);
        }
      case _ =>
    }
  }

  lemma {:induction false} ArraysIffSame(a: seq<Json>, b: seq<Json>)
    requires Valid(Array(a)) && Valid(Array(b))
    ensures Canonicalize(Array(a)) == Canonicalize(Array(b)) <==> Same(Array(a), Array(b))
    decreases a, 1
  {
    if |a| == |b| {
      forall i | 0 <= i < |a| ensures Canonicalize(a[i]) == Canonicalize(b[i]) <==> Same(a[i], b[i]) {
        CanonicalIffSame(a[i], b[i]);
      }
      ItemsIffSame(a, b);
    }
  }

  lemma {:induction false} ObjectsIffSame(a: seq<Member>, b: seq<Member>)
    requires Valid(Object(a)) && Valid(Object(b))
    ensures Canonicalize(Object(a)) == Canonicalize(Object(b)) <==> Same(Object(a), Object(b))
    decreases a, 1
  {
    SortKeepsMembers(CanonicalMembers(a));
    SortKeepsMembers(CanonicalMembers(b));
    if |a| == |b| {
      AllInIffCounterparts(a, b);
      ObjectsIffAllIn(a, b);
    }
  }

  ghost predicate AllHaveCounterparts(a: seq<Member>, b: seq<Member>) {
    forall i :: 0 <= i < |a| ==> HasCounterpart(a[i], b)
  }

  lemma {:induction false} AllInIffCounterparts(a: seq<Member>, b: seq<Member>)
    requires Valid(Object(a)) && Valid(Object(b))
    ensures AllIn(CanonicalMembers(a), CanonicalMembers(b)) <==> AllHaveCounterparts(a, b)
    decreases a, 0
  {
    forall i | 0 <= i < |a|
      ensures CanonicalMembers(a)[i] in CanonicalMembers(b) <==> HasCounterpart(a[i], b)
    {
      MemberIffCounterpart(a[i], b);
    }
  }

  lemma ItemsIffSame(a: seq<Json>, b: seq<Json>)
    requires |a| == |b|
    requires forall i :: 0 <= i < |a| ==> (Canonicalize(a[i]) == Canonicalize(b[i]) <==> Same(a[i], b[i]))
    ensures CanonicalItems(a) == CanonicalItems(b) <==> forall i :: 0 <= i < |a| ==> Same(a[i], b[i])
  {
    if CanonicalItems(a) == CanonicalItems(b) {
      forall i | 0 <= i < |a| ensures Same(a[i], b[i]) {
        assert CanonicalItems(a)[i] == CanonicalItems(b)[i];
      }
    }
  }

  lemma {:induction false} MemberIffCounterpart(m: Member, members: seq<Member>)
    requires Valid(m.value) && Valid(Object(members))
    ensures Member(m.key, Canonicalize(m.value)) in CanonicalMembers(members) <==> HasCounterpart(m, members)
    decreases m, 0
  {
    forall j | 0 <= j < |members|
      ensures Canonicalize(m.value) == Canonicalize(members[j].value) <==> Same(m.value, members[j].value)
    {
      CanonicalIffSame(m.value, members[j].value);
    }
    var inner := CanonicalMembers(members);
    if HasCounterpart(m, members) {
      var j :| 0 <= j < |members| && members[j].key == m.key && Same(m.value, members[j].value);
      assert inner[j] == Member(m.key, Canonicalize(m.value));
    }
  }

  lemma {:induction false} ObjectsIffAllIn(a: seq<Member>, b: seq<Member>)
    requires DistinctKeys(a) && DistinctKeys(b) && |a| == |b|
    ensures SortByKey(CanonicalMembers(a)) == SortByKey(CanonicalMembers(b))
       <==> AllIn(CanonicalMembers(a), CanonicalMembers(b))
  {
    var x, y := CanonicalMembers(a), CanonicalMembers(b);
    var s, t := SortByKey(x), SortByKey(y);
    CanonicalDistinct(a);
    CanonicalDistinct(b);
    SortSorts(x);
    SortSorts(y);
    SortKeepsMembers(x);
    SortKeepsMembers(y);
    if s == t {
      forall i | 0 <= i < |x| ensures x[i] in y {
        SortedHas(x, x[i]);
        SortedHas(y, x[i]);
      }
    }
    if AllIn(x, y) {
      forall i | 0 <= i < |s| ensures s[i] in t {
        SortedHas(x, s[i]);
        SortedHas(y, s[i]);
      }
      SortedOnlyOneWay(s, t);
    }
  }

  lemma InsertCommutes(m: Member, sorted: seq<Member>)
    ensures CanonicalMembers(Insert(m, sorted)) == Insert(CanonicalMembers([m])[0], CanonicalMembers(sorted))
  {
    if sorted == [] || !Before(sorted[0].key, m.key) {
      assert CanonicalMembers([m] + sorted) == CanonicalMembers([m]) + CanonicalMembers(sorted);
    } else {
      InsertCommutes(m, sorted[1..]);
      var rest := Insert(m, sorted[1..]);
      assert ([sorted[0]] + rest)[1..] == rest;
    }
  }

  /** Sorting first and canonicalizing the values of the sorted members is the same. */
  lemma {:induction false} SortCommutes(members: seq<Member>)
    ensures CanonicalMembers(SortByKey(members)) == SortByKey(CanonicalMembers(members))
  {
    if members != [] {
      SortCommutes(members[1..]);
      InsertCommutes(members[0], SortByKey(members[1..]));
    }
  }

  /** Cache keys are equal exactly when the schemas are the same up to member order. */
  lemma KeysAgreeIffSame(v: Json, w: Json)
    requires Valid(v) && Valid(w)
    ensures CanonicalText(v) == CanonicalText(w) <==> Same(v, w)
  {
    CanonicalIsValid(v);
    CanonicalIsValid(w);
    TextInjective(Canonicalize(v), Canonicalize(w));
    CanonicalIffSame(v, w);
  }

  /** Canonicalizing changes nothing but member order. */
  lemma {:induction false} CanonicalIsSame(v: Json)
    requires Valid(v)
    ensures Same(v, Canonicalize(v))
    decreases v
  {
    match v {
      case Array(items) =>
        forall i | 0 <= i < |items| ensures Same(items[i], Canonicalize(items[i])) {
          CanonicalIsSame(items[i]);
        }
      case Object(members) =>
        var inner := CanonicalMembers(members);
        var sorted := SortByKey(inner);
        SortKeepsMembers(inner);
        forall i | 0 <= i < |members| ensures HasCounterpart(members[i], sorted) {
          SortedHas(inner, inner[i]);
          CanonicalIsSame(members[i].value);
          var j :| 0 <= j < |sorted| && sorted[j] == inner[i];
          assert sorted[j].key == members[i].key && Same(members[i].value, sorted[j].value);
        }
      case _ =>
    }
  }

  /** Being the same is an equivalence. */
  lemma SameIsEquivalence(u: Json, v: Json, w: Json)
    requires Valid(u) && Valid(v) && Valid(w)
    ensures Same(u, u)
    ensures Same(u, v) ==> Same(v, u)
    ensures Same(u, v) && Same(v, w) ==> Same(u, w)
  {
    CanonicalIffSame(u, u);
    CanonicalIffSame(u, v);
    CanonicalIffSame(v, u);
    CanonicalIffSame(v, w);
    CanonicalIffSame(u, w);
  }

  /** Canonicalizing once is enough. */
  lemma CanonicalOnce(v: Json)
    requires Valid(v)
    ensures Canonicalize(Canonicalize(v)) == Canonicalize(v)
  {
    CanonicalIsValid(v);
    CanonicalIsSame(v);
    CanonicalIffSame(v, Canonicalize(v));
  }
}
