/**
 What rendering does to whole values (src/engine/templating.rs): which children survive and where,
 which error comes out, and what is left untouched.
 */
module TemplatedValues {
  import opened Wrappers
  import opened Text
  import opened Strings
  import opened Json
  import opened TemplateExpression
  import opened Templating

  // ---------------------------------------------------------------- children kept, in order

  /** The positions, from one on, of the children that are not left out. */
  function Kept(renderings: seq<Rendering>, from: nat): (kept: seq<nat>)
    requires from <= |renderings|
    ensures forall i :: i in kept <==> from <= i < |renderings| && renderings[i] != Ok(Omit)
    ensures forall k :: 0 <= k < |kept| ==> from <= kept[k] < |renderings|
    ensures forall j, k :: 0 <= j < k < |kept| ==> kept[j] < kept[k]
    decreases |renderings| - from
  {
    if from == |renderings| then []
    else if renderings[from] == Ok(Omit) then Kept(renderings, from + 1)
    else [from] + Kept(renderings, from + 1)
  }

  function ItemRenderings(items: seq<Json>, ctx: Context): (r: seq<Rendering>)
    ensures |r| == |items| && forall i :: 0 <= i < |r| ==> r[i] == RenderJson(items[i], ctx)
  {
    if items == [] then [] else [RenderJson(items[0], ctx)] + ItemRenderings(items[1..], ctx)
  }

  function Values(members: seq<Member>): (r: seq<Json>)
    ensures |r| == |members| && forall i :: 0 <= i < |r| ==> r[i] == members[i].value
  {
    if members == [] then [] else [members[0].value] + Values(members[1..])
  }

  /** Exactly the values that were rendered and not left out, where they stood. */
  predicate Holds(out: seq<Json>, renderings: seq<Rendering>, kept: seq<nat>) {
    |out| == |kept| && forall k :: 0 <= k < |kept| ==> IsValueAt(out[k], renderings, kept[k])
  }

  predicate IsValueAt(v: Json, renderings: seq<Rendering>, i: nat) {
    i < |renderings| && renderings[i] == Ok(Value(v))
  }

  /** Kept members keep their keys. */
  predicate KeysKept(out: seq<Member>, members: seq<Member>, kept: seq<nat>) {
    |out| == |kept| && forall k :: 0 <= k < |kept| ==> HasKeyOf(out[k], members, kept[k])
  }

  predicate HasKeyOf(m: Member, members: seq<Member>, i: nat) {
    i < |members| && m.key == members[i].key
  }

  lemma HoldsFrom(renderings: seq<Rendering>, from: nat, out: seq<Json>)
    requires from < |renderings| && renderings[from].Ok?
    requires Holds(out, renderings, Kept(renderings, from + 1))
    ensures Holds(ItemOf(renderings[from].value) + out, renderings, Kept(renderings, from))
  {
    var kept := Kept(renderings, from + 1);
    match renderings[from].value {
      case Omit => assert [] + out == out;
      case Value(value) => HoldsCons(value, out, renderings, from, kept);
    }
  }

  lemma HoldsCons(value: Json, out: seq<Json>, renderings: seq<Rendering>, from: nat, kept: seq<nat>)
    requires IsValueAt(value, renderings, from) && Holds(out, renderings, kept)
    ensures Holds([value] + out, renderings, [from] + kept)
  {
    var all, indices := [value] + out, [from] + kept;
    forall k | 0 <= k < |indices| ensures IsValueAt(all[k], renderings, indices[k]) {
      if k > 0 {
        assert all[k] == out[k - 1] && indices[k] == kept[k - 1];
      }
    }
  }

  lemma {:induction false} RenderItemsExactly(items: seq<Json>, from: nat, ctx: Context)
    requires from <= |items|
    ensures
      var renderings, r := ItemRenderings(items, ctx), RenderItems(items[from..], ctx);
      if r.Ok? then AllOk(renderings, from) && Holds(r.value, renderings, Kept(renderings, from))
      else FirstError(renderings, from, r.error)
    decreases |items| - from
  {
    if from < |items| {
      RenderItemsExactly(items, from + 1, ctx);
      var renderings, r := ItemRenderings(items, ctx), RenderItems(items[from..], ctx);
      assert items[from..][0] == items[from] && items[from..][1..] == items[from + 1..];
      if r.Ok? {
        HoldsFrom(renderings, from, RenderItems(items[from + 1..], ctx).value);
      } else {
      }
    }
  }

  /**
   An array renders to exactly the children that are not left out, rendered, in their order; the first
   child that fails fails the array with its error.
   */
  lemma {:induction false} ArrayKeepsChildren(items: seq<Json>, ctx: Context)
    ensures
      var renderings := ItemRenderings(items, ctx);
      match RenderJson(Array(items), ctx)
      case Ok(Value(Array(out))) => AllOk(renderings, 0) && Holds(out, renderings, Kept(renderings, 0))
      case Ok(_) => false
      case Err(error) => FirstError(renderings, 0, error)
  {
    RenderItemsExactly(items, 0, ctx);
    assert items[0..] == items;
  }

  lemma ValuesOfFront(key: string, r: Rendered, rest: seq<Member>)
    ensures Values(MemberOf(key, r) + rest) == ItemOf(r) + Values(rest)
  {
    match r {
      case Omit =>
        assert MemberOf(key, r) + rest == rest;
        assert ItemOf(r) + Values(rest) == Values(rest);
      case Value(value) =>
        assert (MemberOf(key, r) + rest)[1..] == rest;
    }
  }

  /** The values of an object render as the items of an array do. */
  lemma {:induction false} MembersRenderAsItems(members: seq<Member>, ctx: Context)
    ensures
      match RenderMembers(members, ctx)
      case Ok(out) => RenderItems(Values(members), ctx) == Ok(Values(out))
      case Err(error) => RenderItems(Values(members), ctx) == Err(error)
    decreases |members|
  {
    if members != [] {
      MembersRenderAsItems(members[1..], ctx);
      assert Values(members)[1..] == Values(members[1..]);
      var first, rest := RenderJson(members[0].value, ctx), RenderMembers(members[1..], ctx);
      if first.Ok? && rest.Ok? {
        ValuesOfFront(members[0].key, first.value, rest.value);
      }
    }
  }

  lemma KeysKeptFrom(renderings: seq<Rendering>, members: seq<Member>, from: nat, out: seq<Member>)
    requires |members| == |renderings| && from < |renderings| && renderings[from].Ok?
    requires KeysKept(out, members, Kept(renderings, from + 1))
    ensures KeysKept(MemberOf(members[from].key, renderings[from].value) + out, members, Kept(renderings, from))
  {
    var kept := Kept(renderings, from + 1);
    match renderings[from].value {
      case Omit => assert [] + out == out;
      case Value(value) => KeysKeptCons(Member(members[from].key, value), out, members, from, kept);
    }
  }

  lemma KeysKeptCons(m: Member, out: seq<Member>, members: seq<Member>, from: nat, kept: seq<nat>)
    requires HasKeyOf(m, members, from) && KeysKept(out, members, kept)
    ensures KeysKept([m] + out, members, [from] + kept)
  {
    var all, indices := [m] + out, [from] + kept;
    forall k | 0 <= k < |indices| ensures HasKeyOf(all[k], members, indices[k]) {
      if k > 0 {
        assert all[k] == out[k - 1] && indices[k] == kept[k - 1];
      }
    }
  }

  lemma {:induction false} MembersKeepKeys(members: seq<Member>, from: nat, ctx: Context)
    requires from <= |members| && RenderMembers(members[from..], ctx).Ok?
    ensures
      var renderings := ItemRenderings(Values(members), ctx);
      KeysKept(RenderMembers(members[from..], ctx).value, members, Kept(renderings, from))
    decreases |members| - from
  {
    if from < |members| {
      assert members[from..][0] == members[from] && members[from..][1..] == members[from + 1..];
      MembersKeepKeys(members, from + 1, ctx);
      KeysKeptFrom(
        ItemRenderings(Values(members), ctx), members, from, RenderMembers(members[from + 1..], ctx).value);
    }
  }

  /** An object does the same with its members, each under its own key. */
  lemma {:induction false} ObjectKeepsMembers(members: seq<Member>, ctx: Context)
    ensures
      var renderings := ItemRenderings(Values(members), ctx);
      match RenderJson(Object(members), ctx)
      case Ok(Value(Object(out))) =>
        && AllOk(renderings, 0)
        && Holds(Values(out), renderings, Kept(renderings, 0))
        && KeysKept(out, members, Kept(renderings, 0))
      case Ok(_) => false
      case Err(error) => FirstError(renderings, 0, error)
  {
    ObjectItemsExactly(members, ctx);
    var rendered := RenderMembers(members, ctx);
    assert RenderJson(Object(members), ctx)
        == match rendered case Ok(out) => Ok(Value(Object(out))) case Err(error) => Err(error);
    if rendered.Ok? {
      assert members[0..] == members;
      MembersKeepKeys(members, 0, ctx);
    }
  }

  lemma {:induction false} ObjectItemsExactly(members: seq<Member>, ctx: Context)
    ensures
      var renderings, r := ItemRenderings(Values(members), ctx), RenderMembers(members, ctx);
      if r.Ok? then AllOk(renderings, 0) && Holds(Values(r.value), renderings, Kept(renderings, 0))
      else FirstError(renderings, 0, r.error)
  {
    MembersRenderAsItems(members, ctx);
    RenderItemsExactly(Values(members), 0, ctx);
    assert Values(members)[0..] == Values(members);
  }

  /** Rendering never gives an object the same key twice. */
  lemma RenderedKeysDistinct(members: seq<Member>, ctx: Context)
    requires DistinctKeys(members) && RenderMembers(members, ctx).Ok?
    ensures DistinctKeys(RenderMembers(members, ctx).value)
  {
    assert members[0..] == members;
    MembersKeepKeys(members, 0, ctx);
    var kept := Kept(ItemRenderings(Values(members), ctx), 0);
    var out := RenderMembers(members, ctx).value;
    forall i, j | 0 <= i < j < |out| ensures out[i].key != out[j].key {
      assert HasKeyOf(out[i], members, kept[i]) && HasKeyOf(out[j], members, kept[j]);
      assert kept[i] < kept[j];
    }
  }

  // ---------------------------------------------------------------- nothing to substitute

  /** No string in the value, at any depth, holds a `${`; keys may, for they are not rendered. */
  ghost predicate Inert(v: Json) {
    match v
    case Str(text) => Quiet(text)
    case Array(items) => forall i :: 0 <= i < |items| ==> Inert(items[i])
    case Object(members) => forall i :: 0 <= i < |members| ==> Inert(members[i].value)
    case _ => true
  }

  lemma TrimmedIsInside(s: string)
    ensures "${" <= Trim(s) ==> !Quiet(s)
  {
    var start, trimmed := TrimStart(s), Trim(s);
    StartDrops(s);
    if "${" <= trimmed {
      var at := |s| - |start|;
      assert trimmed[..2] == start[..2] == s[at..][..2];
      assert s[at..at + 2] == s[at..][..2];
      assert OccursAt(s, "${", at);
    }
  }

  lemma QuietIsNoPlaceholder(s: string)
    requires Quiet(s)
    ensures SinglePlaceholder(Trim(s)).None? && ReadPieces(s) == Last(s)
  {
    TrimmedIsInside(s);
    PiecesRoundTrip(Last(s));
  }

  lemma {:induction false} InertRendersToItself(v: Json, ctx: Context)
    requires Inert(v)
    ensures RenderJson(v, ctx) == Ok(Value(v))
    decreases v, 0
  {
    match v {
      case Str(text) => QuietIsNoPlaceholder(text);
      case Array(items) =>
        forall i | 0 <= i < |items| ensures RenderJson(items[i], ctx) == Ok(Value(items[i])) {
          InertRendersToItself(items[i], ctx);
        }
        SettledItems(items, ctx);
      case Object(members) =>
        forall i | 0 <= i < |members| ensures RenderJson(members[i].value, ctx) == Ok(Value(members[i].value)) {
          InertRendersToItself(members[i].value, ctx);
        }
        SettledMembers(members, ctx);
      case _ =>
    }
  }

  lemma {:induction false} SettledItems(items: seq<Json>, ctx: Context)
    requires forall i :: 0 <= i < |items| ==> RenderJson(items[i], ctx) == Ok(Value(items[i]))
    ensures RenderItems(items, ctx) == Ok(items)
    decreases |items|
  {
    if items != [] {
      SettledItems(items[1..], ctx);
      assert [items[0]] + items[1..] == items;
    }
  }

  lemma {:induction false} SettledMembers(members: seq<Member>, ctx: Context)
    requires forall i :: 0 <= i < |members| ==> RenderJson(members[i].value, ctx) == Ok(Value(members[i].value))
    ensures RenderMembers(members, ctx) == Ok(members)
    decreases |members|
  {
    if members != [] {
      SettledMembers(members[1..], ctx);
      assert [members[0]] + members[1..] == members;
    }
  }
}
