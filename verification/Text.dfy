/** Text operations of the Rust standard library that several components rely on. */
module Text {
  import opened Wrappers

  lemma Associative(a: string, b: string, c: string)
    ensures a + (b + c) == a + b + c
  {
  }

  /** `needle` stands in `hay` at position `at`. */
  predicate OccursAt(hay: string, needle: string, at: nat) {
    at + |needle| <= |hay| && hay[at..at + |needle|] == needle
  }

  /** `needle` occurs in `hay` at `at` and nowhere before. */
  ghost predicate FirstAt(hay: string, needle: string, at: nat) {
    OccursAt(hay, needle, at) && forall k: nat :: k < at ==> !OccursAt(hay, needle, k)
  }

  /** `str::find` with a string pattern. */
  function Find(hay: string, needle: string): (r: Option<nat>)
    ensures r.Some? ==> FirstAt(hay, needle, r.value)
    ensures r.None? ==> forall k: nat :: !OccursAt(hay, needle, k)
  {
    FindFrom(hay, needle, 0)
  }

  function FindFrom(hay: string, needle: string, from: nat): (r: Option<nat>)
    requires forall k: nat :: k < from ==> !OccursAt(hay, needle, k)
    ensures r.Some? ==> FirstAt(hay, needle, r.value)
    ensures r.None? ==> forall k: nat :: !OccursAt(hay, needle, k)
    decreases |hay| - from
  {
    if from > |hay| then None
    else if OccursAt(hay, needle, from) then Some(from)
    else if from == |hay| then None
    else FindFrom(hay, needle, from + 1)
  }
}
