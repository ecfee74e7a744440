/**
 The compiled-validator cache (src/engine/schema_validator_cache.rs), with any number of
 `get_or_compile` calls interleaved between its two critical sections. `Compiler` stands for the JSON
 Schema compiler: it answers with an error text or succeeds.
 */
module SchemaCache {
  import opened Wrappers
  import opened Json
  import opened JsonCanonical

  /** What a JSON document in memory always is. */
  type Schema = v: Json | Valid(v) witness Null

  type Compiler = Schema -> Option<string>

  /** One compiled validator object: which compilation made it, and from what. */
  datatype Validator = Validator(serial: nat, schema: Schema)

  type Outcome = Result<Validator, string>

  datatype Phase =
    | Idle
    /** Before the lookup under the first lock. */
    | Looking(schema: Schema)
    /** The lookup missed; no lock is held. */
    | Compiling(schema: Schema)
    /** Before the insertion under the second lock. */
    | Inserting(schema: Schema, made: Validator)

  datatype Answer = Answer(schema: Schema, outcome: Outcome)

  datatype Cache = Cache(
    validators: map<string, Validator>,
    /** How many compilations there have been. */
    compiled: nat,
    calls: seq<Phase>,
    /** Every answer given so far. */
    answers: seq<Answer>)

  datatype Event =
    | Call(call: nat, schema: Schema)
    | Advance(call: nat)

  function Finish(s: Cache, call: nat, outcome: Outcome): Cache
    requires call < |s.calls| && !s.calls[call].Idle?
  {
    s.(calls := s.calls[call := Idle], answers := s.answers + [Answer(s.calls[call].schema, outcome)])
  }

  /** The second critical section: keep what is there, or put the fresh validator there. */
  function InsertIfAbsent(s: Cache, key: string, made: Validator): Cache {
    if key in s.validators then s else s.(validators := s.validators[key := made])
  }

  function Step(s: Cache, e: Event, compiler: Compiler): Cache {
    if e.call >= |s.calls| then s
    else
      match e
      case Call(call, schema) =>
        if s.calls[call].Idle? then s.(calls := s.calls[call := Looking(schema)]) else s
      case Advance(call) =>
        match s.calls[call]
        case Idle => s
        case Looking(schema) =>
          var key := CanonicalText(schema);
          if key in s.validators then Finish(s, call, Ok(s.validators[key]))
          else s.(calls := s.calls[call := Compiling(schema)])
        case Compiling(schema) =>
          (match compiler(schema)
           case Some(error) => Finish(s, call, Err(error))
           case None =>
             s.(calls := s.calls[call := Inserting(schema, Validator(s.compiled, schema))],
                compiled := s.compiled + 1))
        case Inserting(schema, made) =>
          var key := CanonicalText(schema);
          var kept := InsertIfAbsent(s, key, made);
          Finish(kept, call, Ok(kept.validators[key]))
  }

  function Run(s: Cache, events: seq<Event>, compiler: Compiler): Cache
    decreases |events|
  {
    if events == [] then s else Run(Step(s, events[0], compiler), events[1..], compiler)
  }

  function Start(calls: nat): Cache {
    Cache(map[], 0, seq(calls, _ => Idle), [])
  }

  // ---------------------------------------------------------------- what every step keeps

  /** A validator under a key was compiled without error, from a schema with that key. */
  predicate Filed(key: string, v: Validator, compiler: Compiler) {
    CanonicalText(v.schema) == key && compiler(v.schema).None?
  }

  /** An `Ok` answer is the validator filed for the schema; an error is the compiler's own. */
  predicate Justified(s: Cache, a: Answer, compiler: Compiler) {
    match a.outcome
    case Ok(v) =>
      var key := CanonicalText(a.schema);
      key in s.validators && s.validators[key] == v
    case Err(error) => compiler(a.schema) == Some(error)
  }

  predicate Prepared(p: Phase, compiler: Compiler) {
    p.Inserting? ==> p.made.schema == p.schema && compiler(p.schema).None?
  }

  predicate Inv(s: Cache, compiler: Compiler) {
    && (forall key | key in s.validators :: Filed(key, s.validators[key], compiler))
    && (forall i | 0 <= i < |s.answers| :: Justified(s, s.answers[i], compiler))
    && (forall i | 0 <= i < |s.calls| :: Prepared(s.calls[i], compiler))
  }

  /** Filed validators are never replaced or dropped. */
  predicate Keeps(before: map<string, Validator>, after: map<string, Validator>) {
    forall key | key in before :: key in after && after[key] == before[key]
  }

  lemma {:induction false} StepKeepsInv(s: Cache, e: Event, compiler: Compiler)
    requires Inv(s, compiler)
    ensures Inv(Step(s, e, compiler), compiler)
    ensures Keeps(s.validators, Step(s, e, compiler).validators)
    ensures s.answers <= Step(s, e, compiler).answers
  {
    var t := Step(s, e, compiler);
    StepKeepsFiled(s, e, compiler);
    StepJustifies(s, e, compiler);
    forall i | 0 <= i < |t.calls| ensures Prepared(t.calls[i], compiler) {
      assert Prepared(s.calls[i], compiler);
    }
  }

  lemma StepKeepsFiled(s: Cache, e: Event, compiler: Compiler)
    requires Inv(s, compiler)
    ensures var t := Step(s, e, compiler);
            && Keeps(s.validators, t.validators)
            && forall key | key in t.validators :: Filed(key, t.validators[key], compiler)
  {
    if e.Advance? && e.call < |s.calls| {
      assert Prepared(s.calls[e.call], compiler);
    }
  }

  lemma StepJustifies(s: Cache, e: Event, compiler: Compiler)
    requires Inv(s, compiler) && Keeps(s.validators, Step(s, e, compiler).validators)
    ensures var t := Step(s, e, compiler);
            s.answers <= t.answers && forall i | 0 <= i < |t.answers| :: Justified(t, t.answers[i], compiler)
  {
    var t := Step(s, e, compiler);
    forall i | 0 <= i < |t.answers| ensures Justified(t, t.answers[i], compiler) {
      if i < |s.answers| {
        assert t.answers[i] == s.answers[i];
        assert Justified(s, s.answers[i], compiler);
      }
    }
  }

  lemma {:induction false} RunKeepsInv(s: Cache, events: seq<Event>, compiler: Compiler)
    requires Inv(s, compiler)
    ensures Inv(Run(s, events, compiler), compiler)
    ensures Keeps(s.validators, Run(s, events, compiler).validators)
    ensures s.answers <= Run(s, events, compiler).answers
    decreases |events|
  {
    if events != [] {
      StepKeepsInv(s, events[0], compiler);
      RunKeepsInv(Step(s, events[0], compiler), events[1..], compiler);
    }
  }

  // ---------------------------------------------------------------- over whole runs

  /**
   In every run, an `Ok` answer is a validator that compiled without error from a schema equal to the
   asked one up to member order, and an error is what the compiler says of the asked schema itself.
   */
  lemma AnswersFit(calls: nat, events: seq<Event>, compiler: Compiler, a: Answer)
    requires a in Run(Start(calls), events, compiler).answers
    ensures a.outcome.Ok? ==> Same(a.schema, a.outcome.value.schema) && compiler(a.outcome.value.schema).None?
    ensures a.outcome.Err? ==> compiler(a.schema) == Some(a.outcome.error)
  {
    var end := Run(Start(calls), events, compiler);
    RunKeepsInv(Start(calls), events, compiler);
    assert Justified(end, a, compiler);
    if a.outcome.Ok? {
      assert Filed(CanonicalText(a.schema), a.outcome.value, compiler);
      KeysAgreeIffSame(a.schema, a.outcome.value.schema);
    }
  }

  /**
   First inserted wins for good: whenever and however interleaved two `Ok` answers were given, they are
   the very same validator exactly when the schemas are equal up to member order.
   */
  lemma OneValidatorPerSchema(calls: nat, events: seq<Event>, compiler: Compiler, a: Answer, b: Answer)
    requires a in Run(Start(calls), events, compiler).answers && b in Run(Start(calls), events, compiler).answers
    requires a.outcome.Ok? && b.outcome.Ok?
    ensures a.outcome == b.outcome <==> Same(a.schema, b.schema)
  {
    var end := Run(Start(calls), events, compiler);
    RunKeepsInv(Start(calls), events, compiler);
    assert Justified(end, a, compiler) && Justified(end, b, compiler);
    KeysAgreeIffSame(a.schema, b.schema);
    assert Filed(CanonicalText(a.schema), a.outcome.value, compiler);
    assert Filed(CanonicalText(b.schema), b.outcome.value, compiler);
  }

  /**
   A schema once answered with a validator is never compiled again: from any reachable state and
   whatever happens next, a lookup of it or of its like hits, with the same validator.
   */
  lemma {:induction false} AnsweredSchemaHits(
    s: Cache, later: seq<Event>, compiler: Compiler, a: Answer, call: nat, schema: Schema)
    requires Inv(s, compiler) && a in s.answers && a.outcome.Ok? && Same(schema, a.schema)
    requires call < |Run(s, later, compiler).calls|
    requires Run(s, later, compiler).calls[call] == Looking(schema)
    ensures Step(Run(s, later, compiler), Advance(call), compiler) == Finish(Run(s, later, compiler), call, a.outcome)
  {
    RunKeepsInv(s, later, compiler);
    assert Justified(s, a, compiler);
    KeysAgreeIffSame(schema, a.schema);
  }

  // ---------------------------------------------------------------- the cache object

  /** What a call does when no other comes between. */
  function WholeCall(validators: map<string, Validator>, compiled: nat, schema: Schema, compiler: Compiler)
    : (map<string, Validator>, nat, Outcome)
  {
    var key := CanonicalText(schema);
    if key in validators then (validators, compiled, Ok(validators[key]))
    else
      match compiler(schema)
      case Some(error) => (validators, compiled, Err(error))
      case None =>
        var made := Validator(compiled, schema);
        (validators[key := made], compiled + 1, Ok(made))
  }

  /** The machine's steps, taken without interruption, are that call. */
  lemma WholeCallIsRun(s: Cache, call: nat, schema: Schema, compiler: Compiler)
    requires call < |s.calls| && s.calls[call].Idle?
    ensures
      var run := [Call(call, schema), Advance(call), Advance(call), Advance(call)];
      var (validators, compiled, outcome) := WholeCall(s.validators, s.compiled, schema, compiler);
      Run(s, run, compiler) == Cache(validators, compiled, s.calls, s.answers + [Answer(schema, outcome)])
  {
    var run := [Call(call, schema), Advance(call), Advance(call), Advance(call)];
    var s1 := Step(s, Call(call, schema), compiler);
    assert run[1..] == [Advance(call), Advance(call), Advance(call)];
    AdvancesAreCall(s1, call, schema, compiler);
    assert s.calls == s.calls[call := Looking(schema)][call := Idle];
  }

  lemma IdleStays(s: Cache, call: nat, compiler: Compiler)
    requires call < |s.calls| && s.calls[call].Idle?
    ensures Run(s, [Advance(call)], compiler) == s && Run(s, [Advance(call), Advance(call)], compiler) == s
  {
    var e := Advance(call);
    assert [e, e][1..] == [e];
    assert Step(s, e, compiler) == s;
    assert Run(s, [e], compiler) == s;
  }

  lemma CompilingIsCall(s: Cache, call: nat, schema: Schema, compiler: Compiler)
    requires call < |s.calls| && s.calls[call] == Compiling(schema) && CanonicalText(schema) !in s.validators
    ensures
      var (validators, compiled, outcome) := WholeCall(s.validators, s.compiled, schema, compiler);
      Run(s, [Advance(call), Advance(call)], compiler)
      == Cache(validators, compiled, s.calls[call := Idle], s.answers + [Answer(schema, outcome)])
  {
    var e := Advance(call);
    var s1 := Step(s, e, compiler);
    assert [e, e][1..] == [e];
    assert Run(s, [e, e], compiler) == Run(s1, [e], compiler);
    if compiler(schema).Some? {
      IdleStays(s1, call, compiler);
    } else {
      var s2 := Step(s1, e, compiler);
      assert Run(s1, [e], compiler) == s2;
      assert s2.calls == s.calls[call := Idle];
    }
  }

  lemma AdvancesAreCall(s: Cache, call: nat, schema: Schema, compiler: Compiler)
    requires call < |s.calls| && s.calls[call] == Looking(schema)
    ensures
      var (validators, compiled, outcome) := WholeCall(s.validators, s.compiled, schema, compiler);
      Run(s, [Advance(call), Advance(call), Advance(call)], compiler)
      == Cache(validators, compiled, s.calls[call := Idle], s.answers + [Answer(schema, outcome)])
  {
    var e := Advance(call);
    var s1 := Step(s, e, compiler);
    assert [e, e, e][1..] == [e, e];
    assert Run(s, [e, e, e], compiler) == Run(s1, [e, e], compiler);
    if CanonicalText(schema) in s.validators {
      IdleStays(s1, call, compiler);
    } else {
      CompilingIsCall(s1, call, schema, compiler);
      assert s1.calls[call := Idle] == s.calls[call := Idle];
    }
  }

  class SchemaValidatorCache {
    var validators: map<string, Validator>
    var compiled: nat

    constructor ()
      ensures validators == map[] && compiled == 0
    {
      validators := map[];
      compiled := 0;
    }

    method GetOrCompile(schema: Schema, compiler: Compiler) returns (r: Outcome)
      modifies this
      ensures (validators, compiled, r) == WholeCall(old(validators), old(compiled), schema, compiler)
      ensures Keeps(old(validators), validators)
    {
      var key := CanonicalText(schema);
      if key in validators {
        return Ok(validators[key]);
      }
      var verdict := compiler(schema);
      if verdict.Some? {
        return Err(verdict.value);
      }
      var made := Validator(compiled, schema);
      compiled := compiled + 1;
      if key !in validators {
        validators := validators[key := made];
      }
      return Ok(validators[key]);
    }
  }
}
