/**
 Deciding a request by the chain of auth providers (src/auth/inbound/authorization.rs), and when the
 order of the chain matters. What a provider makes of a token (signatures, introspection, plugins) and
 what discovery finds are given by an `Oracle`, the same throughout one request.
 */
module AuthChain {
  import opened Wrappers
  import opened Strings
  import opened AuthSettings

  datatype Outcome = Valid | Invalid | InsufficientScope(scopes: seq<string>)

  datatype PluginDecision = Accept | Reject | Abstain

  datatype Decision =
    | Allow
    | Unauthorized(scope: Option<string>)
    | Forbidden(scope: Option<string>)

  /** What comes of a token at a provider. */
  type Validation = (string, Provider) -> Outcome

  datatype Oracle = Oracle(
    /** The `iss` claim of a token in three parts, if it decodes and has one. */
    issuerClaim: string -> Option<string>,
    validateJwt: Validation,
    validateOpaque: Validation,
    runPlugin: (string, Provider) -> PluginDecision,
    /** The issuer a provider's discovery document names. */
    discovered: Provider -> Option<string>)

  datatype Profile = Profile(token: string, isJwt: bool, issuer: Option<string>)

  predicate LooksLikeJwt(token: string) {
    |Split(token, '.')| == 3
  }

  /** Looking like a JWT is having two dots. */
  lemma JwtHasThreeParts(token: string)
    ensures LooksLikeJwt(token)
       <==> exists a, b, c :: NoneHas([a, b, c], '.') && token == a + "." + b + "." + c
  {
    JoinSplit(token, '.');
    forall a, b, c | NoneHas([a, b, c], '.') && token == a + "." + b + "." + c
      ensures Split(token, '.') == [a, b, c]
    {
      ThreeJoined(a, b, c);
      SplitJoined([a, b, c], '.');
    }
    if LooksLikeJwt(token) {
      var parts := Split(token, '.');
      assert parts == [parts[0], parts[1], parts[2]];
      ThreeJoined(parts[0], parts[1], parts[2]);
    }
  }

  lemma ThreeJoined(a: string, b: string, c: string)
    ensures Joined([a, b, c], '.') == a + "." + b + "." + c
  {
    assert [a, b, c] == [a] + [b, c] && [b, c] == [b] + [c];
    JoinedCons(a, [b, c], '.');
    JoinedCons(b, [c], '.');
    assert a + "." + (b + "." + c) == a + "." + b + "." + c;
  }

  function TokenProfile(token: string, oracle: Oracle): Profile {
    if LooksLikeJwt(token) then Profile(token, true, oracle.issuerClaim(token)) else Profile(token, false, None)
  }

  /** `AuthProvider::issuer`: the configured one, else the discovered one. */
  function EffectiveIssuer(p: Provider, oracle: Oracle): Option<string> {
    if p.Issuer().Some? then p.Issuer() else oracle.discovered(p)
  }

  // ---------------------------------------------------------------- one provider

  function ScopeChallenge(challenges: bool, scopes: seq<string>): Option<string> {
    if !challenges || scopes == [] then None else Some(Joined(scopes, ' '))
  }

  function FromValidation(outcome: Outcome, p: Provider, challenges: bool): Decision {
    match outcome
    case Valid => Allow
    case Invalid => Unauthorized(ScopeChallenge(challenges, p.RequiredScopes()))
    case InsufficientScope(scopes) => Forbidden(ScopeChallenge(challenges, scopes))
  }

  function JwksDecision(p: Provider, profile: Profile, oracle: Oracle, challenges: bool): Option<Decision> {
    if !profile.isJwt || profile.issuer.None? || EffectiveIssuer(p, oracle) != profile.issuer then None
    else Some(FromValidation(oracle.validateJwt(profile.token, p), p, challenges))
  }

  function IntrospectionDecision(p: Provider, profile: Profile, oracle: Oracle, challenges: bool): Option<Decision> {
    if profile.isJwt && profile.issuer.Some? && EffectiveIssuer(p, oracle) != profile.issuer then None
    else if profile.isJwt && profile.issuer.None? && !p.AllowsMissingIssuer() then None
    else Some(FromValidation(oracle.validateOpaque(profile.token, p), p, challenges))
  }

  /** `evaluate_provider`: a decision, or nothing to leave it to the next. */
  function Evaluate(p: Provider, profile: Profile, oracle: Oracle, challenges: bool): Option<Decision> {
    match p
    case Bearer(_, token) => if token == profile.token then Some(Allow) else None
    case Jwks(_, _, _, _) => JwksDecision(p, profile, oracle, challenges)
    case Introspection(_, _, _, _) => IntrospectionDecision(p, profile, oracle, challenges)
    case Plugin(_, _, _) =>
      match oracle.runPlugin(profile.token, p)
      case Accept => Some(Allow)
      case Reject => Some(Unauthorized(ScopeChallenge(challenges, p.RequiredScopes())))
      case Abstain => None
  }

  // ---------------------------------------------------------------- the chain

  function FirstDecision(providers: seq<Provider>, profile: Profile, oracle: Oracle, challenges: bool)
    : Option<Decision>
  {
    if providers == [] then None
    else
      match Evaluate(providers[0], profile, oracle, challenges)
      case Some(decision) => Some(decision)
      case None => FirstDecision(providers[1..], profile, oracle, challenges)
  }

  /** The scopes of the first provider that requires any. */
  function DefaultScope(providers: seq<Provider>, challenges: bool): Option<string> {
    if providers == [] then None
    else if providers[0].RequiredScopes() != [] then ScopeChallenge(challenges, providers[0].RequiredScopes())
    else DefaultScope(providers[1..], challenges)
  }

  /** `check_oauth`; `token` is what the request's Authorization header carries. */
  function CheckOauth(providers: seq<Provider>, token: Option<string>, oracle: Oracle, challenges: bool): Decision {
    match token
    case None => Unauthorized(DefaultScope(providers, challenges))
    case Some(token) =>
      match FirstDecision(providers, TokenProfile(token, oracle), oracle, challenges)
      case Some(decision) => decision
      case None => Unauthorized(DefaultScope(providers, challenges))
  }

  datatype Activation = NoAuth | BearerOnly | OauthOnly | BearerAndOauth

  /** `authorize`, with the token that the bearer activations expect. */
  function Authorize(
    activation: Activation, expected: Option<string>, providers: seq<Provider>, token: Option<string>,
    oracle: Oracle, challenges: bool): Decision
  {
    var bearer := expected.Some? && expected == token;
    match activation
    case NoAuth => Allow
    case BearerOnly => if bearer then Allow else Unauthorized(None)
    case OauthOnly => CheckOauth(providers, token, oracle, challenges)
    case BearerAndOauth => if bearer then Allow else CheckOauth(providers, token, oracle, challenges)
  }

  // ---------------------------------------------------------------- who decides

  /**
   Whom a token concerns: a bearer its own; a key set the tokens that name its issuer; introspection those too,
   those in three parts that name none if it is to take them, and all others; a plugin what it likes.
   */
  predicate Decides(p: Provider, profile: Profile, oracle: Oracle) {
    match p
    case Bearer(_, token) => token == profile.token
    case Jwks(_, _, _, _) => profile.isJwt && profile.issuer.Some? && EffectiveIssuer(p, oracle) == profile.issuer
    case Introspection(_, _, allowMissing, _) =>
      if !profile.isJwt then true
      else if profile.issuer.None? then allowMissing
      else EffectiveIssuer(p, oracle) == profile.issuer
    case Plugin(_, _, _) => !oracle.runPlugin(profile.token, p).Abstain?
  }

  lemma DecidesWhatever(p: Provider, profile: Profile, oracle: Oracle, challenges: bool)
    ensures Evaluate(p, profile, oracle, challenges).Some? <==> Decides(p, profile, oracle)
  {
  }

  predicate BothDecide(p: Provider, q: Provider, profile: Profile, oracle: Oracle) {
    p.OauthCapable() && q.OauthCapable() && Decides(p, profile, oracle) && Decides(q, profile, oracle)
  }

  /** Of the jwks and introspection providers, no two decide. */
  predicate AtMostOneDecides(providers: seq<Provider>, profile: Profile, oracle: Oracle) {
    forall i, j :: 0 <= i < j < |providers| ==> !BothDecide(providers[i], providers[j], profile, oracle)
  }

  predicate SameEffectiveIssuer(p: Provider, q: Provider, oracle: Oracle) {
    && p.OauthCapable() && q.OauthCapable()
    && EffectiveIssuer(p, oracle).Some? && EffectiveIssuer(p, oracle) == EffectiveIssuer(q, oracle)
  }

  predicate EffectiveIssuersDistinct(providers: seq<Provider>, oracle: Oracle) {
    forall i, j :: 0 <= i < j < |providers| ==> !SameEffectiveIssuer(providers[i], providers[j], oracle)
  }

  /** Every jwks and introspection provider is configured with an issuer. */
  predicate IssuersConfigured(providers: seq<Provider>) {
    forall i :: 0 <= i < |providers| && providers[i].OauthCapable() ==> providers[i].Issuer().Some?
  }

  /**
   For a configuration startup accepts, all of whose issuers are configured: whatever the token in three
   parts, at most one jwks or introspection provider decides it.
   */
  lemma AcceptedMeansOne(auth: Auth, token: string, oracle: Oracle)
    requires Verdict(auth).Ok? && IssuersConfigured(auth.providers) && LooksLikeJwt(token)
    ensures AtMostOneDecides(auth.providers, TokenProfile(token, oracle), oracle)
  {
    VerdictExactly(auth);
  }

  /** At most one introspection provider takes tokens in three parts that name no issuer. */
  predicate OneIntrospectsMissing(providers: seq<Provider>) {
    forall i, j :: 0 <= i < j < |providers| ==>
      !(providers[i].Introspection? && providers[i].allowMissing
        && providers[j].Introspection? && providers[j].allowMissing)
  }

  predicate OneIntrospects(providers: seq<Provider>) {
    forall i, j :: 0 <= i < j < |providers| ==> !(providers[i].Introspection? && providers[j].Introspection?)
  }

  /**
   The exact conditions, for any list. No token that names its issuer is decided twice exactly when no two
   providers have the same issuer, configured or discovered; a token in three parts that names none, exactly
   when no two introspection providers take those; any other token, exactly when there are no two
   introspection providers at all.
   */
  lemma OneDecidesExactly(providers: seq<Provider>, token: string, oracle: Oracle)
    ensures (forall issuer :: AtMostOneDecides(providers, Profile(token, true, Some(issuer)), oracle))
       <==> EffectiveIssuersDistinct(providers, oracle)
    ensures AtMostOneDecides(providers, Profile(token, true, None), oracle) <==> OneIntrospectsMissing(providers)
    ensures AtMostOneDecides(providers, Profile(token, false, None), oracle) <==> OneIntrospects(providers)
  {
    forall i, j | 0 <= i < j < |providers|
      ensures BothDecide(providers[i], providers[j], Profile(token, true, None), oracle)
         <==> providers[i].Introspection? && providers[i].allowMissing
              && providers[j].Introspection? && providers[j].allowMissing
      ensures BothDecide(providers[i], providers[j], Profile(token, false, None), oracle)
         <==> providers[i].Introspection? && providers[j].Introspection?
    {
    }
  }

  // ---------------------------------------------------------------- what the answer means

  /** The provider accepts the token itself. */
  predicate Vouches(p: Provider, profile: Profile, oracle: Oracle) {
    match p
    case Bearer(_, token) => token == profile.token
    case Jwks(_, _, _, _) => Decides(p, profile, oracle) && oracle.validateJwt(profile.token, p) == Valid
    case Introspection(_, _, _, _) => Decides(p, profile, oracle) && oracle.validateOpaque(profile.token, p) == Valid
    case Plugin(_, _, _) => oracle.runPlugin(profile.token, p) == Accept
  }

  /** The token is good, but not for the scopes the provider requires. */
  predicate LacksScope(p: Provider, profile: Profile, oracle: Oracle) {
    && Decides(p, profile, oracle)
    && ((p.Jwks? && oracle.validateJwt(profile.token, p).InsufficientScope?)
        || (p.Introspection? && oracle.validateOpaque(profile.token, p).InsufficientScope?))
  }

  /** Nobody before the `i`-th provider decides. */
  predicate LeftTo(providers: seq<Provider>, i: nat, profile: Profile, oracle: Oracle) {
    i < |providers| && forall j :: 0 <= j < i ==> !Decides(providers[j], profile, oracle)
  }

  ghost predicate SomeoneVouches(providers: seq<Provider>, profile: Profile, oracle: Oracle) {
    exists i: nat :: LeftTo(providers, i, profile, oracle) && Vouches(providers[i], profile, oracle)
  }

  ghost predicate SomeoneForbids(providers: seq<Provider>, profile: Profile, oracle: Oracle) {
    exists i: nat :: LeftTo(providers, i, profile, oracle) && LacksScope(providers[i], profile, oracle)
  }

  lemma {:induction false} FirstDecisionExactly(
    providers: seq<Provider>, profile: Profile, oracle: Oracle, challenges: bool)
    ensures
      var r := FirstDecision(providers, profile, oracle, challenges);
      && (r == Some(Allow) <==> SomeoneVouches(providers, profile, oracle))
      && (r.Some? && r.value.Forbidden? <==> SomeoneForbids(providers, profile, oracle))
    decreases |providers|
  {
    if providers != [] {
      DecidesWhatever(providers[0], profile, oracle, challenges);
      if Decides(providers[0], profile, oracle) {
        assert LeftTo(providers, 0, profile, oracle);
        assert forall i: nat :: LeftTo(providers, i, profile, oracle) ==> i == 0;
      } else {
        FirstDecisionExactly(providers[1..], profile, oracle, challenges);
      }
    }
  }

  /**
   A request is allowed exactly when a provider accepts its token after all before it left the decision to
   it, and forbidden exactly when such a provider finds it short of scopes.
   */
  lemma AllowedExactly(providers: seq<Provider>, token: Option<string>, oracle: Oracle, challenges: bool)
    ensures
      CheckOauth(providers, token, oracle, challenges) == Allow
      <==> token.Some? && SomeoneVouches(providers, TokenProfile(token.value, oracle), oracle)
    ensures
      CheckOauth(providers, token, oracle, challenges).Forbidden?
      <==> token.Some? && SomeoneForbids(providers, TokenProfile(token.value, oracle), oracle)
  {
    if token.Some? {
      FirstDecisionExactly(providers, TokenProfile(token.value, oracle), oracle, challenges);
    }
  }

  // ---------------------------------------------------------------- the default challenge

  /** The first provider that requires scopes is the `i`-th. */
  predicate FirstWithScopes(providers: seq<Provider>, i: nat) {
    && i < |providers| && providers[i].RequiredScopes() != []
    && forall j :: 0 <= j < i ==> providers[j].RequiredScopes() == []
  }

  /** The default challenge is that of the first provider with scopes, and there is none without such. */
  lemma {:induction false} DefaultScopeIsFirst(providers: seq<Provider>, challenges: bool)
    ensures forall i: nat :: FirstWithScopes(providers, i) ==>
      DefaultScope(providers, challenges) == ScopeChallenge(challenges, providers[i].RequiredScopes())
    ensures (forall p <- providers :: p.RequiredScopes() == []) ==> DefaultScope(providers, challenges) == None
    decreases |providers|
  {
    if providers != [] {
      DefaultScopeIsFirst(providers[1..], challenges);
      if providers[0].RequiredScopes() == [] {
        forall i: nat | FirstWithScopes(providers, i)
          ensures DefaultScope(providers, challenges) == ScopeChallenge(challenges, providers[i].RequiredScopes())
        {
          assert FirstWithScopes(providers[1..], i - 1);
        }
      }
    }
  }

  /** The scopes a client is told to ask for: all of them, with spaces between, if clients are told at all. */
  predicate Challenges(challenges: bool, scopes: seq<string>, scope: Option<string>) {
    scope == if challenges && scopes != [] then Some(Joined(scopes, ' ')) else None
  }

  /** What a provider makes of a token that concerns it. */
  ghost predicate Rules(p: Provider, profile: Profile, oracle: Oracle, challenges: bool, d: Decision) {
    match d
    case Allow => Vouches(p, profile, oracle)
    case Forbidden(scope) => LacksScope(p, profile, oracle) && (
      var outcome := if p.Jwks? then oracle.validateJwt(profile.token, p) else oracle.validateOpaque(profile.token, p);
      Challenges(challenges, outcome.scopes, scope))
    case Unauthorized(scope) =>
      && Decides(p, profile, oracle) && !Vouches(p, profile, oracle) && !LacksScope(p, profile, oracle)
      && Challenges(challenges, p.RequiredScopes(), scope)
  }

  lemma EvaluateRules(p: Provider, profile: Profile, oracle: Oracle, challenges: bool, d: Decision)
    ensures Evaluate(p, profile, oracle, challenges) == Some(d) <==> Rules(p, profile, oracle, challenges, d)
  {
  }

  ghost predicate SomeoneRules(
    providers: seq<Provider>, profile: Profile, oracle: Oracle, challenges: bool, d: Decision)
  {
    exists i: nat :: LeftTo(providers, i, profile, oracle) && Rules(providers[i], profile, oracle, challenges, d)
  }

  predicate NobodyDecides(providers: seq<Provider>, profile: Profile, oracle: Oracle) {
    forall p <- providers :: !Decides(p, profile, oracle)
  }

  lemma {:induction false} FirstDecisionRules(
    providers: seq<Provider>, profile: Profile, oracle: Oracle, challenges: bool, d: Decision)
    ensures FirstDecision(providers, profile, oracle, challenges) == Some(d)
       <==> SomeoneRules(providers, profile, oracle, challenges, d)
    ensures FirstDecision(providers, profile, oracle, challenges) == None <==> NobodyDecides(providers, profile, oracle)
    decreases |providers|
  {
    if providers != [] {
      var p, rest := providers[0], providers[1..];
      DecidesWhatever(p, profile, oracle, challenges);
      EvaluateRules(p, profile, oracle, challenges, d);
      FirstDecisionRules(rest, profile, oracle, challenges, d);
      if Decides(p, profile, oracle) {
        assert LeftTo(providers, 0, profile, oracle);
        assert forall i: nat :: LeftTo(providers, i, profile, oracle) ==> i == 0;
      } else {
        RulesLater(providers, profile, oracle, challenges, d);
        assert forall q :: q in providers <==> q == p || q in rest;
      }
    }
  }

  lemma RulesLater(providers: seq<Provider>, profile: Profile, oracle: Oracle, challenges: bool, d: Decision)
    requires providers != [] && !Decides(providers[0], profile, oracle)
    ensures SomeoneRules(providers, profile, oracle, challenges, d)
       <==> SomeoneRules(providers[1..], profile, oracle, challenges, d)
  {
    var rest := providers[1..];
    forall i: nat ensures LeftTo(providers, i + 1, profile, oracle) <==> LeftTo(rest, i, profile, oracle) {
      if LeftTo(rest, i, profile, oracle) {
        forall j | 0 <= j < i + 1 ensures !Decides(providers[j], profile, oracle) {
          assert j > 0 ==> providers[j] == rest[j - 1];
        }
      }
      if LeftTo(providers, i + 1, profile, oracle) {
        forall j | 0 <= j < i ensures !Decides(rest[j], profile, oracle) {
          assert rest[j] == providers[j + 1];
        }
      }
    }
    if i: nat :| LeftTo(providers, i, profile, oracle) && Rules(providers[i], profile, oracle, challenges, d) {
      assert !Rules(providers[0], profile, oracle, challenges, d);
      assert LeftTo(rest, i - 1, profile, oracle) && rest[i - 1] == providers[i];
    }
    if i: nat :| LeftTo(rest, i, profile, oracle) && Rules(rest[i], profile, oracle, challenges, d) {
      assert LeftTo(providers, i + 1, profile, oracle) && providers[i + 1] == rest[i];
    }
  }

  /** The challenge where nobody has decided: that of the first provider with scopes, if there is one. */
  ghost predicate DefaultChallenge(providers: seq<Provider>, challenges: bool, scope: Option<string>) {
    if exists i: nat :: FirstWithScopes(providers, i)
    then exists i: nat :: FirstWithScopes(providers, i) && Challenges(challenges, providers[i].RequiredScopes(), scope)
    else scope == None
  }

  lemma DefaultIs(providers: seq<Provider>, challenges: bool, scope: Option<string>)
    ensures DefaultScope(providers, challenges) == scope <==> DefaultChallenge(providers, challenges, scope)
  {
    DefaultScopeIsFirst(providers, challenges);
    if i: nat :| FirstWithScopes(providers, i) {
      assert Challenges(challenges, providers[i].RequiredScopes(), DefaultScope(providers, challenges));
    } else {
      NoneWithScopes(providers);
    }
  }

  lemma {:induction false} NoneWithScopes(providers: seq<Provider>)
    requires forall i: nat :: !FirstWithScopes(providers, i)
    ensures forall p <- providers :: p.RequiredScopes() == []
  {
    var n := 0;
    while n < |providers|
      invariant 0 <= n <= |providers| && forall j :: 0 <= j < n ==> providers[j].RequiredScopes() == []
    {
      assert !FirstWithScopes(providers, n);
      n := n + 1;
    }
  }

  /** The decision of the chain: that of the first provider the token concerns, or, without one, unauthorized. */
  ghost predicate ChainRules(
    providers: seq<Provider>, token: Option<string>, oracle: Oracle, challenges: bool, d: Decision)
  {
    if token.Some? && !NobodyDecides(providers, TokenProfile(token.value, oracle), oracle) then
      SomeoneRules(providers, TokenProfile(token.value, oracle), oracle, challenges, d)
    else d.Unauthorized? && DefaultChallenge(providers, challenges, d.scope)
  }

  /**
   Every decision, challenge included, for every way auth can be activated: a bearer alone challenges with
   nothing, and behind a bearer, or without one, the chain decides.
   */
  lemma AuthorizedExactly(
    activation: Activation, expected: Option<string>, providers: seq<Provider>, token: Option<string>,
    oracle: Oracle, challenges: bool, d: Decision)
    ensures
      var bearer := token.Some? && expected == token;
      Authorize(activation, expected, providers, token, oracle, challenges) == d
      <==> if activation == NoAuth || (activation in {BearerOnly, BearerAndOauth} && bearer) then d == Allow
           else if activation == BearerOnly then d == Unauthorized(None)
           else ChainRules(providers, token, oracle, challenges, d)
  {
    if token.Some? {
      FirstDecisionRules(providers, TokenProfile(token.value, oracle), oracle, challenges, d);
    }
    DefaultIs(providers, challenges, if d.Allow? then None else d.scope);
  }

  /** So two providers whose scopes read differently make the challenge follow their order. */
  lemma DefaultScopeFollowsOrder(p: Provider, q: Provider, rest: seq<Provider>, oracle: Oracle)
    requires p.RequiredScopes() != [] && q.RequiredScopes() != []
    requires Joined(p.RequiredScopes(), ' ') != Joined(q.RequiredScopes(), ' ')
    ensures CheckOauth([p, q] + rest, None, oracle, true) != CheckOauth([q, p] + rest, None, oracle, true)
  {
    DefaultScopeIsFirst([p, q] + rest, true);
    DefaultScopeIsFirst([q, p] + rest, true);
    assert FirstWithScopes([p, q] + rest, 0) && FirstWithScopes([q, p] + rest, 0);
  }
}
