/**
 When the order of the auth providers matters (src/auth/inbound/authorization.rs), and when startup makes
 sure that it does not (src/auth/inbound/factory.rs).
 */
module AuthOrder {
  import opened Wrappers
  import opened Strings
  import opened AuthSettings
  import opened AuthChain

  // ---------------------------------------------------------------- order

  lemma {:induction false} DecisionInParts(
    a: seq<Provider>, b: seq<Provider>, profile: Profile, oracle: Oracle, challenges: bool)
    ensures
      var first := FirstDecision(a, profile, oracle, challenges);
      FirstDecision(a + b, profile, oracle, challenges)
      == if first.Some? then first else FirstDecision(b, profile, oracle, challenges)
    decreases |a|
  {
    if a == [] {
      assert a + b == b;
    } else {
      assert (a + b)[1..] == a[1..] + b;
      DecisionInParts(a[1..], b, profile, oracle, challenges);
    }
  }

  /** A block of jwks and introspection providers only. */
  predicate OauthBlock(block: seq<Provider>) {
    forall i :: 0 <= i < |block| ==> block[i].OauthCapable()
  }

  /** The one that decides, if any does, is found wherever it stands. */
  lemma {:induction false} TheOneDecides(
    block: seq<Provider>, p: Provider, profile: Profile, oracle: Oracle, challenges: bool)
    requires OauthBlock(block) && AtMostOneDecides(block, profile, oracle)
    requires p in block && Decides(p, profile, oracle)
    ensures FirstDecision(block, profile, oracle, challenges) == Evaluate(p, profile, oracle, challenges)
    decreases |block|
  {
    DecidesWhatever(p, profile, oracle, challenges);
    if block[0] != p {
      var k :| 0 <= k < |block| && block[k] == p;
      assert block[1..][k - 1] == p;
      assert !BothDecide(block[0], block[k], profile, oracle);
      DecidesWhatever(block[0], profile, oracle, challenges);
      TailAtMostOne(block, profile, oracle);
      TheOneDecides(block[1..], p, profile, oracle, challenges);
    }
  }

  lemma TailAtMostOne(block: seq<Provider>, profile: Profile, oracle: Oracle)
    requires block != [] && AtMostOneDecides(block, profile, oracle)
    ensures AtMostOneDecides(block[1..], profile, oracle)
  {
    forall i, j | 0 <= i < j < |block[1..]| ensures !BothDecide(block[1..][i], block[1..][j], profile, oracle) {
      assert !BothDecide(block[i + 1], block[j + 1], profile, oracle);
    }
  }

  lemma {:induction false} NoneDecides(block: seq<Provider>, profile: Profile, oracle: Oracle, challenges: bool)
    requires forall p <- block :: !Decides(p, profile, oracle)
    ensures FirstDecision(block, profile, oracle, challenges) == None
    decreases |block|
  {
    if block != [] {
      DecidesWhatever(block[0], profile, oracle, challenges);
      NoneDecides(block[1..], profile, oracle, challenges);
    }
  }

  lemma ReorderedHas(a: seq<Provider>, b: seq<Provider>, p: Provider)
    requires multiset(a) == multiset(b)
    ensures p in a <==> p in b
  {
    assert p in a <==> p in multiset(a);
    assert p in b <==> p in multiset(b);
  }

  lemma TwoPlaces(s: seq<Provider>, i: nat, j: nat)
    requires i < j < |s| && s[i] == s[j]
    ensures multiset(s)[s[i]] >= 2
  {
    assert s == s[..j] + [s[j]] + s[j + 1..];
    assert s[..j][i] == s[i];
    assert multiset(s[..j])[s[i]] >= 1;
  }

  lemma {:induction false} FoundTwice(s: seq<Provider>, p: Provider) returns (i: nat, j: nat)
    requires multiset(s)[p] >= 2
    ensures i < j < |s| && s[i] == p == s[j]
    decreases |s|
  {
    assert s == [s[0]] + s[1..];
    if s[0] == p {
      assert p in multiset(s[1..]);
      var k :| 0 <= k < |s[1..]| && s[1..][k] == p;
      i, j := 0, k + 1;
    } else {
      i, j := FoundTwice(s[1..], p);
      i, j := i + 1, j + 1;
    }
  }

  /** At most one decides, however the providers are ordered. */
  lemma ReorderKeepsOne(block: seq<Provider>, reordered: seq<Provider>, profile: Profile, oracle: Oracle)
    requires multiset(block) == multiset(reordered) && AtMostOneDecides(block, profile, oracle)
    ensures AtMostOneDecides(reordered, profile, oracle)
  {
    forall i, j | 0 <= i < j < |reordered| ensures !BothDecide(reordered[i], reordered[j], profile, oracle) {
      var p, q := reordered[i], reordered[j];
      if p == q {
        TwoPlaces(reordered, i, j);
        var k, m := FoundTwice(block, p);
        assert !BothDecide(block[k], block[m], profile, oracle);
      } else {
        ReorderedHas(block, reordered, p);
        ReorderedHas(block, reordered, q);
        var k :| 0 <= k < |block| && block[k] == p;
        var m :| 0 <= m < |block| && block[m] == q;
        assert k < m ==> !BothDecide(block[k], block[m], profile, oracle);
        assert m < k ==> !BothDecide(block[m], block[k], profile, oracle);
      }
    }
  }

  /** A block of which at most one decides comes to the same decision in any order. */
  lemma BlockInAnyOrder(
    block: seq<Provider>, reordered: seq<Provider>, profile: Profile, oracle: Oracle, challenges: bool)
    requires OauthBlock(block) && multiset(block) == multiset(reordered)
    requires AtMostOneDecides(block, profile, oracle)
    ensures FirstDecision(block, profile, oracle, challenges) == FirstDecision(reordered, profile, oracle, challenges)
  {
    ReorderKeepsOne(block, reordered, profile, oracle);
    forall i | 0 <= i < |reordered| ensures reordered[i].OauthCapable() {
      ReorderedHas(block, reordered, reordered[i]);
    }
    if p :| p in block && Decides(p, profile, oracle) {
      ReorderedHas(block, reordered, p);
      TheOneDecides(block, p, profile, oracle, challenges);
      TheOneDecides(reordered, p, profile, oracle, challenges);
    } else {
      forall p | p in reordered ensures !Decides(p, profile, oracle) {
        ReorderedHas(block, reordered, p);
      }
      NoneDecides(block, profile, oracle, challenges);
      NoneDecides(reordered, profile, oracle, challenges);
    }
  }

  predicate SameKind(a: Decision, b: Decision) {
    (a.Allow? <==> b.Allow?) && (a.Unauthorized? <==> b.Unauthorized?)
  }

  lemma InnerAtMostOne(
    before: seq<Provider>, block: seq<Provider>, after: seq<Provider>, profile: Profile, oracle: Oracle)
    requires AtMostOneDecides(before + block + after, profile, oracle)
    ensures AtMostOneDecides(block, profile, oracle)
  {
    var all, n := before + block + after, |before|;
    forall i, j | 0 <= i < j < |block| ensures !BothDecide(block[i], block[j], profile, oracle) {
      assert block[i] == all[n + i] && block[j] == all[n + j];
      assert !BothDecide(all[n + i], all[n + j], profile, oracle);
    }
  }

  /**
   Reordering jwks and introspection providers that stand together leaves the decision, scope and all,
   where some provider decides, and always leaves whether the request is allowed, unauthorized or
   forbidden. The answer changes exactly when nobody decides and the default challenge does, as it may
   (`DefaultScopeFollowsOrder`).
   */
  lemma OrderDoesNotMatter(
    before: seq<Provider>, block: seq<Provider>, reordered: seq<Provider>, after: seq<Provider>, enabled: bool,
    resource: Option<string>, token: string, oracle: Oracle, challenges: bool)
    requires Verdict(Auth(enabled, before + block + after, resource)).Ok?
    requires IssuersConfigured(before + block + after)
    requires OauthBlock(block) && multiset(block) == multiset(reordered)
    requires LooksLikeJwt(token)
    ensures
      var profile := TokenProfile(token, oracle);
      FirstDecision(before + block + after, profile, oracle, challenges)
      == FirstDecision(before + reordered + after, profile, oracle, challenges)
    ensures
      CheckOauth(before + block + after, Some(token), oracle, challenges)
      == CheckOauth(before + reordered + after, Some(token), oracle, challenges)
      <==> FirstDecision(before + block + after, TokenProfile(token, oracle), oracle, challenges).Some?
           || DefaultScope(before + block + after, challenges) == DefaultScope(before + reordered + after, challenges)
    ensures SameKind(
      CheckOauth(before + block + after, Some(token), oracle, challenges),
      CheckOauth(before + reordered + after, Some(token), oracle, challenges))
  {
    var profile := TokenProfile(token, oracle);
    AcceptedMeansOne(Auth(enabled, before + block + after, resource), token, oracle);
    InnerAtMostOne(before, block, after, profile, oracle);
    BlockInAnyOrder(block, reordered, profile, oracle, challenges);
    DecisionInParts(before + block, after, profile, oracle, challenges);
    DecisionInParts(before + reordered, after, profile, oracle, challenges);
    DecisionInParts(before, block, profile, oracle, challenges);
    DecisionInParts(before, reordered, profile, oracle, challenges);
  }

  // ---------------------------------------------------------------- when order cannot matter, exactly

  /** The same providers, claims and discovery, with other outcomes of validation. */
  function Outcomes(oracle: Oracle, jwt: Validation, introspection: Validation)
    : Oracle
  {
    oracle.(validateJwt := jwt, validateOpaque := introspection)
  }

  /** Every reordering comes to the same decision, whatever validation makes of the token. */
  ghost predicate SameInAnyOrder(block: seq<Provider>, profile: Profile, oracle: Oracle, challenges: bool) {
    forall reordered, jwt, introspection :: multiset(reordered) == multiset(block) ==>
      FirstDecision(reordered, profile, Outcomes(oracle, jwt, introspection), challenges)
      == FirstDecision(block, profile, Outcomes(oracle, jwt, introspection), challenges)
  }

  predicate ListedOnce(block: seq<Provider>) {
    forall i, j :: 0 <= i < j < |block| ==> block[i] != block[j]
  }

  lemma OneInAnyOrder(block: seq<Provider>, profile: Profile, oracle: Oracle, challenges: bool)
    requires OauthBlock(block) && AtMostOneDecides(block, profile, oracle)
    ensures SameInAnyOrder(block, profile, oracle, challenges)
  {
    forall reordered, jwt, introspection | multiset(reordered) == multiset(block)
      ensures FirstDecision(reordered, profile, Outcomes(oracle, jwt, introspection), challenges)
           == FirstDecision(block, profile, Outcomes(oracle, jwt, introspection), challenges)
    {
      var other := Outcomes(oracle, jwt, introspection);
      forall i, j | 0 <= i < j < |block| ensures !BothDecide(block[i], block[j], profile, other) {
        assert !BothDecide(block[i], block[j], profile, oracle);
      }
      BlockInAnyOrder(block, reordered, profile, other, challenges);
    }
  }

  /** Validation that only one provider fails. */
  function OnlyFails(q: Provider): Validation {
    (_, p: Provider) => if p == q then Invalid else Valid
  }

  /** Somebody before the one that fails decides, and allows. */
  lemma {:induction false} EarlierAllows(
    front: seq<Provider>, rest: seq<Provider>, q: Provider, i: nat, profile: Profile, oracle: Oracle, challenges: bool)
    requires OauthBlock(front) && q !in front && i < |front| && Decides(front[i], profile, oracle)
    requires oracle.validateJwt == OnlyFails(q) && oracle.validateOpaque == OnlyFails(q)
    ensures FirstDecision(front + rest, profile, oracle, challenges) == Some(Allow)
    decreases |front|
  {
    assert (front + rest)[1..] == front[1..] + rest;
    DecidesWhatever(front[0], profile, oracle, challenges);
    assert front[0] != q && front[0].OauthCapable();
    if !Decides(front[0], profile, oracle) {
      EarlierAllows(front[1..], rest, q, i - 1, profile, oracle, challenges);
    }
  }

  /** Two that decide: put the second in front, and let it alone fail the token. */
  lemma TwoMakeOrderMatter(
    block: seq<Provider>, i: nat, j: nat, profile: Profile, oracle: Oracle, challenges: bool)
    requires OauthBlock(block) && ListedOnce(block)
    requires i < j < |block| && BothDecide(block[i], block[j], profile, oracle)
    ensures !SameInAnyOrder(block, profile, oracle, challenges)
  {
    var q := block[j];
    var other := Outcomes(oracle, OnlyFails(q), OnlyFails(q));
    var front, rest := block[..j], block[j + 1..];
    MovedToFront(block, j);
    assert q !in front;
    EarlierAllows(front, [q] + rest, q, i, profile, other, challenges);
    FailsInFront(q, front + rest, profile, other, challenges);
  }

  lemma MovedToFront(block: seq<Provider>, j: nat)
    requires j < |block|
    ensures block == block[..j] + ([block[j]] + block[j + 1..])
    ensures multiset([block[j]] + (block[..j] + block[j + 1..])) == multiset(block)
  {
    assert block == block[..j] + ([block[j]] + block[j + 1..]);
  }

  lemma FailsInFront(q: Provider, rest: seq<Provider>, profile: Profile, oracle: Oracle, challenges: bool)
    requires q.OauthCapable() && Decides(q, profile, oracle)
    requires oracle.validateJwt == OnlyFails(q) && oracle.validateOpaque == OnlyFails(q)
    ensures FirstDecision([q] + rest, profile, oracle, challenges) != Some(Allow)
  {
    DecidesWhatever(q, profile, oracle, challenges);
    assert Evaluate(q, profile, oracle, challenges).value.Unauthorized?;
  }

  /** Order can never matter exactly when at most one decides. */
  lemma SameExactly(block: seq<Provider>, profile: Profile, oracle: Oracle, challenges: bool)
    requires OauthBlock(block) && ListedOnce(block)
    ensures SameInAnyOrder(block, profile, oracle, challenges) <==> AtMostOneDecides(block, profile, oracle)
  {
    if AtMostOneDecides(block, profile, oracle) {
      OneInAnyOrder(block, profile, oracle, challenges);
    } else {
      var i, j :| 0 <= i < j < |block| && BothDecide(block[i], block[j], profile, oracle);
      TwoMakeOrderMatter(block, i, j, profile, oracle, challenges);
    }
  }

  /**
   When the order of jwks and introspection providers cannot matter, exactly, for each kind of token and
   over all that validation may make of it: for tokens that name an issuer, when no two providers have the
   same one, configured or discovered; for tokens in three parts without one, when no two introspection
   providers take those; for all other tokens, when no two of them introspect.
   */
  lemma OrderMattersExactly(block: seq<Provider>, token: string, oracle: Oracle, challenges: bool)
    requires OauthBlock(block) && ListedOnce(block)
    ensures (forall issuer :: SameInAnyOrder(block, Profile(token, true, Some(issuer)), oracle, challenges))
       <==> EffectiveIssuersDistinct(block, oracle)
    ensures SameInAnyOrder(block, Profile(token, true, None), oracle, challenges) <==> OneIntrospectsMissing(block)
    ensures SameInAnyOrder(block, Profile(token, false, None), oracle, challenges) <==> OneIntrospects(block)
  {
    forall issuer
      ensures SameInAnyOrder(block, Profile(token, true, Some(issuer)), oracle, challenges)
         <==> AtMostOneDecides(block, Profile(token, true, Some(issuer)), oracle)
    {
      SameExactly(block, Profile(token, true, Some(issuer)), oracle, challenges);
    }
    SameExactly(block, Profile(token, true, None), oracle, challenges);
    SameExactly(block, Profile(token, false, None), oracle, challenges);
    OneDecidesExactly(block, token, oracle);
  }

  /** Of an accepted configuration, order can thus matter only for discovered issuers and for opaque tokens. */
  lemma AcceptedOrder(
    auth: Auth, before: seq<Provider>, block: seq<Provider>, after: seq<Provider>,
    token: string, oracle: Oracle, challenges: bool)
    requires Verdict(auth).Ok? && auth.providers == before + block + after && OauthBlock(block)
    ensures SameInAnyOrder(block, Profile(token, true, None), oracle, challenges)
    ensures IssuersConfigured(block) ==>
      forall issuer :: SameInAnyOrder(block, Profile(token, true, Some(issuer)), oracle, challenges)
  {
    VerdictExactly(auth);
    var all, n := auth.providers, |before|;
    forall i, j | 0 <= i < j < |block|
      ensures block[i].name != block[j].name && !SharesIssuer(block[i], block[j])
      ensures !(block[i].AllowsMissingIssuer() && block[j].AllowsMissingIssuer())
    {
      assert block[i] == all[n + i] && block[j] == all[n + j];
    }
    OrderMattersExactly(block, token, oracle, challenges);
  }

  // ---------------------------------------------------------------- where order matters after all

  lemma ThreeParts()
    ensures LooksLikeJwt("x.y.z")
  {
    SplitAt("x", '.', "y.z");
    SplitAt("y", '.', "z");
    SplitWhole("z", '.');
    assert "x.y.z" == "x" + ['.'] + "y.z" && "y.z" == "y" + ['.'] + "z";
  }

  /**
   Startup compares configured issuers only. A provider that discovers an issuer another is configured
   with passes, both decide the same token, and then the order of the two is the answer.
   */
  lemma {:induction false} DiscoveryMakesOrderMatter() returns (p: Provider, q: Provider, oracle: Oracle)
    ensures Verdict(Auth(true, [p, q], Some("r"))).Ok? && Verdict(Auth(true, [q, p], Some("r"))).Ok?
    ensures LooksLikeJwt("x.y.z")
    ensures !IssuersConfigured([p, q]) && SameEffectiveIssuer(p, q, oracle)
    ensures CheckOauth([p, q], Some("x.y.z"), oracle, false) == Allow
    ensures CheckOauth([q, p], Some("x.y.z"), oracle, false) == Unauthorized(None)
  {
    p := Jwks("p", Some("i"), None, []);
    q := Jwks("q", None, Some("d"), []);
    oracle := Oracle(
      _ => Some("i"), (_, provider: Provider) => if provider.name == "p" then Valid else Invalid,
      (_, _) => Invalid, (_, _) => Abstain, _ => Some("i"));
    ThreeParts();
    ProperPair(p, q);
    ProperPair(q, p);
    var profile := TokenProfile("x.y.z", oracle);
    assert profile == Profile("x.y.z", true, Some("i"));
    assert Evaluate(p, profile, oracle, false) == Some(Allow);
    assert Evaluate(q, profile, oracle, false) == Some(Unauthorized(None));
    assert !IssuersConfigured([p, q]) by {
      assert [p, q][1].OauthCapable();
    }
  }

  lemma ProperPair(p: Provider, q: Provider)
    requires p.Jwks? && q.Jwks? && p.name != q.name
    requires p.configuredIssuer == Some("i") || q.configuredIssuer == Some("i")
    requires p.configuredIssuer == None || q.configuredIssuer == None
    requires p.configuredIssuer == None ==> p.discoveryUrl.Some?
    requires q.configuredIssuer == None ==> q.discoveryUrl.Some?
    ensures Verdict(Auth(true, [p, q], Some("r"))).Ok?
  {
    assert Trim("i") == "i" && |NormalizedIssuer("i")| == 1;
    VerdictExactly(Auth(true, [p, q], Some("r")));
  }
}
