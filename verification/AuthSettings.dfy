/**
 Auth providers and what startup demands of them (`validate_auth_settings`,
 src/auth/inbound/factory.rs).
 */
module AuthSettings {
  import opened Wrappers
  import opened Strings

  /** A provider as configured, with what validation and the provider chain look at. */
  datatype Provider =
    | Bearer(name: string, token: string)
    | Jwks(name: string, configuredIssuer: Option<string>, discoveryUrl: Option<string>, scopes: seq<string>)
    | Introspection(name: string, configuredIssuer: Option<string>, allowMissing: bool, scopes: seq<string>)
    | Plugin(name: string, allowMissing: bool, scopes: seq<string>)
  {
    function Issuer(): Option<string> {
      if Jwks? || Introspection? then configuredIssuer else None
    }

    predicate AllowsMissingIssuer() {
      (Introspection? || Plugin?) && allowMissing
    }

    predicate OauthCapable() {
      Jwks? || Introspection?
    }

    function RequiredScopes(): seq<string> {
      if Bearer? then [] else scopes
    }
  }

  datatype Auth = Auth(enabled: bool, providers: seq<Provider>, resource: Option<string>)

  datatype SettingsError =
    | NoProviders
    | DuplicateName(name: string)
    | TwoAllowMissing
    | NoIssuer(name: string)
    | EmptyIssuer(name: string)
    | DuplicateIssuer(existing: string, name: string)
    | TwoBearers
    | NoResource

  function ToLower(s: string): string {
    seq(|s|, i requires 0 <= i < |s| => Lower(s[i]))
  }

  function NormalizedIssuer(issuer: string): string {
    ToLower(Trim(issuer))
  }

  predicate Claims(p: Provider, issuer: string) {
    p.Issuer().Some? && NormalizedIssuer(p.Issuer().value) == issuer
  }

  // ---------------------------------------------------------------- what a proper configuration is

  predicate NamesDistinct(providers: seq<Provider>) {
    forall i, j :: 0 <= i < j < |providers| ==> providers[i].name != providers[j].name
  }

  /** Tokens that name no issuer are something for introspection and plugins alone. */
  predicate TakesMissing(p: Provider) {
    match p
    case Introspection(_, _, allowMissing, _) => allowMissing
    case Plugin(_, allowMissing, _) => allowMissing
    case _ => false
  }

  predicate OneAllowsMissing(providers: seq<Provider>) {
    forall i, j :: 0 <= i < j < |providers| ==> !(TakesMissing(providers[i]) && TakesMissing(providers[j]))
  }

  predicate SharesIssuer(p: Provider, q: Provider) {
    p.Issuer().Some? && q.Issuer().Some? && NormalizedIssuer(p.Issuer().value) == NormalizedIssuer(q.Issuer().value)
  }

  predicate IssuersDistinct(providers: seq<Provider>) {
    forall i, j :: 0 <= i < j < |providers| ==> !SharesIssuer(providers[i], providers[j])
  }

  predicate OneBearer(providers: seq<Provider>) {
    forall i, j :: 0 <= i < j < |providers| ==> !(providers[i].Bearer? && providers[j].Bearer?)
  }

  predicate HasIssuer(p: Provider) {
    && (p.Jwks? ==> p.configuredIssuer.Some? || p.discoveryUrl.Some?)
    && (p.Issuer().Some? ==> NormalizedIssuer(p.Issuer().value) != "")
  }

  predicate AllDistinct(providers: seq<Provider>) {
    && NamesDistinct(providers) && OneAllowsMissing(providers) && IssuersDistinct(providers)
    && forall i :: 0 <= i < |providers| ==> HasIssuer(providers[i])
  }

  predicate HasOauthCapable(providers: seq<Provider>) {
    exists i :: 0 <= i < |providers| && providers[i].OauthCapable()
  }

  predicate WellConfigured(auth: Auth) {
    && auth.providers != []
    && AllDistinct(auth.providers)
    && OneBearer(auth.providers)
    && ((exists p <- auth.providers :: p.Jwks? || p.Introspection?) ==> auth.resource.Some?)
  }

  // ---------------------------------------------------------------- which fault is reported

  predicate NameTaken(providers: seq<Provider>, n: nat, name: string)
    requires n <= |providers|
  {
    exists j :: 0 <= j < n && providers[j].name == name
  }

  predicate MissingAllowed(providers: seq<Provider>, n: nat)
    requires n <= |providers|
  {
    exists j :: 0 <= j < n && providers[j].AllowsMissingIssuer()
  }

  /** The last of the first `n` providers that claims the issuer. */
  function Owner(providers: seq<Provider>, n: nat, issuer: string): (owner: Option<nat>)
    requires n <= |providers|
    ensures owner.Some? ==> owner.value < n && Claims(providers[owner.value], issuer)
    ensures owner.None? ==> forall j :: 0 <= j < n ==> !Claims(providers[j], issuer)
  {
    if n == 0 then None
    else if Claims(providers[n - 1], issuer) then Some(n - 1)
    else Owner(providers, n - 1, issuer)
  }

  /** What is wrong with a provider, given those before it. */
  function Fault(providers: seq<Provider>, i: nat): Option<SettingsError>
    requires i < |providers|
  {
    var p := providers[i];
    if NameTaken(providers, i, p.name) then Some(DuplicateName(p.name))
    else if p.AllowsMissingIssuer() && MissingAllowed(providers, i) then Some(TwoAllowMissing)
    else if p.Jwks? && p.configuredIssuer.None? && p.discoveryUrl.None? then Some(NoIssuer(p.name))
    else IssuerFault(providers, i)
  }

  function IssuerFault(providers: seq<Provider>, i: nat): Option<SettingsError>
    requires i < |providers|
  {
    var p := providers[i];
    if p.Issuer().None? then None
    else
      var issuer := NormalizedIssuer(p.Issuer().value);
      if issuer == "" then Some(EmptyIssuer(p.name))
      else
        match Owner(providers, i, issuer)
        case Some(owner) => Some(DuplicateIssuer(providers[owner].name, p.name))
        case None => None
  }

  function FirstFault(providers: seq<Provider>, i: nat): Option<SettingsError>
    requires i <= |providers|
    decreases |providers| - i
  {
    if i == |providers| then None
    else if Fault(providers, i).Some? then Fault(providers, i)
    else FirstFault(providers, i + 1)
  }

  function Bearers(providers: seq<Provider>, n: nat): (count: nat)
    requires n <= |providers|
    ensures count > 0 <==> exists j :: 0 <= j < n && providers[j].Bearer?
  {
    if n == 0 then 0 else Bearers(providers, n - 1) + if providers[n - 1].Bearer? then 1 else 0
  }

  function Verdict(auth: Auth): Result<(), SettingsError> {
    if auth.providers == [] then Err(NoProviders)
    else
      match FirstFault(auth.providers, 0)
      case Some(error) => Err(error)
      case None =>
        if Bearers(auth.providers, |auth.providers|) > 1 then Err(TwoBearers)
        else if HasOauthCapable(auth.providers) && auth.resource.None? then Err(NoResource)
        else Ok(())
  }

  // ---------------------------------------------------------------- the verdict is right

  lemma {:induction false} NoFaultMeans(providers: seq<Provider>, i: nat)
    requires i <= |providers|
    ensures FirstFault(providers, i).None? <==> forall k :: i <= k < |providers| ==> Fault(providers, k).None?
    decreases |providers| - i
  {
    if i < |providers| {
      NoFaultMeans(providers, i + 1);
    }
  }

  lemma {:induction false} BearersCounted(providers: seq<Provider>, n: nat)
    requires n <= |providers|
    ensures Bearers(providers, n) <= 1 <==> OneBearer(providers[..n])
  {
    if n > 0 {
      BearersCounted(providers, n - 1);
      var front := providers[..n - 1];
      if OneBearer(front) && !providers[n - 1].Bearer? {
        forall i, j | 0 <= i < j < n ensures !(providers[..n][i].Bearer? && providers[..n][j].Bearer?) {
          if j < n - 1 {
            assert front[i] == providers[i] && front[j] == providers[j];
          }
        }
      }
      if OneBearer(providers[..n]) {
        forall i, j | 0 <= i < j < n - 1 ensures !(front[i].Bearer? && front[j].Bearer?) {
          assert providers[..n][i] == front[i] && providers[..n][j] == front[j];
        }
        if Bearers(providers, n - 1) > 0 {
          var j :| 0 <= j < n - 1 && providers[j].Bearer?;
          assert providers[..n][j].Bearer?;
          assert providers[..n][n - 1] == providers[n - 1];
        }
      }
      if !OneBearer(front) {
        var i, j :| 0 <= i < j < n - 1 && front[i].Bearer? && front[j].Bearer?;
        assert providers[..n][i].Bearer? && providers[..n][j].Bearer?;
      }
    }
  }

  predicate FaultFree(providers: seq<Provider>, k: nat)
    requires k < |providers|
  {
    && HasIssuer(providers[k])
    && (forall j :: 0 <= j < k ==> providers[j].name != providers[k].name)
    && (forall j :: 0 <= j < k ==> !(providers[j].AllowsMissingIssuer() && providers[k].AllowsMissingIssuer()))
    && (forall j :: 0 <= j < k ==> !SharesIssuer(providers[j], providers[k]))
  }

  predicate AllFaultFree(providers: seq<Provider>) {
    forall k :: 0 <= k < |providers| ==> FaultFree(providers, k)
  }

  lemma {:induction false} FaultFreeMeansDistinct(providers: seq<Provider>)
    ensures AllFaultFree(providers) ==> AllDistinct(providers)
  {
    if AllFaultFree(providers) {
      forall i, j | 0 <= i < j < |providers|
        ensures providers[i].name != providers[j].name
        ensures !(providers[i].AllowsMissingIssuer() && providers[j].AllowsMissingIssuer())
        ensures !SharesIssuer(providers[i], providers[j])
      {
        assert FaultFree(providers, j);
      }
      forall i | 0 <= i < |providers| ensures HasIssuer(providers[i]) {
        assert FaultFree(providers, i);
      }
    }
  }

  lemma NoFaultExactly(providers: seq<Provider>)
    ensures FirstFault(providers, 0).None? <==> AllFaultFree(providers)
  {
    NoFaultMeans(providers, 0);
    forall k | 0 <= k < |providers| ensures Fault(providers, k).None? <==> FaultFree(providers, k) {
    }
  }

  /** Startup passes exactly the proper configurations. */
  lemma VerdictExactly(auth: Auth)
    ensures Verdict(auth).Ok? <==> WellConfigured(auth)
  {
    var providers := auth.providers;
    NoFaultExactly(providers);
    FaultFreeMeansDistinct(providers);
    BearersCounted(providers, |providers|);
    assert providers[..|providers|] == providers;
  }

  // ---------------------------------------------------------------- and so is the fault it reports

  predicate SameLetter(c: char, d: char) {
    || c == d
    || ('A' <= c <= 'Z' && d as int == c as int + 32)
    || ('A' <= d <= 'Z' && c as int == d as int + 32)
  }

  predicate SameButForCase(a: string, b: string) {
    |a| == |b| && forall i :: 0 <= i < |a| ==> SameLetter(a[i], b[i])
  }

  lemma LowerTells(c: char, d: char)
    ensures Lower(c) == Lower(d) <==> SameLetter(c, d)
  {
  }

  /** Space around an issuer and the case of ASCII letters tell no issuers apart; anything else does. */
  lemma SameIssuer(a: string, b: string, left: string, right: string, before: string, after: string)
    requires AllWhite(left) && AllWhite(right) && AllWhite(before) && AllWhite(after)
    requires Trimmed(a) && Trimmed(b)
    ensures NormalizedIssuer(left + a + right) == NormalizedIssuer(before + b + after) <==> SameButForCase(a, b)
    ensures NormalizedIssuer(left + a + right) == "" <==> a == ""
  {
    TrimsPadding(left, a, right);
    TrimsPadding(before, b, after);
    forall i | 0 <= i < |a| && i < |b| ensures Lower(a[i]) == Lower(b[i]) <==> SameLetter(a[i], b[i]) {
      LowerTells(a[i], b[i]);
    }
    if NormalizedIssuer(left + a + right) == NormalizedIssuer(before + b + after) {
      assert |ToLower(a)| == |ToLower(b)|;
      forall i | 0 <= i < |a| ensures SameLetter(a[i], b[i]) {
        assert ToLower(a)[i] == ToLower(b)[i];
      }
    }
  }

  /** The error names something that is wrong with the `j`-th provider, with those before it in view. */
  predicate FaultAt(providers: seq<Provider>, j: nat, error: SettingsError)
    requires j < |providers|
  {
    var p := providers[j];
    match error
    case DuplicateName(name) => p.name == name && NameTaken(providers, j, name)
    case TwoAllowMissing => p.AllowsMissingIssuer() && MissingAllowed(providers, j)
    case NoIssuer(name) => p.name == name && p.Jwks? && p.configuredIssuer.None? && p.discoveryUrl.None?
    case EmptyIssuer(name) => p.name == name && p.Issuer().Some? && NormalizedIssuer(p.Issuer().value) == ""
    case DuplicateIssuer(existing, name) =>
      p.name == name && exists i :: 0 <= i < j && providers[i].name == existing && SharesIssuer(providers[i], p)
    case _ => false
  }

  /** What is looked at first. */
  function Rank(error: SettingsError): nat {
    match error
    case DuplicateName(_) => 0
    case TwoAllowMissing => 1
    case NoIssuer(_) => 2
    case EmptyIssuer(_) => 3
    case _ => 4
  }

  /** Nothing is wrong with the providers before the `j`-th, and nothing that is looked at sooner with it. */
  ghost predicate FirstFaultAt(providers: seq<Provider>, j: nat, error: SettingsError) {
    && j < |providers| && (forall k :: 0 <= k < j ==> FaultFree(providers, k))
    && FaultAt(providers, j, error)
    && forall other :: FaultAt(providers, j, other) ==> Rank(error) <= Rank(other)
  }

  lemma FaultMeans(providers: seq<Provider>, j: nat)
    requires j < |providers|
    ensures Fault(providers, j).None? <==> FaultFree(providers, j)
    ensures Fault(providers, j).Some? ==>
              var error := Fault(providers, j).value;
              && FaultAt(providers, j, error)
              && forall other :: FaultAt(providers, j, other) ==> Rank(error) <= Rank(other)
  {
  }

  lemma {:induction false} FirstFaultMeans(providers: seq<Provider>, i: nat) returns (j: nat)
    requires i <= |providers| && FirstFault(providers, i).Some?
    requires forall k :: 0 <= k < i ==> FaultFree(providers, k)
    ensures FirstFaultAt(providers, j, FirstFault(providers, i).value)
    decreases |providers| - i
  {
    FaultMeans(providers, i);
    if Fault(providers, i).Some? {
      j := i;
    } else {
      j := FirstFaultMeans(providers, i + 1);
    }
  }

  /** The error of a configuration that is not proper: the first thing wrong with its first bad provider. */
  lemma FaultReported(auth: Auth)
    requires Verdict(auth).Err?
    ensures
      var providers, error := auth.providers, Verdict(auth).error;
      if providers == [] then error == NoProviders
      else if !AllDistinct(providers) then exists j :: FirstFaultAt(providers, j, error)
      else if !OneBearer(providers) then error == TwoBearers
      else error == NoResource && HasOauthCapable(providers) && auth.resource.None?
  {
    var providers := auth.providers;
    NoFaultExactly(providers);
    FaultFreeMeansDistinct(providers);
    BearersCounted(providers, |providers|);
    assert providers[..|providers|] == providers;
    if FirstFault(providers, 0).Some? {
      var j := FirstFaultMeans(providers, 0);
      assert !FaultFree(providers, j);
      NotDistinct(providers, j);
    }
  }

  lemma NotDistinct(providers: seq<Provider>, j: nat)
    requires j < |providers| && !FaultFree(providers, j)
    ensures !AllDistinct(providers)
  {
  }

  // ---------------------------------------------------------------- the loop

  /** The issuers seen, with a provider's own. */
  function WithIssuer(seen: map<string, string>, p: Provider): map<string, string> {
    if p.Issuer().Some? then seen[NormalizedIssuer(p.Issuer().value) := p.name] else seen
  }

  lemma IssuersGrow(seen: map<string, string>, providers: seq<Provider>, i: nat)
    requires i < |providers| && IssuersSeen(seen, providers, i)
    ensures IssuersSeen(WithIssuer(seen, providers[i]), providers, i + 1)
  {
    var n := i + 1;
    forall issuer ensures IssuerSeen(WithIssuer(seen, providers[i]), providers, n, issuer) {
      assert IssuerSeen(seen, providers, i, issuer);
    }
  }

  /** `validate_auth_settings`; `None` is a server without an auth section. */
  method ValidateAuthSettings(settings: Option<Auth>) returns (r: Result<(), SettingsError>)
    ensures settings.None? || !settings.value.enabled ==> r == Ok(())
    ensures settings.Some? && settings.value.enabled ==> r == Verdict(settings.value)
  {
    if settings.None? || !settings.value.enabled {
      return Ok(());
    }
    var providers := settings.value.providers;
    if providers == [] {
      return Err(NoProviders);
    }
    var seenNames: set<string> := {};
    var seenIssuers: map<string, string> := map[];
    var allowMissing: nat, bearers: nat := 0, 0;
    var i := 0;
    while i < |providers|
      invariant 0 <= i <= |providers|
      invariant FirstFault(providers, 0) == FirstFault(providers, i)
      invariant NamesSeen(seenNames, providers, i)
      invariant allowMissing > 0 <==> MissingAllowed(providers, i)
      invariant bearers == Bearers(providers, i)
      invariant IssuersSeen(seenIssuers, providers, i)
    {
      var p := providers[i];
      if p.name in seenNames {
        return Err(DuplicateName(p.name));
      }
      NamesGrow(seenNames, providers, i);
      seenNames := seenNames + {p.name};
      if p.Bearer? {
        bearers := bearers + 1;
      }
      if p.AllowsMissingIssuer() {
        allowMissing := allowMissing + 1;
        if allowMissing > 1 {
          return Err(TwoAllowMissing);
        }
      }
      if p.Jwks? && p.Issuer().None? && p.discoveryUrl.None? {
        return Err(NoIssuer(p.name));
      }
      ghost var seenBefore := seenIssuers;
      if p.Issuer().Some? {
        var issuer := NormalizedIssuer(p.Issuer().value);
        if issuer == "" {
          return Err(EmptyIssuer(p.name));
        }
        assert IssuerSeen(seenIssuers, providers, i, issuer);
        if issuer in seenIssuers {
          return Err(DuplicateIssuer(seenIssuers[issuer], p.name));
        }
        seenIssuers := seenIssuers[issuer := p.name];
      }
      IssuersGrow(seenBefore, providers, i);
      i := i + 1;
    }
    if bearers > 1 {
      return Err(TwoBearers);
    }
    if HasOauthCapable(providers) && settings.value.resource.None? {
      return Err(NoResource);
    }
    return Ok(());
  }

  ghost predicate NamesSeen(seen: set<string>, providers: seq<Provider>, n: nat)
    requires n <= |providers|
  {
    forall name :: name in seen <==> NameTaken(providers, n, name)
  }

  lemma NamesGrow(seen: set<string>, providers: seq<Provider>, i: nat)
    requires i < |providers| && NamesSeen(seen, providers, i)
    ensures NamesSeen(seen + {providers[i].name}, providers, i + 1)
  {
  }

  ghost predicate IssuersSeen(seen: map<string, string>, providers: seq<Provider>, n: nat)
    requires n <= |providers|
  {
    forall issuer :: IssuerSeen(seen, providers, n, issuer)
  }

  ghost predicate IssuerSeen(seen: map<string, string>, providers: seq<Provider>, n: nat, issuer: string)
    requires n <= |providers|
  {
    match Owner(providers, n, issuer)
    case Some(owner) => issuer in seen && seen[issuer] == providers[owner].name
    case None => issuer !in seen
  }
}
