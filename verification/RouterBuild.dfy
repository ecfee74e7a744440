/**
 Building the router in place (src/http/router.rs): target normalization, the loop over plugins, and
 the mutable state their operations are applied to.
 */
module RouterBuild {
  import opened Wrappers
  import opened Strings
  import opened RouterPlugins

  // ---------------------------------------------------------------- targets

  /** `normalize_target_path`. */
  function NormalizeTargetPath(path: string): Result<string, RouterError> {
    var trimmed := Trim(path);
    if trimmed == "" then Err(EmptyPath)
    else if trimmed == "*" then Ok("*")
    else if trimmed == "/" then Ok("/")
    else
      var bare := TrimEndMatches(trimmed, '/');
      if "/" <= bare then Ok(bare) else Ok("/" + bare)
  }

  /** A path from the root that ends in no slash but the root's own. */
  predicate Rooted(path: string) {
    "/" <= path && (path == "/" || !EndsWith(path, '/'))
  }

  predicate AllSlashes(s: string) {
    forall c <- s :: c == '/'
  }

  function WithRoot(path: string): string {
    if "/" <= path then path else "/" + path
  }

  /** `out` is `full` without some of the slashes it ends in. */
  predicate LacksOnlySlashes(out: string, full: string) {
    0 < |out| <= |full| && out == full[..|out|] && AllSlashes(full[|out|..])
  }

  lemma RootAdded(bare: string, trimmed: string)
    requires 0 < |bare| <= |trimmed| && bare == trimmed[..|bare|] && AllSlashes(trimmed[|bare|..])
    ensures LacksOnlySlashes(WithRoot(bare), WithRoot(trimmed))
  {
    assert bare[0] == trimmed[0];
    assert "/" <= bare <==> bare[0] == '/';
    assert "/" <= trimmed <==> trimmed[0] == '/';
    if bare[0] != '/' {
      var full := "/" + trimmed;
      assert full[..|bare| + 1] == "/" + bare;
      assert full[|bare| + 1..] == trimmed[|bare|..];
    }
  }

  lemma OnlySlashes(trimmed: string)
    requires trimmed != "" && AllSlashes(trimmed)
    ensures LacksOnlySlashes("/", WithRoot(trimmed))
  {
    assert trimmed[0] in trimmed;
    assert trimmed[..1] == "/";
    forall c | c in trimmed[1..] ensures c == '/' {
      assert c in trimmed;
    }
  }

  /**
   The text of a path: the trimmed one, with a slash in front where there was none, without the slashes
   at its end, of which one stays where there is nothing else. Being rooted, it is the only such text.
   */
  lemma NormalizedText(path: string)
    requires Trim(path) !in {"", "*"}
    ensures NormalizeTargetPath(path).Ok?
    ensures LacksOnlySlashes(NormalizeTargetPath(path).value, WithRoot(Trim(path)))
  {
    var trimmed := Trim(path);
    var bare := TrimEndMatches(trimmed, '/');
    if bare == "" {
      assert trimmed[|bare|..] == trimmed;
      OnlySlashes(trimmed);
      assert "/" + bare == "/";
    } else {
      RootAdded(bare, trimmed);
    }
  }

  /** Only a blank path is refused; everything else but the lone star comes out rooted. */
  lemma NormalizedShape(path: string)
    ensures NormalizeTargetPath(path).Err? <==> Trim(path) == ""
    ensures NormalizeTargetPath(path) == Ok("*") <==> Trim(path) == "*"
    ensures NormalizeTargetPath(path).Ok? && Trim(path) != "*" ==> Rooted(NormalizeTargetPath(path).value)
  {
    var bare := TrimEndMatches(Trim(path), '/');
    assert ("/" + bare)[0] == '/';
    if bare != "" {
      assert ("/" + bare)[|bare|] == bare[|bare| - 1];
    }
  }

  function NormalizeTarget(target: Target): Result<Target, RouterError> {
    match NormalizeTargetPath(target.path)
    case Err(error) => Err(error)
    case Ok(path) =>
      if target.kind.RouteTarget? && path == "*" then Err(WildcardRoute) else Ok(target.(path := path))
  }

  /**
   A target keeps its kind. A blank path is refused, and every path for a route; a path that is neither comes
   out rooted, with nothing but slashes gone from its end.
   */
  lemma TargetExactly(target: Target)
    ensures NormalizeTarget(target) == Err(EmptyPath) <==> Trim(target.path) == ""
    ensures NormalizeTarget(target) == Err(WildcardRoute) <==> Trim(target.path) == "*" && target.kind.RouteTarget?
    ensures NormalizeTarget(target) == Ok(Target(WrapTarget, "*"))
       <==> Trim(target.path) == "*" && target.kind.WrapTarget?
    ensures Trim(target.path) !in {"", "*"} ==>
              && NormalizeTarget(target).Ok? && NormalizeTarget(target).value.kind == target.kind
              && Rooted(NormalizeTarget(target).value.path)
              && LacksOnlySlashes(NormalizeTarget(target).value.path, WithRoot(Trim(target.path)))
  {
    NormalizedShape(target.path);
    if Trim(target.path) !in {"", "*"} {
      NormalizedText(target.path);
    }
  }

  predicate AllNormalized(targets: seq<Target>, out: seq<Target>) {
    |out| == |targets| && forall i :: 0 <= i < |targets| ==> NormalizeTarget(targets[i]) == Ok(out[i])
  }

  predicate FailsFirst(targets: seq<Target>, i: nat, error: RouterError) {
    && i < |targets| && NormalizeTarget(targets[i]) == Err(error)
    && forall j :: 0 <= j < i ==> NormalizeTarget(targets[j]).Ok?
  }

  function NormalizeAll(targets: seq<Target>): Result<seq<Target>, RouterError>
    decreases |targets|
  {
    if targets == [] then Ok([])
    else
      match NormalizeAll(targets[..|targets| - 1])
      case Err(error) => Err(error)
      case Ok(out) =>
        match NormalizeTarget(targets[|targets| - 1])
        case Err(error) => Err(error)
        case Ok(last) => Ok(out + [last])
  }

  ghost predicate FirstFailure(targets: seq<Target>, error: RouterError) {
    exists i: nat :: FailsFirst(targets, i, error)
  }

  lemma NormalizedSnoc(targets: seq<Target>, n: nat, out: seq<Target>, last: Target)
    requires |targets| == n + 1 && AllNormalized(targets[..n], out) && NormalizeTarget(targets[n]) == Ok(last)
    ensures AllNormalized(targets, out + [last])
  {
    var all := out + [last];
    forall i | 0 <= i < |targets| ensures NormalizeTarget(targets[i]) == Ok(all[i]) {
      if i < n {
        assert targets[..n][i] == targets[i];
      }
    }
  }

  lemma FailureSnoc(targets: seq<Target>, n: nat, error: RouterError)
    requires n <= |targets| && FirstFailure(targets[..n], error)
    ensures FirstFailure(targets, error)
  {
    var i: nat :| FailsFirst(targets[..n], i, error);
    forall j | 0 <= j < i ensures NormalizeTarget(targets[j]).Ok? {
      assert targets[..n][j] == targets[j];
    }
    assert targets[..n][i] == targets[i];
    assert FailsFirst(targets, i, error);
  }

  lemma FailureLast(targets: seq<Target>, n: nat, out: seq<Target>, error: RouterError)
    requires |targets| == n + 1 && AllNormalized(targets[..n], out) && NormalizeTarget(targets[n]) == Err(error)
    ensures FirstFailure(targets, error)
  {
    forall j | 0 <= j < n ensures NormalizeTarget(targets[j]).Ok? {
      assert targets[..n][j] == targets[j];
    }
    assert FailsFirst(targets, n, error);
  }

  /** Every target comes out normalized, or the first that cannot be says why. */
  lemma {:induction false} NormalizedExactly(targets: seq<Target>)
    ensures
      match NormalizeAll(targets)
      case Ok(out) => AllNormalized(targets, out)
      case Err(error) => FirstFailure(targets, error)
    decreases |targets|
  {
    if targets != [] {
      var n := |targets| - 1;
      NormalizedExactly(targets[..n]);
      match NormalizeAll(targets[..n]) {
        case Err(error) => FailureSnoc(targets, n, error);
        case Ok(out) =>
          match NormalizeTarget(targets[n]) {
            case Err(error) => FailureLast(targets, n, out, error);
            case Ok(last) => NormalizedSnoc(targets, n, out, last);
          }
      }
    }
  }

  /** `normalize_targets`: every target normalized, or the first one that cannot be. */
  method NormalizeTargets(targets: seq<Target>) returns (r: Result<seq<Target>, RouterError>)
    ensures targets == [] ==> r == Err(NoTargets)
    ensures targets != [] ==> r == NormalizeAll(targets)
  {
    if targets == [] {
      return Err(NoTargets);
    }
    var out := [];
    var k := 0;
    while k < |targets|
      invariant 0 <= k <= |targets|
      invariant NormalizeAll(targets[..k]) == Ok(out)
    {
      assert targets[..k + 1][..k] == targets[..k];
      var target := NormalizeTarget(targets[k]);
      if target.Err? {
        NormalizeStops(targets, k + 1);
        return Err(target.error);
      }
      out := out + [target.value];
      k := k + 1;
    }
    assert targets[..k] == targets;
    return Ok(out);
  }

  lemma {:induction false} NormalizeStops(targets: seq<Target>, k: nat)
    requires k <= |targets| && NormalizeAll(targets[..k]).Err?
    ensures NormalizeAll(targets) == NormalizeAll(targets[..k])
    decreases |targets|
  {
    if k < |targets| {
      var front := targets[..|targets| - 1];
      assert front[..k] == targets[..k];
      NormalizeStops(front, k);
    } else {
      assert targets[..k] == targets;
    }
  }

  // ---------------------------------------------------------------- what plugins declare

  datatype Plugin = Plugin(name: string, targets: seq<Target>)

  datatype Answer = Unregistered | Failed(reason: string) | Ops(ops: seq<Op>)

  /** What the plugin configured at a position answers for its targets. */
  type Answers = (nat, seq<Target>) -> Answer

  function Zip(plugin: string, targets: seq<Target>, ops: seq<Op>): seq<Step> {
    var n := if |targets| < |ops| then |targets| else |ops|;
    seq(n, i requires 0 <= i < n => Step(plugin, i, targets[i], ops[i]))
  }

  /** The steps one plugin declares, or why it declares none. */
  function StepsOf(plugin: Plugin, position: nat, answers: Answers): Result<seq<Step>, RouterError> {
    if plugin.targets == [] then Err(RequiresTargets(plugin.name))
    else
      match NormalizeAll(plugin.targets)
      case Err(error) => Err(error)
      case Ok(targets) =>
        match answers(position, targets)
        case Unregistered => Err(NotRegistered(plugin.name))
        case Failed(reason) => Err(PluginFailed(reason))
        case Ops(ops) =>
          if |ops| != |targets| then Err(WrongOpCount(plugin.name, |ops|, |targets|))
          else Ok(Zip(plugin.name, targets, ops))
  }

  /** The steps of all plugins from a position on. */
  function AllSteps(plugins: seq<Plugin>, position: nat, answers: Answers): Result<seq<Step>, RouterError>
    decreases |plugins| - position
  {
    if position >= |plugins| then Ok([])
    else
      match StepsOf(plugins[position], position, answers)
      case Err(error) => Err(error)
      case Ok(steps) =>
        match AllSteps(plugins, position + 1, answers)
        case Err(error) => Err(error)
        case Ok(more) => Ok(steps + more)
  }

  // ---------------------------------------------------------------- what that comes to

  function TargetsOf(steps: seq<Step>): seq<Target> {
    seq(|steps|, i requires 0 <= i < |steps| => steps[i].target)
  }

  function OpsOf(steps: seq<Step>): seq<Op> {
    seq(|steps|, i requires 0 <= i < |steps| => steps[i].op)
  }

  predicate Numbered(steps: seq<Step>, plugin: string) {
    forall i :: 0 <= i < |steps| ==> steps[i].plugin == plugin && steps[i].index == i
  }

  /** One step for each target, in order: the target normalized, with the operation answered for it. */
  predicate Declares(plugin: Plugin, position: nat, answers: Answers, steps: seq<Step>) {
    && plugin.targets != [] && AllNormalized(plugin.targets, TargetsOf(steps))
    && answers(position, TargetsOf(steps)) == Ops(OpsOf(steps))
    && Numbered(steps, plugin.name)
  }

  /** The steps of all plugins from a position on, those of each plugin after those of the one before. */
  predicate DeclaresAll(plugins: seq<Plugin>, position: nat, answers: Answers, steps: seq<Step>)
    decreases |plugins| - position
  {
    if position >= |plugins| then steps == []
    else
      var n := |plugins[position].targets|;
      && n <= |steps| && Declares(plugins[position], position, answers, steps[..n])
      && DeclaresAll(plugins, position + 1, answers, steps[n..])
  }

  ghost predicate SomeFailure(targets: seq<Target>) {
    exists error :: FirstFailure(targets, error)
  }

  predicate AnswersBadly(
    plugin: Plugin, position: nat, answers: Answers, targets: seq<Target>, error: RouterError)
  {
    match answers(position, targets)
    case Unregistered => error == NotRegistered(plugin.name)
    case Failed(reason) => error == PluginFailed(reason)
    case Ops(ops) => |ops| != |targets| && error == WrongOpCount(plugin.name, |ops|, |targets|)
  }

  /** Why a plugin declares nothing. */
  ghost predicate Improper(plugin: Plugin, position: nat, answers: Answers, error: RouterError) {
    if plugin.targets == [] then error == RequiresTargets(plugin.name)
    else if SomeFailure(plugin.targets) then FirstFailure(plugin.targets, error)
    else
      exists targets ::
        AllNormalized(plugin.targets, targets) && AnswersBadly(plugin, position, answers, targets, error)
  }

  lemma NormalizedOnlyOneWay(targets: seq<Target>, out: seq<Target>)
    ensures AllNormalized(targets, out) <==> NormalizeAll(targets) == Ok(out)
    ensures NormalizeAll(targets).Ok? ==> !SomeFailure(targets)
  {
    NormalizedExactly(targets);
    match NormalizeAll(targets) {
      case Ok(all) =>
        assert forall i :: 0 <= i < |targets| ==> NormalizeTarget(targets[i]) == Ok(all[i]);
        if AllNormalized(targets, out) {
          forall i | 0 <= i < |out| ensures out[i] == all[i] {
            assert Ok(out[i]) == NormalizeTarget(targets[i]) == Ok(all[i]);
          }
          assert out == all;
        }
      case Err(error) =>
        var i: nat :| FailsFirst(targets, i, error);
        assert NormalizeTarget(targets[i]).Err?;
    }
  }

  lemma ZipPairs(plugin: string, targets: seq<Target>, ops: seq<Op>, steps: seq<Step>)
    requires |ops| == |targets|
    ensures steps == Zip(plugin, targets, ops)
       <==> TargetsOf(steps) == targets && OpsOf(steps) == ops && Numbered(steps, plugin)
  {
    if TargetsOf(steps) == targets && OpsOf(steps) == ops && Numbered(steps, plugin) {
      forall i | 0 <= i < |steps| ensures steps[i] == Zip(plugin, targets, ops)[i] {
        assert steps[i].target == TargetsOf(steps)[i] && steps[i].op == OpsOf(steps)[i];
      }
    }
  }

  /** A plugin that answers properly declares exactly those steps; else the error says why it does not. */
  lemma StepsOfExactly(plugin: Plugin, position: nat, answers: Answers, steps: seq<Step>)
    ensures StepsOf(plugin, position, answers) == Ok(steps) <==> Declares(plugin, position, answers, steps)
    ensures StepsOf(plugin, position, answers).Err? ==>
              Improper(plugin, position, answers, StepsOf(plugin, position, answers).error)
  {
    NormalizedExactly(plugin.targets);
    NormalizedOnlyOneWay(plugin.targets, TargetsOf(steps));
    if NormalizeAll(plugin.targets).Ok? {
      var targets := NormalizeAll(plugin.targets).value;
      NormalizedOnlyOneWay(plugin.targets, targets);
      var answer := answers(position, targets);
      if answer.Ops? && |answer.ops| == |targets| {
        ZipPairs(plugin.name, targets, answer.ops, steps);
      }
    }
  }

  lemma InTwo(steps: seq<Step>, a: seq<Step>, b: seq<Step>)
    ensures steps == a + b <==> |a| <= |steps| && steps[..|a|] == a && steps[|a|..] == b
  {
  }

  lemma DeclaredCount(plugin: Plugin, position: nat, answers: Answers, steps: seq<Step>)
    requires Declares(plugin, position, answers, steps)
    ensures |steps| == |plugin.targets|
  {
    assert |TargetsOf(steps)| == |steps|;
  }

  lemma {:induction false} AllStepsExactly(plugins: seq<Plugin>, position: nat, answers: Answers, steps: seq<Step>)
    ensures AllSteps(plugins, position, answers) == Ok(steps) <==> DeclaresAll(plugins, position, answers, steps)
    decreases |plugins| - position
  {
    if position < |plugins| {
      var plugin := plugins[position];
      var first, rest := StepsOf(plugin, position, answers), AllSteps(plugins, position + 1, answers);
      var n := |plugin.targets|;
      if first.Ok? {
        StepsOfExactly(plugin, position, answers, first.value);
        DeclaredCount(plugin, position, answers, first.value);
        if rest.Ok? {
          InTwo(steps, first.value, rest.value);
        }
      }
      if n <= |steps| {
        StepsOfExactly(plugin, position, answers, steps[..n]);
        AllStepsExactly(plugins, position + 1, answers, steps[n..]);
      }
    }
  }

  // ---------------------------------------------------------------- the loop over plugins

  /** As far as a declaration is accepted. */
  function Reached(s: State, steps: seq<Step>): State
    decreases |steps|
  {
    if steps == [] then s
    else
      match Apply(s, steps[0])
      case Err(_) => s
      case Ok(next) => Reached(next, steps[1..])
  }

  /** `process_plugins`: each plugin is asked only when those before it were applied. */
  function Process(s: State, plugins: seq<Plugin>, position: nat, answers: Answers): Result<State, RouterError>
    decreases |plugins| - position
  {
    if position >= |plugins| then Ok(s)
    else
      match StepsOf(plugins[position], position, answers)
      case Err(error) => Err(error)
      case Ok(steps) =>
        match ApplyAll(s, steps)
        case Err(error) => Err(error)
        case Ok(next) => Process(next, plugins, position + 1, answers)
  }

  lemma {:induction false} ApplyInParts(s: State, a: seq<Step>, b: seq<Step>)
    ensures ApplyAll(s, a + b) == match ApplyAll(s, a) case Ok(t) => ApplyAll(t, b) case Err(error) => Err(error)
    decreases |a|
  {
    if a == [] {
      assert a + b == b;
    } else {
      assert (a + b)[1..] == a[1..] + b;
      if Apply(s, a[0]).Ok? {
        ApplyInParts(Apply(s, a[0]).value, a[1..], b);
      }
    }
  }

  /** A plugin's answer applied after `before`. */
  function AppliedAfter(s: State, before: seq<Step>, answer: Result<seq<Step>, RouterError>)
    : Result<State, RouterError>
  {
    if answer.Err? then Err(answer.error) else ApplyAll(s, before + answer.value)
  }

  /**
   The build stops at the `k`-th plugin: all before it answered properly and were applied, and `error` is what
   is wrong with its answer, or what applying its steps after theirs comes to.
   */
  predicate StopsAt(
    s: State, plugins: seq<Plugin>, position: nat, answers: Answers, k: nat, error: RouterError)
  {
    && position <= k < |plugins|
    && AllSteps(plugins[..k], position, answers).Ok?
    && ApplyAll(s, AllSteps(plugins[..k], position, answers).value).Ok?
    && AppliedAfter(s, AllSteps(plugins[..k], position, answers).value, StepsOf(plugins[k], k, answers)) == Err(error)
  }

  ghost predicate Stops(s: State, plugins: seq<Plugin>, position: nat, answers: Answers, error: RouterError) {
    exists k: nat :: StopsAt(s, plugins, position, answers, k, error)
  }

  lemma AppliedInParts(
    s: State, first: seq<Step>, rest: seq<Step>, answer: Result<seq<Step>, RouterError>)
    requires ApplyAll(s, first).Ok?
    ensures AppliedAfter(s, first + rest, answer) == AppliedAfter(ApplyAll(s, first).value, rest, answer)
  {
    if answer.Ok? {
      assert first + rest + answer.value == first + (rest + answer.value);
      ApplyInParts(s, first, rest + answer.value);
    }
  }

  lemma AllStepsFirst(plugins: seq<Plugin>, position: nat, k: nat, answers: Answers, first: seq<Step>)
    requires position < k <= |plugins| && StepsOf(plugins[position], position, answers) == Ok(first)
    requires AllSteps(plugins[..k], position + 1, answers).Ok?
    ensures AllSteps(plugins[..k], position, answers) == Ok(first + AllSteps(plugins[..k], position + 1, answers).value)
  {
    assert plugins[..k][position] == plugins[position];
  }

  lemma StopsLater(
    s: State, plugins: seq<Plugin>, position: nat, answers: Answers, first: seq<Step>, k: nat, error: RouterError)
    requires position < |plugins| && StepsOf(plugins[position], position, answers) == Ok(first)
    requires ApplyAll(s, first).Ok? && StopsAt(ApplyAll(s, first).value, plugins, position + 1, answers, k, error)
    ensures StopsAt(s, plugins, position, answers, k, error)
  {
    var rest := AllSteps(plugins[..k], position + 1, answers).value;
    AllStepsFirst(plugins, position, k, answers, first);
    ApplyInParts(s, first, rest);
    AppliedInParts(s, first, rest, StepsOf(plugins[k], k, answers));
  }

  lemma StopsHere(s: State, plugins: seq<Plugin>, position: nat, answers: Answers, error: RouterError)
    requires position < |plugins|
    requires AppliedAfter(s, [], StepsOf(plugins[position], position, answers)) == Err(error)
    ensures StopsAt(s, plugins, position, answers, position, error)
  {
    assert AllSteps(plugins[..position], position, answers) == Ok([]);
  }

  /**
   Asking and applying plugin by plugin comes to applying all they declare, where all answer properly; where
   it fails, the error is that of the plugin it stops at.
   */
  lemma {:induction false} ProcessAppliesAll(s: State, plugins: seq<Plugin>, position: nat, answers: Answers)
    ensures
      var steps, r := AllSteps(plugins, position, answers), Process(s, plugins, position, answers);
      && (steps.Ok? ==> r == ApplyAll(s, steps.value))
      && (steps.Err? ==> r.Err?)
      && (r.Err? ==> Stops(s, plugins, position, answers, r.error))
    decreases |plugins| - position
  {
    if position < |plugins| {
      var first := StepsOf(plugins[position], position, answers);
      var rest := AllSteps(plugins, position + 1, answers);
      var r := Process(s, plugins, position, answers);
      if first.Ok? && ApplyAll(s, first.value).Ok? {
        var next := ApplyAll(s, first.value).value;
        ProcessAppliesAll(next, plugins, position + 1, answers);
        if rest.Ok? {
          ApplyInParts(s, first.value, rest.value);
        }
        if r.Err? {
          var k: nat :| StopsAt(next, plugins, position + 1, answers, k, r.error);
          StopsLater(s, plugins, position, answers, first.value, k, r.error);
        }
      } else {
        if first.Ok? && rest.Ok? {
          ApplyInParts(s, first.value, rest.value);
        }
        if first.Ok? {
          assert [] + first.value == first.value;
        }
        StopsHere(s, plugins, position, answers, r.error);
      }
    }
  }

  /** What is wrong with a plugin's answer, or with its steps after `before`. */
  ghost predicate GivesCause(
    s: State, before: seq<Step>, plugin: Plugin, position: nat, answers: Answers, error: RouterError)
  {
    || Improper(plugin, position, answers, error)
    || exists steps :: Declares(plugin, position, answers, steps) && FirstObjection(s, before + steps, error)
  }

  /** All plugins before the `k`-th answer properly and without objection, and the `k`-th gives cause. */
  ghost predicate FailsWith(
    s: State, plugins: seq<Plugin>, answers: Answers, k: nat, before: seq<Step>, error: RouterError)
  {
    && k < |plugins| && DeclaresAll(plugins[..k], 0, answers, before) && NoObjection(s, before)
    && GivesCause(s, before, plugins[k], k, answers, error)
  }

  /** A failed build fails with the error of the first plugin that gives cause. */
  ghost predicate FailsFor(s: State, plugins: seq<Plugin>, answers: Answers, error: RouterError) {
    exists k: nat, before :: FailsWith(s, plugins, answers, k, before, error)
  }

  lemma StopsMeans(s: State, plugins: seq<Plugin>, answers: Answers, error: RouterError)
    requires Consistent(s) && Stops(s, plugins, 0, answers, error)
    ensures FailsFor(s, plugins, answers, error)
  {
    var k: nat :| StopsAt(s, plugins, 0, answers, k, error);
    var before, answer := AllSteps(plugins[..k], 0, answers).value, StepsOf(plugins[k], k, answers);
    AcceptedExactly(s, before);
    AllStepsExactly(plugins[..k], 0, answers, before);
    var steps := if answer.Ok? then answer.value else [];
    StepsOfExactly(plugins[k], k, answers, steps);
    if answer.Ok? {
      AcceptedExactly(s, before + steps);
    }
    assert FailsWith(s, plugins, answers, k, before, error);
  }

  /** What a build must come to, from what the plugins themselves answer. */
  ghost predicate Builds(
    mcp: Router, hardening: seq<Layer>, app: Router, endpoint: string, oauthEnabled: bool,
    plugins: seq<Plugin>, answers: Answers, r: Result<Router, RouterError>)
  {
    var s := Start(mcp, hardening, app, endpoint, oauthEnabled);
    match r
    case Ok(router) => exists steps ::
      DeclaresAll(plugins, 0, answers, steps) && NoObjection(s, steps)
      && router == Declared(mcp, hardening, app, endpoint, steps)
    case Err(error) =>
      && FailsFor(s, plugins, answers, error)
      && forall steps :: !(DeclaresAll(plugins, 0, answers, steps) && NoObjection(s, steps))
  }

  /**
   The router that comes of any plugins, when it comes: the declared one. And it comes exactly when every
   plugin answers properly and no step is objected to; else the error is that of the first that gives cause.
   */
  lemma BuildsTheDeclared(
    mcp: Router, hardening: seq<Layer>, app: Router, endpoint: string, oauthEnabled: bool,
    plugins: seq<Plugin>, answers: Answers)
    ensures
      Builds(mcp, hardening, app, endpoint, oauthEnabled, plugins, answers,
        match Process(Start(mcp, hardening, app, endpoint, oauthEnabled), plugins, 0, answers)
        case Ok(end) => Ok(Assemble(end))
        case Err(error) => Err(error))
  {
    var s := Start(mcp, hardening, app, endpoint, oauthEnabled);
    var all, r := AllSteps(plugins, 0, answers), Process(s, plugins, 0, answers);
    ProcessAppliesAll(s, plugins, 0, answers);
    forall steps ensures DeclaresAll(plugins, 0, answers, steps) <==> all == Ok(steps) {
      AllStepsExactly(plugins, 0, answers, steps);
    }
    if all.Ok? {
      AcceptedExactly(s, all.value);
      if r.Err? {
        var i: nat :| ObjectsFirst(s, all.value, i, r.error);
      } else {
        RouterIsDeclared(mcp, hardening, app, endpoint, oauthEnabled, all.value);
        assert DeclaresAll(plugins, 0, answers, all.value);
      }
    }
    if r.Err? {
      StopsMeans(s, plugins, answers, r.error);
    }
  }

  /**
   After any accepted declaration, a further route is refused exactly at the endpoint, at a path declared
   before, and, with OAuth on, at the metadata path and at the endpoint's own one below it.
   */
  lemma RouteCollides(
    mcp: Router, hardening: seq<Layer>, app: Router, endpoint: string, oauthEnabled: bool, steps: seq<Step>,
    step: Step, metadata: string)
    requires metadata == "/.well-known/oauth-protected-resource"
    requires ApplyAll(Start(mcp, hardening, app, endpoint, oauthEnabled), steps).Ok?
    requires step.target.kind.RouteTarget? && step.op.Route?
    ensures
      var path, r := step.target.path, ApplyAll(Start(mcp, hardening, app, endpoint, oauthEnabled), steps + [step]);
      var taken :=
        || path == endpoint || path in DeclaredPaths(steps)
        || (oauthEnabled && (path == metadata || (endpoint != "/" && path == metadata + endpoint)));
      && (taken ==> r == Err(Collides(step.plugin, step.index, path)))
      && (!taken ==> r.Ok?)
  {
    var s := Start(mcp, hardening, app, endpoint, oauthEnabled);
    BookkeepingAgrees(mcp, hardening, app, endpoint, oauthEnabled, steps);
    RunKeepsConsistent(s, steps);
    ApplyInParts(s, steps, [step]);
    assert [step][1..] == [];
  }

  // ---------------------------------------------------------------- the mutable state

  /** `apply_layers`: from the last layer to the first. */
  method ApplyLayers(router: Router, layers: seq<Layer>) returns (r: Router)
    ensures r == Layered(router, layers)
  {
    r := router;
    var k := |layers|;
    while k > 0
      invariant 0 <= k <= |layers|
      invariant r == Layered(router, layers[k..])
    {
      k := k - 1;
      assert layers[k..][1..] == layers[k + 1..];
      r := Wrapped(layers[k], r);
    }
    assert layers[0..] == layers;
  }

  class PluginRouteState {
    var mcpSegment: Segment
    var appSegment: Segment
    var pluginSegments: map<string, Segment>
    var pluginRouteOrder: seq<string>
    var pluginRoutes: set<string>
    const reservedRoutes: set<string>
    const endpointPath: string

    function View(): State
      reads this
    {
      State(mcpSegment, appSegment, pluginSegments, pluginRouteOrder, pluginRoutes, reservedRoutes, endpointPath)
    }

    constructor (mcp: Router, hardening: seq<Layer>, app: Router, endpoint: string, oauthEnabled: bool)
      ensures View() == Start(mcp, hardening, app, endpoint, oauthEnabled)
    {
      mcpSegment := Segment(mcp, hardening);
      appSegment := Segment(app, []);
      pluginSegments := map[];
      pluginRouteOrder := [];
      pluginRoutes := {};
      reservedRoutes := Reserved(endpoint, oauthEnabled);
      endpointPath := endpoint;
    }

    /** One turn of the loop in `apply_ops`. */
    method ApplyOne(step: Step) returns (failure: Option<RouterError>)
      modifies this
      ensures
        match Apply(old(View()), step)
        case Ok(next) => failure == None && View() == next
        case Err(error) => failure == Some(error) && View() == old(View())
    {
      var path := step.target.path;
      if step.target.kind.RouteTarget? {
        if path in reservedRoutes || path in pluginRoutes {
          return Some(Collides(step.plugin, step.index, path));
        }
        match step.op {
          case Wrap(_) => return Some(ExpectedRoute(step.plugin, step.index));
          case Route(router) =>
            pluginRoutes := pluginRoutes + {path};
            pluginRouteOrder := pluginRouteOrder + [path];
            pluginSegments := pluginSegments[path := Segment(router, [])];
        }
        return None;
      }
      if path != "*" && path != endpointPath && path !in pluginRoutes {
        return Some(UnknownPath(step.plugin, step.index, path));
      }
      match step.op {
        case Route(_) => return Some(ExpectedWrap(step.plugin, step.index));
        case Wrap(layer) =>
          if path == "*" {
            mcpSegment := AddLayer(mcpSegment, layer);
            appSegment := AddLayer(appSegment, layer);
            pluginSegments := map p | p in pluginSegments :: AddLayer(pluginSegments[p], layer);
          } else if path == endpointPath {
            mcpSegment := AddLayer(mcpSegment, layer);
          } else {
            if path !in pluginSegments {
              return Some(MissingSegment(step.plugin, step.index, path));
            }
            pluginSegments := pluginSegments[path := AddLayer(pluginSegments[path], layer)];
          }
          return None;
      }
    }

    /** `apply_ops`. What was applied before an error stays applied. */
    method ApplyOps(plugin: string, targets: seq<Target>, ops: seq<Op>) returns (failure: Option<RouterError>)
      modifies this
      ensures View() == Reached(old(View()), Zip(plugin, targets, ops))
      ensures
        match ApplyAll(old(View()), Zip(plugin, targets, ops))
        case Ok(next) => failure == None && View() == next
        case Err(error) => failure == Some(error)
    {
      ghost var steps := Zip(plugin, targets, ops);
      var k := 0;
      assert steps[0..] == steps;
      while k < |targets| && k < |ops|
        invariant 0 <= k <= |steps|
        invariant ApplyAll(View(), steps[k..]) == ApplyAll(old(View()), steps)
        invariant Reached(View(), steps[k..]) == Reached(old(View()), steps)
      {
        var step := Step(plugin, k, targets[k], ops[k]);
        assert steps[k..][0] == step && steps[k..][1..] == steps[k + 1..];
        failure := ApplyOne(step);
        if failure.Some? {
          return;
        }
        k := k + 1;
      }
      return None;
    }

    /** `process_plugins`. */
    method ProcessPlugins(plugins: seq<Plugin>, answers: Answers) returns (failure: Option<RouterError>)
      modifies this
      ensures
        match Process(old(View()), plugins, 0, answers)
        case Ok(next) => failure == None && View() == next
        case Err(error) => failure == Some(error)
    {
      var k := 0;
      while k < |plugins|
        invariant 0 <= k <= |plugins|
        invariant Process(View(), plugins, k, answers) == Process(old(View()), plugins, 0, answers)
      {
        var plugin := plugins[k];
        if plugin.targets == [] {
          return Some(RequiresTargets(plugin.name));
        }
        var targets := NormalizeTargets(plugin.targets);
        if targets.Err? {
          return Some(targets.error);
        }
        match answers(k, targets.value) {
          case Unregistered => return Some(NotRegistered(plugin.name));
          case Failed(reason) => return Some(PluginFailed(reason));
          case Ops(ops) =>
            if |ops| != |targets.value| {
              return Some(WrongOpCount(plugin.name, |ops|, |targets.value|));
            }
            failure := ApplyOps(plugin.name, targets.value, ops);
            if failure.Some? {
              return;
            }
        }
        k := k + 1;
      }
      return None;
    }

    /** `assemble`, which uses the state up. */
    method Assemble() returns (router: Router)
      modifies this
      ensures router == RouterPlugins.Assemble(old(View()))
    {
      var app := ApplyLayers(appSegment.router, appSegment.layers);
      var mcp := ApplyLayers(mcpSegment.router, mcpSegment.layers);
      router := Merged(app, mcp);
      var k := 0;
      assert pluginRouteOrder[0..] == pluginRouteOrder;
      while k < |pluginRouteOrder|
        modifies this`pluginSegments
        invariant 0 <= k <= |pluginRouteOrder|
        invariant NestAll(router, pluginRouteOrder[k..], pluginSegments) == RouterPlugins.Assemble(old(View()))
      {
        var path := pluginRouteOrder[k];
        assert pluginRouteOrder[k..][0] == path && pluginRouteOrder[k..][1..] == pluginRouteOrder[k + 1..];
        if path in pluginSegments {
          var segment := pluginSegments[path];
          pluginSegments := pluginSegments - {path};
          var built := ApplyLayers(segment.router, segment.layers);
          router := Nested(router, path, built);
        }
        k := k + 1;
      }
    }
  }

  /** `build_streamable_http_router`, from the plugins on. */
  method BuildRouter(
    mcp: Router, hardening: seq<Layer>, app: Router, endpoint: string, oauthEnabled: bool,
    plugins: seq<Plugin>, answers: Answers) returns (r: Result<Router, RouterError>)
    ensures Builds(mcp, hardening, app, endpoint, oauthEnabled, plugins, answers, r)
  {
    BuildsTheDeclared(mcp, hardening, app, endpoint, oauthEnabled, plugins, answers);
    var state := new PluginRouteState(mcp, hardening, app, endpoint, oauthEnabled);
    var failure := state.ProcessPlugins(plugins, answers);
    if failure.Some? {
      return Err(failure.value);
    }
    var router := state.Assemble();
    return Ok(router);
  }
}
