/**
 HTTP-router plugins (src/http/router.rs): targets, the operations plugins answer with, and the
 router those operations, applied one after the other, come to. A router is a term of what it is made
 of; a layer is a name for what the plugin's transform does.
 */
module RouterPlugins {
  import opened Wrappers

  type Layer = nat

  datatype Router =
    | Leaf(id: nat)
    | Wrapped(layer: Layer, inner: Router)
    | Merged(left: Router, right: Router)
    | Nested(app: Router, path: string, inner: Router)

  /** Layers in the order they were added. */
  datatype Segment = Segment(router: Router, layers: seq<Layer>)

  datatype TargetType = RouteTarget | WrapTarget

  datatype Target = Target(kind: TargetType, path: string)

  datatype Op = Route(router: Router) | Wrap(layer: Layer)

  datatype RouterError =
    | NoTargets
    | RequiresTargets(plugin: string)
    | EmptyPath
    | WildcardRoute
    | NotRegistered(plugin: string)
    | PluginFailed(reason: string)
    | WrongOpCount(plugin: string, ops: nat, targets: nat)
    | Collides(plugin: string, index: nat, path: string)
    | ExpectedRoute(plugin: string, index: nat)
    | ExpectedWrap(plugin: string, index: nat)
    | UnknownPath(plugin: string, index: nat, path: string)
    | MissingSegment(plugin: string, index: nat, path: string)

  /** The first declared layer ends up outermost. */
  function Layered(router: Router, layers: seq<Layer>): Router {
    if layers == [] then router else Wrapped(layers[0], Layered(router, layers[1..]))
  }

  function Build(segment: Segment): Router {
    Layered(segment.router, segment.layers)
  }

  lemma {:induction false} LayeredTwice(router: Router, outer: seq<Layer>, inner: seq<Layer>)
    ensures Layered(router, outer + inner) == Layered(Layered(router, inner), outer)
    decreases |outer|
  {
    if outer == [] {
      assert outer + inner == inner;
    } else {
      assert (outer + inner)[1..] == outer[1..] + inner;
      LayeredTwice(router, outer[1..], inner);
    }
  }

  // ---------------------------------------------------------------- the state operations build

  /** One target with the operation a plugin answered for it. */
  datatype Step = Step(plugin: string, index: nat, target: Target, op: Op)

  datatype State = State(
    mcp: Segment,
    app: Segment,
    segments: map<string, Segment>,
    order: seq<string>,
    routes: set<string>,
    reserved: set<string>,
    endpoint: string)

  const METADATA_PATH: string := "/.well-known/oauth-protected-resource"

  function Reserved(endpoint: string, oauthEnabled: bool): set<string> {
    if !oauthEnabled then {endpoint}
    else if endpoint == "/" then {endpoint, METADATA_PATH}
    else {endpoint, METADATA_PATH, METADATA_PATH + endpoint}
  }

  /** Before any plugin; `hardening` are the layers the endpoint's segment starts with. */
  function Start(mcp: Router, hardening: seq<Layer>, app: Router, endpoint: string, oauthEnabled: bool): State {
    State(Segment(mcp, hardening), Segment(app, []), map[], [], {}, Reserved(endpoint, oauthEnabled), endpoint)
  }

  function AddLayer(segment: Segment, layer: Layer): Segment {
    segment.(layers := segment.layers + [layer])
  }

  /** One turn of `apply_ops`. */
  function Apply(s: State, step: Step): Result<State, RouterError> {
    var path := step.target.path;
    if step.target.kind.RouteTarget? then
      if path in s.reserved || path in s.routes then Err(Collides(step.plugin, step.index, path))
      else
        match step.op
        case Wrap(_) => Err(ExpectedRoute(step.plugin, step.index))
        case Route(router) =>
          Ok(s.(routes := s.routes + {path}, order := s.order + [path],
                segments := s.segments[path := Segment(router, [])]))
    else if path != "*" && path != s.endpoint && path !in s.routes then
      Err(UnknownPath(step.plugin, step.index, path))
    else
      match step.op
      case Route(_) => Err(ExpectedWrap(step.plugin, step.index))
      case Wrap(layer) =>
        if path == "*" then
          Ok(s.(mcp := AddLayer(s.mcp, layer), app := AddLayer(s.app, layer),
                segments := map p | p in s.segments :: AddLayer(s.segments[p], layer)))
        else if path == s.endpoint then Ok(s.(mcp := AddLayer(s.mcp, layer)))
        else if path !in s.segments then Err(MissingSegment(step.plugin, step.index, path))
        else Ok(s.(segments := s.segments[path := AddLayer(s.segments[path], layer)]))
  }

  function ApplyAll(s: State, steps: seq<Step>): Result<State, RouterError>
    decreases |steps|
  {
    if steps == [] then Ok(s)
    else
      match Apply(s, steps[0])
      case Err(error) => Err(error)
      case Ok(next) => ApplyAll(next, steps[1..])
  }

  /** The segments left, nested in the order given. */
  function NestAll(app: Router, order: seq<string>, segments: map<string, Segment>): Router
    decreases |order|
  {
    if order == [] then app
    else if order[0] in segments then
      NestAll(Nested(app, order[0], Build(segments[order[0]])), order[1..], segments - {order[0]})
    else NestAll(app, order[1..], segments)
  }

  function Assemble(s: State): Router {
    NestAll(Merged(Build(s.app), Build(s.mcp)), s.order, s.segments)
  }

  // ---------------------------------------------------------------- what every step keeps

  predicate NoDuplicates(order: seq<string>) {
    forall i, j :: 0 <= i < j < |order| ==> order[i] != order[j]
  }

  /** Order, set and segments hold the same paths, each once, none of them reserved. */
  ghost predicate Consistent(s: State) {
    && NoDuplicates(s.order)
    && s.routes == s.segments.Keys
    && (forall path :: path in s.order <==> path in s.routes)
    && s.routes !! s.reserved
    && s.endpoint in s.reserved
  }

  lemma StepKeepsConsistent(s: State, step: Step)
    requires Consistent(s) && Apply(s, step).Ok?
    ensures
      var t := Apply(s, step).value;
      && Consistent(t) && t.endpoint == s.endpoint && t.reserved == s.reserved
      && t.order == s.order + if step.target.kind.RouteTarget? then [step.target.path] else []
  {
    var t := Apply(s, step).value;
    if step.target.kind.RouteTarget? {
      var path := step.target.path;
      assert path !in s.order;
      assert t.order == s.order + [path];
    }
  }

  lemma Regroup(a: seq<string>, b: seq<string>, c: seq<string>)
    ensures a + (b + c) == a + b + c
  {
  }

  lemma {:induction false} RunKeepsConsistent(s: State, steps: seq<Step>)
    requires Consistent(s) && ApplyAll(s, steps).Ok?
    ensures Consistent(ApplyAll(s, steps).value)
    ensures ApplyAll(s, steps).value.order == s.order + DeclaredPaths(steps)
    ensures ApplyAll(s, steps).value.endpoint == s.endpoint && ApplyAll(s, steps).value.reserved == s.reserved
    decreases |steps|
  {
    if steps != [] {
      StepKeepsConsistent(s, steps[0]);
      var next := Apply(s, steps[0]).value;
      RunKeepsConsistent(next, steps[1..]);
      var first := if steps[0].target.kind.RouteTarget? then [steps[0].target.path] else [];
      Regroup(s.order, first, DeclaredPaths(steps[1..]));
    }
  }

  // ---------------------------------------------------------------- the declarative reading

  /** The routes declared, in order. */
  function DeclaredPaths(steps: seq<Step>): seq<string> {
    if steps == [] then []
    else (if steps[0].target.kind.RouteTarget? then [steps[0].target.path] else []) + DeclaredPaths(steps[1..])
  }

  /** The layers of the wraps that name `path` or everything, in order. */
  function WrapsOf(steps: seq<Step>, path: string): seq<Layer> {
    if steps == [] then []
    else
      (if steps[0].target.kind.WrapTarget? && steps[0].op.Wrap? && steps[0].target.path in {path, "*"}
       then [steps[0].op.layer] else [])
      + WrapsOf(steps[1..], path)
  }

  /** Each declared route nested in turn, wrapped in the layers declared for it from there on. */
  function NestDeclared(app: Router, steps: seq<Step>): Router
    decreases |steps|
  {
    if steps == [] then app
    else if steps[0].target.kind.RouteTarget? && steps[0].op.Route? then
      var path := steps[0].target.path;
      NestDeclared(Nested(app, path, Layered(steps[0].op.router, WrapsOf(steps[1..], path))), steps[1..])
    else NestDeclared(app, steps[1..])
  }

  /** The router a declaration means. */
  function Declared(mcp: Router, hardening: seq<Layer>, app: Router, endpoint: string, steps: seq<Step>): Router {
    NestDeclared(
      Merged(Layered(app, WrapsOf(steps, "*")), Layered(mcp, hardening + WrapsOf(steps, endpoint))),
      steps)
  }

  /** What is wrong with a step, given the routes declared before it. */
  function Objection(endpoint: string, reserved: set<string>, declared: seq<string>, step: Step): Option<RouterError> {
    var path := step.target.path;
    match step.target.kind
    case RouteTarget =>
      if path in reserved || path in declared then Some(Collides(step.plugin, step.index, path))
      else if step.op.Wrap? then Some(ExpectedRoute(step.plugin, step.index))
      else None
    case WrapTarget =>
      if path !in {"*", endpoint} && path !in declared then Some(UnknownPath(step.plugin, step.index, path))
      else if step.op.Route? then Some(ExpectedWrap(step.plugin, step.index))
      else None
  }

  lemma ApplyExactly(s: State, step: Step)
    requires Consistent(s)
    ensures
      match Objection(s.endpoint, s.reserved, s.order, step)
      case None => Apply(s, step).Ok?
      case Some(error) => Apply(s, step) == Err(error)
  {
  }

  function ObjectionAt(s: State, steps: seq<Step>, i: nat): Option<RouterError>
    requires i < |steps|
  {
    Objection(s.endpoint, s.reserved, s.order + DeclaredPaths(steps[..i]), steps[i])
  }

  predicate ObjectsFirst(s: State, steps: seq<Step>, i: nat, error: RouterError)
  {
    && i < |steps| && ObjectionAt(s, steps, i) == Some(error)
    && forall j :: 0 <= j < i ==> ObjectionAt(s, steps, j) == None
  }

  /** `error` is the objection to the first step that has one. */
  ghost predicate FirstObjection(s: State, steps: seq<Step>, error: RouterError) {
    exists i: nat :: ObjectsFirst(s, steps, i, error)
  }

  predicate NoObjection(s: State, steps: seq<Step>) {
    forall i :: 0 <= i < |steps| ==> ObjectionAt(s, steps, i) == None
  }

  lemma ObjectionLater(s: State, steps: seq<Step>, i: nat)
    requires Consistent(s) && 0 < i < |steps| && Apply(s, steps[0]).Ok?
    ensures ObjectionAt(s, steps, i) == ObjectionAt(Apply(s, steps[0]).value, steps[1..], i - 1)
  {
    var t := Apply(s, steps[0]).value;
    StepKeepsConsistent(s, steps[0]);
    assert steps[..i][1..] == steps[1..][..i - 1];
    assert t.order + DeclaredPaths(steps[1..][..i - 1]) == s.order + DeclaredPaths(steps[..i]);
  }

  /**
   A declaration is accepted exactly when no step has an objection to it; otherwise the error is that of
   the first step that has. In particular no path is ever missing its segment.
   */
  lemma {:induction false} AcceptedExactly(s: State, steps: seq<Step>)
    requires Consistent(s)
    ensures
      match ApplyAll(s, steps)
      case Ok(_) => NoObjection(s, steps)
      case Err(error) => FirstObjection(s, steps, error)
    decreases |steps|
  {
    if steps != [] {
      assert steps[..0] == [] && s.order + [] == s.order;
      ApplyExactly(s, steps[0]);
      if Apply(s, steps[0]).Ok? {
        AcceptedExactly(Apply(s, steps[0]).value, steps[1..]);
        ObjectionsLater(s, steps);
      } else {
        assert ObjectsFirst(s, steps, 0, Apply(s, steps[0]).error);
      }
    }
  }

  lemma ObjectionsLater(s: State, steps: seq<Step>)
    requires Consistent(s) && steps != [] && Apply(s, steps[0]).Ok? && ObjectionAt(s, steps, 0) == None
    ensures NoObjection(Apply(s, steps[0]).value, steps[1..]) ==> NoObjection(s, steps)
    ensures forall error ::
      FirstObjection(Apply(s, steps[0]).value, steps[1..], error) ==> FirstObjection(s, steps, error)
  {
    var t := Apply(s, steps[0]).value;
    forall i | 0 < i < |steps| ensures ObjectionAt(s, steps, i) == ObjectionAt(t, steps[1..], i - 1) {
      ObjectionLater(s, steps, i);
    }
    forall error | FirstObjection(t, steps[1..], error) ensures FirstObjection(s, steps, error) {
      var i: nat :| ObjectsFirst(t, steps[1..], i, error);
      assert forall j :: 0 < j <= i ==> ObjectionAt(t, steps[1..], j - 1) == ObjectionAt(s, steps, j);
      assert ObjectsFirst(s, steps, i + 1, error);
    }
  }

  /** No run of any plugins gets as far as a route that has no segment. */
  lemma SegmentNeverMissing(s: State, steps: seq<Step>)
    requires Consistent(s) && ApplyAll(s, steps).Err?
    ensures !ApplyAll(s, steps).error.MissingSegment?
  {
    AcceptedExactly(s, steps);
    var error := ApplyAll(s, steps).error;
    var i: nat :| ObjectsFirst(s, steps, i, error);
  }

  // ---------------------------------------------------------------- segments hold their layers

  /** `t`'s segment is `s`'s, with these layers added inside. */
  predicate Grown(s: Segment, t: Segment, layers: seq<Layer>) {
    t == Segment(s.router, s.layers + layers)
  }

  lemma GrownOnce(s: State, step: Step, path: string)
    requires Consistent(s) && Apply(s, step).Ok?
    ensures
      var t := Apply(s, step).value;
      && Grown(s.mcp, t.mcp, WrapsOf([step], s.endpoint))
      && Grown(s.app, t.app, WrapsOf([step], "*"))
      && (path in s.segments ==> path in t.segments && Grown(s.segments[path], t.segments[path], WrapsOf([step], path)))
  {
    assert [step][1..] == [];
    assert forall p :: WrapsOf([step][1..], p) == [];
  }

  lemma WrapsFirst(steps: seq<Step>, path: string)
    requires steps != []
    ensures WrapsOf(steps, path) == WrapsOf([steps[0]], path) + WrapsOf(steps[1..], path)
  {
  }

  lemma GrownTwice(s: Segment, t: Segment, u: Segment, a: seq<Layer>, b: seq<Layer>)
    requires Grown(s, t, a) && Grown(t, u, b)
    ensures Grown(s, u, a + b)
  {
    assert s.layers + a + b == s.layers + (a + b);
  }

  lemma GrownNothing(s: Segment)
    ensures Grown(s, s, [])
  {
    assert s.layers + [] == s.layers;
  }

  /** From then on, a segment takes exactly the wraps that name it or everything, in order. */
  lemma {:induction false} SegmentsGrow(s: State, steps: seq<Step>, path: string)
    requires Consistent(s) && ApplyAll(s, steps).Ok?
    ensures
      var t := ApplyAll(s, steps).value;
      && Grown(s.mcp, t.mcp, WrapsOf(steps, s.endpoint))
      && Grown(s.app, t.app, WrapsOf(steps, "*"))
      && (path in s.segments ==> path in t.segments && Grown(s.segments[path], t.segments[path], WrapsOf(steps, path)))
    decreases |steps|
  {
    if steps == [] {
      GrownNothing(s.mcp);
      GrownNothing(s.app);
      if path in s.segments {
        GrownNothing(s.segments[path]);
      }
    } else {
      var m := Apply(s, steps[0]).value;
      var t := ApplyAll(s, steps).value;
      StepKeepsConsistent(s, steps[0]);
      GrownOnce(s, steps[0], path);
      SegmentsGrow(m, steps[1..], path);
      WrapsFirst(steps, s.endpoint);
      WrapsFirst(steps, "*");
      WrapsFirst(steps, path);
      GrownTwice(s.mcp, m.mcp, t.mcp, WrapsOf([steps[0]], s.endpoint), WrapsOf(steps[1..], s.endpoint));
      GrownTwice(s.app, m.app, t.app, WrapsOf([steps[0]], "*"), WrapsOf(steps[1..], "*"));
      if path in s.segments {
        GrownTwice(
          s.segments[path], m.segments[path], t.segments[path],
          WrapsOf([steps[0]], path), WrapsOf(steps[1..], path));
      }
    }
  }

  // ---------------------------------------------------------------- the router is the declared one

  /** Of the segments, only those under the paths still to nest matter. */
  lemma {:induction false} NestIgnores(app: Router, order: seq<string>, a: map<string, Segment>, path: string)
    requires path !in order
    ensures NestAll(app, order, a) == NestAll(app, order, a - {path})
    decreases |order|
  {
    if order != [] {
      assert order[0] != path;
      if order[0] in a {
        NestIgnores(Nested(app, order[0], Build(a[order[0]])), order[1..], a - {order[0]}, path);
        assert a - {order[0]} - {path} == a - {path} - {order[0]};
      } else {
        NestIgnores(app, order[1..], a, path);
      }
    }
  }

  lemma {:induction false} NestsTheDeclared(s: State, steps: seq<Step>, app: Router, all: map<string, Segment>)
    requires Consistent(s) && ApplyAll(s, steps).Ok? && all == ApplyAll(s, steps).value.segments
    ensures NestAll(app, DeclaredPaths(steps), all) == NestDeclared(app, steps)
    decreases |steps|
  {
    if steps != [] {
      var step, rest := steps[0], steps[1..];
      var next := Apply(s, step).value;
      StepKeepsConsistent(s, step);
      if step.target.kind.RouteTarget? {
        var path := step.target.path;
        SegmentsGrow(next, rest, path);
        assert next.segments[path] == Segment(step.op.router, []);
        assert [] + WrapsOf(rest, path) == WrapsOf(rest, path);
        var built := Nested(app, path, Layered(step.op.router, WrapsOf(rest, path)));
        RouteOnce(next, rest, path);
        NestIgnores(built, DeclaredPaths(rest), all, path);
        NestsTheDeclared(next, rest, built, all);
        assert DeclaredPaths(steps)[1..] == DeclaredPaths(rest);
      } else {
        assert DeclaredPaths(steps) == DeclaredPaths(rest);
        NestsTheDeclared(next, rest, app, all);
      }
    }
  }

  /** A declared route is not declared again. */
  lemma {:induction false} RouteOnce(s: State, steps: seq<Step>, path: string)
    requires Consistent(s) && ApplyAll(s, steps).Ok? && path in s.order
    ensures path !in DeclaredPaths(steps)
  {
    RunKeepsConsistent(s, steps);
    var order := ApplyAll(s, steps).value.order;
    var i :| 0 <= i < |s.order| && s.order[i] == path;
    assert order[i] == path;
    forall k | 0 <= k < |DeclaredPaths(steps)| ensures DeclaredPaths(steps)[k] != path {
      assert order[|s.order| + k] == DeclaredPaths(steps)[k];
    }
  }

  /**
   Whatever the plugins declared, if it was accepted: the router built operation by operation is the
   declared one, every segment wrapped in exactly the layers that name it or everything and came after
   it, the first declared outermost, and every route nested in the order it was declared.
   */
  lemma RouterIsDeclared(
    mcp: Router, hardening: seq<Layer>, app: Router, endpoint: string, oauthEnabled: bool, steps: seq<Step>)
    requires ApplyAll(Start(mcp, hardening, app, endpoint, oauthEnabled), steps).Ok?
    ensures
      Assemble(ApplyAll(Start(mcp, hardening, app, endpoint, oauthEnabled), steps).value)
      == Declared(mcp, hardening, app, endpoint, steps)
  {
    var s := Start(mcp, hardening, app, endpoint, oauthEnabled);
    var t := ApplyAll(s, steps).value;
    RunKeepsConsistent(s, steps);
    assert t.order == DeclaredPaths(steps);
    SegmentsGrow(s, steps, "*");
    assert [] + WrapsOf(steps, "*") == WrapsOf(steps, "*");
    NestsTheDeclared(s, steps, Merged(Build(t.app), Build(t.mcp)), t.segments);
  }

  /** After any accepted declaration the bookkeeping agrees with itself and avoids the reserved paths. */
  lemma BookkeepingAgrees(
    mcp: Router, hardening: seq<Layer>, app: Router, endpoint: string, oauthEnabled: bool, steps: seq<Step>)
    requires ApplyAll(Start(mcp, hardening, app, endpoint, oauthEnabled), steps).Ok?
    ensures
      var t := ApplyAll(Start(mcp, hardening, app, endpoint, oauthEnabled), steps).value;
      && t.order == DeclaredPaths(steps) && NoDuplicates(t.order)
      && t.routes == t.segments.Keys && (forall path :: path in t.order <==> path in t.routes)
      && t.routes !! Reserved(endpoint, oauthEnabled)
  {
    RunKeepsConsistent(Start(mcp, hardening, app, endpoint, oauthEnabled), steps);
  }
}
