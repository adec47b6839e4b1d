/**
 * The route table: registration of routes (one verb, several verbs, or a
 * group of registrations sharing a prefix and middleware), the fluent
 * registrar that edits one registered route, and first-match resolution of
 * a request against the table.
 *
 * The PHP router keeps its table in static properties; here it is one
 * `Router` object. A `group` callback re-enters the router; here the body
 * of a callback is a list of registration commands that the router runs.
 */
module Routing {
  import opened Wrappers
  import opened Text
  import opened RoutePattern
  import HttpRequest

  /** One registered route. */
  datatype Route = Route(verb: string, uri: string, action: string, middleware: seq<string>, name: Option<string>)

  /** A middleware argument: one tag or a list of tags. */
  datatype MiddlewareArg = One(tag: string) | Many(tags: seq<string>)

  /** `is_array($m) ? $m : [$m]`, and equally `(array)$m` for a string. */
  function AsList(arg: MiddlewareArg): (r: seq<string>)
    ensures arg.One? ==> r == [arg.tag]
    ensures arg.Many? ==> r == arg.tags
  {
    match arg
    case One(tag) => [tag]
    case Many(tags) => tags
  }

  /** The attributes of a group; an absent (or null) attribute is None. */
  datatype GroupAttributes = GroupAttributes(prefix: Option<string>, middleware: Option<MiddlewareArg>)

  /** A call on the registrar returned by a registration. */
  datatype RegistrarCall = AddMiddleware(arg: MiddlewareArg) | SetName(name: string)

  /** What a group callback does: register routes and open nested groups. */
  datatype Registration =
    | Register(verb: string, uri: string, action: string, calls: seq<RegistrarCall>)
    | RegisterMany(verbs: seq<string>, uri: string, action: string, calls: seq<RegistrarCall>)
    | Nested(attrs: GroupAttributes, body: seq<Registration>)

  // ---------------------------------------------------------------- registration, as values

  /** The route `addRoute` builds under the current prefix and middleware. */
  function RouteFor(verb: string, uri: string, action: string, prefix: string, mw: seq<string>): Route {
    Route(ToUpper(verb), FormatUri(prefix + "/" + uri), action, mw, None)
  }

  /** The routes `match` registers: one per verb, in list order. */
  function VerbRoutes(verbs: seq<string>, uri: string, action: string, prefix: string, mw: seq<string>): seq<Route> {
    seq(|verbs|, i requires 0 <= i < |verbs| => RouteFor(verbs[i], uri, action, prefix, mw))
  }

  lemma VerbRoutesSnoc(verbs: seq<string>, i: nat, uri: string, action: string, prefix: string, mw: seq<string>)
    requires i < |verbs|
    ensures VerbRoutes(verbs[..i + 1], uri, action, prefix, mw)
         == VerbRoutes(verbs[..i], uri, action, prefix, mw) + [RouteFor(verbs[i], uri, action, prefix, mw)]
  {
  }

  /** Appending the route of the next verb extends the registered prefix of the verb list by one. */
  lemma VerbRoutesExtend(before: seq<Route>, done: seq<Route>, verbs: seq<string>, i: nat, uri: string, action: string, prefix: string, mw: seq<string>)
    requires i < |verbs| && done == before + VerbRoutes(verbs[..i], uri, action, prefix, mw)
    ensures done + [RouteFor(verbs[i], uri, action, prefix, mw)] == before + VerbRoutes(verbs[..i + 1], uri, action, prefix, mw)
  {
    VerbRoutesSnoc(verbs, i, uri, action, prefix, mw);
  }

  /** `match` upper-cases each verb before `addRoute` upper-cases it again; the route is the same. */
  lemma RouteForUpper(verb: string, uri: string, action: string, prefix: string, mw: seq<string>)
    ensures RouteFor(ToUpper(verb), uri, action, prefix, mw) == RouteFor(verb, uri, action, prefix, mw)
  {
    ToUpperIdempotent(verb);
  }

  /** The verbs `any` registers. */
  const AnyVerbs: seq<string> := ["GET", "POST", "PUT", "DELETE", "PATCH"]

  /** The verbs of `any` are already upper case, so their routes carry them unchanged. */
  lemma AnyVerbRoutes(uri: string, action: string, prefix: string, mw: seq<string>)
    ensures var rs := VerbRoutes(AnyVerbs, uri, action, prefix, mw);
      |rs| == 5 && forall i :: 0 <= i < 5 ==> rs[i].verb == AnyVerbs[i]
  {
    forall i | 0 <= i < 5
      ensures ToUpper(AnyVerbs[i]) == AnyVerbs[i]
    {
      UpperFixed(AnyVerbs[i]);
    }
  }

  /** The prefix inside a group: the outer prefix, "/", and the group prefix without its outer slashes. */
  function GroupPrefix(prefix: string, attrs: GroupAttributes): string {
    if attrs.prefix.Some? then prefix + "/" + Trim(attrs.prefix.value, {'/'}) else prefix
  }

  /** The middleware inside a group: the outer list followed by the group's. */
  function GroupMiddleware(mw: seq<string>, attrs: GroupAttributes): (r: seq<string>)
    ensures mw <= r
  {
    if attrs.middleware.Some? then mw + AsList(attrs.middleware.value) else mw
  }

  /** One registrar call applied to a route. */
  function ApplyCall(r: Route, call: RegistrarCall): Route {
    match call
    case AddMiddleware(arg) => r.(middleware := r.middleware + AsList(arg))
    case SetName(n) => r.(name := Some(n))
  }

  /** A chain of registrar calls, applied left to right. */
  function ApplyCalls(r: Route, calls: seq<RegistrarCall>): Route
    decreases |calls|
  {
    if calls == [] then r else ApplyCall(ApplyCalls(r, calls[..|calls| - 1]), calls[|calls| - 1])
  }

  /**
   * `match(...)` followed by registrar calls: one route per verb, the calls
   * applied to the last one, whose registrar `match` returns. With no verbs
   * there is no registrar and nothing is appended.
   */
  function ManyRoutes(verbs: seq<string>, uri: string, action: string, prefix: string, mw: seq<string>,
                      calls: seq<RegistrarCall>): seq<Route>
  {
    if verbs == [] then []
    else
      var n := |verbs| - 1;
      VerbRoutes(verbs[..n], uri, action, prefix, mw) + [ApplyCalls(RouteFor(verbs[n], uri, action, prefix, mw), calls)]
  }

  /** `match` appends one route per verb; the registrar calls reach only the last of them. */
  lemma ManyRoutesCalls(verbs: seq<string>, uri: string, action: string, prefix: string, mw: seq<string>,
                        calls: seq<RegistrarCall>)
    ensures var r := ManyRoutes(verbs, uri, action, prefix, mw, calls);
      && |r| == |verbs|
      && (forall i :: 0 <= i < |verbs| - 1 ==> r[i] == RouteFor(verbs[i], uri, action, prefix, mw))
      && (verbs != [] ==> r[|r| - 1] == ApplyCalls(RouteFor(verbs[|verbs| - 1], uri, action, prefix, mw), calls))
  {
  }

  /** The calls on `match`'s registrar keep every route's verb, URI and action, and only extend its middleware. */
  lemma ManyRoutesKeep(verbs: seq<string>, uri: string, action: string, prefix: string, mw: seq<string>,
                       calls: seq<RegistrarCall>)
    ensures forall i :: 0 <= i < |verbs| ==>
      var r, base := ManyRoutes(verbs, uri, action, prefix, mw, calls)[i], RouteFor(verbs[i], uri, action, prefix, mw);
      r.verb == base.verb && r.uri == base.uri && r.action == base.action && base.middleware <= r.middleware
  {
    forall i | 0 <= i < |verbs|
      ensures var r, base := ManyRoutes(verbs, uri, action, prefix, mw, calls)[i], RouteFor(verbs[i], uri, action, prefix, mw);
        r.verb == base.verb && r.uri == base.uri && r.action == base.action && base.middleware <= r.middleware
    {
      ManyRouteAt(verbs, uri, action, prefix, mw, calls, i);
      ApplyCallsKeeps(RouteFor(verbs[i], uri, action, prefix, mw), calls);
    }
  }

  /** Each route of `match` is the plain route of its verb, or that route with the calls applied. */
  lemma ManyRouteAt(verbs: seq<string>, uri: string, action: string, prefix: string, mw: seq<string>,
                    calls: seq<RegistrarCall>, i: nat)
    requires i < |verbs|
    ensures var r, base := ManyRoutes(verbs, uri, action, prefix, mw, calls)[i], RouteFor(verbs[i], uri, action, prefix, mw);
      r == base || r == ApplyCalls(base, calls)
  {
    ManyRoutesCalls(verbs, uri, action, prefix, mw, calls);
  }

  /** The table after `match`: the earlier verbs' routes, then the last verb's route at the end. */
  lemma ManyAfterMatch(before: seq<Route>, verbs: seq<string>, uri: string, action: string, prefix: string, mw: seq<string>)
    requires verbs != []
    ensures var n := |verbs| - 1;
      before + VerbRoutes(verbs, uri, action, prefix, mw)
      == before + VerbRoutes(verbs[..n], uri, action, prefix, mw) + [RouteFor(verbs[n], uri, action, prefix, mw)]
  {
    var n := |verbs| - 1;
    VerbRoutesSnoc(verbs, n, uri, action, prefix, mw);
    assert verbs[..n + 1] == verbs;
  }

  /** Applying the calls to the last route of that table gives the routes of `ManyRoutes`. */
  lemma ManyAfterApply(before: seq<Route>, verbs: seq<string>, uri: string, action: string, prefix: string,
                       mw: seq<string>, calls: seq<RegistrarCall>)
    requires verbs != []
    ensures var n := |verbs| - 1;
      var t := before + VerbRoutes(verbs[..n], uri, action, prefix, mw) + [RouteFor(verbs[n], uri, action, prefix, mw)];
      t[|t| - 1 := ApplyCalls(t[|t| - 1], calls)] == before + ManyRoutes(verbs, uri, action, prefix, mw, calls)
  {
    var n := |verbs| - 1;
    var init := before + VerbRoutes(verbs[..n], uri, action, prefix, mw);
    var last := RouteFor(verbs[n], uri, action, prefix, mw);
    assert (init + [last])[|init| := ApplyCalls(last, calls)] == init + [ApplyCalls(last, calls)];
  }

  /** The routes one registration command appends, in order. */
  function RegisteredOne(c: Registration, prefix: string, mw: seq<string>): seq<Route>
    decreases c
  {
    match c
    case Register(verb, uri, action, calls) => [ApplyCalls(RouteFor(verb, uri, action, prefix, mw), calls)]
    case RegisterMany(verbs, uri, action, calls) => ManyRoutes(verbs, uri, action, prefix, mw, calls)
    case Nested(attrs, body) => Registered(body, GroupPrefix(prefix, attrs), GroupMiddleware(mw, attrs))
  }

  /** The routes a list of registration commands appends, in order. */
  function Registered(cmds: seq<Registration>, prefix: string, mw: seq<string>): seq<Route>
    decreases cmds
  {
    if cmds == [] then [] else RegisteredOne(cmds[0], prefix, mw) + Registered(cmds[1..], prefix, mw)
  }

  /** Running two command lists one after the other registers the routes of both, in order. */
  lemma {:induction false} RegisteredAppend(a: seq<Registration>, b: seq<Registration>, prefix: string, mw: seq<string>)
    ensures Registered(a + b, prefix, mw) == Registered(a, prefix, mw) + Registered(b, prefix, mw)
    decreases |a|
  {
    if a == [] {
      assert a + b == b;
    } else {
      CommandsCons(a, b);
      RegisteredUnfold(a + b, prefix, mw);
      RegisteredUnfold(a, prefix, mw);
      RegisteredAppend(a[1..], b, prefix, mw);
      RoutesAssoc(RegisteredOne(a[0], prefix, mw), Registered(a[1..], prefix, mw), Registered(b, prefix, mw));
    }
  }

  lemma CommandsCons(a: seq<Registration>, b: seq<Registration>)
    requires a != []
    ensures (a + b)[0] == a[0] && (a + b)[1..] == a[1..] + b
  {
  }

  lemma RegisteredUnfold(cmds: seq<Registration>, prefix: string, mw: seq<string>)
    requires cmds != []
    ensures Registered(cmds, prefix, mw) == RegisteredOne(cmds[0], prefix, mw) + Registered(cmds[1..], prefix, mw)
  {
  }

  /** Running one more command after a list appends that command's routes. */
  lemma RegisteredSnoc(a: seq<Registration>, c: Registration, prefix: string, mw: seq<string>)
    ensures Registered(a + [c], prefix, mw) == Registered(a, prefix, mw) + RegisteredOne(c, prefix, mw)
  {
    RegisteredAppend(a, [c], prefix, mw);
    assert [c][1..] == [];
  }

  lemma RegisteredPrefix(cmds: seq<Registration>, i: nat, prefix: string, mw: seq<string>)
    requires i < |cmds|
    ensures Registered(cmds[..i + 1], prefix, mw) == Registered(cmds[..i], prefix, mw) + RegisteredOne(cmds[i], prefix, mw)
  {
    assert cmds[..i + 1] == cmds[..i] + [cmds[i]];
    RegisteredSnoc(cmds[..i], cmds[i], prefix, mw);
  }

  /** One more command run on top of the first `i` extends the table by its routes. */
  lemma RunStep(before: seq<Route>, done: seq<Route>, cmds: seq<Registration>, i: nat, prefix: string, mw: seq<string>)
    requires i < |cmds| && done == before + Registered(cmds[..i], prefix, mw)
    ensures done + RegisteredOne(cmds[i], prefix, mw) == before + Registered(cmds[..i + 1], prefix, mw)
  {
    RegisteredPrefix(cmds, i, prefix, mw);
    RoutesAssoc(before, Registered(cmds[..i], prefix, mw), RegisteredOne(cmds[i], prefix, mw));
  }

  lemma RoutesAssoc(x: seq<Route>, y: seq<Route>, z: seq<Route>)
    ensures x + y + z == x + (y + z)
  {
  }

  /** Registrar calls change the middleware (by appending) and the name only. */
  lemma {:induction false} ApplyCallsKeeps(r: Route, calls: seq<RegistrarCall>)
    ensures var r' := ApplyCalls(r, calls);
      r'.verb == r.verb && r'.uri == r.uri && r'.action == r.action && r.middleware <= r'.middleware
    decreases |calls|
  {
    if calls != [] {
      ApplyCallsKeeps(r, calls[..|calls| - 1]);
    }
  }

  /** A stored route: upper-case verb and a normal-form URI. */
  predicate WellFormed(r: Route) {
    ToUpper(r.verb) == r.verb && Normal(r.uri)
  }

  /** The route `addRoute` builds is well formed whatever its inputs, and its URI is already normalised. */
  lemma RouteForWellFormed(verb: string, uri: string, action: string, prefix: string, mw: seq<string>)
    ensures WellFormed(RouteFor(verb, uri, action, prefix, mw))
    ensures FormatUri(RouteFor(verb, uri, action, prefix, mw).uri) == RouteFor(verb, uri, action, prefix, mw).uri
  {
    ToUpperIdempotent(verb);
    FormatUriNormal(prefix + "/" + uri);
    FormatUriIdempotent(prefix + "/" + uri);
  }

  /**
   * Every route a command list registers is well formed, and normalising
   * its URI again (as `resolve` does to the request URI) changes nothing.
   */
  lemma {:induction false} RegisteredWellFormed(cmds: seq<Registration>, prefix: string, mw: seq<string>)
    ensures forall r :: r in Registered(cmds, prefix, mw) ==> WellFormed(r) && FormatUri(r.uri) == r.uri
    decreases cmds
  {
    if cmds != [] {
      RegisteredWellFormed(cmds[1..], prefix, mw);
      var here := RegisteredOne(cmds[0], prefix, mw);
      assert Registered(cmds, prefix, mw) == here + Registered(cmds[1..], prefix, mw);
      match cmds[0]
      case Register(verb, uri, action, calls) =>
        RouteForWellFormed(verb, uri, action, prefix, mw);
        ApplyCallsKeeps(RouteFor(verb, uri, action, prefix, mw), calls);
      case RegisterMany(verbs, uri, action, calls) =>
        ManyRoutesKeep(verbs, uri, action, prefix, mw, calls);
        forall i | 0 <= i < |verbs|
          ensures WellFormed(here[i]) && FormatUri(here[i].uri) == here[i].uri
        {
          RouteForWellFormed(verbs[i], uri, action, prefix, mw);
        }
      case Nested(attrs, body) =>
        RegisteredWellFormed(body, GroupPrefix(prefix, attrs), GroupMiddleware(mw, attrs));
    }
  }

  /** Every route registered under a middleware list carries that list first, however deep its group. */
  lemma {:induction false} RegisteredKeepsMiddleware(cmds: seq<Registration>, prefix: string, mw: seq<string>)
    ensures forall r :: r in Registered(cmds, prefix, mw) ==> mw <= r.middleware
    decreases cmds
  {
    if cmds != [] {
      RegisteredKeepsMiddleware(cmds[1..], prefix, mw);
      var here := RegisteredOne(cmds[0], prefix, mw);
      assert Registered(cmds, prefix, mw) == here + Registered(cmds[1..], prefix, mw);
      match cmds[0]
      case Register(verb, uri, action, calls) =>
        ApplyCallsKeeps(RouteFor(verb, uri, action, prefix, mw), calls);
      case RegisterMany(verbs, uri, action, calls) =>
        ManyRoutesKeep(verbs, uri, action, prefix, mw, calls);
      case Nested(attrs, body) =>
        RegisteredKeepsMiddleware(body, GroupPrefix(prefix, attrs), GroupMiddleware(mw, attrs));
    }
  }

  /** The URI inside a group is the outer prefix, "/", and a rest: the group prefix and the route's own URI. */
  lemma GroupPrefixJoin(prefix: string, attrs: GroupAttributes, rest: string)
    ensures exists rest' :: FormatUri(GroupPrefix(prefix, attrs) + "/" + rest) == FormatUri(prefix + "/" + rest')
  {
    if attrs.prefix.Some? {
      var t := Trim(attrs.prefix.value, {'/'});
      SlashAssoc(prefix, t, rest);
      assert FormatUri(GroupPrefix(prefix, attrs) + "/" + rest) == FormatUri(prefix + "/" + (t + "/" + rest));
    } else {
      assert FormatUri(GroupPrefix(prefix, attrs) + "/" + rest) == FormatUri(prefix + "/" + rest);
    }
  }

  lemma SlashAssoc(p: string, t: string, r: string)
    ensures p + "/" + t + "/" + r == p + "/" + (t + "/" + r)
  {
  }

  /** Every route registered under a prefix has the URI of that prefix, "/" and some rest, normalised. */
  lemma {:induction false} RegisteredUnderPrefix(cmds: seq<Registration>, prefix: string, mw: seq<string>)
    ensures forall r :: r in Registered(cmds, prefix, mw) ==> exists rest :: r.uri == FormatUri(prefix + "/" + rest)
    decreases cmds
  {
    if cmds != [] {
      RegisteredUnderPrefix(cmds[1..], prefix, mw);
      var here := RegisteredOne(cmds[0], prefix, mw);
      assert Registered(cmds, prefix, mw) == here + Registered(cmds[1..], prefix, mw);
      match cmds[0]
      case Register(verb, uri, action, calls) =>
        ApplyCallsKeeps(RouteFor(verb, uri, action, prefix, mw), calls);
        assert here[0].uri == FormatUri(prefix + "/" + uri);
      case RegisterMany(verbs, uri, action, calls) =>
        ManyRoutesKeep(verbs, uri, action, prefix, mw, calls);
        assert forall i :: 0 <= i < |here| ==> here[i].uri == FormatUri(prefix + "/" + uri);
      case Nested(attrs, body) =>
        var p' := GroupPrefix(prefix, attrs);
        RegisteredUnderPrefix(body, p', GroupMiddleware(mw, attrs));
        forall r | r in here
          ensures exists rest :: r.uri == FormatUri(prefix + "/" + rest)
        {
          var rest :| r.uri == FormatUri(p' + "/" + rest);
          GroupPrefixJoin(prefix, attrs, rest);
        }
    }
  }

  // ---------------------------------------------------------------- resolution, as values

  /** Route `r` answers a request with method `m` on normalised URI `u`. */
  predicate Hits(r: Route, m: string, u: string) {
    r.verb == m && MatchRoute(r.uri, u)
  }

  /** The index of the first route in table order that `hit` accepts. */
  function FirstWhere(routes: seq<Route>, hit: Route -> bool): (r: Option<nat>)
    ensures r.Some? ==> r.value < |routes|
  {
    if routes == [] then None
    else if hit(routes[0]) then Some(0)
    else match FirstWhere(routes[1..], hit)
      case Some(i) => Some(i + 1)
      case None => None
  }

  /** `FirstWhere` finds an accepted route with none accepted before it, and finds nothing only when no route is accepted. */
  lemma {:induction false} FirstWhereSpec(routes: seq<Route>, hit: Route -> bool)
    ensures FirstWhere(routes, hit).Some? ==> hit(routes[FirstWhere(routes, hit).value])
    ensures FirstWhere(routes, hit).Some? ==> forall j :: 0 <= j < FirstWhere(routes, hit).value ==> !hit(routes[j])
    ensures FirstWhere(routes, hit).None? <==> forall j :: 0 <= j < |routes| ==> !hit(routes[j])
    decreases |routes|
  {
    if routes != [] && !hit(routes[0]) {
      FirstWhereSpec(routes[1..], hit);
      assert forall j :: 1 <= j < |routes| ==> routes[j] == routes[1..][j - 1];
    }
  }

  /** The index of the first route in table order that answers the request. */
  function FirstMatch(routes: seq<Route>, m: string, u: string): Option<nat> {
    FirstWhere(routes, r => Hits(r, m, u))
  }

  /** The route chosen for the request, if any. */
  function Resolved(routes: seq<Route>, m: string, u: string): (r: Option<Route>)
    ensures r.Some? <==> FirstMatch(routes, m, u).Some?
    ensures r.Some? ==> r.value == routes[FirstMatch(routes, m, u).value]
  {
    match FirstMatch(routes, m, u)
    case Some(i) => Some(routes[i])
    case None => None
  }

  lemma {:induction false} FirstWhereStable(routes: seq<Route>, more: seq<Route>, hit: Route -> bool)
    ensures FirstWhere(routes, hit).Some? ==> FirstWhere(routes + more, hit) == FirstWhere(routes, hit)
    ensures FirstWhere(routes, hit).None? ==>
      FirstWhere(routes + more, hit) == (match FirstWhere(more, hit) case Some(j) => Some(|routes| + j) case None => None)
    decreases |routes|
  {
    if routes == [] {
      assert routes + more == more;
    } else {
      assert (routes + more)[0] == routes[0];
      assert (routes + more)[1..] == routes[1..] + more;
      FirstWhereStable(routes[1..], more, hit);
    }
  }

  /** The index an answer moves to when one route is inserted at position `n`. */
  function Shift(o: Option<nat>, n: nat): Option<nat> {
    match o
    case Some(k) => Some(if k < n then k else k + 1)
    case None => None
  }

  /** A table whose first route is rejected answers as its tail does, one index further. */
  lemma FirstWhereTail(routes: seq<Route>, hit: Route -> bool)
    requires routes != [] && !hit(routes[0])
    ensures FirstWhere(routes, hit) == Shift(FirstWhere(routes[1..], hit), 0)
  {
  }

  /** Inserting a route `hit` rejects moves the answer past the insertion point and changes nothing else. */
  lemma {:induction false} WhereIgnoresRejected(a: seq<Route>, r: Route, b: seq<Route>, hit: Route -> bool)
    requires !hit(r)
    ensures FirstWhere(a + [r] + b, hit) == Shift(FirstWhere(a + b, hit), |a|)
    decreases |a|
  {
    var with, without := a + [r] + b, a + b;
    if a == [] {
      assert with == [r] + b;
      assert with[1..] == b;
      assert without == b;
      FirstWhereTail(with, hit);
    } else {
      assert with[0] == a[0] && without[0] == a[0];
      if hit(a[0]) {
        assert FirstWhere(with, hit) == Some(0);
        assert FirstWhere(without, hit) == Some(0);
      } else {
        assert with[1..] == a[1..] + [r] + b;
        assert without[1..] == a[1..] + b;
        WhereIgnoresRejected(a[1..], r, b, hit);
        FirstWhereTail(with, hit);
        FirstWhereTail(without, hit);
      }
    }
  }

  lemma FirstWhereAt(routes: seq<Route>, hit: Route -> bool, i: nat)
    requires i < |routes| && hit(routes[i])
    requires forall j :: 0 <= j < i ==> !hit(routes[j])
    ensures FirstWhere(routes, hit) == Some(i)
  {
    FirstWhereSpec(routes, hit);
  }

  /** The scan of `resolve`: a hit at `i` with none before it is the first match. */
  lemma FirstMatchAt(routes: seq<Route>, m: string, u: string, i: nat)
    requires i < |routes| && Hits(routes[i], m, u)
    requires forall j :: 0 <= j < i ==> !Hits(routes[j], m, u)
    ensures FirstMatch(routes, m, u) == Some(i)
  {
    FirstWhereAt(routes, r => Hits(r, m, u), i);
  }

  /** The scan of `resolve` reaching the end: no route answers. */
  lemma FirstMatchNone(routes: seq<Route>, m: string, u: string)
    requires forall j :: 0 <= j < |routes| ==> !Hits(routes[j], m, u)
    ensures FirstMatch(routes, m, u) == None
  {
    var hit := (r: Route) => Hits(r, m, u);
    FirstWhereSpec(routes, hit);
    assert forall j :: 0 <= j < |routes| ==> !hit(routes[j]);
  }

  /** Routes registered later never change an existing answer; they only answer requests nothing earlier did. */
  lemma FirstMatchStable(routes: seq<Route>, more: seq<Route>, m: string, u: string)
    ensures FirstMatch(routes, m, u).Some? ==> FirstMatch(routes + more, m, u) == FirstMatch(routes, m, u)
    ensures FirstMatch(routes, m, u).None? ==>
      FirstMatch(routes + more, m, u) == (match FirstMatch(more, m, u) case Some(j) => Some(|routes| + j) case None => None)
  {
    FirstWhereStable(routes, more, r => Hits(r, m, u));
  }

  /**
   * A route for another method never shadows anything: inserting it anywhere
   * in the table leaves the answer for method `m` unchanged. In particular a
   * GET route and a POST route on the same URI both stay reachable.
   */
  lemma OtherVerbIgnored(a: seq<Route>, r: Route, b: seq<Route>, m: string, u: string)
    requires r.verb != m
    ensures Resolved(a + [r] + b, m, u) == Resolved(a + b, m, u)
  {
    var with, without := a + [r] + b, a + b;
    WhereIgnoresRejected(a, r, b, x => Hits(x, m, u));
    match FirstMatch(without, m, u)
    case Some(k) =>
      if k < |a| {
        assert with[k] == a[k] == without[k];
      } else {
        assert with[k + 1] == b[k - |a|] == without[k];
      }
    case None =>
  }

  /** Where `callAction` looks for the controller: the API namespace for JSON or `/api/` requests. */
  function IsApiRequest(req: HttpRequest.Request): (r: bool)
    ensures HttpRequest.WantsJson(req) ==> r
    ensures StartsWith(HttpRequest.Uri(req), "/api/") ==> r
    ensures r ==> HttpRequest.WantsJson(req) || StartsWith(HttpRequest.Uri(req), "/api/")
  {
    HttpRequest.WantsJson(req) || StartsWith(HttpRequest.Uri(req), "/api/")
  }

  /** What resolution hands to the controller call: the route found and the namespace choice. */
  datatype Dispatch = Dispatch(index: nat, action: string, middleware: seq<string>, api: bool)

  /** The 404 failure of `resolve`, carrying the method and the normalised URI. */
  datatype RouteError = NotFound(verb: string, uri: string)

  // ---------------------------------------------------------------- the router object

  class Router {
    var routes: seq<Route>
    var currentPrefix: string
    var currentMiddleware: seq<string>
    var parameters: map<string, string>
    var request: Option<HttpRequest.Request>

    /** Everything but the route table. */
    function Context(): (string, seq<string>, map<string, string>, Option<HttpRequest.Request>)
      reads this
    {
      (currentPrefix, currentMiddleware, parameters, request)
    }

    constructor ()
      ensures routes == [] && currentPrefix == "" && currentMiddleware == []
      ensures parameters == map[] && request == None
    {
      routes := [];
      currentPrefix := "";
      currentMiddleware := [];
      parameters := map[];
      request := None;
    }

    /** `addRoute`: appends one route under the current prefix and middleware and returns its registrar. */
    method AddRoute(verb: string, uri: string, action: string) returns (reg: RouteRegistrar)
      modifies this
      ensures routes == old(routes) + [RouteFor(verb, uri, action, currentPrefix, currentMiddleware)]
      ensures Context() == old(Context())
      ensures fresh(reg) && reg.router == this && reg.index == |old(routes)|
    {
      routes := routes + [RouteFor(verb, uri, action, currentPrefix, currentMiddleware)];
      reg := new RouteRegistrar(this, |routes| - 1);
    }

    /** `get`. */
    method Get(uri: string, action: string) returns (reg: RouteRegistrar)
      modifies this
      ensures routes == old(routes) + [RouteFor("GET", uri, action, currentPrefix, currentMiddleware)]
      ensures routes[|routes| - 1].verb == "GET"
      ensures Context() == old(Context())
      ensures reg.router == this && reg.index == |old(routes)|
    {
      assert ToUpper("GET") == "GET";
      reg := AddRoute("GET", uri, action);
    }

    /** `post`. */
    method Post(uri: string, action: string) returns (reg: RouteRegistrar)
      modifies this
      ensures routes == old(routes) + [RouteFor("POST", uri, action, currentPrefix, currentMiddleware)]
      ensures routes[|routes| - 1].verb == "POST"
      ensures Context() == old(Context())
      ensures reg.router == this && reg.index == |old(routes)|
    {
      assert ToUpper("POST") == "POST";
      reg := AddRoute("POST", uri, action);
    }

    /** `put`. */
    method Put(uri: string, action: string) returns (reg: RouteRegistrar)
      modifies this
      ensures routes == old(routes) + [RouteFor("PUT", uri, action, currentPrefix, currentMiddleware)]
      ensures routes[|routes| - 1].verb == "PUT"
      ensures Context() == old(Context())
      ensures reg.router == this && reg.index == |old(routes)|
    {
      assert ToUpper("PUT") == "PUT";
      reg := AddRoute("PUT", uri, action);
    }

    /** `delete`. */
    method Delete(uri: string, action: string) returns (reg: RouteRegistrar)
      modifies this
      ensures routes == old(routes) + [RouteFor("DELETE", uri, action, currentPrefix, currentMiddleware)]
      ensures routes[|routes| - 1].verb == "DELETE"
      ensures Context() == old(Context())
      ensures reg.router == this && reg.index == |old(routes)|
    {
      assert ToUpper("DELETE") == "DELETE";
      reg := AddRoute("DELETE", uri, action);
    }

    /** `patch`. */
    method Patch(uri: string, action: string) returns (reg: RouteRegistrar)
      modifies this
      ensures routes == old(routes) + [RouteFor("PATCH", uri, action, currentPrefix, currentMiddleware)]
      ensures routes[|routes| - 1].verb == "PATCH"
      ensures Context() == old(Context())
      ensures reg.router == this && reg.index == |old(routes)|
    {
      assert ToUpper("PATCH") == "PATCH";
      reg := AddRoute("PATCH", uri, action);
    }

    /**
     * `match`: one route per verb, in list order, each with the same URI and
     * action. The registrar is that of the last route; with no verbs there is
     * none (PHP returns null where a registrar is declared, a TypeError).
     */
    method Match(verbs: seq<string>, uri: string, action: string) returns (reg: Option<RouteRegistrar>)
      modifies this
      ensures routes == old(routes) + VerbRoutes(verbs, uri, action, currentPrefix, currentMiddleware)
      ensures Context() == old(Context())
      ensures reg.None? <==> verbs == []
      ensures reg.Some? ==> reg.value.router == this && reg.value.index == |routes| - 1
    {
      reg := None;
      ghost var prefix, mw, before := currentPrefix, currentMiddleware, routes;
      for i := 0 to |verbs|
        invariant Context() == old(Context())
        invariant currentPrefix == prefix && currentMiddleware == mw
        invariant routes == before + VerbRoutes(verbs[..i], uri, action, prefix, mw)
        invariant if i == 0 then reg.None? else reg.Some? && reg.value.router == this && reg.value.index == |routes| - 1
      {
        ghost var done := routes;
        var verb := ToUpper(verbs[i]);
        var r := AddRoute(verb, uri, action);
        RouteForUpper(verbs[i], uri, action, prefix, mw);
        assert routes == done + [RouteFor(verbs[i], uri, action, prefix, mw)];
        VerbRoutesExtend(before, done, verbs, i, uri, action, prefix, mw);
        reg := Some(r);
      }
      assert verbs[..|verbs|] == verbs;
    }

    /** `any`: exactly GET, POST, PUT, DELETE and PATCH, in that order. */
    method Any(uri: string, action: string) returns (reg: RouteRegistrar)
      modifies this
      ensures routes == old(routes) + VerbRoutes(AnyVerbs, uri, action, currentPrefix, currentMiddleware)
      ensures |routes| == |old(routes)| + 5
      ensures forall i :: 0 <= i < 5 ==> routes[|old(routes)| + i].verb == AnyVerbs[i]
      ensures Context() == old(Context())
      ensures reg.router == this && reg.index == |routes| - 1
    {
      var r := Match(AnyVerbs, uri, action);
      reg := r.value;
      AnyVerbRoutes(uri, action, currentPrefix, currentMiddleware);
    }

    /**
     * `group`: runs the body under the extended prefix and middleware and
     * restores both afterwards.
     */
    method Group(attrs: GroupAttributes, body: seq<Registration>)
      modifies this
      ensures routes == old(routes)
        + Registered(body, GroupPrefix(old(currentPrefix), attrs), GroupMiddleware(old(currentMiddleware), attrs))
      ensures Context() == old(Context())
      decreases Nested(attrs, body), 0
    {
      var previousPrefix := currentPrefix;
      var previousMiddleware := currentMiddleware;
      if attrs.prefix.Some? {
        currentPrefix := previousPrefix + "/" + Trim(attrs.prefix.value, {'/'});
      }
      if attrs.middleware.Some? {
        currentMiddleware := previousMiddleware + AsList(attrs.middleware.value);
      }
      Run(body);
      currentPrefix := previousPrefix;
      currentMiddleware := previousMiddleware;
    }

    /** Runs registration commands in order, as a group callback does. */
    method Run(cmds: seq<Registration>)
      modifies this
      ensures routes == old(routes) + Registered(cmds, currentPrefix, currentMiddleware)
      ensures Context() == old(Context())
      decreases cmds, 2
    {
      ghost var prefix, mw, before := currentPrefix, currentMiddleware, routes;
      var i := 0;
      while i < |cmds|
        invariant 0 <= i <= |cmds|
        invariant Context() == old(Context())
        invariant currentPrefix == prefix && currentMiddleware == mw
        invariant routes == before + Registered(cmds[..i], prefix, mw)
        decreases |cmds| - i
      {
        ghost var done := routes;
        Step(cmds[i]);
        RunStep(before, done, cmds, i, prefix, mw);
        i := i + 1;
      }
      assert cmds[..i] == cmds;
    }

    /** One registration command. */
    method Step(c: Registration)
      modifies this
      ensures routes == old(routes) + RegisteredOne(c, currentPrefix, currentMiddleware)
      ensures Context() == old(Context())
      decreases c, 1
    {
      match c {
        case Register(verb, uri, action, calls) =>
          var reg := AddRoute(verb, uri, action);
          var _ := reg.Apply(calls);
        case RegisterMany(verbs, uri, action, calls) =>
          ghost var before := routes;
          var reg := Match(verbs, uri, action);
          if reg.Some? {
            ManyAfterMatch(before, verbs, uri, action, currentPrefix, currentMiddleware);
            var _ := reg.value.Apply(calls);
            ManyAfterApply(before, verbs, uri, action, currentPrefix, currentMiddleware, calls);
          }
        case Nested(attrs, body) =>
          Group(attrs, body);
      }
    }

    /**
     * `resolve`: the first route in table order whose method equals the
     * request's and whose pattern matches the normalised request URI. Its
     * parameters are stored; when no route answers the result is the 404
     * failure and the stored parameters stay as they were.
     */
    method Resolve(req: HttpRequest.Request) returns (result: Result<Dispatch, RouteError>)
      modifies this
      ensures routes == old(routes) && request == Some(req)
      ensures currentPrefix == old(currentPrefix) && currentMiddleware == old(currentMiddleware)
      ensures var m := HttpRequest.Method(req); var u := FormatUri(HttpRequest.Uri(req));
        match FirstMatch(routes, m, u)
        case Some(i) =>
          && result == Ok(Dispatch(i, routes[i].action, routes[i].middleware, IsApiRequest(req)))
          && parameters == ExtractParameters(routes[i].uri, u)
        case None =>
          result == Err(NotFound(m, u)) && parameters == old(parameters)
    {
      request := Some(req);
      var m := HttpRequest.Method(req);
      var u := FormatUri(HttpRequest.Uri(req));
      result := Answer(m, u, IsApiRequest(req));
    }

    /** The scan and the parameter update of `resolve`, for method `m` on normalised URI `u`. */
    method Answer(m: string, u: string, api: bool) returns (result: Result<Dispatch, RouteError>)
      modifies this
      ensures routes == old(routes) && request == old(request)
      ensures currentPrefix == old(currentPrefix) && currentMiddleware == old(currentMiddleware)
      ensures match FirstMatch(routes, m, u)
        case Some(i) =>
          && result == Ok(Dispatch(i, routes[i].action, routes[i].middleware, api))
          && parameters == ExtractParameters(routes[i].uri, u)
        case None =>
          result == Err(NotFound(m, u)) && parameters == old(parameters)
    {
      var found := Scan(m, u);
      match found {
        case Some(i) =>
          var route := routes[i];
          parameters := ExtractParameters(route.uri, u);
          result := Ok(Dispatch(i, route.action, route.middleware, api));
        case None =>
          result := Err(NotFound(m, u));
      }
    }

    /** The `foreach` of `resolve`: the routes in table order until one answers. */
    method Scan(m: string, u: string) returns (found: Option<nat>)
      ensures found == FirstMatch(routes, m, u)
    {
      var i := 0;
      while i < |routes|
        invariant 0 <= i <= |routes|
        invariant forall j :: 0 <= j < i ==> !Hits(routes[j], m, u)
      {
        if routes[i].verb == m && MatchRoute(routes[i].uri, u) {
          FirstMatchAt(routes, m, u, i);
          return Some(i);
        }
        i := i + 1;
      }
      FirstMatchNone(routes, m, u);
      return None;
    }

    /** `getParameter($key, $default)`. */
    function GetParameter(key: string, default: Option<string>): (r: Option<string>)
      reads this
      ensures key in parameters ==> r == Some(parameters[key])
      ensures key !in parameters ==> r == default
    {
      if key in parameters then Some(parameters[key]) else default
    }
  }

  /** The fluent handle on one registered route. */
  class RouteRegistrar {
    const router: Router
    const index: nat

    constructor (router: Router, index: nat)
      ensures this.router == router && this.index == index
    {
      this.router := router;
      this.index := index;
    }

    /** `middleware($m)`: appends the tags to this route's list; nothing else changes. */
    method Middleware(arg: MiddlewareArg) returns (self: RouteRegistrar)
      requires index < |router.routes|
      modifies router
      ensures self == this
      ensures router.routes == old(router.routes)[index := ApplyCall(old(router.routes)[index], AddMiddleware(arg))]
      ensures router.routes[index].middleware == old(router.routes)[index].middleware + AsList(arg)
      ensures router.Context() == old(router.Context())
    {
      var route := router.routes[index];
      router.routes := router.routes[index := route.(middleware := route.middleware + AsList(arg))];
      self := this;
    }

    /** `name($n)`: sets or overwrites this route's name; nothing else changes. */
    method Name(n: string) returns (self: RouteRegistrar)
      requires index < |router.routes|
      modifies router
      ensures self == this
      ensures router.routes == old(router.routes)[index := ApplyCall(old(router.routes)[index], SetName(n))]
      ensures router.routes[index].name == Some(n)
      ensures router.Context() == old(router.Context())
    {
      router.routes := router.routes[index := router.routes[index].(name := Some(n))];
      self := this;
    }

    /** A chain of registrar calls, left to right. */
    method Apply(calls: seq<RegistrarCall>) returns (self: RouteRegistrar)
      requires index < |router.routes|
      modifies router
      ensures self == this
      ensures router.routes == old(router.routes)[index := ApplyCalls(old(router.routes)[index], calls)]
      ensures router.Context() == old(router.Context())
    {
      self := this;
      for i := 0 to |calls|
        invariant |router.routes| == |old(router.routes)|
        invariant router.routes == old(router.routes)[index := ApplyCalls(old(router.routes)[index], calls[..i])]
        invariant router.Context() == old(router.Context())
      {
        assert calls[..i + 1][..i] == calls[..i];
        match calls[i] {
          case AddMiddleware(arg) =>
            var _ := Middleware(arg);
          case SetName(n) =>
            var _ := Name(n);
        }
      }
      assert calls[..|calls|] == calls;
    }
  }
}
