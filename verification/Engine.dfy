/**
 The step-bounded flow engine (prismpath-go/engine.go, Run): visit and error counters, the error tier,
 suspension, and the first deterministic edge that holds.
 */
module Engine {
  import opened Wrappers
  import opened Values
  import opened Predicates
  import opened Conditions

  type LevelMCond = c: Cond | LevelM(c) witness Truthy("")

  /** An edge's condition: a keyword, a Level M condition, any other predicate, or one of the other tiers. */
  datatype EdgeCond =
    | Always | Never | When(c: LevelMCond) | Other(e: Expr)
    | OnError(handler: Option<Expr>) | OnEvent | Semantic

  datatype FlowEdge = FlowEdge(target: string, cond: EdgeCond)

  datatype Graph = Graph(nodes: map<string, seq<FlowEdge>>, order: seq<string>, start: string)

  datatype Outcome = Raises(message: string) | Fields(fields: Context) | Text(text: string)

  /** What a worker returns at a node on its `visit`-th visit, counted from 1. */
  type Worker = (string, nat) -> Outcome

  datatype EngineStop = Ended | NoEdge | OutOfSteps | NeedsHuman | Waiting | Propagated(message: string)

  datatype EngineRun = EngineRun(path: seq<string>, stop: EngineStop, visits: map<string, nat>)

  predicate Deterministic(c: EdgeCond) {
    !c.OnError? && !c.OnEvent? && !c.Semantic?
  }

  predicate Portable(g: Graph) {
    forall i | 0 <= i < |g.order| :: g.order[i] in g.nodes ==> NoSemantic(g.nodes[g.order[i]])
  }

  predicate NoSemantic(edges: seq<FlowEdge>) {
    forall j | 0 <= j < |edges| :: !edges[j].cond.Semantic?
  }

  /** A deterministic edge that errs or does not hold is not taken. */
  predicate EdgeHolds(c: EdgeCond, ctx: Context)
    requires Deterministic(c)
  {
    match c
    case Always => true
    case Never => false
    case When(c) => Holds(ExprOf(c), ctx)
    case Other(e) => Holds(e, ctx)
  }

  predicate Routes(e: FlowEdge, ctx: Context) {
    Deterministic(e.cond) && EdgeHolds(e.cond, ctx)
  }

  predicate Handles(e: FlowEdge, ctx: Context) {
    e.cond.OnError? && (e.cond.handler.Some? ==> Holds(e.cond.handler.value, ctx))
  }

  /** The target of the first edge that takes the outcome, or that handles the error. */
  function FirstTarget(edges: seq<FlowEdge>, ctx: Context, failed: bool): Option<string> {
    if edges == [] then None
    else if (if failed then Handles(edges[0], ctx) else Routes(edges[0], ctx)) then Some(edges[0].target)
    else FirstTarget(edges[1..], ctx, failed)
  }

  function Count(m: map<string, nat>, node: string): nat {
    if node in m then m[node] else 0
  }

  function Counted(m: map<string, nat>, node: string): map<string, nat> {
    m[node := Count(m, node) + 1]
  }

  function OutcomeFields(o: Outcome): Context
    requires !o.Raises?
  {
    match o
    case Fields(f) => f
    case Text(t) => map["text" := Str(t)]
  }

  function ErrorContext(message: string, errors: nat, visits: nat): Context {
    map["error" := Bool(true), "error_type" := Str("Error"), "error_message" := Str(message),
        "error_count" := Int(errors), "visits" := Int(visits)]
  }

  function RoutingContext(fields: Context, visits: nat): Context {
    fields["visits" := Int(visits)]
  }

  function Suspends(fields: Context): Option<EngineStop> {
    if Lookup(fields, "needs_human") == Bool(true) then Some(NeedsHuman)
    else if Lookup(fields, "spawn") != Nil then Some(Waiting)
    else if Lookup(fields, "wait") == Bool(true) then Some(Waiting)
    else None
  }

  /** What a run carries from one iteration to the next. */
  datatype Counters = Counters(visits: map<string, nat>, errors: map<string, nat>)

  datatype Move = Take(next: string, counters: Counters) | Stop(stop: EngineStop, counters: Counters)

  function EngineStep(g: Graph, worker: Worker, node: string, c: Counters): Move {
    if node !in g.nodes then Stop(NoEdge, c)
    else if g.nodes[node] == [] then Stop(Ended, c)
    else
      var seen := c.(visits := Counted(c.visits, node));
      match worker(node, seen.visits[node])
      case Raises(message) =>
        (var failed := seen.(errors := Counted(c.errors, node));
         match FirstTarget(g.nodes[node], ErrorContext(message, failed.errors[node], seen.visits[node]), true)
         case Some(target) => Take(target, failed)
         case None => Stop(Propagated(message), failed))
      case outcome =>
        match Suspends(OutcomeFields(outcome))
        case Some(stop) => Stop(stop, seen)
        case None =>
          match FirstTarget(g.nodes[node], RoutingContext(OutcomeFields(outcome), seen.visits[node]), false)
          case Some(target) => Take(target, seen)
          case None => Stop(NoEdge, seen)
  }

  function EngineFrom(g: Graph, worker: Worker, path: seq<string>, node: string, c: Counters, steps: nat): EngineRun
    decreases steps
  {
    if steps == 0 then EngineRun(path, OutOfSteps, c.visits)
    else
      match EngineStep(g, worker, node, c)
      case Stop(stop, c') => EngineRun(path, stop, c'.visits)
      case Take(next, c') => EngineFrom(g, worker, path + [next], next, c', steps - 1)
  }

  // The loop with the step it takes left open.

  function NamedRun(es: (string, Counters) -> Move, path: seq<string>, node: string, c: Counters, steps: nat): EngineRun
    decreases steps
  {
    if steps == 0 then EngineRun(path, OutOfSteps, c.visits)
    else
      match es(node, c)
      case Stop(stop, c') => EngineRun(path, stop, c'.visits)
      case Take(next, c') => NamedRun(es, path + [next], next, c', steps - 1)
  }

  function EngineSteps(g: Graph, worker: Worker): (string, Counters) -> Move {
    (node: string, c: Counters) => EngineStep(g, worker, node, c)
  }

  lemma {:induction false} EngineDrives(g: Graph, worker: Worker, path: seq<string>, node: string, c: Counters, steps: nat)
    ensures EngineFrom(g, worker, path, node, c, steps) == NamedRun(EngineSteps(g, worker), path, node, c, steps)
    decreases steps
  {
    if steps > 0 {
      var m := EngineStep(g, worker, node, c);
      if m.Take? { EngineDrives(g, worker, path + [m.next], m.next, m.counters, steps - 1); }
    }
  }

  function StepBound(maxSteps: int): nat {
    if maxSteps <= 0 then 25 else maxSteps
  }

  /** The whole run; an empty start name is no path entry. */
  function RunGraph(g: Graph, worker: Worker, maxSteps: int, start: string, visits: map<string, nat>): Option<EngineRun> {
    if !Portable(g) then None
    else
      var from := if start == "" then g.start else start;
      Some(EngineFrom(g, worker, if from == "" then [] else [from], from, Counters(visits, map[]), StepBound(maxSteps)))
  }

  method Run(g: Graph, worker: Worker, maxSteps: int, start: string, visits: map<string, nat>)
    returns (r: Option<EngineRun>)
    ensures r == RunGraph(g, worker, maxSteps, start, visits)
  {
    if !Portable(g) { return None; }
    var bound := StepBound(maxSteps);
    var curr := if start == "" then g.start else start;
    var path := if curr == "" then [] else [curr];
    var counters := Counters(visits, map[]);
    ghost var whole := EngineFrom(g, worker, path, curr, counters, bound);
    for step := 0 to bound
      invariant EngineFrom(g, worker, path, curr, counters, bound - step) == whole
    {
      if curr !in g.nodes { return Some(EngineRun(path, NoEdge, counters.visits)); }
      var edges := g.nodes[curr];
      if |edges| == 0 { return Some(EngineRun(path, Ended, counters.visits)); }
      ghost var before := counters;
      counters := counters.(visits := Counted(counters.visits, curr));
      var seen := counters.visits[curr];
      var outcome := worker(curr, seen);
      var target: Option<string>;
      if outcome.Raises? {
        counters := counters.(errors := Counted(counters.errors, curr));
        target := Search(edges, ErrorContext(outcome.message, counters.errors[curr], seen), true);
        if target == None { return Some(EngineRun(path, Propagated(outcome.message), counters.visits)); }
      } else {
        var fields := OutcomeFields(outcome);
        var pause := Suspends(fields);
        if pause.Some? { return Some(EngineRun(path, pause.value, counters.visits)); }
        target := Search(edges, RoutingContext(fields, seen), false);
        if target == None { return Some(EngineRun(path, NoEdge, counters.visits)); }
      }
      assert EngineStep(g, worker, curr, before) == Take(target.value, counters);
      curr := target.value;
      path := path + [curr];
    }
    r := Some(EngineRun(path, OutOfSteps, counters.visits));
  }

  method Search(edges: seq<FlowEdge>, ctx: Context, failed: bool) returns (target: Option<string>)
    ensures target == FirstTarget(edges, ctx, failed)
  {
    for i := 0 to |edges|
      invariant FirstTarget(edges[i..], ctx, failed) == FirstTarget(edges, ctx, failed)
    {
      var e := edges[i];
      assert edges[i..][0] == e && edges[i..][1..] == edges[i + 1..];
      if if failed then Handles(e, ctx) else Routes(e, ctx) { return Some(e.target); }
    }
    target := None;
  }

  // ----- What every run keeps -----

  predicate HasEdge(g: Graph, from: string, to: string) {
    from in g.nodes && exists j | 0 <= j < |g.nodes[from]| :: g.nodes[from][j].target == to
  }

  predicate Walks(g: Graph, path: seq<string>) {
    forall i | 0 <= i < |path| - 1 :: HasEdge(g, path[i], path[i + 1])
  }

  lemma {:induction false} FirstTargetIsEdge(edges: seq<FlowEdge>, ctx: Context, failed: bool)
    ensures FirstTarget(edges, ctx, failed).Some? ==>
              exists j | 0 <= j < |edges| :: edges[j].target == FirstTarget(edges, ctx, failed).value
  {
    if edges != [] {
      FirstTargetIsEdge(edges[1..], ctx, failed);
      if j :| 0 <= j < |edges[1..]| && Some(edges[1..][j].target) == FirstTarget(edges[1..], ctx, failed) {
        assert edges[j + 1].target == edges[1..][j].target;
      }
    }
  }

  /**
   Whatever the worker does, the path follows edges of the graph, has at most one entry per step after the
   first, and a run that names a node it cannot leave stops there.
   */
  lemma {:induction false} RunWalksEdges(g: Graph, worker: Worker, path: seq<string>, node: string, c: Counters, steps: nat)
    requires path != [] && path[|path| - 1] == node && Walks(g, path)
    ensures var r := EngineFrom(g, worker, path, node, c, steps);
            && Walks(g, r.path) && path <= r.path && |r.path| <= |path| + steps
            && (r.stop == OutOfSteps ==> |r.path| == |path| + steps)
            && (r.stop == Ended ==> r.path[|r.path| - 1] in g.nodes && g.nodes[r.path[|r.path| - 1]] == [])
    decreases steps
  {
    if steps > 0 {
      match EngineStep(g, worker, node, c)
      case Stop(_, _) =>
      case Take(next, c') =>
        assert HasEdge(g, node, next) by { StepFollowsEdge(g, worker, node, c); }
        RunWalksEdges(g, worker, path + [next], next, c', steps - 1);
    }
  }

  lemma StepFollowsEdge(g: Graph, worker: Worker, node: string, c: Counters)
    requires EngineStep(g, worker, node, c).Take?
    ensures HasEdge(g, node, EngineStep(g, worker, node, c).next)
  {
    var visits := Count(c.visits, node) + 1;
    match worker(node, visits)
    case Raises(message) =>
      FirstTargetIsEdge(g.nodes[node], ErrorContext(message, Count(c.errors, node) + 1, visits), true);
    case outcome =>
      FirstTargetIsEdge(g.nodes[node], RoutingContext(OutcomeFields(outcome), visits), false);
  }
}
