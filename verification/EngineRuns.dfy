/**
 What a run of the engine is, read off its path alone: which edge each step took and why, from counts of what came
 before it on the path, and why the run ended where it did.
 */
module EngineRuns {
  import opened Wrappers
  import opened Values
  import opened Predicates
  import opened Conditions
  import opened Engine

  // ----- What came before -----

  /** The visit a node is on when it follows these. */
  function VisitOf(visits: map<string, nat>, before: seq<string>, node: string): nat {
    (if node in visits then visits[node] else 0) + multiset(before)[node] + 1
  }

  /** How often the worker has failed at a node among these. */
  function FailuresAt(worker: Worker, visits: map<string, nat>, before: seq<string>, node: string): nat {
    if before == [] then 0
    else
      var init, last := before[..|before| - 1], before[|before| - 1];
      FailuresAt(worker, visits, init, node)
      + if last == node && worker(last, VisitOf(visits, init, last)).Raises? then 1 else 0
  }

  // ----- Which edge is taken -----

  /** What an `on error` handler can ask about: how often this node has failed and been visited, this time included. */
  function FailureFields(message: string, failures: nat, visit: nat): Context {
    map["error" := Bool(true), "error_type" := Str("Error"), "error_message" := Str(message),
        "error_count" := Int(failures), "visits" := Int(visit)]
  }

  predicate TakesFailure(e: FlowEdge, fields: Context) {
    e.cond.OnError? && (e.cond.handler == None || Holds(e.cond.handler.value, fields))
  }

  predicate TakesOutcome(e: FlowEdge, fields: Context) {
    || e.cond.Always?
    || (e.cond.When? && Holds(ExprOf(e.cond.c), fields))
    || (e.cond.Other? && Holds(e.cond.e, fields))
  }

  predicate FirstOnFailure(edges: seq<FlowEdge>, j: nat, fields: Context) {
    j < |edges| && TakesFailure(edges[j], fields) && forall i | 0 <= i < j :: !TakesFailure(edges[i], fields)
  }

  predicate FirstOnOutcome(edges: seq<FlowEdge>, j: nat, fields: Context) {
    j < |edges| && TakesOutcome(edges[j], fields) && forall i | 0 <= i < j :: !TakesOutcome(edges[i], fields)
  }

  function FieldsOf(o: Outcome): Context
    requires !o.Raises?
  {
    if o.Fields? then o.fields else map["text" := Str(o.text)]
  }

  predicate AsksHuman(fields: Context) {
    "needs_human" in fields && fields["needs_human"] == Bool(true)
  }

  predicate AsksToWait(fields: Context) {
    ("spawn" in fields && fields["spawn"] != Nil) || ("wait" in fields && fields["wait"] == Bool(true))
  }

  /** From `node`, after `before`, the run goes on to `next`. */
  predicate GoesOn(g: Graph, worker: Worker, visits: map<string, nat>, before: seq<string>, node: string, next: string) {
    && node in g.nodes
    && var visit := VisitOf(visits, before, node);
       match worker(node, visit)
       case Raises(message) =>
         (var fields := FailureFields(message, FailuresAt(worker, visits, before, node) + 1, visit);
          exists j | 0 <= j < |g.nodes[node]| :: FirstOnFailure(g.nodes[node], j, fields) && g.nodes[node][j].target == next)
       case outcome =>
         && !AsksHuman(FieldsOf(outcome)) && !AsksToWait(FieldsOf(outcome))
         && exists j | 0 <= j < |g.nodes[node]| ::
              FirstOnOutcome(g.nodes[node], j, FieldsOf(outcome)["visits" := Int(visit)]) && g.nodes[node][j].target == next
  }

  /** At `node`, after `before`, the worker is asked and the run ends for this reason. */
  predicate EndsAsked(g: Graph, worker: Worker, visits: map<string, nat>, before: seq<string>, node: string, stop: EngineStop)
    requires node in g.nodes
  {
    var visit := VisitOf(visits, before, node);
    match worker(node, visit)
    case Raises(message) =>
      (var fields := FailureFields(message, FailuresAt(worker, visits, before, node) + 1, visit);
       stop == Propagated(message) && forall j | 0 <= j < |g.nodes[node]| :: !TakesFailure(g.nodes[node][j], fields))
    case outcome =>
      if AsksHuman(FieldsOf(outcome)) then stop == NeedsHuman
      else if AsksToWait(FieldsOf(outcome)) then stop == Waiting
      else
        && stop == NoEdge
        && forall j | 0 <= j < |g.nodes[node]| ::
             !TakesOutcome(g.nodes[node][j], FieldsOf(outcome)["visits" := Int(visit)])
  }

  /** Why the run ends at `node`, with steps left or not, and whether the worker was asked there. */
  predicate Ends(g: Graph, worker: Worker, visits: map<string, nat>, before: seq<string>, node: string, stepsLeft: bool,
                 stop: EngineStop, asked: bool) {
    if !stepsLeft then stop == OutOfSteps && !asked
    else if node !in g.nodes then stop == NoEdge && !asked
    else if g.nodes[node] == [] then stop == Ended && !asked
    else asked && EndsAsked(g, worker, visits, before, node, stop)
  }

  // ----- The engine's own search finds that edge -----

  lemma {:induction false} SearchFinds(edges: seq<FlowEdge>, ctx: Context, failed: bool) returns (j: nat)
    ensures match FirstTarget(edges, ctx, failed)
            case Some(target) =>
              && (if failed then FirstOnFailure(edges, j, ctx) else FirstOnOutcome(edges, j, ctx))
              && edges[j].target == target
            case None =>
              forall i | 0 <= i < |edges| :: if failed then !TakesFailure(edges[i], ctx) else !TakesOutcome(edges[i], ctx)
  {
    j := 0;
    if edges != [] {
      if !(if failed then Handles(edges[0], ctx) else Routes(edges[0], ctx)) {
        var k := SearchFinds(edges[1..], ctx, failed);
        j := k + 1;
        assert forall i | 1 <= i < |edges| :: edges[i] == edges[1..][i - 1];
      }
    }
  }

  /** The counter has its first values and one more for every time its node stands here. */
  ghost predicate Tallies(counted: map<string, nat>, visits: map<string, nat>, stood: seq<string>) {
    forall n :: Count(counted, n) == Count(visits, n) + multiset(stood)[n]
  }

  ghost predicate FailuresTallied(worker: Worker, visits: map<string, nat>, before: seq<string>, errors: map<string, nat>) {
    forall n :: Count(errors, n) == FailuresAt(worker, visits, before, n)
  }

  /** The counters are what the path so far makes them. */
  ghost predicate Counts(worker: Worker, visits: map<string, nat>, before: seq<string>, c: Counters) {
    Tallies(c.visits, visits, before) && FailuresTallied(worker, visits, before, c.errors)
  }

  lemma OneMoreVisit(counted: map<string, nat>, visits: map<string, nat>, before: seq<string>, node: string)
    requires Tallies(counted, visits, before)
    ensures Tallies(Counted(counted, node), visits, before + [node])
    ensures Counted(counted, node)[node] == VisitOf(visits, before, node)
  {
    forall n ensures multiset(before + [node])[n] == multiset(before)[n] + if n == node then 1 else 0 {
      assert multiset(before + [node]) == multiset(before) + multiset([node]);
    }
  }

  lemma OneMoreFailure(worker: Worker, visits: map<string, nat>, before: seq<string>, errors: map<string, nat>, node: string)
    requires FailuresTallied(worker, visits, before, errors)
    ensures FailuresTallied(worker, visits, before + [node],
              if worker(node, VisitOf(visits, before, node)).Raises? then Counted(errors, node) else errors)
    ensures Counted(errors, node)[node] == FailuresAt(worker, visits, before, node) + 1
  {
    assert (before + [node])[..|before|] == before;
  }

  /** What one step does: it goes on, or the run ends here. */
  ghost predicate Settles(g: Graph, worker: Worker, visits: map<string, nat>, before: seq<string>, node: string, m: Move) {
    match m
    case Take(next, c') => GoesOn(g, worker, visits, before, node, next) && Counts(worker, visits, before + [node], c')
    case Stop(stop, c') =>
      var asked := node in g.nodes && g.nodes[node] != [];
      && Ends(g, worker, visits, before, node, true, stop, asked)
      && Tallies(c'.visits, visits, if asked then before + [node] else before)
  }

  lemma FailureSettles(g: Graph, worker: Worker, visits: map<string, nat>, before: seq<string>, node: string, c: Counters)
    requires Counts(worker, visits, before, c) && node in g.nodes && g.nodes[node] != []
    requires worker(node, VisitOf(visits, before, node)).Raises?
    ensures Settles(g, worker, visits, before, node, EngineStep(g, worker, node, c))
  {
    OneMoreVisit(c.visits, visits, before, node);
    OneMoreFailure(worker, visits, before, c.errors, node);
    var visit := VisitOf(visits, before, node);
    var fields := FailureFields(worker(node, visit).message, FailuresAt(worker, visits, before, node) + 1, visit);
    var j := SearchFinds(g.nodes[node], fields, true);
  }

  lemma OutcomeSettles(g: Graph, worker: Worker, visits: map<string, nat>, before: seq<string>, node: string, c: Counters)
    requires Counts(worker, visits, before, c) && node in g.nodes && g.nodes[node] != []
    requires !worker(node, VisitOf(visits, before, node)).Raises?
    ensures Settles(g, worker, visits, before, node, EngineStep(g, worker, node, c))
  {
    OneMoreVisit(c.visits, visits, before, node);
    OneMoreFailure(worker, visits, before, c.errors, node);
    var visit := VisitOf(visits, before, node);
    var fields := FieldsOf(worker(node, visit));
    var j := SearchFinds(g.nodes[node], fields["visits" := Int(visit)], false);
  }

  lemma StepSettles(g: Graph, worker: Worker, visits: map<string, nat>, before: seq<string>, node: string, c: Counters)
    requires Counts(worker, visits, before, c)
    ensures Settles(g, worker, visits, before, node, EngineStep(g, worker, node, c))
  {
    if node in g.nodes && g.nodes[node] != [] {
      if worker(node, VisitOf(visits, before, node)).Raises? {
        FailureSettles(g, worker, visits, before, node, c);
      } else {
        OutcomeSettles(g, worker, visits, before, node, c);
      }
    }
  }

  // ----- Whole runs -----

  predicate Asked(g: Graph, at: seq<string>, bound: nat)
    requires at != []
  {
    |at| <= bound && at[|at| - 1] in g.nodes && g.nodes[at[|at| - 1]] != []
  }

  /**
   The run stood at these nodes in turn, each leading to the next, and ended at the last for its reason, after `bound`
   steps at most; the visit counters count the nodes the worker was asked at.
   */
  ghost predicate Stood(g: Graph, worker: Worker, visits: map<string, nat>, at: seq<string>, bound: nat, r: EngineRun) {
    && at != [] && |at| <= bound + 1
    && (forall k | 0 <= k < |at| - 1 :: GoesOn(g, worker, visits, at[..k], at[k], at[k + 1]))
    && Ends(g, worker, visits, at[..|at| - 1], at[|at| - 1], |at| <= bound, r.stop, Asked(g, at, bound))
    && Tallies(r.visits, visits, if Asked(g, at, bound) then at else at[..|at| - 1])
  }

  /** The nodes and counters of a run, step by step. */
  predicate Traces(es: (string, Counters) -> Move, at: seq<string>, cs: seq<Counters>) {
    |at| == |cs| > 0 && forall k | 0 <= k < |at| - 1 :: es(at[k], cs[k]) == Take(at[k + 1], cs[k + 1])
  }

  /** What the run returns, by where it ended. */
  predicate Returned(es: (string, Counters) -> Move, node: string, c: Counters, stepsLeft: bool, r: EngineRun) {
    if !stepsLeft then r.stop == OutOfSteps && r.visits == c.visits
    else es(node, c).Stop? && es(node, c).stop == r.stop && es(node, c).counters.visits == r.visits
  }

  lemma {:induction false} RunTraces(es: (string, Counters) -> Move, path: seq<string>, node: string, c: Counters, steps: nat)
    returns (at: seq<string>, cs: seq<Counters>)
    ensures Traces(es, at, cs) && at[0] == node && cs[0] == c && |at| <= steps + 1
    ensures var r := NamedRun(es, path, node, c, steps);
            r.path == path + at[1..] && Returned(es, at[|at| - 1], cs[|at| - 1], |at| <= steps, r)
    decreases steps
  {
    at, cs := [node], [c];
    var m := es(node, c);
    if steps > 0 && m.Take? {
      var at', cs' := RunTraces(es, path + [m.next], m.next, m.counters, steps - 1);
      at, cs := [node] + at', [c] + cs';
      assert at' == [m.next] + at'[1..];
      Reassociates(path, [m.next], at'[1..]);
    } else {
      assert path + [] == path;
    }
  }

  lemma {:induction false} TraceCounts(g: Graph, worker: Worker, visits: map<string, nat>, at: seq<string>, cs: seq<Counters>, k: nat)
    requires Traces(EngineSteps(g, worker), at, cs) && Counts(worker, visits, [], cs[0]) && k < |at|
    ensures Counts(worker, visits, at[..k], cs[k])
  {
    if k > 0 {
      TraceCounts(g, worker, visits, at, cs, k - 1);
      StepSettles(g, worker, visits, at[..k - 1], at[k - 1], cs[k - 1]);
      assert EngineSteps(g, worker)(at[k - 1], cs[k - 1]) == Take(at[k], cs[k]);
      assert at[..k] == at[..k - 1] + [at[k - 1]];
    }
  }

  lemma TraceGoesOn(g: Graph, worker: Worker, visits: map<string, nat>, at: seq<string>, cs: seq<Counters>, k: nat)
    requires Traces(EngineSteps(g, worker), at, cs) && Counts(worker, visits, [], cs[0]) && k < |at| - 1
    ensures GoesOn(g, worker, visits, at[..k], at[k], at[k + 1])
  {
    TraceCounts(g, worker, visits, at, cs, k);
    StepSettles(g, worker, visits, at[..k], at[k], cs[k]);
    assert EngineSteps(g, worker)(at[k], cs[k]) == Take(at[k + 1], cs[k + 1]);
  }

  lemma TraceEnds(g: Graph, worker: Worker, visits: map<string, nat>, at: seq<string>, cs: seq<Counters>, bound: nat, r: EngineRun)
    requires Traces(EngineSteps(g, worker), at, cs) && Counts(worker, visits, [], cs[0]) && |at| <= bound + 1
    requires Returned(EngineSteps(g, worker), at[|at| - 1], cs[|at| - 1], |at| <= bound, r)
    ensures Ends(g, worker, visits, at[..|at| - 1], at[|at| - 1], |at| <= bound, r.stop, Asked(g, at, bound))
    ensures Tallies(r.visits, visits, if Asked(g, at, bound) then at else at[..|at| - 1])
  {
    var before, last := at[..|at| - 1], at[|at| - 1];
    TraceCounts(g, worker, visits, at, cs, |at| - 1);
    if |at| <= bound { StepSettles(g, worker, visits, before, last, cs[|at| - 1]); }
    assert before + [last] == at;
  }

  lemma TraceStood(g: Graph, worker: Worker, visits: map<string, nat>, at: seq<string>, cs: seq<Counters>, bound: nat, r: EngineRun)
    requires Traces(EngineSteps(g, worker), at, cs) && Counts(worker, visits, [], cs[0]) && |at| <= bound + 1
    requires Returned(EngineSteps(g, worker), at[|at| - 1], cs[|at| - 1], |at| <= bound, r)
    ensures Stood(g, worker, visits, at, bound, r)
  {
    forall k | 0 <= k < |at| - 1 ensures GoesOn(g, worker, visits, at[..k], at[k], at[k + 1]) {
      TraceGoesOn(g, worker, visits, at, cs, k);
    }
    TraceEnds(g, worker, visits, at, cs, bound, r);
  }

  lemma FromIsExplained(g: Graph, worker: Worker, path: seq<string>, from: string, visits: map<string, nat>, bound: nat)
    returns (at: seq<string>, r: EngineRun)
    ensures r == EngineFrom(g, worker, path, from, Counters(visits, map[]), bound)
    ensures at != [] && at[0] == from && r.path == path + at[1..] && Stood(g, worker, visits, at, bound, r)
  {
    var c := Counters(visits, map[]);
    var cs: seq<Counters>;
    at, cs := RunTraces(EngineSteps(g, worker), path, from, c, bound);
    EngineDrives(g, worker, path, from, c, bound);
    r := EngineFrom(g, worker, path, from, c, bound);
    TraceStood(g, worker, visits, at, cs, bound, r);
  }

  /**
   A whole run, from its path alone: every step takes the first edge that takes the outcome, or after a failure the
   first `on error` edge whose handler takes it, with the counts the path gives; the run ends for the reason its last
   node gives; the visit counters end as the path counts them.
   */
  lemma RunIsExplained(g: Graph, worker: Worker, maxSteps: int, start: string, visits: map<string, nat>)
    returns (at: seq<string>)
    ensures at != [] && at[0] == (if start == "" then g.start else start)
    ensures match RunGraph(g, worker, maxSteps, start, visits)
            case None => HasSemanticEdge(g)
            case Some(r) =>
              && !HasSemanticEdge(g) && r.path == (if at[0] == "" then at[1..] else at)
              && Stood(g, worker, visits, at, if maxSteps <= 0 then 25 else maxSteps, r)
  {
    var from := if start == "" then g.start else start;
    at := [from];
    PortableIsNoSemantic(g);
    if Portable(g) {
      var r;
      at, r := FromIsExplained(g, worker, if from == "" then [] else [from], from, visits, StepBound(maxSteps));
      assert at == [from] + at[1..];
    }
  }

  lemma PortableIsNoSemantic(g: Graph)
    ensures Portable(g) <==> !HasSemanticEdge(g)
  {
  }

  predicate HasSemanticEdge(g: Graph) {
    exists i | 0 <= i < |g.order| && g.order[i] in g.nodes ::
      exists j | 0 <= j < |g.nodes[g.order[i]]| :: g.nodes[g.order[i]][j].cond.Semantic?
  }
}
