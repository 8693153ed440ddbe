/**
 Whole runs: the interpreter on the compiled image, driven by the encoded script, walks the path the engine
 walks on the graph, counts the same visits and stops for the same reason.
 */
module FlowRefinement {
  import opened Wrappers
  import opened Values
  import opened Predicates
  import opened Conditions
  import opened Table
  import opened Interp
  import opened Compiler
  import opened CompilerCorrectness
  import opened StackDepth
  import opened Flatten
  import opened Engine
  import opened FlowCompiler
  import opened FlowStability
  import opened Scripts

  // ----- One node -----

  /** The kernel can evaluate the condition: its tree is within the depth bound. */
  predicate Evaluable(c: EdgeCond) {
    c.When? ==> Height(ExprOf(c.c)) <= MAX_PREDICATE_DEPTH
  }

  predicate AllEvaluable(edges: seq<FlowEdge>) {
    edges == [] || (Evaluable(edges[0].cond) && AllEvaluable(edges[1..]))
  }

  predicate Fires(b: Branch, truth: seq<bool>) {
    ExecVerdict(b.prog, truth, INTERP_STACK) == Done(true)
  }

  /** The target of the first branch whose program comes out true. */
  function TakenTarget(branches: seq<Branch>, truth: seq<bool>): Option<nat> {
    if branches == [] then None
    else if Fires(branches[0], truth) then Some(branches[0].target)
    else TakenTarget(branches[1..], truth)
  }

  lemma {:induction false} TakenIsFirstTrue(branches: seq<Branch>, truth: seq<bool>, from: nat)
    requires from <= |branches|
    ensures TakenTarget(branches[from..], truth) ==
            match FirstTrue(branches, truth, from, INTERP_STACK)
            case None => None
            case Some(j) => Some(branches[j].target)
    decreases |branches| - from
  {
    if from < |branches| {
      TakenIsFirstTrue(branches, truth, from + 1);
      assert branches[from..][0] == branches[from] && branches[from..][1..] == branches[from + 1..];
    }
  }

  /** An edge's program, on registers that represent the context, decides what the engine decides of the edge. */
  lemma ProgDecides(end: Tables, c: EdgeCond, intern: map<string, nat>, ctx: Context, regs: seq<Reg>)
    requires KnowsCond(end, c) && Evaluable(c) && Environment(end, intern, ctx, regs)
    requires WellStacked(ProgOf(end, c), |end.atoms|, INTERP_STACK)
    ensures ExecVerdict(ProgOf(end, c), AtomTruth(end.atoms, regs), INTERP_STACK) == Done(EdgeHolds(c, ctx))
  {
    var truth := AtomTruth(end.atoms, regs);
    match c
    case Always => ExecOne(OPC_TRUE, truth, [], INTERP_STACK);
    case Never => ExecOne(OPC_FALSE, truth, [], INTERP_STACK);
    case When(c) =>
      CompiledRunsIffPeakFits(end, c, INTERP_STACK);
      WordsDecide(end, c, intern, ctx, regs, [], INTERP_STACK);
      KernelEvalIsTruth(c, ctx);
      assert [] + [Truth(c, ctx)] == [Truth(c, ctx)];
  }

  predicate BranchesFit(branches: seq<Branch>, nAtoms: nat) {
    forall j | 0 <= j < |branches| :: WellStacked(branches[j].prog, nAtoms, INTERP_STACK)
  }

  lemma {:induction false} EdgesAgree(end: Tables, edges: seq<FlowEdge>, idx: map<string, nat>,
                                      intern: map<string, nat>, ctx: Context, regs: seq<Reg>)
    requires KnowsEdges(end, edges, idx) && AllEvaluable(edges) && Environment(end, intern, ctx, regs)
    requires BranchesFit(BranchesOf(end, edges, idx), |end.atoms|)
    ensures match FirstTarget(edges, ctx, false)
            case None => TakenTarget(BranchesOf(end, edges, idx), AtomTruth(end.atoms, regs)) == None
            case Some(target) =>
              target in idx && TakenTarget(BranchesOf(end, edges, idx), AtomTruth(end.atoms, regs)) == Some(idx[target])
  {
    if edges != [] {
      var branches := BranchesOf(end, edges, idx);
      if !Skipped(edges[0].cond) {
        assert branches[0].prog == ProgOf(end, edges[0].cond) && branches[1..] == BranchesOf(end, edges[1..], idx);
        ProgDecides(end, edges[0].cond, intern, ctx, regs);
      }
      EdgesAgree(end, edges[1..], idx, intern, ctx, regs);
    }
  }

  // ----- One visit -----

  lemma OverrideReads(fields: map<string, nat>, intern: map<string, nat>, ctx: Context, row: seq<Reg>, visit: nat)
    requires Numbering(fields) && |row| == |fields| && 0 < visit <= 0xFFFF && Reads(fields, intern, ctx, row)
    ensures Reads(fields, intern, RoutingContext(ctx, visit),
                  if "visits" in fields then row[fields["visits"] := Reg(TY_INT, visit)] else row)
  {
    var regs := if "visits" in fields then row[fields["visits"] := Reg(TY_INT, visit)] else row;
    forall name | name in fields
      ensures Represents(intern, Lookup(RoutingContext(ctx, visit), name), ReadReg(regs, fields[name]))
    {
      assert Represents(intern, Lookup(ctx, name), ReadReg(row, fields[name]));
    }
  }

  function VisitsIdx(fields: map<string, nat>): nat {
    if "visits" in fields then fields["visits"] else VISITS_NONE
  }

  function Shown<T>(items: seq<T>, visit: nat): T
    requires items != [] && visit > 0
  {
    items[if visit - 1 < |items| then visit - 1 else |items| - 1]
  }

  /** The register file of a visit reads as the engine's routing context: the outcome's fields and the visit count. */
  lemma RowReads(t: Tables, im: Image, rows: seq<seq<Reg>>, outcomes: seq<Outcome>, visit: nat)
    returns (intern: map<string, nat>)
    requires Valid(t) && |t.atoms| <= 0x8000 && |t.fields| <= 0xFFFF
    requires Sound(im) && im.visitsIdx == VisitsIdx(t.fields)
    requires |rows| == |outcomes| > 0 && RowsStand(t, outcomes, rows) && 0 < visit <= 0xFFFF
    requires RowsFit(im, rows)
    ensures var o := Shown(outcomes, visit);
            && !o.Raises? && !Pauses(OutcomeFields(o))
            && Environment(t, intern, RoutingContext(OutcomeFields(o), visit), RowOf(im, rows, visit))
  {
    var o, row := Shown(outcomes, visit), Shown(rows, visit);
    assert Stands(t, o, row);
    intern :| Includes(t.intern, intern) && Numbering(intern) && Reads(t.fields, intern, OutcomeFields(o), row);
    OverrideReads(t.fields, intern, OutcomeFields(o), row, visit);
  }

  // ----- One step -----

  ghost predicate ScriptFits(t: Tables, outcomes: seq<Outcome>, rows: seq<seq<Reg>>) {
    |rows| == |outcomes| > 0 && RowsStand(t, outcomes, rows)
  }

  predicate TablesFit(t: Tables, im: Image) {
    |t.atoms| <= 0x8000 && |t.fields| <= 0xFFFF && im.visitsIdx == VisitsIdx(t.fields) && im.atoms == t.atoms
  }

  /** What node `i` of the flow, of its image, of its script and of the encoded rows have to do with one another. */
  ghost predicate NodeAgrees(g: Graph, f: Flow, im: Image, script: FlowScript, rows: Script, i: nat)
    requires i < |f.names| == |f.nodes| == |rows|
  {
    && f.names[i] in g.nodes && NodeCompiled(f.tables, g.nodes[f.names[i]], Index(f.names), f.nodes[i])
    && AllEvaluable(g.nodes[f.names[i]]) && BranchesFit(f.nodes[i], |f.tables.atoms|)
    && ScriptFits(f.tables, OutcomesFor(script, f.names[i]), rows[i])
    && Valid(f.tables) && TablesFit(f.tables, im) && Flattens(im, f.nodes) && Distinct(f.names)
    && ProgramsRun(im, INTERP_STACK)
  }

  ghost predicate Setting(g: Graph, f: Flow, im: Image, script: FlowScript, rows: Script) {
    && |f.names| == |f.nodes| == |rows| == |im.nodes|
    && forall i | 0 <= i < |f.names| :: NodeAgrees(g, f, im, script, rows, i)
  }

  predicate SameVisits(f: Flow, visits: seq<nat>, c: Counters) {
    |visits| == |f.names| && forall i | 0 <= i < |visits| :: visits[i] == Count(c.visits, f.names[i])
  }

  /** The nodes the table runs out of edges at: those whose edges, if any, are all error or event edges. */
  predicate LooksTerminal(edges: seq<FlowEdge>) {
    forall j | 0 <= j < |edges| :: !Deterministic(edges[j].cond)
  }

  /**
   How the table names the engine's reason to stop. They part in one case only: a node left with error or
   event edges alone is stuck for the engine and terminal for the table.
   */
  function TableStop(edges: seq<FlowEdge>, stop: EngineStop): Option<Stop> {
    match stop
    case Ended => Some(Terminal)
    case NoEdge => Some(if LooksTerminal(edges) then Terminal else Stuck)
    case OutOfSteps => Some(MaxSteps)
    case _ => None
  }

  lemma {:induction false} NoBranchesIffLooksTerminal(end: Tables, edges: seq<FlowEdge>, idx: map<string, nat>)
    requires KnowsEdges(end, edges, idx)
    ensures BranchesOf(end, edges, idx) == [] <==> LooksTerminal(edges)
  {
    if edges != [] {
      NoBranchesIffLooksTerminal(end, edges[1..], idx);
      assert forall j | 0 <= j < |edges[1..]| :: edges[1..][j] == edges[j + 1];
      if Skipped(edges[0].cond) {
        assert LooksTerminal(edges[1..]) ==> forall j | 1 <= j < |edges| :: edges[j] == edges[1..][j - 1];
      }
    }
  }

  lemma PlayerShows(script: FlowScript, name: string, visit: nat)
    requires OutcomesFor(script, name) != [] && visit > 0
    ensures Player(script)(name, visit) == Shown(OutcomesFor(script, name), visit)
  {
  }

  lemma VisitReads(t: Tables, im: Image, script: FlowScript, rows: seq<seq<Reg>>, name: string, visit: nat)
    returns (intern: map<string, nat>, o: Outcome)
    requires Valid(t) && TablesFit(t, im) && ScriptFits(t, OutcomesFor(script, name), rows) && Sound(im) && RowsFit(im, rows)
    requires 0 < visit <= 0xFFFF
    ensures o == Player(script)(name, visit) && !o.Raises? && !Pauses(OutcomeFields(o))
    ensures Environment(t, intern, RoutingContext(OutcomeFields(o), visit), RowOf(im, rows, visit))
  {
    intern := RowReads(t, im, rows, OutcomesFor(script, name), visit);
    o := Shown(OutcomesFor(script, name), visit);
    PlayerShows(script, name, visit);
  }

  /** The engine's step at a node with edges, when the outcome neither raises nor suspends, is one search. */
  lemma EngineSearches(g: Graph, worker: Worker, name: string, c: Counters, o: Outcome)
    requires name in g.nodes && g.nodes[name] != [] && o == worker(name, Count(c.visits, name) + 1)
    requires !o.Raises? && !Pauses(OutcomeFields(o))
    ensures var counted := c.(visits := Counted(c.visits, name));
            EngineStep(g, worker, name, c) ==
            match FirstTarget(g.nodes[name], RoutingContext(OutcomeFields(o), Count(c.visits, name) + 1), false)
            case Some(target) => Take(target, counted)
            case None => Stop(NoEdge, counted)
  {
    assert Suspends(OutcomeFields(o)) == None;
  }

  /** The table's scan of a node finds the first branch that fires. */
  lemma ScanTakes(im: Image, nodes: seq<seq<Branch>>, i: nat, truth: seq<bool>) returns (r: Option<nat>)
    requires Flattens(im, nodes) && ProgramsRun(im, INTERP_STACK) && i < |nodes| == |im.nodes| && |truth| == |im.atoms|
    ensures EdgesInRange(im, im.nodes[i]) && im.nodes[i].edgeCnt == |nodes[i]|
    ensures Scan(im, im.nodes[i], truth, 0, INTERP_STACK) == Done(r)
    ensures TakenTarget(nodes[i], truth) ==
            if r.Some? && r.value < |nodes[i]| then Some(nodes[i][r.value].target) else None
    ensures r.Some? ==> r.value < |nodes[i]| && im.edges[im.nodes[i].edgeOff + r.value].target == nodes[i][r.value].target
  {
    BranchesAt(nodes, i);
    ScanFindsFirst(im, im.nodes[i], truth, 0, INTERP_STACK);
    FlatScanFrom(im, nodes, i, truth, 0, INTERP_STACK);
    TakenIsFirstTrue(nodes[i], truth, 0);
    assert nodes[i][0..] == nodes[i];
    r := FirstTrue(nodes[i], truth, 0, INTERP_STACK);
    if r.Some? { FlatEdge(im, nodes, i, r.value); }
  }

  lemma TableTakes(im: Image, nodes: seq<seq<Branch>>, rows: Script, i: nat, visits: seq<nat>)
    requires Flattens(im, nodes) && ProgramsRun(im, INTERP_STACK)
    requires Sound(im) && Fits(im, rows) && |visits| == |im.nodes| && i < |nodes| == |im.nodes| && rows[i] != []
    ensures RunStep(im, rows, i, visits) ==
            if nodes[i] == [] then Halt(Terminal)
            else match TakenTarget(nodes[i], AtomTruth(im.atoms, RowOf(im, rows[i], visits[i] + 1)))
                 case None => Halt(Stuck)
                 case Some(target) => Go(target, visits[i := visits[i] + 1])
  {
    var r := ScanTakes(im, nodes, i, AtomTruth(im.atoms, RowOf(im, rows[i], visits[i] + 1)));
  }

  lemma CountedKeepsVisits(f: Flow, visits: seq<nat>, c: Counters, i: nat)
    requires Distinct(f.names) && SameVisits(f, visits, c) && i < |f.names|
    ensures SameVisits(f, visits[i := visits[i] + 1], c.(visits := Counted(c.visits, f.names[i])))
  {
  }

  /** The engine's move, when its search finds the edge to node `taken`, or none. */
  predicate EngineTakes(f: Flow, m: Move, counted: Counters, taken: Option<nat>) {
    match taken
    case None => m == Stop(NoEdge, counted)
    case Some(n) => n < |f.names| && m == Take(f.names[n], counted)
  }

  /** The table's move, when its scan finds the edge to node `taken`, or none. */
  predicate TableTaken(a: Advance, terminal: bool, visits: seq<nat>, taken: Option<nat>) {
    match taken
    case None => a == Halt(if terminal then Terminal else Stuck)
    case Some(n) => !terminal && a == Go(n, visits)
  }

  predicate FoundAs(f: Flow, found: Option<string>, taken: Option<nat>) {
    match found
    case None => taken == None
    case Some(target) => target in Index(f.names) && taken == Some(Index(f.names)[target])
  }

  lemma FoundIsTaken(f: Flow, found: Option<string>, m: Move, counted: Counters, taken: Option<nat>)
    requires Distinct(f.names)
    requires m == match found case Some(target) => Take(target, counted) case None => Stop(NoEdge, counted)
    requires FoundAs(f, found, taken)
    ensures EngineTakes(f, m, counted, taken)
  {
  }

  /** The outcome of the visit, and that the engine's search over it finds the branch the table finds. */
  lemma RowFinds(g: Graph, f: Flow, im: Image, script: FlowScript, rows: Script, i: nat, visit: nat, taken: Option<nat>)
    returns (o: Outcome)
    requires i < |f.names| == |f.nodes| == |rows| && NodeAgrees(g, f, im, script, rows, i)
    requires Sound(im) && RowsFit(im, rows[i]) && rows[i] != [] && 0 < visit <= 0xFFFF
    requires taken == TakenTarget(f.nodes[i], AtomTruth(im.atoms, RowOf(im, rows[i], visit)))
    ensures o == Player(script)(f.names[i], visit) && !o.Raises? && !Pauses(OutcomeFields(o))
    ensures f.names[i] in g.nodes
    ensures FoundAs(f, FirstTarget(g.nodes[f.names[i]], RoutingContext(OutcomeFields(o), visit), false), taken)
  {
    var intern;
    intern, o := VisitReads(f.tables, im, script, rows[i], f.names[i], visit);
    EdgesAgree(f.tables, g.nodes[f.names[i]], Index(f.names), intern, RoutingContext(OutcomeFields(o), visit),
               RowOf(im, rows[i], visit));
  }

  /** The two searches of one visit find the same edge, or neither finds one. */
  lemma SearchesAgree(g: Graph, f: Flow, im: Image, script: FlowScript, rows: Script, i: nat, visit: nat, c: Counters,
                      taken: Option<nat>)
    requires i < |f.names| == |f.nodes| == |rows| && NodeAgrees(g, f, im, script, rows, i)
    requires Sound(im) && RowsFit(im, rows[i]) && g.nodes[f.names[i]] != []
    requires visit == Count(c.visits, f.names[i]) + 1 <= 0xFFFF && rows[i] != []
    requires taken == TakenTarget(f.nodes[i], AtomTruth(im.atoms, RowOf(im, rows[i], visit)))
    ensures EngineTakes(f, EngineStep(g, Player(script), f.names[i], c), c.(visits := Counted(c.visits, f.names[i])), taken)
  {
    var o := RowFinds(g, f, im, script, rows, i, visit, taken);
    EngineSearches(g, Player(script), f.names[i], c, o);
    FoundIsTaken(f, FirstTarget(g.nodes[f.names[i]], RoutingContext(OutcomeFields(o), visit), false),
                 EngineStep(g, Player(script), f.names[i], c), c.(visits := Counted(c.visits, f.names[i])), taken);
  }

  /** One iteration of the table is one iteration of the engine. */
  predicate StepsMatch(g: Graph, f: Flow, c: Counters, m: Move, a: Advance, edges: seq<FlowEdge>) {
    match m
    case Take(next, c') => a.Go? && a.next < |f.names| && f.names[a.next] == next && SameVisits(f, a.visits, c')
    case Stop(stop, c') => TableStop(edges, stop).Some? && a == Halt(TableStop(edges, stop).value)
  }

  lemma MovesMatch(g: Graph, f: Flow, c: Counters, i: nat, visits: seq<nat>, taken: Option<nat>, m: Move, a: Advance,
                   edges: seq<FlowEdge>)
    requires Distinct(f.names) && i < |f.names| && SameVisits(f, visits, c) && edges != []
    requires EngineTakes(f, m, c.(visits := Counted(c.visits, f.names[i])), taken)
    requires TableTaken(a, LooksTerminal(edges), visits[i := visits[i] + 1], taken)
    ensures StepsMatch(g, f, c, m, a, edges)
  {
    CountedKeepsVisits(f, visits, c, i);
  }

  lemma TableStepAt(g: Graph, f: Flow, im: Image, script: FlowScript, rows: Script, i: nat, visits: seq<nat>, visit: nat)
    returns (taken: Option<nat>)
    requires i < |f.names| == |f.nodes| == |rows| == |im.nodes| && NodeAgrees(g, f, im, script, rows, i)
    requires |visits| == |im.nodes| && Sound(im) && Fits(im, rows) && visit == visits[i] + 1
    ensures Distinct(f.names) && rows[i] != [] && RowsFit(im, rows[i])
    ensures taken == TakenTarget(f.nodes[i], AtomTruth(im.atoms, RowOf(im, rows[i], visit)))
    ensures TableTaken(RunStep(im, rows, i, visits), LooksTerminal(g.nodes[f.names[i]]), visits[i := visit], taken)
  {
    taken := TakenTarget(f.nodes[i], AtomTruth(im.atoms, RowOf(im, rows[i], visit)));
    TableTakes(im, f.nodes, rows, i, visits);
    NoBranchesIffLooksTerminal(f.tables, g.nodes[f.names[i]], Index(f.names));
  }

  lemma EndedMatches(g: Graph, f: Flow, worker: Worker, node: string, c: Counters)
    requires node in g.nodes && g.nodes[node] == []
    ensures StepsMatch(g, f, c, EngineStep(g, worker, node, c), Halt(Terminal), [])
  {
  }

  lemma StepsAgree(g: Graph, f: Flow, im: Image, script: FlowScript, rows: Script, i: nat, visits: seq<nat>, c: Counters)
    requires i < |f.names| == |f.nodes| == |rows| == |im.nodes| && NodeAgrees(g, f, im, script, rows, i)
    requires SameVisits(f, visits, c) && visits[i] < 0xFFFF && Sound(im) && Fits(im, rows)
    ensures StepsMatch(g, f, c, EngineStep(g, Player(script), f.names[i], c), RunStep(im, rows, i, visits), g.nodes[f.names[i]])
  {
    if g.nodes[f.names[i]] == [] {
      var taken := TableStepAt(g, f, im, script, rows, i, visits, visits[i] + 1);
      EndedMatches(g, f, Player(script), f.names[i], c);
    } else {
      OpenStepsAgree(g, f, im, script, rows, i, visits, c);
    }
  }

  lemma OpenStepsAgree(g: Graph, f: Flow, im: Image, script: FlowScript, rows: Script, i: nat, visits: seq<nat>, c: Counters)
    requires i < |f.names| == |f.nodes| == |rows| == |im.nodes| && NodeAgrees(g, f, im, script, rows, i)
    requires SameVisits(f, visits, c) && visits[i] < 0xFFFF && Sound(im) && Fits(im, rows) && g.nodes[f.names[i]] != []
    ensures StepsMatch(g, f, c, EngineStep(g, Player(script), f.names[i], c), RunStep(im, rows, i, visits), g.nodes[f.names[i]])
  {
    var m, a := EngineStep(g, Player(script), f.names[i], c), RunStep(im, rows, i, visits);
    var visit := visits[i] + 1;
    var taken := TableStepAt(g, f, im, script, rows, i, visits, visit);
    SearchesAgree(g, f, im, script, rows, i, visit, c, taken);
    MovesMatch(g, f, c, i, visits, taken, m, a, g.nodes[f.names[i]]);
  }

  /** The one place where they part: at a node left with error or event edges alone, whatever the outcome, the engine
      has counted the visit and is stuck, and the table, which has no edge there, is terminal. */
  lemma ErrorEdgesPart(g: Graph, f: Flow, im: Image, script: FlowScript, rows: Script, i: nat, visits: seq<nat>, c: Counters)
    requires i < |f.names| == |f.nodes| == |rows| == |im.nodes| && NodeAgrees(g, f, im, script, rows, i)
    requires SameVisits(f, visits, c) && visits[i] < 0xFFFF && Sound(im) && Fits(im, rows)
    requires g.nodes[f.names[i]] != [] && LooksTerminal(g.nodes[f.names[i]])
    ensures EngineStep(g, Player(script), f.names[i], c) == Stop(NoEdge, c.(visits := Counted(c.visits, f.names[i])))
    ensures RunStep(im, rows, i, visits) == Halt(Terminal)
  {
    var visit := visits[i] + 1;
    var taken := TableStepAt(g, f, im, script, rows, i, visits, visit);
    SearchesAgree(g, f, im, script, rows, i, visit, c, taken);
  }

  // ----- Whole runs -----

  predicate Renames(names: seq<string>, path: seq<nat>, named: seq<string>) {
    |path| == |named| && forall k | 0 <= k < |path| :: path[k] < |names| && names[path[k]] == named[k]
  }

  predicate SameRun(g: Graph, names: seq<string>, e: EngineRun, t: Trace) {
    && Renames(names, t.path, e.path) && e.path != [] && e.path[|e.path| - 1] in g.nodes
    && Some(t.stop) == TableStop(g.nodes[e.path[|e.path| - 1]], e.stop)
  }

  predicate VisitsBelow(visits: seq<nat>, bound: nat) {
    forall i | 0 <= i < |visits| :: visits[i] <= bound
  }

  predicate AlikeAt(g: Graph, f: Flow, es: (string, Counters) -> Move, ts: (nat, seq<nat>) -> Advance,
                    node: nat, visits: seq<nat>, c: Counters)
    requires node < |f.names| == |visits|
  {
    var m, a := es(f.names[node], c), ts(node, visits);
    f.names[node] in g.nodes && StepsMatch(g, f, c, m, a, g.nodes[f.names[node]])
    && (a.Go? ==> a.visits == visits[node := visits[node] + 1])
  }

  /** From counters that agree the two steps go to the same node, or stop for reasons the table names alike. */
  ghost predicate Alike(g: Graph, f: Flow, es: (string, Counters) -> Move, ts: (nat, seq<nat>) -> Advance) {
    forall node: nat, visits: seq<nat>, c: Counters |
      node < |f.names| && SameVisits(f, visits, c) && visits[node] < 0xFFFF :: AlikeAt(g, f, es, ts, node, visits, c)
  }

  lemma SettingIsAlike(g: Graph, f: Flow, im: Image, script: FlowScript, rows: Script)
    requires Setting(g, f, im, script, rows) && Sound(im) && Fits(im, rows)
    ensures Alike(g, f, EngineSteps(g, Player(script)), TableSteps(im, rows))
  {
    forall node: nat, visits: seq<nat>, c: Counters | node < |f.names| && SameVisits(f, visits, c) && visits[node] < 0xFFFF
      ensures AlikeAt(g, f, EngineSteps(g, Player(script)), TableSteps(im, rows), node, visits, c)
    {
      assert NodeAgrees(g, f, im, script, rows, node);
      StepsAgree(g, f, im, script, rows, node, visits, c);
    }
  }

  lemma OneMoreVisit(visits: seq<nat>, node: nat, bound: nat)
    requires VisitsBelow(visits, bound) && node < |visits|
    ensures VisitsBelow(visits[node := visits[node] + 1], bound + 1)
  {
  }

  lemma {:induction false} RunsAgree(g: Graph, f: Flow, es: (string, Counters) -> Move, ts: (nat, seq<nat>) -> Advance,
                                     path: seq<nat>, named: seq<string>, node: nat, visits: seq<nat>, c: Counters, steps: nat)
    requires Alike(g, f, es, ts) && (forall i | 0 <= i < |f.names| :: f.names[i] in g.nodes)
    requires path != [] && path[|path| - 1] == node && Renames(f.names, path, named)
    requires SameVisits(f, visits, c) && steps <= 0xFFFF && VisitsBelow(visits, 0xFFFF - steps)
    ensures SameRun(g, f.names, NamedRun(es, named, f.names[node], c, steps), TableRun(ts, path, node, visits, steps))
    decreases steps
  {
    if steps > 0 {
      var m, a := es(f.names[node], c), ts(node, visits);
      assert AlikeAt(g, f, es, ts, node, visits, c);
      if m.Take? {
        OneMoreVisit(visits, node, 0xFFFF - steps);
        RunsAgree(g, f, es, ts, path + [a.next], named + [m.next], a.next, a.visits, m.counters, steps - 1);
      }
    }
  }

  /** What the table's fixed widths and the kernel's depth bound ask of a compiled flow and its script. */
  predicate Small(g: Graph, f: Flow, script: FlowScript) {
    && |f.tables.atoms| <= 0x8000 && |f.tables.fields| <= 0xFFFF
    && (MaxStackOf(AllBranches(f.nodes)).Some? ==> MaxStackOf(AllBranches(f.nodes)).value <= INTERP_STACK)
    && forall i | 0 <= i < |f.names| ::
         && (f.names[i] in g.nodes ==> AllEvaluable(g.nodes[f.names[i]]))
         && (f.names[i] in script ==> script[f.names[i]] != [])
  }

  lemma FlatBranchesFit(im: Image, nodes: seq<seq<Branch>>, i: nat)
    requires Flattens(im, nodes) && ProgramsRun(im, INTERP_STACK) && i < |nodes|
    ensures BranchesFit(nodes[i], |im.atoms|)
  {
    forall j | 0 <= j < |nodes[i]| ensures WellStacked(nodes[i][j].prog, |im.atoms|, INTERP_STACK) {
      FlatEdge(im, nodes, i, j);
      assert WellStacked(Words(im, im.edges[im.nodes[i].edgeOff + j]), |im.atoms|, INTERP_STACK);
    }
  }

  lemma CompiledNodeAgrees(g: Graph, f: Flow, im: Image, script: FlowScript, rows: Script, i: nat)
    requires CompiledFrom(g, f) && Small(g, f, script) && im == ImageOf(f, im.maxSteps, im.maxStack, im.flags)
    requires ProgramsRun(im, INTERP_STACK) && i < |rows| == |f.names| && ScriptStands(f.tables, f.names, script, rows)
    ensures NodeAgrees(g, f, im, script, rows, i)
  {
    FlatBranchesFit(im, f.nodes, i);
  }

  lemma CompiledAgrees(g: Graph, f: Flow, im: Image, script: FlowScript, rows: Script)
    requires CompiledFrom(g, f) && Small(g, f, script) && im == ImageOf(f, im.maxSteps, im.maxStack, im.flags)
    requires ProgramsRun(im, INTERP_STACK) && |rows| == |f.names| && ScriptStands(f.tables, f.names, script, rows)
    ensures Setting(g, f, im, script, rows)
  {
    forall i | 0 <= i < |f.names| ensures NodeAgrees(g, f, im, script, rows, i) {
      CompiledNodeAgrees(g, f, im, script, rows, i);
    }
  }

  lemma StandingFits(f: Flow, im: Image, script: FlowScript, rows: Script)
    requires |rows| == |f.names| == |im.nodes| && ScriptStands(f.tables, f.names, script, rows)
    requires im.nFields == |f.tables.fields|
    ensures Fits(im, rows)
  {
    forall i | 0 <= i < |rows| ensures RowsFit(im, rows[i]) {
      forall k | 0 <= k < |rows[i]| ensures |rows[i][k]| == im.nFields {
        assert Stands(f.tables, OutcomesFor(script, f.names[i])[k], rows[i][k]);
      }
    }
  }

  lemma Prepared(g: Graph, f: Flow, script: FlowScript, rows: Script, maxSteps: nat, flags: nat) returns (im: Image)
    requires CompiledFrom(g, f) && Small(g, f, script)
    requires EncodeNodes(f.tables.fields, f.names, script, f.tables.intern, []).result == Success(rows)
    ensures MaxStackOf(AllBranches(f.nodes)) == Some(im.maxStack) && im == ImageOf(f, maxSteps, im.maxStack, flags)
    ensures Sound(im) && Fits(im, rows) && ProgramsRun(im, INTERP_STACK) && Setting(g, f, im, script, rows)
  {
    var maxStack := MaxStackIsExact(g, f, maxSteps, flags, INTERP_STACK);
    im := ImageOf(f, maxSteps, maxStack, flags);
    ScriptsStand(f.tables, f.names, script, f.tables.intern, []);
    CompiledAgrees(g, f, im, script, rows);
    CompiledImageIsSound(g, f, maxSteps, maxStack, flags);
    StandingFits(f, im, script, rows);
  }

  lemma StartsAgree(g: Graph, f: Flow, im: Image, script: FlowScript, rows: Script, e: EngineRun)
    requires Setting(g, f, im, script, rows) && Sound(im) && Fits(im, rows) && 0 < im.maxSteps <= 0xFFFF
    requires im.start < |f.names| && f.names[im.start] == g.start
    requires forall i | 0 <= i < |f.names| :: f.names[i] in g.nodes
    requires e == EngineFrom(g, Player(script), [g.start], g.start, Counters(map[], map[]), im.maxSteps)
    ensures SameRun(g, f.names, e, RunTable(im, rows))
  {
    SettingIsAlike(g, f, im, script, rows);
    RunsAgree(g, f, EngineSteps(g, Player(script)), TableSteps(im, rows), [im.start], [g.start], im.start,
              NoVisits(|im.nodes|), Counters(map[], map[]), im.maxSteps);
    EngineDrives(g, Player(script), [g.start], g.start, Counters(map[], map[]), im.maxSteps);
    TableDrives(im, rows, [im.start], im.start, NoVisits(|im.nodes|), im.maxSteps);
  }

  /**
   Whole-run refinement. Compile a portable flow over any part of it that holds its start and compiles, and
   encode any script the encoder accepts: the interpreter's trace is the engine's run on the whole graph,
   node for node, with the same reason to stop except where `TableStop` says they part.
   */
  lemma TableRunIsEngineRun(g: Graph, f: Flow, script: FlowScript, rows: Script, maxSteps: nat, flags: nat)
    returns (im: Image)
    requires CompiledFrom(g, f) && Small(g, f, script) && Portable(g) && g.start != "" && 0 < maxSteps <= 0xFFFF
    requires EncodeNodes(f.tables.fields, f.names, script, f.tables.intern, []).result == Success(rows)
    ensures MaxStackOf(AllBranches(f.nodes)) == Some(im.maxStack) && im == ImageOf(f, maxSteps, im.maxStack, flags)
    ensures Sound(im) && Fits(im, rows) && ProgramsRun(im, INTERP_STACK)
    ensures SameRun(g, f.names, RunGraph(g, Player(script), maxSteps, "", map[]).value, RunTable(im, rows))
  {
    im := Prepared(g, f, script, rows, maxSteps, flags);
    StartsAgree(g, f, im, script, rows, RunGraph(g, Player(script), maxSteps, "", map[]).value);
  }
}
