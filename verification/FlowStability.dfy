/**
 What compile_flow leaves behind, read off the finished tables: every node's branches are the translations of
 its deterministic edges, and the reported stack depth is the one every program runs in.
 */
module FlowStability {
  import opened Wrappers
  import opened Predicates
  import opened Conditions
  import opened Table
  import opened Compiler
  import opened CompilerCorrectness
  import opened StackDepth
  import opened Flatten
  import opened Engine
  import opened FlowCompiler

  // ----- The branches of a node in the finished tables -----

  predicate KnowsCond(end: Tables, c: EdgeCond) {
    Deterministic(c) && !c.Other? && (c.When? ==> KnowsAll(end, c.c))
  }

  predicate KnowsEdges(end: Tables, edges: seq<FlowEdge>, idx: map<string, nat>) {
    edges == [] ||
    ((Skipped(edges[0].cond) || (edges[0].target in idx && KnowsCond(end, edges[0].cond)))
     && KnowsEdges(end, edges[1..], idx))
  }

  function ProgOf(end: Tables, c: EdgeCond): seq<nat>
    requires KnowsCond(end, c)
  {
    match c
    case Always => [OPC_TRUE]
    case Never => [OPC_FALSE]
    case When(c) => WordsOf(end, c)
  }

  function BranchesOf(end: Tables, edges: seq<FlowEdge>, idx: map<string, nat>): seq<Branch>
    requires KnowsEdges(end, edges, idx)
  {
    if edges == [] then []
    else if Skipped(edges[0].cond) then BranchesOf(end, edges[1..], idx)
    else [Branch(idx[edges[0].target], ProgOf(end, edges[0].cond))] + BranchesOf(end, edges[1..], idx)
  }

  lemma CondGrows(t: Tables, c: EdgeCond)
    requires Valid(t)
    ensures GrowsTo(t, CompileCondition(t, c).tables)
  {
    if c.When? { TranslateGrows(t, c.c); }
  }

  lemma {:induction false} EdgesGrow(edges: seq<FlowEdge>, idx: map<string, nat>, t: Tables, done: seq<Branch>)
    requires Valid(t)
    ensures GrowsTo(t, CompileEdges(edges, idx, t, done).tables)
  {
    if edges != [] {
      var e := edges[0];
      if Skipped(e.cond) {
        EdgesGrow(edges[1..], idx, t, done);
      } else if !e.cond.Semantic? && e.target in idx {
        CondGrows(t, e.cond);
        var r := CompileCondition(t, e.cond);
        if r.result.Success? {
          var done' := done + [Branch(idx[e.target], r.result.value)];
          EdgesGrow(edges[1..], idx, r.tables, done');
          ExtendsTransitive(t, r.tables, CompileEdges(edges[1..], idx, r.tables, done').tables);
        }
      }
    }
  }

  lemma {:induction false} EdgesAreStable(edges: seq<FlowEdge>, idx: map<string, nat>, t: Tables, done: seq<Branch>, end: Tables)
    requires Valid(t) && Valid(end) && CompileEdges(edges, idx, t, done).result.Success?
    requires Extends(CompileEdges(edges, idx, t, done).tables, end)
    ensures KnowsEdges(end, edges, idx)
    ensures CompileEdges(edges, idx, t, done).result.value == done + BranchesOf(end, edges, idx)
  {
    if edges != [] {
      var e := edges[0];
      if Skipped(e.cond) {
        EdgesAreStable(edges[1..], idx, t, done, end);
      } else {
        var r := CompileCondition(t, e.cond);
        var b := Branch(idx[e.target], r.result.value);
        CondIsStable(t, e.cond, edges[1..], idx, done + [b], end);
        EdgesAreStable(edges[1..], idx, r.tables, done + [b], end);
        Joins(done, b, BranchesOf(end, edges[1..], idx));
      }
    }
  }

  lemma Joins(done: seq<Branch>, b: Branch, rest: seq<Branch>)
    ensures done + [b] + rest == done + ([b] + rest)
  {
  }

  lemma CondIsStable(t: Tables, c: EdgeCond, edges: seq<FlowEdge>, idx: map<string, nat>, done: seq<Branch>, end: Tables)
    requires Valid(t) && Valid(end) && Deterministic(c) && CompileCondition(t, c).result.Success?
    requires Extends(CompileEdges(edges, idx, CompileCondition(t, c).tables, done).tables, end)
    ensures Valid(CompileCondition(t, c).tables)
    ensures KnowsCond(end, c) && CompileCondition(t, c).result.value == ProgOf(end, c)
  {
    CondGrows(t, c);
    var t' := CompileCondition(t, c).tables;
    EdgesGrow(edges, idx, t', done);
    ExtendsTransitive(t', CompileEdges(edges, idx, t', done).tables, end);
    if c.When? { TranslationIsStable(t, c.c, end); }
  }

  // ----- The whole flow -----

  predicate NodeCompiled(end: Tables, edges: seq<FlowEdge>, idx: map<string, nat>, branches: seq<Branch>) {
    KnowsEdges(end, edges, idx) && branches == BranchesOf(end, edges, idx)
  }

  /** What holds of a flow that compiled: the translations of exactly the deterministic edges, node by node. */
  ghost predicate CompiledFrom(g: Graph, f: Flow) {
    && Distinct(f.names) && (forall i | 0 <= i < |f.names| :: f.names[i] in g.nodes)
    && Valid(f.tables) && |f.nodes| == |f.names|
    && (forall i | 0 <= i < |f.nodes| :: NodeCompiled(f.tables, g.nodes[f.names[i]], Index(f.names), f.nodes[i]))
    && f.start < |f.names| && f.names[f.start] == g.start
  }

  lemma {:induction false} NodesGrow(g: Graph, names: seq<string>, idx: map<string, nat>, t: Tables, done: seq<seq<Branch>>)
    requires |done| <= |names| && forall i | 0 <= i < |names| :: names[i] in g.nodes
    requires Valid(t)
    ensures GrowsTo(t, CompileNodes(g, names, idx, t, done).tables)
    decreases |names| - |done|
  {
    if |done| < |names| {
      var edges := g.nodes[names[|done|]];
      EdgesGrow(edges, idx, t, []);
      var r := CompileEdges(edges, idx, t, []);
      if r.result.Success? {
        NodesGrow(g, names, idx, r.tables, done + [r.result.value]);
        ExtendsTransitive(t, r.tables, CompileNodes(g, names, idx, r.tables, done + [r.result.value]).tables);
      }
    }
  }

  predicate NodesCompiled(g: Graph, names: seq<string>, idx: map<string, nat>, end: Tables, nodes: seq<seq<Branch>>, from: nat)
    requires |nodes| == |names| && forall i | 0 <= i < |names| :: names[i] in g.nodes
  {
    forall i | from <= i < |nodes| :: NodeCompiled(end, g.nodes[names[i]], idx, nodes[i])
  }

  lemma {:induction false} NodesAreStable(g: Graph, names: seq<string>, idx: map<string, nat>, t: Tables, done: seq<seq<Branch>>)
    requires |done| <= |names| && forall i | 0 <= i < |names| :: names[i] in g.nodes
    requires Valid(t) && CompileNodes(g, names, idx, t, done).result.Success?
    ensures var r := CompileNodes(g, names, idx, t, done);
            && |r.result.value| == |names|
            && NodesCompiled(g, names, idx, r.tables, r.result.value, |done|)
    decreases |names| - |done|
  {
    NodesExtend(g, names, idx, t, done);
    if |done| < |names| {
      var r := CompileEdges(g.nodes[names[|done|]], idx, t, []);
      NodeIsStable(g, names, idx, t, done);
      NodesExtend(g, names, idx, r.tables, done + [r.result.value]);
      NodesAreStable(g, names, idx, r.tables, done + [r.result.value]);
    }
  }

  lemma NodeIsStable(g: Graph, names: seq<string>, idx: map<string, nat>, t: Tables, done: seq<seq<Branch>>)
    requires |done| < |names| && forall i | 0 <= i < |names| :: names[i] in g.nodes
    requires Valid(t) && CompileNodes(g, names, idx, t, done).result.Success?
    ensures var r := CompileEdges(g.nodes[names[|done|]], idx, t, []);
            Valid(r.tables) && NodeCompiled(CompileNodes(g, names, idx, t, done).tables, g.nodes[names[|done|]], idx, r.result.value)
  {
    var edges, end := g.nodes[names[|done|]], CompileNodes(g, names, idx, t, done).tables;
    var r := CompileEdges(edges, idx, t, []);
    EdgesGrow(edges, idx, t, []);
    NodesGrow(g, names, idx, r.tables, done + [r.result.value]);
    EdgesAreStable(edges, idx, t, [], end);
    assert [] + BranchesOf(end, edges, idx) == BranchesOf(end, edges, idx);
  }

  /** Compiling further nodes keeps the ones done. */
  lemma {:induction false} NodesExtend(g: Graph, names: seq<string>, idx: map<string, nat>, t: Tables, done: seq<seq<Branch>>)
    requires |done| <= |names| && forall i | 0 <= i < |names| :: names[i] in g.nodes
    requires CompileNodes(g, names, idx, t, done).result.Success?
    ensures done <= CompileNodes(g, names, idx, t, done).result.value
    ensures |CompileNodes(g, names, idx, t, done).result.value| == |names|
    decreases |names| - |done|
  {
    if |done| < |names| {
      var r := CompileEdges(g.nodes[names[|done|]], idx, t, []);
      NodesExtend(g, names, idx, r.tables, done + [r.result.value]);
    }
  }

  lemma FlowIsCompiled(g: Graph, reach: set<string>)
    requires WellFormed(g) && FlowOf(g, reach).Success?
    ensures CompiledFrom(g, FlowOf(g, reach).value)
  {
    FlowFromIsCompiled(g, NamesOf(g, reach), EMPTY);
  }

  lemma FlowFromIsCompiled(g: Graph, names: seq<string>, t: Tables)
    requires Distinct(names) && forall i | 0 <= i < |names| :: names[i] in g.nodes
    requires Valid(t) && FlowFrom(g, names, t).Success?
    ensures CompiledFrom(g, FlowFrom(g, names, t).value)
  {
    var f := FlowFrom(g, names, t).value;
    NodesGrow(g, names, Index(names), t, []);
    NodesAreStable(g, names, Index(names), t, []);
    assert NodesCompiled(g, names, Index(names), f.tables, f.nodes, 0);
  }

  // ----- The reported depth -----

  lemma {:induction false} BranchIsProg(end: Tables, edges: seq<FlowEdge>, idx: map<string, nat>, j: nat) returns (k: nat)
    requires KnowsEdges(end, edges, idx) && j < |BranchesOf(end, edges, idx)|
    ensures k < |edges| && KnowsCond(end, edges[k].cond) && edges[k].target in idx
    ensures BranchesOf(end, edges, idx)[j] == Branch(idx[edges[k].target], ProgOf(end, edges[k].cond))
  {
    if Skipped(edges[0].cond) {
      var r := BranchIsProg(end, edges[1..], idx, j);
      k := r + 1;
    } else if j == 0 {
      k := 0;
    } else {
      var r := BranchIsProg(end, edges[1..], idx, j - 1);
      k := r + 1;
    }
  }

  /** A compiled edge program leaves one value and runs exactly where its counted peak fits. */
  lemma ProgRunsIffPeakFits(end: Tables, c: EdgeCond, limit: nat)
    requires Valid(end) && |end.atoms| <= 0x8000 && KnowsCond(end, c)
    ensures WalkFrom(ProgOf(end, c), Walk(0, 0)).depth == 1
    ensures WellStacked(ProgOf(end, c), |end.atoms|, limit) <==> WalkFrom(ProgOf(end, c), Walk(0, 0)).peak <= limit
  {
    match c
    case Always => OneWord(OPC_TRUE, Walk(0, 0)); ConstantDepth(OPC_TRUE, |end.atoms|, limit);
    case Never => OneWord(OPC_FALSE, Walk(0, 0)); ConstantDepth(OPC_FALSE, |end.atoms|, limit);
    case When(c) => CountIsPeak(end, c); CompiledRunsIffPeakFits(end, c, limit);
  }

  lemma ConstantDepth(w: nat, nAtoms: nat, limit: nat)
    requires w == OPC_TRUE || w == OPC_FALSE
    ensures WellStacked([w], nAtoms, limit) <==> 1 <= limit
  {
    assert [w][1..] == [];
    assert DepthAfter([w], nAtoms, 0, limit) ==
           match DepthStep(0, w, nAtoms, limit)
           case Some(d) => DepthAfter([], nAtoms, d, limit)
           case None => None;
  }

  predicate PeakWithin(b: Branch, limit: int) {
    WalkFrom(b.prog, Walk(0, 0)).peak <= limit
  }

  lemma {:induction false} MaxStackIsLeast(branches: seq<Branch>, limit: nat)
    requires forall k | 0 <= k < |branches| :: WalkFrom(branches[k].prog, Walk(0, 0)).depth == 1
    ensures MaxStackOf(branches).Some?
    ensures limit >= 1 ==>
              (MaxStackOf(branches).value <= limit <==> forall k | 0 <= k < |branches| :: PeakWithin(branches[k], limit))
  {
    if branches != [] { MaxStackIsLeast(branches[..|branches| - 1], limit); }
  }

  lemma FlowBranch(g: Graph, f: Flow, i: nat, j: nat, limit: nat)
    requires CompiledFrom(g, f) && |f.tables.atoms| <= 0x8000 && i < |f.nodes| && j < |f.nodes[i]|
    ensures f.nodes[i][j].target < |f.names|
    ensures WalkFrom(f.nodes[i][j].prog, Walk(0, 0)).depth == 1
    ensures WellStacked(f.nodes[i][j].prog, |f.tables.atoms|, limit) <==> PeakWithin(f.nodes[i][j], limit)
  {
    assert NodeCompiled(f.tables, g.nodes[f.names[i]], Index(f.names), f.nodes[i]);
    var k := BranchIsProg(f.tables, g.nodes[f.names[i]], Index(f.names), j);
    ProgRunsIffPeakFits(f.tables, g.nodes[f.names[i]][k].cond, limit);
  }

  /**
   The header's max_stack never fails to exist and is exact: a stack runs the table's programs, all of them,
   exactly when it is at least that deep.
   */
  lemma MaxStackIsExact(g: Graph, f: Flow, maxSteps: nat, flags: nat, limit: nat) returns (maxStack: nat)
    requires CompiledFrom(g, f) && |f.tables.atoms| <= 0x8000 && limit >= 1
    ensures MaxStackOf(AllBranches(f.nodes)) == Some(maxStack)
    ensures ProgramsRun(ImageOf(f, maxSteps, maxStack, flags), limit) <==> maxStack <= limit
  {
    var branches := AllBranches(f.nodes);
    forall k | 0 <= k < |branches|
      ensures WalkFrom(branches[k].prog, Walk(0, 0)).depth == 1
      ensures WellStacked(branches[k].prog, |f.tables.atoms|, limit) <==> PeakWithin(branches[k], limit)
    {
      var i, j := BranchOwner(f.nodes, k);
      FlowBranch(g, f, i, j, limit);
    }
    MaxStackIsLeast(branches, limit);
    maxStack := MaxStackOf(branches).value;
    var im := ImageOf(f, maxSteps, maxStack, flags);
    forall k | 0 <= k < |im.edges|
      ensures WordsInRange(im, im.edges[k]) && Words(im, im.edges[k]) == branches[k].prog
    {
      WordsAt(branches, k);
    }
  }

  /** Every row the compiler writes points inside its table. */
  lemma CompiledImageIsSound(g: Graph, f: Flow, maxSteps: nat, maxStack: nat, flags: nat)
    requires CompiledFrom(g, f) && |f.tables.atoms| <= 0x8000
    ensures var im := ImageOf(f, maxSteps, maxStack, flags);
            && Sound(im) && im.nFields == |f.tables.fields.Keys| && im.nInterns == |f.tables.intern.Keys|
            && |im.nodes| == |f.names| && im.maxSteps == maxSteps && im.maxStack == maxStack && im.flags == flags
            && (if "visits" in f.tables.fields then im.visitsIdx == f.tables.fields["visits"] else im.visitsIdx == 0xFFFF)
  {
    var im := ImageOf(f, maxSteps, maxStack, flags);
    var branches := AllBranches(f.nodes);
    forall i | 0 <= i < |im.nodes| ensures EdgesInRange(im, im.nodes[i]) { BranchesAt(f.nodes, i); }
    forall k | 0 <= k < |im.edges|
      ensures WordsInRange(im, im.edges[k]) && im.edges[k].target < |im.nodes|
    {
      WordsAt(branches, k);
      var i, j := BranchOwner(f.nodes, k);
      FlowBranch(g, f, i, j, 1);
    }
  }
}
