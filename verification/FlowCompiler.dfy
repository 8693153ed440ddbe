/**
 A flow graph as a table (prismpath-hw/ppt_compile.py, compile_flow): its reachable nodes numbered in
 document order, one program per deterministic edge, every condition compiled against the same growing tables.
 */
module FlowCompiler {
  import opened Wrappers
  import opened Predicates
  import opened Conditions
  import opened Table
  import opened Compiler
  import opened CompilerCorrectness
  import opened StackDepth
  import opened TableBuilder
  import opened Flatten
  import opened Engine

  // ----- Reachability (prismpath/kernel/parser.py, reachable) -----

  /** A set of names the engine cannot leave, once inside. */
  ghost predicate Traps(g: Graph, seen: set<string>) {
    && (g.start in g.nodes ==> g.start in seen)
    && forall n | n in seen && n in g.nodes :: LeadsInto(g, g.nodes[n], seen)
  }

  ghost predicate LeadsInto(g: Graph, edges: seq<FlowEdge>, seen: set<string>) {
    forall j | 0 <= j < |edges| :: edges[j].target in g.nodes ==> edges[j].target in seen
  }

  function Targets(edges: seq<FlowEdge>): (ts: seq<string>)
    ensures |ts| == |edges| && forall j | 0 <= j < |edges| :: ts[j] == edges[j].target
  {
    seq(|edges|, j requires 0 <= j < |edges| => edges[j].target)
  }

  /** Every target of a visited node is visited, or waits on the stack, or names no node. */
  ghost predicate Pending(g: Graph, seen: set<string>, stack: seq<string>) {
    && (g.start in g.nodes ==> g.start in seen || g.start in stack)
    && forall n, j | n in seen && n in g.nodes && 0 <= j < |g.nodes[n]| ::
         g.nodes[n][j].target in g.nodes ==> g.nodes[n][j].target in seen || g.nodes[n][j].target in stack
  }

  /** Nothing visited or waiting lies outside a trap. */
  ghost predicate Within(g: Graph, s: set<string>, seen: set<string>, stack: seq<string>) {
    seen <= s && forall k | 0 <= k < |stack| :: stack[k] in g.nodes ==> stack[k] in s
  }

  /** The least set of nodes that holds the start and every target of its members. */
  method Reachable(g: Graph) returns (seen: set<string>)
    ensures seen <= g.nodes.Keys && Traps(g, seen)
    ensures forall s | Traps(g, s) :: seen <= s
  {
    seen := {};
    var stack := [g.start];
    while stack != []
      invariant seen <= g.nodes.Keys && Pending(g, seen, stack)
      invariant forall s | Traps(g, s) :: Within(g, s, seen, stack)
      decreases g.nodes.Keys - seen, |stack|
    {
      var cur, rest := stack[|stack| - 1], stack[..|stack| - 1];
      assert stack == rest + [cur];
      if cur in seen || cur !in g.nodes {
        forall s | Traps(g, s) ensures Within(g, s, seen, rest) { PopStaysWithin(g, s, seen, rest, cur); }
        stack := rest;
      } else {
        VisitKeepsPending(g, seen, rest, cur);
        forall s | Traps(g, s) ensures Within(g, s, seen + {cur}, rest + Targets(g.nodes[cur])) {
          VisitStaysWithin(g, s, seen, rest, cur);
        }
        seen := seen + {cur};
        stack := rest + Targets(g.nodes[cur]);
      }
    }
  }

  lemma PopStaysWithin(g: Graph, s: set<string>, seen: set<string>, rest: seq<string>, cur: string)
    requires Within(g, s, seen, rest + [cur])
    ensures Within(g, s, seen, rest)
  {
    assert forall k | 0 <= k < |rest| :: (rest + [cur])[k] == rest[k];
  }

  lemma VisitStaysWithin(g: Graph, s: set<string>, seen: set<string>, rest: seq<string>, cur: string)
    requires Traps(g, s) && cur in g.nodes && Within(g, s, seen, rest + [cur])
    ensures Within(g, s, seen + {cur}, rest + Targets(g.nodes[cur]))
  {
    PopStaysWithin(g, s, seen, rest, cur);
    assert (rest + [cur])[|rest|] == cur;
    assert LeadsInto(g, g.nodes[cur], s);
  }

  lemma VisitKeepsPending(g: Graph, seen: set<string>, rest: seq<string>, cur: string)
    requires cur in g.nodes && Pending(g, seen, rest + [cur])
    ensures Pending(g, seen + {cur}, rest + Targets(g.nodes[cur]))
  {
    var ts := Targets(g.nodes[cur]);
    forall t | t in rest + [cur] ensures t in seen + {cur} || t in rest + ts { }
    forall j | 0 <= j < |g.nodes[cur]| ensures g.nodes[cur][j].target in rest + ts { assert ts[j] in ts; }
  }

  // ----- Numbering the nodes -----

  predicate Distinct(names: seq<string>) {
    forall i, j | 0 <= i < j < |names| :: names[i] != names[j]
  }

  /** The document order lists every node once. */
  predicate WellFormed(g: Graph) {
    Distinct(g.order) && forall i | 0 <= i < |g.order| :: g.order[i] in g.nodes
  }

  function Kept(order: seq<string>, reach: set<string>): (names: seq<string>)
    ensures forall i | 0 <= i < |names| :: names[i] in order && names[i] in reach
    ensures forall n | n in order && n in reach :: n in names
  {
    if order == [] then []
    else
      var last := order[|order| - 1];
      var init := Kept(order[..|order| - 1], reach);
      assert order == order[..|order| - 1] + [last];
      if last in reach then init + [last] else init
  }

  lemma {:induction false} KeptAreDistinct(order: seq<string>, reach: set<string>)
    requires Distinct(order)
    ensures Distinct(Kept(order, reach))
  {
    if order != [] {
      KeptAreDistinct(order[..|order| - 1], reach);
      var init := Kept(order[..|order| - 1], reach);
      assert order[|order| - 1] !in order[..|order| - 1];
    }
  }

  function Index(names: seq<string>): (idx: map<string, nat>)
    ensures forall n :: n in idx <==> n in names
    ensures forall n | n in idx :: idx[n] < |names| && names[idx[n]] == n
  {
    if names == [] then map[]
    else
      assert names == names[..|names| - 1] + [names[|names| - 1]];
      Index(names[..|names| - 1])[names[|names| - 1] := |names| - 1]
  }

  lemma IndexFinds(names: seq<string>, i: nat)
    requires Distinct(names) && i < |names|
    ensures names[i] in Index(names) && Index(names)[names[i]] == i
  {
    assert names[i] in names;
  }

  lemma IndexExtends(names: seq<string>, last: string, n: string)
    requires n in names && n != last
    ensures last in Index(names + [last]) && Index(names + [last])[last] == |names|
    ensures n in Index(names + [last]) && Index(names + [last])[n] == Index(names)[n]
  {
    assert (names + [last])[..|names|] == names;
    assert n in names + [last] && last in names + [last];
  }

  /** The numbers follow the document: of two reached nodes the one listed first has the smaller number. */
  lemma {:induction false} NumberedInOrder(order: seq<string>, reach: set<string>, i: nat, j: nat)
    requires Distinct(order) && i < j < |order| && order[i] in reach && order[j] in reach
    ensures var idx := Index(Kept(order, reach)); order[i] in idx && order[j] in idx && idx[order[i]] < idx[order[j]]
  {
    var init, last := order[..|order| - 1], order[|order| - 1];
    assert init[i] == order[i] && order[i] in Kept(init, reach);
    if j < |init| {
      assert init[j] == order[j] && order[j] in Kept(init, reach);
      NumberedInOrder(init, reach, i, j);
      if last in reach {
        IndexExtends(Kept(init, reach), last, order[i]);
        IndexExtends(Kept(init, reach), last, order[j]);
      }
    } else {
      IndexExtends(Kept(init, reach), last, order[i]);
    }
  }

  // ----- Compiling the edges -----

  predicate Skipped(c: EdgeCond) {
    c.OnError? || c.OnEvent?
  }

  function CompileCondition(t: Tables, c: EdgeCond): Compiled<seq<nat>> {
    match c
    case Always => Compiled(t, Success([OPC_TRUE]))
    case Never => Compiled(t, Success([OPC_FALSE]))
    case When(c) => Translate(t, c)
    case _ => Compiled(t, Failure(NotLevelM))
  }

  /** The branches of one node, `done` of them compiled so far. */
  function CompileEdges(edges: seq<FlowEdge>, idx: map<string, nat>, t: Tables, done: seq<Branch>): Compiled<seq<Branch>> {
    if edges == [] then Compiled(t, Success(done))
    else
      var e := edges[0];
      if Skipped(e.cond) then CompileEdges(edges[1..], idx, t, done)
      else if e.cond.Semantic? then Compiled(t, Failure(SemanticEdge))
      else if e.target !in idx then Compiled(t, Failure(DanglingTarget))
      else
        var r := CompileCondition(t, e.cond);
        match r.result
        case Failure(error) => Compiled(r.tables, Failure(error))
        case Success(prog) => CompileEdges(edges[1..], idx, r.tables, done + [Branch(idx[e.target], prog)])
  }

  function CompileNodes(g: Graph, names: seq<string>, idx: map<string, nat>, t: Tables, done: seq<seq<Branch>>)
    : Compiled<seq<seq<Branch>>>
    requires |done| <= |names| && forall i | 0 <= i < |names| :: names[i] in g.nodes
    decreases |names| - |done|
  {
    if |done| == |names| then Compiled(t, Success(done))
    else
      var r := CompileEdges(g.nodes[names[|done|]], idx, t, []);
      match r.result
      case Failure(error) => Compiled(r.tables, Failure(error))
      case Success(branches) => CompileNodes(g, names, idx, r.tables, done + [branches])
  }

  datatype Flow = Flow(names: seq<string>, tables: Tables, nodes: seq<seq<Branch>>, start: nat)

  function NamesOf(g: Graph, reach: set<string>): (names: seq<string>)
    requires WellFormed(g)
    ensures Distinct(names) && forall i | 0 <= i < |names| :: names[i] in g.nodes
  {
    KeptAreDistinct(g.order, reach);
    Kept(g.order, reach)
  }

  function FlowOf(g: Graph, reach: set<string>): Result<Flow, SubsetError>
    requires WellFormed(g)
  {
    FlowFrom(g, NamesOf(g, reach), EMPTY)
  }

  function FlowFrom(g: Graph, names: seq<string>, t: Tables): Result<Flow, SubsetError>
    requires forall i | 0 <= i < |names| :: names[i] in g.nodes
  {
    var idx := Index(names);
    if g.start !in idx then Failure(BadStart)
    else
      var r := CompileNodes(g, names, idx, t, []);
      match r.result
      case Failure(error) => Failure(error)
      case Success(nodes) => Success(Flow(names, r.tables, nodes, idx[g.start]))
  }

  // ----- Which flows compile -----

  /** A node of the table: reached, and in the document. */
  predicate Listed(g: Graph, reach: set<string>, name: string) {
    name in g.order && name in reach
  }

  /** What an edge of a listed node must be, in terms of the graph alone. */
  predicate EdgeInSubset(g: Graph, reach: set<string>, e: FlowEdge) {
    || e.cond.OnError? || e.cond.OnEvent?
    || (Listed(g, reach, e.target) && (e.cond.Always? || e.cond.Never? || (e.cond.When? && ConstsFit(e.cond.c))))
  }

  predicate EdgesInSubset(g: Graph, reach: set<string>, edges: seq<FlowEdge>) {
    forall j | 0 <= j < |edges| :: EdgeInSubset(g, reach, edges[j])
  }

  predicate InSubset(g: Graph, reach: set<string>) {
    Listed(g, reach, g.start) && forall n | n in g.nodes && Listed(g, reach, n) :: EdgesInSubset(g, reach, g.nodes[n])
  }

  /** The reason given for an edge that is not in the subset. */
  function WhyNot(g: Graph, reach: set<string>, e: FlowEdge): SubsetError {
    if e.cond.Semantic? then SemanticEdge
    else if !Listed(g, reach, e.target) then DanglingTarget
    else if e.cond.When? then IntOutOfI32
    else NotLevelM
  }

  /** Of some node in the document's order, with every node before it in the subset, the first edge that is not. */
  predicate FirstMisfit(g: Graph, reach: set<string>, names: seq<string>, error: SubsetError) {
    exists i, j | 0 <= i < |names| && names[i] in g.nodes && 0 <= j < |g.nodes[names[i]]| ::
      MisfitAt(g, reach, names, error, i, j)
  }

  predicate MisfitAt(g: Graph, reach: set<string>, names: seq<string>, error: SubsetError, i: nat, j: nat)
    requires i < |names| && names[i] in g.nodes && j < |g.nodes[names[i]]|
  {
    var edges := g.nodes[names[i]];
    && (forall k | 0 <= k < i && names[k] in g.nodes :: EdgesInSubset(g, reach, g.nodes[names[k]]))
    && EdgesInSubset(g, reach, edges[..j]) && !EdgeInSubset(g, reach, edges[j]) && error == WhyNot(g, reach, edges[j])
  }

  /** One edge decides: it is passed over, it is refused with its reason, or it compiles. */
  lemma EdgeCompiles(g: Graph, reach: set<string>, names: seq<string>, e: FlowEdge, t: Tables)
    requires forall n :: n in Index(names) <==> Listed(g, reach, n)
    ensures Skipped(e.cond) ==> EdgeInSubset(g, reach, e)
    ensures !Skipped(e.cond) ==>
              (EdgeInSubset(g, reach, e) <==>
               !e.cond.Semantic? && e.target in Index(names) && CompileCondition(t, e.cond).result.Success?)
    ensures !Skipped(e.cond) && !e.cond.Semantic? && e.target in Index(names) && CompileCondition(t, e.cond).result.Failure? ==>
              CompileCondition(t, e.cond).result.error == WhyNot(g, reach, e)
  {
    if e.cond.When? {
      CompilesIffConstsFit(t, e.cond.c);
      RefusedForInts(t, e.cond.c);
    }
  }

  lemma {:induction false} EdgesCompile(g: Graph, reach: set<string>, names: seq<string>, edges: seq<FlowEdge>, t: Tables,
                                        done: seq<Branch>) returns (j: nat)
    requires forall n :: n in Index(names) <==> Listed(g, reach, n)
    ensures var r := CompileEdges(edges, Index(names), t, done).result;
            && (r.Success? <==> EdgesInSubset(g, reach, edges))
            && (r.Failure? ==>
                  && j < |edges| && EdgesInSubset(g, reach, edges[..j]) && !EdgeInSubset(g, reach, edges[j])
                  && r.error == WhyNot(g, reach, edges[j]))
  {
    j := 0;
    if edges != [] {
      var e := edges[0];
      EdgeCompiles(g, reach, names, e, t);
      if EdgeInSubset(g, reach, e) {
        var i := 0;
        if Skipped(e.cond) {
          i := EdgesCompile(g, reach, names, edges[1..], t, done);
        } else {
          var r := CompileCondition(t, e.cond);
          i := EdgesCompile(g, reach, names, edges[1..], r.tables, done + [Branch(Index(names)[e.target], r.result.value)]);
        }
        j := i + 1;
        FirstThenRest(g, reach, edges, i);
      }
    }
  }

  lemma FirstThenRest(g: Graph, reach: set<string>, edges: seq<FlowEdge>, i: nat)
    requires edges != [] && EdgeInSubset(g, reach, edges[0])
    ensures EdgesInSubset(g, reach, edges) <==> EdgesInSubset(g, reach, edges[1..])
    ensures i < |edges[1..]| && EdgesInSubset(g, reach, edges[1..][..i]) ==> EdgesInSubset(g, reach, edges[..i + 1])
  {
    assert forall k | 1 <= k < |edges| :: edges[k] == edges[1..][k - 1];
    if i < |edges[1..]| { assert edges[..i + 1] == [edges[0]] + edges[1..][..i]; }
  }

  predicate NodesInSubset(g: Graph, reach: set<string>, names: seq<string>, from: nat) {
    forall i | from <= i < |names| && names[i] in g.nodes :: EdgesInSubset(g, reach, g.nodes[names[i]])
  }

  lemma {:induction false} NodesCompile(g: Graph, reach: set<string>, names: seq<string>, t: Tables, done: seq<seq<Branch>>)
    requires |done| <= |names| && (forall i | 0 <= i < |names| :: names[i] in g.nodes)
    requires forall n :: n in Index(names) <==> Listed(g, reach, n)
    requires forall i | 0 <= i < |done| :: EdgesInSubset(g, reach, g.nodes[names[i]])
    ensures var r := CompileNodes(g, names, Index(names), t, done).result;
            && (r.Success? <==> NodesInSubset(g, reach, names, |done|))
            && (r.Failure? ==> FirstMisfit(g, reach, names, r.error))
    decreases |names| - |done|
  {
    if |done| < |names| {
      var edges := g.nodes[names[|done|]];
      var j := EdgesCompile(g, reach, names, edges, t, []);
      var r := CompileEdges(edges, Index(names), t, []);
      if r.result.Success? {
        NodesCompile(g, reach, names, r.tables, done + [r.result.value]);
      } else {
        assert MisfitAt(g, reach, names, r.result.error, |done|, j);
      }
    }
  }

  /** A flow compiles exactly when it is in the subset; one that does not is refused for its first misfit. */
  lemma CompilesIffInSubset(g: Graph, reach: set<string>, t: Tables)
    requires WellFormed(g)
    ensures var r := FlowFrom(g, NamesOf(g, reach), t);
            && (r.Success? <==> InSubset(g, reach))
            && (r.Failure? ==> if Listed(g, reach, g.start) then FirstMisfit(g, reach, NamesOf(g, reach), r.error)
                               else r.error == BadStart)
  {
    var names := NamesOf(g, reach);
    forall n ensures n in Index(names) <==> Listed(g, reach, n) { }
    NodesCompile(g, reach, names, t, []);
    forall n | n in g.nodes && Listed(g, reach, n) && NodesInSubset(g, reach, names, 0)
      ensures EdgesInSubset(g, reach, g.nodes[n])
    {
      assert names[Index(names)[n]] == n;
    }
  }

  method CompileFlow(g: Graph) returns (r: Result<Flow, SubsetError>, reach: set<string>)
    requires WellFormed(g)
    ensures r == FlowOf(g, reach) && reach <= g.nodes.Keys
    ensures Traps(g, reach) && forall s | Traps(g, s) :: reach <= s
    ensures r.Success? <==> InSubset(g, reach)
    ensures r.Failure? ==> if Listed(g, reach, g.start) then FirstMisfit(g, reach, NamesOf(g, reach), r.error)
                           else r.error == BadStart
  {
    reach := Reachable(g);
    CompilesIffInSubset(g, reach, EMPTY);
    var names := NamesOf(g, reach);
    var idx := Index(names);
    if g.start !in idx { return Failure(BadStart), reach; }
    var img := new TableImage();
    var nodes: seq<seq<Branch>> := [];
    ghost var whole := CompileNodes(g, names, idx, EMPTY, []);
    for i := 0 to |names|
      invariant |nodes| == i && CompileNodes(g, names, idx, img.Tab(), nodes) == whole
    {
      var branches := CompileNode(img, g.nodes[names[i]], idx);
      if branches.Failure? { return Failure(branches.error), reach; }
      nodes := nodes + [branches.value];
    }
    var tables := Tables(img.fields, img.intern, img.atoms, img.atomIx);
    r := Success(Flow(names, tables, nodes, idx[g.start]));
  }

  method CompileNode(img: TableImage, edges: seq<FlowEdge>, idx: map<string, nat>) returns (r: Result<seq<Branch>, SubsetError>)
    modifies img
    ensures Compiled(img.Tab(), r) == CompileEdges(edges, idx, old(img.Tab()), [])
  {
    var done: seq<Branch> := [];
    ghost var whole := CompileEdges(edges, idx, img.Tab(), []);
    for i := 0 to |edges|
      invariant CompileEdges(edges[i..], idx, img.Tab(), done) == whole
    {
      var e := edges[i];
      assert edges[i..][0] == e && edges[i..][1..] == edges[i + 1..];
      if Skipped(e.cond) { continue; }
      if e.cond.Semantic? { return Failure(SemanticEdge); }
      if e.target !in idx { return Failure(DanglingTarget); }
      var prog: Result<seq<nat>, SubsetError>;
      match e.cond {
        case Always => prog := Success([OPC_TRUE]);
        case Never => prog := Success([OPC_FALSE]);
        case When(c) => prog := img.ProgExpr(c);
        case _ => prog := Failure(NotLevelM);
      }
      if prog.Failure? { return Failure(prog.error); }
      done := done + [Branch(idx[e.target], prog.value)];
    }
    r := Success(done);
  }

  // ----- The image -----

  /** What a flow declares about keeping a resident node; `None` where the author left it out. */
  datatype Residency = Stateless | Resident(safe: Option<string>, byName: Option<bool>)

  const FLAG_MIGRATE_BY_NAME: nat := 0x0002
  const FLAG_STATEFUL: nat := 0x0008

  function FlagsOf(names: seq<string>, d: Residency): Result<nat, SubsetError> {
    match d
    case Stateless => Success(0)
    case Resident(safe, byName) =>
      if safe == None then Failure(SafeUndeclared)
      else if safe.value !in Index(names) then Failure(DanglingSafe)
      else if byName == None then Failure(MigrationUndeclared)
      else Success(Index(names)[safe.value] % 0x100 * 0x100 + FLAG_STATEFUL
                   + (if byName.value then FLAG_MIGRATE_BY_NAME else 0))
  }

  /** The deepest stack any program climbs to, at least one; `None` where one does not leave exactly one value. */
  function MaxStackOf(branches: seq<Branch>): Option<nat> {
    if branches == [] then Some(1)
    else
      var so := MaxStackOf(branches[..|branches| - 1]);
      var w := WalkFrom(branches[|branches| - 1].prog, Walk(0, 0));
      if so == None || w.depth != 1 then None else Some(Larger(so.value, w.peak))
  }

  lemma {:induction false} FailureStays(a: seq<Branch>, b: seq<Branch>)
    requires MaxStackOf(a) == None
    ensures MaxStackOf(a + b) == None
  {
    if b == [] {
      assert a + b == a;
    } else {
      FailureStays(a, b[..|b| - 1]);
      assert (a + b)[..|a + b| - 1] == a + b[..|b| - 1];
    }
  }

  lemma {:induction false} AllBranchesSplit(nodes: seq<seq<Branch>>, i: nat) returns (rest: seq<Branch>)
    requires i < |nodes|
    ensures AllBranches(nodes) == AllBranches(nodes[..i]) + nodes[i] + rest
    decreases |nodes|
  {
    var last := |nodes| - 1;
    if i == last {
      rest := [];
    } else {
      var r := AllBranchesSplit(nodes[..last], i);
      assert nodes[..last][..i] == nodes[..i];
      rest := r + nodes[last];
    }
  }

  lemma FailureIsFinal(nodes: seq<seq<Branch>>, i: nat, j: nat)
    requires i < |nodes| && j < |nodes[i]| && MaxStackOf(AllBranches(nodes[..i]) + nodes[i][..j + 1]) == None
    ensures MaxStackOf(AllBranches(nodes)) == None
  {
    var before := AllBranches(nodes[..i]);
    var rest := AllBranchesSplit(nodes, i);
    FailureStays(before + nodes[i][..j + 1], nodes[i][j + 1..] + rest);
    assert before + nodes[i][..j + 1] + (nodes[i][j + 1..] + rest) == before + nodes[i] + rest;
  }

  lemma MaxStackStep(before: seq<Branch>, bs: seq<Branch>, j: nat)
    requires j < |bs|
    ensures var upto := before + bs[..j + 1];
            upto[..|upto| - 1] == before + bs[..j] && upto[|upto| - 1] == bs[j]
  {
  }

  method MaxStack(nodes: seq<seq<Branch>>) returns (maxStack: Option<nat>)
    ensures maxStack == MaxStackOf(AllBranches(nodes))
  {
    var high: nat := 1;
    for i := 0 to |nodes|
      invariant MaxStackOf(AllBranches(nodes[..i])) == Some(high)
    {
      ghost var before := AllBranches(nodes[..i]);
      assert before + nodes[i][..0] == before;
      for j := 0 to |nodes[i]|
        invariant MaxStackOf(before + nodes[i][..j]) == Some(high)
      {
        var peak := CountDepth(nodes[i][j].prog);
        MaxStackStep(before, nodes[i], j);
        if peak == None {
          FailureIsFinal(nodes, i, j);
          return None;
        }
        high := Larger(high, peak.value);
      }
      assert nodes[i][..|nodes[i]|] == nodes[i];
      NodeRows(nodes, i);
    }
    assert nodes[..|nodes|] == nodes;
    maxStack := Some(high);
  }

  function ImageOf(f: Flow, maxSteps: nat, maxStack: nat, flags: nat): Image {
    var flat := FlatOf(f.nodes);
    Image(|f.tables.fields|, |f.tables.intern|, f.tables.atoms, flat.nodes, flat.edges, flat.prog, f.start,
          if "visits" in f.tables.fields then f.tables.fields["visits"] else VISITS_NONE, maxSteps, maxStack, flags)
  }

  method BuildImage(f: Flow, maxSteps: nat, flags: nat) returns (im: Option<Image>)
    ensures im == match MaxStackOf(AllBranches(f.nodes))
                  case None => None
                  case Some(maxStack) => Some(ImageOf(f, maxSteps, maxStack, flags))
  {
    var maxStack := MaxStack(f.nodes);
    if maxStack == None { return None; }
    var flat := FlattenNodes(f.nodes);
    var visitsIdx := if "visits" in f.tables.fields then f.tables.fields["visits"] else VISITS_NONE;
    im := Some(Image(|f.tables.fields|, |f.tables.intern|, f.tables.atoms, flat.nodes, flat.edges, flat.prog,
                     f.start, visitsIdx, maxSteps, maxStack.value, flags));
  }
}
