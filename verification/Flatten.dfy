/**
 Nested nodes as flat rows (prismpath-hw/ppt_compile.py, the loops of serialize): offsets and counts into one
 edge array and one word array, and the proof that scanning the flat rows is scanning the nested nodes.
 */
module Flatten {
  import opened Wrappers
  import opened Table

  /** One edge as the compiler holds it: the target's node number and its program. */
  datatype Branch = Branch(target: nat, prog: seq<nat>)

  datatype Flat = Flat(nodes: seq<Node>, edges: seq<Edge>, prog: seq<nat>)

  // ----- The concatenations -----

  function AllBranches(nodes: seq<seq<Branch>>): seq<Branch> {
    if nodes == [] then [] else AllBranches(nodes[..|nodes| - 1]) + nodes[|nodes| - 1]
  }

  function AllWords(branches: seq<Branch>): seq<nat> {
    if branches == [] then [] else AllWords(branches[..|branches| - 1]) + branches[|branches| - 1].prog
  }

  /** The row of branch `k`: its program starts where the words of the branches before it end. */
  function EdgeRow(branches: seq<Branch>, k: nat): Edge
    requires k < |branches|
  {
    Edge(branches[k].target, |AllWords(branches[..k])|, |branches[k].prog|)
  }

  function NodeRow(nodes: seq<seq<Branch>>, i: nat): Node
    requires i < |nodes|
  {
    Node(|AllBranches(nodes[..i])|, |nodes[i]|)
  }

  function EdgeRows(branches: seq<Branch>): (rows: seq<Edge>)
    ensures |rows| == |branches| && forall k | 0 <= k < |branches| :: rows[k] == EdgeRow(branches, k)
  {
    seq(|branches|, k requires 0 <= k < |branches| => EdgeRow(branches, k))
  }

  function NodeRowsOf(nodes: seq<seq<Branch>>): (rows: seq<Node>)
    ensures |rows| == |nodes| && forall i | 0 <= i < |nodes| :: rows[i] == NodeRow(nodes, i)
  {
    seq(|nodes|, i requires 0 <= i < |nodes| => NodeRow(nodes, i))
  }

  /** The flat form: every row range starts where the one before it ends, so the ranges tile their arrays. */
  function FlatOf(nodes: seq<seq<Branch>>): Flat {
    var branches := AllBranches(nodes);
    Flat(NodeRowsOf(nodes), EdgeRows(branches), AllWords(branches))
  }

  method FlattenNodes(nodes: seq<seq<Branch>>) returns (flat: Flat)
    ensures flat == FlatOf(nodes)
  {
    var recs: seq<Node>, edges: seq<Edge>, blob: seq<nat> := [], [], [];
    ghost var branches: seq<Branch> := [];
    for i := 0 to |nodes|
      invariant branches == AllBranches(nodes[..i])
      invariant Flat(recs, edges, blob) == FlatOf(nodes[..i])
    {
      recs := recs + [Node(|edges|, |nodes[i]|)];
      assert nodes[..i + 1][..i] == nodes[..i];
      for j := 0 to |nodes[i]|
        invariant branches == AllBranches(nodes[..i]) + nodes[i][..j]
        invariant blob == AllWords(branches) && edges == EdgeRows(branches)
      {
        var b := nodes[i][j];
        edges := edges + [Edge(b.target, |blob|, |b.prog|)];
        blob := blob + b.prog;
        BranchRows(branches, b);
        assert nodes[i][..j + 1] == nodes[i][..j] + [b];
        branches := branches + [b];
      }
      assert nodes[i][..|nodes[i]|] == nodes[i];
      NodeRows(nodes, i);
    }
    assert nodes[..|nodes|] == nodes;
    flat := Flat(recs, edges, blob);
  }

  lemma BranchRows(branches: seq<Branch>, b: Branch)
    ensures AllWords(branches + [b]) == AllWords(branches) + b.prog
    ensures EdgeRows(branches + [b]) == EdgeRows(branches) + [Edge(b.target, |AllWords(branches)|, |b.prog|)]
  {
    assert (branches + [b])[..|branches|] == branches;
    forall k | 0 <= k < |branches| ensures EdgeRow(branches + [b], k) == EdgeRow(branches, k) {
      assert (branches + [b])[..k] == branches[..k];
    }
  }

  lemma NodeRows(nodes: seq<seq<Branch>>, i: nat)
    requires i < |nodes|
    ensures AllBranches(nodes[..i + 1]) == AllBranches(nodes[..i]) + nodes[i]
    ensures NodeRowsOf(nodes[..i + 1]) == NodeRowsOf(nodes[..i]) + [Node(|AllBranches(nodes[..i])|, |nodes[i]|)]
  {
    assert nodes[..i + 1][..i] == nodes[..i];
    forall n | 0 <= n < i ensures NodeRow(nodes[..i + 1], n) == NodeRow(nodes[..i], n) {
      assert nodes[..i + 1][..n] == nodes[..i][..n] == nodes[..n];
    }
  }

  // ----- The ranges tile, and reading through them gives the nested data back -----

  lemma {:induction false} WordsAt(branches: seq<Branch>, k: nat)
    requires k < |branches|
    ensures var e := EdgeRow(branches, k);
            && e.progOff + e.progCnt <= |AllWords(branches)|
            && AllWords(branches)[e.progOff..e.progOff + e.progCnt] == branches[k].prog
            && (k + 1 < |branches| ==> EdgeRow(branches, k + 1).progOff == e.progOff + e.progCnt)
            && (k + 1 == |branches| ==> |AllWords(branches)| == e.progOff + e.progCnt)
  {
    var last := |branches| - 1;
    assert k < last ==> branches[..last][..k] == branches[..k] && branches[..last][..k + 1] == branches[..k + 1];
    if k < last {
      WordsAt(branches[..last], k);
      assert branches[..k + 1][..k] == branches[..k];
    }
  }

  lemma {:induction false} BranchesAt(nodes: seq<seq<Branch>>, i: nat)
    requires i < |nodes|
    ensures var n := NodeRow(nodes, i);
            && n.edgeOff + n.edgeCnt <= |AllBranches(nodes)|
            && AllBranches(nodes)[n.edgeOff..n.edgeOff + n.edgeCnt] == nodes[i]
            && (i + 1 < |nodes| ==> NodeRow(nodes, i + 1).edgeOff == n.edgeOff + n.edgeCnt)
            && (i + 1 == |nodes| ==> |AllBranches(nodes)| == n.edgeOff + n.edgeCnt)
  {
    var last := |nodes| - 1;
    assert i < last ==> nodes[..last][..i] == nodes[..i] && nodes[..last][..i + 1] == nodes[..i + 1];
    if i < last {
      BranchesAt(nodes[..last], i);
      assert nodes[..i + 1][..i] == nodes[..i];
    }
  }

  predicate Flattens(im: Image, nodes: seq<seq<Branch>>) {
    Flat(im.nodes, im.edges, im.prog) == FlatOf(nodes)
  }

  /** The first branch, from `from` on, whose program comes out true. */
  function FirstTrue(branches: seq<Branch>, truth: seq<bool>, from: nat, limit: nat): (r: Option<nat>)
    requires from <= |branches|
    ensures r.Some? ==> from <= r.value < |branches|
    decreases |branches| - from
  {
    if from == |branches| then None
    else if ExecVerdict(branches[from].prog, truth, limit) == Done(true) then Some(from)
    else FirstTrue(branches, truth, from + 1, limit)
  }

  lemma FlatEdge(im: Image, nodes: seq<seq<Branch>>, i: nat, j: nat)
    requires Flattens(im, nodes) && i < |nodes| && j < |nodes[i]|
    ensures EdgesInRange(im, im.nodes[i]) && im.nodes[i].edgeCnt == |nodes[i]|
    ensures var e := im.edges[im.nodes[i].edgeOff + j];
            WordsInRange(im, e) && Words(im, e) == nodes[i][j].prog && e.target == nodes[i][j].target
  {
    var branches := AllBranches(nodes);
    BranchesAt(nodes, i);
    var k := im.nodes[i].edgeOff + j;
    assert branches[k] == branches[im.nodes[i].edgeOff..im.nodes[i].edgeOff + im.nodes[i].edgeCnt][j] == nodes[i][j];
    WordsAt(branches, k);
  }

  lemma {:induction false} FlatScanFrom(im: Image, nodes: seq<seq<Branch>>, i: nat, truth: seq<bool>, from: nat, limit: nat)
    requires Flattens(im, nodes) && i < |nodes| && from <= |nodes[i]|
    requires EdgesInRange(im, im.nodes[i]) && im.nodes[i].edgeCnt == |nodes[i]|
    ensures FirstFiring(im, im.nodes[i], truth, from, limit) == FirstTrue(nodes[i], truth, from, limit)
    decreases |nodes[i]| - from
  {
    if from < |nodes[i]| {
      var fires := ExecVerdict(nodes[i][from].prog, truth, limit) == Done(true);
      assert ExecVerdict(Words(im, im.edges[im.nodes[i].edgeOff + from]), truth, limit) == Done(true) <==> fires by {
        FlatEdge(im, nodes, i, from);
      }
      if !fires { FlatScanFrom(im, nodes, i, truth, from + 1, limit); }
    }
  }

  /** Deciding over the flat rows is deciding over the nested node. */
  lemma FlatDecides(im: Image, nodes: seq<seq<Branch>>, i: nat, regs: seq<Reg>, limit: nat)
    requires Flattens(im, nodes) && i < |nodes|
    ensures i < |im.nodes| && EdgesInRange(im, im.nodes[i])
    ensures Decide(im, i, regs, limit) ==
            match FirstTrue(nodes[i], AtomTruth(im.atoms, regs), 0, limit)
            case None => NoMatch
            case Some(j) => Match(j, nodes[i][j].target)
  {
    BranchesAt(nodes, i);
    var truth := AtomTruth(im.atoms, regs);
    FlatScanFrom(im, nodes, i, truth, 0, limit);
    var r := FirstTrue(nodes[i], truth, 0, limit);
    if r.Some? { FlatEdge(im, nodes, i, r.value); }
  }

  lemma {:induction false} BranchOwner(nodes: seq<seq<Branch>>, k: nat) returns (i: nat, j: nat)
    requires k < |AllBranches(nodes)|
    ensures i < |nodes| && j < |nodes[i]| && AllBranches(nodes)[k] == nodes[i][j]
  {
    var last := |nodes| - 1;
    if k < |AllBranches(nodes[..last])| {
      i, j := BranchOwner(nodes[..last], k);
    } else {
      i, j := last, k - |AllBranches(nodes[..last])|;
    }
  }

  /** If every branch leads to a node and runs on this stack, so does every flat row. */
  lemma FlatIsSound(im: Image, nodes: seq<seq<Branch>>, limit: nat)
    requires Flattens(im, nodes)
    requires forall i, j | 0 <= i < |nodes| && 0 <= j < |nodes[i]| ::
               nodes[i][j].target < |nodes| && WellStacked(nodes[i][j].prog, |im.atoms|, limit)
    ensures forall i | 0 <= i < |im.nodes| :: EdgesInRange(im, im.nodes[i])
    ensures forall k | 0 <= k < |im.edges| :: WordsInRange(im, im.edges[k]) && im.edges[k].target < |im.nodes|
    ensures ProgramsRun(im, limit)
  {
    forall i | 0 <= i < |im.nodes| ensures EdgesInRange(im, im.nodes[i]) { BranchesAt(nodes, i); }
    forall k | 0 <= k < |im.edges|
      ensures WordsInRange(im, im.edges[k]) && im.edges[k].target < |im.nodes|
      ensures WellStacked(Words(im, im.edges[k]), |im.atoms|, limit)
    {
      WordsAt(AllBranches(nodes), k);
      var i, j := BranchOwner(nodes, k);
    }
  }
}
