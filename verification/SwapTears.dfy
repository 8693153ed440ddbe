/**
 Why a packet must not outlive more updates than it can spare: for each of the two cases a run of the live swap, from
 a freshly attached policy, with one update more, whose packet leaves with a verdict no policy of the run gives.
 */
module SwapTears {
  import opened Wrappers
  import opened Table
  import opened ImageCodec
  import opened Admission
  import opened KernelEval
  import opened Lookups
  import opened BankSwap
  import opened SwapRuns

  // ----- Two policies of one edge -----

  /** Three nodes; the first has one edge, to `target`, that fires always or never. */
  function OneEdge(target: nat, always: bool): Image {
    Image(NET_FIELDS, 1, [], [Node(0, 1), Node(1, 0), Node(1, 0)], [Edge(target, 0, 1)],
          [if always then OPC_TRUE else OPC_FALSE], 0, 0xFFFF, 25, 1, 0)
  }

  /** The policy attached goes to node 1; the one it is updated with goes nowhere. */
  function Goes(): Image { OneEdge(1, true) }
  function Stays(): Image { OneEdge(2, false) }

  lemma ConstantRuns(word: nat, truth: seq<bool>, limit: nat)
    requires (word == OPC_TRUE || word == OPC_FALSE) && limit >= 1
    ensures Exec([word], truth, [], limit) == Done([word == OPC_TRUE]) && WellStacked([word], |truth|, limit)
  {
    var none: seq<bool> := [];
    assert [word][1..] == [] && none + [word == OPC_TRUE] == [word == OPC_TRUE];
    assert Step([], word, truth, limit) == Done([word == OPC_TRUE]);
    assert DepthStep(0, word, |truth|, limit) == Some(1);
    assert DepthAfter([word], |truth|, 0, limit) == DepthAfter([word][1..], |truth|, 1, limit);
  }

  lemma OneEdgeFits(target: nat, always: bool)
    ensures Fit(OneEdge(target, always)) && RowCount(OneEdge(target, always)) == 5
  {
    var im := OneEdge(target, always);
    assert Words(im, im.edges[0]) == im.prog;
    ConstantRuns(im.prog[0], [], STACK_MAX);
  }

  lemma OneEdgeDecides(target: nat, always: bool, regs: seq<Reg>, limit: nat)
    requires limit >= 1
    ensures EdgesInRange(OneEdge(target, always), OneEdge(target, always).nodes[0])
    ensures Decide(OneEdge(target, always), 0, regs, limit) == if always then Match(0, target) else NoMatch
  {
    var im := OneEdge(target, always);
    var truth := AtomTruth(im.atoms, regs);
    assert Words(im, im.edges[0]) == im.prog;
    ConstantRuns(im.prog[0], truth, limit);
    assert FiresAt(im, im.nodes[0], 0, truth, limit) == always;
  }

  // ----- The pieces of the runs -----

  /** The packet comes in, chooses its bank and evaluates up to the last lookup, the one of the target. */
  function Approach(regs: RegFile): seq<Action> {
    [Arrive(regs), Select(0), ReadConfig(0)] + [Look(0), Look(0), Look(0), Look(0)]
  }

  function Poised(s: State, regs: RegFile): Packet
    requires Shaped(s)
  {
    Packet(regs, Evaluating(AtTarget(0, 0)), s.selector, s.sides[s.selector], s.live, s.updates, s.loader.Quiet?, false)
  }

  lemma LooksToTarget(b: Bank, regs: RegFile)
    requires Loaded(b, Goes())
    ensures Lookup(b, regs, NET_FIELDS, AtNode(0)) == AtEdge(0, 1, 0)
    ensures Lookup(b, regs, NET_FIELDS, AtEdge(0, 1, 0)) == AtWord(0, 1, 0, 0, 1, 0, [])
    ensures Lookup(b, regs, NET_FIELDS, AtWord(0, 1, 0, 0, 1, 0, [])) == AtWord(0, 1, 0, 0, 1, 1, [true])
    ensures Lookup(b, regs, NET_FIELDS, AtWord(0, 1, 0, 0, 1, 1, [true])) == AtTarget(0, 0)
  {
    assert b.nodes[0] == Goes().nodes[0] && b.edges[0] == Goes().edges[0] && b.prog[0] == Goes().prog[0];
  }

  /** One lookup of the only packet. */
  lemma LookRuns(s: State, p: Packet, c: Cursor)
    requires Shaped(s) && s.packets == [p] && p.stage == Evaluating(c) && !c.Finished? && p.bank < 2 && Proper(c)
    ensures Runs(s, [Look(0)])
    ensures After(s, [Look(0)]) ==
            s.(packets := [p.(stage := Evaluating(Lookup(s.sides[p.bank].rows, p.regs, NET_FIELDS, c)))])
  {
    RunsOne(s, Look(0));
  }

  lemma EntryRuns(s: State, regs: RegFile)
    requires Shaped(s) && s.packets == []
    ensures Runs(s, [Arrive(regs), Select(0), ReadConfig(0)])
    ensures After(s, [Arrive(regs), Select(0), ReadConfig(0)]) ==
            s.(packets := [Poised(s, regs).(stage := Evaluating(AtNode(s.sides[s.selector].config.start)))])
  {
    var chosen := Poised(s, regs).(stage := Chosen);
    var s1 := Next(s, Arrive(regs));
    var s2 := s.(packets := [chosen]);
    RunsOne(s, Arrive(regs));
    assert |s1.packets| == 1 && s1.packets[0].stage.Waiting? && s1.packets[0].regs == regs;
    assert Next(s1, Select(0)) == s2;
    RunsOne(s1, Select(0));
    RunsOne(s2, ReadConfig(0));
    RunsThen(s1, [Select(0)], [ReadConfig(0)]);
    RunsThen(s, [Arrive(regs)], [Select(0)] + [ReadConfig(0)]);
    assert [Arrive(regs)] + ([Select(0)] + [ReadConfig(0)]) == [Arrive(regs), Select(0), ReadConfig(0)];
  }

  lemma LooksRun(s: State, p: Packet)
    requires Shaped(s) && s.packets == [p] && p.stage == Evaluating(AtNode(0)) && p.bank < 2
    requires Loaded(s.sides[p.bank].rows, Goes())
    ensures Runs(s, [Look(0), Look(0), Look(0), Look(0)])
    ensures After(s, [Look(0), Look(0), Look(0), Look(0)]) == s.(packets := [p.(stage := Evaluating(AtTarget(0, 0)))])
  {
    LooksToTarget(s.sides[p.bank].rows, p.regs);
    var c := AtWord(0, 1, 0, 0, 1, 0, []);
    var q := p.(stage := Evaluating(c));
    TwoLooksRun(s, p, AtNode(0), AtEdge(0, 1, 0), c);
    TwoLooksRun(s.(packets := [q]), q, c, AtWord(0, 1, 0, 0, 1, 1, [true]), AtTarget(0, 0));
    RunsThen(s, [Look(0), Look(0)], [Look(0), Look(0)]);
    assert [Look(0), Look(0)] + [Look(0), Look(0)] == [Look(0), Look(0), Look(0), Look(0)];
  }

  lemma TwoLooksRun(s: State, p: Packet, c: Cursor, d: Cursor, e: Cursor)
    requires Shaped(s) && s.packets == [p] && p.stage == Evaluating(c) && p.bank < 2
    requires !c.Finished? && Proper(c) && !d.Finished? && Proper(d)
    requires Lookup(s.sides[p.bank].rows, p.regs, NET_FIELDS, c) == d
    requires Lookup(s.sides[p.bank].rows, p.regs, NET_FIELDS, d) == e
    ensures Runs(s, [Look(0), Look(0)]) && After(s, [Look(0), Look(0)]) == s.(packets := [p.(stage := Evaluating(e))])
  {
    var q := p.(stage := Evaluating(d));
    LookRuns(s, p, c);
    LookRuns(s.(packets := [q]), q, d);
    RunsThen(s, [Look(0)], [Look(0)]);
    assert [Look(0)] + [Look(0)] == [Look(0), Look(0)];
  }

  lemma ApproachRuns(s: State, mask: set<nat>, regs: RegFile)
    requires Shaped(s) && s.packets == [] && Whole(s.sides[s.selector], Goes(), mask)
    ensures Runs(s, Approach(regs)) && After(s, Approach(regs)) == s.(packets := [Poised(s, regs)])
  {
    var p := Poised(s, regs).(stage := Evaluating(AtNode(0)));
    assert Goes().start == 0;
    EntryRuns(s, regs);
    assert Loaded(s.sides[p.bank].rows, Goes());
    LooksRun(s.(packets := [p]), p);
    RunsThen(s, [Arrive(regs), Select(0), ReadConfig(0)], [Look(0), Look(0), Look(0), Look(0)]);
  }

  /** An update rewrites the bank the packet waits on as far as its edge; then the packet reads its target and leaves. */
  function Tear(): seq<Action> {
    [Begin(Stays())] + (Oks(4) + [Look(0), Rule(0)])
  }

  /** The packet `p` is out, the old edge and the new target in its verdict, after `begun` updates in all. */
  predicate TornOff(t: State, p: Packet, begun: nat) {
    && |t.packets| == 1 && t.packets[0].stage.Out? && t.packets[0].stage.verdict == Match(0, 2)
    && t.packets[0].stage.upTo == begun
    && t.packets[0].since == p.since && t.packets[0].quiet == p.quiet && t.packets[0].regs == p.regs
  }

  lemma TearRuns(s: State, p: Packet)
    requires Shaped(s) && s.loader.Quiet? && s.packets == [p] && p.stage == Evaluating(AtTarget(0, 0)) && p.bank == 1 - s.selector
    ensures Runs(s, Tear())
    ensures TornOff(After(s, Tear()), p, s.updates + 1)
  {
    OneEdgeFits(2, false);
    var before := s.sides[p.bank].rows;
    var s1 := Next(s, Begin(Stays()));
    RunsOne(s, Begin(Stays()));
    RowsRun(s1, before, 4);
    var s2 := Further(s1, before, 4);
    EdgeIsWritten(before);
    var q := p.(dirty := true);
    assert s2.packets == [q];
    LeavesTorn(s2, q);
    RunsThen(s1, Oks(4), [Look(0), Rule(0)]);
    RunsThen(s, [Begin(Stays())], Oks(4) + [Look(0), Rule(0)]);
  }

  lemma LeavesTorn(s: State, p: Packet)
    requires Shaped(s) && s.packets == [p] && p.stage == Evaluating(AtTarget(0, 0)) && p.bank < 2
    requires At(s.sides[p.bank].rows.edges, 0, 0, MAX_EDGES).target == 2
    ensures Runs(s, [Look(0), Rule(0)]) && TornOff(After(s, [Look(0), Rule(0)]), p, s.updates)
  {
    LookRuns(s, p, AtTarget(0, 0));
    RunsOne(s.(packets := [p.(stage := Evaluating(Finished(Match(0, 2))))]), Rule(0));
    RunsThen(s, [Look(0)], [Rule(0)]);
    assert [Look(0)] + [Rule(0)] == [Look(0), Rule(0)];
  }

  lemma EdgeIsWritten(b: Bank)
    requires Full(b)
    ensures WithinCapacity(Declared(Stays())) && At(Overwritten(b, Stays(), 4).edges, 0, 0, MAX_EDGES).target == 2
  {
    OneEdgeFits(2, false);
    assert Over(b.edges, Stays().edges, 1)[0] == Stays().edges[0];
  }

  // ----- The runs -----

  /** Two updates begin after a packet that chose its bank while none was under way. */
  function LateRun(regs: RegFile): seq<Action> {
    Approach(regs) + (UpdateActions(Stays(), 7) + Tear())
  }

  /** One update begins after a packet that chose its bank while another was under way. */
  function BusyRun(regs: RegFile): seq<Action> {
    [Begin(Stays())] + (Approach(regs) + ((Oks(5) + LastSteps(Stays(), 7)) + Tear()))
  }

  /** One packet left, having seen one update more than it can spare, with a verdict neither policy gives. */
  predicate Torn(t: State, regs: RegFile, quiet: bool) {
    && |t.packets| == 1 && t.packets[0].regs == regs && t.packets[0].stage.Out? && t.packets[0].quiet == quiet
    && t.packets[0].stage.upTo == Spare(t.packets[0]) + 1
    && EdgesInRange(Goes(), Goes().nodes[0]) && EdgesInRange(Stays(), Stays().nodes[0])
    && t.packets[0].stage.verdict != Decide(Goes(), 0, Visible(regs, NET_FIELDS), INTERP_STACK)
    && t.packets[0].stage.verdict != Decide(Stays(), 0, Visible(regs, NET_FIELDS), INTERP_STACK)
  }

  lemma Neither(t: State, regs: RegFile, quiet: bool)
    requires |t.packets| == 1 && t.packets[0].regs == regs && t.packets[0].stage.Out? && t.packets[0].quiet == quiet
    requires t.packets[0].stage.upTo == Spare(t.packets[0]) + 1 && t.packets[0].stage.verdict == Match(0, 2)
    ensures Torn(t, regs, quiet)
  {
    OneEdgeDecides(1, true, Visible(regs, NET_FIELDS), INTERP_STACK);
    OneEdgeDecides(2, false, Visible(regs, NET_FIELDS), INTERP_STACK);
  }

  lemma LateRunTears(s: State, mask: set<nat>, regs: RegFile)
    requires Attached(s, mask) && s.live == Goes()
    ensures Runs(s, LateRun(regs)) && Torn(After(s, LateRun(regs)), regs, true)
  {
    var p := Poised(s, regs);
    ApproachRuns(s, mask, regs);
    UpdateThenTear(s.(packets := [p]), p);
    RunsThen(s, Approach(regs), UpdateActions(Stays(), 7) + Tear());
    Neither(After(s, LateRun(regs)), regs, true);
  }

  /** A whole update goes through, and the next one tears. */
  lemma UpdateThenTear(s: State, p: Packet)
    requires Shaped(s) && s.loader.Quiet? && s.packets == [p]
    requires p.stage == Evaluating(AtTarget(0, 0)) && p.bank == s.selector
    ensures var acts := UpdateActions(Stays(), 7) + Tear();
            Runs(s, acts) && TornOff(After(s, acts), p, s.updates + 2)
  {
    OneEdgeFits(2, false);
    UpdateRuns(s, Stays(), 7);
    var t := After(s, UpdateActions(Stays(), 7));
    assert t.packets == [p];
    TearRuns(t, p);
    RunsThen(s, UpdateActions(Stays(), 7), Tear());
  }

  lemma BusyRunTears(s: State, mask: set<nat>, regs: RegFile)
    requires Attached(s, mask) && s.live == Goes()
    ensures Runs(s, BusyRun(regs)) && Torn(After(s, BusyRun(regs)), regs, false)
  {
    OneEdgeFits(2, false);
    var s1 := Next(s, Begin(Stays()));
    RunsOne(s, Begin(Stays()));
    ApproachRuns(s1, mask, regs);
    var p := Poised(s1, regs);
    var rest := (Oks(5) + LastSteps(Stays(), 7)) + Tear();
    FinishThenTear(s1.(packets := [p]), p);
    RunsThen(s1, Approach(regs), rest);
    RunsThen(s, [Begin(Stays())], Approach(regs) + rest);
    Neither(After(s, BusyRun(regs)), regs, false);
  }

  /** The update under way goes through, and the next one tears. */
  lemma FinishThenTear(s: State, p: Packet)
    requires Shaped(s) && s.loader == Writing(Stays(), 1 - s.selector, 0) && s.packets == [p]
    requires p.stage == Evaluating(AtTarget(0, 0)) && p.bank == s.selector
    ensures var acts := (Oks(5) + LastSteps(Stays(), 7)) + Tear();
            Runs(s, acts) && TornOff(After(s, acts), p, s.updates + 1)
  {
    OneEdgeFits(2, false);
    var writes := Oks(5) + LastSteps(Stays(), 7);
    WritesRun(s, Stays(), 7);
    var t := After(s, writes);
    assert t.packets == [p];
    TearRuns(t, p);
    RunsThen(s, writes, Tear());
  }

  /** Any admitted policy can be freshly attached. */
  lemma FreshlyAttached(im: Image, mask: set<nat>) returns (s: State)
    requires Fit(im)
    ensures Attached(s, mask) && s.live == im
  {
    var blank := Bank(seq(MAX_ATOMS, _ => Atom(0, 0, 0, 0)), seq(MAX_NODES, _ => Node(0, 0)),
                      seq(MAX_EDGES, _ => Edge(0, 0, 0)), seq(MAX_PROG_WORDS, _ => 0));
    var side := Side(Overwritten(blank, im, RowCount(im)), Config(im.start, mask));
    OverwrittenLoads(blank, im);
    s := State([side, side], 0, Quiet, [], im, 0);
  }

  /**
   The bound on a packet's flight cannot be raised. From an attached policy, whatever its drop mask and whatever the
   packet, one update beyond those the packet can spare lets it take the edge of the old policy to the target of the
   new one: a verdict neither gives, whether the packet chose its bank in a quiet moment or during an update.
   */
  lemma OverlappingUpdateTears(mask: set<nat>, regs: RegFile) returns (s: State)
    ensures Attached(s, mask)
    ensures Runs(s, LateRun(regs)) && Torn(After(s, LateRun(regs)), regs, true)
    ensures Runs(s, BusyRun(regs)) && Torn(After(s, BusyRun(regs)), regs, false)
  {
    OneEdgeFits(1, true);
    s := FreshlyAttached(Goes(), mask);
    LateRunTears(s, mask, regs);
    BusyRunTears(s, mask, regs);
  }
}
