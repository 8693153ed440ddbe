/**
 What a full ring buffer does to the trail (prismpath-ebpf/ppt_select.bpf.c): the commit stands, its receipt is lost,
 and the leaves no longer form the chain.
 */
module TrailGaps {
  import opened Wrappers
  import Admission
  import KernelEval
  import Selector
  import SwapTears
  import opened Migration

  // ----- One packet, alone -----

  function OneCommit(e: Selector.Event, room: bool): seq<Selector.Action> {
    [Selector.Arrive(0, e), Selector.Snapshot(0), Selector.Judge(0), Selector.Commit(0), Selector.Emit(0, room)]
  }

  /** The state it leaves: one commit, and its receipt if there was room. */
  function Committed(p: Selector.Policy, c: Selector.Cell, e: Selector.Event, target: nat, room: bool): Selector.State {
    var entry := Selector.Entry(c.gen + 1, Selector.Resident(p, c), e, target);
    Selector.State(Selector.Cell(target, true, c.gen + 1), [Selector.Idle], [entry],
                   if room then [Selector.ReceiptOf(p, entry)] else [], if room then [0] else [])
  }

  lemma StepRuns(p: Selector.Policy, s: Selector.State, a: Selector.Action, rest: seq<Selector.Action>)
    requires Selector.Enabled(s, a) && Selector.NoWrap(s, a) && Selector.Runs(p, Selector.Next(p, s, a), rest)
    ensures Selector.Runs(p, s, [a] + rest)
    ensures Selector.After(p, s, [a] + rest) == Selector.After(p, Selector.Next(p, s, a), rest)
  {
    assert ([a] + rest)[1..] == rest;
  }

  lemma OneCommitRuns(p: Selector.Policy, c: Selector.Cell, e: Selector.Event, room: bool)
    requires c.gen + 1 < Selector.GEN && p.decide(e, Selector.Resident(p, c)).Match?
    ensures var s := Selector.State(c, [Selector.Idle], [], [], []);
            && Selector.Runs(p, s, OneCommit(e, room))
            && Selector.After(p, s, OneCommit(e, room)) ==
               Committed(p, c, e, p.decide(e, Selector.Resident(p, c)).target, room)
  {
    var cur := Selector.Resident(p, c);
    var target := p.decide(e, cur).target;
    var s0 := Selector.State(c, [Selector.Idle], [], [], []);
    var s1 := s0.(cpus := [Selector.Ready(e, 0, 0)]);
    var s2 := s0.(cpus := [Selector.Snapped(e, 0, 0, cur, c.gen, 0)]);
    var s3 := s0.(cpus := [Selector.Judged(e, 0, 0, cur, c.gen, 0, target)]);
    var entry := Selector.Entry(c.gen + 1, cur, e, target);
    var s4 := Selector.State(Selector.Cell(target, true, c.gen + 1), [Selector.Emitting(0)], [entry], [], []);
    assert Selector.Next(p, s0, Selector.Arrive(0, e)) == s1;
    assert Selector.Next(p, s1, Selector.Snapshot(0)) == s2;
    assert Selector.Next(p, s2, Selector.Judge(0)) == s3;
    CommitLands(p, s3, s4, c, e, cur, target);
    EmitLands(p, s4, c, e, target, room);
    StepRuns(p, s4, Selector.Emit(0, room), []);
    StepRuns(p, s3, Selector.Commit(0), [Selector.Emit(0, room)] + []);
    StepRuns(p, s2, Selector.Judge(0), [Selector.Commit(0)] + ([Selector.Emit(0, room)] + []));
    Unfold(p, s0, s1, s2, e, room);
  }

  lemma Unfold(p: Selector.Policy, s0: Selector.State, s1: Selector.State, s2: Selector.State, e: Selector.Event, room: bool)
    requires Selector.Enabled(s0, Selector.Arrive(0, e)) && Selector.Next(p, s0, Selector.Arrive(0, e)) == s1
    requires Selector.Enabled(s1, Selector.Snapshot(0)) && Selector.Next(p, s1, Selector.Snapshot(0)) == s2
    requires Selector.Runs(p, s2, [Selector.Judge(0)] + ([Selector.Commit(0)] + ([Selector.Emit(0, room)] + [])))
    ensures Selector.Runs(p, s0, OneCommit(e, room))
    ensures Selector.After(p, s0, OneCommit(e, room)) ==
            Selector.After(p, s2, [Selector.Judge(0)] + ([Selector.Commit(0)] + ([Selector.Emit(0, room)] + [])))
  {
    var rest := [Selector.Judge(0)] + ([Selector.Commit(0)] + ([Selector.Emit(0, room)] + []));
    StepRuns(p, s1, Selector.Snapshot(0), rest);
    StepRuns(p, s0, Selector.Arrive(0, e), [Selector.Snapshot(0)] + rest);
    assert [Selector.Arrive(0, e)] + ([Selector.Snapshot(0)] + rest) == OneCommit(e, room);
  }

  lemma CommitLands(p: Selector.Policy, s: Selector.State, t: Selector.State, c: Selector.Cell, e: Selector.Event, cur: nat, target: nat)
    requires s == Selector.State(c, [Selector.Judged(e, 0, 0, cur, c.gen, 0, target)], [], [], []) && c.gen + 1 < Selector.GEN
    requires t == Selector.State(Selector.Cell(target, true, c.gen + 1), [Selector.Emitting(0)],
                                 [Selector.Entry(c.gen + 1, cur, e, target)], [], [])
    ensures Selector.Enabled(s, Selector.Commit(0)) && Selector.NoWrap(s, Selector.Commit(0))
    ensures Selector.Next(p, s, Selector.Commit(0)) == t
  {
    Unwrapped(c.gen + 1);
  }

  lemma EmitLands(p: Selector.Policy, s: Selector.State, c: Selector.Cell, e: Selector.Event, target: nat, room: bool)
    requires s == Selector.State(Selector.Cell(target, true, c.gen + 1), [Selector.Emitting(0)],
                                 [Selector.Entry(c.gen + 1, Selector.Resident(p, c), e, target)], [], [])
    ensures Selector.Enabled(s, Selector.Emit(0, room))
    ensures Selector.Next(p, s, Selector.Emit(0, room)) == Committed(p, c, e, target, room)
  {
  }

  // ----- Its receipt decides whether the trail chains -----

  function Packet(e: Selector.Event, room: bool): seq<Act> {
    [Traffic(1, OneCommit(e, room))]
  }

  /** The item a packet leaves. */
  function PacketItem(t: Trail, e: Selector.Event, target: nat, room: bool): Item {
    Item(DataLeaf(t.pack.hash, Selector.Entry(t.cell.gen + 1, Selector.Resident(Kernel(t.pack), t.cell), e, target)), false, room)
  }

  lemma PacketHappens(t: Trail, e: Selector.Event, room: bool)
    requires t.cell.gen + 1 < Selector.GEN && Kernel(t.pack).decide(e, Selector.Resident(Kernel(t.pack), t.cell)).Match?
    ensures var target := Kernel(t.pack).decide(e, Selector.Resident(Kernel(t.pack), t.cell)).target;
            && Happens(t, Packet(e, room))
            && Run(t, Packet(e, room)) ==
               Trail(t.pack, Selector.Cell(target, true, t.cell.gen + 1), t.items + [PacketItem(t, e, target, room)])
  {
    var p := Kernel(t.pack);
    OneCommitRuns(p, t.cell, e, room);
    assert Gate(t, 1) == Selector.State(t.cell, [Selector.Idle], [], [], []);
    var target := p.decide(e, Selector.Resident(p, t.cell)).target;
    var u := Committed(p, t.cell, e, target, room);
    assert ItemsOf(t.pack.hash, u.log, u.emitted) == [PacketItem(t, e, target, room)];
    assert Possible(t, Traffic(1, OneCommit(e, room)));
    assert Packet(e, room)[1..] == [];
  }

  lemma {:induction false} CompleteAppend(items: seq<Item>, last: Item)
    requires Complete(items) && !last.swap && last.leaf.event != EVENT_MIGRATION
    ensures Complete(items + [last]) <==> last.kept
  {
    if items == [] {
      assert items + [last] == [last] && [last][1..] == [];
    } else {
      assert (items + [last])[0] == items[0] && (items + [last])[1..] == items[1..] + [last];
      CompleteAppend(items[1..], last);
    }
  }

  /**
   On any trail that chains, one packet more leaves one that chains exactly if the ring buffer had room: the commit
   stands either way.
   */
  lemma DropBreaksChain(t: Trail, start: nat, startGen: nat, e: Selector.Event, room: bool)
    requires Holds(t, start, startGen) && Settled(t) && Complete(t.items) && t.cell.gen + 1 < Selector.GEN
    requires Kernel(t.pack).decide(e, Selector.Resident(Kernel(t.pack), t.cell)).Match?
    requires Selector.EventValue(e) != EVENT_MIGRATION
    ensures Happens(t, Packet(e, room))
    ensures var u := Run(t, Packet(e, room));
            && u.cell.gen == t.cell.gen + 1
            && (Chain(Leaves(u.items), start, startGen, Selector.Resident(Kernel(u.pack), u.cell), u.cell.gen) <==> room)
  {
    PacketHappens(t, e, room);
    var target := Kernel(t.pack).decide(e, Selector.Resident(Kernel(t.pack), t.cell)).target;
    CompleteAppend(t.items, PacketItem(t, e, target, room));
    TrailIsOneChain(t, start, startGen, Packet(e, room));
  }

  /** And such a run exists: a policy just deployed on node 0, whose first packet takes it to node 1 and leaves no leaf. */
  lemma DropHappens(e: Selector.Event) returns (t: Trail)
    requires Selector.EventValue(e) != EVENT_MIGRATION
    ensures Holds(t, 0, 0) && Settled(t) && t.items == [] && Chain(Leaves(t.items), 0, 0, 0, 0)
    ensures Happens(t, Packet(e, false))
    ensures var u := Run(t, Packet(e, false));
            && Leaves(u.items) == [] && Selector.Resident(Kernel(u.pack), u.cell) == 1
            && !Chain(Leaves(u.items), 0, 0, 1, u.cell.gen)
  {
    var im := SwapTears.Goes();
    SwapTears.OneEdgeFits(1, true);
    var s := SwapTears.FreshlyAttached(im, {});
    var bank := s.sides[s.selector].rows;
    var pack := Pack(Admission.Policy(im, 1, None), bank, 0);
    t := Trail(pack, Selector.Cell(0, true, 0), []);
    assert Selector.TargetsInRange(im);
    assert Sound(pack) && Holds(t, 0, 0);
    Selector.KernelPolicyDecides(im, bank, 1, 0, e, 0);
    SwapTears.OneEdgeDecides(1, true, KernelEval.Visible(e.regs, e.nFields), Admission.STACK_MAX);
    PacketHappens(t, e, false);
    var u := Run(t, Packet(e, false));
    assert u.items == [] + [PacketItem(t, e, 1, false)] == [PacketItem(t, e, 1, false)];
    assert Leaves(u.items[1..]) == [];
  }
}
