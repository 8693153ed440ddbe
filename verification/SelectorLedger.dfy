/**
 Where every packet and every receipt of the resident selector goes (prismpath-ebpf/ppt_select.bpf.c): over any
 interleaving, each packet that arrived is accounted for exactly once, and each commit has its receipt or a reason.
 */
module SelectorLedger {
  import opened Wrappers
  import opened Table
  import opened Selector

  /**
   What has happened so far: packets arrived; packets for which the policy decided nothing; packets given up after
   the last attempt; commits for whose receipt the ring buffer had no room.
   */
  datatype Ledger = Ledger(arrived: nat, undecided: nat, exhausted: nat, lost: nat)

  const EMPTY := Ledger(0, 0, 0, 0)

  /** The line a step writes, from what the step finds and not from what it does. */
  function Enter(p: Policy, s: State, a: Action, l: Ledger): Ledger
    requires Enabled(s, a)
  {
    var c := s.cpus[a.cpu];
    match a
    case Arrive(_, _) => l.(arrived := l.arrived + 1)
    case Judge(_) => if p.decide(c.event, c.cur).NoMatch? then l.(undecided := l.undecided + 1) else l
    case Commit(_) =>
      if s.cell.gen != c.gen && c.attempt == SEL_MAX_RETRY - 1 then l.(exhausted := l.exhausted + 1) else l
    case Emit(_, room) => if room then l else l.(lost := l.lost + 1)
    case Snapshot(_) => l
  }

  function Entered(p: Policy, s: State, actions: seq<Action>, l: Ledger): Ledger
    requires Runs(p, s, actions)
    decreases |actions|
  {
    if actions == [] then l else Entered(p, Next(p, s, actions[0]), actions[1..], Enter(p, s, actions[0], l))
  }

  // ----- Counting CPUs -----

  function Count(cpus: seq<Cpu>, which: Cpu -> bool): nat {
    if cpus == [] then 0 else (if which(cpus[0]) then 1 else 0) + Count(cpus[1..], which)
  }

  function One(b: bool): nat {
    if b then 1 else 0
  }

  lemma {:induction false} CountMoves(cpus: seq<Cpu>, i: nat, c: Cpu, which: Cpu -> bool)
    requires i < |cpus|
    ensures Count(cpus[i := c], which) + One(which(cpus[i])) == Count(cpus, which) + One(which(c))
  {
    var moved := cpus[i := c];
    if i == 0 {
      assert moved[1..] == cpus[1..];
    } else {
      CountMoves(cpus[1..], i - 1, c, which);
      assert moved[1..] == cpus[1..][i - 1 := c];
    }
  }

  lemma {:induction false} NoneCounted(cpus: seq<Cpu>, which: Cpu -> bool)
    requires forall i | 0 <= i < |cpus| :: !which(cpus[i])
    ensures Count(cpus, which) == 0
  {
    if cpus != [] { NoneCounted(cpus[1..], which); }
  }

  /** A packet is in hand, not yet committed. */
  const InHand: Cpu -> bool := (c: Cpu) => c.Ready? || c.Snapped? || c.Judged?

  /** A commit's receipt is still to be written. */
  const Unwritten: Cpu -> bool := (c: Cpu) => c.Emitting?

  // ----- The balance -----

  /** Packets: in hand, undecided, given up or committed. Commits: a receipt written, still to be written, or lost. */
  predicate Balanced(s: State, l: Ledger) {
    && l.arrived == Count(s.cpus, InHand) + l.undecided + l.exhausted + |s.log|
    && |s.log| == |s.receipts| + Count(s.cpus, Unwritten) + l.lost
  }

  lemma StepBalances(p: Policy, start: nat, base: nat, s: State, a: Action, l: Ledger)
    requires Inv(p, start, base, s) && Enabled(s, a) && Balanced(s, l)
    ensures Balanced(Next(p, s, a), Enter(p, s, a, l))
  {
    var c := Next(p, s, a).cpus[a.cpu];
    assert CpuHolds(p, start, base, s, s.cpus[a.cpu]);
    assert Next(p, s, a).cpus == s.cpus[a.cpu := c];
    CountMoves(s.cpus, a.cpu, c, InHand);
    CountMoves(s.cpus, a.cpu, c, Unwritten);
  }

  lemma {:induction false} RunBalances(p: Policy, start: nat, base: nat, s: State, actions: seq<Action>, l: Ledger)
    requires Sane(p) && Inv(p, start, base, s) && Runs(p, s, actions) && Balanced(s, l)
    ensures Balanced(After(p, s, actions), Entered(p, s, actions, l))
    decreases |actions|
  {
    if actions != [] {
      StepBalances(p, start, base, s, actions[0], l);
      StepKeeps(p, start, base, s, actions[0]);
      RunBalances(p, start, base, Next(p, s, actions[0]), actions[1..], Enter(p, s, actions[0], l));
    }
  }

  /**
   Nothing goes missing. After any interleaving from a fresh cell: the packets that arrived are those in hand, those
   the policy decided nothing for, those given up after four attempts and those committed; the commits are those with
   a receipt, those about to write one and those the full ring buffer cost theirs.
   */
  lemma NothingGoesMissing(p: Policy, s: State, actions: seq<Action>)
    requires Sane(p) && Fresh(p, s) && Runs(p, s, actions)
    ensures Balanced(After(p, s, actions), Entered(p, s, actions, EMPTY))
  {
    FreshHolds(p, s);
    NoneCounted(s.cpus, InHand);
    NoneCounted(s.cpus, Unwritten);
    RunBalances(p, Resident(p, s.cell), s.cell.gen, s, actions, EMPTY);
  }
}
