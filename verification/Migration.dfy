/**
 Carrying the resident node into a new policy (prismpath-ebpf/ppt_image.c, migrate_node), and the one trail that
 packet transitions and policy swaps leave (prismpath-ebpf/ppt_maps.c, selector_hotswap).
 */
module Migration {
  import opened Wrappers
  import opened Table
  import opened Admission
  import opened KernelEval
  import FlowCompiler
  import Selector

  const FLAG_MIGRATE_BY_NAME: nat := 0x02
  const CAUSE_NONE: nat := 0
  const CAUSE_MIGRATION_RESET: nat := 66
  const EVENT_MIGRATION: int := -0x8000_0000

  // ----- One migration -----

  datatype Landing = Landing(node: nat, cause: nat)

  /** The first node, from `from` on, whose name hash is `want`. */
  function FindName(names: seq<int>, want: int, from: nat): (r: Option<nat>)
    requires from <= |names|
    ensures r.Some? ==> from <= r.value < |names| && names[r.value] == want
    ensures forall k | from <= k < (if r.Some? then r.value else |names|) :: names[k] != want
    decreases |names| - from
  {
    if from == |names| then None
    else if names[from] == want then Some(from)
    else FindName(names, want, from + 1)
  }

  /** The new policy resolves names, both policies have them, and the node is one of the old policy's. */
  predicate ByName(old_: Policy, new_: Policy, cur: nat) {
    HasFlag(new_.im.flags, FLAG_MIGRATE_BY_NAME) && old_.names.Some? && new_.names.Some? && cur < |old_.names.value|
  }

  function Migrated(old_: Policy, new_: Policy, cur: nat): Landing {
    if !ByName(old_, new_, cur) then Landing(new_.safe, CAUSE_MIGRATION_RESET)
    else
      match FindName(new_.names.value, old_.names.value[cur], 0)
      case Some(node) => Landing(node, CAUSE_NONE)
      case None => Landing(new_.safe, CAUSE_MIGRATION_RESET)
  }

  method MigrateNode(old_: Policy, new_: Policy, cur: nat) returns (node: nat, cause: nat)
    ensures Landing(node, cause) == Migrated(old_, new_, cur)
  {
    if HasFlag(new_.im.flags, FLAG_MIGRATE_BY_NAME) && old_.names.Some? && new_.names.Some? && cur < |old_.names.value| {
      var want := old_.names.value[cur];
      for i := 0 to |new_.names.value|
        invariant FindName(new_.names.value, want, i) == FindName(new_.names.value, want, 0)
      {
        if new_.names.value[i] == want { return i, CAUSE_NONE; }
      }
    }
    node, cause := new_.safe, CAUSE_MIGRATION_RESET;
  }

  /** Cause 66 is reported exactly when no name lookup supplied the node, and then the fail-safe did. */
  lemma CauseIsExact(old_: Policy, new_: Policy, cur: nat)
    ensures var l := Migrated(old_, new_, cur);
            && (l.cause == CAUSE_MIGRATION_RESET <==> !(ByName(old_, new_, cur) && old_.names.value[cur] in new_.names.value))
            && (l.cause == CAUSE_MIGRATION_RESET || l.cause == CAUSE_NONE)
            && (l.cause == CAUSE_MIGRATION_RESET ==> l.node == new_.safe)
            && (l.cause == CAUSE_NONE ==> l.node < |new_.names.value| && new_.names.value[l.node] == old_.names.value[cur])
  {
  }

  predicate NamesFit(p: Policy) {
    p.safe < |p.im.nodes| && (p.names.Some? ==> |p.names.value| == |p.im.nodes|)
  }

  lemma LandsOnANode(old_: Policy, new_: Policy, cur: nat)
    requires NamesFit(new_)
    ensures Migrated(old_, new_, cur).node < |new_.im.nodes|
  {
  }

  /** Where the name exists in B, going through B lands where going straight to C lands, with the same cause. */
  lemma MigrationComposes(a: Policy, b: Policy, c: Policy, cur: nat)
    requires ByName(a, b, cur) && a.names.value[cur] in b.names.value
    ensures Migrated(b, c, Migrated(a, b, cur).node) == Migrated(a, c, cur)
  {
  }

  /**
   There and back. Where the name exists in B, A to B to A returns to the node exactly when no earlier node of A
   has its hash; so with distinct hashes it always does.
   */
  lemma ThereAndBack(a: Policy, b: Policy, cur: nat)
    requires ByName(a, b, cur) && a.names.value[cur] in b.names.value && HasFlag(a.im.flags, FLAG_MIGRATE_BY_NAME)
    ensures Migrated(b, a, Migrated(a, b, cur).node) == Landing(cur, CAUSE_NONE) <==>
            forall k | 0 <= k < cur :: a.names.value[k] != a.names.value[cur]
  {
    MigrationComposes(a, b, a, cur);
  }

  // ----- The declaration, from the flow to the kernel -----

  /**
   A declared fail-safe and strategy reach the kernel through the flags word; but node zero reads as undeclared there,
   so the kernel parks on the declared node exactly when that is not node zero, or is the only node.
   */
  lemma DeclaredFailSafe(names: seq<string>, safe: string, byName: bool, hash: nat, decide: (Selector.Event, nat) -> Match)
    requires safe in names && |names| <= MAX_NODES
    ensures var flags := FlowCompiler.FlagsOf(names, FlowCompiler.Resident(Some(safe), Some(byName)));
            var at := FlowCompiler.Index(names)[safe];
            && flags.Success? && flags.value < 0x1_0000 && flags.value / 0x100 == at
            && HasFlag(flags.value, FLAG_MIGRATE_BY_NAME) == byName && !HasFlag(flags.value, FLAG_NODE_NAMES)
            && (Selector.FailSafe(Selector.Policy.Policy(|names|, flags.value / 0x100, hash, decide)) == at
                <==> at != 0 || |names| == 1)
  {
    FlagBits(FlowCompiler.Index(names)[safe], if byName then 2 else 0);
  }

  lemma FlagBits(at: nat, strategy: nat)
    requires at < 0x100 && (strategy == 0 || strategy == 2)
    ensures var flags := at % 0x100 * 0x100 + 8 + strategy;
            flags < 0x1_0000 && flags / 0x100 == at && flags / 2 % 2 == strategy / 2 && flags / 4 % 2 == 0
  {
    var flags := at % 0x100 * 0x100 + 8 + strategy;
    assert flags == 0x100 * at + 8 + strategy;
    assert flags / 2 == 0x80 * at + 4 + strategy / 2 && flags / 4 == 0x40 * at + 2;
  }

  // ----- The trail: traffic and swaps, one after the other -----

  /** A policy as deployed: the parsed table with its fail-safe and names, the maps that hold it, its hash. */
  datatype Pack = Pack(policy: Policy, bank: Bank, hash: nat)

  predicate Sound(p: Pack) {
    NamesFit(p.policy) && Selector.Deployed(p.policy.im, p.bank, p.policy.safe)
  }

  function Kernel(p: Pack): Selector.Policy {
    Selector.KernelPolicy(p.policy.im, p.bank, p.policy.safe, p.hash)
  }

  /** A leaf of the sealed trail; a swap marks itself by its event. */
  datatype Leaf = Leaf(seqNo: nat, hash: nat, prev: nat, event: int, next: nat, cause: nat)

  /** What happened, in order: `kept` is whether it left its leaf, which a commit does if the ring buffer had room. */
  datatype Item = Item(leaf: Leaf, swap: bool, kept: bool)

  datatype Trail = Trail(pack: Pack, cell: Selector.Cell, items: seq<Item>)

  /** Traffic on any number of CPUs until they are idle again, or a swap. */
  datatype Act = Traffic(cpus: nat, actions: seq<Selector.Action>) | Swap(to: Pack)

  function Leaves(items: seq<Item>): seq<Leaf> {
    if items == [] then []
    else if items[0].kept then [items[0].leaf] + Leaves(items[1..])
    else Leaves(items[1..])
  }

  /** The node the swap takes for resident: the loader reads an unset cell as the declared fail-safe, zero if none. */
  function SwapSource(p: Pack, c: Selector.Cell): nat {
    if c.inited then c.curNode else p.policy.safe
  }

  function MigrationLeaf(t: Trail, to: Pack): Leaf {
    var cur := SwapSource(t.pack, t.cell);
    var l := Migrated(t.pack.policy, to.policy, cur);
    Leaf(t.cell.gen, to.hash, cur, EVENT_MIGRATION, l.node, l.cause)
  }

  function Swapped(t: Trail, to: Pack): Trail {
    var leaf := MigrationLeaf(t, to);
    Trail(to, Selector.Cell(leaf.next, true, t.cell.gen), t.items + [Item(leaf, true, true)])
  }

  function DataLeaf(hash: nat, e: Selector.Entry): Leaf {
    Leaf(e.seqNo, hash, e.prev, Selector.EventValue(e.event), e.next, CAUSE_NONE)
  }

  /** Every commit of the traffic, kept where its receipt was emitted. */
  function ItemsOf(hash: nat, log: seq<Selector.Entry>, emitted: seq<nat>): (items: seq<Item>)
    ensures |items| == |log|
  {
    seq(|log|, k requires 0 <= k < |log| => Item(DataLeaf(hash, log[k]), false, k in emitted))
  }

  function Gate(t: Trail, cpus: nat): Selector.State {
    Selector.State(t.cell, seq(cpus, _ => Selector.Idle), [], [], [])
  }

  /** The traffic ends with every CPU idle, before the generation goes round; a swap brings a policy that is in order. */
  predicate Possible(t: Trail, a: Act) {
    match a
    case Traffic(cpus, actions) =>
      && Selector.Runs(Kernel(t.pack), Gate(t, cpus), actions)
      && var u := Selector.After(Kernel(t.pack), Gate(t, cpus), actions);
         t.cell.gen + |u.log| < Selector.GEN && forall i | 0 <= i < |u.cpus| :: u.cpus[i].Idle?
    case Swap(to) => Sound(to)
  }

  function Step(t: Trail, a: Act): Trail
    requires Possible(t, a)
  {
    match a
    case Traffic(cpus, actions) =>
      var u := Selector.After(Kernel(t.pack), Gate(t, cpus), actions);
      t.(cell := u.cell, items := t.items + ItemsOf(t.pack.hash, u.log, u.emitted))
    case Swap(to) => Swapped(t, to)
  }

  predicate Happens(t: Trail, acts: seq<Act>)
    decreases |acts|
  {
    acts == [] || (Possible(t, acts[0]) && Happens(Step(t, acts[0]), acts[1..]))
  }

  function Run(t: Trail, acts: seq<Act>): Trail
    requires Happens(t, acts)
    decreases |acts|
  {
    if acts == [] then t else Run(Step(t, acts[0]), acts[1..])
  }

  // ----- What happened is one chain -----

  /** Each item starts where the one before it ended; a commit takes the next sequence number, a swap the current one. */
  predicate Recorded(items: seq<Item>, node: nat, gen: nat, end: nat, endGen: nat) {
    if items == [] then node == end && gen == endGen
    else
      var l := items[0].leaf;
      && l.prev == node && l.seqNo == gen + (if items[0].swap then 0 else 1)
      && (items[0].swap ==> items[0].kept && l.event == EVENT_MIGRATION)
      && Recorded(items[1..], l.next, l.seqNo, end, endGen)
  }

  predicate Holds(t: Trail, start: nat, startGen: nat) {
    && Sound(t.pack) && t.cell.gen < Selector.GEN
    && Recorded(t.items, start, startGen, Selector.Resident(Kernel(t.pack), t.cell), t.cell.gen)
    && Selector.Resident(Kernel(t.pack), t.cell) < |t.pack.policy.im.nodes|
  }

  /** The cell is set, or the policy declares its fail-safe: the loader and the kernel read the same resident node. */
  predicate Settled(t: Trail) {
    t.cell.inited || t.pack.policy.safe != 0 || |t.pack.policy.im.nodes| == 1
  }

  /** They part exactly where no fail-safe is declared: the kernel takes the last node, the loader node zero. */
  lemma SourceIsResident(t: Trail)
    requires Sound(t.pack)
    ensures SwapSource(t.pack, t.cell) == Selector.Resident(Kernel(t.pack), t.cell) <==> Settled(t)
  {
  }

  lemma {:induction false} RecordedAppends(a: seq<Item>, b: seq<Item>, node: nat, gen: nat, mid: nat, midGen: nat, end: nat, endGen: nat)
    requires Recorded(a, node, gen, mid, midGen) && Recorded(b, mid, midGen, end, endGen)
    ensures Recorded(a + b, node, gen, end, endGen)
  {
    if a == [] {
      assert a + b == b;
    } else {
      assert (a + b)[0] == a[0] && (a + b)[1..] == a[1..] + b;
      RecordedAppends(a[1..], b, a[0].leaf.next, a[0].leaf.seqNo, mid, midGen, end, endGen);
    }
  }

  /** The commits of traffic that does not take the generation round, their sequence numbers as they are. */
  predicate Successive(start: nat, base: nat, log: seq<Selector.Entry>) {
    forall k | 0 <= k < |log| :: log[k].seqNo == base + k + 1 && log[k].prev == Selector.ResidentAfter(start, log, k)
  }

  lemma ChainedIsSuccessive(p: Selector.Policy, start: nat, base: nat, log: seq<Selector.Entry>)
    requires Selector.Chained(p, start, base, log) && base + |log| < Selector.GEN
    ensures Successive(start, base, log)
  {
    forall k | 0 <= k < |log|
      ensures log[k].seqNo == base + k + 1 && log[k].prev == Selector.ResidentAfter(start, log, k)
    {
      assert Selector.Linked(p, start, base, log, k);
      Unwrapped(base + k + 1);
    }
  }

  lemma Unwrapped(n: nat)
    requires n < Selector.GEN
    ensures n % Selector.GEN == n
  {
  }

  lemma {:induction false} LogIsRecorded(hash: nat, start: nat, base: nat, log: seq<Selector.Entry>, emitted: seq<nat>, k: nat)
    requires Successive(start, base, log) && k <= |log|
    ensures Recorded(ItemsOf(hash, log, emitted)[k..], Selector.ResidentAfter(start, log, k), base + k,
                     Selector.ResidentAfter(start, log, |log|), base + |log|)
    decreases |log| - k
  {
    if k < |log| {
      LogIsRecorded(hash, start, base, log, emitted, k + 1);
      var items := ItemsOf(hash, log, emitted);
      assert items[k..][0] == items[k] && items[k..][1..] == items[k + 1..];
    }
  }

  lemma {:induction false} StaysInited(p: Selector.Policy, s: Selector.State, actions: seq<Selector.Action>)
    requires Selector.Runs(p, s, actions) && s.cell.inited
    ensures Selector.After(p, s, actions).cell.inited
    decreases |actions|
  {
    if actions != [] { StaysInited(p, Selector.Next(p, s, actions[0]), actions[1..]); }
  }

  lemma TrafficKeeps(t: Trail, start: nat, startGen: nat, cpus: nat, actions: seq<Selector.Action>)
    requires Holds(t, start, startGen) && Possible(t, Traffic(cpus, actions))
    ensures Holds(Step(t, Traffic(cpus, actions)), start, startGen)
    ensures Settled(t) ==> Settled(Step(t, Traffic(cpus, actions)))
  {
    var p := Kernel(t.pack);
    var u := Selector.After(p, Gate(t, cpus), actions);
    Selector.KernelPolicyIsSane(t.pack.policy.im, t.pack.bank, t.pack.policy.safe, t.pack.hash);
    TrafficIsRecorded(p, Gate(t, cpus), actions);
    if t.cell.inited { StaysInited(p, Gate(t, cpus), actions); }
    RecordedAppends(t.items, ItemsOf(p.hash, u.log, u.emitted), start, startGen, Selector.Resident(p, t.cell), t.cell.gen,
                    Selector.Resident(p, u.cell), u.cell.gen);
  }

  lemma TrafficIsRecorded(p: Selector.Policy, s: Selector.State, actions: seq<Selector.Action>)
    requires Selector.Sane(p) && Selector.Fresh(p, s) && Selector.Runs(p, s, actions)
    requires s.cell.gen + |Selector.After(p, s, actions).log| < Selector.GEN
    ensures var u := Selector.After(p, s, actions);
            && u.cell.gen < Selector.GEN && Selector.Resident(p, u.cell) < p.nNodes
            && Recorded(ItemsOf(p.hash, u.log, u.emitted), Selector.Resident(p, s.cell), s.cell.gen,
                        Selector.Resident(p, u.cell), u.cell.gen)
  {
    var u := Selector.After(p, s, actions);
    Selector.SelectorIsSafe(p, s, actions);
    ChainedIsSuccessive(p, Selector.Resident(p, s.cell), s.cell.gen, u.log);
    Unwrapped(s.cell.gen + |u.log|);
    LogIsRecorded(p.hash, Selector.Resident(p, s.cell), s.cell.gen, u.log, u.emitted, 0);
    assert ItemsOf(p.hash, u.log, u.emitted)[0..] == ItemsOf(p.hash, u.log, u.emitted);
  }

  lemma SwapKeeps(t: Trail, start: nat, startGen: nat, to: Pack)
    requires Holds(t, start, startGen) && Settled(t) && Sound(to)
    ensures Holds(Swapped(t, to), start, startGen) && Settled(Swapped(t, to)) && Swapped(t, to).cell.gen == t.cell.gen
    ensures Leaves(Swapped(t, to).items) == Leaves(t.items) + [MigrationLeaf(t, to)] && MigrationLeaf(t, to).seqNo == t.cell.gen
  {
    var item := Item(MigrationLeaf(t, to), true, true);
    SourceIsResident(t);
    LandsOnANode(t.pack.policy, to.policy, SwapSource(t.pack, t.cell));
    assert Recorded([item][1..], item.leaf.next, t.cell.gen, item.leaf.next, t.cell.gen);
    RecordedAppends(t.items, [item], start, startGen, SwapSource(t.pack, t.cell), t.cell.gen, item.leaf.next, t.cell.gen);
    LeavesAppend(t.items, [item]);
    assert Leaves([item][1..]) == [] && Leaves([item]) == [item.leaf];
  }

  lemma {:induction false} LeavesAppend(a: seq<Item>, b: seq<Item>)
    ensures Leaves(a + b) == Leaves(a) + Leaves(b)
  {
    if a == [] {
      assert a + b == b;
    } else {
      assert (a + b)[0] == a[0] && (a + b)[1..] == a[1..] + b;
      LeavesAppend(a[1..], b);
    }
  }

  // ----- What the leaves show of it -----

  /** The chain a reader of the trail can check, knowing where it begins and ends; swaps are told by their event. */
  predicate Chain(leaves: seq<Leaf>, node: nat, gen: nat, end: nat, endGen: nat) {
    if leaves == [] then node == end && gen == endGen
    else
      && leaves[0].prev == node && leaves[0].seqNo == gen + (if leaves[0].event == EVENT_MIGRATION then 0 else 1)
      && Chain(leaves[1..], leaves[0].next, leaves[0].seqNo, end, endGen)
  }

  /** Every commit left its receipt, and none reads as a swap. */
  predicate Complete(items: seq<Item>) {
    items == [] || (items[0].kept && (!items[0].swap ==> items[0].leaf.event != EVENT_MIGRATION) && Complete(items[1..]))
  }

  function Commits(items: seq<Item>): nat {
    if items == [] then 0 else (if items[0].swap then 0 else 1) + Commits(items[1..])
  }

  function DataLeaves(leaves: seq<Leaf>): nat {
    if leaves == [] then 0 else (if leaves[0].event == EVENT_MIGRATION then 0 else 1) + DataLeaves(leaves[1..])
  }

  lemma {:induction false} RecordedCounts(items: seq<Item>, node: nat, gen: nat, end: nat, endGen: nat)
    requires Recorded(items, node, gen, end, endGen)
    ensures endGen == gen + Commits(items)
  {
    if items != [] { RecordedCounts(items[1..], items[0].leaf.next, items[0].leaf.seqNo, end, endGen); }
  }

  lemma {:induction false} ChainCounts(leaves: seq<Leaf>, node: nat, gen: nat, end: nat, endGen: nat)
    requires Chain(leaves, node, gen, end, endGen)
    ensures endGen == gen + DataLeaves(leaves)
  {
    if leaves != [] { ChainCounts(leaves[1..], leaves[0].next, leaves[0].seqNo, end, endGen); }
  }

  lemma {:induction false} LeavesCount(items: seq<Item>, node: nat, gen: nat, end: nat, endGen: nat)
    requires Recorded(items, node, gen, end, endGen)
    ensures DataLeaves(Leaves(items)) <= Commits(items)
    ensures DataLeaves(Leaves(items)) == Commits(items) ==> Complete(items)
  {
    if items != [] {
      LeavesCount(items[1..], items[0].leaf.next, items[0].leaf.seqNo, end, endGen);
      if items[0].kept { LeafAhead(items); }
    }
  }

  lemma LeafAhead(items: seq<Item>)
    requires items != [] && items[0].kept
    ensures Leaves(items) != [] && Leaves(items)[0] == items[0].leaf && Leaves(items)[1..] == Leaves(items[1..])
  {
  }

  lemma {:induction false} CompleteChains(items: seq<Item>, node: nat, gen: nat, end: nat, endGen: nat)
    requires Recorded(items, node, gen, end, endGen) && Complete(items)
    ensures Chain(Leaves(items), node, gen, end, endGen)
  {
    if items != [] {
      LeafAhead(items);
      CompleteChains(items[1..], items[0].leaf.next, items[0].leaf.seqNo, end, endGen);
    }
  }

  /** The leaves form the chain exactly when no receipt was lost and no commit's value passes for a swap. */
  lemma ChainShowsLoss(items: seq<Item>, node: nat, gen: nat, end: nat, endGen: nat)
    requires Recorded(items, node, gen, end, endGen)
    ensures Chain(Leaves(items), node, gen, end, endGen) <==> Complete(items)
  {
    if Complete(items) {
      CompleteChains(items, node, gen, end, endGen);
    } else {
      LeavesCount(items, node, gen, end, endGen);
      RecordedCounts(items, node, gen, end, endGen);
      if Chain(Leaves(items), node, gen, end, endGen) { ChainCounts(Leaves(items), node, gen, end, endGen); }
    }
  }

  lemma {:induction false} RunHolds(t: Trail, start: nat, startGen: nat, acts: seq<Act>)
    requires Holds(t, start, startGen) && Settled(t) && Happens(t, acts)
    ensures Holds(Run(t, acts), start, startGen) && Settled(Run(t, acts))
    decreases |acts|
  {
    if acts != [] {
      match acts[0] {
        case Traffic(cpus, actions) => TrafficKeeps(t, start, startGen, cpus, actions);
        case Swap(to) => SwapKeeps(t, start, startGen, to);
      }
      RunHolds(Step(t, acts[0]), start, startGen, acts[1..]);
    }
  }

  /**
   The trail across swaps. Over any run mixing traffic, interleaved on any number of CPUs, with quiesced swaps: what
   happened is one chain from the first resident node and generation to the present ones; the resident node is a node
   of whichever policy is loaded; and the receipts that got out form that chain exactly when none was lost to a full
   ring buffer and none passes for a swap. Otherwise the sequence numbers show the gap.
   */
  lemma TrailIsOneChain(t: Trail, start: nat, startGen: nat, acts: seq<Act>)
    requires Holds(t, start, startGen) && Settled(t) && Happens(t, acts)
    ensures Holds(Run(t, acts), start, startGen) && Settled(Run(t, acts))
    ensures var u := Run(t, acts);
            Chain(Leaves(u.items), start, startGen, Selector.Resident(Kernel(u.pack), u.cell), u.cell.gen) <==> Complete(u.items)
  {
    RunHolds(t, start, startGen, acts);
    var u := Run(t, acts);
    ChainShowsLoss(u.items, start, startGen, Selector.Resident(Kernel(u.pack), u.cell), u.cell.gen);
  }

  /** The swap primitive, with no packet in flight: migrate, swap the table, write the cell back under its lock. */
  method SelectorHotswap(cell: Selector.SharedCell, from: Pack, to: Pack) returns (node: nat, receipt: Leaf)
    modifies cell
    ensures var t := Swapped(Trail(from, old(cell.Value()), []), to);
            cell.Value() == t.cell && [Item(receipt, true, true)] == t.items && node == cell.curNode
  {
    var cur := if cell.inited then cell.curNode else from.policy.safe;
    var cause: nat;
    node, cause := MigrateNode(from.policy, to.policy, cur);
    receipt := Leaf(cell.gen, to.hash, cur, EVENT_MIGRATION, node, cause);
    cell.curNode, cell.inited := node, true;
  }
}
