/**
 What each leaf of the trail says (prismpath-ebpf/ppt_maps.c, selector_hotswap; prismpath-ebpf/ppt_select.bpf.c): which
 policy was in force, and at a swap where the resident node went and why.
 */
module TrailPolicies {
  import opened Wrappers
  import Admission
  import Selector
  import opened Migration

  // ----- Every leaf names the policy in force -----

  /** Read in order, a swap puts the policy it names in force, and every commit names the one in force. */
  predicate InForce(items: seq<Item>, hash: nat, end: nat) {
    if items == [] then hash == end
    else
      && (!items[0].swap ==> items[0].leaf.hash == hash)
      && InForce(items[1..], if items[0].swap then items[0].leaf.hash else hash, end)
  }

  lemma {:induction false} InForceAppends(a: seq<Item>, b: seq<Item>, hash: nat, mid: nat, end: nat)
    requires InForce(a, hash, mid) && InForce(b, mid, end)
    ensures InForce(a + b, hash, end)
  {
    if a == [] {
      assert a + b == b;
    } else {
      assert (a + b)[0] == a[0] && (a + b)[1..] == a[1..] + b;
      InForceAppends(a[1..], b, if a[0].swap then a[0].leaf.hash else hash, mid, end);
    }
  }

  lemma {:induction false} CommitsInForce(hash: nat, items: seq<Item>)
    requires forall i | 0 <= i < |items| :: !items[i].swap && items[i].leaf.hash == hash
    ensures InForce(items, hash, hash)
  {
    if items != [] { CommitsInForce(hash, items[1..]); }
  }

  /** Over any run of traffic and swaps. */
  lemma {:induction false} LeavesNameThePolicy(t: Trail, hash: nat, acts: seq<Act>)
    requires InForce(t.items, hash, t.pack.hash) && Happens(t, acts)
    ensures InForce(Run(t, acts).items, hash, Run(t, acts).pack.hash)
    decreases |acts|
  {
    if acts != [] {
      StepNamesThePolicy(t, hash, acts[0]);
      LeavesNameThePolicy(Step(t, acts[0]), hash, acts[1..]);
    }
  }

  lemma StepNamesThePolicy(t: Trail, hash: nat, a: Act)
    requires InForce(t.items, hash, t.pack.hash) && Possible(t, a)
    ensures InForce(Step(t, a).items, hash, Step(t, a).pack.hash)
  {
    match a
    case Traffic(cpus, actions) =>
      var u := Selector.After(Kernel(t.pack), Gate(t, cpus), actions);
      CommitsInForce(t.pack.hash, ItemsOf(t.pack.hash, u.log, u.emitted));
      InForceAppends(t.items, ItemsOf(t.pack.hash, u.log, u.emitted), hash, t.pack.hash, t.pack.hash);
    case Swap(to) =>
      var item := Item(MigrationLeaf(t, to), true, true);
      assert InForce([item][1..], to.hash, to.hash);
      InForceAppends(t.items, [item], hash, t.pack.hash, to.hash);
  }

  // ----- A swap says where the node went -----

  predicate NamedIn(p: Admission.Policy, node: nat, name: int) {
    p.names.Some? && node < |p.names.value| && p.names.value[node] == name
  }

  /** The new policy asks for names, the old one names the node, and the new one has a node of that name. */
  ghost predicate CarriesOver(from: Admission.Policy, to: Admission.Policy, node: nat) {
    && to.im.flags / 2 % 2 == 1 && from.names.Some? && node < |from.names.value|
    && exists n: nat :: NamedIn(to, n, from.names.value[node])
  }

  /**
   The cell a swap leaves and the leaf it writes: from the node resident before, under the new policy's hash, to the
   first node of the same name if there is one and with no cause, else to the new policy's fail-safe with cause 66.
   The generation stays.
   */
  lemma SwapTells(t: Trail, to: Pack)
    requires Sound(t.pack) && Settled(t)
    ensures var u := Swapped(t, to); var leaf := MigrationLeaf(t, to);
            var cur := Selector.Resident(Kernel(t.pack), t.cell); var from := t.pack.policy;
            && u.pack == to && u.cell == Selector.Cell(leaf.next, true, t.cell.gen)
            && u.items == t.items + [Item(leaf, true, true)]
            && leaf.seqNo == t.cell.gen && leaf.hash == to.hash && leaf.prev == cur && leaf.event == -0x8000_0000
            && (if CarriesOver(from, to.policy, cur)
                then && leaf.cause == 0 && NamedIn(to.policy, leaf.next, from.names.value[cur])
                     && forall n: nat | n < leaf.next :: !NamedIn(to.policy, n, from.names.value[cur])
                else leaf.cause == 66 && leaf.next == to.policy.safe)
  {
    var cur := SwapSource(t.pack, t.cell);
    SourceIsResident(t);
    CauseIsExact(t.pack.policy, to.policy, cur);
    if ByName(t.pack.policy, to.policy, cur) {
      var names, want := to.policy.names.value, t.pack.policy.names.value[cur];
      if n: nat :| NamedIn(to.policy, n, want) { assert names[n] in names; }
      if want in names {
        var n :| 0 <= n < |names| && names[n] == want;
        assert NamedIn(to.policy, n, want);
      }
    }
  }

  // ----- A kept commit says what its receipt says -----

  /** The leaf a kept commit leaves is the receipt the kernel emitted for it, word for word. */
  lemma KeptLeafIsReceipt(p: Selector.Policy, s: Selector.State, i: nat)
    requires Selector.ReceiptsHold(p, s) && i < |s.receipts|
    ensures s.emitted[i] < |s.log|
    ensures var item := ItemsOf(p.hash, s.log, s.emitted)[s.emitted[i]]; var r := s.receipts[i];
            item.kept && !item.swap && item.leaf == Leaf(r.seqNo, r.policyHash, r.prev, r.event, r.next, CAUSE_NONE)
  {
    assert s.emitted[i] in s.emitted;
  }
}
