/**
 The resident selector under concurrency (prismpath-ebpf/ppt_select.bpf.c): any number of CPUs snapshot, decide and
 commit against one shared cell guarded by a generation counter, with bounded retry. Safety of every interleaving.
 */
module Selector {
  import opened Wrappers
  import opened Table
  import opened Admission
  import opened KernelEval

  const SEL_MAX_RETRY: nat := 4
  const GEN: nat := 0x1_0000_0000

  datatype Event = Event(regs: RegFile, nFields: nat)

  function EventValue(e: Event): int {
    if e.nFields > 0 then e.regs[0].val else 0
  }

  /**
   The loaded policy, constant while packets are in flight: how many nodes, the declared fail-safe (0: none), the
   image's hash, and the decision the evaluator makes at a node on an event.
   */
  datatype Policy = Policy(nNodes: nat, safe: nat, hash: nat, decide: (Event, nat) -> Match)

  /** Decisions name nodes, and so does the fail-safe. */
  ghost predicate Sane(p: Policy) {
    0 < p.nNodes && p.safe < p.nNodes && forall e, n: nat | n < p.nNodes && p.decide(e, n).Match? :: p.decide(e, n).target < p.nNodes
  }

  /** The most restrictive node: the declared one, else the last. */
  function FailSafe(p: Policy): nat {
    if p.safe != 0 then p.safe else if p.nNodes > 0 then p.nNodes - 1 else 0
  }

  datatype Receipt = Receipt(seqNo: nat, policyHash: nat, prev: nat, event: int, next: nat)

  /** The shared cell. */
  datatype Cell = Cell(curNode: nat, inited: bool, gen: nat)

  /**
   Where one CPU stands in one packet. `since` and `taken` count commits, for the record: when the packet arrived,
   and when the snapshot was taken.
   */
  datatype Cpu =
    | Idle
    | Ready(event: Event, attempt: nat, since: nat)
    | Snapped(event: Event, attempt: nat, since: nat, cur: nat, gen: nat, taken: nat)
    | Judged(event: Event, attempt: nat, since: nat, cur: nat, gen: nat, taken: nat, target: nat)
    | Emitting(index: nat)

  /** A commit: what it followed, from where, to where. */
  datatype Entry = Entry(seqNo: nat, prev: nat, event: Event, next: nat)

  /** `log` is every commit in order; `emitted` the log positions of the receipts in the ring buffer. */
  datatype State = State(cell: Cell, cpus: seq<Cpu>, log: seq<Entry>, receipts: seq<Receipt>, emitted: seq<nat>)

  datatype Action =
    | Arrive(cpu: nat, event: Event)
    | Snapshot(cpu: nat)
    | Judge(cpu: nat)
    | Commit(cpu: nat)
    | Emit(cpu: nat, room: bool)

  function Resident(p: Policy, c: Cell): nat {
    if c.inited then c.curNode else FailSafe(p)
  }

  function ReceiptOf(p: Policy, e: Entry): Receipt {
    Receipt(e.seqNo, p.hash, e.prev, EventValue(e.event), e.next)
  }

  // ----- The steps -----

  /** Each step is one lock-protected block or one unlocked computation of the program. */
  predicate Enabled(s: State, a: Action) {
    && a.cpu < |s.cpus|
    && match a
       case Arrive(_, _) => s.cpus[a.cpu].Idle?
       case Snapshot(_) => s.cpus[a.cpu].Ready?
       case Judge(_) => s.cpus[a.cpu].Snapped?
       case Commit(_) => s.cpus[a.cpu].Judged?
       case Emit(_, _) => s.cpus[a.cpu].Emitting?
  }

  function Next(p: Policy, s: State, a: Action): State
    requires Enabled(s, a)
  {
    match a
    case Arrive(i, event) => s.(cpus := s.cpus[i := Ready(event, 0, |s.log|)])
    case Snapshot(i) =>
      var c := s.cpus[i];
      s.(cpus := s.cpus[i := Snapped(c.event, c.attempt, c.since, Resident(p, s.cell), s.cell.gen, |s.log|)])
    case Judge(i) =>
      var c := s.cpus[i];
      (match p.decide(c.event, c.cur)
       case NoMatch => s.(cpus := s.cpus[i := Idle])
       case Match(_, target) =>
         s.(cpus := s.cpus[i := Judged(c.event, c.attempt, c.since, c.cur, c.gen, c.taken, target)]))
    case Commit(i) =>
      var c := s.cpus[i];
      if s.cell.gen == c.gen then
        var gen := (c.gen + 1) % GEN;
        State(Cell(c.target, true, gen), s.cpus[i := Emitting(|s.log|)],
              s.log + [Entry(gen, c.cur, c.event, c.target)], s.receipts, s.emitted)
      else
        s.(cpus := s.cpus[i := if c.attempt + 1 < SEL_MAX_RETRY then Ready(c.event, c.attempt + 1, c.since) else Idle])
    case Emit(i, room) =>
      var k := s.cpus[i].index;
      var s' := s.(cpus := s.cpus[i := Idle]);
      if room && k < |s.log| then s'.(receipts := s.receipts + [ReceiptOf(p, s.log[k])], emitted := s.emitted + [k]) else s'
  }

  // ----- What every reachable state keeps -----

  /** The resident node after the first `n` commits. */
  function ResidentAfter(start: nat, log: seq<Entry>, n: nat): nat
    requires n <= |log|
  {
    if n == 0 then start else log[n - 1].next
  }

  /** The entry is the policy's decision at its node on its event. */
  predicate RealStep(p: Policy, e: Entry) {
    e.prev < p.nNodes && e.next < p.nNodes && p.decide(e.event, e.prev).Match? && p.decide(e.event, e.prev).target == e.next
  }

  /** Commit `k` has the sequence number `k + 1` past the first generation, starts where the one before it ended, and is a real step. */
  predicate Chained(p: Policy, start: nat, base: nat, log: seq<Entry>) {
    forall k: nat | k < |log| :: Linked(p, start, base, log, k)
  }

  predicate Linked(p: Policy, start: nat, base: nat, log: seq<Entry>, k: nat)
    requires k < |log|
  {
    log[k].seqNo == (base + k + 1) % GEN && log[k].prev == ResidentAfter(start, log, k) && RealStep(p, log[k])
  }

  /** A snapshot is the cell as it was after `taken` commits. */
  predicate SnapshotHolds(start: nat, base: nat, log: seq<Entry>, cur: nat, gen: nat, taken: nat) {
    taken <= |log| && gen == (base + taken) % GEN && cur == ResidentAfter(start, log, taken)
  }

  predicate CpuHolds(p: Policy, start: nat, base: nat, s: State, c: Cpu)
  {
    match c
    case Idle => true
    case Ready(_, attempt, since) => attempt < SEL_MAX_RETRY && since + attempt <= |s.log|
    case Snapped(_, attempt, since, cur, gen, taken) =>
      attempt < SEL_MAX_RETRY && since + attempt <= taken && SnapshotHolds(start, base, s.log, cur, gen, taken)
      && cur < p.nNodes
    case Judged(event, attempt, since, cur, gen, taken, target) =>
      attempt < SEL_MAX_RETRY && since + attempt <= taken && SnapshotHolds(start, base, s.log, cur, gen, taken)
      && RealStep(p, Entry(0, cur, event, target))
    case Emitting(index) => index < |s.log| && index !in s.emitted
  }

  predicate CellHolds(p: Policy, start: nat, base: nat, s: State)
  {
    && s.cell.gen == (base + |s.log|) % GEN && Resident(p, s.cell) == ResidentAfter(start, s.log, |s.log|)
    && Resident(p, s.cell) < p.nNodes && start < p.nNodes
  }

  predicate Distinct(s: seq<nat>) {
    forall i, j | 0 <= i < j < |s| :: s[i] != s[j]
  }

  /** The receipt tells the commit: its number, the policy it followed, from where to where, and the first field of its event. */
  predicate Tells(p: Policy, r: Receipt, e: Entry) {
    && r.seqNo == e.seqNo && r.policyHash == p.hash && r.prev == e.prev && r.next == e.next
    && r.event == if e.event.nFields > 0 then e.event.regs[0].val else 0
  }

  predicate ReceiptsHold(p: Policy, s: State) {
    && |s.receipts| == |s.emitted| && Distinct(s.emitted)
    && (forall i | 0 <= i < |s.emitted| :: s.emitted[i] < |s.log| && Tells(p, s.receipts[i], s.log[s.emitted[i]]))
  }

  /** No two CPUs are about to emit the same commit. */
  predicate EmittersDiffer(cpus: seq<Cpu>) {
    forall i, j | 0 <= i < j < |cpus| && cpus[i].Emitting? && cpus[j].Emitting? :: cpus[i].index != cpus[j].index
  }

  predicate CpusHold(p: Policy, start: nat, base: nat, s: State)
  {
    forall i | 0 <= i < |s.cpus| :: CpuHolds(p, start, base, s, s.cpus[i])
  }

  predicate Inv(p: Policy, start: nat, base: nat, s: State)
  {
    && CellHolds(p, start, base, s) && Chained(p, start, base, s.log) && CpusHold(p, start, base, s)
    && ReceiptsHold(p, s) && EmittersDiffer(s.cpus)
  }

  /** The counter does not go round between a snapshot and its commit. */
  predicate NoWrap(s: State, a: Action)
    requires Enabled(s, a)
  {
    a.Commit? ==> |s.log| < s.cpus[a.cpu].taken + GEN
  }

  // ----- Each step keeps it -----

  lemma ChainGrows(p: Policy, start: nat, base: nat, log: seq<Entry>, e: Entry)
    requires Chained(p, start, base, log) && RealStep(p, e)
    requires e.seqNo == (base + |log| + 1) % GEN && e.prev == ResidentAfter(start, log, |log|)
    ensures Chained(p, start, base, log + [e])
  {
    var log' := log + [e];
    forall k: nat | k < |log'| ensures Linked(p, start, base, log', k) {
      if k < |log| { assert Linked(p, start, base, log, k) && log'[k] == log[k]; }
    }
  }

  lemma CpuSurvivesCommit(p: Policy, start: nat, base: nat, s: State, s': State, c: Cpu)
    requires CpuHolds(p, start, base, s, c) && s.log <= s'.log && s'.emitted == s.emitted
    ensures CpuHolds(p, start, base, s', c)
  {
  }

  lemma CommitIsCurrent(p: Policy, start: nat, base: nat, s: State, i: nat)
    requires Sane(p) && Inv(p, start, base, s) && Enabled(s, Commit(i)) && NoWrap(s, Commit(i)) && s.cell.gen == s.cpus[i].gen
    ensures s.cpus[i].cur == Resident(p, s.cell) && s.cpus[i].taken == |s.log|
    ensures RealStep(p, Entry(0, s.cpus[i].cur, s.cpus[i].event, s.cpus[i].target))
  {
    assert CpuHolds(p, start, base, s, s.cpus[i]);
    SnapshotIsCurrent(start, base, s.log, s.cpus[i].cur, s.cpus[i].gen, s.cpus[i].taken);
  }

  lemma SnapshotIsCurrent(start: nat, base: nat, log: seq<Entry>, cur: nat, gen: nat, taken: nat)
    requires SnapshotHolds(start, base, log, cur, gen, taken) && gen == (base + |log|) % GEN && |log| < taken + GEN
    ensures taken == |log| && cur == ResidentAfter(start, log, |log|)
  {
    SameGeneration(base, taken, |log|);
  }

  lemma CommitKeeps(p: Policy, start: nat, base: nat, s: State, i: nat)
    requires Sane(p) && Inv(p, start, base, s) && Enabled(s, Commit(i)) && NoWrap(s, Commit(i)) && s.cell.gen == s.cpus[i].gen
    ensures Inv(p, start, base, Next(p, s, Commit(i)))
  {
    var s' := Next(p, s, Commit(i));
    CommitIsCurrent(p, start, base, s, i);
    NextGeneration(base + |s.log|);
    ChainGrows(p, start, base, s.log, s'.log[|s.log|]);
    forall j | 0 <= j < |s'.cpus| ensures CpuHolds(p, start, base, s', s'.cpus[j]) {
      if j != i {
        assert CpuHolds(p, start, base, s, s.cpus[j]);
        CpuSurvivesCommit(p, start, base, s, s', s.cpus[j]);
      }
    }
    NewEmitterDiffers(p, start, base, s, i);
  }

  lemma NewEmitterDiffers(p: Policy, start: nat, base: nat, s: State, i: nat)
    requires CpusHold(p, start, base, s) && EmittersDiffer(s.cpus) && i < |s.cpus|
    ensures EmittersDiffer(s.cpus[i := Emitting(|s.log|)])
  {
    forall j | 0 <= j < |s.cpus| && s.cpus[j].Emitting? ensures s.cpus[j].index < |s.log| {
      assert CpuHolds(p, start, base, s, s.cpus[j]);
    }
  }

  lemma NextGeneration(n: nat)
    ensures (n % GEN + 1) % GEN == (n + 1) % GEN
  {
  }

  /** Equal generations, less than one turn of the counter apart, are the same commit count. */
  lemma SameGeneration(base: nat, taken: nat, now: nat)
    requires taken <= now < taken + GEN && (base + taken) % GEN == (base + now) % GEN
    ensures taken == now
  {
  }

  lemma LaterGeneration(base: nat, taken: nat, now: nat)
    requires taken <= now && (base + taken) % GEN != (base + now) % GEN
    ensures taken < now
  {
  }

  lemma LostMeansStale(p: Policy, start: nat, base: nat, s: State, i: nat)
    requires Inv(p, start, base, s) && Enabled(s, Commit(i)) && s.cell.gen != s.cpus[i].gen
    ensures s.cpus[i].since + s.cpus[i].attempt <= s.cpus[i].taken < |s.log| && s.cpus[i].attempt < SEL_MAX_RETRY
  {
    assert CpuHolds(p, start, base, s, s.cpus[i]);
    LaterGeneration(base, s.cpus[i].taken, |s.log|);
  }

  lemma LostCommitKeeps(p: Policy, start: nat, base: nat, s: State, i: nat)
    requires Inv(p, start, base, s) && Enabled(s, Commit(i)) && s.cell.gen != s.cpus[i].gen
    ensures Inv(p, start, base, Next(p, s, Commit(i)))
  {
    LostMeansStale(p, start, base, s, i);
    CpuMoves(p, start, base, s, i, Next(p, s, Commit(i)).cpus[i]);
  }

  lemma EmitKeeps(p: Policy, start: nat, base: nat, s: State, i: nat, room: bool)
    requires Sane(p) && Inv(p, start, base, s) && Enabled(s, Emit(i, room))
    ensures Inv(p, start, base, Next(p, s, Emit(i, room)))
  {
    assert CpusHold(p, start, base, Next(p, s, Emit(i, room))) && EmittersDiffer(Next(p, s, Emit(i, room)).cpus) by {
      EmitSparesCpus(p, start, base, s, i, room);
    }
    assert ReceiptsHold(p, Next(p, s, Emit(i, room))) by { EmitIsNew(p, start, base, s, i, room); }
    var s' := Next(p, s, Emit(i, room));
    assert s'.log == s.log && s'.cell == s.cell;
  }

  lemma EmitIsNew(p: Policy, start: nat, base: nat, s: State, i: nat, room: bool)
    requires CpusHold(p, start, base, s) && ReceiptsHold(p, s) && Enabled(s, Emit(i, room))
    ensures ReceiptsHold(p, Next(p, s, Emit(i, room)))
  {
    assert CpuHolds(p, start, base, s, s.cpus[i]);
  }

  lemma EmitSparesCpus(p: Policy, start: nat, base: nat, s: State, i: nat, room: bool)
    requires CpusHold(p, start, base, s) && EmittersDiffer(s.cpus) && Enabled(s, Emit(i, room))
    ensures CpusHold(p, start, base, Next(p, s, Emit(i, room))) && EmittersDiffer(Next(p, s, Emit(i, room)).cpus)
  {
    var s' := Next(p, s, Emit(i, room));
    assert CpuHolds(p, start, base, s, s.cpus[i]);
    forall j | 0 <= j < |s'.cpus| ensures CpuHolds(p, start, base, s', s'.cpus[j]) {
      if j != i { assert CpuHolds(p, start, base, s, s.cpus[j]); }
    }
  }

  lemma LocalKeeps(p: Policy, start: nat, base: nat, s: State, a: Action)
    requires Sane(p) && Inv(p, start, base, s) && Enabled(s, a) && (a.Arrive? || a.Snapshot? || a.Judge?)
    ensures Inv(p, start, base, Next(p, s, a))
  {
    LocalHolds(p, start, base, s, a);
    CpuMoves(p, start, base, s, a.cpu, Next(p, s, a).cpus[a.cpu]);
  }

  /** What one CPU does without touching the cell leaves it in order. */
  lemma LocalHolds(p: Policy, start: nat, base: nat, s: State, a: Action)
    requires Sane(p) && Inv(p, start, base, s) && Enabled(s, a) && (a.Arrive? || a.Snapshot? || a.Judge?)
    ensures Next(p, s, a) == s.(cpus := s.cpus[a.cpu := Next(p, s, a).cpus[a.cpu]])
    ensures CpuHolds(p, start, base, s, Next(p, s, a).cpus[a.cpu]) && !Next(p, s, a).cpus[a.cpu].Emitting?
  {
    assert CpuHolds(p, start, base, s, s.cpus[a.cpu]);
  }

  /** One CPU moves; nothing else does. */
  lemma CpuMoves(p: Policy, start: nat, base: nat, s: State, i: nat, c: Cpu)
    requires Inv(p, start, base, s) && i < |s.cpus| && CpuHolds(p, start, base, s, c) && !c.Emitting?
    ensures Inv(p, start, base, s.(cpus := s.cpus[i := c]))
  {
    var s' := s.(cpus := s.cpus[i := c]);
    forall j | 0 <= j < |s'.cpus| ensures CpuHolds(p, start, base, s', s'.cpus[j]) {
      assert CpuHolds(p, start, base, s, s'.cpus[j]);
    }
  }

  lemma StepKeeps(p: Policy, start: nat, base: nat, s: State, a: Action)
    requires Sane(p) && Inv(p, start, base, s) && Enabled(s, a) && NoWrap(s, a)
    ensures Inv(p, start, base, Next(p, s, a))
  {
    match a
    case Commit(i) =>
      if s.cell.gen == s.cpus[i].gen { CommitKeeps(p, start, base, s, i); } else { LostCommitKeeps(p, start, base, s, i); }
    case Emit(i, room) => EmitKeeps(p, start, base, s, i, room);
    case _ => LocalKeeps(p, start, base, s, a);
  }

  // ----- Over whole runs -----

  predicate Runs(p: Policy, s: State, actions: seq<Action>)
    decreases |actions|
  {
    actions == [] || (Enabled(s, actions[0]) && NoWrap(s, actions[0]) && Runs(p, Next(p, s, actions[0]), actions[1..]))
  }

  function After(p: Policy, s: State, actions: seq<Action>): State
    requires Runs(p, s, actions)
    decreases |actions|
  {
    if actions == [] then s else After(p, Next(p, s, actions[0]), actions[1..])
  }

  /** The loader's cell, as loaded or as the last swap left it, and every CPU idle. */
  predicate Fresh(p: Policy, s: State)
  {
    && s.cell.gen < GEN && (s.cell.inited ==> s.cell.curNode < p.nNodes)
    && s.log == [] && s.receipts == [] && s.emitted == []
    && forall i | 0 <= i < |s.cpus| :: s.cpus[i].Idle?
  }

  lemma {:induction false} RunKeeps(p: Policy, start: nat, base: nat, s: State, actions: seq<Action>)
    requires Sane(p) && Inv(p, start, base, s) && Runs(p, s, actions)
    ensures Inv(p, start, base, After(p, s, actions))
    decreases |actions|
  {
    if actions != [] {
      StepKeeps(p, start, base, s, actions[0]);
      RunKeeps(p, start, base, Next(p, s, actions[0]), actions[1..]);
    }
  }

  /** Where a run starts: where the last one ended, or at the declared fail-safe, or at the last node. */
  function FirstNode(p: Policy, c: Cell): nat
    requires p.nNodes > 0
  {
    match (c.inited, p.safe)
    case (true, _) => c.curNode
    case (false, 0) => p.nNodes - 1
    case (false, safe) => safe
  }

  /**
   Selector safety. After any interleaving of any number of CPUs: the generation counts the commits on; the
   commits chain, each along the first matching edge of the node resident when it happened; every receipt is one
   commit's, and no commit has two.
   */
  lemma SelectorIsSafe(p: Policy, s: State, actions: seq<Action>)
    requires Sane(p) && Fresh(p, s) && Runs(p, s, actions)
    ensures var t := After(p, s, actions);
            && t.cell.gen == (s.cell.gen + |t.log|) % GEN
            && Chained(p, Resident(p, s.cell), s.cell.gen, t.log)
            && Resident(p, t.cell) == ResidentAfter(Resident(p, s.cell), t.log, |t.log|) < p.nNodes
            && ReceiptsHold(p, t)
            && (|t.log| < GEN ==> forall i, j | 0 <= i < j < |t.receipts| :: t.receipts[i].seqNo != t.receipts[j].seqNo)
            && (t.log != [] ==> t.log[0].prev == FirstNode(p, s.cell))
  {
    FreshHolds(p, s);
    RunKeeps(p, Resident(p, s.cell), s.cell.gen, s, actions);
    var t := After(p, s, actions);
    if t.log != [] { assert Linked(p, Resident(p, s.cell), s.cell.gen, t.log, 0); }
    if |t.log| < GEN { ReceiptsDiffer(p, Resident(p, s.cell), s.cell.gen, t); }
  }

  lemma FreshHolds(p: Policy, s: State)
    requires Sane(p) && Fresh(p, s)
    ensures Inv(p, Resident(p, s.cell), s.cell.gen, s)
  {
  }

  lemma ReceiptsDiffer(p: Policy, start: nat, base: nat, t: State)
    requires Chained(p, start, base, t.log) && ReceiptsHold(p, t) && |t.log| < GEN
    ensures forall i, j | 0 <= i < j < |t.receipts| :: t.receipts[i].seqNo != t.receipts[j].seqNo
  {
    forall i, j | 0 <= i < j < |t.receipts| ensures t.receipts[i].seqNo != t.receipts[j].seqNo {
      var a, b := t.emitted[i], t.emitted[j];
      assert Linked(p, start, base, t.log, a) && Linked(p, start, base, t.log, b);
      DifferentCommits(base, a, b);
    }
  }

  lemma DifferentCommits(base: nat, a: nat, b: nat)
    requires a != b && a < GEN && b < GEN
    ensures (base + a + 1) % GEN != (base + b + 1) % GEN
  {
  }

  /**
   Progress: a commit is refused only because another CPU committed since the snapshot, so an event is dropped
   only after at least `SEL_MAX_RETRY` other commits since it arrived.
   */
  lemma RefusalIsProgress(p: Policy, start: nat, base: nat, s: State, i: nat)
    requires Sane(p) && Inv(p, start, base, s) && Enabled(s, Commit(i)) && NoWrap(s, Commit(i))
    ensures s.cell.gen != s.cpus[i].gen <==> s.cpus[i].taken < |s.log|
    ensures Next(p, s, Commit(i)).cpus[i].Idle? ==> s.cpus[i].since + SEL_MAX_RETRY <= |s.log|
  {
    if s.cell.gen == s.cpus[i].gen { CommitIsCurrent(p, start, base, s, i); } else { LostMeansStale(p, start, base, s, i); }
  }

  // ----- The policy the kernel evaluates -----

  function KernelPolicy(im: Image, bank: Bank, safe: nat, hash: nat): Policy {
    Policy.Policy(|im.nodes|, safe, hash,
                  (e: Event, n: nat) => if Full(bank) then KEvaluate(bank, e.regs, e.nFields, n) else NoMatch)
  }

  /** Every target and the declared fail-safe are nodes of an admitted table that the maps hold. */
  predicate Deployed(im: Image, bank: Bank, safe: nat) {
    Loaded(bank, im) && WithinLimits(im) && safe < |im.nodes| && TargetsInRange(im)
  }

  predicate TargetsInRange(im: Image) {
    forall i | 0 <= i < |im.edges| :: im.edges[i].target < |im.nodes|
  }

  /** The policy's decision is the reference interpreter's: the first edge of the node that fires. */
  lemma KernelPolicyDecides(im: Image, bank: Bank, safe: nat, hash: nat, e: Event, n: nat)
    requires Deployed(im, bank, safe) && n < |im.nodes|
    ensures EdgesInRange(im, im.nodes[n])
    ensures KernelPolicy(im, bank, safe, hash).decide(e, n) == Decide(im, n, Visible(e.regs, e.nFields), STACK_MAX)
  {
    ClampingIsLossless(bank, im, e.regs, e.nFields, n, STACK_MAX);
  }

  lemma KernelPolicyIsSane(im: Image, bank: Bank, safe: nat, hash: nat)
    requires Deployed(im, bank, safe)
    ensures Sane(KernelPolicy(im, bank, safe, hash))
  {
    var p := KernelPolicy(im, bank, safe, hash);
    forall e, n: nat | n < p.nNodes && p.decide(e, n).Match? ensures p.decide(e, n).target < p.nNodes {
      KernelPolicyDecides(im, bank, safe, hash, e, n);
      TargetIsNode(im, n, Visible(e.regs, e.nFields));
    }
  }

  /** The commit follows the first firing edge of the node then resident, as the reference interpreter finds it. */
  predicate RealCommit(im: Image, e: Entry) {
    && e.prev < |im.nodes| && EdgesInRange(im, im.nodes[e.prev])
    && var m := Decide(im, e.prev, Visible(e.event.regs, e.event.nFields), STACK_MAX);
       m.Match? && m.target == e.next
  }

  lemma StepIsReal(im: Image, bank: Bank, safe: nat, hash: nat, e: Entry)
    requires Deployed(im, bank, safe) && RealStep(KernelPolicy(im, bank, safe, hash), e)
    ensures RealCommit(im, e)
  {
    KernelPolicyDecides(im, bank, safe, hash, e.event, e.prev);
  }

  /**
   The same of the program as deployed: on an admitted table held by the maps, over all interleavings, every commit is
   the reference interpreter's decision at the node the commit before it left resident.
   */
  lemma KernelSelectorIsSafe(im: Image, bank: Bank, safe: nat, hash: nat, p: Policy, s: State, actions: seq<Action>)
    requires Deployed(im, bank, safe) && p == KernelPolicy(im, bank, safe, hash)
    requires Fresh(p, s) && Runs(p, s, actions)
    ensures var t := After(p, s, actions);
            && t.cell.gen == (s.cell.gen + |t.log|) % GEN && ReceiptsHold(p, t)
            && Chained(p, Resident(p, s.cell), s.cell.gen, t.log) && CommitsAreReal(im, t.log)
            && Resident(p, t.cell) == ResidentAfter(Resident(p, s.cell), t.log, |t.log|)
  {
    KernelPolicyIsSane(im, bank, safe, hash);
    SelectorIsSafe(p, s, actions);
    AllReal(im, bank, safe, hash, Resident(p, s.cell), s.cell.gen, After(p, s, actions).log);
  }

  predicate CommitsAreReal(im: Image, log: seq<Entry>) {
    forall k | 0 <= k < |log| :: RealCommit(im, log[k])
  }

  lemma AllReal(im: Image, bank: Bank, safe: nat, hash: nat, start: nat, base: nat, log: seq<Entry>)
    requires Deployed(im, bank, safe) && Chained(KernelPolicy(im, bank, safe, hash), start, base, log)
    ensures CommitsAreReal(im, log)
  {
    forall k: nat | k < |log| ensures RealCommit(im, log[k]) {
      assert Linked(KernelPolicy(im, bank, safe, hash), start, base, log, k);
      StepIsReal(im, bank, safe, hash, log[k]);
    }
  }

  lemma TargetIsNode(im: Image, n: nat, regs: seq<Reg>)
    requires n < |im.nodes| && EdgesInRange(im, im.nodes[n]) && TargetsInRange(im)
    ensures Decide(im, n, regs, STACK_MAX).Match? ==> Decide(im, n, regs, STACK_MAX).target < |im.nodes|
  {
  }

  // ----- The shared cell and its two critical sections -----

  class SharedCell {
    var curNode: nat
    var inited: bool
    var gen: nat

    ghost function Value(): Cell
      reads this
    {
      Cell(curNode, inited, gen)
    }

    constructor (start: nat)
      ensures Value() == Cell(start, true, 0)
    {
      curNode, inited, gen := start, true, 0;
    }

    method Snapshot(p: Policy) returns (cur: nat, snapGen: nat)
      ensures cur == Resident(p, Value()) && snapGen == gen
    {
      cur := if inited then curNode else FailSafe(p);
      snapGen := gen;
    }

    /** What `Next` does to the cell on `Commit`. */
    method TryCommit(target: nat, snapGen: nat) returns (committed: bool, newSeq: nat)
      modifies this
      ensures committed == (old(gen) == snapGen)
      ensures Value() == if committed then Cell(target, true, (snapGen + 1) % GEN) else old(Value())
      ensures newSeq == if committed then gen else 0
    {
      committed := gen == snapGen;
      newSeq := 0;
      if committed {
        curNode, inited, gen := target, true, (snapGen + 1) % GEN;
        newSeq := gen;
      }
    }

    /**
     One packet with no other CPU in between, as single-queue steering gives: the first attempt decides, and a
     decision with a target is never dropped.
     */
    method Handle(p: Policy, e: Event) returns (receipt: Option<Receipt>)
      modifies this
      ensures var cur := Resident(p, old(Value()));
              match p.decide(e, cur)
              case NoMatch => receipt == None && Value() == old(Value())
              case Match(_, target) =>
                var seqNo := (old(gen) + 1) % GEN;
                && Value() == Cell(target, true, seqNo)
                && receipt == Some(Receipt(seqNo, p.hash, cur, EventValue(e), target))
    {
      receipt := None;
      for attempt := 0 to SEL_MAX_RETRY
        invariant Value() == old(Value()) && receipt == None
        invariant attempt > 0 ==> p.decide(e, Resident(p, Value())).NoMatch?
      {
        var cur, snapGen := Snapshot(p);
        var decision := p.decide(e, cur);
        if decision.NoMatch? { return None; }
        var committed, newSeq := TryCommit(decision.target, snapGen);
        if committed { return Some(Receipt(newSeq, p.hash, cur, EventValue(e), decision.target)); }
      }
    }
  }
}
