/**
 The live policy swap (prismpath-ebpf/loader.c, write_bank and net_update; prismpath-ebpf/ppt_net.bpf.c): one row
 write, one selector store or one packet lookup at a time, in any order, with any number of packets.
 */
module BankSwap {
  import opened Wrappers
  import opened Table
  import opened ImageCodec
  import opened Admission
  import opened KernelEval
  import opened Lookups

  const NET_FIELDS: nat := 8

  /** The part of a bank's config row that decides: where to start, and which decisions drop the packet. */
  datatype Config = Config(start: nat, dropMask: set<nat>)

  datatype Side = Side(rows: Bank, config: Config)

  /** What the loader has in hand: an admitted image, the bank it writes, how many rows are written. */
  datatype Loader = Quiet | Writing(im: Image, target: nat, done: nat) | Written(im: Image, target: nat)

  datatype Stage = Waiting | Chosen | Evaluating(cursor: Cursor) | Out(verdict: Match, dropped: bool, upTo: nat)

  /**
   A packet in flight. `seen` and `im` are, for the record, the side and the live policy when it read the selector,
   `since` the number of updates begun by then, `quiet` whether none was under way, and `dirty` whether its bank was
   written to since.
   */
  datatype Packet =
    Packet(regs: RegFile, stage: Stage, bank: nat, seen: Side, im: Image, since: nat, quiet: bool, dirty: bool)

  /** `live` is the policy of the active bank, `updates` how many updates have begun; both are for the record. */
  datatype State = State(sides: seq<Side>, selector: nat, loader: Loader, packets: seq<Packet>, live: Image, updates: nat)

  datatype Action =
    | Begin(im: Image)
    | WriteRow(ok: bool)
    | WriteConfig(ok: bool)
    | Flip(ok: bool)
    | Arrive(regs: RegFile)
    | Select(i: nat)
    | ReadConfig(i: nat)
    | Look(i: nat)
    | Rule(i: nat)

  // ----- Rows -----

  function RowCount(im: Image): nat {
    |im.atoms| + |im.nodes| + |im.edges| + |im.prog|
  }

  predicate Fit(im: Image) {
    WithinCapacity(Declared(im)) && WithinLimits(im) && im.start < |im.nodes|
  }

  /** Row `k` of the image, in the order the loader writes them. */
  function Put(b: Bank, im: Image, k: nat): (b': Bank)
    requires Full(b) && WithinCapacity(Declared(im)) && k < RowCount(im)
    ensures Full(b')
  {
    var n := k - |im.atoms|;
    var e := n - |im.nodes|;
    var w := e - |im.edges|;
    if k < |im.atoms| then b.(atoms := b.atoms[k := im.atoms[k]])
    else if n < |im.nodes| then b.(nodes := b.nodes[n := im.nodes[n]])
    else if e < |im.edges| then b.(edges := b.edges[e := im.edges[e]])
    else b.(prog := b.prog[w := im.prog[w]])
  }

  predicate Holding<T(==)>(rows: seq<T>, want: seq<T>, before: int, k: nat) {
    |want| <= |rows| && forall i | 0 <= i < |want| && before + i < k :: rows[i] == want[i]
  }

  /** The first `k` rows of the image are in the bank. */
  predicate PartlyLoaded(b: Bank, im: Image, k: nat) {
    && Full(b) && WithinCapacity(Declared(im))
    && Holding(b.atoms, im.atoms, 0, k) && Holding(b.nodes, im.nodes, |im.atoms|, k)
    && Holding(b.edges, im.edges, |im.atoms| + |im.nodes|, k)
    && Holding(b.prog, im.prog, |im.atoms| + |im.nodes| + |im.edges|, k)
  }

  lemma PutLoadsOneMore(b: Bank, im: Image, k: nat)
    requires PartlyLoaded(b, im, k) && k < RowCount(im)
    ensures PartlyLoaded(Put(b, im, k), im, k + 1)
  {
  }

  lemma AllRowsLoad(b: Bank, im: Image)
    requires PartlyLoaded(b, im, RowCount(im))
    ensures Loaded(b, im)
  {
  }

  // ----- Steps -----

  predicate InFlight(p: Packet) {
    p.stage.Chosen? || p.stage.Evaluating?
  }

  /** The packets, after a write to `bank`. */
  function Marked(packets: seq<Packet>, bank: nat): (marked: seq<Packet>)
    ensures |marked| == |packets|
    ensures forall i | 0 <= i < |packets| ::
              marked[i] == if InFlight(packets[i]) && packets[i].bank == bank then packets[i].(dirty := true) else packets[i]
  {
    seq(|packets|, i requires 0 <= i < |packets| =>
      if InFlight(packets[i]) && packets[i].bank == bank then packets[i].(dirty := true) else packets[i])
  }

  predicate Drops(config: Config, verdict: Match) {
    verdict.Match? && verdict.target < 64 && verdict.target in config.dropMask
  }

  predicate Enabled(s: State, a: Action) {
    match a
    case Begin(im) => s.loader.Quiet? && Fit(im)
    case WriteRow(_) => s.loader.Writing? && s.loader.done < RowCount(s.loader.im)
    case WriteConfig(_) => s.loader.Writing? && s.loader.done == RowCount(s.loader.im)
    case Flip(_) => s.loader.Written?
    case Arrive(_) => true
    case Select(i) => i < |s.packets| && s.packets[i].stage.Waiting?
    case ReadConfig(i) => i < |s.packets| && s.packets[i].stage.Chosen?
    case Look(i) => i < |s.packets| && s.packets[i].stage.Evaluating? && !s.packets[i].stage.cursor.Finished?
    case Rule(i) => i < |s.packets| && s.packets[i].stage.Evaluating? && s.packets[i].stage.cursor.Finished?
  }

  predicate Shaped(s: State) {
    && |s.sides| == 2 && s.selector < 2 && Full(s.sides[0].rows) && Full(s.sides[1].rows)
    && (s.loader.Writing? ==> s.loader.target < 2 && WithinCapacity(Declared(s.loader.im)))
    && (s.loader.Written? ==> s.loader.target < 2)
    && forall i | 0 <= i < |s.packets| && InFlight(s.packets[i]) ::
         s.packets[i].bank < 2 && (s.packets[i].stage.Evaluating? ==> Proper(s.packets[i].stage.cursor))
  }

  /** A failed write ends the update where it is; the flip is the only store the packets' next choice depends on. */
  function Next(s: State, a: Action): State
    requires Shaped(s) && Enabled(s, a)
  {
    match a
    case Begin(im) => s.(loader := Writing(im, 1 - s.selector, 0), updates := s.updates + 1)
    case WriteRow(ok) =>
      if !ok then s.(loader := Quiet)
      else
        var l := s.loader;
        var side := s.sides[l.target];
        s.(sides := s.sides[l.target := side.(rows := Put(side.rows, l.im, l.done))],
           packets := Marked(s.packets, l.target), loader := l.(done := l.done + 1))
    case WriteConfig(ok) =>
      if !ok then s.(loader := Quiet)
      else
        var l := s.loader;
        var config := Config(l.im.start, s.sides[1 - l.target].config.dropMask);
        s.(sides := s.sides[l.target := s.sides[l.target].(config := config)],
           packets := Marked(s.packets, l.target), loader := Written(l.im, l.target))
    case Flip(ok) =>
      if ok then s.(selector := s.loader.target, live := s.loader.im, loader := Quiet) else s.(loader := Quiet)
    case Arrive(regs) => s.(packets := s.packets + [Packet(regs, Waiting, 0, s.sides[0], s.live, 0, false, false)])
    case Select(i) =>
      var p := Packet(s.packets[i].regs, Chosen, s.selector, s.sides[s.selector], s.live, s.updates, s.loader.Quiet?, false);
      s.(packets := s.packets[i := p])
    case ReadConfig(i) =>
      var p := s.packets[i];
      s.(packets := s.packets[i := p.(stage := Evaluating(AtNode(s.sides[p.bank].config.start)))])
    case Look(i) =>
      var p := s.packets[i];
      s.(packets := s.packets[i := p.(stage := Evaluating(Lookup(s.sides[p.bank].rows, p.regs, NET_FIELDS, p.stage.cursor)))])
    case Rule(i) =>
      var p := s.packets[i];
      var verdict := p.stage.cursor.result;
      s.(packets := s.packets[i := p.(stage := Out(verdict, Drops(s.sides[p.bank].config, verdict), s.updates))])
  }

  // ----- What every reachable state keeps -----

  /** A side that holds a whole policy and the drop mask. */
  predicate Whole(side: Side, im: Image, mask: set<nat>) {
    Loaded(side.rows, im) && Fit(im) && side.config == Config(im.start, mask)
  }

  /** What a clean packet will decide: one whole policy's evaluation, and that policy's drop rule. */
  function Fate(p: Packet): Match
    requires Full(p.seen.rows)
  {
    KEvaluate(p.seen.rows, p.regs, NET_FIELDS, p.seen.config.start)
  }

  /**
   The number of updates that can have begun before one can be writing the packet's bank: those begun when it read the
   selector and, if none was under way then, one more, which writes the other bank.
   */
  function Spare(p: Packet): nat {
    p.since + if p.quiet then 1 else 0
  }

  predicate PacketHolds(sides: seq<Side>, mask: set<nat>, updates: nat, p: Packet)
    requires |sides| == 2
  {
    p.stage.Waiting? ||
    (&& p.bank < 2 && Whole(p.seen, p.im, mask) && p.since <= updates && (p.dirty ==> Spare(p) < updates)
     && match p.stage
        case Chosen => p.dirty || sides[p.bank] == p.seen
        case Evaluating(cursor) =>
          Proper(cursor) &&
          (p.dirty || (sides[p.bank] == p.seen && Resume(p.seen.rows, p.regs, NET_FIELDS, cursor) == Fate(p)))
        case Out(verdict, dropped, upTo) =>
          && upTo <= updates && (p.dirty ==> Spare(p) < upTo)
          && (p.dirty || (verdict == Fate(p) && dropped == Drops(p.seen.config, verdict))))
  }

  /** The bank being written is not one a packet chose, unless more updates than it can spare began after it chose. */
  predicate Apart(loader: Loader, selector: nat, updates: nat, p: Packet) {
    InFlight(p) ==>
      && (p.quiet && !loader.Quiet? ==> p.since < updates)
      && (p.bank != selector ==> Spare(p) <= updates)
      && (!loader.Quiet? && loader.target == p.bank ==> Spare(p) < updates)
  }

  predicate LoaderHolds(s: State, mask: set<nat>)
    requires |s.sides| == 2
  {
    match s.loader
    case Quiet => true
    case Writing(im, target, done) =>
      target == 1 - s.selector && Fit(im) && done <= RowCount(im) && PartlyLoaded(s.sides[target].rows, im, done)
    case Written(im, target) => target == 1 - s.selector && Whole(s.sides[target], im, mask)
  }

  predicate PacketsHold(s: State, mask: set<nat>)
    requires |s.sides| == 2
  {
    forall i | 0 <= i < |s.packets| ::
      PacketHolds(s.sides, mask, s.updates, s.packets[i]) && Apart(s.loader, s.selector, s.updates, s.packets[i])
  }

  /** The active bank is always complete, and always enforces the same drop mask. */
  predicate Inv(s: State, mask: set<nat>) {
    Shaped(s) && Whole(s.sides[s.selector], s.live, mask) && LoaderHolds(s, mask) && PacketsHold(s, mask)
  }

  // ----- Each step keeps it -----

  lemma WriteSparesPacket(s: State, mask: set<nat>, target: nat, side: Side, p: Packet)
    requires |s.sides| == 2 && target < 2 && PacketHolds(s.sides, mask, s.updates, p) && Apart(s.loader, s.selector, s.updates, p)
    requires (s.loader.Writing? || s.loader.Written?) && s.loader.target == target
    ensures var p' := if InFlight(p) && p.bank == target then p.(dirty := true) else p;
            PacketHolds(s.sides[target := side], mask, s.updates, p')
  {
  }

  lemma WritesSparePackets(s: State, mask: set<nat>, s': State)
    requires Inv(s, mask) && s.loader.Writing? && |s'.sides| == 2 && s'.updates == s.updates && s'.selector == s.selector
    requires s'.sides == s.sides[s.loader.target := s'.sides[s.loader.target]]
    requires s'.packets == Marked(s.packets, s.loader.target)
    requires (s'.loader.Writing? || s'.loader.Written?) && s'.loader.target == s.loader.target
    ensures PacketsHold(s', mask)
  {
    var target := s.loader.target;
    forall i | 0 <= i < |s'.packets|
      ensures PacketHolds(s'.sides, mask, s'.updates, s'.packets[i]) && Apart(s'.loader, s'.selector, s'.updates, s'.packets[i])
    {
      WriteSparesPacket(s, mask, target, s'.sides[target], s.packets[i]);
    }
  }

  lemma RowKeeps(s: State, mask: set<nat>, ok: bool)
    requires Inv(s, mask) && Enabled(s, WriteRow(ok))
    ensures Inv(Next(s, WriteRow(ok)), mask)
  {
    var s' := Next(s, WriteRow(ok));
    if ok {
      PutLoadsOneMore(s.sides[s.loader.target].rows, s.loader.im, s.loader.done);
      WritesSparePackets(s, mask, s');
    }
  }

  lemma ConfigKeeps(s: State, mask: set<nat>, ok: bool)
    requires Inv(s, mask) && Enabled(s, WriteConfig(ok))
    ensures Inv(Next(s, WriteConfig(ok)), mask)
  {
    var s' := Next(s, WriteConfig(ok));
    if ok {
      AllRowsLoad(s.sides[s.loader.target].rows, s.loader.im);
      WritesSparePackets(s, mask, s');
    }
  }

  lemma FlipKeeps(s: State, mask: set<nat>, ok: bool)
    requires Inv(s, mask) && Enabled(s, Flip(ok))
    ensures Inv(Next(s, Flip(ok)), mask)
  {
  }

  lemma BeginKeeps(s: State, mask: set<nat>, im: Image)
    requires Inv(s, mask) && Enabled(s, Begin(im))
    ensures Inv(Next(s, Begin(im)), mask)
  {
  }

  /** One packet moves; nothing else does. */
  lemma PacketMoves(s: State, mask: set<nat>, i: nat, p: Packet)
    requires Inv(s, mask) && i < |s.packets|
    requires PacketHolds(s.sides, mask, s.updates, p) && Apart(s.loader, s.selector, s.updates, p)
    ensures Inv(s.(packets := s.packets[i := p]), mask)
  {
  }

  lemma PacketKeeps(s: State, mask: set<nat>, a: Action)
    requires Inv(s, mask) && Enabled(s, a) && (a.Select? || a.ReadConfig? || a.Look? || a.Rule?)
    ensures Inv(Next(s, a), mask)
  {
    var p, s' := s.packets[a.i], Next(s, a);
    assert PacketHolds(s.sides, mask, s.updates, p) && Apart(s.loader, s.selector, s.updates, p);
    if a.Look? && !p.dirty { LookupKeepsOutcome(p.seen.rows, p.regs, NET_FIELDS, p.stage.cursor); }
    PacketMoves(s, mask, a.i, s'.packets[a.i]);
  }

  lemma StepKeeps(s: State, mask: set<nat>, a: Action)
    requires Inv(s, mask) && Enabled(s, a)
    ensures Inv(Next(s, a), mask)
  {
    match a
    case Begin(im) => BeginKeeps(s, mask, im);
    case WriteRow(ok) => RowKeeps(s, mask, ok);
    case WriteConfig(ok) => ConfigKeeps(s, mask, ok);
    case Flip(ok) => FlipKeeps(s, mask, ok);
    case Arrive(regs) =>
    case _ => PacketKeeps(s, mask, a);
  }

  // ----- Over whole runs -----

  predicate Runs(s: State, actions: seq<Action>)
    decreases |actions|
  {
    actions == [] || (Shaped(s) && Enabled(s, actions[0]) && Runs(Next(s, actions[0]), actions[1..]))
  }

  function After(s: State, actions: seq<Action>): State
    requires Runs(s, actions)
    decreases |actions|
  {
    if actions == [] then s else After(Next(s, actions[0]), actions[1..])
  }

  lemma {:induction false} RunKeeps(s: State, mask: set<nat>, actions: seq<Action>)
    requires Inv(s, mask) && Runs(s, actions)
    ensures Inv(After(s, actions), mask)
    decreases |actions|
  {
    if actions != [] {
      StepKeeps(s, mask, actions[0]);
      RunKeeps(Next(s, actions[0]), mask, actions[1..]);
    }
  }

  /** A whole policy loaded in one bank, anything in the other, and no packet yet. */
  predicate Attached(s: State, mask: set<nat>) {
    && |s.sides| == 2 && s.selector < 2 && Full(s.sides[0].rows) && Full(s.sides[1].rows)
    && Whole(s.sides[s.selector], s.live, mask) && s.loader.Quiet? && s.packets == []
  }

  /**
   Bank-swap atomicity. Whatever the interleaving: the active bank is a whole policy with the drop mask it always
   had; every packet whose own bank was not written to in its flight has decided as the reference interpreter decides
   on the one policy that was live when it read the selector, and was dropped exactly if its decision is a node below 64
   in that mask; and such is every packet that saw no more updates begin than it can spare.
   */
  lemma SwapIsAtomic(s: State, mask: set<nat>, actions: seq<Action>)
    requires Attached(s, mask) && Runs(s, actions)
    ensures var t := After(s, actions);
            && t.selector < |t.sides| && Whole(t.sides[t.selector], t.live, mask)
            && forall i | 0 <= i < |t.packets| && t.packets[i].stage.Out? ::
                 && (!t.packets[i].dirty ==> DecidedBy(t.packets[i], mask))
                 && (t.packets[i].stage.upTo <= Spare(t.packets[i]) ==> !t.packets[i].dirty)
  {
    RunKeeps(s, mask, actions);
    var t := After(s, actions);
    forall i | 0 <= i < |t.packets| && t.packets[i].stage.Out?
      ensures !t.packets[i].dirty ==> DecidedBy(t.packets[i], mask)
      ensures t.packets[i].stage.upTo <= Spare(t.packets[i]) ==> !t.packets[i].dirty
    {
      assert PacketHolds(t.sides, mask, t.updates, t.packets[i]);
      if !t.packets[i].dirty { FateIsDecision(t.packets[i], mask); }
    }
  }

  /** The packet's verdict is the reference decision of the policy that was live, and so is its fate. */
  predicate DecidedBy(p: Packet, mask: set<nat>)
    requires p.stage.Out?
  {
    && Fit(p.im) && EdgesInRange(p.im, p.im.nodes[p.im.start])
    && p.stage.verdict == Decide(p.im, p.im.start, Visible(p.regs, NET_FIELDS), INTERP_STACK)
    && (p.stage.dropped <==> p.stage.verdict.Match? && p.stage.verdict.target < 64 && p.stage.verdict.target in mask)
    && (mask == {} ==> !p.stage.dropped)
  }

  lemma FateIsDecision(p: Packet, mask: set<nat>)
    requires Whole(p.seen, p.im, mask)
    ensures EdgesInRange(p.im, p.im.nodes[p.im.start])
    ensures Fate(p) == Decide(p.im, p.im.start, Visible(p.regs, NET_FIELDS), INTERP_STACK)
  {
    ClampingIsLossless(p.seen.rows, p.im, p.regs, NET_FIELDS, p.im.start, INTERP_STACK);
  }
}
