/**
 Whole updates as runs of the live swap: what one does to the maps wherever it is refused, why a refused one is
 invisible to every packet, and how one update more than a packet can spare tears its verdict.
 */
module SwapRuns {
  import opened Wrappers
  import opened Table
  import opened ImageCodec
  import opened Admission
  import opened KernelEval
  import opened Lookups
  import opened BankSwap

  lemma {:induction false} RunsThen(s: State, first: seq<Action>, second: seq<Action>)
    requires Runs(s, first) && Runs(After(s, first), second)
    ensures Runs(s, first + second) && After(s, first + second) == After(After(s, first), second)
    decreases |first|
  {
    if first == [] {
      assert first + second == second;
    } else {
      assert (first + second)[0] == first[0] && (first + second)[1..] == first[1..] + second;
      RunsThen(Next(s, first[0]), first[1..], second);
    }
  }

  lemma RunsOne(s: State, a: Action)
    requires Shaped(s) && Enabled(s, a)
    ensures Runs(s, [a]) && After(s, [a]) == Next(s, a)
  {
    assert [a][1..] == [];
    assert Runs(Next(s, a), []);
  }

  // ----- The rows of one update -----

  /** The first `k` of the wanted rows laid over the front of a map. */
  function Over<T>(rows: seq<T>, want: seq<T>, k: int): (r: seq<T>)
    requires |want| <= |rows|
    ensures |r| == |rows|
  {
    if k <= 0 then rows else if k < |want| then want[..k] + rows[k..] else want + rows[|want|..]
  }

  /** The bank after the loader's first `k` row writes of the image. */
  function Overwritten(b: Bank, im: Image, k: nat): (b': Bank)
    requires Full(b) && WithinCapacity(Declared(im))
    ensures Full(b')
  {
    Bank(Over(b.atoms, im.atoms, k), Over(b.nodes, im.nodes, k - |im.atoms|),
         Over(b.edges, im.edges, k - |im.atoms| - |im.nodes|),
         Over(b.prog, im.prog, k - |im.atoms| - |im.nodes| - |im.edges|))
  }

  lemma OverStep<T>(rows: seq<T>, want: seq<T>, k: int)
    requires |want| <= |rows|
    ensures 0 <= k < |want| ==> Over(rows, want, k)[k := want[k]] == Over(rows, want, k + 1)
    ensures k < 0 || k >= |want| ==> Over(rows, want, k + 1) == Over(rows, want, k)
  {
  }

  lemma PutOverwrites(b: Bank, im: Image, k: nat)
    requires Full(b) && WithinCapacity(Declared(im)) && k < RowCount(im)
    ensures Put(Overwritten(b, im, k), im, k) == Overwritten(b, im, k + 1)
  {
    OverStep(b.atoms, im.atoms, k);
    OverStep(b.nodes, im.nodes, k - |im.atoms|);
    OverStep(b.edges, im.edges, k - |im.atoms| - |im.nodes|);
    OverStep(b.prog, im.prog, k - |im.atoms| - |im.nodes| - |im.edges|);
  }

  lemma WholeOver<T>(rows: seq<T>, want: seq<T>, k: int)
    requires |want| <= |rows| && k >= |want|
    ensures want <= Over(rows, want, k)
  {
  }

  lemma OverwrittenLoads(b: Bank, im: Image)
    requires Full(b) && WithinCapacity(Declared(im))
    ensures Loaded(Overwritten(b, im, RowCount(im)), im)
  {
    WholeOver(b.atoms, im.atoms, RowCount(im));
    WholeOver(b.nodes, im.nodes, RowCount(im) - |im.atoms|);
    WholeOver(b.edges, im.edges, RowCount(im) - |im.atoms| - |im.nodes|);
    WholeOver(b.prog, im.prog, RowCount(im) - |im.atoms| - |im.nodes| - |im.edges|);
  }

  function Oks(k: nat): seq<Action> {
    seq(k, _ => WriteRow(true))
  }

  /** A bank being written holds the rows of `before` under those written so far. */
  predicate Under(s: State, before: Bank) {
    && Shaped(s) && s.loader.Writing? && Full(before) && s.loader.done <= RowCount(s.loader.im)
    && s.sides[s.loader.target].rows == Overwritten(before, s.loader.im, s.loader.done)
  }

  function Further(s: State, before: Bank, k: nat): State
    requires Under(s, before)
  {
    var l := s.loader;
    s.(sides := s.sides[l.target := s.sides[l.target].(rows := Overwritten(before, l.im, l.done + k))],
       packets := if k == 0 then s.packets else Marked(s.packets, l.target), loader := l.(done := l.done + k))
  }

  lemma MarkedTwice(packets: seq<Packet>, bank: nat)
    ensures Marked(Marked(packets, bank), bank) == Marked(packets, bank)
  {
  }

  lemma RowWrites(s: State, before: Bank)
    requires Under(s, before) && s.loader.done < RowCount(s.loader.im)
    ensures Next(s, WriteRow(true)) == Further(s, before, 1) && Under(Further(s, before, 1), before)
  {
    PutOverwrites(before, s.loader.im, s.loader.done);
  }

  lemma {:induction false} RowsRun(s: State, before: Bank, k: nat)
    requires Under(s, before) && s.loader.done + k <= RowCount(s.loader.im)
    ensures Runs(s, Oks(k)) && After(s, Oks(k)) == Further(s, before, k) && Under(Further(s, before, k), before)
    decreases k
  {
    if k == 0 {
      assert s.sides[s.loader.target := s.sides[s.loader.target]] == s.sides;
    } else {
      RowWrites(s, before);
      var s' := Next(s, WriteRow(true));
      RowsRun(s', before, k - 1);
      FurtherStill(s, before, k);
      assert Oks(k)[0] == WriteRow(true) && Oks(k)[1..] == Oks(k - 1);
    }
  }

  lemma FurtherStill(s: State, before: Bank, k: nat)
    requires Under(s, before) && k > 0 && s.loader.done + k <= RowCount(s.loader.im) && Under(Further(s, before, 1), before)
    ensures Further(Further(s, before, 1), before, k - 1) == Further(s, before, k)
  {
    MarkedTwice(s.packets, s.loader.target);
  }

  // ----- One update, refused after `budget` writes or not at all -----

  function LastSteps(im: Image, budget: nat): seq<Action> {
    if budget < RowCount(im) then [WriteRow(false)]
    else if budget == RowCount(im) then [WriteConfig(false)]
    else [WriteConfig(true), Flip(budget > RowCount(im) + 1)]
  }

  function Granted(im: Image, budget: nat): nat {
    if budget < RowCount(im) then budget else RowCount(im)
  }

  function UpdateActions(im: Image, budget: nat): seq<Action> {
    [Begin(im)] + (Oks(Granted(im, budget)) + LastSteps(im, budget))
  }

  /** The maps and the selector when it is over: rows up to the refusal, the config and the flip if they were reached. */
  function Updated(s: State, target: nat, im: Image, budget: nat): State
    requires Shaped(s) && target < 2 && WithinCapacity(Declared(im))
  {
    var side := s.sides[target];
    var rows := Overwritten(side.rows, im, Granted(im, budget));
    var config := if budget > RowCount(im) then Config(im.start, s.sides[1 - target].config.dropMask) else side.config;
    var flips := budget > RowCount(im) + 1;
    s.(sides := s.sides[target := Side(rows, config)], packets := if budget == 0 then s.packets else Marked(s.packets, target),
       selector := if flips then target else s.selector, live := if flips then im else s.live, loader := Quiet)
  }

  lemma WritesRun(s: State, im: Image, budget: nat)
    requires Shaped(s) && s.loader.Writing? && s.loader.im == im && s.loader.done == 0
    ensures var acts := Oks(Granted(im, budget)) + LastSteps(im, budget);
            Runs(s, acts) && After(s, acts) == Updated(s, s.loader.target, im, budget)
  {
    var target := s.loader.target;
    var before := s.sides[target].rows;
    var k := Granted(im, budget);
    RowsRun(s, before, k);
    LastStepsRun(s, Further(s, before, k), im, budget);
    RunsThen(s, Oks(k), LastSteps(im, budget));
  }

  lemma LastStepsRun(s: State, t: State, im: Image, budget: nat)
    requires Shaped(s) && s.loader.Writing? && s.loader.im == im && s.loader.done == 0
    requires t == Further(s, s.sides[s.loader.target].rows, Granted(im, budget)) && Shaped(t)
    ensures Runs(t, LastSteps(im, budget)) && After(t, LastSteps(im, budget)) == Updated(s, s.loader.target, im, budget)
  {
    if budget <= RowCount(im) {
      RunsOne(t, LastSteps(im, budget)[0]);
      assert Side(t.sides[s.loader.target].rows, t.sides[s.loader.target].config) == t.sides[s.loader.target];
    } else {
      var u, flip := Next(t, WriteConfig(true)), Flip(budget > RowCount(im) + 1);
      MarkedTwice(s.packets, s.loader.target);
      RunsOne(t, WriteConfig(true));
      RunsOne(u, flip);
      RunsThen(t, [WriteConfig(true)], [flip]);
      assert [WriteConfig(true)] + [flip] == [WriteConfig(true), flip];
    }
  }

  /** An update from a quiet loader, refused wherever it may be, leaves exactly the maps and the selector said. */
  lemma UpdateRuns(s: State, im: Image, budget: nat)
    requires Shaped(s) && s.loader.Quiet? && Fit(im)
    ensures Runs(s, UpdateActions(im, budget))
    ensures After(s, UpdateActions(im, budget)) == Updated(s.(updates := s.updates + 1), 1 - s.selector, im, budget)
  {
    var t := Next(s, Begin(im));
    RunsOne(s, Begin(im));
    WritesRun(t, im, budget);
    RunsThen(s, [Begin(im)], Oks(Granted(im, budget)) + LastSteps(im, budget));
    UpdatedFromBegin(s.(updates := s.updates + 1), t.loader, 1 - s.selector, im, budget);
  }

  lemma UpdatedFromBegin(s: State, l: Loader, target: nat, im: Image, budget: nat)
    requires Shaped(s) && Shaped(s.(loader := l)) && target < 2 && WithinCapacity(Declared(im))
    ensures Updated(s.(loader := l), target, im, budget) == Updated(s, target, im, budget)
  {
  }

  // ----- A refused update is invisible -----

  predicate OfPacket(a: Action) {
    a.Arrive? || a.Select? || a.ReadConfig? || a.Look? || a.Rule?
  }

  /** The run without its loader. */
  function PacketActions(actions: seq<Action>): seq<Action> {
    if actions == [] then []
    else (if OfPacket(actions[0]) then [actions[0]] else []) + PacketActions(actions[1..])
  }

  /** No update of the run goes through. */
  predicate NoneFlips(actions: seq<Action>) {
    forall i | 0 <= i < |actions| :: actions[i] != Flip(true)
  }

  /** Two packets with nothing but their records of updates between them. */
  predicate SamePacket(p: Packet, q: Packet) {
    && p.regs == q.regs
    && match p.stage
       case Waiting => q.stage.Waiting?
       case Out(verdict, dropped, _) => q.stage.Out? && q.stage.verdict == verdict && q.stage.dropped == dropped && q.im == p.im
       case _ => q.stage == p.stage && q.bank == p.bank && q.im == p.im
  }

  predicate PacketsAlike(t: State, u: State) {
    && |t.packets| == |u.packets|
    && forall i | 0 <= i < |t.packets| ::
         SamePacket(t.packets[i], u.packets[i]) && (InFlight(t.packets[i]) ==> t.packets[i].bank == t.selector)
  }

  predicate Alike(t: State, u: State) {
    && Shaped(t) && Shaped(u) && t.selector == u.selector && t.live == u.live && t.sides[t.selector] == u.sides[u.selector]
    && PacketsAlike(t, u)
  }

  predicate OffTarget(t: State) {
    t.loader.Quiet? || t.loader.target != t.selector
  }

  lemma LoaderStepUnseen(t: State, u: State, a: Action)
    requires Alike(t, u) && OffTarget(t) && Enabled(t, a) && !OfPacket(a) && a != Flip(true)
    ensures Alike(Next(t, a), u) && OffTarget(Next(t, a))
  {
  }

  lemma PacketStepsAlike(t: State, u: State, a: Action)
    requires Alike(t, u) && OffTarget(t) && Enabled(t, a) && OfPacket(a)
    ensures Enabled(u, a) && Alike(Next(t, a), Next(u, a)) && OffTarget(Next(t, a))
  {
    if !a.Arrive? { assert SamePacket(t.packets[a.i], u.packets[a.i]); }
  }

  lemma {:induction false} RunsAlike(t: State, u: State, actions: seq<Action>)
    requires Alike(t, u) && OffTarget(t) && Runs(t, actions) && NoneFlips(actions)
    ensures Runs(u, PacketActions(actions)) && Alike(After(t, actions), After(u, PacketActions(actions)))
    decreases |actions|
  {
    if actions != [] {
      var a, rest := actions[0], actions[1..];
      assert a != Flip(true);
      if OfPacket(a) {
        PacketStepsAlike(t, u, a);
        RunsAlike(Next(t, a), Next(u, a), rest);
        RunsOne(u, a);
        RunsThen(u, [a], PacketActions(rest));
      } else {
        LoaderStepUnseen(t, u, a);
        RunsAlike(Next(t, a), u, rest);
        assert PacketActions(actions) == PacketActions(rest);
      }
    }
  }

  /**
   A refused update changes nothing. However many updates a run begins and wherever each is refused, if none goes
   through then the active bank, the selector and the live policy end as they began, and every packet ends where it
   would have ended had the loader done nothing.
   */
  lemma FailureChangesNothing(s: State, actions: seq<Action>)
    requires Shaped(s) && OffTarget(s) && Runs(s, actions) && NoneFlips(actions)
    requires forall i | 0 <= i < |s.packets| && InFlight(s.packets[i]) :: s.packets[i].bank == s.selector
    ensures var t := After(s, actions);
            Shaped(t) && t.selector == s.selector && t.live == s.live && t.sides[t.selector] == s.sides[s.selector]
    ensures Runs(s, PacketActions(actions)) && PacketsAlike(After(s, actions), After(s, PacketActions(actions)))
  {
    assert Alike(s, s);
    RunsAlike(s, s, actions);
    OnlyPackets(actions);
    PacketsSpareSides(s, PacketActions(actions));
  }

  lemma {:induction false} OnlyPackets(actions: seq<Action>)
    ensures forall i | 0 <= i < |PacketActions(actions)| :: OfPacket(PacketActions(actions)[i])
  {
    if actions != [] { OnlyPackets(actions[1..]); }
  }

  /** Packets write nothing. */
  lemma {:induction false} PacketsSpareSides(s: State, actions: seq<Action>)
    requires Runs(s, actions) && forall i | 0 <= i < |actions| :: OfPacket(actions[i])
    ensures var t := After(s, actions); t.sides == s.sides && t.selector == s.selector && t.live == s.live
    decreases |actions|
  {
    if actions != [] {
      assert OfPacket(actions[0]);
      PacketsSpareSides(Next(s, actions[0]), actions[1..]);
    }
  }
}
