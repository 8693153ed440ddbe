/**
 The loader's side of a swap as it runs (prismpath-ebpf/loader.c, write_bank and net_update): map arrays of two
 banks, written row by row, any write of which may be refused, and one selector word stored last.
 */
module NetMaps {
  import opened Wrappers
  import opened Table
  import opened ImageCodec
  import opened Admission
  import opened KernelEval
  import opened BankSwap
  import opened SwapRuns

  function HalfOf<T>(cells: seq<T>, b: nat): seq<T> {
    if b == 0 then cells[..|cells| / 2] else cells[|cells| / 2..]
  }

  /** The half of a two-bank map that bank `b` owns. */
  ghost function Half<T>(cells: array<T>, b: nat): (half: seq<T>)
    reads cells
  {
    HalfOf(cells[..], b)
  }

  /**
   Writes `rows` at the front of one bank's half. The kernel accepts `budget` writes and refuses the next; `left`
   is what remains of them.
   */
  method PutRows<T>(cells: array<T>, bank: nat, rows: seq<T>, budget: nat) returns (ok: bool, left: nat)
    requires bank < 2 && cells.Length % 2 == 0 && |rows| <= cells.Length / 2
    modifies cells
    ensures ok <==> budget >= |rows|
    ensures Half(cells, bank) == Over(old(Half(cells, bank)), rows, budget)
    ensures left == if ok then budget - |rows| else 0
    ensures Half(cells, 1 - bank) == old(Half(cells, 1 - bank))
  {
    left := budget;
    ghost var was := Half(cells, bank);
    var base := if bank == 0 then 0 else cells.Length / 2;
    for i := 0 to |rows|
      invariant left == budget - i && Half(cells, bank) == Over(was, rows, i)
      invariant Half(cells, 1 - bank) == old(Half(cells, 1 - bank))
    {
      if left == 0 { return false, 0; }
      ghost var before := cells[..];
      cells[base + i] := rows[i];
      assert cells[..] == before[base + i := rows[i]];
      OneWritten(before, bank, base, i, rows[i]);
      OverStep(was, rows, i);
      left := left - 1;
    }
    ok := true;
    OverAll(was, rows, budget);
  }

  /** One element stored in one half. */
  lemma OneWritten<T>(was: seq<T>, bank: nat, base: nat, i: nat, x: T)
    requires bank < 2 && |was| % 2 == 0 && i < |was| / 2 && base == if bank == 0 then 0 else |was| / 2
    ensures HalfOf(was[base + i := x], bank) == HalfOf(was, bank)[i := x]
    ensures HalfOf(was[base + i := x], 1 - bank) == HalfOf(was, 1 - bank)
  {
  }

  lemma OverAll<T>(rows: seq<T>, want: seq<T>, k: nat)
    requires |want| <= |rows| && k >= |want|
    ensures Over(rows, want, |want|) == Over(rows, want, k)
  {
  }

  /** What `budget` writes leave of the side `target`: the rows they reach and, if they reach it, the config. */
  function Banked(sides: seq<Side>, target: nat, im: Image, budget: nat): Side
    requires |sides| == 2 && target < 2 && Full(sides[target].rows) && WithinCapacity(Declared(im))
  {
    Side(Overwritten(sides[target].rows, im, budget),
         if budget > RowCount(im) then Config(im.start, sides[1 - target].config.dropMask) else sides[target].config)
  }

  class LiveMaps {
    const atoms: array<Atom>
    const nodes: array<Node>
    const edges: array<Edge>
    const prog: array<nat>
    const configs: array<Config>
    var bank: nat

    ghost predicate Sized() {
      && atoms.Length == 2 * MAX_ATOMS && nodes.Length == 2 * MAX_NODES && edges.Length == 2 * MAX_EDGES
      && prog.Length == 2 * MAX_PROG_WORDS && configs.Length == 2
    }

    ghost predicate Valid()
      reads this
    {
      Sized() && bank < 2
    }

    /** The rows of one bank. */
    ghost function Rows(b: nat): (r: Bank)
      requires Sized() && b < 2
      reads atoms, nodes, edges, prog
      ensures Full(r)
    {
      Bank(Half(atoms, b), Half(nodes, b), Half(edges, b), Half(prog, b))
    }

    ghost function Sides(): (sides: seq<Side>)
      requires Sized()
      reads atoms, nodes, edges, prog, configs
      ensures |sides| == 2
    {
      [Side(Rows(0), configs[0]), Side(Rows(1), configs[1])]
    }

    /** The maps and the selector, as the state machine has them, with no packet and no update under way. */
    ghost function Maps(live: Image): (s: State)
      requires Valid()
      reads this, atoms, nodes, edges, prog, configs
      ensures Shaped(s)
    {
      State(Sides(), bank, Quiet, [], live, 0)
    }

    /** The four sections, in the loader's order. */
    method PutSections(target: nat, im: Image, budget: nat) returns (ok: bool, left: nat)
      requires Valid() && target < 2 && WithinCapacity(Declared(im))
      modifies atoms, nodes, edges, prog
      ensures Rows(1 - target) == old(Rows(1 - target))
      ensures Half(atoms, target) == Over(old(Half(atoms, target)), im.atoms, budget)
      ensures Half(nodes, target) == Over(old(Half(nodes, target)), im.nodes, budget - |im.atoms|)
      ensures Half(edges, target) == Over(old(Half(edges, target)), im.edges, budget - |im.atoms| - |im.nodes|)
      ensures Half(prog, target) == Over(old(Half(prog, target)), im.prog, budget - |im.atoms| - |im.nodes| - |im.edges|)
      ensures (ok <==> budget >= RowCount(im)) && left == if ok then budget - RowCount(im) else 0
    {
      ok, left := PutRows(atoms, target, im.atoms, budget);
      if !ok { return; }
      ok, left := PutRows(nodes, target, im.nodes, left);
      if !ok { return; }
      ok, left := PutRows(edges, target, im.edges, left);
      if !ok { return; }
      ok, left := PutRows(prog, target, im.prog, left);
    }

    method WriteRows(target: nat, im: Image, budget: nat) returns (ok: bool, left: nat)
      requires Valid() && target < 2 && WithinCapacity(Declared(im))
      modifies atoms, nodes, edges, prog
      ensures Rows(1 - target) == old(Rows(1 - target)) && Rows(target) == Overwritten(old(Rows(target)), im, budget)
      ensures (ok <==> budget >= RowCount(im)) && left == if ok then budget - RowCount(im) else 0
    {
      ok, left := PutSections(target, im, budget);
    }

    /**
     A whole image into one bank, then its config with the other bank's drop mask. Whatever is refused, the other
     bank is untouched, and this one holds the rows written before the refusal over those it held.
     */
    method WriteBank(target: nat, im: Image, budget: nat) returns (ok: bool, left: nat)
      requires Valid() && target < 2 && WithinCapacity(Declared(im))
      modifies atoms, nodes, edges, prog, configs
      ensures Sides() == old(Sides())[target := Banked(old(Sides()), target, im, budget)]
      ensures ok <==> budget > RowCount(im)
      ensures ok ==> Loaded(Rows(target), im) && left == budget - RowCount(im) - 1
    {
      ghost var was := Rows(target);
      ok, left := WriteRows(target, im, budget);
      if !ok { return; }
      if left == 0 { return false, 0; }
      AllOver(was, im, budget);
      configs[target] := Config(im.start, configs[1 - target].dropMask);
      left := left - 1;
    }

    /**
     The swap: the bank not selected, in full, then the selector. A refused write leaves the live policy live. What it
     leaves in the maps is what the update's steps leave in the state machine, wherever they are refused.
     */
    method NetUpdate(im: Image, budget: nat) returns (ok: bool)
      requires Valid() && WithinCapacity(Declared(im))
      modifies atoms, nodes, edges, prog, configs, `bank
      ensures Valid() && (ok <==> budget > RowCount(im) + 1)
      ensures Rows(old(bank)) == old(Rows(bank)) && configs[old(bank)] == old(configs[bank])
      ensures bank == if ok then 1 - old(bank) else old(bank)
      ensures ok ==> Loaded(Rows(bank), im) && configs[bank] == Config(im.start, old(configs[bank].dropMask))
      ensures Fit(im) ==> Follows(old(Maps(im)), im, budget, Maps(im))
    {
      ghost var s := Maps(im);
      var active := bank % 2;
      var target := 1 - active;
      var left: nat;
      ok, left := WriteBank(target, im, budget);
      if ok {
        if left == 0 { ok := false; } else { bank := target; }
      }
      StepsFollow(s, im, budget, Maps(im));
    }
  }

  /** The maps `t` are those the update's steps leave of the maps `s`. */
  predicate Follows(s: State, im: Image, budget: nat, t: State) {
    var acts := UpdateActions(im, budget);
    Runs(s, acts) && After(s, acts).sides == t.sides && After(s, acts).selector == t.selector
  }

  lemma StepsFollow(s: State, im: Image, budget: nat, t: State)
    requires Shaped(s) && s.loader.Quiet? && WithinCapacity(Declared(im))
    requires t.selector == if budget > RowCount(im) + 1 then 1 - s.selector else s.selector
    requires t.sides == s.sides[1 - s.selector := Banked(s.sides, 1 - s.selector, im, budget)]
    ensures Fit(im) ==> Follows(s, im, budget, t)
  {
    if Fit(im) {
      UpdateRuns(s, im, budget);
      GrantedIsAll(s.sides[1 - s.selector].rows, im, budget);
      assert After(s, UpdateActions(im, budget)).sides == t.sides;
    }
  }

  /** Writes past the last row change no row. */
  lemma GrantedIsAll(b: Bank, im: Image, budget: nat)
    requires Full(b) && WithinCapacity(Declared(im))
    ensures Overwritten(b, im, Granted(im, budget)) == Overwritten(b, im, budget)
  {
  }

  lemma AllOver(b: Bank, im: Image, budget: nat)
    requires Full(b) && WithinCapacity(Declared(im)) && budget >= RowCount(im)
    ensures Loaded(Overwritten(b, im, budget), im)
  {
    GrantedIsAll(b, im, budget);
    OverwrittenLoads(b, im);
  }
}
