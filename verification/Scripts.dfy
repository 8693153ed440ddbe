/**
 Scripted outcomes as register rows (prismpath-hw/ppt_compile.py, encode_script): one row per outcome of
 every node, all of them extending one copy of the compile-time interning.
 */
module Scripts {
  import opened Wrappers
  import opened Values
  import opened Predicates
  import opened Table
  import opened Interp
  import opened Compiler
  import opened CompilerCorrectness
  import opened Registers
  import opened Engine

  /** Per node name, the outcomes of its visits in order. */
  type FlowScript = map<string, seq<Outcome>>

  function Unscripted(name: string): Outcome {
    Fields(map["text" := Str(name)])
  }

  /** The scripted worker: the `visit`-th outcome, the last one repeating. */
  function Replay(script: FlowScript, name: string, visit: nat): Outcome {
    if name !in script || script[name] == [] then Unscripted(name)
    else if visit < 1 then script[name][0]
    else script[name][if visit - 1 < |script[name]| then visit - 1 else |script[name]| - 1]
  }

  function Player(script: FlowScript): Worker {
    (name: string, visit: nat) => Replay(script, name, visit)
  }

  function OutcomesFor(script: FlowScript, name: string): seq<Outcome> {
    if name in script then script[name] else [Unscripted(name)]
  }

  /** What the encoder takes for a suspension; the engine suspends on fewer values. */
  predicate Pauses(fields: Context) {
    PyTruthy(Lookup(fields, "needs_human")) || PyTruthy(Lookup(fields, "wait")) || Lookup(fields, "spawn") != Nil
  }

  datatype Rows<+T> = Rows(intern: map<string, nat>, result: Result<T, SubsetError>)

  function EncodeOutcomes(fields: map<string, nat>, outcomes: seq<Outcome>, intern: map<string, nat>, done: seq<seq<Reg>>)
    : Rows<seq<seq<Reg>>>
    requires Numbering(fields) && |done| <= |outcomes|
    decreases |outcomes| - |done|
  {
    if |done| == |outcomes| then Rows(intern, Success(done))
    else
      var o := outcomes[|done|];
      if o.Raises? then Rows(intern, Failure(ScriptRaises))
      else if Pauses(OutcomeFields(o)) then Rows(intern, Failure(ScriptSuspends))
      else
        var row := EncodeFrom(fields, OutcomeFields(o), intern, []);
        match row.cells
        case Failure(e) => Rows(row.intern, Failure(e))
        case Success(cells) => EncodeOutcomes(fields, outcomes, row.intern, done + [cells])
  }

  function EncodeNodes(fields: map<string, nat>, names: seq<string>, script: FlowScript, intern: map<string, nat>, done: Script)
    : Rows<Script>
    requires Numbering(fields) && |done| <= |names|
    decreases |names| - |done|
  {
    if |done| == |names| then Rows(intern, Success(done))
    else
      var rows := EncodeOutcomes(fields, OutcomesFor(script, names[|done|]), intern, []);
      match rows.result
      case Failure(e) => Rows(rows.intern, Failure(e))
      case Success(cells) => EncodeNodes(fields, names, script, rows.intern, done + [cells])
  }

  method EncodeScript(fields: map<string, nat>, names: seq<string>, script: FlowScript, intern: map<string, nat>)
    returns (r: Rows<Script>)
    requires Numbering(fields)
    ensures r == EncodeNodes(fields, names, script, intern, [])
  {
    var ids := intern;
    var done: Script := [];
    ghost var whole := EncodeNodes(fields, names, script, intern, []);
    for i := 0 to |names|
      invariant |done| == i && EncodeNodes(fields, names, script, ids, done) == whole
    {
      var rows := EncodeRows(fields, OutcomesFor(script, names[i]), ids);
      ids := rows.intern;
      if rows.result.Failure? { return Rows(ids, Failure(rows.result.error)); }
      done := done + [rows.result.value];
    }
    r := Rows(ids, Success(done));
  }

  method EncodeRows(fields: map<string, nat>, outcomes: seq<Outcome>, intern: map<string, nat>) returns (r: Rows<seq<seq<Reg>>>)
    requires Numbering(fields)
    ensures r == EncodeOutcomes(fields, outcomes, intern, [])
  {
    var ids := intern;
    var done: seq<seq<Reg>> := [];
    ghost var whole := EncodeOutcomes(fields, outcomes, intern, []);
    for k := 0 to |outcomes|
      invariant |done| == k && EncodeOutcomes(fields, outcomes, ids, done) == whole
    {
      if outcomes[k].Raises? { return Rows(ids, Failure(ScriptRaises)); }
      if Pauses(OutcomeFields(outcomes[k])) { return Rows(ids, Failure(ScriptSuspends)); }
      var row := EncodeRegs(fields, OutcomeFields(outcomes[k]), ids);
      ids := row.intern;
      if row.cells.Failure? { return Rows(ids, Failure(row.cells.error)); }
      done := done + [row.cells.value];
    }
    r := Rows(ids, Success(done));
  }

  // ----- What the rows stand for -----

  /** A row reads as its outcome, under some numbering of strings that extends the compiled one. */
  ghost predicate Stands(t: Tables, o: Outcome, row: seq<Reg>) {
    && !o.Raises? && !Pauses(OutcomeFields(o)) && |row| == |t.fields|
    && exists intern: map<string, nat> :: Includes(t.intern, intern) && Numbering(intern) && Reads(t.fields, intern, OutcomeFields(o), row)
  }

  ghost predicate RowsStand(t: Tables, outcomes: seq<Outcome>, rows: seq<seq<Reg>>) {
    |rows| <= |outcomes| && forall k | 0 <= k < |rows| :: Stands(t, outcomes[k], rows[k])
  }

  ghost predicate ScriptStands(t: Tables, names: seq<string>, script: FlowScript, done: Script) {
    && |done| <= |names|
    && forall i | 0 <= i < |done| ::
         |done[i]| == |OutcomesFor(script, names[i])| && RowsStand(t, OutcomesFor(script, names[i]), done[i])
  }

  lemma {:induction false} OutcomesStand(t: Tables, outcomes: seq<Outcome>, intern: map<string, nat>, done: seq<seq<Reg>>)
    requires Numbering(t.fields) && Numbering(intern) && Includes(t.intern, intern) && RowsStand(t, outcomes, done)
    ensures var r := EncodeOutcomes(t.fields, outcomes, intern, done);
            && Numbering(r.intern) && Includes(t.intern, r.intern)
            && (r.result.Success? ==> |r.result.value| == |outcomes| && RowsStand(t, outcomes, r.result.value))
    decreases |outcomes| - |done|
  {
    if |done| < |outcomes| {
      var o := outcomes[|done|];
      if !o.Raises? && !Pauses(OutcomeFields(o)) {
        var row := EncodeFrom(t.fields, OutcomeFields(o), intern, []);
        EncodedRowReads(t.fields, OutcomeFields(o), intern);
        IncludesTransitive(t.intern, intern, row.intern);
        if row.cells.Success? {
          assert Stands(t, o, row.cells.value);
          OutcomesStand(t, outcomes, row.intern, done + [row.cells.value]);
        }
      }
    }
  }

  lemma NextStands(t: Tables, names: seq<string>, script: FlowScript, done: Script, rows: seq<seq<Reg>>)
    requires ScriptStands(t, names, script, done) && |done| < |names|
    requires var outcomes := OutcomesFor(script, names[|done|]); |rows| == |outcomes| && RowsStand(t, outcomes, rows)
    ensures ScriptStands(t, names, script, done + [rows])
  {
  }

  /** Every encoded script reads, row for row, as the outcomes the scripted worker returns. */
  lemma {:induction false} ScriptsStand(t: Tables, names: seq<string>, script: FlowScript, intern: map<string, nat>, done: Script)
    requires Numbering(t.fields) && Numbering(intern) && Includes(t.intern, intern) && ScriptStands(t, names, script, done)
    ensures var r := EncodeNodes(t.fields, names, script, intern, done);
            r.result.Success? ==> |r.result.value| == |names| && ScriptStands(t, names, script, r.result.value)
    decreases |names| - |done|
  {
    if |done| < |names| {
      var outcomes := OutcomesFor(script, names[|done|]);
      OutcomesStand(t, outcomes, intern, []);
      var rows := EncodeOutcomes(t.fields, outcomes, intern, []);
      if rows.result.Success? {
        NextStands(t, names, script, done, rows.result.value);
        ScriptsStand(t, names, script, rows.intern, done + [rows.result.value]);
      }
    }
  }
}
