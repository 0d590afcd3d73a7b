/** The Rename object of gnome-bulk-rename/rename.py. A single-pass rename
    starts one batch renaming every file to its new name; a two-pass rename
    first renames every file to a temporary name, then the successful ones to
    their new names, and tries to rename back the ones whose final rename
    failed. Each batch reports back through its done callback, which writes
    the outcomes into the files model and starts the next batch or calls the
    caller's done callback. */
module Rename {
  import opened Rows
  import opened RenameBatch
  import opened RenameMap

  /** RenameResults: the model, the mode, (folder, old, new) of every successful
      rename, and the errors of a single-pass rename with their user data. */
  datatype RenameResults = RenameResults(
    model: FilesModel,
    twoPass: bool,
    renameData: seq<Triple>,
    errors: seq<(Entry, string)>)

  /** A call of the caller's done callback: with the results alone (single pass),
      or with the number of renames, the number of errors and the results (two pass). */
  datatype DoneCall =
    | OneArg(results: RenameResults)
    | ThreeArgs(numRenames: nat, numErrors: nat, results: RenameResults)

  /** The done callback a Rename is given: none (the default), a function of one
      argument (the closure of RenameUndoAction) or of three arguments (the
      completion handlers of the application). */
  datatype Callback = NoCallback | TakesOne | TakesThree

  /** A call the callback can accept; any other raises TypeError inside the
      completion callback, after the model has been updated. */
  predicate Accepts(cb: Callback, call: DoneCall)
  {
    (cb == TakesOne && call.OneArg?) || (cb == TakesThree && call.ThreeArgs?)
  }

  /** The three batches of a two-pass rename, by the callback they report to. */
  datatype Kind = ToTemporary | ToFinal | RenameBack

  datatype Pass = Pass(kind: Kind, batch: Batch<nat>)

  /** What a failed rename writes into its row: the error icon, and the message
      as tooltip. */
  function WithError(row: Row, message: string): (r: Row)
    ensures r.icon == Some(StockDialogError)
    ensures r.tooltip == Some("<b>ERROR:</b> " + message)
    ensures r.(icon := row.icon, tooltip := row.tooltip) == row
  {
    row.(icon := Some(StockDialogError), tooltip := Some(ErrorTooltip(message)))
  }

  /** The index of the last element naming row i, or -1 when none does. */
  function Last(rows: seq<Option<nat>>, i: nat): (k: int)
    ensures -1 <= k < |rows|
    ensures k >= 0 ==> rows[k] == Some(i)
    ensures forall j :: k < j < |rows| ==> rows[j] != Some(i)
  {
    if rows == [] then -1
    else if rows[|rows| - 1] == Some(i) then |rows| - 1
    else Last(rows[..|rows| - 1], i)
  }

  /** Rows to mark as failed, with the error message; None is a file with no row. */
  predicate FailuresIn(failures: seq<(Option<nat>, string)>, n: nat)
  {
    forall k :: 0 <= k < |failures| && failures[k].0.Some? ==> failures[k].0.value < n
  }

  function FailureRows(failures: seq<(Option<nat>, string)>): (r: seq<Option<nat>>)
    ensures |r| == |failures|
    ensures forall k :: 0 <= k < |failures| ==> r[k] == failures[k].0
  {
    seq(|failures|, k requires 0 <= k < |failures| => failures[k].0)
  }

  /** The rows after marking every failure, in order. */
  function MarkFailures(rows: seq<Row>, failures: seq<(Option<nat>, string)>): (r: seq<Row>)
    requires FailuresIn(failures, |rows|)
    ensures |r| == |rows|
    decreases |failures|
  {
    if failures == [] then rows
    else
      var n := |failures| - 1;
      var prev := MarkFailures(rows, failures[..n]);
      var (row, message) := failures[n];
      if row.None? then prev else prev[row.value := WithError(prev[row.value], message)]
  }

  lemma MarkFailuresSnoc(rows: seq<Row>, failures: seq<(Option<nat>, string)>, f: (Option<nat>, string))
    requires FailuresIn(failures, |rows|) && (f.0.Some? ==> f.0.value < |rows|)
    ensures FailuresIn(failures + [f], |rows|)
    ensures var prev := MarkFailures(rows, failures);
      MarkFailures(rows, failures + [f]) ==
        if f.0.None? then prev else prev[f.0.value := WithError(prev[f.0.value], f.1)]
  {
    assert (failures + [f])[..|failures|] == failures;
  }

  /** Row i carries the error of the last failure naming it, with its other columns
      unchanged, or is unchanged when no failure names it. */
  lemma {:induction false} MarkFailuresAt(rows: seq<Row>, failures: seq<(Option<nat>, string)>, i: nat)
    requires FailuresIn(failures, |rows|) && i < |rows|
    ensures var k := Last(FailureRows(failures), i);
      MarkFailures(rows, failures)[i] == if k < 0 then rows[i] else WithError(rows[i], failures[k].1)
    decreases |failures|
  {
    if failures != [] {
      var n := |failures| - 1;
      var pre := failures[..n];
      assert FailureRows(pre) == FailureRows(failures)[..n];
      MarkFailuresAt(rows, pre, i);
    }
  }

  function EntryFailures(errors: seq<(Entry, string)>): (f: seq<(Option<nat>, string)>)
    ensures |f| == |errors|
    ensures forall k :: 0 <= k < |errors| ==> f[k] == (errors[k].0.row, errors[k].1)
  {
    seq(|errors|, k requires 0 <= k < |errors| => (errors[k].0.row, errors[k].1))
  }

  function RowFailures(errors: seq<(nat, string)>): (f: seq<(Option<nat>, string)>)
    ensures |f| == |errors|
    ensures forall k :: 0 <= k < |errors| ==> f[k] == (Some(errors[k].0), errors[k].1)
  {
    seq(|errors|, k requires 0 <= k < |errors| => (Some(errors[k].0), errors[k].1))
  }

  predicate EntriesIn(ps: seq<(Entry, string)>, n: nat)
  {
    forall k :: 0 <= k < |ps| && ps[k].0.row.Some? ==> ps[k].0.row.value < n
  }

  predicate IdsIn(ps: seq<(nat, string)>, n: nat)
  {
    forall k :: 0 <= k < |ps| ==> ps[k].0 < n
  }

  function SuccessRows(successes: seq<(Entry, string)>): (r: seq<Option<nat>>)
    ensures |r| == |successes|
    ensures forall k :: 0 <= k < |successes| ==> r[k] == successes[k].0.row
  {
    seq(|successes|, k requires 0 <= k < |successes| => successes[k].0.row)
  }

  function IdRows(ps: seq<(nat, string)>): (r: seq<Option<nat>>)
    ensures |r| == |ps|
    ensures forall k :: 0 <= k < |ps| ==> r[k] == Some(ps[k].0)
  {
    seq(|ps|, k requires 0 <= k < |ps| => Some(ps[k].0))
  }

  /** Single pass: each success, in order, writes the new name into column 0 and the
      new GFile into column 4 of its row, if it has one. */
  function ApplySuccesses(rows: seq<Row>, successes: seq<(Entry, string)>): (r: seq<Row>)
    requires EntriesIn(successes, |rows|)
    ensures |r| == |rows|
    decreases |successes|
  {
    if successes == [] then rows
    else
      var n := |successes| - 1;
      var prev := ApplySuccesses(rows, successes[..n]);
      var (e, gfile) := successes[n];
      if e.row.None? then prev
      else prev[e.row.value := prev[e.row.value].(original := e.newName, gfile := gfile)]
  }

  lemma ApplySuccessesSnoc(rows: seq<Row>, successes: seq<(Entry, string)>, s: (Entry, string))
    requires EntriesIn(successes, |rows|) && (s.0.row.Some? ==> s.0.row.value < |rows|)
    ensures EntriesIn(successes + [s], |rows|)
    ensures var prev := ApplySuccesses(rows, successes);
      ApplySuccesses(rows, successes + [s]) ==
        if s.0.row.None? then prev
        else prev[s.0.row.value := prev[s.0.row.value].(original := s.0.newName, gfile := s.1)]
  {
    assert (successes + [s])[..|successes|] == successes;
  }

  /** Row i has the new name and GFile of the last success naming it, with its
      other columns unchanged, or is unchanged when no success names it. */
  lemma {:induction false} ApplySuccessesAt(rows: seq<Row>, successes: seq<(Entry, string)>, i: nat)
    requires EntriesIn(successes, |rows|) && i < |rows|
    ensures var k := Last(SuccessRows(successes), i);
      ApplySuccesses(rows, successes)[i] ==
        if k < 0 then rows[i] else rows[i].(original := successes[k].0.newName, gfile := successes[k].1)
    decreases |successes|
  {
    if successes != [] {
      var n := |successes| - 1;
      var pre := successes[..n];
      assert SuccessRows(pre) == SuccessRows(successes)[..n];
      ApplySuccessesAt(rows, pre, i);
    }
  }

  /** The (folder, old, new) of every success of a single-pass rename, in order. */
  function RenameDataOf(successes: seq<(Entry, string)>): (data: seq<Triple>)
    ensures |data| == |successes|
    ensures forall k :: 0 <= k < |successes| ==>
      data[k] == Triple(successes[k].0.folder, successes[k].0.oldName, successes[k].0.newName)
  {
    seq(|successes|, k requires 0 <= k < |successes| =>
      Triple(successes[k].0.folder, successes[k].0.oldName, successes[k].0.newName))
  }

  /** Two pass, after the final renames: each success, in order, records (dirname,
      column 0, column 1) of its row as they are at that point, then sets column 0
      to the preview and column 4 to the new GFile. */
  function CommitFinal(rows: seq<Row>, successes: seq<(nat, string)>): (r: (seq<Row>, seq<Triple>))
    requires IdsIn(successes, |rows|)
    ensures |r.0| == |rows| && |r.1| == |successes|
    decreases |successes|
  {
    if successes == [] then (rows, [])
    else
      var n := |successes| - 1;
      var prev := CommitFinal(rows, successes[..n]);
      var (id, gfile) := successes[n];
      var row := prev.0[id];
      (prev.0[id := row.(original := row.preview, gfile := gfile)],
       prev.1 + [Triple(row.dirname, row.original, row.preview)])
  }

  lemma CommitFinalSnoc(rows: seq<Row>, successes: seq<(nat, string)>, s: (nat, string))
    requires IdsIn(successes, |rows|) && s.0 < |rows|
    ensures IdsIn(successes + [s], |rows|)
    ensures var prev := CommitFinal(rows, successes); var row := prev.0[s.0];
      CommitFinal(rows, successes + [s]) ==
        (prev.0[s.0 := row.(original := row.preview, gfile := s.1)],
         prev.1 + [Triple(row.dirname, row.original, row.preview)])
  {
    assert (successes + [s])[..|successes|] == successes;
  }

  /** Row i ends with its preview as name and the GFile of the last success naming
      it, or is unchanged when no success names it. */
  lemma {:induction false} CommitFinalAt(rows: seq<Row>, successes: seq<(nat, string)>, i: nat)
    requires IdsIn(successes, |rows|) && i < |rows|
    ensures var k := Last(IdRows(successes), i);
      CommitFinal(rows, successes).0[i] ==
        if k < 0 then rows[i] else rows[i].(original := rows[i].preview, gfile := successes[k].1)
    decreases |successes|
  {
    if successes != [] {
      var n := |successes| - 1;
      var pre := successes[..n];
      assert IdRows(pre) == IdRows(successes)[..n];
      CommitFinalAt(rows, pre, i);
    }
  }

  /** When every row succeeds at most once, the recorded rename data are (dirname,
      old name, preview) of the rows as they were before the final pass. */
  lemma {:induction false} CommitFinalData(rows: seq<Row>, successes: seq<(nat, string)>)
    requires IdsIn(successes, |rows|)
    requires forall a, b :: 0 <= a < b < |successes| ==> successes[a].0 != successes[b].0
    ensures forall k :: 0 <= k < |successes| ==>
      CommitFinal(rows, successes).1[k] ==
        Triple(rows[successes[k].0].dirname, rows[successes[k].0].original, rows[successes[k].0].preview)
    decreases |successes|
  {
    if successes != [] {
      var n := |successes| - 1;
      var pre, id := successes[..n], successes[n].0;
      assert forall k :: 0 <= k < n ==> pre[k] == successes[k];
      CommitFinalData(rows, pre);
      CommitFinalAt(rows, pre, id);
      assert Last(IdRows(pre), id) < 0;
      var prev := CommitFinal(rows, pre);
      assert prev.0[id] == rows[id];
      assert CommitFinal(rows, successes).1 == prev.1 + [Triple(rows[id].dirname, rows[id].original, rows[id].preview)];
    }
  }

  /** The map of the final pass: each file renamed to the temporary name goes to the
      preview of its row. */
  function FinalMap(rows: seq<Row>, successes: seq<(nat, string)>): (m: seq<Request<nat>>)
    requires IdsIn(successes, |rows|)
    ensures |m| == |successes|
    ensures forall k :: 0 <= k < |successes| ==> m[k].data == successes[k].0
  {
    seq(|successes|, k requires 0 <= k < |successes| =>
      Request(successes[k].1, rows[successes[k].0].preview, successes[k].0))
  }

  /** The map of the rename back: each row whose final rename failed, from its GFile
      to its column 0, all with the same user data `id`. */
  function RenameBackMap(rows: seq<Row>, errors: seq<(nat, string)>, id: nat): (m: seq<Request<nat>>)
    requires IdsIn(errors, |rows|)
    ensures |m| == |errors|
    ensures forall r :: r in m ==> r.data == id
  {
    seq(|errors|, k requires 0 <= k < |errors| =>
      Request(rows[errors[k].0].gfile, rows[errors[k].0].original, id))
  }

  /** All the state a Rename changes: the files model's rows, the batch of a single
      pass, the batches of a two-pass rename in the order they were started, the
      results, the calls of the done callback, and the URIs cancelled. */
  datatype State = State(
    rows: seq<Row>,
    single: Batch<Entry>,
    passes: seq<Pass>,
    results: RenameResults,
    calls: seq<DoneCall>,
    cancelled: set<string>)

  ghost predicate EntryBatchIn(b: Batch<Entry>, n: nat)
  {
    forall e :: e in Accounted(b) && e.row.Some? ==> e.row.value < n
  }

  ghost predicate RowBatchIn(b: Batch<nat>, n: nat)
  {
    forall i :: i in Accounted(b) ==> i < n
  }

  lemma EntryOutcomesIn(b: Batch<Entry>, n: nat)
    requires EntryBatchIn(b, n)
    ensures EntriesIn(b.successes, n) && EntriesIn(b.errors, n)
    ensures FailuresIn(EntryFailures(b.errors), n)
  {
    OutcomesAccounted(b);
  }

  lemma RowOutcomesIn(b: Batch<nat>, n: nat)
    requires RowBatchIn(b, n)
    ensures IdsIn(b.successes, n) && IdsIn(b.errors, n)
    ensures FailuresIn(RowFailures(b.errors), n)
  {
    OutcomesAccounted(b);
  }

  lemma StartedRowsIn(requests: seq<Request<nat>>, n: nat)
    requires forall k :: 0 <= k < |requests| ==> requests[k].data < n
    ensures RowBatchIn(Started(requests), n)
  {
    forall i | i in Accounted(Started(requests))
      ensures i < n
    {
      StartedAccounted(requests, i);
    }
  }

  lemma StartedEntriesIn(requests: seq<Request<Entry>>, n: nat)
    requires forall k :: 0 <= k < |requests| && requests[k].data.row.Some? ==> requests[k].data.row.value < n
    ensures EntryBatchIn(Started(requests), n)
  {
    forall e | e in Accounted(Started(requests)) && e.row.Some?
      ensures e.row.value < n
    {
      StartedAccounted(requests, e);
    }
  }

  /** The single-pass done callback: model updated from the successes, errors
      marked, results extended, and the caller's callback called with them. */
  function SinglePassDone(s: State, b: Batch<Entry>): State
    requires EntryBatchIn(b, |s.rows|)
  {
    EntryOutcomesIn(b, |s.rows|);
    var rows := MarkFailures(ApplySuccesses(s.rows, b.successes), EntryFailures(b.errors));
    var results := s.results.(renameData := s.results.renameData + RenameDataOf(b.successes),
                              errors := s.results.errors + b.errors);
    s.(rows := rows, results := results, calls := s.calls + [OneArg(results)])
  }

  /** A completion of an operation of a single-pass rename: the batch records it, and
      the done callback runs if it was the last. */
  function CompleteSingle(s: State, uri: string, outcome: Outcome): (r: State)
    requires EntryBatchIn(s.single, |s.rows|)
    ensures r.single == Complete(s.single, uri, outcome).0
    ensures |r.rows| == |s.rows| && r.passes == s.passes && r.cancelled == s.cancelled
    ensures Complete(s.single, uri, outcome).1 != Notified ==> r == s.(single := r.single)
    ensures Complete(s.single, uri, outcome).1 == Notified ==> r.calls == s.calls + [OneArg(r.results)]
  {
    var c := Complete(s.single, uri, outcome);
    CompleteAccounts(s.single, uri, outcome);
    var s' := s.(single := c.0);
    if c.1 == Notified then SinglePassDone(s', c.0) else s'
  }

  /** The done callback of a batch of a two-pass rename, by its kind. After the
      temporary pass: errors marked, and the final pass started for the successes.
      After the final pass: rows of the successes committed, errors marked, then
      the rename back started for the errors, or the caller's callback called when
      there are none. After the rename back: its errors marked (on the rows the
      user data name) and the caller's callback called. */
  function TwoPassDone(s: State, kind: Kind, b: Batch<nat>): State
    requires RowBatchIn(b, |s.rows|)
  {
    RowOutcomesIn(b, |s.rows|);
    match kind
    case ToTemporary =>
      var rows := MarkFailures(s.rows, RowFailures(b.errors));
      s.(rows := rows, passes := s.passes + [Pass(ToFinal, Started(FinalMap(rows, b.successes)))])
    case ToFinal =>
      var c := CommitFinal(s.rows, b.successes);
      var rows := MarkFailures(c.0, RowFailures(b.errors));
      var results := s.results.(renameData := s.results.renameData + c.1);
      if b.errors != [] then
        var id := b.errors[|b.errors| - 1].0;
        s.(rows := rows, passes := s.passes + [Pass(RenameBack, Started(RenameBackMap(rows, b.errors, id)))],
           results := results)
      else
        s.(rows := rows, results := results, calls := s.calls + [ThreeArgs(|b.successes|, 0, results)])
    case RenameBack =>
      s.(rows := MarkFailures(s.rows, RowFailures(b.errors)),
         calls := s.calls + [ThreeArgs(|b.successes|, |b.errors|, s.results)])
  }

  /** A completion of an operation of one of the batches of a two-pass rename. */
  function CompleteTwo(s: State, pass: nat, uri: string, outcome: Outcome): (r: State)
    requires pass < |s.passes| && RowBatchIn(s.passes[pass].batch, |s.rows|)
    ensures |r.rows| == |s.rows| && r.single == s.single && r.cancelled == s.cancelled
    ensures |r.passes| >= |s.passes| && r.passes[pass].batch == Complete(s.passes[pass].batch, uri, outcome).0
    ensures Complete(s.passes[pass].batch, uri, outcome).1 != Notified ==>
      r == s.(passes := s.passes[pass := Pass(s.passes[pass].kind, r.passes[pass].batch)])
  {
    var c := Complete(s.passes[pass].batch, uri, outcome);
    CompleteAccounts(s.passes[pass].batch, uri, outcome);
    var s' := s.(passes := s.passes[pass := Pass(s.passes[pass].kind, c.0)]);
    if c.1 == Notified then TwoPassDone(s', s.passes[pass].kind, c.0) else s'
  }

  /** The map `_get_rename_map` builds. */
  function RenameMapFor(rows: seq<Row>, filesToRename: Option<seq<Triple>>): seq<Request<Entry>>
  {
    if filesToRename.None? then ModelRenameMap(rows) else ListRenameMap(rows, filesToRename.value)
  }

  /** Rename: constructing it starts the rename. */
  class Rename {
    const model: FilesModel
    const twoPass: bool
    const callback: Callback
    /** "gbr-%10d--" % pid, the prefix of the temporary names */
    const prefix: string
    var single: Batch<Entry>
    var passes: seq<Pass>
    var results: RenameResults
    var calls: seq<DoneCall>
    var cancelled: set<string>

    ghost function St(): State
      reads this, model
    {
      State(model.rows, single, passes, results, calls, cancelled)
    }

    /** The user data of every batch name rows of the model; a single-pass rename
        has one batch and makes one-argument calls, a two-pass rename has at least
        one batch and makes three-argument calls. */
    ghost predicate Valid()
      reads this, model
    {
      results.model == model && results.twoPass == twoPass &&
      (!twoPass ==> passes == [] && EntryBatchIn(single, |model.rows|)) &&
      (twoPass ==> passes != [] && forall p :: 0 <= p < |passes| ==> RowBatchIn(passes[p].batch, |model.rows|)) &&
      forall k :: 0 <= k < |calls| ==> (calls[k].OneArg? <==> !twoPass)
    }

    /** Rename(model, two_pass, done_callback, files_to_rename), with the process id
        as a parameter. A two-pass rename ignores files_to_rename. */
    constructor (model: FilesModel, twoPass: bool, callback: Callback, filesToRename: Option<seq<Triple>>, pid: nat)
      ensures this.model == model && this.twoPass == twoPass && this.callback == callback
      ensures prefix == TwoPassPrefix(pid)
      ensures !twoPass ==> single == Started(RenameMapFor(model.rows, filesToRename)) && passes == []
      ensures twoPass ==> (single == Started([]) &&
        passes == [Pass(ToTemporary, Started(TemporaryRenameMap(model.rows, TwoPassPrefix(pid))))])
      ensures results == RenameResults(model, twoPass, [], []) && calls == [] && cancelled == {}
      ensures Valid()
    {
      this.model := model;
      this.twoPass := twoPass;
      this.callback := callback;
      var p := TwoPassPrefix(pid);
      prefix := p;
      results := RenameResults(model, twoPass, [], []);
      calls := [];
      cancelled := {};
      if !twoPass {
        var renameMap := GetRenameMap(model.rows, filesToRename);
        var b := Issue(renameMap);
        single := b;
        passes := [];
        if filesToRename.None? {
          ModelRenameMapShape(model.rows);
        }
        StartedEntriesIn(renameMap, |model.rows|);
      } else {
        var renameMap := GetTemporaryRenameMap(model.rows, p);
        var b := Issue(renameMap);
        single := Started([]);
        passes := [Pass(ToTemporary, b)];
        TemporaryRenameMapShape(model.rows, p);
        StartedRowsIn(renameMap, |model.rows|);
      }
    }

    /** cancel: every cancellable of the batch started last is cancelled. The
        operations it stops then complete with an error. */
    method Cancel()
      requires Valid()
      modifies this
      ensures St() == old(St()).(cancelled := cancelled)
      ensures cancelled == old(cancelled) +
        (if twoPass then old(passes)[|old(passes)| - 1].batch.cancellables else old(single).cancellables)
      ensures Valid()
    {
      if twoPass {
        cancelled := cancelled + passes[|passes| - 1].batch.cancellables;
      } else {
        cancelled := cancelled + single.cancellables;
      }
    }

    /** The completion of the operation on the given URI of a single-pass rename. */
    method CompleteSinglePass(uri: string, outcome: Outcome) returns (signal: Signal)
      requires Valid() && !twoPass
      modifies this, model
      ensures Valid()
      ensures signal == Complete(old(single), uri, outcome).1
      ensures St() == CompleteSingle(old(St()), uri, outcome)
    {
      var c := Complete(single, uri, outcome);
      CompleteAccounts(single, uri, outcome);
      single, signal := c.0, c.1;
      if signal == Notified {
        SinglePassRenameDone(c.0);
      }
    }

    /** `_rename_done_cb` of the single pass. */
    method SinglePassRenameDone(b: Batch<Entry>)
      requires Valid() && !twoPass && EntryBatchIn(b, |model.rows|) && single == b
      modifies this, model
      ensures Valid()
      ensures St() == SinglePassDone(old(St()), b)
    {
      EntryOutcomesIn(b, |model.rows|);
      var data := UpdateModelForSuccesses(b.successes);
      results := results.(renameData := results.renameData + data);
      HandleRenameErrors(b.errors);
      results := results.(errors := results.errors + b.errors);
      calls := calls + [OneArg(results)];
    }

    /** The loop of `_rename_done_cb` over the successful renames. */
    method UpdateModelForSuccesses(successes: seq<(Entry, string)>) returns (data: seq<Triple>)
      requires EntriesIn(successes, |model.rows|)
      modifies model
      ensures model.rows == ApplySuccesses(old(model.rows), successes)
      ensures data == RenameDataOf(successes)
    {
      data := [];
      var ii := 0;
      while ii < |successes|
        invariant 0 <= ii <= |successes|
        invariant EntriesIn(successes[..ii], |old(model.rows)|)
        invariant model.rows == ApplySuccesses(old(model.rows), successes[..ii])
        invariant data == RenameDataOf(successes[..ii])
      {
        var (dat, newGfile) := successes[ii];
        assert successes[..ii + 1] == successes[..ii] + [successes[ii]];
        ApplySuccessesSnoc(old(model.rows), successes[..ii], successes[ii]);
        data := data + [Triple(dat.folder, dat.oldName, dat.newName)];
        if dat.row.Some? {
          var iRow := dat.row.value;
          model.rows := model.rows[iRow := model.rows[iRow].(original := dat.newName, gfile := newGfile)];
        }
        ii := ii + 1;
      }
      assert successes[..ii] == successes;
    }

    /** `_handle_rename_errors`: the rows of the failed renames get the error icon and
        the message; a file without a row is skipped. */
    method HandleRenameErrors(errors: seq<(Entry, string)>)
      requires EntriesIn(errors, |model.rows|)
      modifies model
      ensures model.rows == MarkFailures(old(model.rows), EntryFailures(errors))
    {
      ghost var marked: seq<(Option<nat>, string)> := [];
      var ii := 0;
      while ii < |errors|
        invariant 0 <= ii <= |errors|
        invariant marked == EntryFailures(errors)[..ii]
        invariant FailuresIn(marked, |old(model.rows)|)
        invariant model.rows == MarkFailures(old(model.rows), marked)
      {
        var (dat, message) := errors[ii];
        assert EntryFailures(errors)[..ii + 1] == marked + [(dat.row, message)];
        MarkFailuresSnoc(old(model.rows), marked, (dat.row, message));
        if dat.row.Some? {
          var iRow := dat.row.value;
          model.rows := model.rows[iRow := WithError(model.rows[iRow], message)];
        }
        marked := marked + [(dat.row, message)];
        ii := ii + 1;
      }
      assert EntryFailures(errors)[..ii] == EntryFailures(errors);
    }

    /** The loop that marks the errors of a batch of a two-pass rename. */
    method MarkRowErrors(errors: seq<(nat, string)>)
      requires IdsIn(errors, |model.rows|)
      modifies model
      ensures model.rows == MarkFailures(old(model.rows), RowFailures(errors))
    {
      ghost var marked: seq<(Option<nat>, string)> := [];
      var ii := 0;
      while ii < |errors|
        invariant 0 <= ii <= |errors|
        invariant marked == RowFailures(errors)[..ii]
        invariant FailuresIn(marked, |old(model.rows)|)
        invariant model.rows == MarkFailures(old(model.rows), marked)
      {
        var (id, message) := errors[ii];
        assert RowFailures(errors)[..ii + 1] == marked + [(Some(id), message)];
        MarkFailuresSnoc(old(model.rows), marked, (Some(id), message));
        model.rows := model.rows[id := WithError(model.rows[id], message)];
        marked := marked + [(Some(id), message)];
        ii := ii + 1;
      }
      assert RowFailures(errors)[..ii] == RowFailures(errors);
    }

    /** The completion of the operation on the given URI of the batch started as
        the pass-th of a two-pass rename. */
    method CompleteTwoPass(pass: nat, uri: string, outcome: Outcome) returns (signal: Signal)
      requires Valid() && twoPass && pass < |passes|
      modifies this, model
      ensures Valid()
      ensures signal == Complete(old(passes[pass].batch), uri, outcome).1
      ensures St() == CompleteTwo(old(St()), pass, uri, outcome)
    {
      var kind := passes[pass].kind;
      var c := Complete(passes[pass].batch, uri, outcome);
      CompleteAccounts(passes[pass].batch, uri, outcome);
      ghost var s0 := St();
      passes := passes[pass := Pass(kind, c.0)];
      signal := c.1;
      assert St() == s0.(passes := s0.passes[pass := Pass(kind, c.0)]);
      if signal == Notified {
        match kind
        case ToTemporary => ToTemporaryDone(c.0);
        case ToFinal => ToFinalDone(c.0);
        case RenameBack => RenameBackDone(c.0);
      }
    }

    /** `_rename_to_tmp_done_cb` */
    method ToTemporaryDone(b: Batch<nat>)
      requires Valid() && twoPass && RowBatchIn(b, |model.rows|)
      modifies this, model
      ensures Valid()
      ensures St() == TwoPassDone(old(St()), ToTemporary, b)
    {
      RowOutcomesIn(b, |model.rows|);
      MarkRowErrors(b.errors);
      var renameToFinalMap := GetFinalMap(b.successes);
      var next := Issue(renameToFinalMap);
      StartedRowsIn(renameToFinalMap, |model.rows|);
      passes := passes + [Pass(ToFinal, next)];
    }

    /** The loop of `_rename_to_tmp_done_cb` building the map of the final pass. */
    method GetFinalMap(successes: seq<(nat, string)>) returns (m: seq<Request<nat>>)
      requires IdsIn(successes, |model.rows|)
      ensures m == FinalMap(model.rows, successes)
    {
      m := [];
      var ii := 0;
      while ii < |successes|
        invariant 0 <= ii <= |successes|
        invariant |m| == ii
        invariant forall k :: 0 <= k < ii ==> m[k] == FinalMap(model.rows, successes)[k]
      {
        var (irow, newGfile) := successes[ii];
        m := m + [Request(newGfile, model.rows[irow].preview, irow)];
        ii := ii + 1;
      }
    }

    /** `_rename_to_final_done_cb` */
    method ToFinalDone(b: Batch<nat>)
      requires Valid() && twoPass && RowBatchIn(b, |model.rows|)
      modifies this, model
      ensures Valid()
      ensures St() == TwoPassDone(old(St()), ToFinal, b)
    {
      RowOutcomesIn(b, |model.rows|);
      var data := CommitFinalRenames(b.successes);
      results := results.(renameData := results.renameData + data);
      MarkRowErrors(b.errors);
      if b.errors != [] {
        // `id` is still the loop variable of the marking loop: the row of the last error
        var id := b.errors[|b.errors| - 1].0;
        var renameBackMap := GetRenameBackMap(b.errors, id);
        var next := Issue(renameBackMap);
        StartedRowsIn(renameBackMap, |model.rows|);
        passes := passes + [Pass(RenameBack, next)];
      } else {
        calls := calls + [ThreeArgs(|b.successes|, 0, results)];
      }
    }

    /** The loop of `_rename_to_final_done_cb` over the successful final renames. */
    method CommitFinalRenames(successes: seq<(nat, string)>) returns (data: seq<Triple>)
      requires IdsIn(successes, |model.rows|)
      modifies model
      ensures (model.rows, data) == CommitFinal(old(model.rows), successes)
    {
      data := [];
      var ii := 0;
      while ii < |successes|
        invariant 0 <= ii <= |successes|
        invariant IdsIn(successes[..ii], |old(model.rows)|)
        invariant (model.rows, data) == CommitFinal(old(model.rows), successes[..ii])
      {
        var (id, newGfile) := successes[ii];
        assert successes[..ii + 1] == successes[..ii] + [successes[ii]];
        CommitFinalSnoc(old(model.rows), successes[..ii], successes[ii]);
        var folderUri := model.rows[id].dirname;
        var oldName := model.rows[id].original;
        var newName := model.rows[id].preview;
        data := data + [Triple(folderUri, oldName, newName)];
        model.rows := model.rows[id := model.rows[id].(original := newName, gfile := newGfile)];
        ii := ii + 1;
      }
      assert successes[..ii] == successes;
    }

    /** The loop of `_rename_to_final_done_cb` building the map of the rename back. */
    method GetRenameBackMap(errors: seq<(nat, string)>, id: nat) returns (m: seq<Request<nat>>)
      requires IdsIn(errors, |model.rows|)
      ensures m == RenameBackMap(model.rows, errors, id)
    {
      m := [];
      var ii := 0;
      while ii < |errors|
        invariant 0 <= ii <= |errors|
        invariant |m| == ii
        invariant forall k :: 0 <= k < ii ==> m[k] == RenameBackMap(model.rows, errors, id)[k]
      {
        var irow := errors[ii].0;
        m := m + [Request(model.rows[irow].gfile, model.rows[irow].original, id)];
        ii := ii + 1;
      }
    }

    /** `_rename_back_on_final_errors` */
    method RenameBackDone(b: Batch<nat>)
      requires Valid() && twoPass && RowBatchIn(b, |model.rows|)
      modifies this, model
      ensures Valid()
      ensures St() == TwoPassDone(old(St()), RenameBack, b)
    {
      RowOutcomesIn(b, |model.rows|);
      MarkRowErrors(b.errors);
      calls := calls + [ThreeArgs(|b.successes|, |b.errors|, results)];
    }
  }

  /** Single pass, after the last completion: only a row that some success names
      gets a new name and GFile (those of the last such success); a row that some
      error names shows the error icon and the message of the last such error; a row
      neither names is unchanged; and no other column ever changes. */
  lemma SinglePassRowEffect(s: State, b: Batch<Entry>, i: nat)
    requires EntryBatchIn(b, |s.rows|) && i < |s.rows|
    ensures var r := SinglePassDone(s, b).rows[i];
      var ks := Last(SuccessRows(b.successes), i);
      var ke := Last(FailureRows(EntryFailures(b.errors)), i);
      (ks < 0 ==> r.original == s.rows[i].original && r.gfile == s.rows[i].gfile) &&
      (ks >= 0 ==> r.original == b.successes[ks].0.newName && r.gfile == b.successes[ks].1) &&
      (ke < 0 ==> r.icon == s.rows[i].icon && r.tooltip == s.rows[i].tooltip) &&
      (ke >= 0 ==> r.icon == Some(StockDialogError) && r.tooltip == Some(ErrorTooltip(b.errors[ke].1))) &&
      r.(original := s.rows[i].original, gfile := s.rows[i].gfile,
         icon := s.rows[i].icon, tooltip := s.rows[i].tooltip) == s.rows[i]
  {
    EntryOutcomesIn(b, |s.rows|);
    var applied := ApplySuccesses(s.rows, b.successes);
    ApplySuccessesAt(s.rows, b.successes, i);
    MarkFailuresAt(applied, EntryFailures(b.errors), i);
  }

  /** Only successes are recorded in the rename data, which is all undo and redo
      replay: a single-pass completion extends it by the (folder, old, new) of its
      successes and of nothing else. */
  lemma SinglePassRecordsOnlySuccesses(s: State, b: Batch<Entry>)
    requires EntryBatchIn(b, |s.rows|)
    ensures var r := SinglePassDone(s, b).results;
      r.renameData[..|s.results.renameData|] == s.results.renameData &&
      forall t :: t in r.renameData[|s.results.renameData|..] ==>
        exists k :: 0 <= k < |b.successes| &&
          t == Triple(b.successes[k].0.folder, b.successes[k].0.oldName, b.successes[k].0.newName)
  {
    var r := SinglePassDone(s, b).results;
    assert r.renameData[|s.results.renameData|..] == RenameDataOf(b.successes);
    forall t | t in RenameDataOf(b.successes)
      ensures exists k ::
        0 <= k < |b.successes| &&
        t == Triple(b.successes[k].0.folder, b.successes[k].0.oldName, b.successes[k].0.newName)
    {
      var k :| 0 <= k < |b.successes| && RenameDataOf(b.successes)[k] == t;
    }
  }

  /** When the user data of a batch are distinct (as the row numbers of a map
      built from the model are), no failed rename is among the successes. */
  lemma FailedRenamesNotRecorded(b: Batch<Entry>, e: Entry)
    requires Accounted(b)[e] <= 1
    requires e in PairData(b.errors)
    ensures forall k :: 0 <= k < |b.successes| ==> b.successes[k].0 != e
  {
    FailedNotSucceeded(b, e);
    forall k | 0 <= k < |b.successes|
      ensures b.successes[k].0 != e
    {
      assert PairData(b.successes)[k] == b.successes[k].0;
    }
  }

  /** Two pass: the final pass renames exactly the files whose temporary rename
      succeeded, each from its new GFile to the preview of its row, so a failure in
      the temporary pass stops that file there. */
  lemma FinalPassTargetsPreviews(rows: seq<Row>, prefix: string, b: Batch<nat>)
    requires Accounted(b) == Accounted(Started(TemporaryRenameMap(rows, prefix)))
    ensures IdsIn(b.successes, |rows|)
    ensures var m := FinalMap(rows, b.successes);
      |m| == |b.successes| &&
      forall k :: 0 <= k < |m| ==>
        m[k].data == b.successes[k].0 && m[k].gfile == b.successes[k].1 &&
        rows[m[k].data].original != rows[m[k].data].preview &&
        m[k].newName == rows[m[k].data].preview
  {
    var t := TemporaryRenameMap(rows, prefix);
    TemporaryRenameMapShape(rows, prefix);
    OutcomesAccounted(b);
    forall k | 0 <= k < |b.successes|
      ensures b.successes[k].0 < |rows| && rows[b.successes[k].0].original != rows[b.successes[k].0].preview
    {
      StartedAccounted(t, b.successes[k].0);
    }
  }

  /** When no temporary rename succeeds, the final pass is an empty map: none of its
      completions can happen, so the caller's done callback is never called. */
  lemma NoTemporarySuccessNoCallback(rows: seq<Row>, uris: seq<string>, outcomes: seq<Outcome>)
    requires |uris| == |outcomes|
    ensures Started(FinalMap(rows, [])).inflight == []
    ensures Deliver(Started(FinalMap(rows, [])), uris, outcomes).0 == Started(FinalMap(rows, []))
    ensures forall k :: 0 <= k < |uris| ==> Deliver(Started(FinalMap(rows, [])), uris, outcomes).1[k] == NoSuchOperation
  {
    EmptyStaysSilent(Started(FinalMap(rows, [])), uris, outcomes);
  }

  /** As written, every entry of the rename-back map carries the row of the last
      error (the loop variable `id` of the marking loop) instead of its own row:
      with errors on rows 0 and 1, the entry for row 0 carries row 1. */
  lemma RenameBackUsesLastErrorRow(rows: seq<Row>, m0: string, m1: string)
    requires |rows| >= 2
    ensures var errors := [(0, m0), (1, m1)];
      var m := RenameBackMap(rows, errors, errors[|errors| - 1].0);
      m[0].gfile == rows[0].gfile && m[0].data == 1 && m[1].data == 1
  {
    var errors: seq<(nat, string)> := [(0, m0), (1, m1)];
    var m := RenameBackMap(rows, errors, 1);
    assert m[0] in m && m[1] in m;
  }

  /** So the errors of the rename back are all marked on that one row: every other
      row keeps the marks the final pass left. */
  lemma RenameBackMarksOneRow(rows: seq<Row>, errors: seq<(nat, string)>, id: nat, i: nat)
    requires IdsIn(errors, |rows|) && i < |rows| && i != id
    requires forall k :: 0 <= k < |errors| ==> errors[k].0 == id
    ensures MarkFailures(rows, RowFailures(errors))[i] == rows[i]
  {
    MarkFailuresAt(rows, RowFailures(errors), i);
  }

  /** A single-pass rename only ever calls its callback with one argument and a
      two-pass rename with three; so a single-pass rename started by the application
      (whose handler takes three) and a two-pass undo or redo (whose closure takes
      one) never reach their callback without a TypeError. */
  lemma CallsMismatchCallers(r: Rename)
    requires r.Valid()
    ensures !r.twoPass && r.callback == TakesThree ==> forall k :: 0 <= k < |r.calls| ==> !Accepts(r.callback, r.calls[k])
    ensures r.twoPass && r.callback == TakesOne ==> forall k :: 0 <= k < |r.calls| ==> !Accepts(r.callback, r.calls[k])
    ensures r.callback == NoCallback ==> forall k :: 0 <= k < |r.calls| ==> !Accepts(r.callback, r.calls[k])
  {
  }

  /** `_set_up_list` as a specification: old and new name swapped in every entry. */
  function Inverted(data: seq<Triple>): (r: seq<Triple>)
    ensures |r| == |data|
    ensures forall k :: 0 <= k < |data| ==>
      r[k] == Triple(data[k].folder, data[k].newName, data[k].oldName)
  {
    seq(|data|, k requires 0 <= k < |data| => Triple(data[k].folder, data[k].newName, data[k].oldName))
  }

  /** Swapping twice gives the list back: the redo of an undo replays the rename. */
  lemma InvertedInvolution(data: seq<Triple>)
    ensures Inverted(Inverted(data)) == data
  {
    assert forall k :: 0 <= k < |data| ==> Inverted(Inverted(data))[k] == data[k];
  }

  /** The undo of a single-pass rename renames every renamed file folder + new back
      to its old name, with the row that now holds folder + new. */
  lemma UndoRenamesBack(rows: seq<Row>, data: seq<Triple>, j: nat)
    requires j < |data| && data[j].oldName != data[j].newName
    ensures Request(data[j].folder + data[j].newName, data[j].oldName,
      Entry(FirstRowWithGfile(rows, data[j].folder + data[j].newName), data[j].folder, data[j].newName, data[j].oldName))
      in ListRenameMap(rows, Inverted(data))
  {
    ListRenameMapShape(rows, Inverted(data));
    assert Inverted(data)[j] == Triple(data[j].folder, data[j].newName, data[j].oldName);
  }

  /** A two-pass undo or redo ignores the swapped list and starts from the model as
      it is: when no row of the model has a preview differing from its name, its first
      pass renames nothing. */
  lemma TwoPassUndoOfSettledModel(rows: seq<Row>, prefix: string)
    requires forall i :: 0 <= i < |rows| ==> rows[i].original == rows[i].preview
    ensures TemporaryRenameMap(rows, prefix) == []
  {
    KeptNone(rows, Changes);
  }

  /** A handler of the application given to set_done_callback. */
  datatype Handler = OnUndoRenameCompleted | OnRedoRenameCompleted

  /** What the closure `_rename_done_cb` of undo and redo does with a call: it
      stores the results and calls the handler with (results, action); the handler
      takes (num_renames, num_errors, undo_action), so that call raises TypeError.
      Without a handler the call raises TypeError too; a call with three arguments
      raises TypeError before the closure runs. */
  datatype Forwarded =
    | HandlerCalledWithTwo(handler: Handler, results: RenameResults)
    | NoHandler
    | ClosureArityError

  /** RenameUndoAction */
  class RenameUndoAction {
    var renameResults: RenameResults
    var doneCallback: Option<Handler>

    constructor (renameResults: RenameResults)
      ensures this.renameResults == renameResults && doneCallback == None
    {
      this.renameResults := renameResults;
      doneCallback := None;
    }

    method SetDoneCallback(callback: Handler)
      modifies this
      ensures doneCallback == Some(callback) && renameResults == old(renameResults)
    {
      doneCallback := Some(callback);
    }

    /** `_set_up_list`: the rename data with old and new name swapped. */
    method SetUpList() returns (renameMap: seq<Triple>)
      ensures renameMap == Inverted(renameResults.renameData)
    {
      renameMap := [];
      var data := renameResults.renameData;
      var ii := 0;
      while ii < |data|
        invariant 0 <= ii <= |data|
        invariant |renameMap| == ii
        invariant forall k :: 0 <= k < ii ==> renameMap[k] == Triple(data[k].folder, data[k].newName, data[k].oldName)
      {
        var t := data[ii];
        renameMap := renameMap + [Triple(t.folder, t.newName, t.oldName)];
        ii := ii + 1;
      }
    }

    /** undo: a new Rename of the model with the swapped list, reporting to the
        closure; redo does exactly the same. */
    method Undo(pid: nat) returns (rename: Rename)
      ensures fresh(rename)
      ensures rename.model == renameResults.model && rename.twoPass == renameResults.twoPass
      ensures rename.callback == TakesOne
      ensures !rename.twoPass ==>
        rename.single == Started(ListRenameMap(renameResults.model.rows, Inverted(renameResults.renameData))) &&
        rename.passes == []
      ensures rename.twoPass ==>
        rename.single == Started([]) &&
        rename.passes == [Pass(ToTemporary, Started(TemporaryRenameMap(renameResults.model.rows, TwoPassPrefix(pid))))]
      ensures rename.Valid()
    {
      var list := SetUpList();
      rename := new Rename(renameResults.model, renameResults.twoPass, TakesOne, Some(list), pid);
    }

    method Redo(pid: nat) returns (rename: Rename)
      ensures fresh(rename)
      ensures rename.model == renameResults.model && rename.twoPass == renameResults.twoPass
      ensures rename.callback == TakesOne
      ensures !rename.twoPass ==>
        rename.single == Started(ListRenameMap(renameResults.model.rows, Inverted(renameResults.renameData))) &&
        rename.passes == []
      ensures rename.twoPass ==>
        rename.single == Started([]) &&
        rename.passes == [Pass(ToTemporary, Started(TemporaryRenameMap(renameResults.model.rows, TwoPassPrefix(pid))))]
      ensures rename.Valid()
    {
      rename := Undo(pid);
    }

    /** The closure `_rename_done_cb` of undo and redo, called by the Rename. */
    method RenameDone(call: DoneCall) returns (forwarded: Forwarded)
      modifies this
      ensures doneCallback == old(doneCallback)
      ensures call.OneArg? ==> renameResults == call.results
      ensures call.OneArg? ==>
        forwarded == (if doneCallback.None? then NoHandler else HandlerCalledWithTwo(doneCallback.value, call.results))
      ensures call.ThreeArgs? ==> renameResults == old(renameResults) && forwarded == ClosureArityError
    {
      if call.ThreeArgs? {
        forwarded := ClosureArityError;
      } else {
        renameResults := call.results;
        forwarded := if doneCallback.None? then NoHandler else HandlerCalledWithTwo(doneCallback.value, call.results);
      }
    }
  }
}
