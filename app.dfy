/** The application logic of gnome-bulk-rename/gnomebulkrenameapp.py that is not
    widget construction: the folder of a dropped URI, adding dropped files to the
    files model without doubles, the rename-button rule, the undo policy of the
    completion handlers, the priority order of the previews and the restored
    preview selection. */
module App {
  import opened Rows
  import opened Undo
  import Check
  import R = Rename
  import RB = RenameBatch
  import RM = RenameMap

  // ---------------------------------------------------------------------------
  // __get_uri_dirname
  // ---------------------------------------------------------------------------

  /** What __get_uri_dirname gives back: the folder URI, ValueError when no '/'
      is left, or IndexError from `uri[-1]` on an empty URI. */
  datatype Dirname = Dirname(dir: string) | NoSlash | EmptyUri

  /** The URI with one trailing '/' removed (a folder's own URI). */
  function WithoutTrailingSlash(uri: string): string
  {
    if uri != [] && uri[|uri| - 1] == '/' then uri[..|uri| - 1] else uri
  }

  /** str.rfind("/"): the index of the last '/', or -1. */
  function LastSlash(s: string): (i: int)
    ensures -1 <= i < |s|
    ensures i >= 0 ==> s[i] == '/'
    ensures forall k :: i < k < |s| ==> s[k] != '/'
  {
    if s == [] then -1
    else if s[|s| - 1] == '/' then |s| - 1
    else LastSlash(s[..|s| - 1])
  }

  /** __get_uri_dirname: everything up to and including the last '/' of the URI,
      after one trailing '/' has been dropped. */
  function UriDirname(uri: string): (r: Dirname)
    ensures r == EmptyUri <==> uri == []
    ensures r == NoSlash <==> uri != [] && NoSlashIn(WithoutTrailingSlash(uri), 0)
    ensures r.Dirname? ==> var u := WithoutTrailingSlash(uri);
      0 < |r.dir| <= |u| && r.dir == u[..|r.dir|] && r.dir[|r.dir| - 1] == '/' && NoSlashIn(u, |r.dir|)
  {
    if uri == [] then EmptyUri
    else
      var u := WithoutTrailingSlash(uri);
      var idx := LastSlash(u);
      if idx == -1 then NoSlash
      else
        assert u[..idx] + "/" == u[..idx + 1];
        Dirname(u[..idx] + "/")
  }

  /** No '/' in `s` from index `from` on. */
  predicate NoSlashIn(s: string, from: int)
  {
    forall k :: 0 <= k < |s| && from <= k ==> s[k] != '/'
  }

  /** The folder of a file, or of a subfolder given with or without its trailing
      '/', is the folder URI the engine later puts in front of the file's name. */
  lemma DirnameOfEntry(folder: string, name: string)
    requires folder != [] && folder[|folder| - 1] == '/'
    requires name != [] && '/' !in name[..|name| - 1]
    ensures UriDirname(folder + name) == Dirname(folder)
  {
    var uri := folder + name;
    var u := WithoutTrailingSlash(uri);
    var stem := if name[|name| - 1] == '/' then name[..|name| - 1] else name;
    assert '/' !in stem by {
      assert stem == name[..|name| - 1] || stem == name[..|name| - 1] + [name[|name| - 1]];
    }
    assert u == folder + stem;
    assert u[|folder| - 1] == '/';
    assert LastSlash(u) == |folder| - 1 by {
      SlashAt(u, |folder| - 1);
    }
    assert u[..|folder| - 1] + "/" == folder;
  }

  /** LastSlash finds the '/' after which there is none. */
  lemma {:induction false} SlashAt(s: string, i: nat)
    requires i < |s| && s[i] == '/' && NoSlashIn(s, i + 1)
    ensures LastSlash(s) == i
    decreases |s|
  {
    if i < |s| - 1 {
      SlashAt(s[..|s| - 1], i);
    }
  }

  // ---------------------------------------------------------------------------
  // _is_file_in_model / _add_to_files_model
  // ---------------------------------------------------------------------------

  /** Some row of the model already holds this file. */
  predicate InModel(rows: seq<Row>, gfile: string)
  {
    exists i :: 0 <= i < |rows| && rows[i].gfile == gfile
  }

  /** The row added for a dropped file: its edit name, empty preview and markup,
      the file, no problem marks, and its folder. */
  function NewRow(gfile: string, name: string, dir: string): Row
  {
    Row(name, "", "", "", gfile, None, None, dir)
  }

  /** The row a dropped URI contributes, if any: none when the model already holds
      the file, when its URI has no folder (ValueError, caught and logged), or
      when an uncaught error is raised for it (query_info fails, `editName` is None,
      or `uri[-1]` fails on an empty URI); those abort the whole drop, see
      `DropFails`. */
  function Candidate(rows: seq<Row>, uri: string, editName: string -> Option<string>): (r: seq<Row>)
    ensures |r| <= 1
    ensures r != [] <==> !InModel(rows, uri) && editName(uri).Some? && UriDirname(uri).Dirname?
    ensures r != [] ==> r[0] == NewRow(uri, editName(uri).value, UriDirname(uri).dir)
  {
    if InModel(rows, uri) then []
    else if editName(uri).None? then []
    else match UriDirname(uri)
      case Dirname(d) => [NewRow(uri, editName(uri).value, d)]
      case _ => []
  }

  /** For a dropped file that is not in the model, query_info raises gio.Error, or
      __get_uri_dirname raises IndexError on an empty URI: only ValueError is
      caught, so the drop adds no row at all. */
  predicate AddRaises(rows: seq<Row>, uri: string, editName: string -> Option<string>)
  {
    !InModel(rows, uri) && (editName(uri).None? || UriDirname(uri) == EmptyUri)
  }

  predicate DropFails(rows: seq<Row>, uris: seq<string>, editName: string -> Option<string>)
    decreases |uris|
  {
    uris != [] &&
    (DropFails(rows, uris[..|uris| - 1], editName) || AddRaises(rows, uris[|uris| - 1], editName))
  }

  /** A drop fails exactly when an uncaught error is raised for one of its files
      that is not in the model. */
  lemma {:induction false} DropFailsIff(rows: seq<Row>, uris: seq<string>, editName: string -> Option<string>)
    ensures DropFails(rows, uris, editName) <==> exists k :: 0 <= k < |uris| && AddRaises(rows, uris[k], editName)
    decreases |uris|
  {
    if uris != [] {
      var init := uris[..|uris| - 1];
      DropFailsIff(rows, init, editName);
      assert forall k :: 0 <= k < |init| ==> init[k] == uris[k];
    }
  }

  /** files_to_add: the candidates of the URIs, in the order they were dropped.
      Every URI is checked against the rows the model had before the drop. */
  function RowsToAdd(rows: seq<Row>, uris: seq<string>, editName: string -> Option<string>): seq<Row>
    decreases |uris|
  {
    if uris == [] then []
    else RowsToAdd(rows, uris[..|uris| - 1], editName) + Candidate(rows, uris[|uris| - 1], editName)
  }

  /** Every added row is a new row for one of the dropped files, and that file was
      not in the model. */
  lemma {:induction false} AddedRowsAreNew(rows: seq<Row>, uris: seq<string>, editName: string -> Option<string>)
    ensures forall r :: r in RowsToAdd(rows, uris, editName) ==>
      r.gfile in uris && !InModel(rows, r.gfile) && editName(r.gfile).Some? && UriDirname(r.gfile).Dirname? &&
      r == NewRow(r.gfile, editName(r.gfile).value, UriDirname(r.gfile).dir)
    decreases |uris|
  {
    if uris != [] {
      var init := uris[..|uris| - 1];
      AddedRowsAreNew(rows, init, editName);
      forall r | r in RowsToAdd(rows, uris, editName)
        ensures r.gfile in uris
      {
        if r in RowsToAdd(rows, init, editName) {
          assert r.gfile in init;
        }
      }
    }
  }

  /** Every dropped file that was not in the model and has an edit name and a
      folder gets a row. */
  lemma {:induction false} AddedRowsComplete(rows: seq<Row>, uris: seq<string>, editName: string -> Option<string>, k: nat)
    requires k < |uris|
    requires !InModel(rows, uris[k]) && editName(uris[k]).Some? && UriDirname(uris[k]).Dirname?
    ensures InModel(RowsToAdd(rows, uris, editName), uris[k])
    decreases |uris|
  {
    var init := uris[..|uris| - 1];
    var added := RowsToAdd(rows, uris, editName);
    if k == |uris| - 1 {
      assert added[|added| - 1].gfile == uris[k];
    } else {
      assert uris[k] == init[k];
      AddedRowsComplete(rows, init, editName, k);
      var i :| 0 <= i < |RowsToAdd(rows, init, editName)| && RowsToAdd(rows, init, editName)[i].gfile == uris[k];
      assert added[i] == RowsToAdd(rows, init, editName)[i];
    }
  }

  /** Rows are added in drop order: the rows of two drops' worth of URIs are the
      rows of the first followed by those of the second. */
  lemma {:induction false} RowsToAddAppend(rows: seq<Row>, a: seq<string>, b: seq<string>, editName: string -> Option<string>)
    ensures RowsToAdd(rows, a + b, editName) == RowsToAdd(rows, a, editName) + RowsToAdd(rows, b, editName)
    decreases |b|
  {
    if b != [] {
      var b' := b[..|b| - 1];
      assert (a + b)[..|a + b| - 1] == a + b';
      assert (a + b)[|a + b| - 1] == b[|b| - 1];
      RowsToAddAppend(rows, a, b', editName);
      var last := Candidate(rows, b[|b| - 1], editName);
      assert RowsToAdd(rows, a + b, editName) == RowsToAdd(rows, a + b', editName) + last;
      assert RowsToAdd(rows, b, editName) == RowsToAdd(rows, b', editName) + last;
    } else {
      assert a + b == a;
    }
  }

  /** Dropping the same files again adds nothing: every file added by the first
      drop, or already there before it, is now in the model. */
  lemma DropTwiceAddsNothing(rows: seq<Row>, uris: seq<string>, editName: string -> Option<string>)
    ensures RowsToAdd(rows + RowsToAdd(rows, uris, editName), uris, editName) == []
  {
    var rows' := rows + RowsToAdd(rows, uris, editName);
    forall k | 0 <= k < |uris|
      ensures Candidate(rows', uris[k], editName) == []
    {
      if !InModel(rows, uris[k]) && editName(uris[k]).Some? && UriDirname(uris[k]).Dirname? {
        AddedRowsComplete(rows, uris, editName, k);
        var added := RowsToAdd(rows, uris, editName);
        var i :| 0 <= i < |added| && added[i].gfile == uris[k];
        assert rows'[|rows| + i] == added[i];
      } else if InModel(rows, uris[k]) {
        var i :| 0 <= i < |rows| && rows[i].gfile == uris[k];
        assert rows'[i] == rows[i];
      }
    }
    NoCandidatesNoRows(rows', uris, editName);
  }

  lemma {:induction false} NoCandidatesNoRows(rows: seq<Row>, uris: seq<string>, editName: string -> Option<string>)
    requires forall k :: 0 <= k < |uris| ==> Candidate(rows, uris[k], editName) == []
    ensures RowsToAdd(rows, uris, editName) == []
    decreases |uris|
  {
    if uris != [] {
      var init := uris[..|uris| - 1];
      assert forall k :: 0 <= k < |init| ==> init[k] == uris[k];
      NoCandidatesNoRows(rows, init, editName);
    }
  }

  /** Doubles are only looked for among the rows already in the model: the same
      URI twice in one drop is added twice. */
  lemma DoubleInOneDrop()
    ensures var editName := (u: string) => Some("b");
      RowsToAdd([], ["file:///a/b", "file:///a/b"], editName) ==
        [NewRow("file:///a/b", "b", "file:///a/"), NewRow("file:///a/b", "b", "file:///a/")]
  {
    var editName := (u: string) => Some("b");
    DirnameOfEntry("file:///a/", "b");
    assert "file:///a/" + "b" == "file:///a/b";
    assert ["file:///a/b", "file:///a/b"][..1] == ["file:///a/b"];
    assert ["file:///a/b"][..0] == [];
  }

  // ---------------------------------------------------------------------------
  // _update_rename_button_sensitivity
  // ---------------------------------------------------------------------------

  /** What the rename button looks at in the checker. */
  datatype CheckerSummary = CheckerSummary(allNamesStayTheSame: bool, highestProblemLevel: int)

  /** The rename button is enabled unless there is a checker and either no name
      changes or some problem is worse than a warning. */
  function RenameButtonSensitive(checker: Option<CheckerSummary>): (sensitive: bool)
    ensures !sensitive <==>
      checker.Some? && (checker.value.allNamesStayTheSame || checker.value.highestProblemLevel > 1)
  {
    !(checker.Some? && (checker.value.allNamesStayTheSame || checker.value.highestProblemLevel > 1))
  }

  /** Two rows with the same new name make check_for_double_targets report level
      2, and a checker that reports it disables the rename button. */
  lemma DoubleTargetsDisableRename(rows: seq<Row>, same: bool, i: nat, j: nat)
    requires i < j < |rows| && rows[i].preview == rows[j].preview
    ensures !RenameButtonSensitive(Some(CheckerSummary(same,
      if Check.HasDouble(Check.Previews(rows)) then 2 else 0)))
  {
    var names := Check.Previews(rows);
    Check.TwinHasLongPositions(names, i) by {
      assert Check.HasTwin(names, i) by {
        assert names[j] == names[i];
      }
    }
    Check.ProblemLevelMeansFlagged(rows);
  }

  // ---------------------------------------------------------------------------
  // _collect_previews
  // ---------------------------------------------------------------------------

  /** A preview class: its short description and its priority, if it has one. */
  datatype PreviewClass = PreviewClass(name: string, shortDescription: string, priority: Option<real>)

  /** A row of the previews combo box: description, preview class, priority. */
  datatype Choice = Choice(description: string, preview: string, priority: real)

  /** A class without a `priority` attribute gets 0.5. */
  function ChoiceOf(p: PreviewClass): (c: Choice)
    ensures c.description == p.shortDescription && c.preview == p.name
    ensures c.priority == if p.priority.Some? then p.priority.value else 0.5
  {
    Choice(p.shortDescription, p.name, if p.priority.Some? then p.priority.value else 0.5)
  }

  predicate SortedByPriority(s: seq<Choice>)
  {
    forall i, j :: 0 <= i < j < |s| ==> s[i].priority <= s[j].priority
  }

  /** The index of the first row with a higher priority, or the row count. */
  function FirstAbove(s: seq<Choice>, priority: real): (i: nat)
    ensures i <= |s|
    ensures forall k :: 0 <= k < i ==> s[k].priority <= priority
    ensures i < |s| ==> s[i].priority > priority
  {
    if s == [] || s[0].priority > priority then 0 else 1 + FirstAbove(s[1..], priority)
  }

  /** FirstAbove is the one index with only lower or equal priorities before it
      and a higher one at it. */
  lemma {:induction false} FirstAboveIs(s: seq<Choice>, priority: real, i: nat)
    requires i <= |s|
    requires forall k :: 0 <= k < i ==> s[k].priority <= priority
    requires i < |s| ==> s[i].priority > priority
    ensures FirstAbove(s, priority) == i
    decreases i
  {
    if i > 0 {
      FirstAboveIs(s[1..], priority, i - 1);
    }
  }

  /** One preview inserted before the first row of higher priority, or appended. */
  function Insert(s: seq<Choice>, c: Choice): seq<Choice>
  {
    var i := FirstAbove(s, c.priority);
    s[..i] + [c] + s[i..]
  }

  /** The previews inserted one after the other, in discovery order. */
  function InsertAll(s: seq<Choice>, cs: seq<Choice>): seq<Choice>
    decreases |cs|
  {
    if cs == [] then s else Insert(InsertAll(s, cs[..|cs| - 1]), cs[|cs| - 1])
  }

  /** Where Insert puts each row. */
  lemma InsertAt(s: seq<Choice>, c: Choice)
    ensures var i := FirstAbove(s, c.priority);
      var r := Insert(s, c);
      |r| == |s| + 1 && r[i] == c &&
      (forall k :: 0 <= k < i ==> r[k] == s[k]) &&
      (forall k :: i <= k < |s| ==> r[k + 1] == s[k])
  {
  }

  /** Inserting into a sorted combo box keeps it sorted; the new row comes after
      every row of equal or lower priority and before every row of higher priority,
      so that equal priorities stay in discovery order. */
  lemma InsertSorted(s: seq<Choice>, c: Choice)
    requires SortedByPriority(s)
    ensures SortedByPriority(Insert(s, c))
    ensures var i := FirstAbove(s, c.priority);
      (forall k :: 0 <= k < i ==> s[k].priority <= c.priority) &&
      (forall k :: i <= k < |s| ==> s[k].priority > c.priority)
  {
    InsertAt(s, c);
    SortedAfterInsert(s, c, FirstAbove(s, c.priority), Insert(s, c));
  }

  lemma SortedAfterInsert(s: seq<Choice>, c: Choice, i: nat, r: seq<Choice>)
    requires SortedByPriority(s) && i <= |s|
    requires forall k :: 0 <= k < i ==> s[k].priority <= c.priority
    requires i < |s| ==> s[i].priority > c.priority
    requires |r| == |s| + 1 && r[i] == c
    requires forall k :: 0 <= k < i ==> r[k] == s[k]
    requires forall k :: i <= k < |s| ==> r[k + 1] == s[k]
    ensures SortedByPriority(r)
    ensures forall k :: i <= k < |s| ==> s[k].priority > c.priority
  {
    forall k | i <= k < |s|
      ensures s[k].priority > c.priority
    {
      assert s[i].priority <= s[k].priority;
    }
    forall a, b | 0 <= a < b < |r|
      ensures r[a].priority <= r[b].priority
    {
      if a > i {
        assert r[a] == s[a - 1] && r[b] == s[b - 1];
      } else if a == i {
        assert r[b] == s[b - 1];
      } else if b > i {
        assert r[b] == s[b - 1];
      }
    }
  }

  /** Inserting adds exactly the new row. */
  lemma InsertAdds(s: seq<Choice>, c: Choice)
    ensures multiset(Insert(s, c)) == multiset(s) + multiset{c}
  {
    var i := FirstAbove(s, c.priority);
    assert s == s[..i] + s[i..];
  }

  /** The combo box after _collect_previews is sorted by priority and holds
      exactly its old rows and the new ones. */
  lemma {:induction false} InsertAllSorted(s: seq<Choice>, cs: seq<Choice>)
    requires SortedByPriority(s)
    ensures SortedByPriority(InsertAll(s, cs))
    ensures multiset(InsertAll(s, cs)) == multiset(s) + multiset(cs)
    decreases |cs|
  {
    if cs != [] {
      var init, c := cs[..|cs| - 1], cs[|cs| - 1];
      var r := InsertAll(s, init);
      assert InsertAll(s, cs) == Insert(r, c);
      InsertAllSorted(s, init);
      InsertSorted(r, c);
      InsertAdds(r, c);
      assert cs == init + [c];
      assert multiset(cs) == multiset(init) + multiset{c};
    }
  }

  /** Appending the next element of f after a prefix of f. */
  lemma AppendNext<T>(a: seq<T>, f: seq<T>, j: nat)
    requires j < |f|
    ensures a + f[..j] + [f[j]] == a + f[..j + 1]
  {
    assert f[..j + 1] == f[..j] + [f[j]];
  }

  // ---------------------------------------------------------------------------
  // The completion handlers and their undo policy
  // ---------------------------------------------------------------------------

  /** A rename that renamed nothing leaves nothing to redo: undoing it drops the
      action from both stacks. */
  lemma UndoOfNothingDropsAction<A>(s: Stacks<A>, a: A)
    ensures var pushed := Step(s, PushOp(a)).0;
      Step(pushed, UndoOp) == (Stacks(s.undo, []), Some(a))
  {
    assert (s.undo + [a])[..|s.undo|] == s.undo;
  }

  /** Rename, undo and redo, each completing with renames done, give back the
      stacks after the rename, and each click acts on the same action. */
  lemma UndoRedoRoundTrip<A>(s: Stacks<A>, a: A)
    ensures var afterRename := Step(s, PushOp(a)).0;
      var (afterUndoClick, undone) := Step(afterRename, UndoOp);
      var afterUndo := Step(afterUndoClick, PushToRedoOp(a)).0;
      var (afterRedoClick, redone) := Step(afterUndo, RedoOp);
      undone == Some(a) && redone == Some(a) &&
      afterUndo == Stacks(s.undo, [a]) &&
      Step(afterRedoClick, PushOp(a)).0 == afterRename
  {
    assert (s.undo + [a])[..|s.undo|] == s.undo;
    assert ([] + [a])[..0] == [];
  }

  /** How `_on_rename_completed(num_renames, num_errors, undo_action)` ends when a
      Rename calls it: with one argument it raises TypeError; with three its third
      argument is the RenameResults, which has no set_done_callback, so it raises
      AttributeError. Either way it stops before pushing anything. */
  datatype CompletionError = ArityTypeError | NoSetDoneCallback

  function RenameCompletedWith(call: R.DoneCall): (e: CompletionError)
    ensures e == ArityTypeError <==> call.OneArg?
    ensures e == NoSetDoneCallback <==> call.ThreeArgs?
  {
    match call
    case OneArg(_) => ArityTypeError
    case ThreeArgs(_, _, _) => NoSetDoneCallback
  }

  /** Every call a Rename makes ends the application's completion handler in an
      error, TypeError for a single pass and AttributeError for two passes: no
      rename ever reaches the undo stack. */
  lemma NoRenameReachesUndoStack(r: R.Rename, k: nat)
    requires r.Valid() && k < |r.calls|
    ensures RenameCompletedWith(r.calls[k]) == if r.twoPass then NoSetDoneCallback else ArityTypeError
  {
  }

  // ---------------------------------------------------------------------------
  // The application object
  // ---------------------------------------------------------------------------

  class Application {
    const model: FilesModel
    const undo: UndoStack<R.RenameUndoAction>
    /** The rows of the previews combo box. */
    var previews: seq<Choice>
    /** The active row of the combo box, -1 for none. */
    var active: int
    var checker: Option<CheckerSummary>

    constructor (model: FilesModel, undo: UndoStack<R.RenameUndoAction>)
      ensures this.model == model && this.undo == undo
      ensures previews == [] && active == -1 && checker == None
    {
      this.model := model;
      this.undo := undo;
      previews := [];
      active := -1;
      checker := None;
    }

    /** _is_file_in_model: whether some row holds a file equal to the given one. */
    method IsFileInModel(gfile: string) returns (found: bool)
      ensures found <==> InModel(model.rows, gfile)
    {
      var ii := 0;
      while ii < |model.rows|
        invariant 0 <= ii <= |model.rows|
        invariant forall k :: 0 <= k < ii ==> model.rows[k].gfile != gfile
      {
        if model.rows[ii].gfile == gfile {
          return true;
        }
        ii := ii + 1;
      }
      return false;
    }

    /** _add_to_files_model: collects the rows of the dropped files that are not
        in the model yet, then appends them. The edit name of each file's info is
        a parameter, None when query_info raises gio.Error. When that or the
        IndexError of an empty URI escapes, `raised` is true and the model is
        unchanged. */
    method AddToFilesModel(uris: seq<string>, editName: string -> Option<string>) returns (raised: bool)
      modifies model
      ensures raised <==> DropFails(old(model.rows), uris, editName)
      ensures model.rows == if raised then old(model.rows) else old(model.rows) + RowsToAdd(old(model.rows), uris, editName)
    {
      var found := FilesToAdd(uris, editName);
      if found.None? {
        return true;
      }
      raised := false;
      var filesToAdd := found.value;
      ghost var rows0 := model.rows;
      var jj := 0;
      while jj < |filesToAdd|
        invariant 0 <= jj <= |filesToAdd|
        invariant model.rows == rows0 + filesToAdd[..jj]
      {
        AppendNext(rows0, filesToAdd, jj);
        model.rows := model.rows + [filesToAdd[jj]];
        jj := jj + 1;
      }
      assert filesToAdd[..jj] == filesToAdd;
    }

    /** The checking-for-doubles loop of _add_to_files_model: None when query_info
        or __get_uri_dirname raises an uncaught error for a file not in the model. */
    method FilesToAdd(uris: seq<string>, editName: string -> Option<string>) returns (found: Option<seq<Row>>)
      ensures found.None? <==> DropFails(model.rows, uris, editName)
      ensures found.Some? ==> found.value == RowsToAdd(model.rows, uris, editName)
    {
      var filesToAdd := [];
      var ii := 0;
      while ii < |uris|
        invariant 0 <= ii <= |uris|
        invariant filesToAdd == RowsToAdd(model.rows, uris[..ii], editName)
        invariant !DropFails(model.rows, uris[..ii], editName)
      {
        var uri := uris[ii];
        assert uris[..ii + 1][..ii] == uris[..ii];
        var inModel := IsFileInModel(uri);
        if !inModel {
          var name := editName(uri);
          if name.None? {
            DropFailsIff(model.rows, uris, editName);
            assert AddRaises(model.rows, uris[ii], editName);
            return None;
          }
          var dir := UriDirname(uri);
          if dir == EmptyUri {
            DropFailsIff(model.rows, uris, editName);
            assert AddRaises(model.rows, uris[ii], editName);
            return None;
          }
          if dir.Dirname? {
            filesToAdd := filesToAdd + [NewRow(uri, name.value, dir.dir)];
          }
        }
        ii := ii + 1;
      }
      assert uris[..ii] == uris;
      found := Some(filesToAdd);
    }

    method UpdateRenameButtonSensitivity() returns (sensitive: bool)
      ensures sensitive == RenameButtonSensitive(checker)
    {
      sensitive := true;
      if checker.Some? && (checker.value.allNamesStayTheSame || checker.value.highestProblemLevel > 1) {
        sensitive := false;
      }
    }

    /** _on_rename_completed, given an undo action: the action is always pushed, and
        it will report its undo to _on_undo_rename_completed. No Rename passes it
        one (`NoRenameReachesUndoStack`). */
    method OnRenameCompleted(numRenames: nat, numErrors: nat, action: R.RenameUndoAction)
      modifies undo, action
      ensures action.doneCallback == Some(R.OnUndoRenameCompleted)
      ensures action.renameResults == old(action.renameResults)
      ensures Stacks(undo.undoStack, undo.redoStack) ==
        Step(Stacks(old(undo.undoStack), old(undo.redoStack)), PushOp(action)).0
    {
      action.SetDoneCallback(R.OnUndoRenameCompleted);
      undo.Push(action);
    }

    /** _on_undo_rename_completed: an undo that renamed something goes to the
        redo stack and will report its redo to _on_redo_rename_completed;
        otherwise the action is dropped. */
    method OnUndoRenameCompleted(numRenames: nat, numErrors: nat, action: R.RenameUndoAction)
      modifies undo, action
      ensures numRenames > 0 ==> action.doneCallback == Some(R.OnRedoRenameCompleted)
      ensures numRenames == 0 ==> action.doneCallback == old(action.doneCallback)
      ensures action.renameResults == old(action.renameResults)
      ensures Stacks(undo.undoStack, undo.redoStack) ==
        if numRenames > 0 then Step(Stacks(old(undo.undoStack), old(undo.redoStack)), PushToRedoOp(action)).0
        else Stacks(old(undo.undoStack), old(undo.redoStack))
    {
      if numRenames > 0 {
        action.SetDoneCallback(R.OnRedoRenameCompleted);
        undo.PushToRedo(action);
      }
    }

    /** _on_redo_rename_completed: a redo that renamed something is pushed back
        on the undo stack (which empties the redo stack) and will report its undo
        to _on_undo_rename_completed. */
    method OnRedoRenameCompleted(numRenames: nat, numErrors: nat, action: R.RenameUndoAction)
      modifies undo, action
      ensures numRenames > 0 ==> action.doneCallback == Some(R.OnUndoRenameCompleted)
      ensures numRenames == 0 ==> action.doneCallback == old(action.doneCallback)
      ensures action.renameResults == old(action.renameResults)
      ensures Stacks(undo.undoStack, undo.redoStack) ==
        if numRenames > 0 then Step(Stacks(old(undo.undoStack), old(undo.redoStack)), PushOp(action)).0
        else Stacks(old(undo.undoStack), old(undo.redoStack))
    {
      if numRenames > 0 {
        action.SetDoneCallback(R.OnUndoRenameCompleted);
        undo.Push(action);
      }
    }

    /** _on_undo_button_clicked: pops the last action and starts its undo, a new
        rename of the action's model reporting to the action. On an empty stack
        `pop` raises IndexError and nothing starts. */
    method OnUndoButtonClicked(pid: nat) returns (started: Option<R.Rename>)
      modifies undo
      ensures Stacks(undo.undoStack, undo.redoStack) == Step(Stacks(old(undo.undoStack), old(undo.redoStack)), UndoOp).0
      ensures old(undo.undoStack) == [] <==> started == None
      ensures started.Some? ==> var action := old(undo.undoStack)[|old(undo.undoStack)| - 1];
        var rr := action.renameResults;
        fresh(started.value) && started.value.model == rr.model &&
        started.value.twoPass == rr.twoPass && started.value.callback == R.TakesOne &&
        (!rr.twoPass ==>
          started.value.single == RB.Started(RM.ListRenameMap(rr.model.rows, R.Inverted(rr.renameData)))) &&
        (rr.twoPass ==>
          started.value.passes == [R.Pass(R.ToTemporary, RB.Started(RM.TemporaryRenameMap(rr.model.rows, RM.TwoPassPrefix(pid))))])
    {
      var action := undo.Undo();
      if action == None {
        return None;
      }
      var rename := action.value.Undo(pid);
      started := Some(rename);
    }

    /** _on_redo_button_clicked: the same with the redo stack. */
    method OnRedoButtonClicked(pid: nat) returns (started: Option<R.Rename>)
      modifies undo
      ensures Stacks(undo.undoStack, undo.redoStack) == Step(Stacks(old(undo.undoStack), old(undo.redoStack)), RedoOp).0
      ensures old(undo.redoStack) == [] <==> started == None
      ensures started.Some? ==> var action := old(undo.redoStack)[|old(undo.redoStack)| - 1];
        var rr := action.renameResults;
        fresh(started.value) && started.value.model == rr.model &&
        started.value.twoPass == rr.twoPass && started.value.callback == R.TakesOne &&
        (!rr.twoPass ==>
          started.value.single == RB.Started(RM.ListRenameMap(rr.model.rows, R.Inverted(rr.renameData)))) &&
        (rr.twoPass ==>
          started.value.passes == [R.Pass(R.ToTemporary, RB.Started(RM.TemporaryRenameMap(rr.model.rows, RM.TwoPassPrefix(pid))))])
    {
      var action := undo.Redo();
      if action == None {
        return None;
      }
      var rename := action.value.Redo(pid);
      started := Some(rename);
    }

    /** _collect_previews: each preview class, in discovery order, goes before the
        first row of higher priority, or at the end. */
    method CollectPreviews(classes: seq<PreviewClass>)
      modifies this
      ensures previews == InsertAll(old(previews), seq(|classes|, k requires 0 <= k < |classes| => ChoiceOf(classes[k])))
      ensures active == old(active) && checker == old(checker)
    {
      ghost var cs := seq(|classes|, k requires 0 <= k < |classes| => ChoiceOf(classes[k]));
      var pp := 0;
      while pp < |classes|
        invariant 0 <= pp <= |classes|
        invariant previews == InsertAll(old(previews), cs[..pp])
        invariant active == old(active) && checker == old(checker)
      {
        InsertChoice(ChoiceOf(classes[pp]));
        assert cs[..pp + 1][..pp] == cs[..pp];
        pp := pp + 1;
      }
      assert cs[..pp] == cs;
    }

    /** The inner loop of _collect_previews: the row goes before the first row of
        higher priority, or is appended when there is none. */
    method InsertChoice(c: Choice)
      modifies this
      ensures previews == Insert(old(previews), c)
      ensures active == old(active) && checker == old(checker)
    {
      var ii := 0;
      while ii < |previews|
        invariant 0 <= ii <= |previews|
        invariant forall k :: 0 <= k < ii ==> previews[k].priority <= c.priority
      {
        if previews[ii].priority > c.priority {
          FirstAboveIs(previews, c.priority, ii);
          previews := previews[..ii] + [c] + previews[ii..];
          return;
        }
        ii := ii + 1;
      }
      FirstAboveIs(previews, c.priority, ii);
      assert previews == previews[..ii] && previews[ii..] == [];
      previews := previews + [c];
    }

    /** The loop of _restore_state: the first row whose description is the saved
        one, or row 0. */
    method FindSelection(description: string) returns (tar: nat)
      ensures tar == 0 || tar < |previews|
      ensures tar < |previews| && previews[tar].description == description ==>
        forall k :: 0 <= k < tar ==> previews[k].description != description
      ensures (exists k :: 0 <= k < |previews| && previews[k].description == description) ==>
        tar < |previews| && previews[tar].description == description
      ensures (forall k :: 0 <= k < |previews| ==> previews[k].description != description) ==> tar == 0
    {
      tar := 0;
      var ii := 0;
      while ii < |previews|
        invariant 0 <= ii <= |previews|
        invariant forall k :: 0 <= k < ii ==> previews[k].description != description
      {
        if previews[ii].description == description {
          return ii;
        }
        ii := ii + 1;
      }
    }

    /** _restore_state, with the unpickled state as a parameter: None when there
        is no state file, otherwise the saved description, if any. */
    method RestoreState(state: Option<Option<string>>)
      modifies this
      ensures state == None ==> active == old(active)
      ensures state == Some(None) ==> active == 0
      ensures state.Some? && state.value.Some? ==>
        0 <= active &&
        (active < |previews| && previews[active].description == state.value.value ==>
           forall k :: 0 <= k < active ==> previews[k].description != state.value.value) &&
        ((exists k :: 0 <= k < |previews| && previews[k].description == state.value.value) ==>
           active < |previews| && previews[active].description == state.value.value) &&
        ((forall k :: 0 <= k < |previews| ==> previews[k].description != state.value.value) ==> active == 0)
      ensures previews == old(previews) && checker == old(checker)
    {
      if state == None {
        return;
      }
      var tar := 0;
      if state.value.Some? {
        tar := FindSelection(state.value.value);
      }
      active := tar;
    }
  }
}
