/** The checks of gnome-bulk-rename/check.py. They write columns 5 (icon) and
    6 (tooltip) of the files model and report a problem level: 0 for none,
    2 for an error that must block the rename. */
module Check {
  import opened Rows

  /** The message a row with a double output name gets. */
  const DoubleMessage := ErrorTooltip("Double output filepath")

  /** clear_warnings_errors: columns 5 and 6 of every row become None, nothing else changes. */
  method ClearWarningsErrors(model: FilesModel)
    modifies model
    ensures |model.rows| == |old(model.rows)|
    ensures forall i :: 0 <= i < |model.rows| ==>
      model.rows[i] == old(model.rows)[i].(icon := None, tooltip := None)
  {
    model.UpdateEachRow((ii: nat, row: Row) => row.(icon := None, tooltip := None));
  }

  /** Column 1 of every row: the list the grouping pass walks. */
  function Previews(rows: seq<Row>): (names: seq<string>)
    ensures |names| == |rows|
    ensures forall i :: 0 <= i < |rows| ==> names[i] == rows[i].preview
  {
    seq(|rows|, i requires 0 <= i < |rows| => rows[i].preview)
  }

  /** The indices below n at which f occurs in names, ascending: the list dd[f]
      after the grouping loop has walked n names. */
  function PositionsBelow(names: seq<string>, f: string, n: nat): seq<nat>
    requires n <= |names|
  {
    if n == 0 then [] else PositionsBelow(names, f, n - 1) + (if names[n - 1] == f then [n - 1] else [])
  }

  /** The indices at which f occurs in names, ascending: the list dd[f]. */
  function Positions(names: seq<string>, f: string): seq<nat>
  {
    PositionsBelow(names, f, |names|)
  }

  lemma {:induction false} PositionsBelowExact(names: seq<string>, f: string, n: nat)
    requires n <= |names|
    ensures forall k: nat :: k in PositionsBelow(names, f, n) <==> k < n && names[k] == f
    ensures forall a :: 0 <= a < |PositionsBelow(names, f, n)| ==> PositionsBelow(names, f, n)[a] < n
    ensures forall a, b :: 0 <= a < b < |PositionsBelow(names, f, n)| ==>
      PositionsBelow(names, f, n)[a] < PositionsBelow(names, f, n)[b]
  {
    if n > 0 {
      PositionsBelowExact(names, f, n - 1);
    }
  }

  /** Every index in dd[f] is the index of a row. */
  lemma PositionsInRange(names: seq<string>, f: string)
    ensures forall a :: 0 <= a < |Positions(names, f)| ==> Positions(names, f)[a] < |names|
  {
    PositionsBelowExact(names, f, |names|);
  }

  /** dd[f] holds exactly the indices of f, each once, in increasing order. */
  lemma PositionsExact(names: seq<string>, f: string)
    ensures forall k: nat :: k in Positions(names, f) <==> k < |names| && names[k] == f
    ensures forall a, b :: 0 <= a < b < |Positions(names, f)| ==>
      Positions(names, f)[a] < Positions(names, f)[b]
  {
    PositionsBelowExact(names, f, |names|);
  }

  lemma PrefixSnoc<T>(s: seq<T>, d: nat)
    requires d < |s|
    ensures s[..d + 1] == s[..d] + [s[d]]
  {
  }

  /** The row at index i has a twin: another row with the same output name. */
  predicate HasTwin(names: seq<string>, i: nat)
  {
    i < |names| && exists j :: 0 <= j < |names| && j != i && names[j] == names[i]
  }

  /** Some output name occurs at least twice. */
  predicate HasDouble(names: seq<string>)
  {
    exists i :: 0 <= i < |names| && HasTwin(names, i)
  }

  /** An index in a list dd[f] of length two or more has a twin. */
  lemma TwinInLongPositions(names: seq<string>, f: string, k: nat)
    requires |Positions(names, f)| >= 2 && k in Positions(names, f)
    ensures HasTwin(names, k)
  {
    PositionsExact(names, f);
    var p := Positions(names, f);
    var other := if p[0] == k then p[1] else p[0];
    assert other in p && other != k;
  }

  /** A row with a twin has its output name at two or more indices. */
  lemma TwinHasLongPositions(names: seq<string>, k: nat)
    requires HasTwin(names, k)
    ensures |Positions(names, names[k])| >= 2
  {
    PositionsExact(names, names[k]);
    var j :| 0 <= j < |names| && j != k && names[j] == names[k];
    var p := Positions(names, names[k]);
    assert j in p && k in p;
  }

  /** A flagged row: the error icon, and the message as the tooltip, or appended
      on a new line to the tooltip it already had. */
  function Flagged(row: Row): Row
  {
    row.(icon := Some(StockDialogError),
         tooltip := Some(if row.tooltip.None? then DoubleMessage else row.tooltip.value + "\n" + DoubleMessage))
  }

  /** The rows check_for_double_targets leaves: every row with a twin flagged once. */
  function DoubleTargets(rows: seq<Row>): seq<Row>
  {
    MapRows(rows, (i: nat, row: Row) => if HasTwin(Previews(rows), i) then Flagged(row) else row)
  }

  /** The body of the flagging loop for the row at index k: the error icon, then the
      message as the tooltip or appended to it on a new line. */
  method FlagRow(model: FilesModel, k: nat)
    requires k < |model.rows|
    modifies model
    ensures model.rows == old(model.rows)[k := Flagged(old(model.rows)[k])]
  {
    var row := model.rows[k];
    model.rows := model.rows[k := row.(icon := Some(StockDialogError))];
    if model.rows[k].tooltip == None {
      model.rows := model.rows[k := model.rows[k].(tooltip := Some(DoubleMessage))];
    } else {
      model.rows := model.rows[k := model.rows[k].(tooltip := Some(model.rows[k].tooltip.value + "\n" + DoubleMessage))];
    }
  }

  /** The grouping state after n names, step by step as the loop builds it. */
  datatype Groups = Groups(dd: map<string, seq<nat>>, doubles: seq<string>)

  /** One pass of the grouping loop over the name f at index i. */
  function GroupAdd(g: Groups, f: string, i: nat): Groups
  {
    if f in g.dd then Groups(g.dd[f := g.dd[f] + [i]], g.doubles + [f])
    else Groups(g.dd[f := [i]], g.doubles)
  }

  function GroupsBelow(names: seq<string>, n: nat): Groups
    requires n <= |names|
  {
    if n == 0 then Groups(map[], []) else GroupAdd(GroupsBelow(names, n - 1), names[n - 1], n - 1)
  }

  /** After n names, dd holds the names met so far, each with the list of its indices. */
  lemma {:induction false} GroupsBelowMap(names: seq<string>, n: nat, f: string)
    requires n <= |names|
    ensures f in GroupsBelow(names, n).dd <==> PositionsBelow(names, f, n) != []
    ensures f in GroupsBelow(names, n).dd ==> GroupsBelow(names, n).dd[f] == PositionsBelow(names, f, n)
  {
    if n > 0 {
      var g, x := GroupsBelow(names, n - 1), names[n - 1];
      GroupsBelowMap(names, n - 1, f);
      assert GroupsBelow(names, n).dd == g.dd[x := if x in g.dd then g.dd[x] + [n - 1] else [n - 1]];
    }
  }

  /** After n names, double_filenames holds the names met twice or more. */
  lemma {:induction false} GroupsBelowDoubles(names: seq<string>, n: nat, f: string)
    requires n <= |names|
    ensures f in GroupsBelow(names, n).doubles <==> |PositionsBelow(names, f, n)| >= 2
  {
    if n > 0 {
      var g, x := GroupsBelow(names, n - 1), names[n - 1];
      GroupsBelowDoubles(names, n - 1, f);
      GroupsBelowMap(names, n - 1, f);
      assert GroupsBelow(names, n).doubles == if x in g.dd then g.doubles + [x] else g.doubles;
      assert |PositionsBelow(names, f, n)| == |PositionsBelow(names, f, n - 1)| + (if x == f then 1 else 0);
    }
  }

  /** Once the grouping loop has walked every name, dd holds exactly the names. */
  lemma GroupsExact(names: seq<string>)
    ensures forall f :: f in GroupsBelow(names, |names|).dd <==> f in names
    ensures forall f :: f in GroupsBelow(names, |names|).dd ==> GroupsBelow(names, |names|).dd[f] == Positions(names, f)
    ensures forall f :: f in GroupsBelow(names, |names|).doubles <==>
      f in GroupsBelow(names, |names|).dd && |GroupsBelow(names, |names|).dd[f]| >= 2
  {
    forall f
      ensures f in GroupsBelow(names, |names|).dd <==> f in names
      ensures f in GroupsBelow(names, |names|).dd ==> GroupsBelow(names, |names|).dd[f] == Positions(names, f)
      ensures f in GroupsBelow(names, |names|).doubles <==>
        f in GroupsBelow(names, |names|).dd && |GroupsBelow(names, |names|).dd[f]| >= 2
    {
      GroupsBelowMap(names, |names|, f);
      GroupsBelowDoubles(names, |names|, f);
      PositionsExact(names, f);
      if Positions(names, f) != [] {
        assert Positions(names, f)[0] in Positions(names, f);
      }
      if f in names {
        var k :| 0 <= k < |names| && names[k] == f;
        assert k in Positions(names, f);
      }
    }
  }

  /** The first loop of check_for_double_targets: dd maps every output name to the
      indices where it occurs, and double_filenames gets a name each time it is met
      again, so it lists exactly the names occurring twice or more. */
  method GroupByTarget(names: seq<string>) returns (dd: map<string, seq<nat>>, doubleFilenames: seq<string>)
    ensures forall f :: f in dd <==> f in names
    ensures forall f :: f in dd ==> dd[f] == Positions(names, f)
    ensures forall f :: f in doubleFilenames <==> f in dd && |dd[f]| >= 2
  {
    dd := map[];
    doubleFilenames := [];
    var ii := 0;
    while ii < |names|
      invariant 0 <= ii <= |names|
      invariant Groups(dd, doubleFilenames) == GroupsBelow(names, ii)
    {
      var filename := names[ii];
      if filename in dd {
        dd := dd[filename := dd[filename] + [ii]];
        doubleFilenames := doubleFilenames + [filename];
      } else {
        dd := dd[filename := [ii]];
      }
      ii := ii + 1;
    }
    GroupsExact(names);
  }

  /** The inner loop of check_for_double_targets, over one group: each row of the
      group not yet registered is flagged and registered, and the problem level
      becomes 2 once any row is. */
  method FlagGroup(model: FilesModel, positions: seq<nat>, registered: set<nat>, highestProblem: int)
    returns (registered': set<nat>, highestProblem': int)
    requires forall t :: 0 <= t < |positions| ==> positions[t] < |model.rows|
    requires highestProblem == if registered == {} then 0 else 2
    modifies model
    ensures forall k :: k in registered' <==> k in registered || k in positions
    ensures highestProblem' == if registered' == {} then 0 else 2
    ensures |model.rows| == |old(model.rows)|
    ensures forall k :: 0 <= k < |model.rows| ==>
      model.rows[k] == if k in registered' - registered then Flagged(old(model.rows)[k]) else old(model.rows)[k]
  {
    registered', highestProblem' := registered, highestProblem;
    var t := 0;
    while t < |positions|
      invariant 0 <= t <= |positions|
      invariant forall k :: k in registered' <==> k in registered || k in positions[..t]
      invariant highestProblem' == if registered' == {} then 0 else 2
      invariant |model.rows| == |old(model.rows)|
      invariant forall k :: 0 <= k < |model.rows| ==>
        model.rows[k] == if k in registered' - registered then Flagged(old(model.rows)[k]) else old(model.rows)[k]
    {
      var ii := positions[t];
      assert positions[..t + 1] == positions[..t] + [ii];
      if ii !in registered' {
        FlagRow(model, ii);
        if highestProblem' < 2 {
          highestProblem' := 2;
        }
        registered' := registered' + {ii};
      }
      t := t + 1;
    }
    assert positions[..t] == positions;
  }

  /** One pass of the flagging loop: the rows of group d join the registered rows. */
  lemma RegisterGroup(names: seq<string>, doubleFilenames: seq<string>, d: nat, positions: seq<nat>,
                      before: set<nat>, registered: set<nat>)
    requires d < |doubleFilenames| && positions == Positions(names, doubleFilenames[d])
    requires forall k :: k in before <==> 0 <= k < |names| && names[k] in doubleFilenames[..d]
    requires forall k :: k in registered <==> k in before || k in positions
    ensures forall k :: k in registered <==> 0 <= k < |names| && names[k] in doubleFilenames[..d + 1]
  {
    PositionsExact(names, doubleFilenames[d]);
    PrefixSnoc(doubleFilenames, d);
  }

  /** One pass of the flagging loop: the newly registered rows are flagged once. */
  lemma FlagGroupRows(rows0: seq<Row>, rowsBefore: seq<Row>, rows: seq<Row>, before: set<nat>, positions: seq<nat>,
                      registered: set<nat>)
    requires |rowsBefore| == |rows0| && |rows| == |rowsBefore|
    requires forall k :: 0 <= k < |rows0| ==> rowsBefore[k] == if k in before then Flagged(rows0[k]) else rows0[k]
    requires forall k :: k in registered <==> k in before || k in positions
    requires forall k :: 0 <= k < |rows| ==>
      rows[k] == if k in registered - before then Flagged(rowsBefore[k]) else rowsBefore[k]
    ensures forall k :: 0 <= k < |rows0| ==> rows[k] == if k in registered then Flagged(rows0[k]) else rows0[k]
  {
  }

  /** The rows the flagging loop registers are exactly the rows with a twin. */
  lemma RegisteredAreTwins(names: seq<string>, dd: map<string, seq<nat>>, doubleFilenames: seq<string>, registered: set<nat>)
    requires forall f :: f in dd <==> f in names
    requires forall f :: f in dd ==> dd[f] == Positions(names, f)
    requires forall f :: f in doubleFilenames <==> f in dd && |dd[f]| >= 2
    requires forall k :: k in registered <==> 0 <= k < |names| && names[k] in doubleFilenames
    ensures forall k: nat :: k in registered <==> HasTwin(names, k)
  {
    forall k: nat
      ensures k in registered <==> HasTwin(names, k)
    {
      if HasTwin(names, k) {
        TwinHasLongPositions(names, k);
      }
      if k in registered {
        PositionsExact(names, names[k]);
        TwinInLongPositions(names, names[k], k);
      }
    }
  }

  /** Rows flagged exactly at the rows with a twin are what check_for_double_targets leaves. */
  lemma FlaggedTwins(rows0: seq<Row>, rows: seq<Row>, registered: set<nat>)
    requires |rows| == |rows0|
    requires forall k: nat :: k in registered <==> HasTwin(Previews(rows0), k)
    requires forall k :: 0 <= k < |rows0| ==> rows[k] == if k in registered then Flagged(rows0[k]) else rows0[k]
    ensures rows == DoubleTargets(rows0)
  {
    var target := DoubleTargets(rows0);
    forall k | 0 <= k < |rows0|
      ensures rows[k] == target[k]
    {
      assert target[k] == if HasTwin(Previews(rows0), k) then Flagged(rows0[k]) else rows0[k];
    }
  }

  /** check_for_double_targets: groups the row indices by output name in the map dd,
      lists in double_filenames every name met again, then flags every row of each
      such group, using the registered set to flag a row only once. */
  method CheckForDoubleTargets(model: FilesModel) returns (highestProblem: int)
    modifies model
    ensures model.rows == DoubleTargets(old(model.rows))
    ensures highestProblem == if HasDouble(Previews(old(model.rows))) then 2 else 0
  {
    var names := Previews(model.rows);
    var dd, doubleFilenames := GroupByTarget(names);
    ghost var rows0 := model.rows;
    highestProblem := 0;
    var registered: set<nat> := {};
    var d := 0;
    while d < |doubleFilenames|
      invariant 0 <= d <= |doubleFilenames|
      invariant |model.rows| == |rows0|
      invariant forall k :: k in registered <==> 0 <= k < |names| && names[k] in doubleFilenames[..d]
      invariant forall k :: 0 <= k < |rows0| ==>
        model.rows[k] == if k in registered then Flagged(rows0[k]) else rows0[k]
      invariant highestProblem == if registered == {} then 0 else 2
    {
      var filename := doubleFilenames[d];
      var positions := dd[filename];
      PositionsInRange(names, filename);
      ghost var before, rowsBefore := registered, model.rows;
      registered, highestProblem := FlagGroup(model, positions, registered, highestProblem);
      FlagGroupRows(rows0, rowsBefore, model.rows, before, positions, registered);
      RegisterGroup(names, doubleFilenames, d, positions, before, registered);
      d := d + 1;
    }

    assert doubleFilenames[..d] == doubleFilenames;
    RegisteredAreTwins(names, dd, doubleFilenames, registered);
    FlaggedTwins(rows0, model.rows, registered);
    if HasDouble(names) {
      var k :| 0 <= k < |names| && HasTwin(names, k);
      assert k in registered;
    }
  }

  /** What check_for_double_targets promises row by row: a row whose output name is
      also another row's gets the error icon and the message exactly once, after the
      tooltip it had; any other row keeps its icon and tooltip; nothing else changes. */
  lemma DoubleTargetsEffect(rows: seq<Row>, i: nat)
    requires i < |rows|
    ensures |DoubleTargets(rows)| == |rows|
    ensures var r := DoubleTargets(rows)[i];
      r.original == rows[i].original && r.preview == rows[i].preview &&
      r.markupOriginal == rows[i].markupOriginal && r.markupPreview == rows[i].markupPreview &&
      r.gfile == rows[i].gfile && r.dirname == rows[i].dirname
    ensures (exists j :: 0 <= j < |rows| && j != i && rows[j].preview == rows[i].preview) ==>
      DoubleTargets(rows)[i].icon == Some(StockDialogError) &&
      DoubleTargets(rows)[i].tooltip == Some(if rows[i].tooltip.None? then DoubleMessage
                                             else rows[i].tooltip.value + "\n" + DoubleMessage)
    ensures (forall j :: 0 <= j < |rows| && j != i ==> rows[j].preview != rows[i].preview) ==>
      DoubleTargets(rows)[i] == rows[i]
  {
    var names := Previews(rows);
    if exists j :: 0 <= j < |rows| && j != i && rows[j].preview == rows[i].preview {
      var j :| 0 <= j < |rows| && j != i && rows[j].preview == rows[i].preview;
      assert names[j] == names[i];
    }
  }

  /** The problem level is 2 exactly when some row gets flagged. */
  lemma ProblemLevelMeansFlagged(rows: seq<Row>)
    ensures HasDouble(Previews(rows)) <==>
      exists i :: 0 <= i < |rows| && DoubleTargets(rows)[i].icon == Some(StockDialogError) &&
        DoubleTargets(rows)[i] != rows[i]
  {
    if HasDouble(Previews(rows)) {
      var i :| 0 <= i < |rows| && HasTwin(Previews(rows), i);
      assert DoubleTargets(rows)[i] == Flagged(rows[i]);
      assert DoubleTargets(rows)[i].tooltip != rows[i].tooltip by {
        if rows[i].tooltip.Some? {
          assert |DoubleTargets(rows)[i].tooltip.value| > |rows[i].tooltip.value|;
        }
      }
    }
  }

  /** check_for_already_existing_names is a stub: it always reports no problem. */
  method CheckForAlreadyExistingNames(model: FilesModel) returns (problem: int)
    ensures problem == 0
  {
    problem := 0;
  }
}
