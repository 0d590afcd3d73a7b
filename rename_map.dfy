/** The rename maps of gnome-bulk-rename/rename.py: the list of (GFile, new
    display name, user data) that a Rename hands to `_rename`, built from the
    files model or from a list of (folder URI, old name, new name), and the
    temporary names of the first pass of a two-pass rename. */
module RenameMap {
  import opened Rows
  import opened RenameBatch

  /** (folder URI, old name, new name): an entry of rename_data and of files_to_rename. */
  datatype Triple = Triple(folder: string, oldName: string, newName: string)

  /** The user data of a single-pass rename: (row, folder URI, old name, new name). */
  datatype Entry = Entry(row: Option<nat>, folder: string, oldName: string, newName: string)

  /** The indices of the elements satisfying p, ascending: what a loop that skips
      the other elements visits. */
  function Kept<T>(s: seq<T>, p: T -> bool): (idx: seq<nat>)
    ensures forall k :: 0 <= k < |idx| ==> idx[k] < |s| && p(s[idx[k]])
    ensures forall a, b :: 0 <= a < b < |idx| ==> idx[a] < idx[b]
    ensures forall i :: 0 <= i < |s| && p(s[i]) ==> i in idx
  {
    if s == [] then []
    else
      var n := |s| - 1;
      var prev := Kept(s[..n], p);
      assert forall i :: 0 <= i < n ==> s[..n][i] == s[i];
      prev + (if p(s[n]) then [n] else [])
  }

  lemma KeptSnoc<T>(s: seq<T>, p: T -> bool, n: nat)
    requires n < |s|
    ensures Kept(s[..n + 1], p) == Kept(s[..n], p) + (if p(s[n]) then [n] else [])
  {
    assert s[..n + 1][..n] == s[..n];
  }

  /** The rows whose name changes; the others are skipped. */
  predicate Changes(row: Row)
  {
    row.original != row.preview
  }

  function ChangedRows(rows: seq<Row>): seq<nat>
  {
    Kept(rows, Changes)
  }

  /** The entry for row i of the model: rename its GFile to its preview, with user
      data (i, dirname, old name, new name). */
  function ModelRequest(row: Row, i: nat): Request<Entry>
  {
    Request(row.gfile, row.preview, Entry(Some(i), row.dirname, row.original, row.preview))
  }

  /** The entry for row i in the first pass of a two-pass rename. */
  function TemporaryRequest(row: Row, i: nat, prefix: string): Request<nat>
  {
    Request(row.gfile, prefix + row.preview, i)
  }

  function ModelRequests(rows: seq<Row>, idx: seq<nat>): (m: seq<Request<Entry>>)
    requires forall k :: 0 <= k < |idx| ==> idx[k] < |rows|
    ensures |m| == |idx|
    ensures forall k :: 0 <= k < |idx| ==> m[k] == ModelRequest(rows[idx[k]], idx[k])
  {
    seq(|idx|, k requires 0 <= k < |idx| => ModelRequest(rows[idx[k]], idx[k]))
  }

  function TemporaryRequests(rows: seq<Row>, idx: seq<nat>, prefix: string): (m: seq<Request<nat>>)
    requires forall k :: 0 <= k < |idx| ==> idx[k] < |rows|
    ensures |m| == |idx|
    ensures forall k :: 0 <= k < |idx| ==> m[k] == TemporaryRequest(rows[idx[k]], idx[k], prefix)
  {
    seq(|idx|, k requires 0 <= k < |idx| => TemporaryRequest(rows[idx[k]], idx[k], prefix))
  }

  /** `_get_rename_map` without files_to_rename. */
  function ModelRenameMap(rows: seq<Row>): seq<Request<Entry>>
  {
    ModelRequests(rows, ChangedRows(rows))
  }

  /** The map of the first pass of `_two_pass_rename`. */
  function TemporaryRenameMap(rows: seq<Row>, prefix: string): seq<Request<nat>>
  {
    TemporaryRequests(rows, ChangedRows(rows), prefix)
  }

  /** The loop of `_get_rename_map` over the model. */
  method GetRenameMapFromModel(rows: seq<Row>) returns (renameMap: seq<Request<Entry>>)
    ensures renameMap == ModelRenameMap(rows)
  {
    renameMap := [];
    var ii := 0;
    while ii < |rows|
      invariant 0 <= ii <= |rows|
      invariant renameMap == ModelRequests(rows, ChangedRows(rows[..ii]))
    {
      KeptSnoc(rows, Changes, ii);
      ghost var idx := ChangedRows(rows[..ii]);
      if rows[ii].original != rows[ii].preview {
        assert ModelRequests(rows, idx + [ii]) == ModelRequests(rows, idx) + [ModelRequest(rows[ii], ii)];
        renameMap := renameMap + [Request(rows[ii].gfile, rows[ii].preview,
                                          Entry(Some(ii), rows[ii].dirname, rows[ii].original, rows[ii].preview))];
      }
      ii := ii + 1;
    }
    assert rows[..ii] == rows;
  }

  /** The loop of `_two_pass_rename` that sets up the first pass. */
  method GetTemporaryRenameMap(rows: seq<Row>, prefix: string) returns (renameMap: seq<Request<nat>>)
    ensures renameMap == TemporaryRenameMap(rows, prefix)
  {
    renameMap := [];
    var ii := 0;
    while ii < |rows|
      invariant 0 <= ii <= |rows|
      invariant renameMap == TemporaryRequests(rows, ChangedRows(rows[..ii]), prefix)
    {
      KeptSnoc(rows, Changes, ii);
      ghost var idx := ChangedRows(rows[..ii]);
      if rows[ii].original != rows[ii].preview {
        assert TemporaryRequests(rows, idx + [ii], prefix) ==
          TemporaryRequests(rows, idx, prefix) + [TemporaryRequest(rows[ii], ii, prefix)];
        renameMap := renameMap + [Request(rows[ii].gfile, prefix + rows[ii].preview, ii)];
      }
      ii := ii + 1;
    }
    assert rows[..ii] == rows;
  }

  /** The rename map of the model holds exactly the rows whose name changes, in
      model order, each renamed to its preview with user data (row, dirname, old, new). */
  lemma ModelRenameMapShape(rows: seq<Row>)
    ensures var m := ModelRenameMap(rows);
      (forall k :: 0 <= k < |m| ==>
        m[k].data.row.Some? && m[k].data.row.value < |rows| &&
        var i := m[k].data.row.value;
        rows[i].original != rows[i].preview &&
        m[k] == Request(rows[i].gfile, rows[i].preview, Entry(Some(i), rows[i].dirname, rows[i].original, rows[i].preview))) &&
      (forall a, b :: 0 <= a < b < |m| ==> m[a].data.row.value < m[b].data.row.value) &&
      (forall i :: 0 <= i < |rows| && rows[i].original != rows[i].preview ==>
        exists k :: 0 <= k < |m| && m[k].data.row == Some(i))
  {
    var idx := ChangedRows(rows);
    var m := ModelRenameMap(rows);
    forall i | 0 <= i < |rows| && rows[i].original != rows[i].preview
      ensures exists k :: 0 <= k < |m| && m[k].data.row == Some(i)
    {
      assert Changes(rows[i]);
      var k :| 0 <= k < |idx| && idx[k] == i;
      assert m[k].data.row == Some(i);
    }
  }

  /** The first pass renames exactly the rows whose name changes, in model order, each
      to the prefix followed by its preview, with the row number as user data. */
  lemma TemporaryRenameMapShape(rows: seq<Row>, prefix: string)
    ensures var m := TemporaryRenameMap(rows, prefix);
      (forall k :: 0 <= k < |m| ==>
        m[k].data < |rows| && rows[m[k].data].original != rows[m[k].data].preview &&
        m[k] == Request(rows[m[k].data].gfile, prefix + rows[m[k].data].preview, m[k].data)) &&
      (forall a, b :: 0 <= a < b < |m| ==> m[a].data < m[b].data) &&
      (forall i :: 0 <= i < |rows| && rows[i].original != rows[i].preview ==>
        exists k :: 0 <= k < |m| && m[k].data == i)
  {
    var idx := ChangedRows(rows);
    var m := TemporaryRenameMap(rows, prefix);
    forall i | 0 <= i < |rows| && rows[i].original != rows[i].preview
      ensures exists k :: 0 <= k < |m| && m[k].data == i
    {
      assert Changes(rows[i]);
      var k :| 0 <= k < |idx| && idx[k] == i;
      assert m[k].data == i;
    }
  }

  /** `_find_row_number_of_gfile` as a specification: the first row holding the GFile. */
  function FirstRowWithGfile(rows: seq<Row>, gfile: string): (r: Option<nat>)
    ensures r.Some? ==> (r.value < |rows| && rows[r.value].gfile == gfile &&
      forall j :: 0 <= j < r.value ==> rows[j].gfile != gfile)
    ensures r.None? ==> forall j :: 0 <= j < |rows| ==> rows[j].gfile != gfile
  {
    if rows == [] then None
    else if rows[0].gfile == gfile then Some(0)
    else
      var r := FirstRowWithGfile(rows[1..], gfile);
      assert forall j :: 1 <= j < |rows| ==> rows[1..][j - 1] == rows[j];
      if r.Some? then Some(r.value + 1) else None
  }

  /** `_find_row_number_of_gfile`: the loop returns at the first row whose GFile is
      equal, and None when there is none. GFiles are equal when their URIs are. */
  method FindRowNumberOfGfile(rows: seq<Row>, gfile: string) returns (r: Option<nat>)
    ensures r == FirstRowWithGfile(rows, gfile)
  {
    var ii := 0;
    while ii < |rows|
      invariant 0 <= ii <= |rows|
      invariant forall j :: 0 <= j < ii ==> rows[j].gfile != gfile
    {
      if rows[ii].gfile == gfile {
        return Some(ii);
      }
      ii := ii + 1;
    }
    return None;
  }

  predicate ChangesName(t: Triple)
  {
    t.oldName != t.newName
  }

  /** The entry for one (folder, old, new) of files_to_rename: the GFile of
      folder_uri + old_name, renamed to new_name, with the row holding it. */
  function ListRequest(rows: seq<Row>, t: Triple): Request<Entry>
  {
    var gfile := t.folder + t.oldName;
    Request(gfile, t.newName, Entry(FirstRowWithGfile(rows, gfile), t.folder, t.oldName, t.newName))
  }

  function ListRequests(rows: seq<Row>, files: seq<Triple>, idx: seq<nat>): (m: seq<Request<Entry>>)
    requires forall k :: 0 <= k < |idx| ==> idx[k] < |files|
    ensures |m| == |idx|
    ensures forall k :: 0 <= k < |idx| ==> m[k] == ListRequest(rows, files[idx[k]])
  {
    seq(|idx|, k requires 0 <= k < |idx| => ListRequest(rows, files[idx[k]]))
  }

  lemma ListRequestsSnoc(rows: seq<Row>, files: seq<Triple>, idx: seq<nat>, n: nat)
    requires forall k :: 0 <= k < |idx| ==> idx[k] < |files|
    requires n < |files|
    ensures ListRequests(rows, files, idx + [n]) == ListRequests(rows, files, idx) + [ListRequest(rows, files[n])]
  {
    assert forall k :: 0 <= k < |idx| ==> (idx + [n])[k] == idx[k];
  }

  /** `_get_rename_map` with files_to_rename. */
  function ListRenameMap(rows: seq<Row>, files: seq<Triple>): seq<Request<Entry>>
  {
    ListRequests(rows, files, Kept(files, ChangesName))
  }

  /** The loop of `_get_rename_map` over files_to_rename. */
  method GetRenameMapFromList(rows: seq<Row>, files: seq<Triple>) returns (renameMap: seq<Request<Entry>>)
    ensures renameMap == ListRenameMap(rows, files)
  {
    renameMap := [];
    var n := 0;
    while n < |files|
      invariant 0 <= n <= |files|
      invariant renameMap == ListRequests(rows, files, Kept(files[..n], ChangesName))
    {
      KeptSnoc(files, ChangesName, n);
      ghost var idx := Kept(files[..n], ChangesName);
      var t := files[n];
      if t.oldName != t.newName {
        var oldUri := t.folder + t.oldName;
        var row := FindRowNumberOfGfile(rows, oldUri);
        ListRequestsSnoc(rows, files, idx, n);
        assert Request(oldUri, t.newName, Entry(row, t.folder, t.oldName, t.newName)) == ListRequest(rows, t);
        renameMap := renameMap + [Request(oldUri, t.newName, Entry(row, t.folder, t.oldName, t.newName))];
      }
      n := n + 1;
    }
    assert files[..n] == files;
  }

  /** Request r is the one made for entry j of files_to_rename. */
  predicate MadeFor(rows: seq<Row>, files: seq<Triple>, j: int, r: Request<Entry>)
  {
    0 <= j < |files| && files[j].oldName != files[j].newName &&
    r.gfile == files[j].folder + files[j].oldName && r.newName == files[j].newName &&
    r.data == Entry(FirstRowWithGfile(rows, r.gfile), files[j].folder, files[j].oldName, files[j].newName)
  }

  /** The map built from files_to_rename holds exactly its entries whose name changes;
      each renames folder_uri + old_name to new_name, with the first
      row holding that GFile, or None. */
  lemma ListRenameMapShape(rows: seq<Row>, files: seq<Triple>)
    ensures |ListRenameMap(rows, files)| <= |files|
    ensures forall r :: r in ListRenameMap(rows, files) ==> exists j :: MadeFor(rows, files, j, r)
    ensures forall j :: 0 <= j < |files| && files[j].oldName != files[j].newName ==>
      ListRequest(rows, files[j]) in ListRenameMap(rows, files)
  {
    var idx := Kept(files, ChangesName);
    var m := ListRenameMap(rows, files);
    KeptLength(files, ChangesName);
    forall r | r in m
      ensures exists j :: MadeFor(rows, files, j, r)
    {
      var k :| 0 <= k < |m| && m[k] == r;
      assert ChangesName(files[idx[k]]);
      assert MadeFor(rows, files, idx[k], r);
    }
    forall j | 0 <= j < |files| && files[j].oldName != files[j].newName
      ensures ListRequest(rows, files[j]) in m
    {
      assert ChangesName(files[j]);
      var k :| 0 <= k < |idx| && idx[k] == j;
      assert m[k] == ListRequest(rows, files[j]);
    }
  }

  lemma {:induction false} KeptLength<T>(s: seq<T>, p: T -> bool)
    ensures |Kept(s, p)| <= |s|
  {
    if s != [] {
      KeptLength(s[..|s| - 1], p);
    }
  }

  /** A loop whose every element is skipped visits nothing. */
  lemma {:induction false} KeptNone<T>(s: seq<T>, p: T -> bool)
    requires forall i :: 0 <= i < |s| ==> !p(s[i])
    ensures Kept(s, p) == []
  {
    if s != [] {
      var n := |s| - 1;
      assert forall i :: 0 <= i < n ==> s[..n][i] == s[i];
      KeptNone(s[..n], p);
    }
  }

  /** `_get_rename_map`: from the model, or from files_to_rename when it is given. */
  method GetRenameMap(rows: seq<Row>, filesToRename: Option<seq<Triple>>) returns (renameMap: seq<Request<Entry>>)
    ensures filesToRename.None? ==> renameMap == ModelRenameMap(rows)
    ensures filesToRename.Some? ==> renameMap == ListRenameMap(rows, filesToRename.value)
  {
    if filesToRename.None? {
      renameMap := GetRenameMapFromModel(rows);
    } else {
      renameMap := GetRenameMapFromList(rows, filesToRename.value);
    }
  }

  /** The number a string of decimal digits denotes, most significant first. */
  function DigitsValue(s: string): int
    decreases |s|
  {
    if s == [] then 0 else 10 * DigitsValue(s[..|s| - 1]) + (s[|s| - 1] as int - '0' as int)
  }

  /** The decimal digits of n, without leading zeros. */
  function Decimal(n: nat): (s: string)
    ensures |s| >= 1
    ensures forall k :: 0 <= k < |s| ==> '0' <= s[k] <= '9'
    decreases n
  {
    var d := ['0' + (n % 10) as char];
    if n < 10 then d else Decimal(n / 10) + d
  }

  /** Decimal is the decimal expansion of n: its digits denote n, and it has no
      leading zero unless n is 0. */
  lemma {:induction false} DecimalValue(n: nat)
    ensures DigitsValue(Decimal(n)) == n
    ensures n > 0 ==> Decimal(n)[0] != '0'
    decreases n
  {
    var s := Decimal(n);
    var d := ['0' + (n % 10) as char];
    if n < 10 {
      assert s == d && s[..0] == [];
    } else {
      DecimalValue(n / 10);
      assert s == Decimal(n / 10) + d;
      assert s[..|s| - 1] == Decimal(n / 10);
    }
  }

  lemma {:induction false} DecimalWidth(n: nat, w: nat)
    requires n < Pow10(w) && w >= 1
    ensures |Decimal(n)| <= w
    decreases n
  {
    assert Pow10(1) == 10;
    if n >= 10 {
      assert w >= 2;
      assert n / 10 < Pow10(w - 1);
      DecimalWidth(n / 10, w - 1);
    }
  }

  function Pow10(w: nat): nat
  {
    if w == 0 then 1 else 10 * Pow10(w - 1)
  }

  function Spaces(k: nat): (s: string)
    ensures |s| == k && forall i :: 0 <= i < k ==> s[i] == ' '
  {
    if k == 0 then [] else [' '] + Spaces(k - 1)
  }

  /** "%10d" % n: the decimal digits right-aligned in a field of width 10. */
  function Width10(n: nat): string
  {
    var d := Decimal(n);
    if |d| < 10 then Spaces(10 - |d|) + d else d
  }

  lemma Width10Length(n: nat)
    ensures n < Pow10(10) ==> |Width10(n)| == 10
  {
    if n < Pow10(10) {
      DecimalWidth(n, 10);
    }
  }

  /** The prefix of the temporary names of a two-pass rename: "gbr-%10d--" % pid.
      It has no '/', so a temporary name is a valid display name whenever the
      preview is one; for a pid below 10^10 it is exactly 16 characters long. */
  function TwoPassPrefix(pid: nat): (p: string)
    ensures |p| >= 16 && p[..4] == "gbr-" && p[|p| - 2..] == "--"
    ensures '/' !in p
    ensures pid < Pow10(10) ==> |p| == 16
  {
    Width10Length(pid);
    var w := Width10(pid);
    Width10Chars(pid);
    var p := "gbr-" + w + "--";
    assert p[..4] == "gbr-" && p[|p| - 2..] == "--";
    assert forall k :: 4 <= k < |p| - 2 ==> p[k] == w[k - 4];
    p
  }

  /** "%10d" is at least ten characters, blanks and digits. */
  lemma Width10Chars(n: nat)
    ensures |Width10(n)| >= 10
    ensures forall k :: 0 <= k < |Width10(n)| ==> Width10(n)[k] == ' ' || '0' <= Width10(n)[k] <= '9'
  {
  }

  /** "%10d" of a pid below 10^10: blanks, then the decimal digits of the pid. */
  lemma Width10Shape(n: nat)
    requires n < Pow10(10)
    ensures |Decimal(n)| <= 10 && Width10(n) == Spaces(10 - |Decimal(n)|) + Decimal(n)
  {
    DecimalWidth(n, 10);
    if |Decimal(n)| == 10 {
      assert Spaces(0) + Decimal(n) == Decimal(n);
    }
  }

  /** The ten characters after "gbr-" are "%10d" of the pid: blanks, then Decimal(pid),
      which denotes the pid (DecimalValue). */
  lemma PrefixHoldsPid(pid: nat)
    requires pid < Pow10(10)
    ensures TwoPassPrefix(pid)[4..14] == Spaces(10 - |Decimal(pid)|) + Decimal(pid)
  {
    Width10Shape(pid);
    Width10Length(pid);
    var w := Width10(pid);
    assert TwoPassPrefix(pid) == "gbr-" + w + "--";
    assert ("gbr-" + w + "--")[4..14] == w;
  }

}
