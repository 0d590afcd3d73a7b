/** The previewers of gnome-bulk-rename/preview.py. Each one rewrites column 1
    (the proposed name) of every row of the files model in place. Characters
    stand for the bytes of a Python 2 byte string. */
module Preview {
  import opened Rows

  /** A translation table: characters not in the map translate to themselves,
      as in the 256-entry table string.maketrans builds. */
  type Table = map<char, char>

  /** The overrides the first n positions of string.maketrans(source, target) make:
      position k maps source[k] to target[k], and a later position wins. */
  function PairsBelow(source: string, target: string, n: nat): (t: Table)
    requires |source| == |target| && n <= |source|
    ensures forall k :: 0 <= k < n ==> source[k] in t
    ensures forall c :: c in t ==> exists k :: 0 <= k < n && source[k] == c
  {
    if n == 0 then map[]
    else
      var t0 := PairsBelow(source, target, n - 1);
      assert source[n - 1] == source[n - 1];
      t0[source[n - 1] := target[n - 1]]
  }

  /** A position of source that no later position repeats gives its character the
      target character at that position. */
  lemma {:induction false} PairsBelowLast(source: string, target: string, n: nat, k: nat)
    requires |source| == |target| && k < n <= |source|
    requires forall j :: k < j < n ==> source[j] != source[k]
    ensures PairsBelow(source, target, n)[source[k]] == target[k]
  {
    if k < n - 1 {
      PairsBelowLast(source, target, n - 1, k);
    }
  }

  /** The overrides string.maketrans(source, target) makes, for equal lengths:
      exactly the characters of source are mapped, each to the target character
      at its last position. */
  function Pairs(source: string, target: string): (t: Table)
    requires |source| == |target|
    ensures t.Keys == set c | c in source
    ensures forall k :: 0 <= k < |source| && (forall j :: k < j < |source| ==> source[j] != source[k]) ==>
      t[source[k]] == target[k]
  {
    var t := PairsBelow(source, target, |source|);
    assert forall c :: c in t <==> c in source;
    forall k | 0 <= k < |source| && (forall j :: k < j < |source| ==> source[j] != source[k])
      ensures t[source[k]] == target[k]
    {
      PairsBelowLast(source, target, |source|, k);
    }
    t
  }

  /** string.maketrans: a table, or None for the ValueError raised on arguments of different lengths. */
  function MakeTrans(source: string, target: string): (r: Option<Table>)
    ensures r.Some? <==> |source| == |target|
    ensures r.Some? ==> r.value == Pairs(source, target)
  {
    if |source| == |target| then Some(Pairs(source, target)) else None
  }

  function TranslateChar(t: Table, c: char): char
  {
    if c in t then t[c] else c
  }

  /** str.translate: every character replaced by its table image, length kept. */
  function Translate(t: Table, s: string): (r: string)
    ensures |r| == |s|
    ensures forall i :: 0 <= i < |s| ==> r[i] == TranslateChar(t, s[i])
  {
    if s == [] then [] else [TranslateChar(t, s[0])] + Translate(t, s[1..])
  }

  /** The table of the previewer that replaces spaces with underscores. */
  const SpaceTable: Table := map[' ' := '_']

  /** Translating with the space table leaves no space, turns every space into
      an underscore and keeps every other character. */
  lemma SpacesBecomeUnderscores(s: string)
    ensures MakeTrans(" ", "_") == Some(SpaceTable)
    ensures ' ' !in Translate(SpaceTable, s)
    ensures forall i :: 0 <= i < |s| ==> Translate(SpaceTable, s)[i] == (if s[i] == ' ' then '_' else s[i])
  {
    assert Pairs(" ", "_").Keys == {' '};
    var r := Translate(SpaceTable, s);
    forall i | 0 <= i < |r|
      ensures r[i] != ' '
    {
      assert r[i] == TranslateChar(SpaceTable, s[i]);
    }
  }

  /** Row rewrites of the previewers. */
  function NoopRows(rows: seq<Row>): seq<Row>
  {
    MapRows(rows, (ii: nat, row: Row) => row.(preview := row.original))
  }

  function TranslatedRows(t: Table, rows: seq<Row>): seq<Row>
  {
    MapRows(rows, (ii: nat, row: Row) => row.(preview := Translate(t, row.original)))
  }

  const FixedString := "foobar"

  function EverySecondRows(rows: seq<Row>): seq<Row>
  {
    MapRows(rows, (ii: nat, row: Row) => row.(preview := if ii % 2 == 0 then FixedString else row.original))
  }

  /** PreviewNoop.preview: the proposed name is the current name, and only column 1 is written. */
  method Noop(model: FilesModel)
    modifies model
    ensures model.rows == NoopRows(old(model.rows))
    ensures OnlyPreviewWritten(old(model.rows), model.rows)
    ensures forall i :: 0 <= i < |model.rows| ==> model.rows[i].preview == model.rows[i].original
  {
    model.UpdateEachRow((ii: nat, row: Row) => row.(preview := row.original));
  }

  /** PreviewReplaceEverySecondWithFixedString.preview. */
  method EverySecond(model: FilesModel)
    modifies model
    ensures model.rows == EverySecondRows(old(model.rows))
    ensures OnlyPreviewWritten(old(model.rows), model.rows)
    ensures forall i :: 0 <= i < |model.rows| ==>
      model.rows[i].preview == if i % 2 == 0 then FixedString else model.rows[i].original
  {
    model.UpdateEachRow((ii: nat, row: Row) => row.(preview := if ii % 2 == 0 then FixedString else row.original));
  }

  /** PreviewTranslate and its subclass PreviewReplaceSpacesWithUnderscores,
      which differ only in the table they start with. */
  class PreviewTranslate {
    var table: Option<Table>

    /** PreviewTranslate(refresh_func): no table yet. */
    constructor ()
      ensures table == None
    {
      table := None;
    }

    /** PreviewReplaceSpacesWithUnderscores(refresh_func): the table of set_source_and_target(" ", "_"). */
    constructor ReplaceSpacesWithUnderscores()
      ensures table == MakeTrans(" ", "_") && table == Some(SpaceTable)
    {
      SpacesBecomeUnderscores("");
      table := MakeTrans(" ", "_");
    }

    /** set_source_and_target: on arguments of different lengths maketrans raises
        ValueError before the assignment, so the table is kept. */
    method SetSourceAndTarget(source: string, target: string) returns (ok: bool)
      modifies this
      ensures ok <==> |source| == |target|
      ensures table == if ok then MakeTrans(source, target) else old(table)
    {
      var t := MakeTrans(source, target);
      ok := t.Some?;
      if ok {
        table := t;
      }
    }

    /** preview: with a table, column 1 becomes the translated column 0; without one, nothing changes. */
    method Preview(model: FilesModel)
      modifies model
      ensures table.None? ==> model.rows == old(model.rows)
      ensures table.Some? ==> model.rows == TranslatedRows(table.value, old(model.rows))
      ensures OnlyPreviewWritten(old(model.rows), model.rows)
    {
      if table.Some? {
        var t := table.value;
        model.UpdateEachRow((ii: nat, row: Row) => row.(preview := Translate(t, row.original)));
      }
    }
  }

  /** With a table, each proposed name is the character-by-character image of the
      current name, of the same length. */
  lemma TranslatedRowsPointwise(t: Table, rows: seq<Row>, i: nat, k: nat)
    requires i < |rows| && k < |rows[i].original|
    ensures |TranslatedRows(t, rows)| == |rows|
    ensures |TranslatedRows(t, rows)[i].preview| == |rows[i].original|
    ensures TranslatedRows(t, rows)[i].preview[k] == TranslateChar(t, rows[i].original[k])
  {
  }

  /** The space-replacing previewer leaves no space in any proposed name. */
  lemma ReplaceSpacesLeavesNoSpace(rows: seq<Row>)
    ensures forall i :: 0 <= i < |rows| ==> ' ' !in TranslatedRows(SpaceTable, rows)[i].preview
  {
    forall i | 0 <= i < |rows|
      ensures ' ' !in TranslatedRows(SpaceTable, rows)[i].preview
    {
      SpacesBecomeUnderscores(rows[i].original);
    }
  }
}
