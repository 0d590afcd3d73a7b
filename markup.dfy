/** The markup generators of gnome-bulk-rename/markup.py: they fill columns 2
    and 3 (the markup shown for the current and the proposed name). The colour
    markup wraps the changed parts of the two names in span markers; which
    parts changed is given by a list of difflib opcodes, an input here. */
module Markup {
  import opened Rows

  datatype Tag = Equal | Delete | Replace | Insert

  /** (tag, i1, i2, j1, j2): old[i1:i2] relates to new[j1:j2]. */
  datatype Opcode = Opcode(tag: Tag, i1: nat, i2: nat, j1: nat, j2: nat)

  /** An element of the `oldlist`/`newlist` the markup is joined from: a slice
      of a name, or one of the markers. */
  datatype Piece = Text(text: string) | Marker(marker: string)

  const DeleteStart := "<span bgcolor='LightSalmon1'>"
  const DeleteEnd := "</span>"
  const InsertStart := "<span bgcolor='Palegreen1'>"
  const InsertEnd := "</span>"
  const ReplaceStart := "<span bgcolor='LightSkyBlue1'>"
  const ReplaceEnd := "</span>"

  /** Python's s[i:j] for non-negative bounds: out-of-range bounds are clipped. */
  function Slice(s: string, i: nat, j: nat): (r: string)
    ensures i <= j <= |s| ==> r == s[i..j]
    ensures |s| <= i || j <= i ==> r == ""
  {
    var lo := if i < |s| then i else |s|;
    var hi := if j < |s| then j else |s|;
    if lo <= hi then s[lo..hi] else ""
  }

  /** What one opcode appends to `oldlist`. */
  function OldSide(op: Opcode, o: string): seq<Piece>
  {
    match op.tag
    case Equal => [Text(Slice(o, op.i1, op.i2))]
    case Delete => [Marker(DeleteStart), Text(Slice(o, op.i1, op.i2)), Marker(DeleteEnd)]
    case Replace => [Marker(ReplaceStart), Text(Slice(o, op.i1, op.i2)), Marker(ReplaceEnd)]
    case Insert => []
  }

  /** What one opcode appends to `newlist`. */
  function NewSide(op: Opcode, n: string): seq<Piece>
  {
    match op.tag
    case Equal => [Text(Slice(n, op.j1, op.j2))]
    case Delete => []
    case Replace => [Marker(ReplaceStart), Text(Slice(n, op.j1, op.j2)), Marker(ReplaceEnd)]
    case Insert => [Marker(InsertStart), Text(Slice(n, op.j1, op.j2)), Marker(InsertEnd)]
  }

  /** The per-opcode effect of MarkupColor.markup: an equal opcode gives both sides
      the same unmarked text when difflib's slices agree; delete adds to the old side
      only and insert to the new side only, in their markers; replace marks both sides. */
  lemma OpcodeEffect(op: Opcode, o: string, n: string)
    ensures op.tag == Equal && Slice(o, op.i1, op.i2) == Slice(n, op.j1, op.j2) ==>
      OldSide(op, o) == NewSide(op, n) == [Text(Slice(o, op.i1, op.i2))]
    ensures op.tag == Delete ==>
      NewSide(op, n) == [] && OldSide(op, o) == [Marker(DeleteStart), Text(Slice(o, op.i1, op.i2)), Marker(DeleteEnd)]
    ensures op.tag == Insert ==>
      OldSide(op, o) == [] && NewSide(op, n) == [Marker(InsertStart), Text(Slice(n, op.j1, op.j2)), Marker(InsertEnd)]
    ensures op.tag == Replace ==>
      OldSide(op, o) == [Marker(ReplaceStart), Text(Slice(o, op.i1, op.i2)), Marker(ReplaceEnd)] &&
      NewSide(op, n) == [Marker(ReplaceStart), Text(Slice(n, op.j1, op.j2)), Marker(ReplaceEnd)]
  {
  }

  /** `oldlist` and `newlist` after the loop over the opcodes. */
  function OldPieces(ops: seq<Opcode>, o: string): seq<Piece>
  {
    if ops == [] then [] else OldSide(ops[0], o) + OldPieces(ops[1..], o)
  }

  function NewPieces(ops: seq<Opcode>, n: string): seq<Piece>
  {
    if ops == [] then [] else NewSide(ops[0], n) + NewPieces(ops[1..], n)
  }

  /** "".join(pieces): the markup string. */
  function Join(ps: seq<Piece>): string
  {
    if ps == [] then "" else
      (match ps[0] case Text(t) => t case Marker(m) => m) + Join(ps[1..])
  }

  /** The markup with the markers stripped: only the text pieces. */
  function Plain(ps: seq<Piece>): string
  {
    if ps == [] then "" else
      (match ps[0] case Text(t) => t case Marker(_) => "") + Plain(ps[1..])
  }

  lemma {:induction false} PlainAppend(a: seq<Piece>, b: seq<Piece>)
    ensures Plain(a + b) == Plain(a) + Plain(b)
  {
    if a != [] {
      assert (a + b)[1..] == a[1..] + b;
      PlainAppend(a[1..], b);
    } else {
      assert a + b == b;
    }
  }

  lemma {:induction false} JoinAppend(a: seq<Piece>, b: seq<Piece>)
    ensures Join(a + b) == Join(a) + Join(b)
  {
    if a != [] {
      assert (a + b)[1..] == a[1..] + b;
      JoinAppend(a[1..], b);
    } else {
      assert a + b == b;
    }
  }

  /** The opcodes, from old position i and new position j on, cover the rest of
      both strings in order, as difflib's get_opcodes does: each opcode starts where
      the previous one ended, a delete covers nothing of the new string and an insert
      nothing of the old one. */
  ghost predicate Tiles(ops: seq<Opcode>, o: string, n: string, i: nat, j: nat)
    decreases |ops|
  {
    if ops == [] then i == |o| && j == |n|
    else
      var op := ops[0];
      op.i1 == i && i <= op.i2 <= |o| && op.j1 == j && j <= op.j2 <= |n| &&
      (op.tag == Delete ==> op.j1 == op.j2) &&
      (op.tag == Insert ==> op.i1 == op.i2) &&
      Tiles(ops[1..], o, n, op.i2, op.j2)
  }

  lemma PlainSides(op: Opcode, o: string, n: string)
    ensures op.tag != Insert ==> Plain(OldSide(op, o)) == Slice(o, op.i1, op.i2)
    ensures op.tag == Insert ==> Plain(OldSide(op, o)) == ""
    ensures op.tag != Delete ==> Plain(NewSide(op, n)) == Slice(n, op.j1, op.j2)
    ensures op.tag == Delete ==> Plain(NewSide(op, n)) == ""
  {
    var t, u := Slice(o, op.i1, op.i2), Slice(n, op.j1, op.j2);
    assert Plain([Text(t)]) == t;
    assert Plain([Text(u)]) == u;
    assert Plain([Marker(DeleteEnd)]) == "";
    assert Plain([Marker(ReplaceEnd)]) == "";
    assert Plain([Marker(InsertEnd)]) == "";
  }

  /** Stripping the markers from the markup gives back the names. */
  lemma {:induction false} StripMarkers(ops: seq<Opcode>, o: string, n: string, i: nat, j: nat)
    requires Tiles(ops, o, n, i, j)
    ensures i <= |o| && j <= |n|
    ensures Plain(OldPieces(ops, o)) == o[i..]
    ensures Plain(NewPieces(ops, n)) == n[j..]
  {
    if ops != [] {
      var op := ops[0];
      StripMarkers(ops[1..], o, n, op.i2, op.j2);
      PlainAppend(OldSide(op, o), OldPieces(ops[1..], o));
      PlainAppend(NewSide(op, n), NewPieces(ops[1..], n));
      PlainSides(op, o, n);
      assert o[i..] == o[i..op.i2] + o[op.i2..];
      assert n[j..] == n[j..op.j2] + n[op.j2..];
    }
  }

  ghost predicate AllEqual(ops: seq<Opcode>)
  {
    forall k :: 0 <= k < |ops| ==> ops[k].tag == Equal
  }

  /** When the opcodes say nothing changed, the markup is the names themselves. */
  lemma {:induction false} UnchangedMarkup(ops: seq<Opcode>, o: string, n: string, i: nat, j: nat)
    requires Tiles(ops, o, n, i, j) && AllEqual(ops)
    ensures i <= |o| && j <= |n|
    ensures Join(OldPieces(ops, o)) == o[i..]
    ensures Join(NewPieces(ops, n)) == n[j..]
  {
    if ops != [] {
      var op := ops[0];
      assert AllEqual(ops[1..]) by {
        forall k | 0 <= k < |ops[1..]| ensures ops[1..][k].tag == Equal {
          assert ops[1..][k] == ops[k + 1];
        }
      }
      UnchangedMarkup(ops[1..], o, n, op.i2, op.j2);
      JoinAppend(OldSide(op, o), OldPieces(ops[1..], o));
      JoinAppend(NewSide(op, n), NewPieces(ops[1..], n));
      assert o[i..] == o[i..op.i2] + o[op.i2..];
      assert n[j..] == n[j..op.j2] + n[op.j2..];
    }
  }

  /** The markup MarkupColor.markup writes for one row. */
  function ColorRow(row: Row, opcodes: (string, string) -> seq<Opcode>): Row
  {
    var ops := opcodes(row.original, row.preview);
    row.(markupOriginal := Join(OldPieces(ops, row.original)),
         markupPreview := Join(NewPieces(ops, row.preview)))
  }

  /** MarkupNoop.markup: columns 2 and 3 become copies of columns 0 and 1. */
  method Noop(model: FilesModel)
    modifies model
    ensures |model.rows| == |old(model.rows)|
    ensures forall i :: 0 <= i < |model.rows| ==>
      model.rows[i] == old(model.rows)[i].(markupOriginal := old(model.rows)[i].original,
                                           markupPreview := old(model.rows)[i].preview)
  {
    model.UpdateEachRow((ii: nat, row: Row) => row.(markupOriginal := row.original, markupPreview := row.preview));
  }

  /** MarkupColor.markup, where opcodes stands for difflib.SequenceMatcher's
      get_opcodes on the two names of a row. Only columns 2 and 3 are written. */
  method Color(model: FilesModel, opcodes: (string, string) -> seq<Opcode>)
    modifies model
    ensures |model.rows| == |old(model.rows)|
    ensures forall i :: 0 <= i < |model.rows| ==> model.rows[i] == ColorRow(old(model.rows)[i], opcodes)
  {
    model.UpdateEachRow((ii: nat, row: Row) => ColorRow(row, opcodes));
  }

  /** When difflib's opcodes tile both names, stripping the markers from the colour
      markup of every row gives back columns 0 and 1, and a row whose opcodes are
      all `equal` gets markup identical to its names. */
  lemma ColorMarkupFaithful(rows: seq<Row>, opcodes: (string, string) -> seq<Opcode>, i: nat)
    requires i < |rows|
    requires Tiles(opcodes(rows[i].original, rows[i].preview), rows[i].original, rows[i].preview, 0, 0)
    ensures Plain(OldPieces(opcodes(rows[i].original, rows[i].preview), rows[i].original)) == rows[i].original
    ensures Plain(NewPieces(opcodes(rows[i].original, rows[i].preview), rows[i].preview)) == rows[i].preview
    ensures AllEqual(opcodes(rows[i].original, rows[i].preview)) ==>
      ColorRow(rows[i], opcodes).markupOriginal == rows[i].original &&
      ColorRow(rows[i], opcodes).markupPreview == rows[i].preview
  {
    var ops := opcodes(rows[i].original, rows[i].preview);
    StripMarkers(ops, rows[i].original, rows[i].preview, 0, 0);
    if AllEqual(ops) {
      UnchangedMarkup(ops, rows[i].original, rows[i].preview, 0, 0);
    }
  }
}
