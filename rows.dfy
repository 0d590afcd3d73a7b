/** The files model shared by every component: a list store of rows whose
    eight columns are laid out as in gnome-bulk-rename/constants.py. */
module Rows {

  datatype Option<T> = None | Some(value: T)

  /** One row of the files model, column by column. A GFile is modelled by its URI. */
  datatype Row = Row(
    original: string,         // column 0: current display name
    preview: string,          // column 1: proposed display name
    markupOriginal: string,   // column 2: markup shown for column 0
    markupPreview: string,    // column 3: markup shown for column 1
    gfile: string,            // column 4: the file, by URI
    icon: Option<string>,     // column 5: stock id of the problem icon
    tooltip: Option<string>,  // column 6: problem text
    dirname: string)          // column 7: URI of the containing folder, ending in '/'

  /** gtk.STOCK_DIALOG_ERROR */
  const StockDialogError := "gtk-dialog-error"

  /** The tooltip the rename engine writes into a row whose rename failed. */
  function ErrorTooltip(message: string): (t: string)
    ensures |t| == |"<b>ERROR:</b> "| + |message|
    ensures t[|"<b>ERROR:</b> "|..] == message
  {
    "<b>ERROR:</b> " + message
  }

  /** The new rows differ from the old ones in column 1 at most. */
  ghost predicate OnlyPreviewWritten(old_: seq<Row>, new_: seq<Row>)
  {
    |new_| == |old_| &&
    forall i :: 0 <= i < |old_| ==> new_[i] == old_[i].(preview := new_[i].preview)
  }

  /** The rows obtained by rewriting every row with f (f also sees the row's index). */
  function MapRows(rows: seq<Row>, f: (nat, Row) -> Row): (r: seq<Row>)
    ensures |r| == |rows|
    ensures forall i :: 0 <= i < |rows| ==> r[i] == f(i, rows[i])
  {
    seq(|rows|, i requires 0 <= i < |rows| => f(i, rows[i]))
  }

  /** The list store. Methods of the other modules rewrite its rows in place. */
  class FilesModel {
    var rows: seq<Row>

    constructor (rows: seq<Row>)
      ensures this.rows == rows
    {
      this.rows := rows;
    }

    /** The `for row in model: row[...] = ...` loop shared by the previewers,
        the markup generators and the checker. */
    method UpdateEachRow(f: (nat, Row) -> Row)
      modifies this
      ensures rows == MapRows(old(rows), f)
    {
      var ii := 0;
      while ii < |rows|
        invariant 0 <= ii <= |rows| == |old(rows)|
        invariant forall k :: 0 <= k < ii ==> rows[k] == f(k, old(rows)[k])
        invariant forall k :: ii <= k < |rows| ==> rows[k] == old(rows)[k]
      {
        rows := rows[ii := f(ii, rows[ii])];
        ii := ii + 1;
      }
    }
  }
}
