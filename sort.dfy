/** The name comparator of gnome-bulk-rename/sort.py: Python 2 `cmp` on the
    names in column 0, either as they are or lowercased. Characters stand for
    bytes, and lowercasing is the ASCII one of the C locale. */
module Sort {
  import opened Rows

  /** Python 2 cmp on byte strings: -1, 0 or 1, lexicographic by character code. */
  function Cmp(a: string, b: string): (r: int)
    ensures -1 <= r <= 1
    ensures r == 0 <==> a == b
  {
    if a == [] then (if b == [] then 0 else -1)
    else if b == [] then 1
    else if a[0] < b[0] then -1
    else if b[0] < a[0] then 1
    else
      var r := Cmp(a[1..], b[1..]);
      assert r == 0 ==> a == [a[0]] + a[1..] == [b[0]] + b[1..] == b;
      assert a == b ==> a[1..] == b[1..];
      r
  }

  /** a comes strictly before b in lexicographic order: at the first position where
      they differ a has the smaller character, or a is a proper prefix of b. */
  ghost predicate LexLess(a: string, b: string)
  {
    exists k :: 0 <= k <= |a| && k <= |b| && a[..k] == b[..k] &&
      (k == |a| < |b| || (k < |a| && k < |b| && a[k] < b[k]))
  }

  /** Cmp is the sign of the lexicographic comparison. */
  lemma {:induction false} CmpIsLexicographic(a: string, b: string)
    ensures Cmp(a, b) == -1 <==> LexLess(a, b)
    ensures Cmp(a, b) == 1 <==> LexLess(b, a)
  {
    CommonPrefixHeads(a, b);
    CommonPrefixHeads(b, a);
    if a == [] || b == [] || a[0] != b[0] {
      assert a[..0] == b[..0];
    } else {
      CmpIsLexicographic(a[1..], b[1..]);
      LexLessTail(a, b);
      LexLessTail(b, a);
    }
  }

  /** Strings with a non-empty common prefix start with the same character. */
  lemma CommonPrefixHeads(a: string, b: string)
    ensures forall k :: 0 < k <= |a| && k <= |b| && a[..k] == b[..k] ==> a[0] == b[0]
  {
    forall k | 0 < k <= |a| && k <= |b| && a[..k] == b[..k]
      ensures a[0] == b[0]
    {
      assert a[0] == a[..k][0] && b[0] == b[..k][0];
    }
  }

  /** Two strings with the same first character compare as their tails. */
  lemma LexLessTail(a: string, b: string)
    requires a != [] && b != [] && a[0] == b[0]
    ensures LexLess(a, b) <==> LexLess(a[1..], b[1..])
  {
    if LexLess(a, b) {
      var k :| 0 <= k <= |a| && k <= |b| && a[..k] == b[..k] &&
        (k == |a| < |b| || (k < |a| && k < |b| && a[k] < b[k]));
      if k > 0 {
        assert a[1..][..k - 1] == a[..k][1..] == b[..k][1..] == b[1..][..k - 1];
      }
    }
    if LexLess(a[1..], b[1..]) {
      var k :| 0 <= k <= |a[1..]| && k <= |b[1..]| && a[1..][..k] == b[1..][..k] &&
        (k == |a[1..]| < |b[1..]| || (k < |a[1..]| && k < |b[1..]| && a[1..][k] < b[1..][k]));
      assert a[..k + 1] == [a[0]] + a[1..][..k] == [b[0]] + b[1..][..k] == b[..k + 1];
    }
  }

  /** cmp is antisymmetric. */
  lemma {:induction false} CmpAntisymmetric(a: string, b: string)
    ensures Cmp(a, b) == -Cmp(b, a)
  {
    if a != [] && b != [] && a[0] == b[0] {
      CmpAntisymmetric(a[1..], b[1..]);
    }
  }

  function LowerChar(c: char): char
  {
    if 'A' <= c <= 'Z' then (c as int + 32) as char else c
  }

  /** str.lower() */
  function Lower(s: string): (r: string)
    ensures |r| == |s|
    ensures forall i :: 0 <= i < |s| ==> r[i] == LowerChar(s[i])
  {
    if s == [] then [] else [LowerChar(s[0])] + Lower(s[1..])
  }

  /** gtk.SORT_ASCENDING and gtk.SORT_DESCENDING */
  datatype SortOrder = Ascending | Descending

  /** gtk.TREE_SORTABLE_UNSORTED_SORT_COLUMN_ID */
  const UnsortedSortColumnId := -2

  /** The part of a gtk.TreeSortable the comparator uses: its sort column and the
      calls of set_sort_column_id made so far, each of which re-sorts the model. */
  class TreeSortable {
    var sortColumnId: int
    var order: SortOrder
    var settings: seq<(int, SortOrder)>

    constructor (id: int, order: SortOrder)
      ensures sortColumnId == id && this.order == order && settings == []
    {
      sortColumnId, this.order, settings := id, order, [];
    }

    method SetSortColumnId(id: int, order: SortOrder)
      modifies this
      ensures sortColumnId == id && this.order == order
      ensures settings == old(settings) + [(id, order)]
    {
      sortColumnId, this.order := id, order;
      settings := settings + [(id, order)];
    }
  }

  /** ByName, without its check-button widget. */
  class ByName {
    const treesortable: TreeSortable
    var caseSensitive: bool

    /** The check button starts active, so comparison starts case sensitive. */
    constructor (treesortable: TreeSortable)
      ensures this.treesortable == treesortable && caseSensitive
    {
      this.treesortable := treesortable;
      caseSensitive := true;
    }

    /** sort(model, iter1, iter2) on the rows the two iterators point at. */
    function Compare(a: Row, b: Row): (r: int)
      reads this
      ensures -1 <= r <= 1
      ensures r == 0 <==> if caseSensitive then a.original == b.original else Lower(a.original) == Lower(b.original)
    {
      if caseSensitive then Cmp(a.original, b.original)
      else Cmp(Lower(a.original), Lower(b.original))
    }

    /** The comparator is antisymmetric in both modes, and it is the lexicographic
        comparison of the names, lowercased when the mode is case insensitive. */
    lemma CompareIsLexicographic(a: Row, b: Row)
      ensures Compare(a, b) == -Compare(b, a)
      ensures -1 <= Compare(a, b) <= 1
      ensures caseSensitive ==> (Compare(a, b) == -1 <==> LexLess(a.original, b.original))
      ensures caseSensitive ==> (Compare(a, b) == 0 <==> a.original == b.original)
      ensures !caseSensitive ==> (Compare(a, b) == -1 <==> LexLess(Lower(a.original), Lower(b.original)))
      ensures !caseSensitive ==> (Compare(a, b) == 0 <==> Lower(a.original) == Lower(b.original))
    {
      CmpAntisymmetric(a.original, b.original);
      CmpAntisymmetric(Lower(a.original), Lower(b.original));
      CmpIsLexicographic(a.original, b.original);
      CmpIsLexicographic(Lower(a.original), Lower(b.original));
    }

    /** _on_case_check_toggled: the mode follows the check button, and the model is
        re-sorted by setting it unsorted and then back to its previous sort column. */
    method OnCaseCheckToggled(active: bool)
      modifies this, treesortable
      ensures caseSensitive == active
      ensures treesortable.sortColumnId == old(treesortable.sortColumnId)
      ensures treesortable.order == old(treesortable.order)
      ensures treesortable.settings == old(treesortable.settings) +
        [(UnsortedSortColumnId, Descending), (old(treesortable.sortColumnId), old(treesortable.order))]
    {
      caseSensitive := active;
      var oldId, oldOrder := treesortable.sortColumnId, treesortable.order;
      treesortable.SetSortColumnId(UnsortedSortColumnId, Descending);
      treesortable.SetSortColumnId(oldId, oldOrder);
    }
  }

  /** In case-insensitive mode, names differing only in upper and lower case compare equal. */
  lemma CaseInsensitiveIgnoresCase(s: ByName, a: Row, b: Row)
    requires !s.caseSensitive
    requires |a.original| == |b.original|
    requires forall i :: 0 <= i < |a.original| ==> LowerChar(a.original[i]) == LowerChar(b.original[i])
    ensures s.Compare(a, b) == 0
  {
    assert Lower(a.original) == Lower(b.original);
  }
}
