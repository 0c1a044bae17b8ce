/**
 * The line wrapping of the `names[]` and `int_values[]` initialisers that
 * EnumGenerator::GenerateSource prints: entries go on the current row until
 * the next one would take the row past kMaxRowChars, and every row starts
 * with a line break and a five-space indent.
 */
module RowWrapping {

  /** kMaxRowChars */
  const MaxRowChars: int := 80
  /** The characters a row starts with after its line break ("     "). */
  const RowIndent: int := 5

  /** Characters the entries of a row take, each as given by width. */
  function RowWidth<T>(row: seq<T>, width: T -> nat): nat {
    if row == [] then 0 else RowWidth(row[..|row| - 1], width) + width(row[|row| - 1])
  }

  /** The rows' entries, one row after another. */
  function Flatten<T>(rows: seq<seq<T>>): seq<T> {
    if rows == [] then [] else Flatten(rows[..|rows| - 1]) + rows[|rows| - 1]
  }

  /**
   * rows is the greedy layout of items: all the entries in order, no empty
   * row, every row within the limit unless it holds a single over-long entry,
   * and every row ended only because the next entry would not fit on it.
   */
  ghost predicate GreedyRows<T>(items: seq<T>, width: T -> nat, rows: seq<seq<T>>) {
    && Flatten(rows) == items
    && (forall j :: 0 <= j < |rows| ==> rows[j] != [])
    && (forall j :: 0 <= j < |rows| ==> RowIndent + RowWidth(rows[j], width) <= MaxRowChars || |rows[j]| == 1)
    && (forall j :: 0 <= j < |rows| - 1 ==>
          RowIndent + RowWidth(rows[j], width) + width(rows[j + 1][0]) > MaxRowChars)
  }

  /**
   * One wrapping loop of GenerateSource. `rowChars` starts past the limit, so
   * the first entry always gets a line break; a break is printed exactly when
   * `rowChars + added > kMaxRowChars`, after which `rowChars` is the indent
   * plus the entry; otherwise the entry joins the current row.
   */
  method WrapRows<T>(items: seq<T>, width: T -> nat) returns (rows: seq<seq<T>>)
    ensures GreedyRows(items, width, rows)
  {
    rows := [];
    var rowChars := MaxRowChars + 1;
    for i := 0 to |items|
      invariant WrapState(items[..i], width, rows, rowChars)
    {
      var added := width(items[i]);
      if rowChars + added > MaxRowChars {
        // a line break and the five-space indent start a new row
        StartRow(items, i, width, rows, rowChars);
        rows := rows + [[items[i]]];
        rowChars := RowIndent;
      } else {
        ExtendRow(items, i, width, rows, rowChars);
        rows := rows[..|rows| - 1] + [rows[|rows| - 1] + [items[i]]];
      }
      rowChars := rowChars + added;
    }
    WrapDone(items, width, rows, rowChars);
  }

  /**
   * The loop's state after the entries `done`: rows is their greedy layout
   * and `rowChars` is past the limit before the first entry, and otherwise
   * the indent plus the width of the last row.
   */
  ghost predicate WrapState<T>(done: seq<T>, width: T -> nat, rows: seq<seq<T>>, rowChars: int) {
    && GreedyRows(done, width, rows)
    && (done == [] <==> rows == [])
    && (done == [] ==> rowChars == MaxRowChars + 1)
    && (done != [] ==> rows != [] && rowChars == RowIndent + RowWidth(rows[|rows| - 1], width))
  }

  /** A line break followed by the next entry keeps the loop's state. */
  lemma StartRow<T>(items: seq<T>, i: nat, width: T -> nat, rows: seq<seq<T>>, rowChars: int)
    requires i < |items| && WrapState(items[..i], width, rows, rowChars)
    requires rowChars + width(items[i]) > MaxRowChars
    ensures WrapState(items[..i + 1], width, rows + [[items[i]]], RowIndent + width(items[i]))
  {
    assert items[..i + 1] == items[..i] + [items[i]];
    NewRow(items[..i], items[i], width, rows);
  }

  /** A new row holding just x extends a greedy layout when x does not fit on its last row. */
  lemma NewRow<T>(done: seq<T>, x: T, width: T -> nat, rows: seq<seq<T>>)
    requires GreedyRows(done, width, rows)
    requires rows != [] ==> RowIndent + RowWidth(rows[|rows| - 1], width) + width(x) > MaxRowChars
    ensures GreedyRows(done + [x], width, rows + [[x]])
  {
    var rows' := rows + [[x]];
    assert Flatten(rows') == done + [x] by {
      assert rows'[..|rows|] == rows;
    }
    forall j | 0 <= j < |rows'|
      ensures rows'[j] != []
      ensures RowIndent + RowWidth(rows'[j], width) <= MaxRowChars || |rows'[j]| == 1
    {
      if j < |rows| {
        assert rows'[j] == rows[j];
      }
    }
    forall j | 0 <= j < |rows'| - 1
      ensures RowIndent + RowWidth(rows'[j], width) + width(rows'[j + 1][0]) > MaxRowChars
    {
      assert rows'[j] == rows[j];
    }
  }

  /** The next entry joining the current row keeps the loop's state. */
  lemma ExtendRow<T>(items: seq<T>, i: nat, width: T -> nat, rows: seq<seq<T>>, rowChars: int)
    requires i < |items| && WrapState(items[..i], width, rows, rowChars)
    requires rowChars + width(items[i]) <= MaxRowChars
    ensures rows != []
    ensures WrapState(items[..i + 1], width, rows[..|rows| - 1] + [rows[|rows| - 1] + [items[i]]],
                      rowChars + width(items[i]))
  {
    assert items[..i + 1] == items[..i] + [items[i]];
    JoinRow(items[..i], items[i], width, rows);
    RowWidthSnoc(rows[|rows| - 1], items[i], width);
  }

  /** x joining the last row extends a greedy layout when it fits there. */
  lemma JoinRow<T>(done: seq<T>, x: T, width: T -> nat, rows: seq<seq<T>>)
    requires GreedyRows(done, width, rows) && rows != []
    requires RowIndent + RowWidth(rows[|rows| - 1], width) + width(x) <= MaxRowChars
    ensures GreedyRows(done + [x], width, rows[..|rows| - 1] + [rows[|rows| - 1] + [x]])
  {
    var n := |rows| - 1;
    var last := rows[n];
    var rows' := rows[..n] + [last + [x]];
    RowWidthSnoc(last, x, width);
    assert Flatten(rows') == done + [x] by {
      assert rows'[..n] == rows[..n];
      assert Flatten(rows) == Flatten(rows[..n]) + last;
    }
    forall j | 0 <= j < |rows'|
      ensures rows'[j] != []
      ensures RowIndent + RowWidth(rows'[j], width) <= MaxRowChars || |rows'[j]| == 1
    {
      if j < n {
        assert rows'[j] == rows[j];
      }
    }
    forall j | 0 <= j < |rows'| - 1
      ensures RowIndent + RowWidth(rows'[j], width) + width(rows'[j + 1][0]) > MaxRowChars
    {
      assert rows'[j] == rows[j];
      assert rows'[j + 1][0] == rows[j + 1][0];
    }
  }

  /** After the last entry the loop's rows are the greedy layout of all of them. */
  lemma WrapDone<T>(items: seq<T>, width: T -> nat, rows: seq<seq<T>>, rowChars: int)
    requires WrapState(items[..|items|], width, rows, rowChars)
    ensures GreedyRows(items, width, rows)
  {
    assert items[..|items|] == items;
  }

  /** The greedy layout is unique: the greedy-row conditions leave no choice of where to break. */
  lemma {:induction false} GreedyRowsUnique<T>(items: seq<T>, width: T -> nat, rows1: seq<seq<T>>, rows2: seq<seq<T>>)
    requires GreedyRows(items, width, rows1)
    requires GreedyRows(items, width, rows2)
    ensures rows1 == rows2
    decreases |items|
  {
    if rows1 == [] || rows2 == [] {
      NoEmptyFlatten(rows1);
      NoEmptyFlatten(rows2);
    } else {
      var a := |rows1[0]|;
      SameFirstRow(items, width, rows1, rows2);
      GreedyRowsUnique(items[a..], width, rows1[1..], rows2[1..]);
      assert rows1 == [rows1[0]] + rows1[1..];
      assert rows2 == [rows2[0]] + rows2[1..];
    }
  }

  /** Two greedy layouts of the same entries start with the same row, and what follows it is greedy. */
  lemma SameFirstRow<T>(items: seq<T>, width: T -> nat, rows1: seq<seq<T>>, rows2: seq<seq<T>>)
    requires GreedyRows(items, width, rows1) && rows1 != []
    requires GreedyRows(items, width, rows2) && rows2 != []
    ensures rows1[0] == rows2[0] && 0 < |rows1[0]| <= |items|
    ensures GreedyRows(items[|rows1[0]|..], width, rows1[1..])
    ensures GreedyRows(items[|rows1[0]|..], width, rows2[1..])
  {
    GreedyTail(items, width, rows1);
    GreedyTail(items, width, rows2);
    var a, b := |rows1[0]|, |rows2[0]|;
    if a < b {
      FirstRowIsLongest(items, width, rows1, rows2);
    } else if b < a {
      FirstRowIsLongest(items, width, rows2, rows1);
    }
    assert rows1[0] == rows2[0];
  }

  /** A greedy first row cannot stop before another greedy layout's first row ends. */
  lemma FirstRowIsLongest<T>(items: seq<T>, width: T -> nat, rows1: seq<seq<T>>, rows2: seq<seq<T>>)
    requires GreedyRows(items, width, rows1) && rows1 != []
    requires GreedyRows(items, width, rows2) && rows2 != []
    requires |rows1[0]| <= |items| && |rows2[0]| <= |items|
    requires rows1[0] == items[..|rows1[0]|] && rows2[0] == items[..|rows2[0]|]
    requires Flatten(rows1[1..]) == items[|rows1[0]|..]
    ensures |rows2[0]| <= |rows1[0]|
  {
    var a, b := |rows1[0]|, |rows2[0]|;
    if a < b {
      NoEmptyFlatten(rows1[1..]);
      assert |rows1| >= 2;
      FlattenFront(rows1[1..]);
      assert rows1[1][0] == items[a];
      assert rows2[0][..a + 1] == rows1[0] + [items[a]];
      RowWidthSnoc(rows1[0], items[a], width);
      RowWidthPrefix(rows2[0], a + 1, width);
      assert false;
    }
  }

  /** Taking off the first row of a greedy layout leaves a greedy layout of the remaining entries. */
  lemma GreedyTail<T>(items: seq<T>, width: T -> nat, rows: seq<seq<T>>)
    requires GreedyRows(items, width, rows) && rows != []
    ensures |rows[0]| <= |items| && rows[0] == items[..|rows[0]|]
    ensures Flatten(rows[1..]) == items[|rows[0]|..]
    ensures GreedyRows(items[|rows[0]|..], width, rows[1..])
  {
    FlattenFront(rows);
  }

  /** Rows without empty entries flatten to nothing only when there are none. */
  lemma NoEmptyFlatten<T>(rows: seq<seq<T>>)
    requires forall j :: 0 <= j < |rows| ==> rows[j] != []
    ensures Flatten(rows) == [] <==> rows == []
  {
    if rows != [] {
      FlattenFront(rows);
    }
  }

  lemma {:induction false} FlattenFront<T>(rows: seq<seq<T>>)
    requires rows != []
    ensures Flatten(rows) == rows[0] + Flatten(rows[1..])
    decreases |rows|
  {
    if |rows| > 1 {
      var init := rows[..|rows| - 1];
      FlattenFront(init);
      assert init[1..] == rows[1..][..|rows[1..]| - 1];
    } else {
      assert rows[..0] == [];
    }
  }

  lemma RowWidthSnoc<T>(row: seq<T>, x: T, width: T -> nat)
    ensures RowWidth(row + [x], width) == RowWidth(row, width) + width(x)
  {
    assert (row + [x])[..|row|] == row;
  }

  lemma {:induction false} RowWidthPrefix<T>(row: seq<T>, k: nat, width: T -> nat)
    requires k <= |row|
    ensures RowWidth(row[..k], width) <= RowWidth(row, width)
    decreases |row|
  {
    if k < |row| {
      RowWidthPrefix(row[..|row| - 1], k, width);
      assert row[..|row| - 1][..k] == row[..k];
    } else {
      assert row[..k] == row;
    }
  }
}
