/** TableBuilder.DrawAsTable from PathHinter/TableBuilder.cs: lays a list of
    strings out row by row in as many equal-width columns as fit the window.
    The model returns the lines instead of printing them. */
module TableBuilder {
  import opened DotNet

  /** `list.Max(item => item.ToString().Length)`. */
  function LongestLength(items: seq<string>): (r: nat)
    requires items != []
    ensures forall i :: 0 <= i < |items| ==> |items[i]| <= r
    ensures exists i :: 0 <= i < |items| && |items[i]| == r
  {
    if |items| == 1 then |items[0]|
    else
      var rest := LongestLength(items[1..]);
      if |items[0]| >= rest then |items[0]| else rest
  }

  function Min(a: int, b: int): int
  {
    if a <= b then a else b
  }

  /** `(int)Math.Ceiling((double)count / columns)`, on exact integers. */
  function CeilDiv(count: nat, columns: nat): nat
    requires columns >= 1
  {
    (count + columns - 1) / columns
  }

  /** `i * columns`, built by repeated addition so that the layout proofs stay linear. */
  function RowStart(columns: nat, i: nat): nat
  {
    if i == 0 then 0 else RowStart(columns, i - 1) + columns
  }

  lemma {:induction false} RowStartIsProduct(columns: nat, i: nat)
    ensures RowStart(columns, i) == i * columns
  {
    if i > 0 {
      RowStartIsProduct(columns, i - 1);
      assert (i - 1) * columns + columns == i * columns;
    }
  }

  lemma {:induction false} RowStartMonotone(columns: nat, i: nat, k: nat)
    requires i < k
    ensures RowStart(columns, i) + columns <= RowStart(columns, k)
    decreases k
  {
    if i < k - 1 {
      RowStartMonotone(columns, i, k - 1);
    }
  }

  /** The number of lines is the least row count whose rows hold every item. */
  lemma CeilDivBounds(count: nat, columns: nat)
    requires columns >= 1
    ensures RowStart(columns, CeilDiv(count, columns)) >= count
    ensures count >= 1 ==> CeilDiv(count, columns) >= 1 && RowStart(columns, CeilDiv(count, columns) - 1) < count
  {
    var q := (count + columns - 1) / columns;
    var rem := (count + columns - 1) % columns;
    assert q * columns + rem == count + columns - 1;
    assert q * columns >= count;
    RowStartIsProduct(columns, q);
    if count >= 1 {
      assert q >= 1;
      RowStartIsProduct(columns, q - 1);
      assert (q - 1) * columns == q * columns - columns;
    }
  }

  /** The items that go on line `i` when there are `columns` per line. */
  function RowAt(items: seq<string>, columns: nat, i: nat): seq<string>
  {
    items[Min(RowStart(columns, i), |items|)..Min(RowStart(columns, i) + columns, |items|)]
  }

  /** The first `k` rows of the grid. */
  function Rows(items: seq<string>, columns: nat, k: nat): seq<seq<string>>
  {
    if k == 0 then [] else Rows(items, columns, k - 1) + [RowAt(items, columns, k - 1)]
  }

  /** The rows read one after the other. */
  function Flatten(rows: seq<seq<string>>): seq<string>
  {
    if rows == [] then [] else Flatten(rows[..|rows| - 1]) + rows[|rows| - 1]
  }

  /** One line: every item of the row right-padded to `width`, side by side. */
  function JoinPadded(row: seq<string>, width: nat): string
  {
    if row == [] then "" else JoinPadded(row[..|row| - 1], width) + PadRight(row[|row| - 1], width)
  }

  lemma JoinPaddedSnoc(row: seq<string>, item: string, width: nat)
    ensures JoinPadded(row + [item], width) == JoinPadded(row, width) + PadRight(item, width)
  {
    assert (row + [item])[..|row|] == row;
  }

  /** `windowWidth / maxLength`: how many columns of width `maxLength` fit the window. */
  function Columns(windowWidth: int, maxLength: int): (c: nat)
    requires 1 <= maxLength <= windowWidth
    ensures c >= 1
  {
    var q, rem := windowWidth / maxLength, windowWidth % maxLength;
    assert q * maxLength + rem == windowWidth;
    q
  }

  /** The lines of the table: row `i` of `columns` items, each padded to `width`. */
  function Table(items: seq<string>, columns: nat, width: nat): (lines: seq<string>)
    requires columns >= 1
  {
    seq(CeilDiv(|items|, columns), i requires 0 <= i => JoinPadded(RowAt(items, columns, i), width))
  }

  /** DrawAsTable. `padding` is the padding argument and `windowWidth` stands
      for Console.WindowWidth. An empty list makes `Max` throw; the caller must
      leave room for at least one column. */
  method DrawAsTable(items: seq<string>, padding: int, windowWidth: int) returns (r: Result<seq<string>, Exception>)
    requires items != [] ==> 1 <= LongestLength(items) + padding <= windowWidth
    ensures items == [] ==> r == Failure(InvalidOperation)
    ensures items != [] ==>
              r == Success(Table(items, Columns(windowWidth, LongestLength(items) + padding), LongestLength(items) + padding))
  {
    if items == [] {
      return Failure(InvalidOperation);
    }
    var maxLength: nat := LongestLength(items) + padding;
    var columns := Columns(windowWidth, maxLength);
    var lines := DrawRows(items, columns, maxLength);
    r := Success(lines);
  }

  /** The outer loop of DrawAsTable: one line per row of `columns` items. */
  method DrawRows(items: seq<string>, columns: nat, maxLength: nat) returns (lines: seq<string>)
    requires columns >= 1
    ensures lines == Table(items, columns, maxLength)
  {
    var rows := CeilDiv(|items|, columns);
    lines := [];
    for i := 0 to rows
      invariant |lines| == i
      invariant forall k :: 0 <= k < i ==> lines[k] == JoinPadded(RowAt(items, columns, k), maxLength)
    {
      var curLine := DrawLine(items, columns, maxLength, i);
      lines := lines + [curLine];
    }
  }

  /** The inner loop of DrawAsTable: line `i`, cell by cell, skipping the
      indices past the end of the list. */
  method DrawLine(items: seq<string>, columns: nat, maxLength: nat, i: nat) returns (curLine: string)
    ensures curLine == JoinPadded(RowAt(items, columns, i), maxLength)
  {
    curLine := "";
    RowStartIsProduct(columns, i);
    var base := RowStart(columns, i);
    var start := Min(base, |items|);
    ghost var cells: seq<string> := [];
    for j := 0 to columns
      invariant cells == items[start..Min(base + j, |items|)]
      invariant curLine == JoinPadded(cells, maxLength)
    {
      var index := j + i * columns;
      assert index == base + j;
      if index >= |items| {
        assert Min(base + j + 1, |items|) == Min(base + j, |items|);
        continue;
      }
      assert start <= index && Min(base + j, |items|) == index && Min(base + j + 1, |items|) == index + 1;
      SliceSnoc(items, start, index);
      JoinPaddedSnoc(cells, items[index], maxLength);
      cells := cells + [items[index]];
      curLine := curLine + PadRight(items[index], maxLength);
    }
    assert cells == RowAt(items, columns, i);
  }

  lemma SliceSnoc(items: seq<string>, lo: nat, hi: nat)
    requires lo <= hi < |items|
    ensures items[lo..hi + 1] == items[lo..hi] + [items[hi]]
  {
  }

  /** Every line but the last holds exactly `columns` items; the last holds between one and `columns`. */
  lemma GridShape(items: seq<string>, columns: nat)
    requires items != [] && columns >= 1
    ensures CeilDiv(|items|, columns) >= 1
    ensures forall i :: 0 <= i < CeilDiv(|items|, columns) - 1 ==> |RowAt(items, columns, i)| == columns
    ensures 1 <= |RowAt(items, columns, CeilDiv(|items|, columns) - 1)| <= columns
  {
    var rows := CeilDiv(|items|, columns);
    CeilDivBounds(|items|, columns);
    forall i | 0 <= i < rows - 1
      ensures |RowAt(items, columns, i)| == columns
    {
      RowStartMonotone(columns, i, rows - 1);
    }
  }

  lemma {:induction false} FlattenPrefix(items: seq<string>, columns: nat, k: nat)
    ensures Flatten(Rows(items, columns, k)) == items[..Min(RowStart(columns, k), |items|)]
  {
    if k > 0 {
      FlattenPrefix(items, columns, k - 1);
      var rows := Rows(items, columns, k);
      assert rows[..|rows| - 1] == Rows(items, columns, k - 1);
      var a := Min(RowStart(columns, k - 1), |items|);
      var b := Min(RowStart(columns, k), |items|);
      assert rows[|rows| - 1] == items[a..b];
      assert RowStart(columns, k) == RowStart(columns, k - 1) + columns;
      PrefixThenSlice(items, a, b);
    }
  }

  lemma PrefixThenSlice<T>(s: seq<T>, a: nat, b: nat)
    requires a <= b <= |s|
    ensures s[..a] + s[a..b] == s[..b]
  {
  }

  /** Reading the rows in order gives back every item exactly once, in list order. */
  lemma GridReassembles(items: seq<string>, columns: nat)
    requires columns >= 1
    ensures Flatten(Rows(items, columns, CeilDiv(|items|, columns))) == items
  {
    CeilDivBounds(|items|, columns);
    FlattenPrefix(items, columns, CeilDiv(|items|, columns));
  }

  /** The middle of three concatenated strings. */
  lemma MiddleSlice(a: string, b: string, c: string)
    ensures (a + b + c)[|a|..|a| + |b|] == b
  {
  }

  /** A line of two runs of cells is the two lines side by side. */
  lemma {:induction false} JoinPaddedAppend(a: seq<string>, b: seq<string>, width: nat)
    ensures JoinPadded(a + b, width) == JoinPadded(a, width) + JoinPadded(b, width)
    decreases |b|
  {
    if b != [] {
      var init := b[..|b| - 1];
      JoinPaddedAppend(a, init, width);
      assert (a + b)[..|a + b| - 1] == a + init;
      assert (a + b)[|a + b| - 1] == b[|b| - 1];
    } else {
      assert a + b == a;
    }
  }

  /** With no item wider than `width`, a line is exactly `width` characters per item. */
  lemma {:induction false} LineLength(row: seq<string>, width: nat)
    requires forall k :: 0 <= k < |row| ==> |row[k]| <= width
    ensures |JoinPadded(row, width)| == RowStart(width, |row|)
  {
    if row != [] {
      LineLength(row[..|row| - 1], width);
    }
  }

  /** With no item wider than `width`, cell `k` of a line occupies
      `[k * width, (k + 1) * width)` and holds item `k` followed by spaces. */
  lemma LineCell(row: seq<string>, width: nat, k: nat)
    requires forall j :: 0 <= j < |row| ==> |row[j]| <= width
    requires k < |row|
    ensures RowStart(width, k) + width <= |JoinPadded(row, width)|
    ensures JoinPadded(row, width)[RowStart(width, k)..RowStart(width, k) + width] == PadRight(row[k], width)
  {
    LineAround(row, width, k);
    PrefixFits(row, width, k);
    LineLength(row[..k], width);
    MiddleSlice(JoinPadded(row[..k], width), PadRight(row[k], width), JoinPadded(row[k + 1..], width));
  }

  /** A line is the cells before `k`, cell `k`, and the cells after it. */
  lemma LineAround(row: seq<string>, width: nat, k: nat)
    requires k < |row|
    ensures JoinPadded(row, width) ==
              JoinPadded(row[..k], width) + PadRight(row[k], width) + JoinPadded(row[k + 1..], width)
  {
    assert row == row[..k] + [row[k]] + row[k + 1..];
    JoinPaddedAppend(row[..k] + [row[k]], row[k + 1..], width);
    JoinPaddedSnoc(row[..k], row[k], width);
  }

  lemma PrefixFits(row: seq<string>, width: nat, k: nat)
    requires forall j :: 0 <= j < |row| ==> |row[j]| <= width
    requires k <= |row|
    ensures forall j :: 0 <= j < |row[..k]| ==> |row[..k][j]| <= width
  {
    forall j | 0 <= j < |row[..k]| ensures |row[..k][j]| <= width {
      assert row[..k][j] == row[j];
    }
  }

  /** With a non-negative padding no cell is ever wider than the column width. */
  lemma CellsFit(items: seq<string>, padding: int, columns: nat, i: nat)
    requires items != [] && padding >= 0
    ensures forall k :: 0 <= k < |RowAt(items, columns, i)| ==>
              |RowAt(items, columns, i)[k]| <= LongestLength(items) + padding
  {
    var row := RowAt(items, columns, i);
    forall k | 0 <= k < |row|
      ensures |row[k]| <= LongestLength(items) + padding
    {
      assert row[k] == items[Min(RowStart(columns, i), |items|) + k];
    }
  }

  /** Columns of width `maxLength` never add up to more than the window. */
  lemma ColumnsFit(windowWidth: int, maxLength: int)
    requires 1 <= maxLength <= windowWidth
    ensures Columns(windowWidth, maxLength) * maxLength <= windowWidth
  {
    var q, rem := windowWidth / maxLength, windowWidth % maxLength;
    assert q * maxLength + rem == windowWidth;
  }

  /** With a non-negative padding every line of the table fits the window. */
  lemma TableFitsWindow(items: seq<string>, padding: int, windowWidth: int)
    requires items != [] && padding >= 0 && 1 <= LongestLength(items) + padding <= windowWidth
    ensures var width := LongestLength(items) + padding;
            var lines := Table(items, Columns(windowWidth, width), width);
            forall i :: 0 <= i < |lines| ==> |lines[i]| <= windowWidth
  {
    var width := LongestLength(items) + padding;
    var columns := Columns(windowWidth, width);
    ColumnsFit(windowWidth, width);
    RowStartIsProduct(width, columns);
    var lines := Table(items, columns, width);
    forall i | 0 <= i < |lines|
      ensures |lines[i]| <= windowWidth
    {
      CellsFit(items, padding, columns, i);
      RowFits(RowAt(items, columns, i), width, columns);
    }
  }

  /** A line of at most `columns` cells, none wider than `width`, spans at most `columns` widths. */
  lemma RowFits(row: seq<string>, width: nat, columns: nat)
    requires |row| <= columns
    requires forall k :: 0 <= k < |row| ==> |row[k]| <= width
    ensures |JoinPadded(row, width)| <= RowStart(width, columns)
  {
    LineLength(row, width);
    if |row| < columns {
      RowStartMonotone(width, |row|, columns);
    }
  }
}
