/**
 * The metrics model's CSV export (metrics_model::serialize_to_csv): a header
 * row with every plot's name, then one row per buffer slot, oldest sample
 * first, each cell comma-terminated.
 *
 * The file is modelled as the token stream written to it; number formatting
 * and the file stream itself are not modelled.
 */
module MetricsCsv {
  import opened Basics
  import opened MetricHistory

  /** What one CSV field holds: a metric's name (header) or one of its samples. */
  datatype Cell = Name(name: string) | Value(v: real)

  /** What the export writes: a field, the comma after it, or an end of line. */
  datatype Token = Field(cell: Cell) | Comma | EndLine

  ghost predicate AllWellFormed(hs: seq<History>) {
    forall k :: 0 <= k < |hs| ==> hs[k].WellFormed()
  }

  // ---------------------------------------------------------------------
  // The table and its layout on the token stream

  /** The buffer slot written in data row `i` (0-based). */
  function RowSlot(idx: int, i: int): int {
    (idx + i) % SIZE
  }

  /** The data row that holds slot `s`. */
  function RowOf(idx: int, s: int): int {
    (s - idx + SIZE) % SIZE
  }

  /** The header row: each plot's name, in plot order. */
  function HeaderCells(hs: seq<History>): seq<Cell> {
    seq(|hs|, k requires 0 <= k < |hs| => Name(hs[k].name))
  }

  /** Data row `i`: each plot's sample from slot RowSlot(idx, i), in plot order. */
  function RowCells(hs: seq<History>, i: int): seq<Cell>
    requires AllWellFormed(hs)
  {
    seq(|hs|, k requires 0 <= k < |hs| => Value(hs[k].vals[RowSlot(hs[k].idx, i)]))
  }

  /** The exported table: the header row followed by SIZE data rows. */
  function CsvTable(hs: seq<History>): seq<seq<Cell>>
    requires AllWellFormed(hs)
  {
    [HeaderCells(hs)] + seq(SIZE, i requires 0 <= i < SIZE => RowCells(hs, i))
  }

  /** Each cell followed by a comma. */
  function Fields(cells: seq<Cell>): seq<Token> {
    if cells == [] then [] else [Field(cells[0]), Comma] + Fields(cells[1..])
  }

  /** One line of the file. */
  function Line(cells: seq<Cell>): seq<Token> {
    Fields(cells) + [EndLine]
  }

  /** The lines of the file, one per row. */
  function Document(rows: seq<seq<Cell>>): seq<Token> {
    if rows == [] then [] else Line(rows[0]) + Document(rows[1..])
  }

  /** What serialize_to_csv writes for the given plots. */
  function CsvDocument(hs: seq<History>): seq<Token>
    requires AllWellFormed(hs)
  {
    Document(CsvTable(hs))
  }

  lemma {:induction false} FieldsAppend(a: seq<Cell>, b: seq<Cell>)
    ensures Fields(a + b) == Fields(a) + Fields(b)
  {
    if a != [] {
      assert (a + b)[1..] == a[1..] + b;
      FieldsAppend(a[1..], b);
    } else {
      assert a + b == b;
    }
  }

  lemma {:induction false} DocumentAppend(a: seq<seq<Cell>>, b: seq<seq<Cell>>)
    ensures Document(a + b) == Document(a) + Document(b)
  {
    if a != [] {
      assert (a + b)[1..] == a[1..] + b;
      DocumentAppend(a[1..], b);
    } else {
      assert a + b == b;
    }
  }

  // ---------------------------------------------------------------------
  // Reading the file back

  /**
   * A strict reader for the exported layout: every line is a run of
   * comma-terminated fields ended by an end of line; anything else is None.
   */
  function Parse(ts: seq<Token>): Option<seq<seq<Cell>>>
    decreases |ts|, 1
  {
    if ts == [] then Some([]) else ParseLine(ts, [])
  }

  /** Continues reading a line whose fields so far are `cur`. */
  function ParseLine(ts: seq<Token>, cur: seq<Cell>): Option<seq<seq<Cell>>>
    decreases |ts|, 0
  {
    if ts == [] then None
    else match ts[0]
      case EndLine =>
        (match Parse(ts[1..])
         case Some(rows) => Some([cur] + rows)
         case None => None)
      case Field(c) =>
        if |ts| >= 2 && ts[1] == Comma then ParseLine(ts[2..], cur + [c]) else None
      case Comma => None
  }

  lemma {:induction false} ParseFields(cells: seq<Cell>, rest: seq<Token>, cur: seq<Cell>)
    ensures ParseLine(Fields(cells) + ([EndLine] + rest), cur) == ParseLine([EndLine] + rest, cur + cells)
  {
    if cells != [] {
      var ts := Fields(cells) + ([EndLine] + rest);
      assert ts == [Field(cells[0]), Comma] + (Fields(cells[1..]) + ([EndLine] + rest));
      assert ts[2..] == Fields(cells[1..]) + ([EndLine] + rest);
      ParseFields(cells[1..], rest, cur + [cells[0]]);
      assert cur + [cells[0]] + cells[1..] == cur + cells;
    } else {
      assert Fields(cells) + ([EndLine] + rest) == [EndLine] + rest;
      assert cur + cells == cur;
    }
  }

  /** Reading an exported file gives back exactly the rows that were written. */
  lemma {:induction false} ParseDocument(rows: seq<seq<Cell>>)
    ensures Parse(Document(rows)) == Some(rows)
  {
    if rows != [] {
      var rest := Document(rows[1..]);
      var ts := Document(rows);
      assert ts == Fields(rows[0]) + ([EndLine] + rest);
      assert |ts| > 0;
      calc {
        Parse(ts);
        ParseLine(ts, []);
        { ParseFields(rows[0], rest, []); assert [] + rows[0] == rows[0]; }
        ParseLine([EndLine] + rest, rows[0]);
        { assert ([EndLine] + rest)[1..] == rest; ParseDocument(rows[1..]); }
        Some([rows[0]] + rows[1..]);
        { assert [rows[0]] + rows[1..] == rows; }
        Some(rows);
      }
    }
  }

  /**
   * The CSV export read back: a header with one name per plot in plot order,
   * then exactly SIZE rows of one value per plot, row `i` holding each plot's
   * sample from slot (idx + i) mod SIZE.
   */
  lemma CsvRoundTrip(hs: seq<History>)
    requires AllWellFormed(hs)
    ensures Parse(CsvDocument(hs)).Some?
    ensures var t := Parse(CsvDocument(hs)).value;
      && |t| == SIZE + 1
      && |t[0]| == |hs|
      && (forall k :: 0 <= k < |hs| ==> t[0][k] == Name(hs[k].name))
      && (forall i :: 1 <= i <= SIZE ==> |t[i]| == |hs|)
      && (forall i, k :: 1 <= i <= SIZE && 0 <= k < |hs| ==>
            t[i][k] == Value(hs[k].vals[(hs[k].idx + i - 1) % SIZE]))
  {
    ParseDocument(CsvTable(hs));
  }

  // ---------------------------------------------------------------------
  // The rows' slots

  /**
   * The data rows visit every slot exactly once, in chronological order: the
   * first row reads slot idx (the oldest sample), each next row the slot
   * written right after, and the last row the current value's slot.
   */
  lemma RowSlotsChronological(idx: int)
    requires 0 <= idx < SIZE
    ensures RowSlot(idx, 0) == idx
    ensures RowSlot(idx, SIZE - 1) == CurrentIndex(idx)
    ensures forall i :: 0 <= i < SIZE - 1 ==> RowSlot(idx, i + 1) == (RowSlot(idx, i) + 1) % SIZE
    ensures forall s :: 0 <= s < SIZE ==> 0 <= RowOf(idx, s) < SIZE && RowSlot(idx, RowOf(idx, s)) == s
    ensures forall i, j :: 0 <= i < j < SIZE ==> RowSlot(idx, i) != RowSlot(idx, j)
  {
    forall i | 0 <= i < SIZE - 1
      ensures RowSlot(idx, i + 1) == (RowSlot(idx, i) + 1) % SIZE
    {
      var q := (idx + i) / SIZE;
      assert idx + i == q * SIZE + RowSlot(idx, i);
    }
    forall s | 0 <= s < SIZE
      ensures 0 <= RowOf(idx, s) < SIZE && RowSlot(idx, RowOf(idx, s)) == s
    {
      var r := RowOf(idx, s);
      assert s - idx + SIZE == ((s - idx + SIZE) / SIZE) * SIZE + r;
    }
    forall i, j | 0 <= i < j < SIZE
      ensures RowSlot(idx, i) != RowSlot(idx, j)
    {
      var si, sj := RowSlot(idx, i), RowSlot(idx, j);
      var qi, qj := (idx + i) / SIZE, (idx + j) / SIZE;
      assert j - i == (qj - qi) * SIZE + (sj - si);
    }
  }

  /** The last data row holds each plot's current value. */
  lemma LastRowIsCurrent(hs: seq<History>)
    requires AllWellFormed(hs)
    ensures forall k :: 0 <= k < |hs| ==>
              CsvTable(hs)[SIZE][k] == Value(hs[k].vals[CurrentIndex(hs[k].idx)])
  {
    forall k | 0 <= k < |hs|
      ensures CsvTable(hs)[SIZE][k] == Value(hs[k].vals[CurrentIndex(hs[k].idx)])
    {
      RowSlotsChronological(hs[k].idx);
    }
  }

  // ---------------------------------------------------------------------
  // The metrics model

  /** The registered plots, as serialize_to_csv sees them. */
  class MetricsModel {
    var plots: seq<MetricPlot>

    ghost predicate Valid()
      reads this, plots
    {
      forall k :: 0 <= k < |plots| ==> plots[k].Valid()
    }

    /** The plots' buffers as values, in plot order. */
    ghost function Histories(): (hs: seq<History>)
      reads this, plots, set k | 0 <= k < |plots| :: plots[k].vals
      requires Valid()
      ensures |hs| == |plots| && AllWellFormed(hs)
      ensures forall k :: 0 <= k < |plots| ==> hs[k] == plots[k].Snapshot()
    {
      seq(|plots|, k requires 0 <= k < |plots| && plots[k].Valid() reads this, plots, set j | 0 <= j < |plots| :: plots[j].vals => plots[k].Snapshot())
    }

    /** A model over the given plots, each holding a well-formed buffer. */
    constructor (plots: seq<MetricPlot>)
      requires forall k :: 0 <= k < |plots| ==> plots[k].Valid()
      ensures Valid()
      ensures this.plots == plots
    {
      this.plots := plots;
    }

    /** Writes the header line: each plot's name followed by a comma. */
    method WriteHeader() returns (line: seq<Token>)
      requires Valid()
      ensures line == Line(HeaderCells(Histories()))
    {
      ghost var hs := Histories();
      line := [];
      var k := 0;
      while k < |plots|
        invariant 0 <= k <= |plots|
        invariant line == Fields(HeaderCells(hs)[..k])
      {
        FieldsAppend(HeaderCells(hs)[..k], [Name(plots[k].name)]);
        assert HeaderCells(hs)[..k + 1] == HeaderCells(hs)[..k] + [Name(plots[k].name)];
        line := line + [Field(Name(plots[k].name)), Comma];
        k := k + 1;
      }
      assert HeaderCells(hs)[..k] == HeaderCells(hs);
      line := line + [EndLine];
    }

    /** Writes data line `i`: each plot's sample from slot (idx + i) mod SIZE, followed by a comma. */
    method WriteRow(i: int) returns (line: seq<Token>)
      requires Valid()
      ensures line == Line(RowCells(Histories(), i))
    {
      ghost var hs := Histories();
      line := [];
      var k := 0;
      while k < |plots|
        invariant 0 <= k <= |plots|
        invariant line == Fields(RowCells(hs, i)[..k])
      {
        var p := plots[k];
        assert hs[k] == p.Snapshot();
        var cell := Value(p.vals[(p.idx + i) % SIZE]);
        FieldsAppend(RowCells(hs, i)[..k], [cell]);
        assert RowCells(hs, i)[..k + 1] == RowCells(hs, i)[..k] + [cell];
        line := line + [Field(cell), Comma];
        k := k + 1;
      }
      assert RowCells(hs, i)[..k] == RowCells(hs, i);
      line := line + [EndLine];
    }

    /**
     * Writes the CSV export: the header line, then SIZE lines of samples.
     * Changes nothing (the source's member is const).
     */
    method SerializeToCsv() returns (csv: seq<Token>)
      requires Valid()
      ensures csv == CsvDocument(Histories())
    {
      ghost var table := CsvTable(Histories());
      csv := WriteHeader();
      assert table[..1] == [table[0]];
      var i := 0;
      while i < SIZE
        invariant 0 <= i <= SIZE
        invariant csv == Document(table[..i + 1])
      {
        var line := WriteRow(i);
        DocumentAppend(table[..i + 1], [table[i + 1]]);
        assert table[..i + 2] == table[..i + 1] + [table[i + 1]];
        csv := csv + line;
        i := i + 1;
      }
      assert table[..SIZE + 1] == table;
    }
  }
}
