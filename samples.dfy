/** The sample collector: class `tempData`, a 1000-row, 3-column buffer
    with a write cursor that accepts only tab-leading data lines, and the
    helper `line2data`.  The numeric fields are kept as the text they were
    read from (see the README). */
module Samples {
  import opened PyText

  /** Rows allocated by `tempData()`. */
  const Capacity: nat := 1000

  /** One row: fields 1, 2 and 3 of a tab-separated data line. */
  datatype Sample = Sample(time: string, a: string, b: string)

  /** The observable contents of a `tempData`: its first `index` rows and
      `lastLine`. */
  datatype Buf = Buf(rows: seq<Sample>, lastLine: string)

  /** A freshly constructed `tempData`. */
  const Empty := Buf([], "")

  /** The acceptance test `line[0:1] == "\t"`. */
  predicate IsDataLine(line: string)
  {
    Slice(line, 0, 1) == "\t"
  }

  /** `line2data(line)`: the tab-separated fields of a data line, `None`
      for any other line. */
  function Line2Data(line: string): (r: Option<seq<string>>)
    ensures r.Some? <==> IsDataLine(line)
    ensures r.Some? ==> |r.value| >= 2 && r.value[0] == [] && Join(r.value, '\t') == line
    ensures r.Some? ==> forall k :: 0 <= k < |r.value| ==> '\t' !in r.value[k]
  {
    if IsDataLine(line) then
      JoinSplit(line, '\t');
      SplitSepFreeFields(line, '\t');
      Some(Split(line, '\t'))
    else None
  }

  /** The row a data line contributes, when it has the three value fields. */
  function RowOf(line: string): Option<Sample>
  {
    var fields := Split(line, '\t');
    if |fields| >= 4 then Some(Sample(fields[1], fields[2], fields[3])) else None
  }

  /** What `append(line)` does to the buffer, or the exception it raises.
      Python evaluates `float(data[1])` before it writes row `index`, so a
      full buffer raises for the row before a short line raises for its
      missing field. */
  function Appended(b: Buf, line: string): Result<Buf>
  {
    if !IsDataLine(line) then Ok(b)
    else if |b.rows| >= Capacity then Err(RowOutOfRange)
    else match RowOf(line)
      case None => Err(MissingField(line))
      case Some(row) => Ok(Buf(b.rows + [row], line))
  }

  /** The cursor never passes the capacity, and a row is present exactly
      when `lastLine` holds the data line the last row came from. */
  ghost predicate Consistent(b: Buf)
  {
    && |b.rows| <= Capacity
    && (b.rows == [] <==> b.lastLine == [])
    && (b.rows != [] ==> IsDataLine(b.lastLine) && RowOf(b.lastLine) == Some(b.rows[|b.rows| - 1]))
  }

  /** A non-data line leaves the buffer unchanged; a data line adds exactly
      one row at the end and becomes `lastLine`; a data line into a full
      buffer raises instead of overwriting or growing. */
  lemma AppendedEffect(b: Buf, line: string)
    ensures !IsDataLine(line) ==> Appended(b, line) == Ok(b)
    ensures IsDataLine(line) && |b.rows| >= Capacity ==> Appended(b, line) == Err(RowOutOfRange)
    ensures IsDataLine(line) && Appended(b, line).Ok? ==>
      Appended(b, line).value.rows == b.rows + [RowOf(line).value] &&
      Appended(b, line).value.lastLine == line
  {
  }

  /** `append` keeps a buffer consistent and only ever extends its rows. */
  lemma AppendedConsistent(b: Buf, line: string)
    requires Consistent(b)
    requires Appended(b, line).Ok?
    ensures Consistent(Appended(b, line).value)
    ensures b.rows <= Appended(b, line).value.rows
  {
  }

  /** Seeding a fresh buffer with another buffer's `lastLine` copies that
      buffer's last row, or adds nothing when it never accepted a row. */
  lemma SeedCarriesLastRow(prev: Buf)
    requires Consistent(prev)
    ensures Appended(Empty, prev.lastLine) ==
      Ok(if prev.rows == [] then Empty else Buf([prev.rows[|prev.rows| - 1]], prev.lastLine))
  {
    if prev.rows == [] {
      assert !IsDataLine(prev.lastLine);
    } else {
      assert Empty.rows + [prev.rows[|prev.rows| - 1]] == [prev.rows[|prev.rows| - 1]];
    }
  }

  /** Appending lines one after another, stopping at the first exception. */
  function AppendAll(b: Buf, lines: seq<string>): Result<Buf>
    decreases |lines|
  {
    if lines == [] then Ok(b)
    else match Appended(b, lines[0])
      case Err(f) => Err(f)
      case Ok(b') => AppendAll(b', lines[1..])
  }

  /** Reference definition: the rows of the data lines, in order. */
  function DataRows(lines: seq<string>): seq<Sample>
    decreases |lines|
  {
    if lines == [] then []
    else
      (if IsDataLine(lines[0]) && RowOf(lines[0]).Some? then [RowOf(lines[0]).value] else [])
      + DataRows(lines[1..])
  }

  /** After any successful run of appends the buffer holds exactly the
      rows of the data lines appended, in append order, and never more than
      the capacity: surplus data rows are rejected, not kept. */
  lemma {:induction false} AppendAllRows(b: Buf, lines: seq<string>)
    requires |b.rows| <= Capacity
    ensures AppendAll(b, lines).Ok? ==>
      AppendAll(b, lines).value.rows == b.rows + DataRows(lines) &&
      |b.rows| + |DataRows(lines)| <= Capacity
    decreases |lines|
  {
    if lines != [] {
      match Appended(b, lines[0])
      case Err(_) =>
      case Ok(b') =>
        AppendAllRows(b', lines[1..]);
        if IsDataLine(lines[0]) {
          assert b'.rows == b.rows + [RowOf(lines[0]).value];
        }
    }
  }

  /** The numpy-backed buffer of the source: `temp_data` is a 1000 x 3
      array, `index` the write cursor, `lastLine` the last accepted line. */
  class TempData {
    const data: array2<string>
    var index: nat
    var lastLine: string

    ghost predicate Valid()
      reads this
    {
      data.Length0 == Capacity && data.Length1 == 3 && index <= Capacity
    }

    /** The filled rows `temp_data[0:index]`. */
    ghost function Rows(): seq<Sample>
      reads this, data
      requires Valid()
    {
      var n := index;
      seq(n, i requires 0 <= i < n reads data => Sample(data[i, 0], data[i, 1], data[i, 2]))
    }

    ghost function Model(): Buf
      reads this, data
      requires Valid()
    {
      Buf(Rows(), lastLine)
    }

    /** `tempData()`. */
    constructor ()
      ensures Valid() && fresh(data)
      ensures Model() == Empty
    {
      data := new string[Capacity, 3];
      index := 0;
      lastLine := "";
    }

    /** `append(line)`.  On an exception the visible rows and the cursor are
        unchanged, but `lastLine` has already been set to the line. */
    method Append(line: string) returns (fault: Option<Fault>)
      requires Valid()
      modifies this, data
      ensures Valid()
      ensures match Appended(old(Model()), line)
        case Ok(b) => fault == None && Model() == b
        case Err(f) => fault == Some(f) && index == old(index) && Rows() == old(Rows()) && lastLine == line
      ensures forall i, j :: 0 <= i < Capacity && 0 <= j < 3 && i != old(index) ==> data[i, j] == old(data[i, j])
      ensures !IsDataLine(line) ==> forall i, j :: 0 <= i < Capacity && 0 <= j < 3 ==> data[i, j] == old(data[i, j])
    {
      fault := None;
      if Slice(line, 0, 1) == "\t" {
        lastLine := line;
        var fields := Split(line, '\t');
        assert |fields| >= 2 by {
          assert line == [line[0]] + line[1..];
          assert Split(line, '\t') == [[]] + Split(line[1..], '\t');
        }
        if index >= Capacity {
          fault := Some(RowOutOfRange);
          return;
        }
        ghost var before := Rows();
        data[index, 0] := fields[1];
        if |fields| < 3 {
          fault := Some(MissingField(line));
          assert Rows() == before;
          return;
        }
        data[index, 1] := fields[2];
        if |fields| < 4 {
          fault := Some(MissingField(line));
          assert Rows() == before;
          return;
        }
        data[index, 2] := fields[3];
        index := index + 1;
        assert Rows() == before + [Sample(fields[1], fields[2], fields[3])];
      }
    }

    /** `end()`: the first `index` rows, in append order. */
    method End() returns (rows: seq<Sample>)
      requires Valid()
      ensures rows == Rows()
    {
      var n := index;
      rows := seq(n, i requires 0 <= i < n reads data => Sample(data[i, 0], data[i, 1], data[i, 2]));
    }
  }
}
