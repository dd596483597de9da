/**
 * The stand-alone table store of cql_database.py: the same `tables`
 * dictionary as the main interpreter, with its own DISCARD, RENAME and a
 * weaker IMPORT. Its import skips rows whose first field starts with '#'
 * (untrimmed), checks no field count, and removes one pair of double quotes
 * around a field. The module never imports `csv`, so as written every import
 * that opens its file fails on `csv.reader` (NameError) and stores nothing;
 * `Import` is the import with the module imported, `ImportAsWritten` the
 * code as it stands.
 */
module Database {
  import opened Text
  import opened Tables

  /** `row[0].startswith('#')`. */
  predicate IsHashRow(row: Row)
    requires row != []
  {
    row[0] != [] && row[0][0] == '#'
  }

  /**
   * `[row for row in reader if not row[0].startswith('#')]`: the rows in
   * file order without the '#' rows, or IndexError when some row is empty.
   */
  function DataRows(rows: seq<Row>): (r: Result<seq<Row>>)
    ensures r.Err? ==> r.error == IndexOutOfRange
  {
    if rows == [] then Ok([])
    else
      var last := rows[|rows| - 1];
      match DataRows(rows[..|rows| - 1])
      case Err(e) => Err(e)
      case Ok(kept) =>
        if last == [] then Err(IndexOutOfRange)
        else if IsHashRow(last) then Ok(kept)
        else Ok(kept + [last])
  }

  /** A field both starting and ending with '"' loses its first and last character (field[1:-1]). */
  function UnquoteField(field: string): string
  {
    if field != [] && field[0] == '"' && field[|field| - 1] == '"' then
      (if |field| >= 2 then field[1..|field| - 1] else [])
    else field
  }

  /** processed_row for one row. */
  function UnquoteFields(row: Row): (r: Row)
    ensures |r| == |row|
  {
    seq(|row|, j requires 0 <= j < |row| => UnquoteField(row[j]))
  }

  /** processed_data. */
  function ProcessedRows(rows: seq<Row>): (r: seq<Row>)
    ensures |r| == |rows|
  {
    seq(|rows|, i requires 0 <= i < |rows| => UnquoteFields(rows[i]))
  }

  /**
   * The relation the import stores, for a file whose rows are `content`
   * (None when it cannot be opened), with `csv` imported: the first row is
   * the header (StopIteration on an empty file) and the rest are filtered
   * and unquoted.
   */
  function ImportTable(content: Option<seq<Row>>): Result<Relation>
  {
    match content
    case None => Err(FileNotOpened)
    case Some(rows) =>
      if rows == [] then Err(EmptyFile)
      else
        match DataRows(rows[1..])
        case Err(e) => Err(e)
        case Ok(data) => Ok(Relation(rows[0], ProcessedRows(data)))
  }

  /** The import as written: `csv` is an undefined name once the file is open. */
  function ImportTableAsWritten(content: Option<seq<Row>>): Result<Relation>
  {
    if content.None? then Err(FileNotOpened) else Err(CsvUndefined)
  }

  /** As written, no import ever stores a table. */
  lemma ImportAsWrittenNeverStores(content: Option<seq<Row>>)
    ensures ImportTableAsWritten(content).Err?
    ensures content.Some? ==> ImportTableAsWritten(content).error == CsvUndefined
  {
  }

  /** A one-column file with a header and one row: the intended import stores it, the written one cannot. */
  lemma MissingCsvModuleLosesTable()
    ensures ImportTable(Some([["a"], ["1"]])) == Ok(Relation(["a"], [["1"]]))
    ensures ImportTableAsWritten(Some([["a"], ["1"]])) == Err(CsvUndefined)
  {
    var rows: seq<Row> := [["a"], ["1"]];
    var data := rows[1..];
    assert data == [["1"]];
    assert DataRows(data) == Ok([["1"]]) by {
      assert data[..0] == [] && data[0] == ["1"];
      assert [] + [["1"]] == [["1"]];
      assert !IsHashRow(["1"]);
    }
    var fields := UnquoteFields(["1"]);
    assert UnquoteField("1") == "1";
    assert |fields| == 1 && fields[0] == "1";
    assert fields == ["1"];
    var processed := ProcessedRows([["1"]]);
    assert |processed| == 1 && processed[0] == ["1"];
    assert processed == [["1"]];
  }

  /** Putting a pair of double quotes around a field and importing it gives the field back. */
  lemma UnquoteFieldRoundTrip(s: string)
    ensures UnquoteField(['"'] + s + ['"']) == s
  {
    var q := ['"'] + s + ['"'];
    assert q[1..|q| - 1] == s;
  }

  /** A field that does not both start and end with '"' is stored as read; a lone '"' becomes empty. */
  lemma UnquoteFieldOtherwise(field: string)
    ensures !(field != [] && field[0] == '"' && field[|field| - 1] == '"') ==> UnquoteField(field) == field
    ensures field == ['"'] ==> UnquoteField(field) == []
    ensures |UnquoteField(field)| <= |field|
  {
  }

  /** The import fails exactly when some data row is empty (its row[0] raises). */
  lemma {:induction false} DataRowsFails(rows: seq<Row>)
    ensures DataRows(rows).Err? <==> exists k :: 0 <= k < |rows| && rows[k] == []
  {
    if rows != [] {
      var init := rows[..|rows| - 1];
      DataRowsFails(init);
      if exists k :: 0 <= k < |init| && init[k] == [] {
        var k :| 0 <= k < |init| && init[k] == [];
        assert rows[k] == [];
      }
      if exists k :: 0 <= k < |rows| && rows[k] == [] {
        var k :| 0 <= k < |rows| && rows[k] == [];
        if k < |init| {
          assert init[k] == [];
        }
      }
    }
  }

  /** The stored rows are exactly the file's rows whose first field does not start with '#', in file order. */
  lemma {:induction false} DataRowsMembership(rows: seq<Row>, x: Row)
    requires DataRows(rows).Ok?
    ensures x in DataRows(rows).value <==> x in rows && x != [] && !IsHashRow(x)
    ensures |DataRows(rows).value| <= |rows|
  {
    if rows != [] {
      DataRowsMembership(rows[..|rows| - 1], x);
      SplitLast(rows);
    }
  }

  /** Unlike the main interpreter, this import keeps rows of any width: a stored row may outgrow the header. */
  lemma NoFieldCountCheck()
    ensures ImportTable(Some([["a"], ["1", "2"]])) == Ok(Relation(["a"], [["1", "2"]]))
    ensures !WellFormed(Relation(["a"], [["1", "2"]]))
  {
    var rows: seq<Row> := [["a"], ["1", "2"]];
    var data := rows[1..];
    assert data == [["1", "2"]];
    assert DataRows(data) == Ok([["1", "2"]]) by {
      assert data[..0] == [] && data[0] == ["1", "2"];
      assert [] + [["1", "2"]] == [["1", "2"]];
      assert !IsHashRow(["1", "2"]);
    }
    var fields := UnquoteFields(["1", "2"]);
    assert UnquoteField("1") == "1" && UnquoteField("2") == "2";
    assert |fields| == 2 && fields[0] == "1" && fields[1] == "2";
    assert fields == ["1", "2"];
    var processed := ProcessedRows([["1", "2"]]);
    assert |processed| == 1 && processed[0] == ["1", "2"];
    assert processed == [["1", "2"]];
  }

  /** Each stored row has the width of the row it came from, and a stored field is a field of that row unquoted. */
  lemma ProcessedRowsShape(rows: seq<Row>)
    ensures forall i :: 0 <= i < |rows| ==> |ProcessedRows(rows)[i]| == |rows[i]|
    ensures forall i, j :: 0 <= i < |rows| && 0 <= j < |rows[i]| ==> ProcessedRows(rows)[i][j] == UnquoteField(rows[i][j])
  {
  }

  class Database {
    var tables: map<string, Relation>

    constructor()
      ensures tables == map[]
    {
      tables := map[];
    }

    /** The nested loops that build processed_data from the kept rows. */
    static method ProcessRows(data: seq<Row>) returns (processed: seq<Row>)
      ensures processed == ProcessedRows(data)
    {
      processed := [];
      var i := 0;
      while i < |data|
        invariant 0 <= i <= |data|
        invariant processed == ProcessedRows(data[..i])
      {
        var row := data[i];
        var processedRow: Row := [];
        var j := 0;
        while j < |row|
          invariant 0 <= j <= |row|
          invariant processedRow == UnquoteFields(row[..j])
        {
          var field := row[j];
          if |field| > 0 && field[0] == '"' && field[|field| - 1] == '"' {
            processedRow := processedRow + [if |field| >= 2 then field[1..|field| - 1] else []];
          } else {
            processedRow := processedRow + [field];
          }
          j := j + 1;
        }
        assert row[..j] == row;
        processed := processed + [processedRow];
        i := i + 1;
      }
      assert data[..i] == data;
    }

    /** The filtering comprehension over the data rows. */
    static method FilterRows(rows: seq<Row>) returns (r: Result<seq<Row>>)
      ensures r == DataRows(rows)
    {
      var kept: seq<Row> := [];
      var k := 0;
      while k < |rows|
        invariant 0 <= k <= |rows|
        invariant DataRows(rows[..k]) == Ok(kept)
      {
        assert rows[..k + 1][..k] == rows[..k];
        var row := rows[k];
        if row == [] {
          DataRowsPrefix(rows, k + 1);
          return Err(IndexOutOfRange);
        }
        if !(row[0] != [] && row[0][0] == '#') {
          kept := kept + [row];
        }
        k := k + 1;
      }
      assert rows[..k] == rows;
      return Ok(kept);
    }

    /** IMPORT TABLE name FROM file with `csv` imported: on success the entry is bound (or overwritten); otherwise nothing changes. */
    method Import(name: string, content: Option<seq<Row>>) returns (r: Result<Relation>)
      modifies this
      ensures r == ImportTable(content)
      ensures r.Ok? ==> tables == old(tables)[name := r.value]
      ensures r.Err? ==> tables == old(tables)
    {
      if content.None? {
        return Err(FileNotOpened);
      }
      var rows := content.value;
      if rows == [] {
        return Err(EmptyFile);
      }
      var headers := rows[0];
      var data := FilterRows(rows[1..]);
      if data.Err? {
        return Err(data.error);
      }
      var processed := ProcessRows(data.value);
      tables := tables[name := Relation(headers, processed)];
      return Ok(Relation(headers, processed));
    }

    /** IMPORT TABLE as written: `csv.reader` raises NameError inside the try, so nothing is ever stored. */
    method ImportAsWritten(name: string, content: Option<seq<Row>>) returns (r: Result<Relation>)
      ensures r == ImportTableAsWritten(content)
    {
      if content.None? {
        return Err(FileNotOpened);
      }
      return Err(CsvUndefined);
    }

    /** DISCARD TABLE name; `found` tells whether the table was there (and the success message printed). */
    method Discard(name: string) returns (found: bool)
      modifies this
      ensures found <==> name in old(tables)
      ensures tables == old(tables) - {name}
    {
      found := name in tables;
      if found {
        tables := tables - {name};
      }
    }

    /** RENAME TABLE old new; `found` tells whether old was there. */
    method Rename(oldName: string, newName: string) returns (found: bool)
      modifies this
      ensures found <==> oldName in old(tables)
      ensures found ==> tables == (old(tables) - {oldName})[newName := old(tables)[oldName]]
      ensures !found ==> tables == old(tables)
    {
      found := oldName in tables;
      if found {
        var rel := tables[oldName];
        tables := tables - {oldName};
        tables := tables[newName := rel];
      }
    }
  }

  /** Once a prefix of the rows fails, the whole filter fails the same way. */
  lemma {:induction false} DataRowsPrefix(rows: seq<Row>, n: nat)
    requires n <= |rows| && DataRows(rows[..n]).Err?
    ensures DataRows(rows).Err?
  {
    DataRowsFails(rows[..n]);
    DataRowsFails(rows);
    var k :| 0 <= k < n && rows[..n][k] == [];
    assert rows[k] == [];
  }
}
