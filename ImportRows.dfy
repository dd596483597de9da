/**
 * The row loop of IMPORT TABLE in the main interpreter (main.py,
 * p_import_stmt): after the header line, each CSV row is skipped when it is
 * a comment or has the wrong number of fields, and otherwise stored with its
 * surrounding quote characters stripped. Reading the file is not modelled:
 * the rows arrive already split into fields.
 */
module ImportRows {
  import opened Text
  import opened Tables

  /** The characters Python's argument-less str.strip() removes (str.isspace). */
  const Whitespace: set<char> := {
    '\U{20}', '\U{9}', '\U{a}', '\U{b}', '\U{c}', '\U{d}', '\U{1c}', '\U{1d}',
    '\U{1e}', '\U{1f}', '\U{85}', '\U{a0}', '\U{1680}', '\U{2000}', '\U{2001}', '\U{2002}',
    '\U{2003}', '\U{2004}', '\U{2005}', '\U{2006}', '\U{2007}', '\U{2008}', '\U{2009}', '\U{200a}',
    '\U{2028}', '\U{2029}', '\U{202f}', '\U{205f}', '\U{3000}'
  }

  /** `not row or row[0].strip().startswith('#')`. */
  predicate IsCommentRow(row: Row)
  {
    row == [] || (var first := Strip(row[0], Whitespace); first != [] && first[0] == '#')
  }

  /** field.strip('"').strip("'"). */
  function Unquote(field: string): string
  {
    Strip(Strip(field, {'"'}), {'\''})
  }

  /** The list comprehension over the fields of a kept row. */
  function UnquoteRow(row: Row): (r: Row)
    ensures |r| == |row|
  {
    seq(|row|, k requires 0 <= k < |row| => Unquote(row[k]))
  }

  /** valid_data: the unquoted rows that are neither comments nor of the wrong width, in file order. */
  function ValidRows(rows: seq<Row>, width: nat): seq<Row>
  {
    if rows == [] then []
    else
      var last := rows[|rows| - 1];
      ValidRows(rows[..|rows| - 1], width)
        + (if IsCommentRow(last) || |last| != width then [] else [UnquoteRow(last)])
  }

  /** Every stored row has exactly as many fields as the header line. */
  lemma {:induction false} ValidRowsWidth(rows: seq<Row>, width: nat)
    ensures forall k :: 0 <= k < |ValidRows(rows, width)| ==> |ValidRows(rows, width)[k]| == width
  {
    if rows != [] {
      ValidRowsWidth(rows[..|rows| - 1], width);
    }
  }

  /** Row r of the file is kept and stored as x. */
  predicate KeptAs(r: Row, width: nat, x: Row)
  {
    !IsCommentRow(r) && |r| == width && x == UnquoteRow(r)
  }

  /** A row is stored exactly when some input row of the right width, not a comment, unquotes to it. */
  lemma {:induction false} ValidRowsMembership(rows: seq<Row>, width: nat, x: Row)
    ensures x in ValidRows(rows, width) <==> exists r :: r in rows && KeptAs(r, width, x)
  {
    if rows != [] {
      var init, last := rows[..|rows| - 1], rows[|rows| - 1];
      ValidRowsMembership(init, width, x);
      SplitLast(rows);
      if x in ValidRows(rows, width) {
        if x in ValidRows(init, width) {
          var r :| r in init && KeptAs(r, width, x);
          assert r in rows;
        } else {
          assert KeptAs(last, width, x);
        }
      }
      if exists r :: r in rows && KeptAs(r, width, x) {
        var r :| r in rows && KeptAs(r, width, x);
        if r in init {
          assert x in ValidRows(init, width);
        } else {
          assert r == last;
        }
      }
    }
  }

  /** The filter works row by row: splitting the file splits the stored rows. */
  lemma {:induction false} ValidRowsAppend(a: seq<Row>, b: seq<Row>, width: nat)
    ensures ValidRows(a + b, width) == ValidRows(a, width) + ValidRows(b, width)
  {
    if b == [] {
      assert a + b == a;
    } else {
      var init, last := b[..|b| - 1], b[|b| - 1];
      ValidRowsAppend(a, init, width);
      assert (a + b)[..|a + b| - 1] == a + init;
      assert (a + b)[|a + b| - 1] == last;
    }
  }

  /** A field with no quote character at either end is stored as read. */
  lemma UnquotePlainField(field: string)
    requires field == [] || (field[0] != '"' && field[0] != '\'' && field[|field| - 1] != '"' && field[|field| - 1] != '\'')
    ensures Unquote(field) == field
  {
    StripUntouched(field, {'"'});
    var once := Strip(field, {'"'});
    assert once == field;
    StripUntouched(once, {'\''});
  }

  /** A stored field is no longer than the one read, and neither starts nor ends with a single quote. */
  lemma UnquoteEnds(field: string)
    ensures |Unquote(field)| <= |field|
    ensures Unquote(field) == [] || (Unquote(field)[0] != '\'' && Unquote(field)[|Unquote(field)| - 1] != '\'')
  {
    var _, _ := StripIsTrimmedSlice(Strip(field, {'"'}), {'\''});
  }

  /** Double quotes are stripped before single ones, so a single-quoted "s" keeps its double quotes. */
  lemma QuoteOrderMatters(s: string)
    ensures Unquote(['\'', '"'] + s + ['"', '\'']) == ['"'] + s + ['"']
  {
    var field := ['\'', '"'] + s + ['"', '\''];
    var inner := ['"'] + s + ['"', '\''];
    var kept := ['"'] + s + ['"'];
    assert field[1..] == inner;
    StripLeftOne(field, {'\''});
    assert inner[..|inner| - 1] == kept;
    StripRightOne(inner, {'\''});
    DoubleQuotesUntouched(field);
  }

  /** A field whose ends are not double quotes goes straight to the single-quote strip. */
  lemma DoubleQuotesUntouched(field: string)
    requires field == [] || (field[0] != '"' && field[|field| - 1] != '"')
    ensures Unquote(field) == Strip(field, {'\''})
  {
    StripUntouched(field, {'"'});
  }

  /** The import loop over the data rows, appending each kept row to valid_data. */
  method NormaliseRows(rows: seq<Row>, width: nat) returns (valid: seq<Row>)
    ensures valid == ValidRows(rows, width)
  {
    valid := [];
    var n := 0;
    while n < |rows|
      invariant 0 <= n <= |rows|
      invariant valid == ValidRows(rows[..n], width)
    {
      assert rows[..n + 1][..n] == rows[..n];
      var row := rows[n];
      n := n + 1;
      if IsCommentRow(row) {
        continue;
      }
      if |row| != width {
        continue;
      }
      var processed := UnquoteRow(row);
      valid := valid + [processed];
    }
    assert rows[..n] == rows;
  }
}
