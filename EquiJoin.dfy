/**
 * CREATE TABLE ... FROM l JOIN r USING (c), the inner equi-join of the main
 * interpreter (main.py, p_create_join_stmt, repeated as execute_join). It
 * indexes the right table by its join cell, then emits, left row by left row,
 * the left row followed by each matching right row without its join cell.
 */
module EquiJoin {
  import opened Text
  import opened Tables

  /** Every row has a cell at position i. */
  predicate LongEnough(rows: seq<Row>, i: nat)
  {
    forall j :: 0 <= j < |rows| ==> i < |rows[j]|
  }

  /** right_row[:i] + right_row[i+1:]: the row without its cell at position i. */
  function DropAt(r: Row, i: nat): (d: Row)
    requires i < |r|
    ensures |d| == |r| - 1
    ensures forall k :: 0 <= k < i ==> d[k] == r[k]
    ensures forall k :: i <= k < |d| ==> d[k] == r[k + 1]
  {
    r[..i] + r[i + 1..]
  }

  /** right_lookup[key]: the rows whose cell at position i is key, in table order. */
  function Matching(rows: seq<Row>, i: nat, key: string): (m: seq<Row>)
    requires LongEnough(rows, i)
    ensures |m| <= |rows|
    ensures LongEnough(m, i)
  {
    if rows == [] then []
    else
      var init, last := rows[..|rows| - 1], rows[|rows| - 1];
      Matching(init, i, key) + (if last[i] == key then [last] else [])
  }

  /** right_lookup[key] holds exactly the right rows whose join cell is key. */
  lemma {:induction false} MatchingMembership(rows: seq<Row>, i: nat, key: string, x: Row)
    requires LongEnough(rows, i)
    ensures x in Matching(rows, i, key) <==> x in rows && x[i] == key
  {
    if rows != [] {
      var init, last := rows[..|rows| - 1], rows[|rows| - 1];
      MatchingMembership(init, i, key, x);
      assert x in rows <==> x in init || x == last;
    }
  }

  /** The rows one left row contributes: it joined with each right row of `matches`, in order. */
  function Combine(left: Row, matches: seq<Row>, ri: nat): (c: seq<Row>)
    requires LongEnough(matches, ri)
    ensures |c| == |matches|
    ensures forall k :: 0 <= k < |c| ==> c[k] == left + DropAt(matches[k], ri)
  {
    if matches == [] then []
    else Combine(left, matches[..|matches| - 1], ri) + [left + DropAt(matches[|matches| - 1], ri)]
  }

  /** joined_data: for each left row in order, its combinations with the right rows sharing its key. */
  function JoinRows(left: seq<Row>, li: nat, right: seq<Row>, ri: nat): seq<Row>
    requires LongEnough(left, li) && LongEnough(right, ri)
  {
    if left == [] then []
    else
      var last := left[|left| - 1];
      JoinRows(left[..|left| - 1], li, right, ri) + Combine(last, Matching(right, ri, last[li]), ri)
  }

  /** [h for h in headers if h != column]. */
  function Without(headers: seq<string>, column: string): (r: seq<string>)
    ensures |r| == |headers| - Count(headers, column)
    ensures column !in r
    ensures forall h :: h in r <==> h in headers && h != column
  {
    if headers == [] then []
    else (if headers[0] == column then [] else [headers[0]]) + Without(headers[1..], column)
  }

  /** The relation the join stores, or why it stores none. */
  function Join(tables: map<string, Relation>, left: string, right: string, column: string): Result<Relation>
  {
    if left !in tables then Err(TableNotFound(left))
    else if right !in tables then Err(TableNotFound(right))
    else
      var l, r := tables[left], tables[right];
      if column !in l.headers then Err(ColumnNotFound(column, left))
      else if column !in r.headers then Err(ColumnNotFound(column, right))
      else
        var li, ri := IndexOf(l.headers, column), IndexOf(r.headers, column);
        if !LongEnough(r.data, ri) || !LongEnough(l.data, li) then Err(IndexOutOfRange)
        else Ok(Relation(l.headers + Without(r.headers, column), JoinRows(l.data, li, r.data, ri)))
  }

  /** x is left row a joined with right row b: their join cells agree and b loses its join cell. */
  predicate JoinedFrom(x: Row, a: Row, b: Row, li: nat, ri: nat)
  {
    li < |a| && ri < |b| && a[li] == b[ri] && x == a + DropAt(b, ri)
  }

  lemma CombineMembership(left: Row, matches: seq<Row>, ri: nat, x: Row)
    requires LongEnough(matches, ri)
    ensures x in Combine(left, matches, ri) <==> exists b :: b in matches && x == left + DropAt(b, ri)
  {
    var c := Combine(left, matches, ri);
    if x in c {
      var k :| 0 <= k < |c| && c[k] == x;
      assert matches[k] in matches;
    }
    if exists b :: b in matches && x == left + DropAt(b, ri) {
      var b :| b in matches && x == left + DropAt(b, ri);
      var k :| 0 <= k < |matches| && matches[k] == b;
      assert c[k] == x;
    }
  }

  /**
   * The joined rows are exactly the left rows followed by a right row, less
   * its join cell, whose join cells are equal: an inner join, so rows without
   * a partner on the other side contribute nothing.
   */
  lemma {:induction false} JoinRowsMembership(left: seq<Row>, li: nat, right: seq<Row>, ri: nat, x: Row)
    requires LongEnough(left, li) && LongEnough(right, ri)
    ensures x in JoinRows(left, li, right, ri)
        <==> exists a, b :: a in left && b in right && JoinedFrom(x, a, b, li, ri)
  {
    if left != [] {
      var init, last := left[..|left| - 1], left[|left| - 1];
      JoinRowsMembership(init, li, right, ri, x);
      var ms := Matching(right, ri, last[li]);
      CombineMembership(last, ms, ri, x);
      forall b ensures b in ms <==> b in right && b[ri] == last[li] {
        MatchingMembership(right, ri, last[li], b);
      }
      assert JoinRows(left, li, right, ri) == JoinRows(init, li, right, ri) + Combine(last, ms, ri);
      SplitLast(left);
      if x in JoinRows(left, li, right, ri) {
        if x in JoinRows(init, li, right, ri) {
          var a, b :| a in init && b in right && JoinedFrom(x, a, b, li, ri);
          assert a in left;
        } else {
          var b :| b in ms && x == last + DropAt(b, ri);
          assert last in left && JoinedFrom(x, last, b, li, ri);
        }
      }
      if exists a, b :: a in left && b in right && JoinedFrom(x, a, b, li, ri) {
        var a, b :| a in left && b in right && JoinedFrom(x, a, b, li, ri);
        if a != last {
          assert a in init;
        } else {
          assert b in ms;
        }
      }
    }
  }

  /** Number of rows whose cell at position i is key. */
  function CountKey(rows: seq<Row>, i: nat, key: string): nat
    requires LongEnough(rows, i)
  {
    if rows == [] then 0 else (if rows[0][i] == key then 1 else 0) + CountKey(rows[1..], i, key)
  }

  /** The sum, over the left rows, of how many right rows share each one's key. */
  function MatchTotal(left: seq<Row>, li: nat, right: seq<Row>, ri: nat): nat
    requires LongEnough(left, li) && LongEnough(right, ri)
  {
    if left == [] then 0 else CountKey(right, ri, left[0][li]) + MatchTotal(left[1..], li, right, ri)
  }

  lemma {:induction false} MatchingCounts(rows: seq<Row>, i: nat, key: string)
    requires LongEnough(rows, i)
    ensures |Matching(rows, i, key)| == CountKey(rows, i, key)
  {
    if rows != [] {
      var init := rows[..|rows| - 1];
      MatchingCounts(init, i, key);
      CountKeySplit(rows, i, key);
    }
  }

  /** Counting the last row separately. */
  lemma {:induction false} CountKeySplit(rows: seq<Row>, i: nat, key: string)
    requires LongEnough(rows, i) && rows != []
    ensures CountKey(rows, i, key)
         == CountKey(rows[..|rows| - 1], i, key) + (if rows[|rows| - 1][i] == key then 1 else 0)
  {
    if |rows| > 1 {
      CountKeySplit(rows[1..], i, key);
      assert rows[1..][..|rows[1..]| - 1] == rows[..|rows| - 1][1..];
    }
  }

  lemma {:induction false} MatchTotalSplit(left: seq<Row>, li: nat, right: seq<Row>, ri: nat)
    requires LongEnough(left, li) && LongEnough(right, ri) && left != []
    ensures MatchTotal(left, li, right, ri)
         == MatchTotal(left[..|left| - 1], li, right, ri) + CountKey(right, ri, left[|left| - 1][li])
  {
    if |left| > 1 {
      MatchTotalSplit(left[1..], li, right, ri);
      assert left[1..][..|left[1..]| - 1] == left[..|left| - 1][1..];
    }
  }

  /** The join has one row per matching (left, right) pair: the sum of the left rows' match counts. */
  lemma {:induction false} JoinRowsCount(left: seq<Row>, li: nat, right: seq<Row>, ri: nat)
    requires LongEnough(left, li) && LongEnough(right, ri)
    ensures |JoinRows(left, li, right, ri)| == MatchTotal(left, li, right, ri)
  {
    if left != [] {
      JoinRowsCount(left[..|left| - 1], li, right, ri);
      MatchingCounts(right, ri, left[|left| - 1][li]);
      MatchTotalSplit(left, li, right, ri);
    }
  }

  /**
   * Headers of a join: the left headers, then the right headers other than
   * the join column, so the join column appears no more often than on the left.
   */
  lemma JoinHeaders(tables: map<string, Relation>, left: string, right: string, column: string)
    requires Join(tables, left, right, column).Ok?
    ensures var h := Join(tables, left, right, column).value.headers;
      && h == tables[left].headers + Without(tables[right].headers, column)
      && Count(h, column) == Count(tables[left].headers, column)
  {
    CountAppend(tables[left].headers, Without(tables[right].headers, column), column);
  }

  lemma {:induction false} CountAppend(a: seq<string>, b: seq<string>, x: string)
    ensures Count(a + b, x) == Count(a, x) + Count(b, x)
  {
    if a == [] {
      assert a + b == b;
    } else {
      CountAppend(a[1..], b, x);
      assert (a + b)[0] == a[0];
      assert (a + b)[1..] == a[1..] + b;
    }
  }

  /**
   * When both tables hold one cell per header and the join column names a
   * single right column, the join holds one cell per header as well.
   */
  lemma JoinWellFormed(tables: map<string, Relation>, left: string, right: string, column: string)
    requires left in tables && right in tables
    requires WellFormed(tables[left]) && WellFormed(tables[right])
    requires Count(tables[right].headers, column) == 1
    requires Join(tables, left, right, column).Ok?
    ensures WellFormed(Join(tables, left, right, column).value)
    ensures var r := tables[right];
      Join(tables, left, right, column).value.headers == tables[left].headers + DropAt(r.headers, IndexOf(r.headers, column))
  {
    var l, r := tables[left], tables[right];
    var li, ri := IndexOf(l.headers, column), IndexOf(r.headers, column);
    var j := Join(tables, left, right, column).value;
    WithoutIsDropAt(r.headers, column);
    forall k | 0 <= k < |j.data| ensures |j.data[k]| == |j.headers| {
      var x := j.data[k];
      assert x in j.data;
      JoinRowsMembership(l.data, li, r.data, ri, x);
      var a, b :| a in l.data && b in r.data && JoinedFrom(x, a, b, li, ri);
      assert |a| == |l.headers| && |b| == |r.headers|;
    }
  }

  /**
   * Headers and cells line up (the join stores `l.headers + Without(r.headers,
   * column)` over `JoinRows`, see JoinOf): a joined row is a left row a and a right row b
   * with equal join cells, each left column holds a's cell under its own name,
   * and each right column other than the join column holds b's cell under its
   * own name, shifted left by one past the join column.
   */
  lemma JoinAligned(l: Relation, r: Relation, column: string, x: Row) returns (a: Row, b: Row)
    requires WellFormed(l) && WellFormed(r)
    requires column in l.headers && Count(r.headers, column) == 1
    requires LongEnough(l.data, IndexOf(l.headers, column)) && LongEnough(r.data, IndexOf(r.headers, column))
    requires x in JoinRows(l.data, IndexOf(l.headers, column), r.data, IndexOf(r.headers, column))
    ensures a in l.data && b in r.data && a[IndexOf(l.headers, column)] == b[IndexOf(r.headers, column)]
    ensures CellsAligned(l.headers, r.headers, IndexOf(r.headers, column), a, b, l.headers + Without(r.headers, column), x)
  {
    var li, ri := IndexOf(l.headers, column), IndexOf(r.headers, column);
    JoinRowsMembership(l.data, li, r.data, ri, x);
    a, b :| a in l.data && b in r.data && JoinedFrom(x, a, b, li, ri);
    MemberWidth(l, a);
    MemberWidth(r, b);
    WithoutIsDropAt(r.headers, column);
    RowAligned(l.headers, r.headers, ri, a, b, l.headers + Without(r.headers, column), x);
  }

  /** A row of a well-formed relation has one cell per header. */
  lemma MemberWidth(t: Relation, row: Row)
    requires WellFormed(t) && row in t.data
    ensures |row| == |t.headers|
  {
    var k :| 0 <= k < |t.data| && t.data[k] == row;
  }

  /**
   * Joined headers jh and joined row x line up with left headers lh over row a
   * and right headers rh over row b: each left column keeps its name and cell,
   * and each right column other than ri keeps its name and cell, one place
   * further left once past ri.
   */
  predicate CellsAligned(lh: seq<string>, rh: seq<string>, ri: nat, a: Row, b: Row, jh: seq<string>, x: Row)
  {
    && |x| == |jh| && |a| == |lh| && |b| == |rh|
    && (forall k :: 0 <= k < |lh| ==> k < |x| && jh[k] == lh[k] && x[k] == a[k])
    && (forall k :: 0 <= k < |rh| && k != ri ==>
          var p := |lh| + (if k < ri then k else k - 1);
          p < |x| && jh[p] == rh[k] && x[p] == b[k])
  }

  /** The cell arithmetic behind JoinAligned, for one left row and one right row. */
  lemma RowAligned(lh: seq<string>, rh: seq<string>, ri: nat, a: Row, b: Row, jh: seq<string>, x: Row)
    requires ri < |rh| && |a| == |lh| && |b| == |rh|
    requires jh == lh + DropAt(rh, ri) && x == a + DropAt(b, ri)
    ensures CellsAligned(lh, rh, ri, a, b, jh, x)
  {
    forall k | 0 <= k < |rh| && k != ri
      ensures var p := |lh| + (if k < ri then k else k - 1); p < |x| && jh[p] == rh[k] && x[p] == b[k]
    {
      var q := if k < ri then k else k - 1;
      assert jh[|lh| + q] == DropAt(rh, ri)[q];
      assert x[|lh| + q] == DropAt(b, ri)[q];
    }
  }

  /** With the join column once in the right headers, the header filter drops exactly its position, as the row slice does. */
  lemma {:induction false} WithoutIsDropAt(headers: seq<string>, column: string)
    requires Count(headers, column) == 1
    ensures column in headers && Without(headers, column) == DropAt(headers, IndexOf(headers, column))
  {
    if headers[0] == column {
      WithoutOther(headers[1..], column);
      assert DropAt(headers, 0) == headers[1..];
    } else {
      WithoutIsDropAt(headers[1..], column);
      var i := IndexOf(headers[1..], column);
      assert IndexOf(headers, column) == 1 + i;
      assert DropAt(headers, 1 + i) == [headers[0]] + DropAt(headers[1..], i);
    }
  }

  /** A right table whose join column is repeated gives joined rows longer than the joined headers. */
  lemma RepeatedJoinColumnMisaligns(l: Relation, r: Relation, tables: map<string, Relation>)
    requires l == Relation(["c"], [["1"]]) && r == Relation(["c", "c"], [["1", "1"]])
    requires tables == map["l" := l, "r" := r]
    ensures Join(tables, "l", "r", "c") == Ok(Relation(["c"], [["1", "1"]]))
  {
    RepeatedJoinColumnJoin(l, r, tables);
    WithoutAll(r.headers, "c");
    assert l.headers + Without(r.headers, "c") == ["c"];
    RepeatedJoinColumnRows(l.data, r.data);
  }

  lemma RepeatedJoinColumnJoin(l: Relation, r: Relation, tables: map<string, Relation>)
    requires l == Relation(["c"], [["1"]]) && r == Relation(["c", "c"], [["1", "1"]])
    requires tables == map["l" := l, "r" := r]
    ensures LongEnough(l.data, 0) && LongEnough(r.data, 0)
    ensures Join(tables, "l", "r", "c") == Ok(Relation(l.headers + Without(r.headers, "c"), JoinRows(l.data, 0, r.data, 0)))
  {
    assert LongEnough(l.data, 0) && LongEnough(r.data, 0);
    IndexOfFirst(l.headers, "c");
    IndexOfFirst(r.headers, "c");
    JoinOf(tables, "l", "r", "c");
  }

  /** A header list without the join column is kept whole. */
  lemma {:induction false} WithoutOther(headers: seq<string>, column: string)
    requires column !in headers
    ensures Without(headers, column) == headers
  {
    if headers != [] {
      WithoutOther(headers[1..], column);
    }
  }

  /** A header list made only of the join column loses every entry. */
  lemma {:induction false} WithoutAll(headers: seq<string>, column: string)
    requires forall k :: 0 <= k < |headers| ==> headers[k] == column
    ensures Without(headers, column) == []
  {
    if headers != [] {
      WithoutAll(headers[1..], column);
    }
  }

  lemma RepeatedJoinColumnRows(left: seq<Row>, right: seq<Row>)
    requires left == [["1"]] && right == [["1", "1"]]
    ensures LongEnough(left, 0) && LongEnough(right, 0)
    ensures JoinRows(left, 0, right, 0) == [["1", "1"]]
  {
    assert right[..0] == [] && left[..0] == [];
    assert Matching(right, 0, "1") == right;
    assert left[0] + DropAt(right[0], 0) == ["1", "1"];
    var c := Combine(left[0], right, 0);
    assert |c| == 1 && c[0] == ["1", "1"];
  }

  /**
   * Keys 1 and 2 on the left, 1 and 3 on the right: joining on `a` gives the
   * one combined row for key 1, and the rows keyed 2 and 3 vanish.
   */
  lemma InnerJoinExample(l: Relation, r: Relation, tables: map<string, Relation>)
    requires l == Relation(["a", "x"], [["1", "p"], ["2", "q"]]) && r == Relation(["a", "y"], [["1", "r"], ["3", "s"]])
    requires tables == map["L" := l, "R" := r]
    ensures Join(tables, "L", "R", "a") == Ok(Relation(["a", "x", "y"], [["1", "p", "r"]]))
  {
    InnerJoinExampleJoin(l, r, tables);
    InnerJoinExampleHeaders(l, r);
    InnerJoinExampleRows(l.data, r.data);
  }

  lemma InnerJoinExampleJoin(l: Relation, r: Relation, tables: map<string, Relation>)
    requires l == Relation(["a", "x"], [["1", "p"], ["2", "q"]]) && r == Relation(["a", "y"], [["1", "r"], ["3", "s"]])
    requires tables == map["L" := l, "R" := r]
    ensures LongEnough(l.data, 0) && LongEnough(r.data, 0)
    ensures Join(tables, "L", "R", "a") == Ok(Relation(l.headers + Without(r.headers, "a"), JoinRows(l.data, 0, r.data, 0)))
  {
    assert LongEnough(l.data, 0) && LongEnough(r.data, 0);
    IndexOfFirst(l.headers, "a");
    IndexOfFirst(r.headers, "a");
    JoinOf(tables, "L", "R", "a");
  }

  lemma InnerJoinExampleHeaders(l: Relation, r: Relation)
    requires l.headers == ["a", "x"] && r.headers == ["a", "y"]
    ensures l.headers + Without(r.headers, "a") == ["a", "x", "y"]
  {
    WithoutOther(["y"], "a");
    assert Without(r.headers, "a") == Without(["y"], "a");
  }

  /** The join of two present tables that both have the column and whose rows reach it. */
  lemma JoinOf(tables: map<string, Relation>, left: string, right: string, column: string)
    requires left in tables && right in tables
    requires column in tables[left].headers && column in tables[right].headers
    requires LongEnough(tables[left].data, IndexOf(tables[left].headers, column))
    requires LongEnough(tables[right].data, IndexOf(tables[right].headers, column))
    ensures Join(tables, left, right, column)
         == Ok(Relation(tables[left].headers + Without(tables[right].headers, column),
                        JoinRows(tables[left].data, IndexOf(tables[left].headers, column),
                                 tables[right].data, IndexOf(tables[right].headers, column))))
  {
  }

  lemma InnerJoinExampleRows(left: seq<Row>, right: seq<Row>)
    requires left == [["1", "p"], ["2", "q"]] && right == [["1", "r"], ["3", "s"]]
    ensures LongEnough(left, 0) && LongEnough(right, 0)
    ensures JoinRows(left, 0, right, 0) == [["1", "p", "r"]]
  {
    InnerJoinExampleMatches(right);
    var init := left[..1];
    assert init == [["1", "p"]];
    InnerJoinExampleFirst(init, right);
    ProbeStep(left, 1, 0, right, 0);
    assert left[1][0] == "2";
    assert Combine(left[1], [], 0) == [];
    assert left[..2] == left;
  }

  lemma InnerJoinExampleFirst(init: seq<Row>, right: seq<Row>)
    requires init == [["1", "p"]] && LongEnough(right, 0) && Matching(right, 0, "1") == [["1", "r"]]
    ensures JoinRows(init, 0, right, 0) == [["1", "p", "r"]]
  {
    var first := Combine(["1", "p"], [["1", "r"]], 0);
    assert ["1", "p"] + DropAt(["1", "r"], 0) == ["1", "p", "r"];
    assert |first| == 1 && first[0] == ["1", "p", "r"];
    assert init[..0] == [];
  }

  lemma InnerJoinExampleMatches(right: seq<Row>)
    requires right == [["1", "r"], ["3", "s"]]
    ensures LongEnough(right, 0)
    ensures Matching(right, 0, "1") == [["1", "r"]]
    ensures Matching(right, 0, "2") == []
  {
    assert right[..1] == [["1", "r"]] && right[..1][..0] == [];
    assert Matching(right[..1], 0, "1") == [["1", "r"]];
    assert Matching(right[..1], 0, "2") == [];
  }

  /** lookup maps each join cell present in rows to the rows holding it, in order, and holds no other key. */
  ghost predicate IsLookup(lookup: map<string, seq<Row>>, rows: seq<Row>, i: nat)
  {
    && LongEnough(rows, i)
    && (forall key :: Get(lookup, key) == Matching(rows, i, key))
    && (forall key :: key in lookup ==> lookup[key] != [])
  }

  /** The rows filed under key in the lookup, or none when key is absent. */
  function Get(lookup: map<string, seq<Row>>, key: string): seq<Row>
  {
    if key in lookup then lookup[key] else []
  }

  /** The empty dictionary is the lookup of no rows. */
  lemma LookupEmpty(rows: seq<Row>, i: nat)
    ensures IsLookup(map[], rows[..0], i)
  {
    assert rows[..0] == [];
  }

  /** One iteration of the right_lookup loop keeps the lookup in step with the rows seen so far. */
  lemma LookupStep(before: map<string, seq<Row>>, after: map<string, seq<Row>>, rows: seq<Row>, n: nat, i: nat)
    requires n < |rows| && i < |rows[n]|
    requires IsLookup(before, rows[..n], i)
    requires rows[n][i] in after && after[rows[n][i]] == (if rows[n][i] in before then before[rows[n][i]] else []) + [rows[n]]
    requires forall key :: key != rows[n][i] ==> (key in after <==> key in before)
    requires forall key :: key != rows[n][i] && key in after ==> after[key] == before[key]
    ensures IsLookup(after, rows[..n + 1], i)
  {
    var seen := rows[..n + 1];
    assert seen[..n] == rows[..n];
    assert LongEnough(seen, i);
    forall key ensures Matching(seen, i, key) == Matching(rows[..n], i, key) + (if rows[n][i] == key then [rows[n]] else []) {
    }
  }

  /** right_lookup.setdefault(key, []).append(row), written as the two steps main.py takes. */
  method Append(lookup: map<string, seq<Row>>, key: string, row: Row) returns (after: map<string, seq<Row>>)
    ensures key in after && after[key] == (if key in lookup then lookup[key] else []) + [row]
    ensures forall k :: k != key ==> (k in after <==> k in lookup)
    ensures forall k :: k != key && k in after ==> after[k] == lookup[k]
  {
    after := lookup;
    if key !in after {
      after := after[key := []];
    }
    after := after[key := after[key] + [row]];
  }

  /** One pass of the right_lookup loop body: file rows[n] under its join cell. */
  method AddRow(lookup: map<string, seq<Row>>, rows: seq<Row>, n: nat, i: nat) returns (after: map<string, seq<Row>>)
    requires n < |rows| && i < |rows[n]| && IsLookup(lookup, rows[..n], i)
    ensures IsLookup(after, rows[..n + 1], i)
  {
    after := Append(lookup, rows[n][i], rows[n]);
    LookupStep(lookup, after, rows, n, i);
  }

  /**
   * The loop that builds right_lookup. It fails (IndexError) exactly when a
   * row has no cell at the join position.
   */
  method BuildLookup(rows: seq<Row>, i: nat) returns (r: Option<map<string, seq<Row>>>)
    ensures r.Some? <==> LongEnough(rows, i)
    ensures r.Some? ==> IsLookup(r.value, rows, i)
  {
    var lookup: map<string, seq<Row>> := map[];
    var n := 0;
    LookupEmpty(rows, i);
    while n < |rows|
      invariant 0 <= n <= |rows|
      invariant IsLookup(lookup, rows[..n], i)
    {
      var row := rows[n];
      if |row| <= i {
        assert !LongEnough(rows, i) by {
          assert !(i < |rows[n]|);
        }
        return None;
      }
      lookup := AddRow(lookup, rows, n, i);
      n := n + 1;
    }
    assert rows[..n] == rows;
    assert IsLookup(lookup, rows, i);
    return Some(lookup);
  }

  /** Joining one more left row appends its combinations. */
  lemma ProbeStep(left: seq<Row>, j: nat, li: nat, right: seq<Row>, ri: nat)
    requires j < |left| && li < |left[j]| && LongEnough(left[..j], li) && LongEnough(right, ri)
    ensures LongEnough(left[..j + 1], li)
    ensures JoinRows(left[..j + 1], li, right, ri)
         == JoinRows(left[..j], li, right, ri) + Combine(left[j], Matching(right, ri, left[j][li]), ri)
  {
    assert left[..j + 1][..j] == left[..j];
  }

  /** The inner loop: append the left row joined with each of its matches, in order. */
  method AppendCombined(joined: seq<Row>, leftRow: Row, matches: seq<Row>, ri: nat) returns (after: seq<Row>)
    requires LongEnough(matches, ri)
    ensures after == joined + Combine(leftRow, matches, ri)
  {
    after := joined;
    var m := 0;
    while m < |matches|
      invariant 0 <= m <= |matches|
      invariant after == joined + Combine(leftRow, matches[..m], ri)
    {
      assert matches[..m + 1][..m] == matches[..m];
      after := after + [leftRow + DropAt(matches[m], ri)];
      m := m + 1;
    }
    assert matches[..m] == matches;
  }

  /**
   * The loop over the left rows, with the inner loop over each one's
   * matches in right_lookup. It fails (IndexError) exactly when a left row has
   * no cell at the join position.
   */
  method ProbeLeft(left: seq<Row>, li: nat, right: seq<Row>, ri: nat, lookup: map<string, seq<Row>>)
    returns (r: Option<seq<Row>>)
    requires IsLookup(lookup, right, ri)
    ensures r.Some? <==> LongEnough(left, li)
    ensures r.Some? ==> r.value == JoinRows(left, li, right, ri)
  {
    var joined: seq<Row> := [];
    var j := 0;
    while j < |left|
      invariant 0 <= j <= |left|
      invariant LongEnough(left[..j], li)
      invariant joined == JoinRows(left[..j], li, right, ri)
    {
      var leftRow := left[j];
      if |leftRow| <= li {
        return None;
      }
      var joinKey := leftRow[li];
      var matches := if joinKey in lookup then lookup[joinKey] else [];
      assert matches == Get(lookup, joinKey);
      assert matches == Matching(right, ri, joinKey);
      joined := AppendCombined(joined, leftRow, matches, ri);
      ProbeStep(left, j, li, right, ri);
      j := j + 1;
    }
    assert left[..j] == left;
    return Some(joined);
  }

  /**
   * The join as main.py runs it: check both tables and the join column, index
   * the right rows, then probe with the left rows.
   */
  method ExecuteJoin(tables: map<string, Relation>, left: string, right: string, column: string)
    returns (res: Result<Relation>)
    ensures res == Join(tables, left, right, column)
  {
    if left !in tables {
      return Err(TableNotFound(left));
    }
    if right !in tables {
      return Err(TableNotFound(right));
    }
    var l, r := tables[left], tables[right];
    if column !in l.headers {
      return Err(ColumnNotFound(column, left));
    }
    if column !in r.headers {
      return Err(ColumnNotFound(column, right));
    }
    var li, ri := IndexOf(l.headers, column), IndexOf(r.headers, column);
    var lookup := BuildLookup(r.data, ri);
    if lookup.None? {
      return Err(IndexOutOfRange);
    }
    var joined := ProbeLeft(l.data, li, r.data, ri, lookup.value);
    if joined.None? {
      return Err(IndexOutOfRange);
    }
    return Ok(Relation(l.headers + Without(r.headers, column), joined.value));
  }
}
