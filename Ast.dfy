/**
 * The alternative SELECT of cql_ast.py, SelectStatement.execute. It differs
 * from the main interpreter's SELECT: a missing table raises instead of being
 * reported, LIMIT is applied to the filtered rows before projection, fields
 * are resolved only after filtering, and its condition evaluator
 * `_eval_condition` is a stub that returns None, so any WHERE condition
 * rejects every row.
 */
module Ast {
  import opened Text
  import opened Tables
  import opened Query

  /** A SELECT node; no field changes after construction. */
  datatype SelectStatement = SelectStatement(fields: seq<string>, tableName: string, whereConditions: seq<Condition>, limit: Option<nat>)

  /** SelectStatement(...), with `where_conditions or []`: an absent WHERE becomes the empty list. */
  function NewSelectStatement(fields: seq<string>, tableName: string, whereConditions: Option<seq<Condition>>, limit: Option<nat>): (s: SelectStatement)
    ensures whereConditions.None? ==> s.whereConditions == []
    ensures whereConditions.Some? ==> s.whereConditions == whereConditions.value
    ensures s.fields == fields && s.tableName == tableName && s.limit == limit
  {
    SelectStatement(fields, tableName, if whereConditions.Some? then whereConditions.value else [], limit)
  }

  /** `_eval_condition`: its body is `pass`, so it returns None whatever the row. */
  function EvalConditionStub(row: Row, headers: seq<string>, c: Condition): Option<bool>
  {
    None
  }

  /** Python truthiness of the evaluator's answer: None is false. */
  predicate Truthy(v: Option<bool>)
  {
    v == Some(true)
  }

  /** `_matches_conditions` for a condition evaluator `eval`: every condition's answer is truthy. */
  predicate MatchesWith(conds: seq<Condition>, row: Row, headers: seq<string>, eval: (Row, seq<string>, Condition) -> Option<bool>)
  {
    forall k :: 0 <= k < |conds| ==> Truthy(eval(row, headers, conds[k]))
  }

  /** `_matches_conditions` with the evaluator cql_ast.py defines. */
  predicate Matches(stmt: SelectStatement, row: Row, headers: seq<string>)
  {
    MatchesWith(stmt.whereConditions, row, headers, EvalConditionStub)
  }

  /** filtered_data: the rows that match, in table order. */
  function Kept(stmt: SelectStatement, data: seq<Row>, headers: seq<string>): seq<Row>
  {
    if data == [] then []
    else
      var last := data[|data| - 1];
      Kept(stmt, data[..|data| - 1], headers) + (if Matches(stmt, last, headers) then [last] else [])
  }

  /** `[[row[i] for i in indices] for row in rows]`, or IndexError at the first row too short for an index. */
  function ProjectRows(rows: seq<Row>, idx: seq<nat>): (r: Result<seq<Row>>)
    ensures r.Ok? ==> |r.value| == |rows|
    ensures r.Err? ==> r.error == IndexOutOfRange
  {
    if rows == [] then Ok([])
    else
      match ProjectRows(rows[..|rows| - 1], idx)
      case Err(e) => Err(e)
      case Ok(done) =>
        match ProjectRow(rows[|rows| - 1], idx)
        case Err(e) => Err(e)
        case Ok(p) => Ok(done + [p])
  }

  /**
   * What execute returns, or the exception it raises. Unlike the main SELECT,
   * TableNotFound and FieldNotFound here stand for raised ValueErrors: the
   * explicit raise for a missing table and `headers.index` on an unknown field.
   */
  function Execute(stmt: SelectStatement, tables: map<string, Relation>): Result<Relation>
  {
    if stmt.tableName !in tables then Err(TableNotFound(stmt.tableName))
    else
      var t := tables[stmt.tableName];
      var limited := Take(Kept(stmt, t.data, t.headers), stmt.limit);
      if stmt.fields == ["*"] then Ok(Relation(t.headers, limited))
      else
        match ResolveFields(t.headers, stmt.fields)
        case Err(e) => Err(e)
        case Ok(idx) =>
          match ProjectRows(limited, idx)
          case Err(e) => Err(e)
          case Ok(rows) => Ok(Relation(stmt.fields, rows))
  }

  /** With the stub evaluator, a row matches exactly when there are no conditions. */
  lemma MatchesOnlyWithoutConditions(stmt: SelectStatement, row: Row, headers: seq<string>)
    ensures Matches(stmt, row, headers) <==> stmt.whereConditions == []
  {
    if stmt.whereConditions != [] {
      assert !Truthy(EvalConditionStub(row, headers, stmt.whereConditions[0]));
    }
  }

  /** Without conditions every row is kept; with any condition none is. */
  lemma {:induction false} KeptRows(stmt: SelectStatement, data: seq<Row>, headers: seq<string>)
    ensures stmt.whereConditions == [] ==> Kept(stmt, data, headers) == data
    ensures stmt.whereConditions != [] ==> Kept(stmt, data, headers) == []
  {
    if data != [] {
      var last := data[|data| - 1];
      KeptRows(stmt, data[..|data| - 1], headers);
      MatchesOnlyWithoutConditions(stmt, last, headers);
      assert data[..|data| - 1] + [last] == data;
    }
  }

  /** Any WHERE condition leaves a successful query with no rows. */
  lemma StubRejectsEveryRow(stmt: SelectStatement, tables: map<string, Relation>)
    requires stmt.whereConditions != []
    requires Execute(stmt, tables).Ok?
    ensures Execute(stmt, tables).value.data == []
  {
    var t := tables[stmt.tableName];
    KeptRows(stmt, t.data, t.headers);
    if stmt.fields != ["*"] {
      var idx := ResolveFields(t.headers, stmt.fields).value;
      assert ProjectRows([], idx) == Ok([]);
    }
  }

  /** An absent WHERE keeps every row of the table, cut only by LIMIT. */
  lemma DefaultConditionsKeepAll(fields: seq<string>, tables: map<string, Relation>, name: string, limit: Option<nat>)
    requires name in tables
    ensures var stmt := NewSelectStatement(fields, name, None, limit);
      Kept(stmt, tables[name].data, tables[name].headers) == tables[name].data
  {
    KeptRows(NewSelectStatement(fields, name, None, limit), tables[name].data, tables[name].headers);
  }

  /** Projection fails exactly when some row is too short for one of the indices. */
  lemma {:induction false} ProjectRowsFails(rows: seq<Row>, idx: seq<nat>)
    ensures ProjectRows(rows, idx).Err? <==> exists j :: 0 <= j < |rows| && ProjectRow(rows[j], idx).Err?
    ensures ProjectRows(rows, idx).Ok? ==> forall j :: 0 <= j < |rows| ==> ProjectRows(rows, idx).value[j] == ProjectRow(rows[j], idx).value
  {
    if rows != [] {
      var init := rows[..|rows| - 1];
      ProjectRowsFails(init, idx);
      if exists j :: 0 <= j < |init| && ProjectRow(init[j], idx).Err? {
        var j :| 0 <= j < |init| && ProjectRow(init[j], idx).Err?;
        assert rows[j] == init[j];
      }
      if exists j :: 0 <= j < |rows| && ProjectRow(rows[j], idx).Err? {
        var j :| 0 <= j < |rows| && ProjectRow(rows[j], idx).Err?;
        if j < |init| {
          assert init[j] == rows[j];
        }
      }
      if ProjectRows(rows, idx).Ok? {
        forall j | 0 <= j < |rows| ensures ProjectRows(rows, idx).value[j] == ProjectRow(rows[j], idx).value {
          if j < |init| {
            assert init[j] == rows[j];
          }
        }
      }
    }
  }

  /**
   * LIMIT comes first, so a short row beyond the limit is never projected:
   * here execute answers while the main interpreter's SELECT raises IndexError
   * on the same table.
   */
  lemma LimitShieldsShortRows()
    ensures var tables := map["t" := Relation(["a", "b"], [["1", "2"], ["3"]])];
      && Execute(SelectStatement(["b"], "t", [], Some(1)), tables) == Ok(Relation(["b"], [["2"]]))
      && EvalSelect(tables, SelectSpec(["b"], "t", [], Some(1))) == Err(IndexOutOfRange)
  {
    var tables := map["t" := Relation(["a", "b"], [["1", "2"], ["3"]])];
    var data: seq<Row> := [["1", "2"], ["3"]];
    var stmt := SelectStatement(["b"], "t", [], Some(1));
    assert tables["t"].data == data;
    KeptRows(stmt, data, ["a", "b"]);
    var resolved := ResolveFields(["a", "b"], ["b"]);
    assert resolved.Ok? && |resolved.value| == 1 && resolved.value[0] != 0;
    assert resolved.value[0] == 1;
    assert resolved.value == [1];
    assert Take(data, Some(1)) == [["1", "2"]];
    var p := ProjectRow(["1", "2"], [1]);
    assert p.Ok? && |p.value| == 1 && p.value[0] == "2";
    assert p.value == ["2"];
    assert ProjectRows([["1", "2"]], [1]) == Ok([["2"]]) by {
      var one: seq<Row> := [["1", "2"]];
      assert one[..0] == [];
      assert [] + [["2"]] == [["2"]];
    }
    assert SelectedIndices(["a", "b"], ["b"]) == Ok([1]);
    assert ProjectRow(["3"], [1]).Err?;
    FilterFails(data, ["a", "b"], [], [1]);
    assert RowResult(data[1], ["a", "b"], [], [1]).Err?;
  }

  /**
   * On a table whose rows all have one cell per header and with no WHERE,
   * execute and the main interpreter's SELECT give the same answer: taking
   * the first rows before or after projecting them is the same.
   */
  lemma AgreesWithMainSelect(stmt: SelectStatement, tables: map<string, Relation>)
    requires stmt.whereConditions == []
    requires stmt.tableName in tables ==> WellFormed(tables[stmt.tableName])
    ensures Execute(stmt, tables) == EvalSelect(tables, SelectSpec(stmt.fields, stmt.tableName, [], stmt.limit))
  {
    if stmt.tableName in tables {
      var t := tables[stmt.tableName];
      KeptRows(stmt, t.data, t.headers);
      assert Kept(stmt, t.data, t.headers) == t.data;
      var sel := SelectedIndices(t.headers, stmt.fields);
      if sel.Ok? {
        assert forall j :: 0 <= j < |sel.value| ==> sel.value[j] < |t.headers|;
        NoWhereKeepsAll(t.data, t.headers, sel.value);
        if stmt.fields == ["*"] {
          StarKeepsRows(t, sel.value);
        } else {
          assert ResolveFields(t.headers, stmt.fields) == sel;
          LimitCommutesWithProjection(t, sel.value, stmt.limit);
        }
      }
    }
  }

  /** With every column selected in order, the no-WHERE filter returns the rows unchanged. */
  lemma StarKeepsRows(t: Relation, idx: seq<nat>)
    requires WellFormed(t) && idx == AllPositions(|t.headers|)
    ensures Filter(t.data, t.headers, [], idx) == Ok(t.data)
  {
    forall j | 0 <= j < |t.data| ensures ProjectRow(t.data[j], idx).Ok? {
      ProjectAllPositions(t.data[j], |t.headers|);
    }
    NoWhereKeepsAll(t.data, t.headers, idx);
    var all := Filter(t.data, t.headers, [], idx).value;
    forall j | 0 <= j < |t.data| ensures all[j] == t.data[j] {
      ProjectAllPositions(t.data[j], |t.headers|);
    }
    assert all == t.data;
  }

  /** On a well-formed table, projecting then taking the first rows equals taking them then projecting. */
  lemma LimitCommutesWithProjection(t: Relation, idx: seq<nat>, limit: Option<nat>)
    requires WellFormed(t) && forall j :: 0 <= j < |idx| ==> idx[j] < |t.headers|
    ensures Filter(t.data, t.headers, [], idx).Ok?
    ensures ProjectRows(Take(t.data, limit), idx) == Ok(Take(Filter(t.data, t.headers, [], idx).value, limit))
  {
    NoWhereKeepsAll(t.data, t.headers, idx);
    var all := Filter(t.data, t.headers, [], idx).value;
    var limited := Take(t.data, limit);
    var cut := Take(all, limit);
    assert |cut| == |limited|;
    forall j | 0 <= j < |limited| ensures ProjectRow(limited[j], idx).Ok? {
      assert limited[j] == t.data[j];
    }
    ProjectRowsFails(limited, idx);
    var projected := ProjectRows(limited, idx).value;
    forall j | 0 <= j < |limited| ensures projected[j] == cut[j] {
      assert limited[j] == t.data[j] && cut[j] == all[j];
    }
    assert projected == cut;
  }

  /** Projecting a row of width n onto all n positions gives the row back. */
  lemma ProjectAllPositions(row: Row, n: nat)
    requires |row| == n
    ensures ProjectRow(row, AllPositions(n)) == Ok(row)
  {
    var p := ProjectRow(row, AllPositions(n));
    assert p.Ok?;
    assert p.value == row;
  }

  /** `_matches_conditions`: the loop that stops at the first condition whose answer is not truthy. */
  method MatchesConditions(conds: seq<Condition>, row: Row, headers: seq<string>, eval: (Row, seq<string>, Condition) -> Option<bool>)
    returns (b: bool)
    ensures b <==> MatchesWith(conds, row, headers, eval)
  {
    var k := 0;
    while k < |conds|
      invariant 0 <= k <= |conds|
      invariant forall i :: 0 <= i < k ==> Truthy(eval(row, headers, conds[i]))
    {
      if !Truthy(eval(row, headers, conds[k])) {
        return false;
      }
      k := k + 1;
    }
    return true;
  }

  /** The filtering loop of `execute`. */
  method FilterRows(stmt: SelectStatement, data: seq<Row>, headers: seq<string>) returns (filtered: seq<Row>)
    ensures filtered == Kept(stmt, data, headers)
  {
    filtered := [];
    var k := 0;
    while k < |data|
      invariant 0 <= k <= |data|
      invariant filtered == Kept(stmt, data[..k], headers)
    {
      assert data[..k + 1][..k] == data[..k];
      var row := data[k];
      var m := MatchesConditions(stmt.whereConditions, row, headers, EvalConditionStub);
      if m {
        filtered := filtered + [row];
      } else {
        assert Kept(stmt, data[..k + 1], headers) == filtered + [];
      }
      k := k + 1;
    }
    assert data[..k] == data;
  }

  /** The projection comprehension of `execute`. */
  method ProjectAll(rows: seq<Row>, idx: seq<nat>) returns (r: Result<seq<Row>>)
    ensures r == ProjectRows(rows, idx)
  {
    var projected: seq<Row> := [];
    var j := 0;
    while j < |rows|
      invariant 0 <= j <= |rows|
      invariant ProjectRows(rows[..j], idx) == Ok(projected)
    {
      assert rows[..j + 1][..j] == rows[..j];
      var p := ProjectRow(rows[j], idx);
      if p.Err? {
        ProjectRowsFails(rows[..j + 1], idx);
        ProjectRowsFails(rows, idx);
        assert rows[..j + 1][j] == rows[j];
        return Err(IndexOutOfRange);
      }
      projected := projected + [p.value];
      j := j + 1;
    }
    assert rows[..j] == rows;
    return Ok(projected);
  }

  /** `execute`: the filtering loop, LIMIT, then projection. */
  method ExecuteSelect(stmt: SelectStatement, tables: map<string, Relation>) returns (r: Result<Relation>)
    ensures r == Execute(stmt, tables)
  {
    if stmt.tableName !in tables {
      return Err(TableNotFound(stmt.tableName));
    }
    var t := tables[stmt.tableName];
    var filtered := FilterRows(stmt, t.data, t.headers);
    if stmt.limit.Some? && stmt.limit.value < |filtered| {
      filtered := filtered[..stmt.limit.value];
    }
    if stmt.fields == ["*"] {
      return Ok(Relation(t.headers, filtered));
    }
    var indices := SelectFields(t.headers, stmt.fields);
    if indices.Err? {
      return Err(indices.error);
    }
    assert ResolveFields(t.headers, stmt.fields) == indices;
    var rows := ProjectAll(filtered, indices.value);
    if rows.Err? {
      return Err(rows.error);
    }
    return Ok(Relation(stmt.fields, rows.value));
  }
}
