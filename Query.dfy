/**
 * SELECT as the main interpreter evaluates it (main.py, p_select_stmt and
 * evaluate_conditions): look the table up, resolve the projection, keep the
 * rows that satisfy every condition in their original order, then cut the
 * kept rows to LIMIT.
 */
module Query {
  import opened Text
  import opened Tables

  datatype Op = Eq | Ne | Gt | Lt | Ge | Le

  /** A condition's literal: a NUMBER token (a non-negative int) or a STRING token. */
  datatype Literal = Num(n: nat) | Str(s: string)

  datatype Condition = Condition(field: string, op: Op, value: Literal)

  /**
   * A parsed SELECT. `fields == ["*"]` is the wildcard; an empty `conditions`
   * stands for an absent WHERE clause (both keep every row).
   */
  datatype SelectSpec = SelectSpec(fields: seq<string>, table: string, conditions: seq<Condition>, limit: Option<nat>)

  /** float(value) for a literal: a NUMBER, or a STRING that reads as a whole number. */
  function LiteralNumber(v: Literal): Option<int>
  {
    match v
    case Num(n) => Some(n)
    case Str(s) => ParseInt(s)
  }

  /**
   * str(cell_value) == str(value) after evaluate_conditions' coercion. A quoted
   * literal that reads as a number, next to a numeric cell, has been replaced
   * by float(value); the str() of a float always holds '.', 'e', "inf" or "nan",
   * so it never equals the sign-and-digits text of the cell.
   */
  predicate TextEquals(cell: string, v: Literal)
  {
    match v
    case Num(n) => cell == NatToString(n)
    case Str(s) => if ParseInt(cell).Some? && ParseInt(s).Some? then false else cell == s
  }

  /**
   * One condition on one row: Ok(false) when the field is not a header (the
   * row is rejected, no error), the IndexError a short row raises, the
   * ValueError an ordering operator raises on a non-numeric operand, or the
   * comparison itself.
   */
  function EvalCondition(row: Row, headers: seq<string>, c: Condition): Result<bool>
  {
    if c.field !in headers then Ok(false)
    else
      var i := IndexOf(headers, c.field);
      if i >= |row| then Err(IndexOutOfRange)
      else
        var cell := row[i];
        if c.op == Eq then Ok(TextEquals(cell, c.value))
        else if c.op == Ne then Ok(!TextEquals(cell, c.value))
        else if ParseInt(cell).None? then Err(NotANumber(cell))
        else if LiteralNumber(c.value).None? then Err(NotANumber(c.value.s))
        else
          Ok(Compare(c.op, ParseInt(cell).value, LiteralNumber(c.value).value))
  }

  /** evaluate_conditions: the conditions in order, stopping at the first that fails or raises. */
  function EvalConditions(row: Row, headers: seq<string>, conds: seq<Condition>): Result<bool>
  {
    if conds == [] then Ok(true)
    else
      match EvalCondition(row, headers, conds[0])
      case Err(e) => Err(e)
      case Ok(holds) => if holds then EvalConditions(row, headers, conds[1..]) else Ok(false)
  }

  /** A row passes the WHERE clause exactly when every condition holds of it; an empty clause passes every row. */
  lemma {:induction false} ConjunctionHolds(row: Row, headers: seq<string>, conds: seq<Condition>)
    ensures EvalConditions(row, headers, conds) == Ok(true)
        <==> forall k :: 0 <= k < |conds| ==> EvalCondition(row, headers, conds[k]) == Ok(true)
  {
    if conds != [] {
      ConjunctionHolds(row, headers, conds[1..]);
      assert forall k :: 1 <= k < |conds| ==> conds[k] == conds[1..][k - 1];
    }
  }

  /** A condition on a field that is not a header rejects the row instead of raising. */
  lemma MissingFieldRejects(row: Row, headers: seq<string>, conds: seq<Condition>, k: nat)
    requires k < |conds| && conds[k].field !in headers
    ensures EvalCondition(row, headers, conds[k]) == Ok(false)
    ensures EvalConditions(row, headers, conds) != Ok(true)
  {
    ConjunctionHolds(row, headers, conds);
  }

  /** `<>` is the negation of `=`, `<` of `>=` and `>` of `<=`, with the same errors. */
  lemma OperatorsComplement(row: Row, headers: seq<string>, f: string, v: Literal)
    ensures Negated(EvalCondition(row, headers, Condition(f, Eq, v)), EvalCondition(row, headers, Condition(f, Ne, v)))
            || f !in headers
    ensures Negated(EvalCondition(row, headers, Condition(f, Ge, v)), EvalCondition(row, headers, Condition(f, Lt, v)))
            || f !in headers
    ensures Negated(EvalCondition(row, headers, Condition(f, Le, v)), EvalCondition(row, headers, Condition(f, Gt, v)))
            || f !in headers
  {
  }

  predicate Negated(a: Result<bool>, b: Result<bool>)
  {
    (a.Err? && b == a) || (a.Ok? && b == Ok(!a.value))
  }

  /**
   * The ordering operators compare numerically: on a numeric cell and a
   * numeric literal `>` holds exactly when the cell's number is larger, and on
   * a cell that is not a number they raise.
   */
  lemma OrderingIsNumeric(row: Row, headers: seq<string>, f: string, op: Op, v: Literal)
    requires op in {Gt, Lt, Ge, Le}
    requires f in headers && IndexOf(headers, f) < |row|
    ensures var cell := row[IndexOf(headers, f)];
      var r := EvalCondition(row, headers, Condition(f, op, v));
      && (ParseInt(cell).None? ==> r == Err(NotANumber(cell)))
      && (ParseInt(cell).Some? && LiteralNumber(v).Some? ==>
            r == Ok(Compare(op, ParseInt(cell).value, LiteralNumber(v).value)))
  {
  }

  /** The numeric comparison of an ordering operator (float(cell_value) against float(value)). */
  function Compare(op: Op, a: int, b: int): bool
    requires op != Eq && op != Ne
  {
    match op
    case Gt => a > b
    case Lt => a < b
    case Ge => a >= b
    case Le => a <= b
  }

  /**
   * `=` against a NUMBER literal compares text: a cell that passes reads as
   * that number, but a cell with the same number in another spelling
   * ("07" for 7) does not pass.
   */
  lemma NumberEqualityIsTextual(row: Row, headers: seq<string>, f: string, n: nat)
    requires f in headers && IndexOf(headers, f) < |row|
    ensures EvalCondition(row, headers, Condition(f, Eq, Num(n))) == Ok(true)
        ==> ParseInt(row[IndexOf(headers, f)]) == Some(n)
    ensures EvalCondition(["07"], ["a"], Condition("a", Eq, Num(7))) == Ok(false)
  {
    NatToStringRoundTrip(n);
    assert NatToString(7) == "7";
  }

  /** A quoted literal that reads as a number never equals a numeric cell, even one with identical text. */
  lemma QuotedNumberNeverEqual(row: Row, headers: seq<string>, f: string, s: string)
    requires f in headers && IndexOf(headers, f) < |row|
    requires ParseInt(row[IndexOf(headers, f)]).Some? && ParseInt(s).Some?
    ensures EvalCondition(row, headers, Condition(f, Eq, Str(s))) == Ok(false)
    ensures EvalCondition(row, headers, Condition(f, Ne, Str(s))) == Ok(true)
  {
  }

  /**
   * The header positions a projection selects (main.py lines 270-282):
   * every position for `*`, otherwise the first position of each requested
   * name in the requested order, failing on the first name that is not a header.
   */
  function ResolveFields(headers: seq<string>, fields: seq<string>): (r: Result<seq<nat>>)
    ensures r.Ok? <==> forall k :: 0 <= k < |fields| ==> fields[k] in headers
    ensures r.Ok? ==> |r.value| == |fields|
    ensures r.Ok? ==> forall k :: 0 <= k < |fields| ==>
      && r.value[k] < |headers|
      && headers[r.value[k]] == fields[k]
      && fields[k] !in headers[..r.value[k]]
    ensures r.Err? ==> exists k ::
      && 0 <= k < |fields|
      && r.error == FieldNotFound(fields[k])
      && fields[k] !in headers
      && forall j :: 0 <= j < k ==> fields[j] in headers
  {
    if fields == [] then Ok([])
    else if fields[0] !in headers then Err(FieldNotFound(fields[0]))
    else
      match ResolveFields(headers, fields[1..])
      case Err(e) => Err(e)
      case Ok(rest) => Ok([IndexOf(headers, fields[0])] + rest)
  }

  function SelectedIndices(headers: seq<string>, fields: seq<string>): Result<seq<nat>>
  {
    if fields == ["*"] then Ok(AllPositions(|headers|)) else ResolveFields(headers, fields)
  }

  /** list(range(n)). */
  function AllPositions(n: nat): (r: seq<nat>)
    ensures |r| == n && forall i :: 0 <= i < n ==> r[i] == i
  {
    seq(n, i => i)
  }

  function SelectedHeaders(headers: seq<string>, fields: seq<string>): seq<string>
  {
    if fields == ["*"] then headers else fields
  }

  /** [row[i] for i in selected_indices], with the IndexError of a row too short for them. */
  function ProjectRow(row: Row, idx: seq<nat>): (r: Result<Row>)
    ensures r.Ok? <==> forall k :: 0 <= k < |idx| ==> idx[k] < |row|
    ensures r.Ok? ==> |r.value| == |idx| && forall k :: 0 <= k < |idx| ==> r.value[k] == row[idx[k]]
  {
    if forall k :: 0 <= k < |idx| ==> idx[k] < |row| then Ok(seq(|idx|, k requires 0 <= k < |idx| => row[idx[k]]))
    else Err(IndexOutOfRange)
  }

  /**
   * On a row of the header width, projecting through the resolved field list
   * succeeds and gives, for each requested field in order, the cell under the
   * first header of that name.
   */
  lemma ProjectResolved(row: Row, headers: seq<string>, fields: seq<string>)
    requires |row| == |headers| && ResolveFields(headers, fields).Ok?
    ensures ProjectRow(row, ResolveFields(headers, fields).value).Ok?
    ensures var p := ProjectRow(row, ResolveFields(headers, fields).value).value;
      |p| == |fields| && forall k :: 0 <= k < |fields| ==> p[k] == row[IndexOf(headers, fields[k])]
  {
    var idx := ResolveFields(headers, fields).value;
    forall k | 0 <= k < |fields|
      ensures idx[k] == IndexOf(headers, fields[k])
    {
      FirstIndexUnique(headers, fields[k], idx[k], IndexOf(headers, fields[k]));
    }
  }

  /** What one source row contributes: its projection when it passes the WHERE clause, nothing when it fails, or the exception. */
  function RowResult(row: Row, headers: seq<string>, conds: seq<Condition>, idx: seq<nat>): Result<Option<Row>>
  {
    match EvalConditions(row, headers, conds)
    case Err(e) => Err(e)
    case Ok(holds) =>
      if !holds then Ok(None)
      else
        match ProjectRow(row, idx)
        case Err(e) => Err(e)
        case Ok(p) => Ok(Some(p))
  }

  /** The WHERE loop of p_select_stmt over `data`, in row order; the first exception aborts it. */
  function Filter(data: seq<Row>, headers: seq<string>, conds: seq<Condition>, idx: seq<nat>): Result<seq<Row>>
  {
    if data == [] then Ok([])
    else
      match Filter(data[..|data| - 1], headers, conds, idx)
      case Err(e) => Err(e)
      case Ok(kept) =>
        match RowResult(data[|data| - 1], headers, conds, idx)
        case Err(e) => Err(e)
        case Ok(p) => Ok(if p.Some? then kept + [p.value] else kept)
  }

  /** filtered_data[:limit] when a LIMIT is given. */
  function Take(rows: seq<Row>, limit: Option<nat>): (r: seq<Row>)
    ensures limit.None? ==> r == rows
    ensures limit.Some? ==> |r| == (if limit.value < |rows| then limit.value else |rows|)
    ensures r == rows[..|r|]
  {
    match limit
    case None => rows
    case Some(n) => if n < |rows| then rows[..n] else rows
  }

  /** The result p_select_stmt builds, or why it builds none. */
  function EvalSelect(tables: map<string, Relation>, spec: SelectSpec): Result<Relation>
  {
    if spec.table !in tables then Err(TableNotFound(spec.table))
    else
      var t := tables[spec.table];
      match SelectedIndices(t.headers, spec.fields)
      case Err(e) => Err(e)
      case Ok(idx) =>
        match Filter(t.data, t.headers, spec.conditions, idx)
        case Err(e) => Err(e)
        case Ok(rows) => Ok(Relation(SelectedHeaders(t.headers, spec.fields), Take(rows, spec.limit)))
  }

  /** The filter raises exactly when some row raises; otherwise it never grows the table. */
  lemma {:induction false} FilterFails(data: seq<Row>, headers: seq<string>, conds: seq<Condition>, idx: seq<nat>)
    ensures Filter(data, headers, conds, idx).Ok? <==> forall j :: 0 <= j < |data| ==> RowResult(data[j], headers, conds, idx).Ok?
    ensures Filter(data, headers, conds, idx).Ok? ==> |Filter(data, headers, conds, idx).value| <= |data|
  {
    if data != [] {
      var init := data[..|data| - 1];
      FilterFails(init, headers, conds, idx);
      assert forall j :: 0 <= j < |init| ==> init[j] == data[j];
    }
  }

  /**
   * The rows the filter keeps are exactly the projections of the source rows
   * that pass the WHERE clause.
   */
  lemma {:induction false} FilterKeepsPassingRows(data: seq<Row>, headers: seq<string>, conds: seq<Condition>, idx: seq<nat>, x: Row)
    requires Filter(data, headers, conds, idx).Ok?
    ensures x in Filter(data, headers, conds, idx).value
        <==> exists j :: 0 <= j < |data| && RowResult(data[j], headers, conds, idx) == Ok(Some(x))
  {
    if data != [] {
      var init := data[..|data| - 1];
      FilterKeepsPassingRows(init, headers, conds, idx, x);
      assert forall j :: 0 <= j < |init| ==> init[j] == data[j];
      if x in Filter(data, headers, conds, idx).value && x !in Filter(init, headers, conds, idx).value {
        assert RowResult(data[|data| - 1], headers, conds, idx) == Ok(Some(x));
      }
    }
  }

  /**
   * Filtering keeps order: the k-th kept row is the projection of the k-th
   * passing source row, at a position `pos[k]` that grows with k.
   */
  lemma {:induction false} FilterKeepsOrder(data: seq<Row>, headers: seq<string>, conds: seq<Condition>, idx: seq<nat>)
    returns (pos: seq<nat>)
    requires Filter(data, headers, conds, idx).Ok?
    ensures |pos| == |Filter(data, headers, conds, idx).value|
    ensures forall k :: 0 <= k < |pos| ==>
      && pos[k] < |data|
      && RowResult(data[pos[k]], headers, conds, idx) == Ok(Some(Filter(data, headers, conds, idx).value[k]))
    ensures forall k, l :: 0 <= k < l < |pos| ==> pos[k] < pos[l]
    ensures forall j ::
      (0 <= j < |data| && RowResult(data[j], headers, conds, idx).Ok? && RowResult(data[j], headers, conds, idx).value.Some?)
      ==> j in pos
  {
    if data == [] {
      return [];
    }
    var init := data[..|data| - 1];
    var pos0 := FilterKeepsOrder(init, headers, conds, idx);
    assert forall k :: 0 <= k < |pos0| ==> init[pos0[k]] == data[pos0[k]];
    var last := |data| - 1;
    if RowResult(data[last], headers, conds, idx).value.Some? {
      pos := pos0 + [last];
    } else {
      pos := pos0;
    }
  }

  /** Without a WHERE clause every row is kept, each projected through the selected positions. */
  lemma {:induction false} NoWhereKeepsAll(data: seq<Row>, headers: seq<string>, idx: seq<nat>)
    requires forall j :: 0 <= j < |data| ==> ProjectRow(data[j], idx).Ok?
    ensures Filter(data, headers, [], idx).Ok?
    ensures |Filter(data, headers, [], idx).value| == |data|
    ensures forall j :: 0 <= j < |data| ==> Filter(data, headers, [], idx).value[j] == ProjectRow(data[j], idx).value
  {
    if data != [] {
      var init := data[..|data| - 1];
      NoWhereKeepsAll(init, headers, idx);
      assert forall j :: 0 <= j < |init| ==> init[j] == data[j];
      assert RowResult(data[|data| - 1], headers, [], idx) == Ok(Some(ProjectRow(data[|data| - 1], idx).value));
    }
  }

  /**
   * Shape of a result: the stored headers for `*`, the requested names in the
   * requested order otherwise, one cell per header in every row, and never
   * more than LIMIT rows.
   */
  lemma ResultShape(tables: map<string, Relation>, spec: SelectSpec)
    requires EvalSelect(tables, spec).Ok?
    ensures var r := EvalSelect(tables, spec).value;
      && spec.table in tables
      && r.headers == (if spec.fields == ["*"] then tables[spec.table].headers else spec.fields)
      && WellFormed(r)
      && (spec.limit.Some? ==> |r.data| <= spec.limit.value)
  {
    var t := tables[spec.table];
    var idx := SelectedIndices(t.headers, spec.fields).value;
    var rows := Filter(t.data, t.headers, spec.conditions, idx).value;
    var r := EvalSelect(tables, spec).value;
    forall k | 0 <= k < |r.data| ensures |r.data[k]| == |r.headers| {
      assert r.data[k] in rows;
      FilterKeepsPassingRows(t.data, t.headers, spec.conditions, idx, r.data[k]);
    }
  }

  /** `SELECT * FROM R` with no WHERE and no LIMIT returns R itself, headers and rows in order. */
  lemma SelectStarIsIdentity(tables: map<string, Relation>, name: string)
    requires name in tables && WellFormed(tables[name])
    ensures EvalSelect(tables, SelectSpec(["*"], name, [], None)) == Ok(tables[name])
  {
    var t := tables[name];
    var idx := AllPositions(|t.headers|);
    forall j | 0 <= j < |t.data| ensures ProjectRow(t.data[j], idx) == Ok(t.data[j]) {
      assert ProjectRow(t.data[j], idx).value == t.data[j];
    }
    NoWhereKeepsAll(t.data, t.headers, idx);
    assert Filter(t.data, t.headers, [], idx).value == t.data;
  }

  /** LIMIT keeps the first min(n, kept) rows of the filtered result and nothing else. */
  lemma LimitTakesPrefix(tables: map<string, Relation>, spec: SelectSpec, n: nat)
    requires EvalSelect(tables, spec.(limit := None)).Ok?
    ensures var all := EvalSelect(tables, spec.(limit := None)).value.data;
      var cut := EvalSelect(tables, spec.(limit := Some(n)));
      && cut.Ok?
      && cut.value.data == all[..if n < |all| then n else |all|]
  {
  }

  /** Renaming: the same query against the table's new name finds the same rows, and against the old name finds none. */
  lemma QueryAfterRename(tables: map<string, Relation>, spec: SelectSpec, newName: string)
    requires spec.table in tables && spec.table != newName
    ensures var renamed := (tables - {spec.table})[newName := tables[spec.table]];
      && EvalSelect(renamed, spec.(table := newName)) == EvalSelect(tables, spec)
      && EvalSelect(renamed, spec) == Err(TableNotFound(spec.table))
  {
  }

  /** The WHERE clause of p_select_stmt for one row, a loop with early returns (evaluate_conditions). */
  method EvaluateConditions(row: Row, headers: seq<string>, conds: seq<Condition>) returns (r: Result<bool>)
    ensures r == EvalConditions(row, headers, conds)
  {
    var k := 0;
    while k < |conds|
      invariant 0 <= k <= |conds|
      invariant EvalConditions(row, headers, conds) == EvalConditions(row, headers, conds[k..])
    {
      assert conds[k..][1..] == conds[k + 1..];
      var c := EvalCondition(row, headers, conds[k]);
      if c.Err? {
        return Err(c.error);
      }
      if !c.value {
        return Ok(false);
      }
      k := k + 1;
    }
    return Ok(true);
  }

  /** The loop over the requested fields that builds selected_indices, stopping at the first unknown name. */
  method SelectFields(headers: seq<string>, fields: seq<string>) returns (r: Result<seq<nat>>)
    ensures r == SelectedIndices(headers, fields)
  {
    if fields == ["*"] {
      return Ok(AllPositions(|headers|));
    }
    var indices: seq<nat> := [];
    var k := 0;
    while k < |fields|
      invariant 0 <= k <= |fields|
      invariant forall j :: 0 <= j < k ==> fields[j] in headers
      invariant |indices| == k && forall j :: 0 <= j < k ==> indices[j] == IndexOf(headers, fields[j])
    {
      if fields[k] !in headers {
        return Err(FieldNotFound(fields[k]));
      }
      indices := indices + [IndexOf(headers, fields[k])];
      k := k + 1;
    }
    var resolved := ResolveFields(headers, fields);
    assert resolved.Ok?;
    forall j | 0 <= j < |fields| ensures resolved.value[j] == indices[j] {
      FirstIndexUnique(headers, fields[j], resolved.value[j], indices[j]);
    }
    assert resolved.value == indices;
    return Ok(indices);
  }

  /** p_select_stmt: the table lookup, projection, WHERE loop and LIMIT. */
  method RunSelect(tables: map<string, Relation>, spec: SelectSpec) returns (r: Result<Relation>)
    ensures r == EvalSelect(tables, spec)
  {
    if spec.table !in tables {
      return Err(TableNotFound(spec.table));
    }
    var t := tables[spec.table];
    var selected := SelectFields(t.headers, spec.fields);
    if selected.Err? {
      return Err(selected.error);
    }
    var idx := selected.value;
    var filtered: seq<Row> := [];
    var k := 0;
    while k < |t.data|
      invariant 0 <= k <= |t.data|
      invariant Filter(t.data[..k], t.headers, spec.conditions, idx) == Ok(filtered)
    {
      assert t.data[..k + 1][..k] == t.data[..k];
      var row := t.data[k];
      var keep := EvaluateConditions(row, t.headers, spec.conditions);
      if keep.Err? {
        FilterPrefixFails(t.data, t.headers, spec.conditions, idx, k + 1);
        return Err(keep.error);
      }
      if keep.value {
        var p := ProjectRow(row, idx);
        if p.Err? {
          FilterPrefixFails(t.data, t.headers, spec.conditions, idx, k + 1);
          return Err(p.error);
        }
        filtered := filtered + [p.value];
      }
      k := k + 1;
    }
    assert t.data[..k] == t.data;
    return Ok(Relation(SelectedHeaders(t.headers, spec.fields), Take(filtered, spec.limit)));
  }

  /** Two positions that both hold the first occurrence of x are the same position. */
  lemma FirstIndexUnique(s: seq<string>, x: string, i: nat, j: nat)
    requires i < |s| && s[i] == x && x !in s[..i]
    requires j < |s| && s[j] == x && x !in s[..j]
    ensures i == j
  {
    assert forall k :: 0 <= k < j ==> s[..j][k] == s[k];
    assert forall k :: 0 <= k < i ==> s[..i][k] == s[k];
  }

  /** An exception in the first n rows is the exception of the whole filter. */
  lemma {:induction false} FilterPrefixFails(data: seq<Row>, headers: seq<string>, conds: seq<Condition>, idx: seq<nat>, n: nat)
    requires n <= |data|
    requires Filter(data[..n], headers, conds, idx).Err?
    ensures Filter(data, headers, conds, idx) == Filter(data[..n], headers, conds, idx)
    decreases |data| - n
  {
    if n < |data| {
      assert data[..n + 1][..n] == data[..n];
      FilterPrefixFails(data, headers, conds, idx, n + 1);
    } else {
      assert data[..n] == data;
    }
  }
}
