/**
 * The statement actions of the main interpreter (main.py) over its two
 * module-level dictionaries: `tables`, from table name to relation, and
 * `procedures`, from procedure name to the statement records captured when
 * the procedure was declared. Each action returns the record it leaves in
 * p[0], or why it leaves none: a printed error that returns early, or an
 * exception (Error.Raised()).
 */
module Session {
  import opened Text
  import opened Tables
  import opened Query
  import opened EquiJoin
  import opened ImportRows

  /** The dict a statement action stores in p[0], keyed by its 'type'. */
  datatype Record =
    | ImportRec(table: string, file: string)
    | ExportRec(table: string, file: string)
    | DiscardRec(table: string)
    | RenameRec(oldTable: string, newTable: string)
    | PrintRec(table: string)
    | SelectRec(select: SelectSpec, result: Relation)
    | CreateSelectRec(table: string, select: SelectSpec, result: Relation)
    | CreateJoinRec(newTable: string, leftTable: string, rightTable: string, joinColumn: string)
    | ProcedureDeclRec(name: string)
    | ProcedureCallRec(name: string)

  /** What CALL does with one captured record: only CREATE ... SELECT and CREATE ... JOIN change the store. */
  function ReplayStep(tables: map<string, Relation>, rec: Record): Result<map<string, Relation>>
  {
    match rec
    case CreateSelectRec(name, _, result) => Ok(tables[name := result])
    case CreateJoinRec(newTable, left, right, column) =>
      (match Join(tables, left, right, column)
       case Ok(rel) => Ok(tables[newTable := rel])
       case Err(e) => if e.Raised() then Err(e) else Ok(tables))
    case _ => Ok(tables)
  }

  /** How a join record's outcome decides the replay step. */
  lemma JoinStep(tables: map<string, Relation>, rec: Record, joined: Result<Relation>)
    requires rec.CreateJoinRec? && joined == Join(tables, rec.leftTable, rec.rightTable, rec.joinColumn)
    ensures joined.Ok? ==> ReplayStep(tables, rec) == Ok(tables[rec.newTable := joined.value])
    ensures joined.Err? && joined.error.Raised() ==> ReplayStep(tables, rec) == Err(joined.error)
    ensures joined.Err? && !joined.error.Raised() ==> ReplayStep(tables, rec) == Ok(tables)
  {
  }

  /** The store after CALL has run the records in order, each failure caught and the next record run. */
  function Replay(tables: map<string, Relation>, recs: seq<Record>): map<string, Relation>
  {
    if recs == [] then tables
    else
      var before := Replay(tables, recs[..|recs| - 1]);
      match ReplayStep(before, recs[|recs| - 1])
      case Ok(after) => after
      case Err(_) => before
  }

  /** The 1-based numbers of the records whose replay raised, in order ("Erro na execução da instrução i"). */
  function FailedSteps(tables: map<string, Relation>, recs: seq<Record>): (f: seq<nat>)
    ensures forall k :: 0 <= k < |f| ==> 1 <= f[k] <= |recs|
    ensures forall k, l :: 0 <= k < l < |f| ==> f[k] < f[l]
  {
    if recs == [] then []
    else
      var init := recs[..|recs| - 1];
      FailedSteps(tables, init) + (if ReplayStep(Replay(tables, init), recs[|recs| - 1]).Err? then [|recs|] else [])
  }

  /** Number k + 1 is reported exactly when record k raised on the store the records before it left. */
  lemma {:induction false} FailedStepsExact(tables: map<string, Relation>, recs: seq<Record>, k: nat)
    requires k < |recs|
    ensures k + 1 in FailedSteps(tables, recs) <==> ReplayStep(Replay(tables, recs[..k]), recs[k]).Err?
  {
    var init := recs[..|recs| - 1];
    if k == |recs| - 1 {
      assert recs[..k] == init;
      assert k + 1 !in FailedSteps(tables, init);
    } else {
      FailedStepsExact(tables, init, k);
      assert init[..k] == recs[..k];
    }
  }

  /** The table names a sequence of records may (re)bind when replayed. */
  function Targets(recs: seq<Record>): set<string>
  {
    set k | 0 <= k < |recs| && (recs[k].CreateSelectRec? || recs[k].CreateJoinRec?) ::
      if recs[k].CreateSelectRec? then recs[k].table else recs[k].newTable
  }

  /** The statements a procedure body keeps: those whose action left a record, in order. */
  function Captured(body: seq<Option<Record>>): seq<Record>
  {
    if body == [] then []
    else
      var last := body[|body| - 1];
      Captured(body[..|body| - 1]) + (if last.Some? then [last.value] else [])
  }

  /** A record is captured exactly when a statement of the body left it. */
  lemma {:induction false} CapturedMembership(body: seq<Option<Record>>, r: Record)
    ensures r in Captured(body) <==> Some(r) in body
    ensures |Captured(body)| <= |body|
  {
    if body != [] {
      CapturedMembership(body[..|body| - 1], r);
      SplitLast(body);
    }
  }

  /** Records other than CREATE ... SELECT and CREATE ... JOIN, a nested CALL included, leave the store as it is. */
  lemma {:induction false} ReplaySkipsOtherRecords(tables: map<string, Relation>, recs: seq<Record>)
    requires forall k :: 0 <= k < |recs| ==> !recs[k].CreateSelectRec? && !recs[k].CreateJoinRec?
    ensures Replay(tables, recs) == tables
    ensures FailedSteps(tables, recs) == []
  {
    if recs != [] {
      ReplaySkipsOtherRecords(tables, recs[..|recs| - 1]);
    }
  }

  /** Replaying a body in two parts is replaying it whole: the records run strictly in order. */
  lemma {:induction false} ReplayAppend(tables: map<string, Relation>, a: seq<Record>, b: seq<Record>)
    ensures Replay(tables, a + b) == Replay(Replay(tables, a), b)
  {
    if b == [] {
      assert a + b == a;
    } else {
      ReplayAppend(tables, a, b[..|b| - 1]);
      assert (a + b)[..|a + b| - 1] == a + b[..|b| - 1];
      assert (a + b)[|a + b| - 1] == b[|b| - 1];
    }
  }

  /** A record whose replay raises leaves the store as it found it, and the records after it still run. */
  lemma FailureDoesNotStopReplay(tables: map<string, Relation>, a: seq<Record>, r: Record, b: seq<Record>)
    requires ReplayStep(Replay(tables, a), r).Err?
    ensures Replay(tables, a + [r] + b) == Replay(Replay(tables, a), b)
  {
    ReplayAppend(tables, a + [r], b);
    assert (a + [r])[..|a|] == a;
  }

  /** A replayed CREATE ... SELECT installs the result captured at declaration, whatever the store holds now. */
  lemma ReplayInstallsCapturedResult(tables: map<string, Relation>, recs: seq<Record>, name: string, spec: SelectSpec, result: Relation)
    ensures Replay(tables, recs + [CreateSelectRec(name, spec, result)]) == Replay(tables, recs)[name := result]
  {
    assert (recs + [CreateSelectRec(name, spec, result)])[..|recs|] == recs;
  }

  /** Replay binds only the target names of its create records; every other entry of the store is untouched. */
  lemma {:induction false} ReplayTouchesOnlyTargets(tables: map<string, Relation>, recs: seq<Record>, key: string)
    requires key !in Targets(recs)
    ensures key in Replay(tables, recs) <==> key in tables
    ensures key in tables ==> Replay(tables, recs)[key] == tables[key]
  {
    if recs != [] {
      var init := recs[..|recs| - 1];
      assert Targets(init) <= Targets(recs) by {
        forall t | t in Targets(init) ensures t in Targets(recs) {
          var k :| 0 <= k < |init| && (init[k].CreateSelectRec? || init[k].CreateJoinRec?)
                   && t == (if init[k].CreateSelectRec? then init[k].table else init[k].newTable);
          assert recs[k] == init[k];
        }
      }
      ReplayTouchesOnlyTargets(tables, init, key);
      var last := recs[|recs| - 1];
      if last.CreateSelectRec? {
        assert last.table in Targets(recs);
      } else if last.CreateJoinRec? {
        assert last.newTable in Targets(recs);
      }
    }
  }

  class Session {
    var tables: map<string, Relation>
    var procedures: map<string, seq<Record>>

    /** The interpreter starts with no tables and no procedures. */
    constructor()
      ensures tables == map[] && procedures == map[]
    {
      tables := map[];
      procedures := map[];
    }

    /**
     * IMPORT TABLE name FROM file, with the file's rows given as `content`
     * (None when the file cannot be opened). The first row is the header;
     * an unreadable or empty file is reported and leaves the store as it is.
     * The record is returned either way.
     */
    method Import(name: string, file: string, content: Option<seq<Row>>) returns (res: Result<Record>)
      modifies this
      ensures res == Ok(ImportRec(name, file))
      ensures procedures == old(procedures)
      ensures content.Some? && content.value != [] ==>
                tables == old(tables)[name := Relation(content.value[0], ValidRows(content.value[1..], |content.value[0]|))]
      ensures content.None? || content.value == [] ==> tables == old(tables)
    {
      if content.Some? && content.value != [] {
        var headers := content.value[0];
        var valid := NormaliseRows(content.value[1..], |headers|);
        tables := tables[name := Relation(headers, valid)];
      }
      return Ok(ImportRec(name, file));
    }

    /** DISCARD TABLE name: the entry goes if present; a missing name is reported. */
    method Discard(name: string) returns (res: Result<Record>)
      modifies this
      ensures res == Ok(DiscardRec(name))
      ensures tables == old(tables) - {name}
      ensures procedures == old(procedures)
    {
      if name in tables {
        tables := tables - {name};
      }
      return Ok(DiscardRec(name));
    }

    /** RENAME TABLE old new: tables[new] = tables.pop(old), overwriting any table called new. */
    method Rename(oldName: string, newName: string) returns (res: Result<Record>)
      modifies this
      ensures res == Ok(RenameRec(oldName, newName))
      ensures oldName in old(tables) ==> tables == (old(tables) - {oldName})[newName := old(tables)[oldName]]
      ensures oldName !in old(tables) ==> tables == old(tables)
      ensures procedures == old(procedures)
    {
      if oldName in tables {
        var rel := tables[oldName];
        tables := tables - {oldName};
        tables := tables[newName := rel];
      }
      return Ok(RenameRec(oldName, newName));
    }

    /** SELECT: the record carries the result; a failed select leaves no record. The store is not touched. */
    method Select(spec: SelectSpec) returns (res: Result<Record>)
      ensures EvalSelect(tables, spec).Ok? ==> res == Ok(SelectRec(spec, EvalSelect(tables, spec).value))
      ensures EvalSelect(tables, spec).Err? ==> res == Err(EvalSelect(tables, spec).error)
    {
      var r := RunSelect(tables, spec);
      if r.Err? {
        return Err(r.error);
      }
      return Ok(SelectRec(spec, r.value));
    }

    /**
     * CREATE TABLE name SELECT ...: binds name to the select's result. When
     * the inner select leaves no record, subscripting it raises (TypeError)
     * and nothing is stored.
     */
    method CreateSelect(name: string, spec: SelectSpec) returns (res: Result<Record>)
      modifies this
      ensures EvalSelect(old(tables), spec).Ok? ==>
                && tables == old(tables)[name := EvalSelect(old(tables), spec).value]
                && res == Ok(CreateSelectRec(name, spec, EvalSelect(old(tables), spec).value))
      ensures EvalSelect(old(tables), spec).Err? ==>
                && tables == old(tables)
                && res == Err(var e := EvalSelect(old(tables), spec).error; if e.Raised() then e else NoSelectResult)
      ensures procedures == old(procedures)
    {
      var inner := Select(spec);
      if inner.Err? {
        if inner.error.Raised() {
          return Err(inner.error);
        }
        return Err(NoSelectResult);
      }
      var result := inner.value.result;
      tables := tables[name := result];
      return Ok(CreateSelectRec(name, spec, result));
    }

    /** CREATE TABLE new FROM left JOIN right USING (column): binds new on success, and nothing else changes. */
    method CreateJoin(newTable: string, left: string, right: string, column: string) returns (res: Result<Record>)
      modifies this
      ensures Join(old(tables), left, right, column).Ok? ==>
                && tables == old(tables)[newTable := Join(old(tables), left, right, column).value]
                && res == Ok(CreateJoinRec(newTable, left, right, column))
      ensures Join(old(tables), left, right, column).Err? ==>
                tables == old(tables) && res == Err(Join(old(tables), left, right, column).error)
      ensures procedures == old(procedures)
    {
      var joined := ExecuteJoin(tables, left, right, column);
      if joined.Err? {
        return Err(joined.error);
      }
      tables := tables[newTable := joined.value];
      return Ok(CreateJoinRec(newTable, left, right, column));
    }

    /**
     * PROCEDURE name DO ... END: `body` holds what each statement's action
     * left (None when it left nothing). The records are stored under name,
     * replacing any earlier body.
     */
    method DeclareProcedure(name: string, body: seq<Option<Record>>) returns (res: Result<Record>)
      modifies this
      ensures res == Ok(ProcedureDeclRec(name))
      ensures procedures == old(procedures)[name := Captured(body)]
      ensures tables == old(tables)
    {
      var kept: seq<Record> := [];
      var k := 0;
      while k < |body|
        invariant 0 <= k <= |body|
        invariant kept == Captured(body[..k])
      {
        assert body[..k + 1][..k] == body[..k];
        if body[k].Some? {
          kept := kept + [body[k].value];
        }
        k := k + 1;
      }
      assert body[..k] == body;
      procedures := procedures[name := kept];
      return Ok(ProcedureDeclRec(name));
    }

    /** One captured record run by CALL; `raised` tells whether it ended in a caught exception. */
    method ReplayOne(rec: Record) returns (raised: bool)
      modifies this
      ensures ReplayStep(old(tables), rec).Ok? ==> tables == ReplayStep(old(tables), rec).value && !raised
      ensures ReplayStep(old(tables), rec).Err? ==> tables == old(tables) && raised
      ensures procedures == old(procedures)
    {
      match rec {
        case CreateSelectRec(name, _, result) =>
          tables := tables[name := result];
          return false;
        case CreateJoinRec(newTable, left, right, column) =>
          var joined := ExecuteJoin(tables, left, right, column);
          JoinStep(tables, rec, joined);
          if joined.Ok? {
            tables := tables[newTable := joined.value];
            return false;
          }
          return joined.error.Raised();
        case _ =>
          return false;
      }
    }

    /**
     * CALL name: runs the stored records in order, catching each one's
     * exception and going on with the next. `failed` lists the numbers of
     * the records that raised. An unknown name is reported and changes nothing.
     */
    method Call(name: string) returns (res: Result<Record>, failed: seq<nat>)
      modifies this
      ensures res == Ok(ProcedureCallRec(name))
      ensures procedures == old(procedures)
      ensures name !in old(procedures) ==> tables == old(tables) && failed == []
      ensures name in old(procedures) ==>
                && tables == Replay(old(tables), old(procedures)[name])
                && failed == FailedSteps(old(tables), old(procedures)[name])
    {
      failed := [];
      if name !in procedures {
        return Ok(ProcedureCallRec(name)), failed;
      }
      var body := procedures[name];
      var k := 0;
      while k < |body|
        invariant 0 <= k <= |body|
        invariant procedures == old(procedures) && body == procedures[name]
        invariant tables == Replay(old(tables), body[..k])
        invariant failed == FailedSteps(old(tables), body[..k])
      {
        assert body[..k + 1][..k] == body[..k];
        var raised := ReplayOne(body[k]);
        if raised {
          failed := failed + [k + 1];
        }
        k := k + 1;
      }
      assert body[..k] == body;
      return Ok(ProcedureCallRec(name)), failed;
    }
  }
}
