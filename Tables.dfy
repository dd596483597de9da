/**
 * The values every statement of the CQL engine works on: a relation (the
 * `{'headers': ..., 'data': ...}` dict stored under a table name) and the
 * ways a statement ends without a result.
 */
module Tables {

  /** A row is an ordered list of cells. Every cell is a string: import yields
      strings, and SELECT and JOIN only copy cells. */
  type Row = seq<string>

  datatype Relation = Relation(headers: seq<string>, data: seq<Row>)

  /**
   * Why a statement produced no result. The first four are the messages an
   * action prints before returning; NotANumber (ValueError from float()),
   * IndexOutOfRange (IndexError from row[i]) and NoSelectResult (TypeError
   * from subscripting the None a failed SELECT leaves) are Python exceptions;
   * FileNotOpened, EmptyFile (StopIteration from next(reader)) and
   * CsvUndefined (NameError) are the import failures its except clause swallows.
   */
  datatype Error =
    | TableNotFound(table: string)
    | FieldNotFound(field: string)
    | ColumnNotFound(column: string, table: string)
    | ProcedureNotFound(name: string)
    | NotANumber(text: string)
    | IndexOutOfRange
    | NoSelectResult
    | FileNotOpened
    | EmptyFile
    | CsvUndefined
  {
    /** The failure leaves the action as a raised exception. */
    predicate Raised() { NotANumber? || IndexOutOfRange? || NoSelectResult? }
  }

  datatype Result<T> = Ok(value: T) | Err(error: Error)

  /** list.index(x): the position of the first occurrence of x. */
  function IndexOf(s: seq<string>, x: string): (i: nat)
    requires x in s
    ensures i < |s| && s[i] == x
    ensures x !in s[..i]
  {
    if s[0] == x then 0 else 1 + IndexOf(s[1..], x)
  }

  /** A name at the head of the list is found at position 0. */
  lemma IndexOfFirst(s: seq<string>, x: string)
    requires |s| > 0 && s[0] == x
    ensures IndexOf(s, x) == 0
  {
  }

  /** Every row holds exactly one cell per header. */
  predicate WellFormed(r: Relation)
  {
    forall k :: 0 <= k < |r.data| ==> |r.data[k]| == |r.headers|
  }

  /** Number of occurrences of x in s. */
  function Count(s: seq<string>, x: string): (n: nat)
    ensures n <= |s|
    ensures n == 0 <==> x !in s
  {
    if s == [] then 0 else (if s[0] == x then 1 else 0) + Count(s[1..], x)
  }

  /** The elements of a non-empty sequence are those of its prefix and its last element. */
  lemma SplitLast<T>(s: seq<T>)
    requires s != []
    ensures forall x :: x in s <==> x in s[..|s| - 1] || x == s[|s| - 1]
  {
    assert s == s[..|s| - 1] + [s[|s| - 1]];
  }
}
