# CQL Processor in Dafny

This project models the relational core of the CQL Processor. CQL is a small query language for CSV-backed tables. The model has three parts:

- the main interpreter's table store and statement actions (`main.py`);
- the two alternative versions of that store and of SELECT (`cql_database.py`, `cql_ast.py`);
- the token rules of the lexer (`cql_lexer.py`, and the copy with comment rules in `main.py`).

Every table is a `Relation(headers, data)` of string cells. Both `main.py` and `cql_database.py` keep their store as one mutable dictionary from table name to relation. In the model each store is a class with a `map<string, Relation>` field and one method per statement.

The statement actions are proved against specification functions, and those functions are the subject of the lemmas:

- `EvalSelect` and `EvalConditions` specify SELECT with WHERE and LIMIT.
- `Join` specifies the hash-based equi-join (`CREATE TABLE ... FROM ... JOIN ... USING (...)`).
- `ValidRows` specifies the row filter of IMPORT.
- `Replay` and `FailedSteps` specify the replay of a procedure body by CALL.
- `Execute` specifies the alternative SELECT of `cql_ast.py`.
- `Scan` and `Lex` specify the lexer.

Each module's imperative loops are methods whose `ensures` equate their result with the function.

Errors are values, not preconditions:

- The early returns that print a message are `Err(TableNotFound)`, `Err(FieldNotFound)`, `Err(ColumnNotFound)` and `Err(ProcedureNotFound)`.
- The Python exceptions are `Err(IndexOutOfRange)` for an IndexError on a short row, `Err(NotANumber)` for a ValueError from `float()`, and `Err(NoSelectResult)` for a TypeError when CREATE ... SELECT has no inner result.
- `Error.Raised()` tells the exceptions from the printed errors. This matters for CALL, which catches exceptions only.
- This split holds for `main.py`. In `Ast.Execute` (`cql_ast.py`), `TableNotFound` stands for the ValueError `execute` raises (cql_ast.py:22), and `FieldNotFound` for the ValueError of `headers.index` on an unknown field (cql_ast.py:42).

Modules:

- `Text`: digit strings, `str(int)` and its inverse, `str.lower`, `str.strip`.
- `Tables`: relations, errors, `list.index`.
- `Query`: the main SELECT and `evaluate_conditions`.
- `EquiJoin`: `p_create_join_stmt` and `execute_join`.
- `ImportRows`: the row loop of the main IMPORT.
- `Session`: the main interpreter's `tables` and `procedures` and its statement actions.
- `Database`: `cql_database.py`.
- `Ast`: `cql_ast.py`.
- `Lexer`: the token rules.

Two behaviours of the code are kept as written:

- `=` and `<>` compare the `str()` forms of cell and literal. A quoted number next to a numeric cell has been turned into a float first, so it never equals the cell (`Query.QuotedNumberNeverEqual`).
- CALL has no call-depth ceiling. A captured CALL record is skipped on replay, so replay never recurses, and the model adds no limit.

## Model

| member | source | states |
|---|---|---|
| Text.StripIsTrimmedSlice | main.py:167 | `str.strip(cs)` yields a contiguous slice of the field; every character cut from either end is in `cs`; the result neither starts nor ends with one |
| Text.NatToStringRoundTrip | cql_lexer.py:66 | `int()` of the decimal text of n is n, so integer cells and NUMBER literals read back unchanged |
| Text.LowerIsLowerCase | cql_lexer.py:51-52 | on identifier text (`[a-zA-Z_][a-zA-Z0-9_]*`, the only text `lower()` is applied to) the lowered text holds no capital, and lowering it again changes nothing |
| Tables.IndexOf | main.py:278 | `headers.index(field)` is the first position holding the field |
| Query.ConjunctionHolds | main.py:623-668 | `evaluate_conditions` accepts a row exactly when every condition on it holds |
| Query.MissingFieldRejects | main.py:629-630 | a condition on a field that is not a header evaluates to false, not to an error, so the row is rejected |
| Query.OperatorsComplement | main.py:649-666 | on an existing field, `<>` is the negation of `=`, `<` of `>=`, and `>` of `<=`, errors included |
| Query.OrderingIsNumeric | main.py:655-666 | ordering operators compare numerically and raise ValueError on a non-numeric cell |
| Query.NumberEqualityIsTextual | main.py:649-651 | `= n` holds only for a cell whose number is n, and compares text, so "07" is not equal to 7 |
| Query.QuotedNumberNeverEqual | main.py:636-654 | a quoted numeric literal next to a numeric cell is never `=` and always `<>` |
| Query.ResolveFields | main.py:270-282 | an explicit field list resolves exactly when every field is a header, to each field's first index in order; otherwise the first unknown field is reported |
| Query.ProjectResolved | main.py:273-288 | on a row of the header width, projecting through an explicit field list succeeds and gives, for each requested field in order, the cell under the first header of that name |
| Query.Take | main.py:291-292 | LIMIT n keeps the first min(n, count) rows, and no LIMIT keeps them all |
| Query.FilterFails | main.py:285-288 | the WHERE loop succeeds exactly when no row raises, and keeps at most every row |
| Query.FilterKeepsPassingRows | main.py:285-288 | a row is in the result exactly when some stored row passes the conditions and projects to it |
| Query.FilterKeepsOrder | main.py:285-288 | the k-th kept row is the projection of a passing row at a strictly increasing position, and every passing position appears, so rows are kept with their multiplicity and in order |
| Query.NoWhereKeepsAll | main.py:287 | without WHERE every row is kept, projected, in order |
| Query.FilterPrefixFails | main.py:285-288 | once a row raises, the SELECT fails with that row's exception, whatever follows |
| Query.ResultShape | main.py:254-311 | a SELECT result has the stored headers for `*` or the requested fields otherwise, rows of the header width, and at most LIMIT rows |
| Query.SelectStarIsIdentity | main.py:270-272 | `SELECT * FROM t` returns the stored relation unchanged |
| Query.LimitTakesPrefix | main.py:291-292 | the LIMIT n result is the prefix of the unlimited one |
| Query.QueryAfterRename | main.py:228 | after RENAME a query on the new name gives what the old name gave, and the old name is not found |
| Query.EvaluateConditions | main.py:623-668 | the condition loop with early returns computes `EvalConditions` |
| Query.SelectFields | main.py:270-282 | the field-resolution loop computes the selected indices |
| Query.RunSelect | main.py:254-311 | the SELECT action computes `EvalSelect`, including every failure |
| EquiJoin.DropAt | main.py:436 | `r[:i] + r[i+1:]` removes exactly position i |
| EquiJoin.MatchingMembership | main.py:421-427 | the lookup list for a key holds exactly the right rows whose join cell is that key |
| EquiJoin.Combine | main.py:434-437 | each right match becomes the left row followed by the right row without the join column |
| EquiJoin.Without | main.py:440-442 | the right headers kept are all those other than the join column, and only those |
| EquiJoin.CombineMembership | main.py:434-437 | the rows a left row contributes are exactly its combinations with its matches |
| EquiJoin.JoinRowsMembership | main.py:430-437 | a joined row is exactly a left row followed by a matching right row without its join cell |
| EquiJoin.MatchingCounts | main.py:421-427 | a key's lookup list is as long as the number of right rows with that key |
| EquiJoin.JoinRowsCount | main.py:430-437 | the number of joined rows is the sum over left rows of their match counts |
| EquiJoin.JoinHeaders | main.py:440-442 | the joined headers are the left headers followed by the right headers without the join column |
| EquiJoin.JoinWellFormed | main.py:418-448 | with the join column once in the right headers, every joined row has the header width, and the joined headers are the left headers followed by the right headers with the join column's position removed, exactly as the row slice removes that cell |
| EquiJoin.WithoutIsDropAt | main.py:436-442 | when the join column occurs once, the header filter keeps the right headers in order and removes exactly the join column's position, as `r[:i] + r[i+1:]` does |
| EquiJoin.JoinAligned | main.py:418-448 | with the join column once in the right headers, each row of `JoinRows` is a left row and a right row with equal join cells, and under the stored headers `l.headers + Without(r.headers, column)` every left column and every right column other than the join column holds its own row's cell under its own name (`CellsAligned`) |
| EquiJoin.RepeatedJoinColumnMisaligns | main.py:436-442 | with the join column twice in the right headers, the header filter drops both but the row slice drops one |
| EquiJoin.InnerJoinExample | main.py:389-448 | an inner join keeps matched left rows only and appends the right cells |
| EquiJoin.Append | main.py:424-427 | adding a row appends it to its key's list, creating the list if absent, and leaves other keys alone |
| EquiJoin.BuildLookup | main.py:421-427 | the `right_lookup` loop builds the key-to-rows index, or fails when a row is too short |
| EquiJoin.ProbeLeft | main.py:430-437 | the probe loop emits `JoinRows`, left-major, matches in right-table order |
| EquiJoin.ExecuteJoin | main.py:563-621 | `execute_join` computes `Join`, with each missing table or column as its error |
| ImportRows.ValidRowsWidth | main.py:154-168 | every stored row has exactly as many fields as the header |
| ImportRows.ValidRowsMembership | main.py:154-168 | a row is stored exactly when a file row of the header width that is not a comment unquotes to it |
| ImportRows.ValidRowsAppend | main.py:154-168 | the filter works row by row: splitting the file splits the stored rows |
| ImportRows.UnquotePlainField | main.py:167 | a field with no quote at either end is stored as read |
| ImportRows.UnquoteEnds | main.py:167 | a stored field is no longer than the one read and neither starts nor ends with `'` |
| ImportRows.QuoteOrderMatters | main.py:167 | `"` is stripped before `'`, so a single-quoted `"x"` keeps its double quotes |
| ImportRows.NormaliseRows | main.py:151-168 | the import loop computes `ValidRows` |
| Session.FailedSteps | main.py:536-538 | the reported failure numbers are 1-based positions within the body, in strictly increasing order |
| Session.FailedStepsExact | main.py:492-538 | number k + 1 is reported exactly when record k raised on the store left by the records before it |
| Session.CapturedMembership | main.py:470-474 | a declaration keeps exactly the body statements that left a record |
| Session.ReplaySkipsOtherRecords | main.py:514-535 | records other than CREATE ... SELECT and CREATE ... JOIN leave the store unchanged and never fail |
| Session.ReplayAppend | main.py:492-538 | replay runs the records in order, each on the store left by the previous ones |
| Session.FailureDoesNotStopReplay | main.py:536-538 | a record that raises leaves the store as it was, and the records after it still run |
| Session.ReplayInstallsCapturedResult | main.py:500-508 | a replayed CREATE ... SELECT installs the captured result without re-evaluating it |
| Session.ReplayTouchesOnlyTargets | main.py:492-538 | replay changes no table other than those its create records name |
| Session.Session.constructor | main.py:105-106 | both registries start empty |
| Session.Session.Import | main.py:140-180 | IMPORT binds the header and the valid rows under the name, or leaves the store unchanged when the file cannot be read |
| Session.Session.Discard | main.py:210-219 | DISCARD removes exactly the named table |
| Session.Session.Rename | main.py:222-233 | RENAME binds the relation to the new name, drops the old, overwrites any table at the new name; an absent source changes nothing |
| Session.Session.Select | main.py:254-311 | SELECT records the result of `EvalSelect` and changes nothing |
| Session.Session.CreateSelect | main.py:369-387 | CREATE ... SELECT binds the name to the select's result, and on a failed select changes nothing |
| Session.Session.CreateJoin | main.py:389-460 | CREATE ... JOIN binds the new name to `Join`, and on failure changes nothing |
| Session.Session.DeclareProcedure | main.py:463-481 | a declaration replaces the name's body with the captured records and leaves the tables alone |
| Session.Session.ReplayOne | main.py:493-538 | one replayed record updates the store as `ReplayStep` says, or raises and changes nothing |
| Session.Session.Call | main.py:484-544 | CALL replays the body in order with failures caught; an unknown name changes nothing |
| Database.DataRowsFails | cql_database.py:14 | the row filter raises exactly when some data row is empty |
| Database.DataRowsMembership | cql_database.py:14 | the kept rows are exactly the non-empty rows whose untrimmed first field does not start with '#' |
| Database.DataRowsPrefix | cql_database.py:14 | once an empty row is met the whole filter fails |
| Database.UnquoteFieldRoundTrip | cql_database.py:21-22 | a field wrapped in double quotes is stored as its contents |
| Database.UnquoteFieldOtherwise | cql_database.py:20-24 | a field not both starting and ending with `"` is stored as read, and a lone `"` becomes empty |
| Database.ProcessedRowsShape | cql_database.py:17-25 | each processed row keeps its width and holds its fields unquoted |
| Database.NoFieldCountCheck | cql_database.py:13-27 | a row wider than the header is stored, so the stored relation need not be well formed |
| Database.ImportAsWrittenNeverStores | cql_database.py:10-30 | as written, every import ends in the except branch |
| Database.MissingCsvModuleLosesTable | cql_database.py:12 | a file the intended import stores is lost by the written one |
| Database.Database.constructor | cql_database.py:1 | the store starts empty |
| Database.Database.FilterRows | cql_database.py:14 | the comprehension computes `DataRows` |
| Database.Database.ProcessRows | cql_database.py:17-25 | the nested loops compute `ProcessedRows` |
| Database.Database.Import | cql_database.py:5-30 | the intended import stores the header and the processed rows, overwriting; on any failure the store is unchanged |
| Database.Database.ImportAsWritten | cql_database.py:10-30 | the import as written fails with NameError once the file is open |
| Database.Database.Discard | cql_database.py:52-59 | DISCARD deletes exactly the named table and reports whether it was there |
| Database.Database.Rename | cql_database.py:62-71 | RENAME moves the relation to the new key, overwriting; an absent source changes nothing |
| Ast.MatchesOnlyWithoutConditions | cql_ast.py:48-58 | with the stub evaluator a row matches exactly when there are no conditions |
| Ast.KeptRows | cql_ast.py:28-32 | the filter keeps every row without conditions and none with them |
| Ast.StubRejectsEveryRow | cql_ast.py:55-58 | any WHERE clause yields an empty result |
| Ast.DefaultConditionsKeepAll | cql_ast.py:16 | a statement built without conditions keeps every stored row |
| Ast.ProjectRows | cql_ast.py:42-45 | projection keeps the row count, and its only failure is IndexError |
| Ast.ProjectRowsFails | cql_ast.py:42-45 | projection fails exactly when some kept row is too short, and otherwise projects each row |
| Ast.ProjectAllPositions | cql_ast.py:39-40 | projecting a row through all its positions gives the row |
| Ast.LimitShieldsShortRows | cql_ast.py:34-45 | LIMIT before projection lets a query succeed that the main SELECT fails with IndexError |
| Ast.AgreesWithMainSelect | cql_ast.py:19-46 | without WHERE, on a well-formed table, `execute` returns what the main SELECT returns, errors included |
| Ast.MatchesConditions | cql_ast.py:48-53 | the early-return loop accepts a row exactly when every condition is truthy |
| Ast.FilterRows | cql_ast.py:28-32 | the filter loop computes `Kept` |
| Ast.ProjectAll | cql_ast.py:42-45 | the projection comprehension computes `ProjectRows` |
| Ast.ExecuteSelect | cql_ast.py:19-46 | `execute` computes `Execute`: a missing table raises, then filter, LIMIT, projection |
| Lexer.IdentifierKind | cql_lexer.py:50-53 | an identifier gets a keyword type exactly when its lower-case text is reserved |
| Lexer.KeywordsIgnoreCase | cql_lexer.py:13-33 | `SeLeCt` and `WHERE` are keywords and `selection` is an IDENTIFIER |
| Lexer.SameKindWhenLowerAgrees | cql_lexer.py:52 | spellings that lower-case alike get the same type |
| Lexer.IdentifierToken | cql_lexer.py:50-53 | an identifier token is the longest run of identifier characters, typed by the keyword lookup |
| Lexer.StringEnd | cql_lexer.py:60 | a string literal ends just past a closing quote of its own kind |
| Lexer.StringTokenValue | cql_lexer.py:59-62 | a STRING token's value is its text without the first and last character, which are the same quote |
| Lexer.StringRoundTrip | cql_lexer.py:59-62 | quoting a plain text and lexing it gives back the text |
| Lexer.NumberTokenValue | cql_lexer.py:64-67 | a NUMBER without '.' has the integer value of its digits; one with '.' keeps its text |
| Lexer.NumberRoundTrip | cql_lexer.py:64-67 | the decimal digits of n lex to one NUMBER token of value n |
| Lexer.NewlinesCounted | cql_lexer.py:69-71 | a run of k newlines yields no token and adds k to the line count |
| Lexer.BlanksIgnored | cql_lexer.py:48 | a space or tab yields nothing and moves one character on |
| Lexer.IllegalSkipsOne | cql_lexer.py:73-75 | an illegal character is reported, exactly it is skipped, and lexing goes on |
| Lexer.TwoCharOperatorAt | cql_lexer.py:36-41 | wherever `>=`, `<=` or `<>` appears it is lexed as one token of its own type, two characters long |
| Lexer.OneCharOperatorAt | cql_lexer.py:36-45 | a one-character operator not followed by the second half of a two-character one is a token on its own |
| Lexer.TwoCharOperatorsFirst | cql_lexer.py:36-45 | example: `>=` and `<>` are single tokens, while `> =` is `>` then `=` |
| Lexer.LineCommentAt | main.py:85-87 | wherever `--` appears, the comment rules skip to the end of its line with no token; without them its '-' is illegal |
| Lexer.LineComments | main.py:85-87 | example of `LineCommentAt` on `--x` followed by a newline |
| Lexer.BlockEnd | main.py:89-91 | the lazy match ends just past the first `-}` from its start, and is None exactly when no `-}` follows |
| Lexer.BlockCommentAt | main.py:89-91 | wherever `{-` appears, the comment rules skip to the end `BlockEnd` gives with no token; when no `-}` follows, its '{' is illegal |
| Lexer.BlockComments | main.py:89-91 | example: `{-a-}b-}` ends at the first `-}`, and an unclosed `{-` leaves '{' illegal |
| Lexer.MatchRule | cql_lexer.py:36-67 | every rule that matches consumes at least one character |
| Lexer.StepAt | cql_lexer.py:48-75 | each step advances, and a step that yields a token reports no error and keeps the line |
| Lexer.Scan | cql_lexer.py:48-75 | the next token lies ahead, and when there is none the input is used up |
| Lexer.Lexer.constructor | cql_lexer.py:78 | a new lexer starts at position 0 on line 1 |
| Lexer.Lexer.Newline | cql_lexer.py:69-71 | `t_newline` adds the run's length to `lineno` |
| Lexer.Lexer.Error | cql_lexer.py:73-75 | `t_error` reports the current character and skips exactly one |
| Lexer.Lexer.Discarded | cql_lexer.py:48-75 | a position yielding no token moves the lexer as `StepAt` says |
| Lexer.Lexer.NextToken | cql_lexer.py:48-75 | asking for the next token updates the lexer exactly as `Scan` says |
| Lexer.Tokenize | cql_lexer.py:78 | draining the lexer yields `Lex`: all tokens in order, every illegal character, and the final line |

## Left out

- The PLY parser built at `main.py:671` and its `p_error` recovery are not modelled. Statements reach the model as already-parsed values (`SelectSpec` and the statement methods' arguments).
- The PLY `lex.lex()` driver is not modelled. `Lexer.Lexer.NextToken` reproduces only its effect on these rules.
- File I/O is a parameter. IMPORT receives the file's rows already split into fields, or `None` when the file cannot be opened.
- CSV quoting is not modelled, because the CSV reader and writer are library code.
- EXPORT writes a file, so it is not modelled.
- PRINT, the table printing in SELECT and the messages only print, so none of them is modelled.
- `main()`, the `;` splitting front end, `cql_executor.py` and `cql_codegen.py` are front-end code and are not part of this model.
- Query.EvalCondition: numbers are integers only. Python `float()` also accepts decimals, exponents, `inf`, `nan`, surrounding whitespace, digit-group underscores (`1_000`) and non-ASCII decimal digits. Such cells count as non-numeric, so comparing them with an ordering operator gives NotANumber where Python compares floats.
- Query.Take: LIMIT is a non-negative integer. A decimal NUMBER after LIMIT (`LIMIT 2.5`) makes `filtered_data[:limit]` raise TypeError in Python (main.py:292), which the model cannot express.
- Query.TextEquals: a float-valued NUMBER literal (`= 1.5`) is not modelled, because literals are non-negative integers or strings.
- Query.TextEquals: for `=` and `<>`, a cell that `float()` reads but that is not a whole-number text (`10.0`, `1e1`, `inf`) counts as non-numeric, so a quoted numeric literal next to it is compared as written. Python turns that literal into a float first, so cell `10.0` is `= '10'` there (`str(10.0) == "10.0"`) but not in the model.
- Query.OrderingIsNumeric: ordering operators compare exact unbounded integers. Python compares `float()` values, so integers beyond 2^53 are rounded first (cell `9007199254740993` is not `> 9007199254740992` in Python but is in the model), and a NUMBER literal beyond the float range makes `float(value)` raise OverflowError where the model compares.
- Lexer.StepAt: a NUMBER containing '.' keeps its text (`Decimal`) instead of a float value. Floating point is not modelled.
- Text.IsDigit: `\d` is ASCII digits only. Python's `\d` also matches other Unicode decimal digits.
- Session.Session.DeclareProcedure: in the source, a body's statement actions run, and change the store, while the body is being parsed. The model takes the records of the body as given. The grammar itself accepts a body only when each of its statements ends in `;;` (`statements` adds a `;` after `statement`, which already ends in one, main.py:117-136). But the front end splits its input on `;` and passes each piece plus one `;` to the parser (main.py:695, main.py:710), so no piece ever holds a `;;` or the `END` of the same body, and no body is parsed in practice.
- Session.Session.Call: the printed progress and error messages, with their numbers, are not modelled. `failed` gives the numbers of the records that raised.
- Session.Session.Import: the warning that names each skipped line is not modelled.
- ImportRows.UnquoteEnds: the model proves that the result does not start or end with `'`. It does not prove the full slice characterisation of the double strip.
- EquiJoin.JoinWellFormed: duplicate header names are not excluded by the source. The model proves the row width only when the join column occurs once in the right headers. `EquiJoin.RepeatedJoinColumnMisaligns` shows the other case.

## Findings

| source | as written | input that shows it | evidently intended | confidence | as-written member | corrected member |
|---|---|---|---|---|---|---|
| cql_database.py:12 | `csv.reader` is used but `csv` is never imported, so every IMPORT that opens its file raises NameError inside the `try` and stores nothing | any readable file, e.g. header `a` and one row `1` | the table `a` / `1` is stored | not executed | Database.Database.ImportAsWritten (and Database.MissingCsvModuleLosesTable) | Database.Database.Import |
