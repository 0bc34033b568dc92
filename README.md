# cloneobj in Dafny

`cloneobj.py` copies one Oracle table from a source connection to a target
connection. The core it is built from:

- `DBObject` describes a schema object (owner, name, type, options).
- `Connection` wraps a driver session and cursor.
- `Cloner` checks that the two objects make sense together. Its `clone`:
  1. connects both ends and fills in missing owners from the session's schema;
  2. checks that the target table exists, or else creates it from the source's DDL, rewritten for the target;
  3. optionally truncates the target;
  4. runs the select on the source;
  5. prepares a parameterised `INSERT` on the target;
  6. sends the rows in batches of `BULK_ROWS` = 100 through `executemany`;
  7. commits once.

The project models this in the program's own form:

- Pure code becomes functions with lemmas:
  - the option merge and identifier normalisation;
  - `ddl_target`'s two rewrites;
  - the placeholder list;
  - the existence rule.
- Code that changes state becomes classes with `modifies` clauses and loops with invariants:
  - `DBObject` has mutable `owner`, `name` and `opts`;
  - `Connection` has an `active` flag and a prepared statement;
  - `Cloner` has a mutable `select`;
  - the batch loop is a `while` loop.

The database is an abstract value. It holds:

- the session user;
- the object catalog;
- the DDL its metadata service would return;
- the rows each query yields;
- the statements it would refuse, the batches it would refuse for a prepared statement, and whether it refuses commits.

Every `Connection` records each call on its cursor, in order, in a ghost
trace. The calls recorded are open, close, execute, prepare, `executemany`
and commit.

`Cloner.Clone` is proved against `CloneSpec`, a function of the initial
state of both connections and both descriptors. `CloneSpec` gives:

- the outcome;
- the calls made on each connection;
- the final descriptors;
- the final select.

The clone's promises are then proved about `CloneSpec` in
`clone_properties.dfy`:

- the rows inserted are always the start of the selected rows, in order, and all of them once the clone commits;
- the batch sizes are as stated;
- there is at most one commit, and the clone succeeds exactly when it commits and the commit is accepted;
- DDL comes before the load, and a failed creation stops the clone before the select;
- a missing target stops the clone;
- truncation happens exactly when the option is set.

Modules:

- `Wrappers`: `Option`, `Result`, `Outcome`.
- `Text`: ASCII case mapping, `str.replace`, decimal numerals, `str.join`, character counts.
- `Descriptors`: option values, `DBObject`.
- `Ddl`: `Connection.ddl_target`.
- `Transfer`: batching and the `INSERT` statement.
- `Endpoint`: the abstract database and `Connection`.
- `CloneObj`: validation, the clone specification and `Cloner`.
- `CloneProperties`: the end-to-end properties of a clone.

## Model

| member | source | states |
|---|---|---|
| Text.Lower | cloneobj.py:117-118 | `str.lower` on ASCII letters: same length, no upper-case letter left, every other character kept; `LowerLetters` states which letter each becomes. |
| Text.LowerLetters | cloneobj.py:117-118 | Each upper-case letter becomes the same letter in lower case. |
| Text.Upper | cloneobj.py:84-85 | `str.upper` on ASCII letters: same length, no lower-case letter left, every other character kept; `UpperLetters` states which letter each becomes. |
| Text.UpperLetters | cloneobj.py:84-85 | Each lower-case letter becomes the same letter in upper case. |
| Descriptors.NormalIdent | cloneobj.py:117-118 | `x.lower() if x is not None else None`: an unset identifier stays unset, a set one is stored lower-case and equals the given one up to case. |
| Descriptors.MergeOptions | cloneobj.py:120-122 | The three defaults are always present. A caller's dictionary overrides exactly its own keys, and every other default keeps its value. Anything that is not a dictionary leaves the defaults. |
| Descriptors.MakeDescriptor | cloneobj.py:115-122 | Owner and name are stored lower-case, or stay unset when they were unset. The stored form equals the given one up to case. The type is kept, and the options are the merge. |
| Descriptors.NormalIdentIdempotent | cloneobj.py:117-118 | Lower-casing an identifier that was already stored changes nothing. |
| Descriptors.DBObject.constructor | cloneobj.py:115-122 | A new `DBObject` holds exactly the normalised descriptor of its arguments. The arguments default to no name, no owner, type `TABLE` and no options. |
| Text.ReplaceAll | cloneobj.py:84-85 | `str.replace`: scanning from the left, each non-overlapping occurrence of the pattern becomes the replacement. What it returns is pinned down by `ReplaceAllFirst` and `ReplaceAllAbsent`. |
| Text.ReplaceAllFirst | cloneobj.py:84-85 | `str.replace` replaces the leftmost occurrence, keeps the text before it, and resumes scanning after the occurrence. |
| Ddl.RenameObject | cloneobj.py:84-85 | The first step of `ddl_target`: every ` TYPE "OWNER"."NAME"` of the source, upper-cased, becomes ` TYPE "NAME"` of the target. Its behaviour is stated by `RenameAbsent`, `RenameFirst`, `RenameOnce` and `RenameDropsSchema`. |
| Ddl.RenameAbsent | cloneobj.py:84-85 | DDL in which the source's qualified name occurs nowhere passes the rename step unchanged. |
| Ddl.RenameFirst | cloneobj.py:84-85 | For any DDL `x + pat + y` whose prefix `x` holds no occurrence of `pat` = ` TYPE "OWNER"."NAME"` (the source's upper-cased qualified name), the result is `x`, then ` TYPE "TONAME"` with the target's upper-cased name, then the rename of `y`. |
| Ddl.RenameOnce | cloneobj.py:84-85 | DDL that names the source object at exactly one place, anywhere, has just that occurrence replaced by the target's unqualified name. Everything else is kept. |
| Ddl.RenameDropsSchema | cloneobj.py:84-85 | When source and target have the same type and name, the rename only deletes the schema qualification `"OWNER".`, wherever the single occurrence stands. |
| Ddl.ClauseAt | cloneobj.py:88 | The length of the match of `TABLESPACE ".*"` at the start of a text, if any. A match is longer than the keyword and fits in the text; `ClauseAtSpec` and `ClauseAtGreedy` say exactly which text it is. |
| Ddl.ClauseAtSpec | cloneobj.py:88 | A match of `TABLESPACE ".*"` starts with the keyword and ends at a double quote on the same line. No double quote follows it on that line: `.` stops at a line break and `*` is greedy. Without such a quote there is no match. |
| Ddl.ClauseAtGreedy | cloneobj.py:88 | On one line, the match runs from the keyword to the last double quote of the line, whatever quotes lie in between. |
| Ddl.ReplaceClauses | cloneobj.py:90 | `r.sub(rep, ddl)`: each leftmost match is replaced and scanning resumes after it. Its behaviour is stated by `ReplaceClausesNoMatch`, `ReplaceClausesFirst` and `ReplaceClausesLines`. |
| Ddl.TablespaceClause | cloneobj.py:89-90 | The replacement is empty exactly when the target's tablespace option is `None`; otherwise it is a `TABLESPACE "..."` clause, keyword first and closing quote last. |
| Ddl.ReplaceClausesNoMatch | cloneobj.py:88-90 | Text with no match is returned unchanged. |
| Ddl.ReplaceClausesWithoutQuote | cloneobj.py:88-90 | Text without a double quote holds no match of `TABLESPACE ".*"` and is returned unchanged. |
| Ddl.ReplaceClausesFirst | cloneobj.py:90 | `re.sub` replaces the leftmost match, keeps the text before it, and resumes after the match. |
| Ddl.ReplaceClausesLines | cloneobj.py:88-90 | The rewrite works line by line: rewriting two lines joined by a line break is the rewrite of each line, joined. |
| Ddl.ReplaceClauseInLine | cloneobj.py:88-90 | For any `x` in which no match starts, and any line rest `y` without a double quote, `x TABLESPACE "body" y` becomes `x <replacement> y`. `body` may hold quotes but no line break. |
| Ddl.ReplaceClauseLeading | cloneobj.py:88-90 | A clause at the start of the text, followed on its line by text without quotes, becomes the replacement followed by that text. |
| Ddl.ClauseAlone | cloneobj.py:88-90 | A text that is one clause becomes the replacement alone. |
| Ddl.ClausesOnTwoLines | cloneobj.py:88-90 | Two clauses on separate lines are each replaced. |
| Ddl.ClausesOnOneLine | cloneobj.py:88-90 | Two clauses on one line are replaced as a single match by one replacement. |
| Ddl.ClauseSwallowsLaterQuotes | cloneobj.py:88-90 | A quoted identifier after the clause on the same line is swallowed with it. |
| Ddl.ClauseStripped | cloneobj.py:89-90 | With the tablespace option `None`, the clause in any line `x TABLESPACE "ts" y` (no match starting in `x`, no quote in `y`) is deleted. `x` and `y` are kept and joined. |
| Ddl.DdlTarget | cloneobj.py:82-92 | `ddl_target`: the rename, then the tablespace rewrite with the target's option. Its behaviour on whole statements is stated by `DdlTargetUnchanged`, `DdlTargetCreate` and `CreateTableTranslated`. |
| Ddl.DdlTargetUnchanged | cloneobj.py:82-92 | Any DDL in which the source's qualified name occurs nowhere and no tablespace clause starts comes out of `ddl_target` unchanged. |
| Ddl.DdlTargetCreate | cloneobj.py:82-92 | For any DDL of the form `x + pat + y + "\n" + w + TABLESPACE "ts" + z` where `pat` occurs only at `x`, `x` and `y` may span lines and hold no clause, and `z` holds no quote: the result names the target without a schema, keeps `x`, `y`, `w` and `z`, and re-points the clause to the target's tablespace, or removes it when the option is `None`. |
| Ddl.CreateTableTranslated | cloneobj.py:82-92 | For any column list that does not mention ` TABLE "SRC"."T"` and holds no clause, `CREATE TABLE "SRC"."T" <columns>` with `TABLESPACE "TS1"` on the next line becomes `CREATE TABLE "T" <columns>` with `TABLESPACE "TS2"`, for a target `t` with tablespace option `TS2`. The source table `src.t` may carry any options, including the target's tablespace that `clone` copies onto it before the call. |
| Transfer.Batches | cloneobj.py:209-220 | The batches the loop hands to `executemany`, in call order; there are none exactly when there are no rows. `BatchesChunk` and `ChunkingUnique` characterise them independently of the loop. |
| Transfer.BatchesChunk | cloneobj.py:209-220 | The batches, concatenated in call order, are exactly the rows. Every batch holds 1 to 100 rows, and every batch but the last holds exactly 100. |
| Transfer.ChunkingUnique | cloneobj.py:209-220 | Any cutting of the rows with those properties is exactly the loop's batches. |
| Transfer.BatchesCount | cloneobj.py:209-220 | There are ceil(N / 100) batches for N rows. |
| Transfer.BatchesLast | cloneobj.py:220 | The final batch holds the last N mod 100 rows, or 100 rows when that is 0. |
| Transfer.BatchesFirst | cloneobj.py:212-216 | The first batch is the first 100 rows, or all of them when there are fewer. |
| Transfer.BatchesSnoc | cloneobj.py:215-218 | A flush after a whole number of full batches appends exactly the flushed buffer to the batch list. |
| Transfer.BatchesAppend | cloneobj.py:209-220 | Rows that follow a whole number of full batches are cut into batches exactly as they would be on their own. |
| Transfer.BatchesOf250 | cloneobj.py:32 | 250 rows go out as batches of 100, 100 and 50. |
| Transfer.Placeholder | cloneobj.py:192 | The placeholder of column `j` is `:` followed by a numeral that reads back as `j`. |
| Transfer.Placeholders | cloneobj.py:192 | `', '.join(':{!s}'.format(x) for x in range(n))`, characterised by `PlaceholdersSnoc`, `PlaceholdersCount` and `PlaceholdersOrder`. |
| Transfer.PlaceholdersSnoc | cloneobj.py:192 | One more column adds `, :n` after the list: the placeholders are joined by `", "`, and one column gives `:0` alone. |
| Transfer.PlaceholdersCount | cloneobj.py:192 | The placeholder list for `n` columns holds exactly `n` colons. |
| Transfer.PlaceholdersOrder | cloneobj.py:192 | Placeholder `:j` comes after exactly `j` others: they appear in ascending order. |
| Transfer.InsertStatement | cloneobj.py:193 | `INSERT INTO owner.name VALUES(<placeholders>)` for the select's column count; `InsertBindsEveryColumn` states that it binds one value per column. |
| Transfer.InsertBindsEveryColumn | cloneobj.py:191-193 | The `INSERT` binds exactly one value per selected column. |
| Endpoint.Matches | cloneobj.py:66-72 | The existence query returns exactly the catalog rows whose owner, name and type equal the upper-cased binds. |
| Endpoint.Found | cloneobj.py:73 | `len(fetchall()) == 1` on the existence query; `FoundIffUniqueFit`, `FoundIgnoresCase` and `UnsetNeverFound` characterise it. |
| Endpoint.FoundIffUniqueFit | cloneobj.py:73 | `object_exists` is true if and only if exactly one catalog row matches. |
| Endpoint.FoundIgnoresCase | cloneobj.py:68-70 | The existence check does not depend on the case of the descriptor's identifiers. |
| Endpoint.UnsetNeverFound | cloneobj.py:68-71 | An object whose owner or name is unset or empty, or whose type is empty, is never found: the driver binds `None` and `''` as NULL, and `upper(NULL)` equals no catalog value. |
| Endpoint.Connection.Connect | cloneobj.py:45-49 | Afterwards the connection is active. A session and a fresh cursor, with nothing prepared, are opened only when it was not active, so a second `connect` changes nothing. |
| Endpoint.Connection.Close | cloneobj.py:51-55 | Afterwards the connection is inactive. It is closed only when it was active, so a second `close` changes nothing. |
| Endpoint.Connection.ObjectExists | cloneobj.py:65-73 | Runs the existence query with the descriptor's binds. The result is `Found`. |
| Endpoint.Connection.Ddl | cloneobj.py:75-80 | Runs the DDL query and returns the metadata service's text for the object. |
| Endpoint.Connection.Execute | cloneobj.py:100-106 | Records the statement and reports whether the database accepts it. |
| Endpoint.Connection.Query | cloneobj.py:189 | Records the select and returns its rows and column count, or reports failure. |
| Endpoint.Connection.SessionOwner | cloneobj.py:164-165 | Runs the owner query and returns the session user lower-cased. |
| Endpoint.Connection.Prepare | cloneobj.py:196 | Records the statement. It becomes the prepared one exactly when the database accepts it; a refused prepare keeps the old one and is reported. |
| Endpoint.Connection.ExecuteMany | cloneobj.py:200 | Sends one batch on the prepared statement and reports success exactly when the database does not refuse that batch for that statement. |
| Endpoint.Connection.Commit | cloneobj.py:60-61 | Records one commit and reports success exactly when the database accepts commits. |
| CloneObj.Validate | cloneobj.py:136-149 | Each error is raised exactly when its condition holds and every earlier check passed. The order is: type, then source name, then identity (on the target with its name defaulted). |
| CloneObj.ValidatePassed | cloneobj.py:136-149 | A cloner that passes validation has two named tables. They differ in connection string, name or owner. |
| CloneObj.Cloner.Create | cloneobj.py:129-149 | Fails exactly as `Validate` says. The target name is defaulted to the source's only once the type and source-name checks have passed. On success the cloner holds the four arguments and no select. |
| CloneObj.Cloner.SetOwner | cloneobj.py:162-166 | The owner changes, to the session user lower-cased, only when it was unset. The owner query is issued only then. |
| CloneObj.Resolve | cloneobj.py:162-166 | `set_owner` on a descriptor: an unset owner becomes the session user lower-cased, a set one is kept. |
| CloneObj.ConnectSpec | cloneobj.py:151-155 | `connect`: the calls on each connection (open when inactive, owner query when unset) and the descriptors with resolved owners; a shared descriptor is resolved once. `ConnectResolves` and `ConnectAgain` state its properties. |
| CloneObj.ConnectResolves | cloneobj.py:151-155 | After `connect` both owners are set. An owner that was set is kept, and nothing but the owners changes. |
| CloneObj.ConnectAgain | cloneobj.py:151-155 | A second `connect` opens nothing, runs no query and changes no descriptor. |
| CloneObj.Cloner.Connect | cloneobj.py:151-155 | Both connections are active afterwards. The calls on each connection and the new descriptors are those of `ConnectSpec`. A connection that was opened holds no prepared statement. |
| CloneObj.Cloner.Close | cloneobj.py:157-159 | Both connections are closed afterwards, each closed only if it was open. |
| CloneObj.Cloner.BulkInsert | cloneobj.py:198-207 | A non-empty batch is one `executemany`, which succeeds exactly when the database accepts that batch. An empty batch leaves the target untouched and succeeds. |
| CloneObj.SentBatchesFirstRefused | cloneobj.py:209-220 | What the loop sends is all the batches exactly when every batch is accepted. Otherwise it is the batches up to and including the first refused one, and all before it were accepted. |
| CloneObj.SentUpToRefused | cloneobj.py:209-220 | Accepted batches followed by a refused one: the loop sends exactly those, and never the rest. |
| CloneObj.AcceptedFlush | cloneobj.py:215-218 | An accepted flush of a full buffer extends the accepted prefix of the batches. |
| CloneObj.RefusedFlush | cloneobj.py:215-218 | A refused flush of a full buffer ends the transfer: what was sent is the batches of the rows read so far. |
| CloneObj.FinishStep | cloneobj.py:220 | The final flush of the remaining rows sends them as one last batch, or nothing when none remain. The whole transfer is accepted exactly when that batch is. |
| CloneObj.Cloner.StreamRows | cloneobj.py:209-220 | The loop appends one `executemany` per batch of `Batches(rows)` to the target's calls, in order, up to and including the first refused batch. It reports success exactly when every batch is accepted. |
| CloneObj.DefaultSelect | cloneobj.py:182-183 | `SELECT * FROM owner.name` of the source; `LoadSelect` states when it is used. |
| CloneObj.TruncateStatement | cloneobj.py:185-186 | `TRUNCATE type owner.name` of the target; `LoadTruncatesIffOption` states when it is issued. |
| CloneObj.MakeTargetSpec | cloneobj.py:172-180 | Ensuring the target exists never changes the owner or name of either descriptor. |
| CloneObj.Cloner.MakeTarget | cloneobj.py:172-180 | The existence check, and where allowed the DDL fetch, translation and creation, behave as `MakeTargetSpec` says. This includes overwriting the source's tablespace option. No prepared statement changes. |
| CloneObj.TransferSpec | cloneobj.py:189-221 | The select, the prepare, the batches sent and the commit, with the outcome of each refusal. `TransferDelivers` and `TransferEventsDeliver` state its properties. |
| CloneObj.InsertSpec | cloneobj.py:193-221 | The target part of a transfer: the prepare, then, unless it is refused, the batches sent and the commit, with the outcome of each refusal. `TransferSpec` uses it once the select has succeeded. |
| CloneObj.PreparedAfter | cloneobj.py:191-196 | The statement prepared on the target after a transfer: the insert for the select's columns when the select succeeds and the database accepts it, the earlier one otherwise. |
| CloneObj.Cloner.InsertRows | cloneobj.py:193-221 | The insert is prepared, then the batches are sent and the target commits, as `InsertSpec` says: a refused prepare stops before any batch and leaves the earlier prepared statement in place; a refused batch stops before the commit; a refused commit ends with `CommitFailed`. |
| CloneObj.Cloner.Transfer | cloneobj.py:189-221 | The select, then the prepared insert, the batches and the commit, behave as `TransferSpec` says: a failed select, a refused prepare, a refused batch or a refused commit each ends it with an error (`CommitFailed` for the commit). The insert is prepared exactly when the select succeeds and the database accepts the insert. |
| CloneObj.LoadSpec | cloneobj.py:182-221 | The default select, the optional truncate (whose refusal ends the load) and the transfer. `LoadInserts`, `LoadSelect` and `LoadTruncatesIffOption` state its properties. |
| CloneObj.Cloner.TruncateTarget | cloneobj.py:185-186 | The target is truncated exactly when its `truncate` option is true; the call fails only when that truncate is refused, and the prepared statement is left alone. |
| CloneObj.Cloner.Load | cloneobj.py:182-221 | The default select, the optional truncate and the transfer behave as `LoadSpec` says. The source's prepared statement is kept; the target's is the transfer's, or is kept when the truncate was refused. |
| CloneObj.CloneSpec | cloneobj.py:168-221 | `connect`, the existence check and optional creation, then the load when the target exists. The lemmas of `CloneProperties` state its properties. |
| CloneObj.Cloner.Clone | cloneobj.py:168-221 | The outcome, the calls on each connection, the final descriptors and the final select are those of `CloneSpec`. The source ends with nothing prepared if `connect` opened it; the target ends with the load's insert when the load reached an accepted prepare, and otherwise with what `connect` left. |
| CloneProperties.LoadPassed | cloneobj.py:182-221 | A load that succeeds ran the select on the source. On the target it optionally truncated, prepared the insert for the select's columns, sent the rows in the loop's batches and committed once. The batches are a chunking of the rows. |
| CloneProperties.SentRowsPrefix | cloneobj.py:209-220 | The rows sent before the loop stops are always the start of the rows, in order, and all of them when every batch is accepted. |
| CloneProperties.TransferEventsDeliver | cloneobj.py:196-221 | After an accepted prepare, the transfer commits once exactly when every batch is accepted, and otherwise never; the commit is the last call. What it inserts is the start of the rows, and all of them when it commits. |
| CloneProperties.TransferDelivers | cloneobj.py:189-221 | A transfer commits at most once. It succeeds exactly when it commits and the commit is accepted. A commit happens only if the select succeeded and all its rows were inserted, and it is then the last call, after every `executemany`. Whatever it inserts is the start of the select's rows. |
| CloneProperties.TransferRunsNoStatement | cloneobj.py:189-221 | The transfer runs no plain statement on the target: only the prepare, `executemany` and the commit. |
| CloneProperties.QuietPrefix | cloneobj.py:185-186 | Plain statements before the transfer, such as the truncate, change neither the rows inserted nor the number of commits. |
| CloneProperties.LoadInserts | cloneobj.py:182-221 | The same facts hold for the load, from the default select and the truncate onwards: at most one commit; success exactly when it commits and the commit is accepted; a commit only if every selected row was inserted, and then as the last call; whatever is inserted is the start of the selected rows. |
| CloneProperties.LoadTruncatesIffOption | cloneobj.py:185-186 | A truncate is issued if and only if the `truncate` option is true. |
| CloneProperties.LoadSelect | cloneobj.py:182-189 | The select is the one set, or `SELECT * FROM owner.name` only when none is set. It runs unless the truncate failed. |
| CloneProperties.StreamCallCount | cloneobj.py:198-220 | N rows take at most ceil(N / 100) `executemany` calls, and exactly that many when every batch is accepted. |
| CloneProperties.StreamOf250 | cloneobj.py:209-220 | 250 accepted rows are sent as rows 0-99, 100-199 and 200-249, in that order. When the first batch is accepted and the second refused, only the first two are sent. |
| CloneProperties.SmallLoad | cloneobj.py:182-221 | A load of 1 to 100 rows with the default select and no truncate sends one `executemany` with all the rows. It commits when that batch is accepted, with the outcome of the commit, and does not commit when it is refused. |
| CloneProperties.MissingTargetStops | cloneobj.py:172-180 | A missing target that may not be created makes the clone fail right after the existence check. There is no DDL, truncate, select, insert or commit. |
| CloneProperties.CloneCommitsOnce | cloneobj.py:168-221 | A clone commits at most once. It succeeds exactly when it commits and the commit is accepted. A commit happens only if every selected row reached the target in order, and it is then the last call on the target. Whatever it inserts is the start of the selected rows. |
| CloneProperties.MakeTargetCreates | cloneobj.py:172-178 | For a missing target that may be created, the DDL is fetched for the source carrying the target's tablespace. The translated DDL is executed right after the existence check, and a refused DDL fails the clone. |
| CloneProperties.CreateTableInClone | cloneobj.py:172-178 | For a missing table `src.t` cloned to `t` with tablespace `TS2` and creation allowed: when the metadata service renders `CREATE TABLE "SRC"."T" <columns>` with `TABLESPACE "TS1"` for the source carrying the target's tablespace, the target receives the existence check and then `CREATE TABLE "T" <columns>` with `TABLESPACE "TS2"`. |
| CloneProperties.CreatedBeforeLoad | cloneobj.py:172-189 | For a missing target that may be created and whose DDL is available, the DDL fetch is the first call on the source after `connect`, and the existence check and creation are the first calls on the target. Everything later on each connection, including the truncate, select and insert, follows them. A refused creation fails the clone. |
| CloneProperties.CreationGatesLoad | cloneobj.py:172-180 | For a missing target that may be created, a DDL that cannot be fetched or a creation the database refuses ends the clone there: no select runs on the source, and no truncate, prepare, insert or commit reaches the target. |
| CloneProperties.ExistingTargetKept | cloneobj.py:172 | An existing target gets no DDL. The clone goes straight from the existence check to the load. |
| CloneProperties.SmallTableIntoExistingTarget | cloneobj.py:168-221 | For an existing target, the default select, no truncate and 1 to 100 rows: the source sees the select and the target sees the check, the prepare and one `executemany` with all the rows. A commit follows exactly when the batch is accepted; the clone then passes unless the commit is refused. A refused batch fails the clone without a commit. |
| CloneProperties.IdentityBeforeOwnerResolution | cloneobj.py:145-149 | The identity check compares owners before `connect` resolves them. A source without an owner and a target naming the session's schema pass it, although they are the same table. |

## Left out

- Real database access is replaced by the abstract `Database` value: `cx_Oracle`, the cursor, fetching and the LOB `.read()`. The database may refuse a plain statement (the DDL, the truncate, the select), the DDL lookup, the prepare, a batch of `executemany` (by the statement and the batch's rows), and the commit; each refusal ends the clone with an error naming the refused statement, or `CommitFailed` for the commit.
- Endpoint.Connection.Connect: opening a session cannot fail in the model; a refused `cx_Oracle.connect` is not modelled.
- Endpoint.Connection.ObjectExists: the existence query cannot fail in the model.
- Endpoint.Connection.SessionOwner: the owner query cannot fail in the model.
- CloneObj.Cloner.Transfer: the select yields all its rows at once; a failure while fetching rows from the source cursor, part-way through the loop, is not modelled.
- Endpoint.Connection.Close: closing cannot fail in the model.
- Endpoint.Connection.ExecuteMany: whether a batch is refused depends only on the statement and the batch's rows, not on what was inserted before it, so two equal batches share one outcome; a repeated batch that breaks a unique key, or a quota that runs out part-way, is not modelled.
- SQL semantics on the target are not modelled:
  - The catalog and query results are fixed. Creating or truncating the target does not change what later queries see.
  - `rowcount` is taken to be the batch length, and the running total `total_rows` is not modelled.
- Printing and logging are not modelled: `log`, the `print` in `commit` and the timestamped progress lines.
- `print_output`, `main`, `__repr__` and `status` are not modelled.
- The query texts of the existence and DDL queries are kept with their whitespace normalised.
- The order of calls across the two connections is not recorded; each connection's own order is.
- CloneProperties.CreatedBeforeLoad: states the order on each connection separately; that the creation on the target precedes the select on the source is not stated, because no single trace holds both. `CreationGatesLoad` states instead that no select runs when the creation fails.
- CloneObj.Cloner.Create: requires two distinct `Connection` objects. A cloner whose source and target share one connection object, and so one cursor, is not modelled. Both descriptors may be the same `DBObject`.
- Text.Lower: `str.lower` and `str.upper` are modelled for ASCII letters only.
- Ddl.TablespaceClause: backslash escapes in the replacement text of `re.sub` are not interpreted.
- The descriptor options hold values of type `None`, a boolean or a string. Truthiness is Python's for those types.
- Validation compares the object type case-sensitively with `TABLE`, as the code does.
- The tablespace regex follows the code rather than a reading of "each quoted tablespace name": the greedy `.*` runs to the last double quote of the line. Two clauses on one line are therefore replaced as one, and a quoted name after the clause is swallowed (`ClausesOnOneLine`, `ClauseSwallowsLaterQuotes`).
