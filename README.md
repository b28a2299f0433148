# Shadow tables for MySQL, in Dafny

This project models the shadow-table tool for MySQL. For every base table
that has an `id` and an `updated_at` column, the tool keeps a shadow table
named `<table><suffix>` (`_shadow` by default). Two triggers on the base
table copy each inserted or updated row into that shadow.

- `mysql-shadow.rb` describes every table of the schema. It creates the
  shadows that are missing, with their triggers. It brings existing shadows
  in line with their base tables through ALTER TABLE ADD / DROP / MODIFY
  COLUMN, regenerating the triggers when columns were added or dropped. In
  test mode it only logs the statements.
- `mysql-check.rb` is the earlier form. Its suffix and database are fixed. It
  only creates missing shadows; a changed shadow is reported, not altered.

Modules:

- `Wrappers`: `Option`.
- `ShadowText`: ASCII case folding and `String#upcase`. It also has the
  shadow pattern `/(.+)SUFFIX$/i` as a literal, case-insensitive suffix test,
  and the comma lists the tool grows with `+=` and then `chop!`s.
- `FieldHash`: a DESCRIBE row (Field, Type). It also has the tool's field
  Hash: an insertion-ordered sequence with distinct names, the map it
  denotes, and Ruby's `h[k] = v`.
- `MysqlShadow`: the `TableDescription` of `mysql-shadow.rb`, covering:
  - the describe loop, a method proved equal to a declarative `Analyze`;
  - the diff (`unchanged?`, `extra_fields`, `modified_fields`);
  - what the server is assumed to do with the ALTER clauses;
  - the SQL renderers;
  - the registry lookup.
- `MysqlShadowRun`: `exec_sql` with test mode, as a `Session` class whose log
  and submissions follow every statement issued. Also `generate_triggers`,
  the construction of the registry, and the convergence loop, each proved
  against the plan of statements it must issue.
- `MysqlCheck`: the earlier `TableDescription`, `check_unchanged`,
  `same_field`, the connection, and the create-only loop.

The database is replaced by inputs:

- the list of table names;
- a catalog from table name to its DESCRIBE rows (a name missing from the
  catalog is a DESCRIBE that raises);
- the position of the first statement the server rejects, if any.

The `issued` sequence of the session holds the statements `exec_sql` (or
`$dbh.query`) was called with, in order. What the server received is the session's
`submitted` sequence. The `log` sequence holds the statements `exec_sql`
passed to the logger at debug level; they reach the log file only at debug
verbosity.

A quirk of the source is kept. Shadow detection ignores case, but the
lookup of a table's shadow compares names exactly.
`MysqlShadowRun.CaseOnlyShadowIsNotFound` shows that a table whose shadow
exists only under a case variant of its name has CREATE TABLE and the
triggers issued for a second shadow. Whether that shadow then exists depends
on test mode and on how the server compares table names, which the model
does not decide.

## Model

| member | source | states |
|---|---|---|
| ShadowText.Upcase | mysql-shadow.rb:270 | `event.upcase`: same length, every character upper-cased |
| ShadowText.ShadowMatch | mysql-shadow.rb:384 | the pattern matches exactly when some split leaves at least one character before a case-insensitive copy of the suffix, and the capture is that prefix |
| ShadowText.ChopTerminated | mysql-shadow.rb:217-223 | chopping the last character off the `item,` accumulation gives the comma-joined list, and leaves an empty accumulation empty |
| ShadowText.TerminatedIsJoined | mysql-shadow.rb:298-303 | a non-empty list of `item,` entries is the joined list followed by one separator |
| FieldHash.ToMap | mysql-shadow.rb:215 | the map of a column sequence has exactly its names as keys, and is empty exactly for no columns |
| FieldHash.ToMapAppend | mysql-shadow.rb:403 | appending columns merges their map over the existing one |
| FieldHash.RetypeMap | mysql-shadow.rb:405 | retyping a column changes the map at that name when present, nowhere else |
| FieldHash.Retype | mysql-shadow.rb:405 | a retyped sequence keeps its length and every name in place; exactly the entries of that name take the new type |
| FieldHash.Put | mysql-shadow.rb:215 | `h[k] = v` maps `k` to `v`; for an existing key every entry keeps its position and only that key's type changes; a new key goes last |
| FieldHash.HashOf | mysql-shadow.rb:197-216 | the hash filled row by row denotes the rows' map, and equals the rows when DESCRIBE lists each name once |
| MysqlShadow.NoteKeyField | mysql-shadow.rb:202-207 | the `case` sets the id flag exactly for `id` and the update flag exactly for `updated_at` |
| MysqlShadow.ScanRows | mysql-shadow.rb:192-216 | after the `each_hash` loop the flags say whether a non-shadow table has each key field, the three strings are the `item,` accumulations (empty for a shadow), and the hash is the rows' hash |
| MysqlShadow.Describe | mysql-shadow.rb:156-232 | `initialize` produces exactly the declarative description `Analyze` of the name and rows |
| MysqlShadow.ShadowDetection | mysql-shadow.rb:159-169 | a table is a shadow exactly when its name is at least one character plus the suffix (ignoring case); its base name is then the name less the suffix, else the name itself |
| MysqlShadow.Eligibility | mysql-shadow.rb:225-241 | `can_shadow?` holds exactly for a non-shadow whose fields include `id` and `updated_at`; the shadow name exists exactly then and is base name plus suffix |
| MysqlShadow.ShadowNameRoundTrip | mysql-shadow.rb:225-230 | describing an eligible table's shadow name yields a shadow whose base is that table, never eligible, with no shadow name |
| MysqlShadow.RenderStrings | mysql-shadow.rb:198-223 | a base table's strings list its columns in order, comma-joined with no trailing comma, the i-th VALUES entry being `new.` and the i-th field; a shadow's strings are empty; every table's hash denotes its rows |
| MysqlShadow.CreateFieldsListHash | mysql-shadow.rb:210-215 | with distinct field names, the CREATE TABLE field text lists the field hash's entries in order |
| MysqlShadow.ExtraFields | mysql-shadow.rb:249-251 | `a.extra_fields(b)` holds exactly the entries of `a` whose name `b` lacks, with `a`'s types, in `a`'s order |
| MysqlShadow.ModifiedFields | mysql-shadow.rb:254-256 | `a.modified_fields(b)` holds exactly the entries of `a` that `b` has with another type, with `a`'s types, in `a`'s order |
| MysqlShadow.DiffDisjoint | mysql-shadow.rb:424-436 | added, dropped and modified fields share no name |
| MysqlShadow.UnchangedIffSameEntries | mysql-shadow.rb:243-246 | `unchanged?` ignores entry order: it holds exactly when both field hashes hold the same name-type entries |
| MysqlShadow.UnchangedIffNoDiff | mysql-shadow.rb:243-256 | `unchanged?` holds exactly when there is nothing to add, drop or modify |
| MysqlShadow.RemoveName | mysql-shadow.rb:404 | one DROP COLUMN removes that name from the map and nothing else |
| MysqlShadow.ApplyDrop | mysql-shadow.rb:404 | the DROP clauses remove exactly the dropped names from the map |
| MysqlShadow.ApplyModify | mysql-shadow.rb:405 | the MODIFY clauses give every modified name its new type and keep the key set |
| MysqlShadow.OverrideStep | mysql-shadow.rb:405 | one more MODIFY clause overrides one more key |
| MysqlShadow.ConvergeMaps | mysql-shadow.rb:419-440 | adding the missing entries, removing the extra ones and overriding the retyped ones yields the base map |
| MysqlShadow.AlterConverges | mysql-shadow.rb:419-440 | applying the ADD, DROP and MODIFY statements to the shadow's columns gives exactly the base table's field map |
| MysqlShadow.CaseOnlyColumnRename | mysql-shadow.rb:424-433 | a column renamed only in case (`email` in the shadow, `Email` in the base) is added under its new spelling and dropped under its old one, and is not modified |
| MysqlShadow.ClauseReadsBack | mysql-shadow.rb:403-405 | for names without a space, two clauses of one kind are equal exactly when they name the same column, with the same type for ADD and MODIFY |
| MysqlShadow.AlterTableSql | mysql-shadow.rb:298-305 | ALTER TABLE on the receiver's shadow with one clause per hash entry, in order, comma-separated, no trailing comma |
| MysqlShadow.RenderedStatements | mysql-shadow.rb:260-275 | for an eligible table the trigger `<table>_<event>` fires AFTER the upper-cased event on the table and copies the columns, in order, from `new` into `<table><suffix>` |
| MysqlShadow.DropNamesCreatedTrigger | mysql-shadow.rb:279-291 | for an eligible table, DROP TRIGGER IF EXISTS names `<schema>.<table>_<event>`, the very trigger the CREATE TRIGGER for that event creates |
| MysqlShadow.CreateTableRendering | mysql-shadow.rb:310-312 | for an eligible table, CREATE TABLE creates `<table><suffix>` with the described columns and types, in order |
| MysqlShadow.FindByName | mysql-shadow.rb:414 | the first registry position whose name equals the key exactly; none when no name does |
| MysqlShadowRun.EffectSpec | mysql-shadow.rb:341-344 | every statement is passed to the debug logger; in test mode none is submitted; the first rejected statement ends logging and submission after it |
| MysqlShadowRun.Session.constructor | mysql-shadow.rb:358-361 | a fresh session has issued, logged and submitted nothing |
| MysqlShadowRun.Session.ExecSql | mysql-shadow.rb:341-344 | one more issued statement, with log and submissions kept consistent with it |
| MysqlShadowRun.GenerateTriggers | mysql-shadow.rb:348-354 | issues drop-insert, create-insert, drop-update, create-update, in that order |
| MysqlShadowRun.ExecUnlessEmpty | mysql-shadow.rb:425-428 | the ALTER statement is issued exactly when its field list is not empty |
| MysqlShadowRun.UpdateShadow | mysql-shadow.rb:424-446 | issues the non-empty ADD, DROP and MODIFY statements in that order, then the triggers when fields were added or dropped |
| MysqlShadowRun.UpdateStatements | mysql-shadow.rb:419-447 | an existing shadow gets a statement exactly when its field map differs from the base table's |
| MysqlShadowRun.TableStatements | mysql-shadow.rb:410-464 | nothing is issued for a table exactly when it is not eligible or its exact-name shadow is unchanged |
| MysqlShadowRun.ConvergeTable | mysql-shadow.rb:410-464 | one pass issues exactly the statements the plan gives for that table |
| MysqlShadowRun.Converge | mysql-shadow.rb:409-465 | the loop issues the plan of every description, in registry order |
| MysqlShadowRun.RegistryStep | mysql-shadow.rb:396-398 | describing one more listed table appends its description to the registry |
| MysqlShadowRun.BuildRegistry | mysql-shadow.rb:395-398 | the registry is the descriptions of the listed tables in order, and it is absent exactly when some table cannot be described |
| MysqlShadowRun.Run | mysql-shadow.rb:391-465 | a run issues the whole plan of the registry, or nothing when a DESCRIBE fails |
| MysqlShadowRun.ShadowTablesSkipped | mysql-shadow.rb:457-463 | a shadow table never gets a statement |
| MysqlShadowRun.TypeOnlyChange | mysql-shadow.rb:436-446 | when only types differ, a single MODIFY is issued and the triggers are left alone |
| MysqlShadowRun.ColumnSetChange | mysql-shadow.rb:424-446 | when the column names differ, an ADD or a DROP is due, and exactly the non-empty ADD, DROP and MODIFY ALTERs are issued in that order, followed by the four trigger statements |
| MysqlShadowRun.RerunAfterUpdate | mysql-shadow.rb:419-440 | once the ALTER statements ran, a second run issues nothing for the table |
| MysqlShadowRun.RerunAfterCreate | mysql-shadow.rb:448-456 | a shadow created with the base table's columns leaves nothing to issue on a second run |
| MysqlShadowRun.CaseVariantIsShadow | mysql-shadow.rb:384 | a case variant of a shadow name is a shadow, whose base is the table name up to case |
| MysqlShadowRun.CaseOnlyShadowIsNotFound | mysql-shadow.rb:414 | with only a case variant of the shadow present, that table counts as a shadow, yet CREATE TABLE and the triggers are issued for the base table |
| MysqlCheck.ScanRows | mysql-check.rb:88-107 | after the loop the flags say whether a non-shadow table has each key field, the three strings are the `item,` accumulations for every table, and the hash is the rows' hash |
| MysqlCheck.Describe | mysql-check.rb:58-120 | `initialize` produces exactly this variant's declarative description |
| MysqlCheck.CheckShadowName | mysql-check.rb:113-128 | no shadow is eligible; eligibility means not a shadow with both key fields; the shadow name is base name plus `_shadow` exactly when eligible |
| MysqlCheck.VariantsAgree | mysql-check.rb:94-111 | with the later variant's default suffix, a base table is described identically by both variants; a shadow differs only in its three render strings |
| MysqlCheck.Fetch | mysql-check.rb:136 | `fetch(name, nil)` finds a type exactly for a name in the hash, and it is the mapped type |
| MysqlCheck.SameField | mysql-check.rb:135-137 | `same_field(name, type)` holds exactly when the hash maps the name to that type, or, for a nil type, lacks the name |
| MysqlCheck.CheckUnchangedIffSameFields | mysql-check.rb:130-137 | `check_unchanged` holds exactly when every name has the same type, or the same absence, in both tables |
| MysqlCheck.TriggerTextMatches | mysql-check.rb:184-195 | the inline trigger text equals the later variant's trigger renderer for the same event |
| MysqlCheck.CreateStatementText | mysql-check.rb:179-180 | for an eligible table, CREATE TABLE creates `<table>_shadow` in the fixed database with the described columns and types, in order |
| MysqlCheck.InsertStatement | mysql-check.rb:184-188 | the inline insert trigger equals the later variant's insert trigger for the same database |
| MysqlCheck.UpdateStatement | mysql-check.rb:191-195 | the inline update trigger equals the later variant's update trigger for the same database |
| MysqlCheck.Connection.constructor | mysql-check.rb:143 | a fresh connection has received nothing |
| MysqlCheck.Connection.Query | mysql-check.rb:182 | one more statement passed to the server, with submissions and failure kept consistent |
| MysqlCheck.CreateMissingShadow | mysql-check.rb:167-205 | issues CREATE TABLE, the insert trigger and the update trigger, in order, exactly for an eligible table with no exact-name shadow |
| MysqlCheck.CreateMissingShadows | mysql-check.rb:166-206 | the loop issues the plan of every description, in registry order |
| MysqlCheck.RegistryStep | mysql-check.rb:149-161 | describing one more listed table appends its description to the registry |
| MysqlCheck.BuildRegistry | mysql-check.rb:146-162 | the registry is the descriptions of the listed tables in order, or absent when a DESCRIBE fails |
| MysqlCheck.Run | mysql-check.rb:139-210 | a run issues the whole create plan, or nothing when a DESCRIBE fails |
| MysqlCheck.EarlierLoopIsLaterCreatePath | mysql-check.rb:166-206 | per table, the earlier loop issues the later variant's create path less its DROP TRIGGER statements, and nothing where a shadow exists |

## Left out

- Command-line parsing (`CmdOptions.parse`) is left out. The core reads only the schema, the shadow suffix and the test-mode switch, which are the fields of `Options`.
- Logging is left out: the logger setup, `log_level`, `log_it` and every message other than the statement `exec_sql` logs. None of them affects what is issued.
- The MySQL driver is replaced by inputs: `real_connect`, `list_tables`, DESCRIBE, `num_rows`, `free` and `close`. The inputs are the table list, a catalog of DESCRIBE rows, and the position of the first statement the server rejects.
- Only the Field and Type columns of DESCRIBE are modelled. The Null, Default, Key and Extra columns are never read.
- A nil DESCRIBE result is not modelled. The loop right after it would fail on nil, so a description is a possibly empty row sequence. A DESCRIBE that raises is a name missing from the catalog, and it ends the run before any statement.
- The shadow pattern is modelled as a literal suffix test, not Ruby's regular-expression engine. That test is exact only for a suffix without regular-expression metacharacters and a name without a line break, so `Describe` and the registry builders require both.
- Case folding is ASCII only, and type strings are opaque and compared exactly.
- Error details are left out. The error code, message and SQLSTATE of a rescued `Mysql::Error` are not modelled, only the fact that nothing after the rejected statement is logged or submitted.
- MysqlShadowRun.Session.ExecSql: after a rejection the model keeps adding to `issued`, with no effect on the log or the server. The source ends the run there instead. What the server and the log see is the same.
- MysqlCheck.Connection.Query: after a rejection the model keeps adding to `issued`, with no effect on the server, and `MysqlCheck.Run` goes on through the plan. The source rescues the error and ends there instead. What the server sees is the same.
- MysqlShadow.AlterConverges (and MysqlShadowRun.RerunAfterUpdate, which rests on it): every ALTER is assumed to succeed, and column names are compared exactly. A MySQL server compares column names without regard to case, so for a column renamed only in case (`MysqlShadow.CaseOnlyColumnRename`) it rejects the ADD COLUMN as a duplicate, which ends the run, and every later run stops at the same table. The model's `ApplyAdd` adds the column instead and calls the shadow converged.
- The ALTER statements' effect on the shadow (`ApplyAdd`, `ApplyDrop`, `ApplyModify`) is modelled at the level of columns and names. Column attributes, positions requested by `AFTER` and server-side type conversion are out of scope.
- maintain-shadows.rb is not part of this model; it only connects and prints the server version.
