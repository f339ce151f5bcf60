# Verified models of a web framework's hard parts

The framework's schedulers, ORM, text codecs and loggers contain a handful of algorithms and
protocols that are easy to get wrong. This project models them in Dafny, in the form the source
has (loops over arrays and fields stay loops over arrays and fields, protocols become transition
systems over their atomic steps), and proves what they are for. Check it with
`dafny verify dfyconfig.toml`.

| file | what it models |
|---|---|
| `CronField.dfy`, `Word64.dfy` | cron field text compiled to 64-bit sets |
| `Calendar.dfy`, `CronSchedule.dfy` | the search for the next firing instant of a cron schedule |
| `TaskManager.dfy` | the manager loop that sorts, waits and fires |
| `ConditionSql.dfy` | condition trees, their WHERE clause, and a parser with SQL precedence |
| `UpdateSql.dfy` | placeholders and arguments of an UPDATE, operators, numbered placeholders |
| `SetMeaning.dfy` | the assignments of an UPDATE, read from its text and run on a row |
| `LikePattern.dfy`, `OperatorMeaning.dfy`, `FilterMeaning.dfy` | LIKE patterns, comparisons and whole WHERE clauses, read from their text and evaluated on a row |
| `JoinPlan.dfy`, `JoinPaths.dfy`, `JoinOrder.dfy`, `RowDecode.dfy` | relation paths as a join plan, the order of its joins, and reading its rows back |
| `InsertMulti.dfy`, `InsertMeaning.dfy` | bulk inserts through one fixed buffer, and what their statements store |
| `CascadeDelete.dfy` | deletion with cascade, set-null, set-default and do-nothing relations |
| `StmtCache.dfy` | the prepared-statement cache under concurrency |
| `FileRotation.dfy`, `AsyncLog.dfy` | log rotation and the asynchronous logger under concurrency |
| `QuotedPrintable.dfy`, `Base64Wrap.dfy`, `EncodedWord.dfy`, `Bytes.dfy` | MIME encoders, against decoders written from RFC 2045, RFC 4648 and RFC 2047 |
| `Ini.dfy`, `IniMeaning.dfy` | the INI parser, printer and container, and what single lines and names mean |
| `Text.dfy`, `Arithmetic.dfy` | shared helpers |

## How the source is read

- Time is whole seconds on the proleptic Gregorian calendar in a location with a fixed offset; the
  zero time is `None`. The fraction of a second only enters `Next` through its first statement.
- A 64-bit word is the set of its one bits; `uint` arithmetic is checked for overflow.
- Panics and error returns are `None`, a false flag or an error constructor.
- The database is a map from row identity to row; statements do not fail. Placeholders are counted
  in the real statement text; the WHERE clause is parsed at the level of its words and comparisons,
  and each comparison and assignment is read from its text.
- The order of a database on values, its text of a value and its case folding are parameters; the
  fold works character by character and leaves "%", "_" and the backslash alone. LIKE is as in the
  manuals of MySQL and PostgreSQL, with the backslash as escape character; a pattern that ends in a
  lone backslash, which PostgreSQL refuses, matches nothing here.
- Line breaks in saved INI files are "\n".
- Map iteration orders, the environment, the case mapping and the clock are parameters.
- A pointer to a table node of a join plan is its position in the list of tables.
- Contracts taken for granted: `sort.Sort` gives a sorted permutation, the LRU cache is a bounded
  map that calls back on eviction, lock regions and single wait-group operations are atomic,
  `Lstat` fails only for a missing file, `AddTask` reads the clock and registers in one step, and
  the manager takes its snapshot and tests it for emptiness in one step.
- `Flush` and `Close` calls of the logger do not overlap, as their shared wait group demands.

## What the proofs show about the code

- `Next` meets its specification for every schedule, empty fields included.
- The field table in the source says that `0 0 0 1,15 * 1` fires on the 1st and the 15th
  (`task/task.go:257`); `dayMatches` joins day and weekday with OR when neither is a star, so it
  fires on Mondays too (`MondaysFireToo`). `OnListedDaysIff` says for which fields a schedule keeps
  to its listed days. The model follows the code.
- A step of 0 in a cron range never advances the loop of `getBits`; `StepsPositive` excludes just that.
- One task registered under two names can end a wake-up early (`RepeatedTaskCutsWakeShort`);
  `AllDueFireIff` says exactly when all due tasks fire.
- A condition that holds only an empty nested condition passes `IsEmpty` and emits no WHERE clause
  (`NestedEmptyHasNoClause`), so a delete guarded by `IsEmpty` would select every row; any other
  empty nested condition gives a clause that does not parse (`ClauseMeansCondition`).
- `nq` is accepted as an operator but stands in no dialect's table, so its comparison has an
  argument and no placeholder (`NqIsUnbalanced`); an UPDATE has as many placeholders as arguments
  exactly when the dialect supports every operator of its condition (`PlaceholdersAgreeIff`).
- `exact` with a nil argument binds the text "IS NULL" (`NilBindsText`); `BoundAsSuppliedIff` says
  for every operator which arguments are bound as they were supplied.
- The search operators escape "%" in their argument, but neither "_" nor the backslash, so
  `contains` with "_" finds every text that is not empty (`UnderscoreFindsAny`), and a backslash
  swallows the next character. `iexact` escapes "%" also for PostgreSQL, which compares with "=", and
  so does not find it (`PercentNotFound`). `OperatorMeansIff` says exactly for which arguments every
  operator means what it is named for.
- `ColBitXOR` writes "^", which PostgreSQL reads as a power (`ReadAsAskedIff`).
- With a limit on lines or size, as by default, a log file is archived under the stamp of the message
  that asked for the rotation, so yesterday's file gets today's date (`ArchivedUnder`).
- The file name of an INI `include` is lowered with its line (`IncludeLine`).
- Two relation paths can share a name, through fields named with "__". They then share a table,
  and a join can refer to a later one (`SharedNameBreaksOrder`). Whatever related paths are planned,
  every join refers to T0 or an earlier table exactly when no two relation paths of the schema share
  a name (`OrderedIff`), which holds for clean field names (`CleanIsUnambiguous`).
- `parseRelated` joins the paths it generates to names and cuts these at "__" again. A relation field
  with "__" in its name makes it panic (`SeparatorInNamePanics`). A name is cut back into its path
  exactly when no component holds the separator and none but the last ends in "_" (`SplitsBackIff`).
- The keys of the row caches have no separator, so two selected paths can share a key, and the
  second one's columns are then never stored. Rows are read right, whatever objects exist, exactly
  when no two selected paths share a key (`ReadsRightIff`); `PlanWithSharedKey` makes such a plan.
- `parseExprs` can return a column with the alias of a table that does not have it: for a joined
  forward relation behind another component, for a reverse relation in a deletion, and for one of
  a many-to-many table (`AliasCanMiss`). `AliasFitsIff` gives the exact condition on the path.
- The update that sets a default runs after the parent rows are gone, and its condition joins the
  parent's table: by an inner join when the foreign key may not be null, so it then finds no row and
  the reference dangles, although its default names a row that stays (`SetDefaultIsNotSet`).
  `DefaultIsSetIff` gives the exact condition. Setting null is not affected, since registration asks
  for a field that may be null.
- Besides that, a deletion can leave references dangling through do-nothing relations
  (`DoNothingDangles`), defaults that name no surviving row, and foreign keys missing from the
  parent's reverse list. `NoDanglingIff` shows, from the rows before the call, that there is no other
  way.
- Batching with a bulk size of one would lose the second row; the guard of `InsertMultiWithCtx`
  excludes it (`SecondRowIsLost`, `AllRowsInsertedIff`).
- A mail reader that strips blanks at line ends restores quoted-printable text exactly when no
  blank stands before a line feed (`BlankIsLost`, `StrippingRoundTripIff`).
- A printable subject that looks like an encoded word is sent as it is and read as something else
  (`LooksEncoded`, `HeaderRoundTripIff`); the encoded word is never split, so a long subject exceeds
  the 75 characters of section 2 of RFC 2047 (`LongTextOverflows`, `WordFitsIff`).
- An empty default section is not remembered by a saved INI file, and nothing else is lost
  (`PrintedReadsBack`).

## Model

| member | source | states |
|---|---|---|
| `CronField.GetBits` | task/task.go:810-823 | both the shift fast path (step 1) and the loop set exactly the bits of the progression from min to max; the index never overflows |
| `CronField.ParseRange` | task/task.go:734-808 | an accepted range lies within the bounds of its field |
| `CronField.GetRange` | task/task.go:734-785 | panics exactly for unparsable or out-of-bounds ranges; otherwise the bits are the progression, with bit 63 for a star |
| `CronField.GetField` | task/task.go:721-732 | accepted iff every part is; the bits are the union of the parts' progressions, within bounds, and bit 63 is set iff some part is a star |
| `CronField.UnionOfInBounds` | task/task.go:721-785 | every value is in bounds or the star bit, and the star bit is there iff some part is a star |
| `CronField.TermParses` | task/task.go:734-808 | parsing the text of a part written as low, high and step gives its documented meaning, panics included |
| `CronField.FieldParts` | task/task.go:721-732 | a field joined from parts splits back into the same parts |
| `CronField.FieldMeaning` | task/task.go:721-828 | for the text of any list of parts: accepted iff every part has a meaning, and then the bits denote the union of the parts' meanings |
| `CronField.TokensParse` | task/task.go:787-807 | the decimal text of a number stands for it, and a name in any case for its value in the table |
| `CronField.NumbersParse` | task/task.go:734-807 | the text a-b/step of three numbers is accepted iff a <= b within the field, and stands for every step-th value from a to b |
| `Word64.MaskTest` | task/task.go:374-448 | the test `1 << n & w > 0` is membership of bit n |
| `Calendar.DateRoundTrip` | task/task.go:374-436 | a valid date and clock time survive `time.Date` followed by the accessors `Next` uses |
| `Calendar.DateOfFields` | task/task.go:374-436 | every instant is the date its accessors read |
| `Calendar.MonthLengths` | task/task.go:374-436 | the table of month lengths; February has 29 days in every fourth year, but of the hundreds only in every fourth |
| `Calendar.FourCenturies` | task/task.go:374-436 | the calendar repeats after 400 years, which are 146097 days |
| `Calendar.NewMillennium` | task/task.go:441-451 | 1 January 2001 has the weekday Monday |
| `CronSchedule.Next` | task/task.go:357-451 | for every schedule and start: the first whole second strictly after the start, with a year of at most the limit, whose second, minute, hour and month are listed and whose days are, both of them if one of the two fields is a star and either otherwise; none iff there is none; terminates for every schedule |
| `CronSchedule.MonthStep` | task/task.go:374-386 | truncating and adding a month skips no firing instant, moves forward and keeps the search invariant, with or without the added flag |
| `CronSchedule.DayStep` | task/task.go:388-399 | the same for the day loop, with the month kept unless it wraps |
| `CronSchedule.HourStep` | task/task.go:401-412 | the same for the hour loop |
| `CronSchedule.MinuteStep` | task/task.go:414-424 | the same for the minute loop |
| `CronSchedule.SecondStep` | task/task.go:426-436 | the same for the second loop |
| `CronSchedule.SearchExhausted` | task/task.go:369-372 | when the search passes the limit year, no instant up to its end matches |
| `CronSchedule.ScanIsNext` | task/task.go:357-439 | trying every second one by one meets the same specification |
| `CronSchedule.NextUnique` | task/task.go:357-439 | the specification of `Next` has one solution, so the jumping search equals the scan |
| `CronSchedule.StarLeavesTheOther` | task/task.go:441-451 | a star for the days of the month leaves exactly the listed weekdays, and the other way round |
| `CronSchedule.NextMonday` | task/task.go:357-451 | after midnight of any Monday, `0 0 0 * * 1` fires next a week later |
| `CronSchedule.OnListedDaysIff` | task/task.go:441-451 | every day the rule accepts has its day-of-month bit iff a field is a star, no weekday is given, or every day is listed |
| `CronSchedule.MondaysFireToo` | task/task.go:257-257 | the words of `0 0 0 1,15 * 1` match a Monday that is neither the 1st nor the 15th |
| `TaskManager.Task.SetNext` | task/task.go:187-190 | the next time is the least firing instant after the given second |
| `TaskManager.RunNextTasks` | task/task.go:557-592 | fires a prefix of the snapshot, each task once and due, stops at the first entry that is not due or was just fired, advances exactly the fired tasks |
| `TaskManager.StepKeepsInv` | task/task.go:502-664 | every step of loop, clock and registration keeps: the events of a task are in order, its fires match its schedule and are not in the future, and what it has pending is its first firing instant after its last fire or start |
| `TaskManager.RunsFireInOrder` | task/task.go:502-664 | that invariant in every state of every run |
| `TaskManager.RunsSkipNothing` | task/task.go:502-592 | in every run, between a fire and the fire or start of its task before it, no instant fires |
| `TaskManager.FirstFireAfterStart` | task/task.go:539-629 | a task registered or restarted at clock time c fires next at its first firing instant after c |
| `TaskManager.RunDueFires` | task/task.go:557-592 | a wake-up fires the longest due prefix that repeats no task |
| `TaskManager.SameWakeUp` | task/task.go:557-592 | on task objects and on their identities a wake-up fires the same entries, and exactly these get new next times, their first firing instants after the wake-up |
| `TaskManager.WakeUp` | task/task.go:557-592 | the routine on task objects is the transition on their identities: it fires the same and leaves the same next times |
| `TaskManager.SnapshotTasks` | task/task.go:687-720 | a snapshot holds the registered tasks, without repeats iff each is registered under one name |
| `TaskManager.SnapshotIsEarliest` | task/task.go:502-537 | the head of a sorted snapshot has the earliest non-zero next time |
| `TaskManager.WakeFiresExactlyTheDue` | task/task.go:502-592 | with each task registered once and no change since the snapshot, a wake-up fires exactly the tasks due at the earliest time, once each |
| `TaskManager.RepeatedTaskCutsWakeShort` | task/task.go:557-592 | a task listed twice ends the wake-up before another due task |
| `TaskManager.AllDueFireIff` | task/task.go:557-592 | all due tasks of a sorted snapshot fire iff nothing new that is due follows a repeated entry |
| `ConditionSql.GetCondSQL` | client/orm/db_tables.go:333-401 | the emitted tokens and arguments are those of the condition's clause |
| `ConditionSql.ClauseReadsBack` | client/orm/db_tables.go:333-401 | a clause of a condition without empty nested conditions parses, with NOT over AND over OR, to the OR of its AND groups |
| `ConditionSql.ClauseFails` | client/orm/db_tables.go:333-401 | with an empty nested condition anywhere, the clause does not parse |
| `ConditionSql.ClauseMeansCondition` | client/orm/db_tables.go:333-401 | the clause parses iff no nested condition is empty, and then evaluates like the condition under three-valued logic, for all comparison values |
| `ConditionSql.NoClauseIffHollow` | client/orm/db_tables.go:333-401 | no clause is emitted iff the condition is empty up to bare nesting |
| `ConditionSql.NestedEmptyHasNoClause` | client/orm/orm_conds.go:80-92 | `IsEmpty` can be false while no clause is emitted |
| `ConditionSql.OrAddsAlternative` | client/orm/orm_conds.go:107-147 | `Or`, `OrNot`, `OrCond` and `OrNotCond` add an alternative to the whole condition, a nested one as a unit; an empty condition drops out |
| `ConditionSql.AndRestrictsLastGroup` | client/orm/orm_conds.go:62-105 | `And`, `AndNot`, `AndCond` and `AndNotCond` restrict the last AND group and nothing else |
| `UpdateSql.OperatorHasOneMark` | client/orm/db_postgres.go:26-41 | every operator of a dialect's table has one placeholder |
| `UpdateSql.OperatorBalancedIff` | client/orm/db.go:1419-1476 | an operator's text never has more placeholders than arguments, and as many iff the dialect supports the operator |
| `UpdateSql.ComparisonBalancedIff` | client/orm/db_tables.go:376-391 | the same for the whole comparison, column wrapper included |
| `UpdateSql.NqIsUnbalanced` | client/orm/db.go:38-66 | `nq` gives an argument and no placeholder in every dialect |
| `UpdateSql.BoundAsSuppliedIff` | client/orm/db.go:1419-1476 | for every operator, exactly which arguments reach the driver as they were supplied |
| `UpdateSql.NilBindsText` | client/orm/db.go:1445-1449 | `exact` with nil compares with the text "IS NULL" |
| `UpdateSql.ClauseArgs` | client/orm/db_tables.go:333-401 | the arguments collected are those of the emitted comparisons, in order |
| `UpdateSql.ClauseTests` | client/orm/db_tables.go:333-401 | the clause holds all comparisons of the condition, at any depth, and no others |
| `UpdateSql.BuildSetSQL` | client/orm/db.go:932-983 | the assignments are the columns in order; every column change is replaced in place by its number, other values stay |
| `UpdateSql.SetArgs` | client/orm/db.go:932-983 | the assignments supply one unwrapped value per column, in column order |
| `UpdateSql.BindAndSet` | client/orm/db.go:842-878 | values and condition arguments share one slice; afterwards no column change is left in it |
| `UpdateSql.UpdateBatch` | client/orm/db.go:842-878 | text and arguments passed to the driver are those of the statement's pieces: assignments first, then the condition |
| `UpdateSql.UpdateFrameMarkFree` | client/orm/db.go:880-930 | neither form of the statement adds placeholders of its own |
| `UpdateSql.StatementBalanced` | client/orm/db.go:842-983 | with balanced comparisons every piece of the statement has as many placeholders as arguments, and the totals agree |
| `UpdateSql.PlaceholdersBindOwnArguments` | client/orm/db.go:842-983 | in a statement of balanced pieces, the ordinals of a piece's placeholders are the positions of its own arguments |
| `UpdateSql.CountsAgreeIff` | client/orm/db.go:842-983 | with no comparison overfull, the totals agree iff every comparison, at any depth, is balanced |
| `UpdateSql.PlaceholdersAgreeIff` | client/orm/db.go:842-983 | for a condition of columns, operators and arguments, the totals agree iff the dialect supports every operator, at any depth |
| `UpdateSql.ReplaceMarks` | client/orm/db_postgres.go:106-130 | the pieces between question marks with $1, $2, ... between them |
| `UpdateSql.PiecesAreTheQuery` | client/orm/db_postgres.go:106-130 | those pieces are the query cut at its question marks, one more than there are marks: nothing else changes |
| `UpdateSql.KthPlaceholder` | client/orm/db_postgres.go:106-130 | in a statement of balanced pieces, the k-th question mark stands in the piece that supplied the k-th argument, and numbering replaces just it by its number |
| `UpdateSql.UpdateBindsKth` | client/orm/db.go:842-982 | with supported operators: as many placeholders as arguments, the k-th argument is the k-th assigned value or, behind these, the next one of the condition, and the k-th placeholder, numbered k + 1, stands in the piece that supplied it, for a column in its own assignment |
| `SetMeaning.AssignmentsRead` | client/orm/db.go:932-982 | read back from the text, the k-th assignment is that of the k-th column, with the operation its value asks for; in PostgreSQL an exclusive or is a power |
| `SetMeaning.ReadAsAskedIff` | client/orm/db.go:932-982 | an assignment does what was asked for iff it is not an exclusive or sent to PostgreSQL |
| `SetMeaning.UpdateStores` | client/orm/db.go:932-982 | the assignments read and run on a row: every given column has its value, or its old value changed by the named operation, and the other columns are as before |
| `SetMeaning.UpdateAssignsKth` | client/orm/db.go:842-982 | the k-th placeholder of the whole statement stands in the assignment of the k-th column and is bound to its value |
| `SetMeaning.FrameReads` | client/orm/db.go:880-930 | the statement updates the named table; without joins, its rows whose primary key is selected from the same table |
| `LikePattern.PatternMeansIff` | client/orm/db.go:1450-1461 | a pattern finds its needle exactly where it is, in every text, iff the needle holds no "_" and no backslash, but for a last one where it is taken as it is |
| `LikePattern.UnderscoreIsWild` | client/orm/db.go:1450-1461 | the needle "_" is found in "x" |
| `OperatorMeaning.PanicsIff` | client/orm/db.go:1419-1476 | a comparison panics exactly for a wrong number of arguments or an isnull that is not given a bool |
| `OperatorMeaning.ComparisonReads` | client/orm/db_tables.go:384-390 | every comparison reads back as its column, with its casts, and the check of its operator |
| `OperatorMeaning.OperatorMeansIff` | client/orm/db.go:1419-1476 | for both dialects and every supported operator, the comparison, its text read and its arguments bound, is the relation the operator is named for, whatever the column holds, iff its arguments are safe: not nil for exact, a plain needle for a search, no "%" for iexact in PostgreSQL |
| `OperatorMeaning.NilFindsNothing` | client/orm/db.go:1446-1449 | exact with nil asks for nulls and does not find one |
| `OperatorMeaning.UnderscoreFindsAny` | client/orm/db.go:1450-1461 | contains with "_" finds "x" |
| `OperatorMeaning.PercentNotFound` | client/orm/db.go:1450-1461 | iexact with "%" does not find "%" in PostgreSQL |
| `FilterMeaning.CompilesIff` | client/orm/db_tables.go:333-401 | a condition is compiled without a panic iff every operator has the arguments it takes |
| `FilterMeaning.WordsOfClause` | client/orm/db_tables.go:333-401 | piece by piece, the text of a clause reads back as its words and comparisons |
| `FilterMeaning.CompiledMeans` | client/orm/db_tables.go:333-401 | with safe arguments, the compiled condition, its comparisons read as text, means what the condition of columns, operators and arguments asks for |
| `FilterMeaning.WhereSelects` | client/orm/db_tables.go:333-401 | the clause read from its text is SQL iff no nested condition is empty, and then selects, on every row, what the condition asks for |
| `JoinPlan.PathNameInjective` | client/orm/db_tables.go:52-79 | the joined name of a path of clean names determines the path |
| `JoinPlan.CleanIsUnambiguous` | client/orm/db_tables.go:52-79 | with clean field names, no two relation paths of a schema share a name |
| `JoinPlan.TablesAreOwnIff` | client/orm/db_tables.go:52-79 | all different relation paths get tables of their own iff no two share a name |
| `JoinPlan.SharedNameBreaksOrder` | client/orm/db_tables.go:52-66 | a field named `a__b` and then the path a, b: the first table's join refers to the second one's alias |
| `JoinOrder.OrderedIff` | client/orm/db_tables.go:110-168 | over all sequences of related paths, every join refers to T0 or an earlier table iff no two relation paths of the schema share a name |
| `JoinOrder.ClashBreaksOrder` | client/orm/db_tables.go:125-167 | walking two paths whose names clash first, the one that branches off deeper second, links a table to a later one |
| `JoinOrder.PlanRelated` | client/orm/db_tables.go:110-168 | the joins the planner makes are those of the walks, and ordered when names differ |
| `JoinPlan.VisitKeepsPlan` | client/orm/db_tables.go:52-79 | setting or adding a path's table and linking it keeps the plan valid; on a known path neither changes anything |
| `JoinPlan.SelectKeepsPlan` | client/orm/db_tables.go:149-161 | selecting a table whose parent is selected keeps the plan valid |
| `JoinPlan.DbTables.constructor` | client/orm/db_tables.go:495-501 | a new plan is empty and valid, for every schema |
| `JoinPlan.DbTables.Set` | client/orm/db_tables.go:52-66 | overwrites the node of a known name, appends one otherwise; list and map agree |
| `JoinPlan.DbTables.Add` | client/orm/db_tables.go:69-79 | keeps the node of a known name, appends one otherwise |
| `JoinPlan.DbTables.Visit` | client/orm/db_tables.go:52-79 | set or add, then link: positions keep their tables, for every schema; when no two paths share a name the plan stays valid and the path has its own table |
| `JoinPlan.DbTables.Select` | client/orm/db_tables.go:153-159 | marks one table selected; tables and joins stay |
| `JoinPlan.DbTables.RelateComponent` | client/orm/db_tables.go:137-162 | one more component of a related path: its table is joined to the one before, inner iff every step was, selected iff no step was reversed |
| `JoinPlan.DbTables.WalkRelated` | client/orm/db_tables.go:125-167 | panics iff a component is unknown, not a relation or many-to-many; otherwise the joins are those of the walk, and a forward path ends with its own table selected when no two paths share a name |
| `JoinPlan.DbTables.WalkName` | client/orm/db_tables.go:125-167 | a path given by name is cut at its separators and walked |
| `JoinPlan.DbTables.ParseRelated` | client/orm/db_tables.go:110-168 | over all requested and generated names the plan stays valid; panics iff one of them, cut at its separators, cannot be walked |
| `JoinPlan.FieldPathsOk` | client/orm/db_tables.go:89-107 | every relation path up to a depth can be walked |
| `JoinPlan.LoopFieldsNames` | client/orm/db_tables.go:89-107 | the generated names are the names of these paths, in order |
| `JoinPaths.GeneratedAre` | client/orm/db_tables.go:87-124 | without requested paths, exactly the paths along relations to one model of at most depth steps are generated; with requested ones, none |
| `JoinPlan.SplitsBackIff` | client/orm/db_tables.go:126-131 | a path name is cut back into its path iff no component holds the separator and none but the last ends in a low line |
| `JoinPlan.GeneratedOk` | client/orm/db_tables.go:110-168 | with such field names no generated path panics |
| `JoinPlan.SeparatorInNamePanics` | client/orm/db_tables.go:89-168 | a relation field named `a__b` makes the generated paths panic |
| `JoinPlan.DbTables.JoinTable` | client/orm/db_tables.go:273-281 | joins the table of a relation component; its alias stands for the model the relation leads to |
| `JoinPlan.DbTables.JoinComponent` | client/orm/db_tables.go:250-283 | stops iff a deletion can use the foreign key itself; otherwise keeps where the walk stands, the inner flag and the alias's model right |
| `JoinPlan.DbTables.ExploreComponent` | client/orm/db_tables.go:248-287 | one component of the loop: either the walk ends here with a known table, or it goes on to the next component |
| `JoinPlan.DbTables.Land` | client/orm/db_tables.go:289-317 | the end of the walk: succeeds iff there is a table to take, with the column and the alias's model stated |
| `JoinPlan.DbTables.ParseExprs` | client/orm/db_tables.go:218-330 | keeps the plan valid; succeeds iff the walk finds every component up to where it stops and a reverse relation there has a table; then the column is that of the component or the primary key behind it, and the alias stands for exactly the model stated |
| `JoinPlan.AliasFitsIff` | client/orm/db_tables.go:264-315 | the alias stands for the model that has the column iff a condition on the last field, its position and the kind of plan holds |
| `JoinPlan.AliasCanMiss` | client/orm/db_tables.go:264-315 | one path of each failing kind in a valid schema resolves, whatever was planned before, with a table that lacks the column |
| `JoinPlan.JoinsAreOrdered` | client/orm/db_tables.go:171-215 | aliases are distinct and equal position plus one, every join refers to T0 or an earlier table, and no inner join hangs off an outer one |
| `RowDecode.SelectListBlocks` | client/orm/db.go:1337-1362 | the SELECT list is the own columns, then one block per selected table at its offset, and nothing else |
| `RowDecode.PrefixSelected` | client/orm/db_tables.go:110-168 | the tables of all shorter paths of a selected table are selected and come first |
| `RowDecode.WalkRow` | client/orm/db.go:1211-1245 | the walk along a path, for any caches: known keys are looked up, unknown ones read from the front of the columns |
| `RowDecode.DecodeRow` | client/orm/db.go:1198-1248 | one row, for any plan: own columns first, then each selected table takes as many as the model its walk ended at has |
| `RowDecode.DifferentKeysReadRight` | client/orm/db.go:1198-1248 | with different keys, each selected table whose object exists gets exactly its own block, a null foreign key skips its block, all columns are consumed |
| `RowDecode.SharedKeyReadsWrong` | client/orm/db.go:1215-1245 | when two selected tables share a key and all objects exist, a table is never stored |
| `RowDecode.ReadsRightIff` | client/orm/db.go:1198-1248 | rows are read right whatever objects exist iff no two selected paths share a key |
| `RowDecode.SelectListReadsBack` | client/orm/db.go:1198-1362 | a row of column labels laid out by the SELECT list comes back with each table's own labels |
| `RowDecode.PlanWithSharedKey` | client/orm/db_tables.go:110-168 | planning the related paths ab, c and a, bc gives a valid plan with a shared key |
| `InsertMulti.CopyInto` | client/orm/db.go:429-433 | copies as many elements as fit |
| `InsertMulti.BufferRow` | client/orm/db.go:429-433 | a row is appended to the buffer without truncation, except the second row at bulk size one |
| `InsertMulti.InsertRows` | client/orm/db.go:394-448 | fails iff the rows differ in width, having sent exactly the full batches before the first odd row; otherwise the batches are the rows in order, cut every bulk rows |
| `InsertMulti.ChunksHoldAllRows` | client/orm/db.go:394-448 | the batches concatenated are the rows in order |
| `InsertMulti.ChunkSizes` | client/orm/db.go:394-448 | each batch holds at least one and at most bulk whole rows |
| `InsertMulti.AllRowsInsertedIff` | client/orm/db.go:394-448 | all rows are inserted iff the bulk size is at least two or there is at most one row |
| `InsertMulti.InsertValueSQL` | client/orm/db.go:478-523 | the text is the head with all columns in order and one group of placeholders per row |
| `InsertMulti.InsertPlaceholders` | client/orm/db.go:478-523 | as many placeholders as values whenever the values of a multi-row insert are whole rows, or the values are one row |
| `InsertMeaning.InsertReads` | client/orm/db.go:478-523 | the text reads back as the given columns in order and one placeholder for each in each row |
| `InsertMeaning.BatchIsStored` | client/orm/db.go:394-523 | the statement of a batch, read and given the values of the batch, stores every row with its j-th value in the j-th column |
| `InsertMulti.BatchesAreWholeRows` | client/orm/db.go:394-448 | every batch is a non-empty number of whole rows, at most bulk |
| `InsertMulti.InsertMultiWithCtx` | client/orm/orm.go:227-259 | for every bulk size, all rows reach the database in order exactly once, or an error is returned iff there are none or their widths differ |
| `CascadeDelete.Database.UpdateBatch` | client/orm/db.go:842-878 | the foreign keys that hold one of the keys and, behind an inner join, whose parent row exists are overwritten, everything else stays |
| `CascadeDelete.Database.DeleteRels` | client/orm/db.go:987-1011 | every relation to the deleted rows is treated by its policy, which an inner join leaves without effect; only rows in the cascade closure disappear; terminates on cyclic schemas |
| `CascadeDelete.Database.DeleteBatch` | client/orm/db.go:1014-1092 | the chosen rows are gone, nothing outside their cascade closure is, surviving references follow their policy; the count is the number of chosen rows |
| `CascadeDelete.Delete` | client/orm/db.go:771-809 | the same by primary key; nothing changes when there is no such row |
| `CascadeDelete.Compose` | client/orm/db.go:987-1092 | two deletions one after the other are one deletion |
| `CascadeDelete.DeletedIsClosed` | client/orm/db.go:987-1092 | the removed rows are closed under cascade references |
| `CascadeDelete.DeletedIsClosure` | client/orm/db.go:987-1092 | exactly the closure of the chosen rows, as the rows before the call define it, is deleted |
| `CascadeDelete.OneResult` | client/orm/db.go:987-1092 | the result does not depend on the order relations are walked in |
| `CascadeDelete.HangingIffDangling` | client/orm/db.go:987-1092 | a reference dangles afterwards iff, before the call, its row lies outside the closure and points into it by a relation that is unlisted, does nothing, sets a value behind an inner join, or defaults to no row outside the closure |
| `CascadeDelete.NoDanglingIff` | client/orm/db.go:987-1092 | no reference dangles iff the rows before the call hold no such one; with cascade and set-null only, never |
| `CascadeDelete.DoNothingDangles` | client/orm/db.go:987-1011 | deleting a parent leaves the child of a do-nothing relation dangling |
| `CascadeDelete.SetDefaultIsNotSet` | client/orm/db.go:997-1003 | a non-null set-default reference keeps its old key and dangles, although the default row stays |
| `CascadeDelete.DefaultIsSetIff` | client/orm/db.go:997-1003 | a set-default reference into the closure gets its default iff its field may be null or belongs to a many-to-many table |
| `StmtCache.StepKeepsInv` | client/orm/db_alias.go:129-158 | every atomic step of every caller and closing goroutine keeps the protocol invariant |
| `StmtCache.RunsKeepInv` | client/orm/db_alias.go:129-158 | the invariant in every state of every interleaving |
| `StmtCache.RunsAreSafe` | client/orm/db_alias.go:532-575 | no holder sees a closed statement, statements close at count zero only, the count is the number of holders, at most one live statement per query is cached within capacity, none is lost |
| `StmtCache.RunsUseOwnQuery` | client/orm/db_alias.go:129-158 | in every run, a statement in use was prepared from the query of the call that uses it, and every cached one from its key |
| `StmtCache.CallKeepsQuery` | client/orm/db_alias.go:129-158 | a call keeps its query from its first step to its release |
| `StmtCache.EvictedCountNeverRises` | client/orm/db_alias.go:545-559 | once evicted, a statement's count never rises again |
| `StmtCache.AddNeverOverwrites` | client/orm/db_alias.go:141-156 | thanks to the second lookup, adding never overwrites a cached statement, so each one that leaves the cache is handed to its closing goroutine |
| `StmtCache.IdleStatementsCanClose` | client/orm/db_alias.go:553-575 | with all callers idle, every statement outside the cache can be closed |
| `FileRotation.FindFree` | core/logs/file.go:351-355 | finds the least free archive number, or reports that none is left |
| `FileRotation.Rotate` | core/logs/file.go:324-391 | the rotation with its search is the transition of the model, for successful and failed renames |
| `FileRotation.StepKeeps` | core/logs/file.go:173-391 | every step keeps: each file has one name and holds exactly the messages written to it |
| `FileRotation.EveryMessageIsKept` | core/logs/file.go:173-391 | in every run, whatever files were there and whichever renames fail, no rename hits an existing file, and every accepted message stays in exactly one file, in order |
| `FileRotation.StepBounded` | core/logs/file.go:160-214 | lines in the live rotated file plus writers about to write stay within MaxLines + W - 1 |
| `FileRotation.RotatedFilesAreBounded` | core/logs/file.go:160-264 | with W writers and due rotations taking place, no file opened by a rotation ever gets more than MaxLines + W - 1 messages |
| `FileRotation.SizeIsCounted` | core/logs/file.go:173-264 | in every run the size the writer counts is the size of the live file |
| `FileRotation.CheckAsks` | core/logs/file.go:160-201 | the first check lets a writer go on iff no limit is reached and no day or hour to compare differs from that of the opening |
| `FileRotation.RotatesOnlyWhenAsked` | core/logs/file.go:160-391 | in every run the live file is renamed only when lines, size, day or hour ask for it |
| `FileRotation.AskedWriterGoesElsewhere` | core/logs/file.go:160-214 | in every run in which due rotations take place, a writer whose first check found a limit reached, or another day or hour than that of the opening, never writes to the file it saw |
| `FileRotation.SinceIsOpening` | core/logs/file.go:239-264 | the moment compared with is that at which the rotation opened the live file |
| `FileRotation.LateMessageGoesElsewhere` | core/logs/file.go:160-214 | a message of another day (with daily) or hour (with hourly) than that in which a rotation opened a file is not written to it |
| `FileRotation.FileIsLeftWhenDue` | core/logs/file.go:160-391 | a file opened by a rotation is left only with MaxLines messages or MaxSize bytes in it, or in another day or hour |
| `FileRotation.ArchivedUnder` | core/logs/file.go:348-377 | such a file is archived under a free name, with the stamp of its opening when it is not split by lines or size, and else of the message or timer that asked |
| `FileRotation.StepFits` | core/logs/file.go:160-214 | the size of the live rotated file plus that of the messages about to be written stays below MaxSize + W times the greatest message |
| `FileRotation.RotatedFilesFit` | core/logs/file.go:160-264 | with W writers, due rotations taking place and messages of at most m bytes, a file opened by a rotation stays below MaxSize + W * m bytes |
| `AsyncLog.StepKeepsOrder` | core/logs/log.go:287-408 | every step keeps: queue, message in hand and outputs partition the sent messages in order |
| `AsyncLog.StepKeepsProtocol` | core/logs/log.go:593-647 | every step keeps the signalling protocol between caller and consumer |
| `AsyncLog.RunsAreOrderly` | core/logs/log.go:159-408 | in every run the wait counter is 0 or 1 and each output got a prefix of the messages in queue order |
| `AsyncLog.WaitReturnsAfterDelivery` | core/logs/log.go:593-618 | when a wait returns, every output has the messages up to the caller's mark |
| `AsyncLog.CallDelivers` | core/logs/log.go:593-647 | between a `Flush` or `Close` call and its return, every message sent before the call reached every output exactly once, in order |
| `AsyncLog.WaitNeverStuck` | core/logs/log.go:381-408 | while a caller waits, consumer or caller can always step without a further message |
| `QuotedPrintable.QuotePrintEncode` | core/utils/mail.go:257-299 | the loop with its line counter computes the encoding |
| `QuotedPrintable.RoundTrip` | core/utils/mail.go:257-312 | for every byte string, a decoder following section 6.7 of RFC 2045 returns the input |
| `QuotedPrintable.EncodedLinesFit` | core/utils/mail.go:257-299 | no output line exceeds 76 characters, soft breaks included |
| `QuotedPrintable.StrippingRoundTripIff` | core/utils/mail.go:257-312 | a decoder that strips blanks at line ends returns the input iff no blank stands before a line feed |
| `Base64Wrap.EncodeInto` | core/utils/mail.go:341-349 | overwrites a prefix of the buffer with the encoding and nothing behind it |
| `Base64Wrap.Wrap` | core/utils/mail.go:335-354 | through one reused buffer, the output is one line for every 57 bytes and one for the rest |
| `Base64Wrap.Base64RoundTrip` | core/utils/mail.go:335-354 | the encoding, section 4 of RFC 4648, decodes to its input |
| `Base64Wrap.Base64Concat` | core/utils/mail.go:335-354 | whole triples encode independently of what follows |
| `Base64Wrap.UnwrappedIsBase64` | core/utils/mail.go:335-354 | without line breaks the output is the base64 of the whole content |
| `Base64Wrap.WrappedLinesFit` | core/utils/mail.go:335-354 | no line exceeds 76 characters |
| `EncodedWord.EncodeWord` | core/utils/mail.go:377-406 | the loop computes the encoded word |
| `EncodedWord.NeedsEncoding` | core/utils/mail.go:367-374 | true iff some character is neither printable nor a tab |
| `EncodedWord.QEncode` | core/utils/mail.go:360-365 | the encoded word iff one is needed, else the text itself |
| `EncodedWord.WordRoundTrip` | core/utils/mail.go:377-406 | for every byte string, a decoder following section 4.2 of RFC 2047 gives charset and text back |
| `EncodedWord.HeaderRoundTripIff` | core/utils/mail.go:360-406 | a header comes back from a reader iff it was encoded or does not itself read as an encoded word |
| `EncodedWord.LooksEncoded` | core/utils/mail.go:360-365 | a subject that comes back as something else |
| `EncodedWord.WordFitsIff` | core/utils/mail.go:377-406 | the word stays within 75 characters iff charset, text and escapes do not exceed 68 |
| `Ini.ExpandValueEnv` | core/config/config.go:275-308 | the scan computes the expansion that the next three rows describe |
| `Ini.ExpandsToDefault` | core/config/config.go:264-308 | `${name}` with a default d behind two bars is the variable, or d when it is empty or not set |
| `Ini.ExpandsToVariable` | core/config/config.go:264-308 | `${name}` is the variable, whatever follows up to a last brace |
| `Ini.EnvForms` | core/config/config.go:264-308 | every value that starts with "${" and ends in "}" has one of these two forms |
| `Ini.ParseOne` | core/config/ini.go:117-208 | one line, with its comment, section, include, environment and error cases |
| `IniMeaning.QuotedLine` | core/config/ini.go:145-205 | `Key = "v"` stores, under the key in lower case, what stands between the quotes, with an environment form expanded, and changes nothing else |
| `IniMeaning.BareLine` | core/config/ini.go:145-205 | a value without a leading quote is stored as it stands |
| `IniMeaning.NameLine` | core/config/ini.go:128-138 | `[Name]` makes the name in lower case the current section and changes no value |
| `IniMeaning.IncludeLine` | core/config/ini.go:149-187 | `include "File"` lays the parsed file over what is there; the name asked for is the one written, in lower case |
| `Ini.ParseData` | core/config/ini.go:63-212 | the loop runs the line semantics over all lines behind an optional byte order mark |
| `Ini.MergeData` | core/config/ini.go:175-182 | the copying loops merge an included file's sections, in any order |
| `Ini.IncludedWins` | core/config/ini.go:159-193 | after an include, a key has the included value if there is one and its old value otherwise |
| `Ini.RunConcat` | core/config/ini.go:63-212 | a text can be parsed piece by piece, cut at any line break |
| `Ini.CommentTextLines` | core/config/ini.go:355-377 | however a comment is broken into lines, every printed line starts with "#" |
| `Ini.ReadEntries` | core/config/ini.go:416-432 | the printed keys of a section put exactly these entries back into the current section |
| `Ini.ReadSection` | core/config/ini.go:404-438 | a printed section, with any comments, puts exactly its entries back |
| `Ini.PrintedReadsBack` | core/config/ini.go:63-442 | printing a container in normal form, in any order and with any comments, and parsing it gives the same data, exactly unless the default section is there and empty |
| `Ini.IniConfigContainer.SaveEntries` | core/config/ini.go:382-396 | appends the keys in the order visited |
| `Ini.IniConfigContainer.SaveSection` | core/config/ini.go:404-438 | appends comment, header, keys and a blank line |
| `Ini.IniConfigContainer.SaveConfigFile` | core/config/ini.go:347-442 | the buffer is the default section and the named sections in the order visited |
| `Ini.IniConfigContainer.Set` | core/config/ini.go:447-469 | refuses an empty key; otherwise exactly the addressed entry changes, and reading the same key gives the value back |
| `Ini.IniConfigContainer.GetData` | core/config/ini.go:483-507 | the addressed value, or the empty string |
| `IniMeaning.Addresses` | core/config/ini.go:483-500 | "Section::Key" addresses the key of the section, both in lower case, and "Key" that of the default section; what follows a second "::" is ignored |
| `IniMeaning.StoredIsFound` | core/config/ini.go:483-507 | what a line stored is found under its section and key in any case |

## Left out

- The HTTP server, routing, controllers, templates, static files and admin pages.
- Network clients: HTTP client, cache backends, SMTP, Slack and connection log writers.
- Conversion of values by reflection; a row is a vector of values.
- Time zones with daylight saving, and the monotonic part of `time.Time`.
- `parse` and `parseSpec` of the cron text: splitting into six fields and the named descriptors.
- The error ring of `Task.Run`, and running a task in its own goroutine with a timeout.
- CronField.GetField: requires steps of at least 1, because the loop of `getBits` never ends for step 0.
- CronField.GetRange: requires a step of at least 1, for the same reason.
- CronField.GetBits: requires a step of at least 1 and a maximum below 63, which holds for the bounds of every field.
- CronField.ParseRange: names are lowered as ASCII text.
- Raw SQL fragments in conditions; `GROUP BY`, `ORDER BY`, `LIMIT` and index hints.
- The shared backing array of `Condition.And`, `Or` and `Raw`: conditions are values here.
- Dialects other than MySQL (also TiDB) and PostgreSQL.
- UpdateSql.UpdateBatch: an update without columns, which panics in the source, is a statement without assignments here.
- InsertMulti.InsertMultiWithCtx: keys set on the models of single inserts are not modelled.
- `InsertOrUpdateSQL`, and `Delete` with explicit columns, which passes column values on as keys.
- JoinPlan.DbTables.Visit: when two relation paths share a name, only positions and name map are promised; `OrderedIff` shows what fails then.
- RowDecode.DecodeRow: when keys collide, whether an object exists is asked by the path walked, not by the object found under the key; containers other than the queried model, and value conversion, are not modelled.
- StmtCache.RunsAreSafe: statement errors other than a failed prepare are not modelled.
- FileRotation.CheckAsks: the switch `rotate: false`, with which writers do not check, is not modelled; the day compared is that of the month, as in the source.
- FileRotation.EveryMessageIsKept: deletion of old logs and removal or renaming of files by others are not modelled.
- AsyncLog.CallDelivers: overlapping `Flush` and `Close` calls, non-blocking sends that drop messages and output errors are not modelled.
- Ini.ParseData: an included file enters as its parsed container, so files that include each other in a circle are not modelled.
- Overwriting a longer existing config file, and other file-system errors.
- Caches, cache decorators, statistics, validators, query builders and slice helpers: single-function claims that would only add easy members.
