# pgguclifetimes, modelled in Dafny

pgguclifetimes is PostgreSQL's static checker for GUC lifetime annotations.
It walks every top-level variable declaration of every file in a compilation
database. A global variable in the main file is reported unless one of two
things exempts it:

- it is registered as a GUC in one of the five `ConfigureNames*` tables of
  `guc_tables.c`;
- it is `__thread` and carries one of the annotate tags `postmaster_guc`,
  `session_guc` or `sighup_guc`.

The model covers the code of `pgguclifetimes.c` and `vector.c` that does this:

- the declaration checker;
- the GUC-name extractor over the tables;
- include/exclude scoping and its normalisation;
- the filtering of compiler arguments;
- the search for `guc_tables.c`;
- the per-file loops of `main` and the exit status;
- `struct vector`, the growable array that holds argument lists, paths and GUC names.

Things libclang supplies become plain values (`Cursors.Decl`, `Cursors.Node`, `Analyzer.CompileCommand`):

- the cursor tree;
- the TLS kind;
- whether a location is in the main file;
- the field names of a table's element type;
- the parse outcome.

Allocation successes are boolean parameters. Imperative code stays imperative:

- `struct vector` is the class `Vectors.Vector`, over an `array`;
- the visitors are methods with loops that update an issue counter or append to the vector;
- normalisation nulls slots of the excludes array in place.

Each method is proved against a specification function. Modules:

- `Base`: prefixes and substrings;
- `Vectors`: `vector.c`;
- `Cursors`: the parts of the AST that are looked at;
- `Checker`: `visit_AnnotateAttr`, `visit_VarDecl`, `visit_global_variable`, `visit_translation_unit`;
- `GucTables`: `visit_guc_tables` through `visit_initializer`;
- `Paths`: the normalisation in `main` and the filter in `analyze`;
- `CompileArgs`: `ignore_arg`, `copy_args`;
- `Analyzer`: `analyze`, `read_guc_tables` and `main`.

Behaviour of the code worth knowing:

- The accepted tags are exactly `postmaster_guc`, `session_guc` and `sighup_guc`.
- The extractor finds the element-type field named `variable` and records, as it is spelled, the identifier under a unary operator at that position (in guc_tables.c that operator is always `&`).
- The extractor looks at every variable declaration named one of the five tables, whatever its storage class.
- A file is in scope when its path begins with every include and with no remaining exclude.
- With `-1`, the walk of a file stops at its first checked declaration that is not `__thread` or has no accepted tag, and later files are still analysed. The checker never makes `analyze` return nonzero, so the `fail_fast && rc != 0` test in `main` only fires on tool errors (`Analyzer.WithoutToolErrorsEveryFileIsVisited`).
- `rc` is overwritten by each file. Without `-1`, an earlier tool error is lost when the last file succeeds (`Analyzer.LastFileDecidesRc`).

## Model

| member | source | states |
|---|---|---|
| Vectors.Vector.Zero | src/tools/pgguclifetimes/vector.h:21-25 | a zero-initialised vector has no allocation and no items and satisfies len <= cap == allocation size |
| Vectors.Vector.Init | src/tools/pgguclifetimes/vector.c:19-35 | on success the vector is empty with cap == capacity; on allocation failure it returns false with cap 0; either way len <= cap holds |
| Vectors.Vector.Append | src/tools/pgguclifetimes/vector.c:37-54 | succeeds iff there is room or the reallocation succeeds; on success the items are the old items plus the new one, and a full vector doubles its capacity while keeping its items; on failure nothing changes; len <= cap is preserved |
| Vectors.Vector.AppendAsWritten | src/tools/pgguclifetimes/vector.c:40-51 | as written: after a failed reallocation the items, len and the allocation are unchanged but cap is already doubled, so the next store is out of bounds |
| Vectors.FailedGrowthOverflowsNextStore | src/tools/pgguclifetimes/vector.c:40-51 | a capacity-1 vector with one item whose growth fails has len 1, cap 2 and one allocated slot, so the next store is out of bounds |
| Vectors.Vector.Free | src/tools/pgguclifetimes/vector.c:56-62 | releases exactly items 0..len-1 in order; len and cap are not modified |
| Checker.DeclIssues | src/tools/pgguclifetimes/pgguclifetimes.c:141-190 | a skipped declaration (not in the main file, no global storage, or a name in gucs) adds 0 issues; a checked one adds at most 2, at most 1 in fail-fast mode, and 0 when it is __thread with an accepted tag |
| Checker.ScanAnnotations | src/tools/pgguclifetimes/pgguclifetimes.c:49-89 | annotated iff some annotate attribute among the children spells one of the three accepted tags; the scan stops at the first such attribute |
| Checker.VisitGlobalVariable | src/tools/pgguclifetimes/pgguclifetimes.c:127-191 | adds exactly (1 if not static TLS) + (1 if no accepted tag) to the counter, or 1 in fail-fast mode when not static TLS, and nothing for a skipped declaration; returns Break iff fail-fast and the checked declaration is not annotated |
| Checker.VisitTranslationUnit | src/tools/pgguclifetimes/pgguclifetimes.c:193-202 | adds the issues of the declarations up to and including the first one that stops the walk; the walk was broken iff some declaration stops it |
| Checker.FailFastFileIssues | src/tools/pgguclifetimes/pgguclifetimes.c:175-176 | in fail-fast mode a file contributes exactly 1 issue if some checked declaration is unannotated or not thread-local, else 0 |
| Checker.NoFailFastVisitsAll | src/tools/pgguclifetimes/pgguclifetimes.c:186-202 | without fail-fast the walk never stops and sums the issues of every declaration |
| Checker.AnnotatedFileHasNoIssues | src/tools/pgguclifetimes/pgguclifetimes.c:141-190 | a file whose checked declarations are all __thread with an accepted tag contributes no issue |
| Checker.FailureFixtureDeclIssues | src/tools/pgguclifetimes/tests/failure/example.c:5-15 | the three fixture globals with neither `__thread` nor a tag have two issues each and stop a fail-fast walk; the other six have one each |
| Checker.FailureFixtureTotal | src/tools/pgguclifetimes/tests/failure/example.c:5-15 | without fail-fast the fixture file yields 12 issues |
| Checker.FailureFixtureIsReported | src/tools/pgguclifetimes/tests/failure/example.c:5-15 | each of the nine fixture declarations has at least one issue: 12 in all without fail-fast, 1 with it |
| GucTables.FieldIndex | src/tools/pgguclifetimes/pgguclifetimes.c:311-335 | the index counts the fields before the first one named "variable"; if it is within the fields, that field is "variable" |
| GucTables.FieldIndexOf | src/tools/pgguclifetimes/pgguclifetimes.c:311-335 | the field loop computes FieldIndex |
| GucTables.VisitInitializer | src/tools/pgguclifetimes/pgguclifetimes.c:204-236 | the DeclRef's name is appended to gucs; when the table cannot grow the name is lost and ENOMEM is recorded |
| GucTables.VisitGuc | src/tools/pgguclifetimes/pgguclifetimes.c:238-295 | a record contributes the DeclRef name under the & operator at the field index, and nothing for any other form there (the NULL terminator) |
| GucTables.VisitGucList | src/tools/pgguclifetimes/pgguclifetimes.c:297-309 | the records of a table's initializer list contribute their names in order |
| GucTables.VisitGucTable | src/tools/pgguclifetimes/pgguclifetimes.c:297-309 | the initializer lists among a table's children contribute their names in order |
| GucTables.VisitGucDecl | src/tools/pgguclifetimes/pgguclifetimes.c:337-385 | only a variable declaration named one of the five ConfigureNames* tables contributes names, with its field index counted from 0 |
| GucTables.VisitGucTables | src/tools/pgguclifetimes/pgguclifetimes.c:337-385 | gucs grows by the names of every table in order; if it cannot grow, what fits is kept and ENOMEM is recorded |
| GucTables.AppendOutcomeThen | src/tools/pgguclifetimes/pgguclifetimes.c:222-230 | two appends in a row are one append of the concatenated names, with the ENOMEM flag sticky |
| GucTables.GucNamesConcat | src/tools/pgguclifetimes/pgguclifetimes.c:337-385 | names are collected in table order: extracting from a + b is extracting from a, then from b |
| GucTables.GucNamesOnlyFromTables | src/tools/pgguclifetimes/pgguclifetimes.c:366-373 | a unit without a ConfigureNames* table yields no names |
| GucTables.ListNamesHasRecord | src/tools/pgguclifetimes/pgguclifetimes.c:267-295 | every record's name ends up in its list's names |
| GucTables.TableNamesHasList | src/tools/pgguclifetimes/pgguclifetimes.c:297-309 | every list's names end up in its table's names |
| GucTables.GucNamesHasDecl | src/tools/pgguclifetimes/pgguclifetimes.c:337-385 | every table's names end up in the unit's names |
| GucTables.RegisteredVariableIsExtracted | src/tools/pgguclifetimes/pgguclifetimes.c:204-265 | a record of a ConfigureNames* table with &name at the variable field puts name into gucs |
| Paths.Normalized | src/tools/pgguclifetimes/pgguclifetimes.c:697-717 | a slot becomes NULL exactly when some include begins with its exclude, equality included; other slots are unchanged, and no surviving exclude is a prefix of an include |
| Paths.ExcludeCoversInclude | src/tools/pgguclifetimes/pgguclifetimes.c:706-710 | the length test and strncmp together mean the exclude is a prefix of the include |
| Paths.NormalizeExcludes | src/tools/pgguclifetimes/pgguclifetimes.c:697-717 | the nested loops leave the excludes equal to Normalized, with the includes only read |
| Paths.NormalizeExcludesAsWritten | src/tools/pgguclifetimes/pgguclifetimes.c:697-717 | as written: takes the length of a NULL slot exactly when an exclude is covered by an include other than the last; otherwise it computes Normalized |
| Paths.TwoIncludesCrashNormalization | src/tools/pgguclifetimes/pgguclifetimes.c:706-708 | includes /src/a and /src/b with exclude /src reach the NULL slot |
| Paths.InScope | src/tools/pgguclifetimes/pgguclifetimes.c:465-483 | a path is selected iff it begins with every include and with no non-NULL exclude |
| Paths.NormalizationWidensScope | src/tools/pgguclifetimes/pgguclifetimes.c:697-717 | a file in scope before normalisation is in scope after it |
| Paths.RemovedExcludeHidesIncludedFiles | src/tools/pgguclifetimes/pgguclifetimes.c:688-696 | an exclude that normalisation removes would have hidden every file under the includes |
| Paths.IncludeOverridesCoveringExclude | src/tools/pgguclifetimes/pgguclifetimes.c:688-717 | with include /a/b and exclude /a the exclude is dropped: /a/b/c is in scope, /a/d is not |
| CompileArgs.IgnoreArg | src/tools/pgguclifetimes/pgguclifetimes.c:387-394 | an argument is ignored iff it begins with -W |
| CompileArgs.Kept | src/tools/pgguclifetimes/pgguclifetimes.c:415-438 | the kept arguments are at most as many as given, each a non-ignored given one, and every non-ignored argument is kept |
| CompileArgs.KeptConcat | src/tools/pgguclifetimes/pgguclifetimes.c:415-438 | filtering commutes with concatenation, so order is preserved |
| CompileArgs.CopyArgs | src/tools/pgguclifetimes/pgguclifetimes.c:396-440 | fails iff the reservation fails; otherwise the vector holds, in order, the arguments but the last minus those beginning with -W, within the nargs slots reserved, and no append reallocates; when the reservation fails the vector has cap 0 and no items |
| Analyzer.Prelude | src/tools/pgguclifetimes/pgguclifetimes.c:442-510 | a command is parsed iff its path resolves, it is in scope or forced, the argument copy and the index succeed and the parse succeeds; a filtered-out file is never parsed |
| Analyzer.BuildArguments | src/tools/pgguclifetimes/pgguclifetimes.c:484-488 | the argument copy fails iff the reservation fails; on success the parser receives the arguments but the last, minus those beginning with -W, in order |
| Analyzer.Prepare | src/tools/pgguclifetimes/pgguclifetimes.c:457-510 | reaches the stage Prelude gives; once the argument copy succeeds, the parser is given exactly the filtered arguments |
| Analyzer.AnalyzeFile | src/tools/pgguclifetimes/pgguclifetimes.c:442-525 | with the checker: rc 0 after a parse or for a filtered-out file, rc 1 on a tool error; the counter grows by the file's issues only after a parse |
| Analyzer.AnalyzeGucFile | src/tools/pgguclifetimes/pgguclifetimes.c:442-525 | forced: rc 1 unless parsed; after a parse gucs receives the unit's names and rc is nonzero iff ENOMEM was recorded |
| Analyzer.ConfigCommandIndex | src/tools/pgguclifetimes/pgguclifetimes.c:546-560 | the first command whose file name contains src/backend/utils/misc/guc_tables.c, or None when no command matches |
| Analyzer.FindConfigCommand | src/tools/pgguclifetimes/pgguclifetimes.c:546-560 | the search loop returns ConfigCommandIndex |
| Analyzer.FindConfigCommandAsWritten | src/tools/pgguclifetimes/pgguclifetimes.c:546-562 | as written: with no match the loop leaves the last command selected, or none if there are none |
| Analyzer.ExtensionDatabaseUsesItsOnlyFile | src/tools/pgguclifetimes/pgguclifetimes.c:546-562 | in a one-file database without guc_tables.c, the search as written uses that file and the corrected search finds nothing |
| Analyzer.ReadGucTables | src/tools/pgguclifetimes/pgguclifetimes.c:527-567 | succeeds iff the 512-slot table is allocated, guc_tables.c is found and parsed, and its names fit or the table can grow; on success gucs holds exactly the extracted names |
| Analyzer.AnalyzeAllCommands | src/tools/pgguclifetimes/pgguclifetimes.c:790-805 | the loop over all commands computes Visit: rc is overwritten per file and the loop stops only in fail-fast mode with rc nonzero |
| Analyzer.AnalyzeFiles | src/tools/pgguclifetimes/pgguclifetimes.c:768-789 | the loop over named files computes Visit; a file unknown to the database ends the run with rc 1 |
| Analyzer.ExitStatus | src/tools/pgguclifetimes/pgguclifetimes.c:815-818 | the status is 0 iff the last rc is 0 and no issue was counted; a nonzero rc is the status |
| Analyzer.Run | src/tools/pgguclifetimes/pgguclifetimes.c:688-818 | main after option parsing: normalises the excludes in place and returns RunStatus |
| Analyzer.ParseFlags | src/tools/pgguclifetimes/pgguclifetimes.c:611-666 | -q sets quiet and fail_fast; -1 sets fail_fast |
| Analyzer.WithoutToolErrorsEveryFileIsVisited | src/tools/pgguclifetimes/pgguclifetimes.c:515-801 | when no file has a tool error, every file is analysed, with or without fail-fast, rc ends 0 and the counter is the sum over files |
| Analyzer.LastFileDecidesRc | src/tools/pgguclifetimes/pgguclifetimes.c:799-801 | without fail-fast the final rc is that of the last file |
| Analyzer.FailFastRcReportsAnyFailure | src/tools/pgguclifetimes/pgguclifetimes.c:783-786 | in fail-fast mode the final rc is nonzero iff some file fails |
| Analyzer.IssuesNeverDecrease | src/tools/pgguclifetimes/pgguclifetimes.c:795-803 | the issue counter only grows across files |
| Analyzer.IssueMakesStatusNonzero | src/tools/pgguclifetimes/pgguclifetimes.c:795-818 | a file with an issue makes the exit status nonzero, with or without fail-fast |
| Analyzer.RegisteredVariableIsExempt | src/tools/pgguclifetimes/pgguclifetimes.c:152-162 | a variable registered in a ConfigureNames* table adds no issue wherever it is declared |
| Analyzer.CleanRunExitsZero | src/tools/pgguclifetimes/pgguclifetimes.c:763-818 | when the tables are read, every file succeeds and no file has an issue, the exit status is 0 |

## Left out

- Parsing, cursor and type queries, and the compilation database are libclang calls. Their answers are inputs: `Cursors.Decl`, `Analyzer.CompileCommand` and `Analyzer.Database`.
- `realpath` and `chdir` are file-system I/O. Resolved paths are inputs.
  - The resolution of `-e`, `-i` and the named files is not modelled.
  - Failure to load the database or change into its directory is the input `dbOk` of `Analyzer.Run`.
- Option parsing is I/O and glue: getopt, usage text, the `-h`, missing-argument and unknown-option exits, and appending `-e`/`-i` paths. Only the effect of `-1` and `-q` is modelled (`Analyzer.ParseFlags`).
- `quiet` and the diagnostics are output only. They are not modelled.
- `strdup` never fails in the model of `copy_args` and `visit_initializer`. So the model never takes the path where `copy_args` catches a NULL from `strdup`, returns false, and `analyze` reports out of memory. Only vector allocation and reallocation, and the creation of the libclang index (`indexOk` of `Analyzer.CompileCommand`, reported as out of memory), can fail in the model.
- The ownership and lifetime bugs around `free` are not modelled:
  - `main` appends `optarg` instead of the resolved path, and normalisation later frees it;
  - the uninitialised `command_args` is freed on the filtered-out exit of `analyze`;
- `abort()` when the operand of `&` is not a DeclRef becomes a precondition: `GucTables.UnitOk`, required through `Analyzer.ConfigExtractable`.
- A compile command with fewer than two arguments is excluded by precondition (`Analyzer.WellFormed`):
  - with one argument, `vector_init` is asked for zero slots and asserts;
  - with none, `nargs` wraps around.
- Unsigned wrap-around of the issue counter and of `cap` is not modelled. Both are unbounded naturals.
- GucTables.VisitGucTables: one allocator answer (`reallocOk`) stands for every reallocation of a walk, and likewise in `GucTables.AppendOutcome`, `Analyzer.AnalyzeGucFile` and `Analyzer.TablesRead`. "What fits is kept" holds only because a failed growth is never followed by a successful one. The source calls `realloc` afresh on each full append and the walk continues after ENOMEM, so a later success could lose names from the middle of the list rather than its tail. The model does not capture that.
- Analyzer.ReadGucTables: when the 512-slot table cannot be allocated, the model fails the run. The source ignores that result and carries on with a NULL table.
- The argument list handed to the parser is not related to the parse outcome, which is an input of the command.
- `Vectors.Vector<T>` holds values rather than pointers to heap strings, so aliasing of items and their freeing are not modelled.
- Normalisation is modelled only on the excludes; the includes are passed as a `seq`. The source never changes them.
- `globals.c`, `elog_gucs.h`, `cancel.h` and `exit_codes.h` are not part of this model. They hold annotated declarations and constants with no logic.

## Findings

| source | as written | input that shows it | evidently intended | confidence | as-written member | corrected member |
|---|---|---|---|---|---|---|
| src/tools/pgguclifetimes/vector.c:40-46 | `cap` is doubled before `realloc`, and stays doubled when `realloc` fails | capacity 1 holding one item, then an append whose reallocation fails: `cap` is 2 with one slot allocated, and the GUC walk continues after ENOMEM, so the next append stores at `data[1]` | double `cap` only after a successful reallocation | not executed | Vectors.Vector.AppendAsWritten, Vectors.FailedGrowthOverflowsNextStore | Vectors.Vector.Append |
| src/tools/pgguclifetimes/pgguclifetimes.c:706-712 | the inner loop calls `strlen` on every exclude slot, including one an earlier include has set to NULL | `-i /src/a -i /src/b -e /src` | skip NULL slots | not executed | Paths.NormalizeExcludesAsWritten, Paths.TwoIncludesCrashNormalization | Paths.NormalizeExcludes |
| src/tools/pgguclifetimes/pgguclifetimes.c:546-562 | when no command names guc_tables.c, the last command fetched is analysed as the GUC tables, or an uninitialised one if there are none | a database holding only `/ext/pg_foo.c` | fail the run, since the GUC names are required | not executed | Analyzer.FindConfigCommandAsWritten, Analyzer.ExtensionDatabaseUsesItsOnlyFile | Analyzer.FindConfigCommand |
