/** The driver of pgguclifetimes.c: `analyze` for one compile command, the
    search for guc_tables.c in `read_guc_tables`, the per-file loops of
    `main` and the mapping of their outcome to the exit status. What libclang,
    realpath and the allocator answer for a compile command is part of the
    command's value here. */
module Analyzer {
  import opened Base
  import opened Vectors
  import opened Cursors
  import opened Checker
  import opened GucTables
  import opened Paths
  import opened CompileArgs

  /** A compile command of the database, with what the environment answers
      for it: the realpath of its file name, whether the argument vector and
      the libclang index can be allocated, and the translation unit that
      clang_parseTranslationUnit2FullArgv produces (None: it failed). */
  datatype CompileCommand = CompileCommand(
    filename: string,
    arguments: seq<string>,
    resolved: Option<string>,
    argsAllocOk: bool,
    indexOk: bool,
    unit: Option<seq<Decl>>)

  /** copy_args reserves one slot per argument but the last, and
      vector_init asserts a positive capacity: a command names at least the
      compiler and the file. */
  predicate WellFormed(c: CompileCommand)
  {
    |c.arguments| >= 2
  }

  /** How far `analyze` gets with a command before visiting it. */
  datatype Stage = Unresolved | OutOfScope | OutOfMemory | ParseFailed | Parsed(tu: seq<Decl>)

  /** The steps of `analyze` up to the visit: resolve the file name, apply
      the include/exclude filter unless `force`, copy the arguments, create
      the index, parse. */
  function Prelude(c: CompileCommand, force: bool, includes: seq<string>, excludes: seq<Option<string>>): (s: Stage)
    ensures s == Unresolved <==> c.resolved.None?
    ensures s == OutOfScope <==> c.resolved.Some? && !force && !Selected(c.resolved.value, includes, excludes)
    ensures s.Parsed? <==> c.resolved.Some? && (force || Selected(c.resolved.value, includes, excludes))
                            && c.argsAllocOk && c.indexOk && c.unit.Some?
    ensures s.Parsed? ==> s.tu == c.unit.value
  {
    if c.resolved.None? then Unresolved
    else if !force && !Selected(c.resolved.value, includes, excludes) then OutOfScope
    else if !c.argsAllocOk || !c.indexOk then OutOfMemory
    else if c.unit.None? then ParseFailed
    else Parsed(c.unit.value)
  }

  /** copy_args into a fresh `command_args`: the items built when the
      reservation succeeds. */
  method BuildArguments(arguments: seq<string>, allocOk: bool) returns (copied: bool, argv: seq<string>)
    requires |arguments| >= 2
    ensures copied == allocOk
    ensures copied ==> argv == Kept(arguments[..|arguments| - 1])
  {
    var args := new Vector<string>.Zero();
    copied := CopyArgs(arguments, args, allocOk);
    argv := args.Items();
  }

  /** The lines of `analyze` before the visit. `argv` is the argument list
      handed to the parser once copy_args has succeeded. */
  method Prepare(c: CompileCommand, force: bool, includes: seq<string>, excludes: seq<Option<string>>)
    returns (stage: Stage, argv: seq<string>)
    requires WellFormed(c)
    ensures stage == Prelude(c, force, includes, excludes)
    ensures c.resolved.Some? && (force || Selected(c.resolved.value, includes, excludes)) && c.argsAllocOk
            ==> argv == Kept(c.arguments[..|c.arguments| - 1])
  {
    if c.resolved.None? {
      return Unresolved, [];
    }
    if !force {
      var selected := InScope(c.resolved.value, includes, excludes);
      if !selected {
        return OutOfScope, [];
      }
    }
    var copied;
    copied, argv := BuildArguments(c.arguments, c.argsAllocOk);
    if !copied || !c.indexOk {
      stage := OutOfMemory;
    } else if c.unit.None? {
      stage := ParseFailed;
    } else {
      stage := Parsed(c.unit.value);
    }
  }

  /** `analyze` with visit_translation_unit returns 0 after a parse: the
      checker never sets the context's `err`, so its issues do not show in
      `rc`. A file left out by the filter also returns 0. */
  function CheckRc(s: Stage): int
  {
    if s == OutOfScope || s.Parsed? then 0 else 1
  }

  /** The issues a file adds to the counter. */
  function CheckIssues(s: Stage, gucs: seq<string>, failFast: bool): nat
  {
    if s.Parsed? then FileIssues(s.tu, gucs, failFast) else 0
  }

  /** analyze(command, visit_translation_unit, false, &issues). */
  method AnalyzeFile(c: CompileCommand, includes: seq<string>, excludes: seq<Option<string>>,
                     gucs: seq<string>, failFast: bool, issues: nat)
    returns (rc: int, issuesOut: nat)
    requires WellFormed(c)
    ensures rc == CheckRc(Prelude(c, false, includes, excludes))
    ensures issuesOut == issues + CheckIssues(Prelude(c, false, includes, excludes), gucs, failFast)
  {
    var stage, argv := Prepare(c, false, includes, excludes);
    issuesOut := issues;
    match stage {
      case Parsed(tu) =>
        var broke;
        issuesOut, broke := VisitTranslationUnit(tu, gucs, failFast, issues);
        rc := 0;
      case OutOfScope =>
        rc := 0;
      case _ =>
        rc := 1;
    }
  }

  /** analyze(command, visit_guc_tables, true, NULL). The filter is
      bypassed; after a parse `rc` is the walk's sticky ENOMEM. */
  method AnalyzeGucFile(c: CompileCommand, includes: seq<string>, excludes: seq<Option<string>>,
                        gucs: Vector<string>, reallocOk: bool)
    returns (rc: int)
    requires WellFormed(c) && (c.unit.Some? ==> UnitOk(c.unit.value))
    requires gucs.Valid() && gucs.cap > 0
    modifies gucs, gucs.data
    ensures gucs.Valid() && gucs.cap > 0
    ensures gucs.data == old(gucs.data) || fresh(gucs.data)
    ensures Prelude(c, true, includes, excludes).Parsed? ==>
              AppendOutcome(old(gucs.Items()), old(gucs.cap), GucNames(c.unit.value), reallocOk, gucs.Items(), rc != 0)
    ensures !Prelude(c, true, includes, excludes).Parsed? ==> rc == 1 && gucs.Items() == old(gucs.Items())
  {
    var stage, argv := Prepare(c, true, includes, excludes);
    if stage.Parsed? {
      var err := VisitGucTables(stage.tu, gucs, reallocOk);
      rc := if err then 1 else 0;
    } else {
      rc := 1;
    }
  }

  /** The fixed path read_guc_tables looks for in the compile commands. */
  const GucTablesPath: string := "src/backend/utils/misc/guc_tables.c"

  /** The capacity read_guc_tables reserves for the names, chosen large
      enough that the table is not expected to grow. */
  const GucTablesCapacity: nat := 512

  /** The first compile command whose file name contains GucTablesPath. */
  function ConfigCommandIndex(commands: seq<CompileCommand>): (k: Option<nat>)
    ensures k.Some? ==> k.value < |commands| && Contains(commands[k.value].filename, GucTablesPath)
    ensures k.Some? ==> forall j :: 0 <= j < k.value ==> !Contains(commands[j].filename, GucTablesPath)
    ensures k.None? ==> forall j :: 0 <= j < |commands| ==> !Contains(commands[j].filename, GucTablesPath)
  {
    if commands == [] then None
    else if Contains(commands[0].filename, GucTablesPath) then Some(0)
    else match ConfigCommandIndex(commands[1..])
      case None => None
      case Some(k) => Some(k + 1)
  }

  /** The search loop of read_guc_tables, with the not-found case reported
      as None. */
  method FindConfigCommand(commands: seq<CompileCommand>) returns (k: Option<nat>)
    ensures k == ConfigCommandIndex(commands)
  {
    var i := 0;
    while i < |commands|
      invariant 0 <= i <= |commands|
      invariant forall j :: 0 <= j < i ==> !Contains(commands[j].filename, GucTablesPath)
    {
      if Contains(commands[i].filename, GucTablesPath) {
        return Some(i);
      }
      i := i + 1;
    }
    k := None;
  }

  /** The search loop of read_guc_tables as written: when no file name
      matches, the loop ends with `command` holding the last command
      fetched, which is then analysed as if it were guc_tables.c; with no
      commands at all `command` is uninitialised (None here). */
  method FindConfigCommandAsWritten(commands: seq<CompileCommand>) returns (k: Option<nat>)
    ensures var found := ConfigCommandIndex(commands);
            k == if found.Some? || commands == [] then found else Some(|commands| - 1)
  {
    k := None;
    var i := 0;
    while i < |commands|
      invariant 0 <= i <= |commands|
      invariant forall j :: 0 <= j < i ==> !Contains(commands[j].filename, GucTablesPath)
      invariant k == if i == 0 then None else Some(i - 1)
    {
      k := Some(i);
      if Contains(commands[i].filename, GucTablesPath) {
        return;
      }
      i := i + 1;
    }
  }

  /** A database of one extension file, without guc_tables.c: the search
      as written settles on that file, the corrected one reports it missing. */
  method ExtensionDatabaseUsesItsOnlyFile() returns (asWritten: Option<nat>, corrected: Option<nat>)
    ensures asWritten == Some(0)
    ensures corrected == None
  {
    var c := CompileCommand("/ext/pg_foo.c", ["cc", "-c", "pg_foo.c"], Some("/ext/pg_foo.c"), true, true, Some([]));
    asWritten := FindConfigCommandAsWritten([c]);
    corrected := FindConfigCommand([c]);
  }

  /** The command read_guc_tables analyses can be given to analyze. */
  predicate ConfigExtractable(commands: seq<CompileCommand>)
  {
    match ConfigCommandIndex(commands)
    case None => true
    case Some(k) => WellFormed(commands[k]) && (commands[k].unit.Some? ==> UnitOk(commands[k].unit.value))
  }

  /** The names read_guc_tables collects, or None when it fails: the table
      could not be allocated, guc_tables.c is not in the database, it could
      not be analysed, or it has more names than the table and the table
      could not grow. */
  function TablesRead(commands: seq<CompileCommand>, includes: seq<string>, excludes: seq<Option<string>>,
                      initOk: bool, reallocOk: bool): Option<seq<string>>
  {
    match ConfigCommandIndex(commands)
    case None => None
    case Some(k) =>
      if !initOk then None
      else match Prelude(commands[k], true, includes, excludes)
        case Parsed(tu) =>
          if UnitOk(tu) && (reallocOk || |GucNames(tu)| <= GucTablesCapacity) then Some(GucNames(tu)) else None
        case _ => None
  }

  /** read_guc_tables: the 512-slot `gucs`, the search, then the forced
      analysis with visit_guc_tables. */
  method ReadGucTables(commands: seq<CompileCommand>, includes: seq<string>, excludes: seq<Option<string>>,
                       gucs: Vector<string>, initOk: bool, reallocOk: bool)
    returns (ok: bool)
    requires ConfigExtractable(commands)
    modifies gucs
    ensures gucs.Valid()
    ensures ok <==> TablesRead(commands, includes, excludes, initOk, reallocOk).Some?
    ensures ok ==> gucs.Items() == TablesRead(commands, includes, excludes, initOk, reallocOk).value
  {
    var initialised := gucs.Init(GucTablesCapacity, initOk);
    var k := FindConfigCommand(commands);
    if !initialised || k.None? {
      return false;
    }
    var rc := AnalyzeGucFile(commands[k.value], includes, excludes, gucs, reallocOk);
    ok := rc == 0;
  }

  /** What `main` keeps across files: the last `rc` and the issue counter. */
  datatype Tally = Tally(rc: int, issues: nat)

  /** The per-file loops of `main` over `targets`: each is the compile
      command found for a file, or None when the database has none (a hard
      failure). `rc` is overwritten by every file, and the loop stops early
      only in fail-fast mode with `rc` nonzero. */
  function Visit(targets: seq<Option<CompileCommand>>, includes: seq<string>, excludes: seq<Option<string>>,
                 gucs: seq<string>, failFast: bool, t: Tally): Tally
    decreases |targets|
  {
    if targets == [] then t
    else match targets[0]
      case None => Tally(1, t.issues)
      case Some(c) =>
        var s := Prelude(c, false, includes, excludes);
        var next := Tally(CheckRc(s), t.issues + CheckIssues(s, gucs, failFast));
        if failFast && next.rc != 0 then next else Visit(targets[1..], includes, excludes, gucs, failFast, next)
  }

  /** Every command of the database, in order. */
  function AsTargets(commands: seq<CompileCommand>): seq<Option<CompileCommand>>
  {
    seq(|commands|, i requires 0 <= i < |commands| => Some(commands[i]))
  }

  /** The compile commands libclang answers for the files named on the
      command line (the first of each). */
  datatype Database = Database(commands: seq<CompileCommand>, byFile: map<string, CompileCommand>)

  predicate DatabaseWellFormed(db: Database)
  {
    (forall i :: 0 <= i < |db.commands| ==> WellFormed(db.commands[i]))
    && (forall f :: f in db.byFile ==> WellFormed(db.byFile[f]))
  }

  function FileTargets(db: Database, files: seq<string>): seq<Option<CompileCommand>>
  {
    seq(|files|, i requires 0 <= i < |files| => if files[i] in db.byFile then Some(db.byFile[files[i]]) else None)
  }

  /** The loop of `main` over every compile command. */
  method AnalyzeAllCommands(commands: seq<CompileCommand>, includes: seq<string>, excludes: seq<Option<string>>,
                            gucs: seq<string>, failFast: bool)
    returns (rc: int, issues: nat)
    requires forall i :: 0 <= i < |commands| ==> WellFormed(commands[i])
    ensures Tally(rc, issues) == Visit(AsTargets(commands), includes, excludes, gucs, failFast, Tally(0, 0))
  {
    ghost var targets := AsTargets(commands);
    rc, issues := 0, 0;
    var i := 0;
    while i < |commands|
      invariant 0 <= i <= |commands|
      invariant Visit(targets[i..], includes, excludes, gucs, failFast, Tally(rc, issues))
                == Visit(targets, includes, excludes, gucs, failFast, Tally(0, 0))
    {
      assert targets[i..][0] == Some(commands[i]) && targets[i..][1..] == targets[i + 1..];
      rc, issues := AnalyzeFile(commands[i], includes, excludes, gucs, failFast, issues);
      if failFast && rc != 0 {
        return;
      }
      i := i + 1;
    }
    assert targets[i..] == [];
  }

  /** The loop of `main` over the files named on the command line; a file
      the database does not know ends the run with `rc` 1. */
  method AnalyzeFiles(db: Database, files: seq<string>, includes: seq<string>, excludes: seq<Option<string>>,
                      gucs: seq<string>, failFast: bool)
    returns (rc: int, issues: nat)
    requires DatabaseWellFormed(db)
    ensures Tally(rc, issues) == Visit(FileTargets(db, files), includes, excludes, gucs, failFast, Tally(0, 0))
  {
    ghost var targets := FileTargets(db, files);
    rc, issues := 0, 0;
    var i := 0;
    while i < |files|
      invariant 0 <= i <= |files|
      invariant Visit(targets[i..], includes, excludes, gucs, failFast, Tally(rc, issues))
                == Visit(targets, includes, excludes, gucs, failFast, Tally(0, 0))
    {
      assert targets[i..][0] == targets[i] && targets[i..][1..] == targets[i + 1..];
      if files[i] !in db.byFile {
        // The database has no command for this file.
        return 1, issues;
      }
      rc, issues := AnalyzeFile(db.byFile[files[i]], includes, excludes, gucs, failFast, issues);
      if failFast && rc != 0 {
        return;
      }
      i := i + 1;
    }
    assert targets[i..] == [];
  }

  /** The exit status of `main`: the last `rc` when it is nonzero, otherwise
      whether any issue was counted. */
  function ExitStatus(t: Tally): (status: int)
    ensures status == 0 <==> t.rc == 0 && t.issues == 0
    ensures t.rc != 0 ==> status == t.rc
    ensures t.rc == 0 ==> status == (if t.issues != 0 then 1 else 0)
  {
    if t.rc != 0 then t.rc else if t.issues != 0 then 1 else 0
  }

  /** `main` from the normalisation on, with the option parsing, the path
      resolution and the loading of the database (`dbOk`) done. */
  function RunStatus(db: Database, files: seq<string>, includes: seq<string>, excludes: seq<Option<string>>,
                     failFast: bool, dbOk: bool, initOk: bool, reallocOk: bool): int
  {
    var normalized := Normalized(includes, excludes);
    if !dbOk then 1
    else match TablesRead(db.commands, includes, normalized, initOk, reallocOk)
      case None => 1
      case Some(gucs) =>
        var targets := if |files| > 0 then FileTargets(db, files) else AsTargets(db.commands);
        ExitStatus(Visit(targets, includes, normalized, gucs, failFast, Tally(0, 0)))
  }

  /** `main` after option parsing: normalise the excludes in place, load the
      database, read the GUC tables, then analyse the named files or every
      command. */
  method Run(db: Database, files: seq<string>, includes: seq<string>, excludes: Vector<Option<string>>,
             gucs: Vector<string>, failFast: bool, dbOk: bool, initOk: bool, reallocOk: bool)
    returns (status: int)
    requires DatabaseWellFormed(db) && ConfigExtractable(db.commands)
    requires excludes.Valid()
    modifies excludes.data, gucs
    ensures excludes.Items() == Normalized(includes, old(excludes.Items()))
    ensures status == RunStatus(db, files, includes, old(excludes.Items()), failFast, dbOk, initOk, reallocOk)
  {
    NormalizeExcludes(includes, excludes);
    var normalized := excludes.Items();
    if !dbOk {
      return 1;
    }
    var read := ReadGucTables(db.commands, includes, normalized, gucs, initOk, reallocOk);
    if !read {
      return 1;
    }
    var rc, issues;
    if |files| > 0 {
      rc, issues := AnalyzeFiles(db, files, includes, normalized, gucs.Items(), failFast);
    } else {
      rc, issues := AnalyzeAllCommands(db.commands, includes, normalized, gucs.Items(), failFast);
    }
    status := ExitStatus(Tally(rc, issues));
  }

  /** The two options that decide how far a run goes: `-1` and `-q`. */
  datatype Flag = FailFastFlag | QuietFlag

  /** The getopt loop of `main`, as far as these two options go: `-q` sets
      both `quiet` and `fail_fast`. */
  method ParseFlags(flags: seq<Flag>) returns (failFast: bool, quiet: bool)
    ensures quiet <==> QuietFlag in flags
    ensures failFast <==> FailFastFlag in flags || QuietFlag in flags
  {
    failFast, quiet := false, false;
    var i := 0;
    while i < |flags|
      invariant 0 <= i <= |flags|
      invariant quiet <==> QuietFlag in flags[..i]
      invariant failFast <==> FailFastFlag in flags[..i] || QuietFlag in flags[..i]
    {
      assert flags[..i + 1] == flags[..i] + [flags[i]];
      match flags[i] {
        case FailFastFlag =>
          failFast := true;
        case QuietFlag =>
          quiet := true;
          failFast := true;
      }
      i := i + 1;
    }
    assert flags[..i] == flags;
  }

  /** The issues of every target that was parsed. */
  function TotalIssues(targets: seq<Option<CompileCommand>>, includes: seq<string>, excludes: seq<Option<string>>,
                       gucs: seq<string>, failFast: bool): nat
  {
    if targets == [] then 0
    else (if targets[0].Some? then CheckIssues(Prelude(targets[0].value, false, includes, excludes), gucs, failFast) else 0)
         + TotalIssues(targets[1..], includes, excludes, gucs, failFast)
  }

  /** A target `analyze` returns 0 for: found in the database, resolved,
      and either filtered out or parsed. */
  predicate Succeeds(target: Option<CompileCommand>, includes: seq<string>, excludes: seq<Option<string>>)
  {
    target.Some? && CheckRc(Prelude(target.value, false, includes, excludes)) == 0
  }

  /** Without tool errors every file is analysed, in fail-fast mode too: the
      checker's issues never make `rc` nonzero, so `-1` stops the walk of a
      file but not the loop over files. */
  lemma {:induction false} WithoutToolErrorsEveryFileIsVisited(targets: seq<Option<CompileCommand>>, includes: seq<string>,
                                                       excludes: seq<Option<string>>, gucs: seq<string>,
                                                       failFast: bool, t: Tally)
    requires forall i :: 0 <= i < |targets| ==> Succeeds(targets[i], includes, excludes)
    ensures Visit(targets, includes, excludes, gucs, failFast, t)
            == Tally(if targets == [] then t.rc else 0, t.issues + TotalIssues(targets, includes, excludes, gucs, failFast))
  {
    if targets != [] {
      var s := Prelude(targets[0].value, false, includes, excludes);
      var next := Tally(0, t.issues + CheckIssues(s, gucs, failFast));
      assert forall i :: 0 <= i < |targets[1..]| ==> targets[1..][i] == targets[i + 1];
      WithoutToolErrorsEveryFileIsVisited(targets[1..], includes, excludes, gucs, failFast, next);
    }
  }

  /** Without fail-fast, `rc` is that of the last file: a failure on an
      earlier file is overwritten by a later success and does not show in
      the exit status unless issues were counted. */
  lemma {:induction false} LastFileDecidesRc(targets: seq<Option<CompileCommand>>, includes: seq<string>,
                                             excludes: seq<Option<string>>, gucs: seq<string>, t: Tally)
    requires targets != [] && forall i :: 0 <= i < |targets| ==> targets[i].Some?
    ensures Visit(targets, includes, excludes, gucs, false, t).rc
            == CheckRc(Prelude(targets[|targets| - 1].value, false, includes, excludes))
  {
    if |targets| > 1 {
      var s := Prelude(targets[0].value, false, includes, excludes);
      var next := Tally(CheckRc(s), t.issues + CheckIssues(s, gucs, false));
      assert forall i :: 0 <= i < |targets[1..]| ==> targets[1..][i] == targets[i + 1];
      LastFileDecidesRc(targets[1..], includes, excludes, gucs, next);
    }
  }

  /** In fail-fast mode the run ends with a nonzero `rc` exactly when some
      file fails: the loop stops at the first one. */
  lemma {:induction false} FailFastRcReportsAnyFailure(targets: seq<Option<CompileCommand>>, includes: seq<string>,
                                                       excludes: seq<Option<string>>, gucs: seq<string>, t: Tally)
    requires t.rc == 0
    ensures Visit(targets, includes, excludes, gucs, true, t).rc != 0
            <==> exists i :: 0 <= i < |targets| && !Succeeds(targets[i], includes, excludes)
  {
    if targets != [] {
      if Succeeds(targets[0], includes, excludes) {
        var s := Prelude(targets[0].value, false, includes, excludes);
        var next := Tally(0, t.issues + CheckIssues(s, gucs, true));
        FailFastRcReportsAnyFailure(targets[1..], includes, excludes, gucs, next);
        if exists i :: 0 <= i < |targets| && !Succeeds(targets[i], includes, excludes) {
          var i :| 0 <= i < |targets| && !Succeeds(targets[i], includes, excludes);
          assert i > 0 && targets[1..][i - 1] == targets[i];
        }
        if exists i :: 0 <= i < |targets[1..]| && !Succeeds(targets[1..][i], includes, excludes) {
          var i :| 0 <= i < |targets[1..]| && !Succeeds(targets[1..][i], includes, excludes);
          assert targets[1..][i] == targets[i + 1];
        }
      } else {
        assert !Succeeds(targets[0], includes, excludes);
      }
    }
  }

  /** The counter never goes down. */
  lemma {:induction false} IssuesNeverDecrease(targets: seq<Option<CompileCommand>>, includes: seq<string>,
                                               excludes: seq<Option<string>>, gucs: seq<string>,
                                               failFast: bool, t: Tally)
    ensures Visit(targets, includes, excludes, gucs, failFast, t).issues >= t.issues
  {
    if targets != [] && targets[0].Some? {
      var s := Prelude(targets[0].value, false, includes, excludes);
      var next := Tally(CheckRc(s), t.issues + CheckIssues(s, gucs, failFast));
      IssuesNeverDecrease(targets[1..], includes, excludes, gucs, failFast, next);
    }
  }

  /** A file with an issue makes the exit status nonzero, with or without
      fail-fast: either the loop reaches it and the counter becomes
      positive, or it stops before it with a nonzero `rc`. */
  lemma {:induction false} IssueMakesStatusNonzero(targets: seq<Option<CompileCommand>>, includes: seq<string>,
                                                   excludes: seq<Option<string>>, gucs: seq<string>,
                                                   failFast: bool, t: Tally, k: nat)
    requires k < |targets| && targets[k].Some?
    requires CheckIssues(Prelude(targets[k].value, false, includes, excludes), gucs, failFast) > 0
    ensures ExitStatus(Visit(targets, includes, excludes, gucs, failFast, t)) != 0
  {
    if targets[0].Some? {
      var s := Prelude(targets[0].value, false, includes, excludes);
      var next := Tally(CheckRc(s), t.issues + CheckIssues(s, gucs, failFast));
      if !(failFast && next.rc != 0) {
        if k == 0 {
          IssuesNeverDecrease(targets[1..], includes, excludes, gucs, failFast, next);
        } else {
          assert targets[1..][k - 1] == targets[k];
          IssueMakesStatusNonzero(targets[1..], includes, excludes, gucs, failFast, next, k - 1);
        }
      }
    }
  }

  /** A variable registered in one of the GUC tables of guc_tables.c is
      exempt: a declaration of that name adds no issue in any file. */
  lemma RegisteredVariableIsExempt(tu: seq<Decl>, k: nat, c: nat, r: nat, name: string,
                                   d: Decl, failFast: bool)
    requires UnitOk(tu)
    requires k < |tu| && tu[k].VarDecl? && IsGucTable(tu[k].name)
    requires c < |tu[k].children| && tu[k].children[c].InitListExpr?
    requires r < |tu[k].children[c].elements|
    requires var rec := tu[k].children[c].elements[r];
             var want := FieldIndex(tu[k].elementFields);
             rec.InitListExpr? && want < |rec.elements| && rec.elements[want] == UnaryOperator(DeclRefExpr(name))
    requires d.VarDecl? && d.name == name
    ensures DeclIssues(d, GucNames(tu), failFast) == 0
  {
    RegisteredVariableIsExtracted(tu, k, c, r, name);
  }

  /** A run where the tables are read, every file succeeds and no file has
      an issue exits with status 0. */
  lemma CleanRunExitsZero(db: Database, files: seq<string>, includes: seq<string>, excludes: seq<Option<string>>,
                          failFast: bool, initOk: bool, reallocOk: bool)
    requires TablesRead(db.commands, includes, Normalized(includes, excludes), initOk, reallocOk).Some?
    requires var targets := if |files| > 0 then FileTargets(db, files) else AsTargets(db.commands);
             var normalized := Normalized(includes, excludes);
             var gucs := TablesRead(db.commands, includes, normalized, initOk, reallocOk).value;
             forall i :: 0 <= i < |targets| ==>
               Succeeds(targets[i], includes, normalized)
               && CheckIssues(Prelude(targets[i].value, false, includes, normalized), gucs, failFast) == 0
    ensures RunStatus(db, files, includes, excludes, failFast, true, initOk, reallocOk) == 0
  {
    var targets := if |files| > 0 then FileTargets(db, files) else AsTargets(db.commands);
    var normalized := Normalized(includes, excludes);
    var gucs := TablesRead(db.commands, includes, normalized, initOk, reallocOk).value;
    WithoutToolErrorsEveryFileIsVisited(targets, includes, normalized, gucs, failFast, Tally(0, 0));
    NoIssuesTotalZero(targets, includes, normalized, gucs, failFast);
  }

  lemma {:induction false} NoIssuesTotalZero(targets: seq<Option<CompileCommand>>, includes: seq<string>,
                                             excludes: seq<Option<string>>, gucs: seq<string>, failFast: bool)
    requires forall i :: 0 <= i < |targets| && targets[i].Some? ==>
               CheckIssues(Prelude(targets[i].value, false, includes, excludes), gucs, failFast) == 0
    ensures TotalIssues(targets, includes, excludes, gucs, failFast) == 0
  {
    if targets != [] {
      assert forall i :: 0 <= i < |targets[1..]| ==> targets[1..][i] == targets[i + 1];
      NoIssuesTotalZero(targets[1..], includes, excludes, gucs, failFast);
    }
  }
}
