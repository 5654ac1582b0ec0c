/** The declaration checker of pgguclifetimes.c (visit_AnnotateAttr,
    visit_VarDecl, visit_global_variable, visit_translation_unit): every
    top-level variable declaration with global storage in the main file,
    unless it is a GUC registered in guc_tables.c, must use thread-local
    storage and carry one of the accepted lifetime tags. Each shortfall is
    one issue. */
module Checker {
  import opened Cursors

  const PostmasterGuc: string := "postmaster_guc"
  const SessionGuc: string := "session_guc"
  const SighupGuc: string := "sighup_guc"

  /** guc_lifetimes: the only tags the checker accepts. */
  const GucLifetimes: seq<string> := [PostmasterGuc, SessionGuc, SighupGuc]

  /** The strcmp loop of visit_AnnotateAttr over guc_lifetimes. */
  predicate IsLifetimeTag(spelling: string)
  {
    spelling in GucLifetimes
  }

  predicate IsAcceptedAttr(n: Node)
  {
    n.AnnotateAttr? && IsLifetimeTag(n.spelling)
  }

  /** Some annotate attribute among the children carries an accepted tag. */
  predicate HasAcceptedAttr(children: seq<Node>)
  {
    exists k :: 0 <= k < |children| && IsAcceptedAttr(children[k])
  }

  /** The declaration is looked at: a variable declaration in the main file,
      with global storage, whose name is not one of the collected GUC names. */
  predicate Checked(d: Decl, gucs: seq<string>)
  {
    d.VarDecl? && d.fromMainFile && d.globalStorage && d.name !in gucs
  }

  /** The issues visit_global_variable adds for one declaration: one for
      storage that is not `__thread`, one for a missing accepted tag. In
      fail-fast mode the first of them already ends the visit. */
  function DeclIssues(d: Decl, gucs: seq<string>, failFast: bool): (n: nat)
    ensures n <= 2
    ensures failFast ==> n <= 1
    ensures !Checked(d, gucs) ==> n == 0
    ensures Checked(d, gucs) && d.tls == TlsStatic && HasAcceptedAttr(d.children) ==> n == 0
  {
    if !Checked(d, gucs) then 0
    else if d.tls != TlsStatic && failFast then 1
    else (if d.tls != TlsStatic then 1 else 0) + (if HasAcceptedAttr(d.children) then 0 else 1)
  }

  /** visit_global_variable returns CXChildVisit_Break: fail-fast mode and the
      declaration is checked and ends up not annotated. */
  predicate StopsWalk(d: Decl, gucs: seq<string>, failFast: bool)
  {
    failFast && Checked(d, gucs) && (d.tls != TlsStatic || !HasAcceptedAttr(d.children))
  }

  /** The issues one walk of a translation unit adds: declarations are
      visited in order until one of them stops the walk. */
  function FileIssues(tu: seq<Decl>, gucs: seq<string>, failFast: bool): nat
  {
    if tu == [] then 0
    else DeclIssues(tu[0], gucs, failFast)
         + (if StopsWalk(tu[0], gucs, failFast) then 0 else FileIssues(tu[1..], gucs, failFast))
  }

  /** The issues of every declaration, none skipped. */
  function AllIssues(tu: seq<Decl>, gucs: seq<string>): nat
  {
    if tu == [] then 0 else DeclIssues(tu[0], gucs, false) + AllIssues(tu[1..], gucs)
  }

  /** clang_visitChildren(cursor, visit_VarDecl, ctx): the children are
      visited in order; each annotate attribute sets `annotated` to whether
      its spelling is an accepted tag (visit_AnnotateAttr), and the first
      accepted one ends the walk. */
  method ScanAnnotations(children: seq<Node>) returns (annotated: bool)
    ensures annotated <==> HasAcceptedAttr(children)
  {
    // With static TLS and no annotate attribute at all the source reads
    // `annotated` uninitialised; false is the evident intent.
    annotated := false;
    var i := 0;
    while i < |children|
      invariant 0 <= i <= |children|
      invariant !annotated
      invariant forall k :: 0 <= k < i ==> !IsAcceptedAttr(children[k])
    {
      if children[i].AnnotateAttr? {
        annotated := IsLifetimeTag(children[i].spelling);
        if annotated {
          assert IsAcceptedAttr(children[i]);
          return;
        }
      }
      i := i + 1;
    }
  }

  /** visit_global_variable: the early returns for declarations outside the
      main file, without global storage, or named in `gucs` (a strcmp loop),
      then the TLS check and the annotation scan. */
  method VisitGlobalVariable(d: Decl, gucs: seq<string>, failFast: bool, issues: nat)
    returns (issuesOut: nat, result: VisitResult)
    requires d.VarDecl?
    ensures issuesOut == issues + DeclIssues(d, gucs, failFast)
    ensures result == Break <==> StopsWalk(d, gucs, failFast)
  {
    if !d.fromMainFile {
      return issues, Continue;
    }
    if !d.globalStorage {
      return issues, Continue;
    }
    var i := 0;
    while i < |gucs|
      invariant 0 <= i <= |gucs|
      invariant forall k :: 0 <= k < i ==> gucs[k] != d.name
    {
      if gucs[i] == d.name {
        return issues, Continue;
      }
      i := i + 1;
    }

    issuesOut := issues;
    var annotated := false;
    if d.tls != TlsStatic {
      // Reported: the variable is not thread-local.
      issuesOut := issuesOut + 1;
      if failFast {
        return issuesOut, Break;
      }
    }
    annotated := ScanAnnotations(d.children);
    if !annotated {
      // Reported: no accepted lifetime tag.
      issuesOut := issuesOut + 1;
    }
    result := if failFast && !annotated then Break else Continue;
  }

  /** clang_visitChildren(tu, visit_translation_unit, ctx): the top-level
      cursors in order; variable declarations go to visit_global_variable,
      every other cursor is passed over. `broke` is clang_visitChildren's
      result: the walk was ended by a Break. */
  method VisitTranslationUnit(tu: seq<Decl>, gucs: seq<string>, failFast: bool, issues: nat)
    returns (issuesOut: nat, broke: bool)
    ensures issuesOut == issues + FileIssues(tu, gucs, failFast)
    ensures broke <==> exists k :: 0 <= k < |tu| && StopsWalk(tu[k], gucs, failFast)
  {
    issuesOut := issues;
    broke := false;
    var i := 0;
    while i < |tu|
      invariant 0 <= i <= |tu|
      invariant forall k :: 0 <= k < i ==> !StopsWalk(tu[k], gucs, failFast)
      invariant issuesOut + FileIssues(tu[i..], gucs, failFast) == issues + FileIssues(tu, gucs, failFast)
    {
      assert tu[i..][0] == tu[i] && tu[i..][1..] == tu[i + 1..];
      if tu[i].VarDecl? {
        var result;
        issuesOut, result := VisitGlobalVariable(tu[i], gucs, failFast, issuesOut);
        if result == Break {
          broke := true;
          return;
        }
      }
      i := i + 1;
    }
  }

  /** In fail-fast mode a file contributes exactly one issue if some checked
      declaration is unannotated or not thread-local, and none otherwise. */
  lemma {:induction false} FailFastFileIssues(tu: seq<Decl>, gucs: seq<string>)
    ensures FileIssues(tu, gucs, true)
            == if exists k :: 0 <= k < |tu| && StopsWalk(tu[k], gucs, true) then 1 else 0
  {
    if tu != [] {
      FailFastFileIssues(tu[1..], gucs);
      if !StopsWalk(tu[0], gucs, true) {
        assert forall k :: 1 <= k < |tu| ==> tu[k] == tu[1..][k - 1];
        assert (exists k :: 0 <= k < |tu| && StopsWalk(tu[k], gucs, true))
               == (exists k :: 0 <= k < |tu[1..]| && StopsWalk(tu[1..][k], gucs, true));
      }
    }
  }

  /** Without fail-fast nothing stops the walk: every declaration is
      visited and contributes its issues. */
  lemma {:induction false} NoFailFastVisitsAll(tu: seq<Decl>, gucs: seq<string>)
    ensures FileIssues(tu, gucs, false) == AllIssues(tu, gucs)
    ensures forall k :: 0 <= k < |tu| ==> !StopsWalk(tu[k], gucs, false)
  {
    if tu != [] {
      NoFailFastVisitsAll(tu[1..], gucs);
    }
  }

  /** A file whose every declaration is exempt, or thread-local and tagged,
      yields no issue in either mode. */
  lemma {:induction false} AnnotatedFileHasNoIssues(tu: seq<Decl>, gucs: seq<string>, failFast: bool)
    requires forall k :: 0 <= k < |tu| ==>
               !Checked(tu[k], gucs) || (tu[k].tls == TlsStatic && HasAcceptedAttr(tu[k].children))
    ensures FileIssues(tu, gucs, failFast) == 0
  {
    if tu != [] {
      assert forall k :: 1 <= k < |tu| ==> tu[k] == tu[1..][k - 1];
      AnnotatedFileHasNoIssues(tu[1..], gucs, failFast);
    }
  }

  lemma {:induction false} AllIssuesSplit(tu: seq<Decl>, gucs: seq<string>, n: nat)
    requires n <= |tu|
    ensures AllIssues(tu, gucs) == AllIssues(tu[..n], gucs) + AllIssues(tu[n..], gucs)
  {
    if n > 0 {
      assert tu[..n][1..] == tu[1..][..n - 1];
      assert tu[n..] == tu[1..][n - 1..];
      AllIssuesSplit(tu[1..], gucs, n - 1);
    }
  }

  lemma AllIssuesUnroll3(tu: seq<Decl>, gucs: seq<string>)
    requires |tu| == 3
    ensures AllIssues(tu, gucs) == DeclIssues(tu[0], gucs, false) + DeclIssues(tu[1], gucs, false) + DeclIssues(tu[2], gucs, false)
  {
    var t1, t2 := tu[1..], tu[1..][1..];
    assert t1[0] == tu[1] && t2[0] == tu[2] && t2[1..] == [];
    assert AllIssues(t2, gucs) == DeclIssues(tu[2], gucs, false);
    assert AllIssues(t1, gucs) == DeclIssues(tu[1], gucs, false) + AllIssues(t2, gucs);
  }

  /** The nine declarations of tests/failure/example.c, lines 5-15: plain,
      static and extern globals, each without any tag, with `__thread` but
      no tag, and with a tag but no `__thread` (the tag macros of lines 1-3
      expand to both). */
  const FailureFixture: seq<Decl> := [
    VarDecl("needs_all", true, true, TlsNone, [], []),
    VarDecl("static_needs_all", true, true, TlsNone, [], []),
    VarDecl("extern_needs_all", true, true, TlsNone, [], []),
    VarDecl("needs_annotation", true, true, TlsStatic, [], []),
    VarDecl("static_needs_annotation", true, true, TlsStatic, [], []),
    VarDecl("extern_needs_annotation", true, true, TlsStatic, [], []),
    VarDecl("needs_thread", true, true, TlsNone, [], [AnnotateAttr(PostmasterGuc)]),
    VarDecl("static_needs_thread", true, true, TlsNone, [], [AnnotateAttr(SessionGuc)]),
    VarDecl("extern_needs_thread", true, true, TlsNone, [], [AnnotateAttr(SighupGuc)])
  ]

  /** The issues of each fixture declaration: the three without `__thread`
      or a tag have two and stop a fail-fast walk, the other six have one. */
  lemma FailureFixtureDeclIssues()
    ensures forall k :: 0 <= k < 3 ==> DeclIssues(FailureFixture[k], [], false) == 2 && StopsWalk(FailureFixture[k], [], true)
    ensures forall k :: 3 <= k < 9 ==> DeclIssues(FailureFixture[k], [], false) == 1
  {
    var f := FailureFixture;
    forall k | 0 <= k < 6
      ensures !HasAcceptedAttr(f[k].children)
    {
      assert f[k].children == [];
    }
    forall k | 6 <= k < 9
      ensures HasAcceptedAttr(f[k].children)
    {
      assert IsAcceptedAttr(f[k].children[0]);
    }
  }

  /** Nine declarations with 2, 2, 2 and then six times 1 issue. */
  lemma AllIssuesOfNine(f: seq<Decl>, gucs: seq<string>)
    requires |f| == 9
    requires forall k :: 0 <= k < 3 ==> DeclIssues(f[k], gucs, false) == 2
    requires forall k :: 3 <= k < 9 ==> DeclIssues(f[k], gucs, false) == 1
    ensures AllIssues(f, gucs) == 12
  {
    AllIssuesSplit(f, gucs, 3);
    AllIssuesSplit(f[3..], gucs, 3);
    var a, b, c := f[..3], f[3..][..3], f[3..][3..];
    assert a[0] == f[0] && a[1] == f[1] && a[2] == f[2];
    assert b[0] == f[3] && b[1] == f[4] && b[2] == f[5];
    assert c[0] == f[6] && c[1] == f[7] && c[2] == f[8];
    AllIssuesUnroll3(a, gucs);
    AllIssuesUnroll3(b, gucs);
    AllIssuesUnroll3(c, gucs);
  }

  /** Without fail-fast the fixture yields 2 + 2 + 2 + 1 * 6 issues. */
  lemma FailureFixtureTotal()
    ensures FileIssues(FailureFixture, [], false) == 12
  {
    FailureFixtureDeclIssues();
    NoFailFastVisitsAll(FailureFixture, []);
    AllIssuesOfNine(FailureFixture, []);
  }

  /** Every declaration of the failure fixture is reported at least once:
      the first three twice, the other six once; fail-fast stops at the
      first. */
  lemma FailureFixtureIsReported()
    ensures forall k :: 0 <= k < |FailureFixture| ==> DeclIssues(FailureFixture[k], [], false) >= 1
    ensures FileIssues(FailureFixture, [], false) == 12
    ensures FileIssues(FailureFixture, [], true) == 1
  {
    FailureFixtureDeclIssues();
    FailureFixtureTotal();
    FailFastFileIssues(FailureFixture, []);
    assert StopsWalk(FailureFixture[0], [], true);
  }
}
