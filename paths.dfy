/** Path scoping in pgguclifetimes.c: the include/exclude normalisation in
    `main`, which drops every exclude that is a prefix of an include, and the
    per-file filter at the start of `analyze`. Paths are already-resolved
    strings and every test is on plain character prefixes. The excludes live
    in a `struct vector` whose slots are set to NULL (`None`) in place. */
module Paths {
  import opened Base
  import opened Vectors

  /** Some include begins with `exclude`, equality included
      (`exclude_len <= include_len` and strncmp over `exclude_len`). */
  predicate Covered(includes: seq<string>, exclude: string)
  {
    exists i :: 0 <= i < |includes| && StartsWith(includes[i], exclude)
  }

  /** One exclude slot after normalisation. */
  function NormalizedSlot(includes: seq<string>, exclude: Option<string>): Option<string>
  {
    if exclude.Some? && Covered(includes, exclude.value) then None else exclude
  }

  /** The excludes after normalisation against `includes`. */
  function Normalized(includes: seq<string>, excludes: seq<Option<string>>): (r: seq<Option<string>>)
    ensures |r| == |excludes|
    ensures forall j :: 0 <= j < |r| ==>
              (r[j] == None <==> excludes[j] == None || Covered(includes, excludes[j].value))
    ensures forall j :: 0 <= j < |r| && r[j] != None ==> r[j] == excludes[j]
    ensures forall j, i :: 0 <= j < |r| && 0 <= i < |includes| && r[j].Some? ==> !StartsWith(includes[i], r[j].value)
  {
    seq(|excludes|, j requires 0 <= j < |excludes| => NormalizedSlot(includes, excludes[j]))
  }

  /** The prefix test of the normalisation, as the source writes it. */
  predicate ExcludeCoversInclude(exclude: string, includePath: string)
    ensures ExcludeCoversInclude(exclude, includePath) <==> StartsWith(includePath, exclude)
  {
    |exclude| <= |includePath| && exclude == includePath[..|exclude|]
  }

  lemma CoveredStep(includes: seq<string>, i: nat, exclude: string)
    requires i < |includes|
    ensures Covered(includes[..i + 1], exclude) <==> Covered(includes[..i], exclude) || StartsWith(includes[i], exclude)
  {
    if Covered(includes[..i + 1], exclude) && !StartsWith(includes[i], exclude) {
      var k :| 0 <= k < i + 1 && StartsWith(includes[..i + 1][k], exclude);
      assert k < i && includes[..i][k] == includes[k];
    }
    if Covered(includes[..i], exclude) {
      var k :| 0 <= k < i && StartsWith(includes[..i][k], exclude);
      assert includes[..i + 1][k] == includes[k];
    }
    if StartsWith(includes[i], exclude) {
      assert includes[..i + 1][i] == includes[i];
    }
  }

  /** The normalisation loops of `main`, with a NULL slot passed over: for
      every include, every exclude that is a prefix of it is freed and its
      slot set to NULL. The includes are only read. */
  method NormalizeExcludes(includes: seq<string>, excludes: Vector<Option<string>>)
    requires excludes.Valid()
    modifies excludes.data
    ensures excludes.Valid()
    ensures excludes.Items() == Normalized(includes, old(excludes.Items()))
  {
    ghost var before := excludes.Items();
    var i := 0;
    while i < |includes|
      invariant 0 <= i <= |includes|
      invariant excludes.Valid() && |before| == excludes.len
      invariant excludes.Items() == Normalized(includes[..i], before)
    {
      var includePath := includes[i];
      var j := 0;
      while j < excludes.len
        invariant 0 <= j <= excludes.len
        invariant excludes.Valid() && |before| == excludes.len
        invariant forall k :: 0 <= k < j ==> excludes.data[k] == NormalizedSlot(includes[..i + 1], before[k])
        invariant forall k :: j <= k < excludes.len ==> excludes.data[k] == NormalizedSlot(includes[..i], before[k])
      {
        var exclude := excludes.data[j];
        if before[j].Some? {
          CoveredStep(includes, i, before[j].value);
        }
        if exclude.Some? && ExcludeCoversInclude(exclude.value, includePath) {
          excludes.data[j] := None;
        }
        j := j + 1;
      }
      i := i + 1;
      assert excludes.Items() == Normalized(includes[..i], before);
    }
    assert includes[..i] == includes;
  }

  /** The normalisation as written reads `strlen(exclude)` of every slot,
      including one an earlier include has already set to NULL. It crashes
      exactly when some exclude is covered by an include other than the
      last one. */
  predicate NormalizeCrashes(includes: seq<string>, excludes: seq<Option<string>>)
  {
    |includes| > 0 &&
    exists j :: 0 <= j < |excludes| && excludes[j].Some? && Covered(includes[..|includes| - 1], excludes[j].value)
  }

  /** The normalisation loops of `main` as written: `crashed` is the
      dereference of a NULL slot. When it does not crash it computes what
      NormalizeExcludes computes. */
  method NormalizeExcludesAsWritten(includes: seq<string>, excludes: Vector<Option<string>>)
    returns (crashed: bool)
    requires excludes.Valid()
    requires forall j :: 0 <= j < excludes.len ==> excludes.data[j].Some?
    modifies excludes.data
    ensures excludes.Valid()
    ensures crashed <==> NormalizeCrashes(includes, old(excludes.Items()))
    ensures !crashed ==> excludes.Items() == Normalized(includes, old(excludes.Items()))
  {
    ghost var before := excludes.Items();
    crashed := false;
    var i := 0;
    while i < |includes|
      invariant 0 <= i <= |includes|
      invariant excludes.Valid() && |before| == excludes.len
      invariant forall j :: 0 <= j < |before| ==> before[j].Some?
      invariant excludes.Items() == Normalized(includes[..i], before)
      invariant !NormalizeCrashes(includes[..i], before)
    {
      var includePath := includes[i];
      var j := 0;
      while j < excludes.len
        invariant 0 <= j <= excludes.len
        invariant excludes.Valid() && |before| == excludes.len
        invariant forall k :: 0 <= k < j ==> excludes.data[k] == NormalizedSlot(includes[..i + 1], before[k])
        invariant forall k :: 0 <= k < j ==> !Covered(includes[..i], before[k].value)
        invariant forall k :: j <= k < excludes.len ==> excludes.data[k] == NormalizedSlot(includes[..i], before[k])
      {
        var exclude := excludes.data[j];
        if exclude.None? {
          // The source takes the length of this NULL slot.
          assert Covered(includes[..i], before[j].value);
          assert includes[..i + 1][..i] == includes[..i];
          assert NormalizeCrashes(includes[..i + 1], before);
          CrashesExtend(includes, i + 1, before);
          return true;
        }
        CoveredStep(includes, i, exclude.value);
        if ExcludeCoversInclude(exclude.value, includePath) {
          excludes.data[j] := None;
        }
        j := j + 1;
      }
      assert includes[..i + 1][..i] == includes[..i];
      i := i + 1;
      assert excludes.Items() == Normalized(includes[..i], before);
    }
    assert includes[..i] == includes;
  }

  /** A crash on a prefix of the includes is a crash on all of them. */
  lemma CrashesExtend(includes: seq<string>, n: nat, excludes: seq<Option<string>>)
    requires 0 < n <= |includes|
    requires NormalizeCrashes(includes[..n], excludes)
    ensures NormalizeCrashes(includes, excludes)
  {
    var j :| 0 <= j < |excludes| && excludes[j].Some? && Covered(includes[..n][..n - 1], excludes[j].value);
    var i :| 0 <= i < n - 1 && StartsWith(includes[..n][..n - 1][i], excludes[j].value);
    assert includes[..|includes| - 1][i] == includes[i];
  }

  /** The input that shows the crash: two includes and an exclude that is a
      prefix of the first; the second pass reads the NULL slot. */
  lemma TwoIncludesCrashNormalization()
    ensures NormalizeCrashes(["/src/a", "/src/b"], [Some("/src")])
  {
    var includes := ["/src/a", "/src/b"];
    assert includes[..|includes| - 1] == ["/src/a"];
    assert StartsWith(["/src/a"][0], "/src");
    assert Covered(["/src/a"], "/src");
    assert [Some("/src")][0].Some?;
  }

  /** The filter of `analyze`: a file is analysed only if its path begins
      with every include and with no non-NULL exclude. */
  predicate Selected(path: string, includes: seq<string>, excludes: seq<Option<string>>)
  {
    (forall i :: 0 <= i < |includes| ==> StartsWith(path, includes[i]))
    && (forall j :: 0 <= j < |excludes| && excludes[j].Some? ==> !StartsWith(path, excludes[j].value))
  }

  /** The two loops at the start of `analyze` with `force` false: the first
      include the path does not begin with, or the first exclude it does,
      sends the file to `out` unanalysed. */
  method InScope(path: string, includes: seq<string>, excludes: seq<Option<string>>) returns (selected: bool)
    ensures selected <==> Selected(path, includes, excludes)
  {
    var i := 0;
    while i < |includes|
      invariant 0 <= i <= |includes|
      invariant forall k :: 0 <= k < i ==> StartsWith(path, includes[k])
    {
      if !StartsWith(path, includes[i]) {
        return false;
      }
      i := i + 1;
    }
    var j := 0;
    while j < |excludes|
      invariant 0 <= j <= |excludes|
      invariant forall k :: 0 <= k < j && excludes[k].Some? ==> !StartsWith(path, excludes[k].value)
    {
      if excludes[j].Some? && StartsWith(path, excludes[j].value) {
        return false;
      }
      j := j + 1;
    }
    selected := true;
  }

  /** Normalisation only ever widens the scope: a file selected before it is
      selected after it. */
  lemma NormalizationWidensScope(path: string, includes: seq<string>, excludes: seq<Option<string>>)
    requires Selected(path, includes, excludes)
    ensures Selected(path, includes, Normalized(includes, excludes))
  {
  }

  /** What normalisation buys: an exclude it removes would have hidden every
      file under the include that covers it. */
  lemma RemovedExcludeHidesIncludedFiles(path: string, includes: seq<string>,
                                         excludes: seq<Option<string>>, j: nat)
    requires j < |excludes| && excludes[j].Some? && Normalized(includes, excludes)[j] == None
    requires forall i :: 0 <= i < |includes| ==> StartsWith(path, includes[i])
    ensures !Selected(path, includes, excludes)
  {
    var i :| 0 <= i < |includes| && StartsWith(includes[i], excludes[j].value);
    assert excludes[j].value <= includes[i] <= path;
  }

  /** include `/a/b` with exclude `/a`: `/a/b/c` is in scope, `/a/d` is not. */
  lemma IncludeOverridesCoveringExclude()
    ensures Normalized(["/a/b"], [Some("/a")]) == [None]
    ensures Selected("/a/b/c", ["/a/b"], Normalized(["/a/b"], [Some("/a")]))
    ensures !Selected("/a/d", ["/a/b"], Normalized(["/a/b"], [Some("/a")]))
  {
    assert StartsWith(["/a/b"][0], "/a");
    assert !StartsWith("/a/d", "/a/b") by { assert "/a/d"[3] != "/a/b"[3]; }
  }
}
