/** The compiler arguments handed to libclang (ignore_arg, copy_args): the
    compile command's arguments without the last one, which is the
    database's relative path of the file, and without warning flags. */
module CompileArgs {
  import opened Base
  import opened Vectors

  /** ignore_arg: `strstr(arg, "-W") == arg`, the first occurrence of `-W`
      is at the very start. */
  predicate IgnoreArg(arg: string)
    ensures IgnoreArg(arg) <==> StartsWith(arg, "-W")
  {
    |arg| >= 2 && arg[0] == '-' && arg[1] == 'W'
  }

  /** The arguments that are kept, in their original order. */
  function Kept(args: seq<string>): (r: seq<string>)
    ensures |r| <= |args|
    ensures forall a :: a in r ==> a in args && !IgnoreArg(a)
    ensures forall a :: a in args && !IgnoreArg(a) ==> a in r
  {
    if args == [] then []
    else (if IgnoreArg(args[0]) then [] else [args[0]]) + Kept(args[1..])
  }

  /** Filtering commutes with concatenation, so the kept arguments keep the
      order they had. */
  lemma {:induction false} KeptConcat(a: seq<string>, b: seq<string>)
    ensures Kept(a + b) == Kept(a) + Kept(b)
  {
    if a == [] {
      assert a + b == b;
    } else {
      assert (a + b)[0] == a[0] && (a + b)[1..] == a[1..] + b;
      KeptConcat(a[1..], b);
    }
  }

  /** Filtering one more argument of `args`. */
  lemma KeptStep(args: seq<string>, i: nat)
    requires i < |args|
    ensures Kept(args[..i + 1]) == Kept(args[..i]) + (if IgnoreArg(args[i]) then [] else [args[i]])
  {
    assert args[..i + 1] == args[..i] + [args[i]];
    KeptConcat(args[..i], [args[i]]);
    assert [args[i]][1..] == [];
  }

  /** copy_args: reserve one slot per argument but the last, then append a
      copy of every argument that is not ignored. The reservation is never
      outgrown, so every append succeeds even without reallocation. */
  method CopyArgs(command: seq<string>, args: Vector<string>, allocOk: bool) returns (ok: bool)
    requires |command| >= 2
    modifies args
    ensures ok == allocOk
    ensures args.Valid()
    ensures ok ==> args.cap == |command| - 1 && args.Items() == Kept(command[..|command| - 1])
    ensures !ok ==> args.cap == 0 && args.Items() == []
  {
    var nargs := |command| - 1;
    ok := args.Init(nargs, allocOk);
    if !ok {
      return;
    }
    var i := 0;
    while i < nargs
      invariant 0 <= i <= nargs
      invariant args.Valid() && args.cap == nargs && fresh(args.data)
      invariant args.Items() == Kept(command[..i])
      invariant args.len <= i
    {
      KeptStep(command, i);
      if !IgnoreArg(command[i]) {
        // The reservation covers every argument, so no reallocation is asked for.
        var appended := args.Append(command[i], false);
        assert appended;
      }
      i := i + 1;
    }
    assert command[..nargs] == command[..|command| - 1];
  }
}
