/** The GUC-name extractor of pgguclifetimes.c (visit_guc_tables,
    visit_config_type, visit_guc_table, visit_guc, visit_guc_fields,
    visit_initializer): in guc_tables.c, for each of the five
    `ConfigureNames*` arrays, the record field named `variable` holds
    `&some_global`; the names of those globals are appended to `gucs`. */
module GucTables {
  import opened Cursors
  import opened Vectors

  /** guc_tables: the arrays whose records are read. */
  const GucTableNames: seq<string> := [
    "ConfigureNamesBool", "ConfigureNamesEnum", "ConfigureNamesInt",
    "ConfigureNamesReal", "ConfigureNamesString"
  ]

  /** The field of a record that holds the address of the GUC's variable. */
  const VariableField: string := "variable"

  /** The strcmp loop of visit_guc_tables over guc_tables. */
  predicate IsGucTable(name: string)
  {
    name in GucTableNames
  }

  /** The value visit_config_type leaves in `field_index`: the number of
      fields before the first one named `variable` (all of them if none is). */
  function FieldIndex(fields: seq<string>): (index: nat)
    ensures index <= |fields|
    ensures forall k :: 0 <= k < index ==> fields[k] != VariableField
    ensures index < |fields| ==> fields[index] == VariableField
  {
    if fields == [] || fields[0] == VariableField then 0 else 1 + FieldIndex(fields[1..])
  }

  /** visit_initializer does not abort: a unary operator at the field index
      has a declaration reference as its operand. */
  predicate RecordOk(rec: Node, want: nat)
  {
    (rec.InitListExpr? && want < |rec.elements| && rec.elements[want].UnaryOperator?)
      ==> rec.elements[want].operand.DeclRefExpr?
  }

  /** What visit_guc contributes for one element of a table: the referenced
      name when the element is an initializer list whose expression at the
      field index is a unary operator (`&name`); nothing for any other form,
      such as the NULL terminator. */
  function RecordNames(rec: Node, want: nat): seq<string>
    requires RecordOk(rec, want)
  {
    if rec.InitListExpr? && want < |rec.elements| && rec.elements[want].UnaryOperator?
    then [rec.elements[want].operand.name]
    else []
  }

  predicate ListOk(elements: seq<Node>, want: nat)
  {
    forall k :: 0 <= k < |elements| ==> RecordOk(elements[k], want)
  }

  /** The names of the records of one initializer list, in order. */
  function ListNames(elements: seq<Node>, want: nat): seq<string>
    requires ListOk(elements, want)
  {
    if elements == [] then []
    else ListNames(elements[..|elements| - 1], want) + RecordNames(elements[|elements| - 1], want)
  }

  predicate TableOk(children: seq<Node>, want: nat)
  {
    forall k :: 0 <= k < |children| && children[k].InitListExpr? ==> ListOk(children[k].elements, want)
  }

  /** visit_guc_table over the children of a table declaration: only the
      initializer lists count. */
  function TableNames(children: seq<Node>, want: nat): seq<string>
    requires TableOk(children, want)
  {
    if children == [] then []
    else
      var last := children[|children| - 1];
      TableNames(children[..|children| - 1], want)
        + (if last.InitListExpr? then ListNames(last.elements, want) else [])
  }

  predicate DeclOk(d: Decl)
  {
    d.VarDecl? && IsGucTable(d.name) ==> TableOk(d.children, FieldIndex(d.elementFields))
  }

  /** visit_guc_tables for one top-level cursor: one of the five tables
      contributes the names of its records, read at the field index of its
      own element type; any other cursor contributes nothing. */
  function DeclNames(d: Decl): seq<string>
    requires DeclOk(d)
  {
    if d.VarDecl? && IsGucTable(d.name) then TableNames(d.children, FieldIndex(d.elementFields)) else []
  }

  /** The extraction never aborts on this translation unit. */
  predicate UnitOk(tu: seq<Decl>)
  {
    forall k :: 0 <= k < |tu| ==> DeclOk(tu[k])
  }

  /** Every name the walk of guc_tables.c appends to `gucs`, in order. */
  function GucNames(tu: seq<Decl>): seq<string>
    requires UnitOk(tu)
  {
    if tu == [] then [] else GucNames(tu[..|tu| - 1]) + DeclNames(tu[|tu| - 1])
  }

  /** The state of `gucs` after appending `names` to a vector that held
      `before` in `cap` slots: with reallocation available everything is
      appended; otherwise what fits is appended and the rest is lost, and the
      walk records ENOMEM (`err`). */
  predicate AppendOutcome(before: seq<string>, cap: nat, names: seq<string>, reallocOk: bool,
                          after: seq<string>, err: bool)
  {
    var all := before + names;
    if reallocOk || |all| <= cap then after == all && !err
    else after == all[..cap] && err
  }

  /** Appending in two steps is appending the concatenation once; the error
      flag is sticky. */
  lemma AppendOutcomeThen(before: seq<string>, cap1: nat, n1: seq<string>, mid: seq<string>, e1: bool,
                          cap2: nat, n2: seq<string>, after: seq<string>, e2: bool, reallocOk: bool)
    requires |before| <= cap1
    requires reallocOk || cap1 == cap2
    requires AppendOutcome(before, cap1, n1, reallocOk, mid, e1)
    requires AppendOutcome(mid, cap2, n2, reallocOk, after, e2)
    ensures AppendOutcome(before, cap1, n1 + n2, reallocOk, after, e1 || e2)
  {
    assert before + (n1 + n2) == (before + n1) + n2;
    if !reallocOk && |before + n1| > cap1 {
      assert |mid| == cap1;
      if n2 != [] {
        assert after == (mid + n2)[..cap1] == mid;
      }
      assert ((before + n1) + n2)[..cap1] == (before + n1)[..cap1];
    }
  }

  /** visit_config_type over the fields of the element type: `field_index`
      is incremented for every field until the one named `variable`. */
  method FieldIndexOf(fields: seq<string>) returns (index: nat)
    ensures index == FieldIndex(fields)
  {
    index := 0;
    while index < |fields|
      invariant 0 <= index <= |fields|
      invariant FieldIndex(fields) == index + FieldIndex(fields[index..])
    {
      assert fields[index..][0] == fields[index] && fields[index..][1..] == fields[index + 1..];
      if fields[index] == VariableField {
        break;
      }
      index := index + 1;
    }
  }

  /** visit_initializer: the operand of `&` is appended under its spelling;
      a failed append sets ENOMEM. */
  method VisitInitializer(operand: Node, gucs: Vector<string>, reallocOk: bool) returns (err: bool)
    requires operand.DeclRefExpr?
    requires gucs.Valid() && gucs.cap > 0
    modifies gucs, gucs.data
    ensures gucs.Valid() && gucs.cap > 0
    ensures gucs.data == old(gucs.data) || fresh(gucs.data)
    ensures !reallocOk ==> gucs.cap == old(gucs.cap)
    ensures AppendOutcome(old(gucs.Items()), old(gucs.cap), [operand.name], reallocOk, gucs.Items(), err)
  {
    var ok := gucs.Append(operand.name, reallocOk);
    err := !ok;
  }

  /** visit_guc with visit_guc_fields: a record that is an initializer list
      is walked with a fresh field iterator (`curr` from 0); at the wanted
      index a unary operator is handed to visit_initializer, and the walk of
      the record ends there whatever the expression is. */
  method VisitGuc(rec: Node, want: nat, gucs: Vector<string>, reallocOk: bool) returns (err: bool)
    requires RecordOk(rec, want)
    requires gucs.Valid() && gucs.cap > 0
    modifies gucs, gucs.data
    ensures gucs.Valid() && gucs.cap > 0
    ensures gucs.data == old(gucs.data) || fresh(gucs.data)
    ensures !reallocOk ==> gucs.cap == old(gucs.cap)
    ensures AppendOutcome(old(gucs.Items()), old(gucs.cap), RecordNames(rec, want), reallocOk, gucs.Items(), err)
  {
    err := false;
    if rec.InitListExpr? {
      var curr := 0;
      while curr < |rec.elements|
        invariant 0 <= curr <= |rec.elements| && curr <= want
        invariant gucs.Valid() && gucs.cap == old(gucs.cap) && gucs.data == old(gucs.data)
        invariant gucs.Items() == old(gucs.Items()) && !err
      {
        if curr == want {
          if rec.elements[curr].UnaryOperator? {
            err := VisitInitializer(rec.elements[curr].operand, gucs, reallocOk);
          }
          return;
        }
        curr := curr + 1;
      }
    }
  }

  /** clang_visitChildren(initList, visit_guc): every record in order. */
  method VisitGucList(elements: seq<Node>, want: nat, gucs: Vector<string>, reallocOk: bool) returns (err: bool)
    requires ListOk(elements, want)
    requires gucs.Valid() && gucs.cap > 0
    modifies gucs, gucs.data
    ensures gucs.Valid() && gucs.cap > 0
    ensures gucs.data == old(gucs.data) || fresh(gucs.data)
    ensures !reallocOk ==> gucs.cap == old(gucs.cap)
    ensures AppendOutcome(old(gucs.Items()), old(gucs.cap), ListNames(elements, want), reallocOk, gucs.Items(), err)
  {
    err := false;
    var i := 0;
    while i < |elements|
      invariant 0 <= i <= |elements|
      invariant gucs.Valid() && gucs.cap > 0
      invariant gucs.data == old(gucs.data) || fresh(gucs.data)
      invariant !reallocOk ==> gucs.cap == old(gucs.cap)
      invariant AppendOutcome(old(gucs.Items()), old(gucs.cap), ListNames(elements[..i], want), reallocOk, gucs.Items(), err)
    {
      ghost var mid, capMid := gucs.Items(), gucs.cap;
      var e := VisitGuc(elements[i], want, gucs, reallocOk);
      assert elements[..i + 1][..i] == elements[..i];
      AppendOutcomeThen(old(gucs.Items()), old(gucs.cap), ListNames(elements[..i], want), mid, err,
                        capMid, RecordNames(elements[i], want), gucs.Items(), e, reallocOk);
      err := err || e;
      i := i + 1;
    }
    assert elements[..i] == elements;
  }

  /** clang_visitChildren(table, visit_guc_table): the initializer lists
      among the children of a table declaration. */
  method VisitGucTable(children: seq<Node>, want: nat, gucs: Vector<string>, reallocOk: bool) returns (err: bool)
    requires TableOk(children, want)
    requires gucs.Valid() && gucs.cap > 0
    modifies gucs, gucs.data
    ensures gucs.Valid() && gucs.cap > 0
    ensures gucs.data == old(gucs.data) || fresh(gucs.data)
    ensures !reallocOk ==> gucs.cap == old(gucs.cap)
    ensures AppendOutcome(old(gucs.Items()), old(gucs.cap), TableNames(children, want), reallocOk, gucs.Items(), err)
  {
    err := false;
    var i := 0;
    while i < |children|
      invariant 0 <= i <= |children|
      invariant gucs.Valid() && gucs.cap > 0
      invariant gucs.data == old(gucs.data) || fresh(gucs.data)
      invariant !reallocOk ==> gucs.cap == old(gucs.cap)
      invariant AppendOutcome(old(gucs.Items()), old(gucs.cap), TableNames(children[..i], want), reallocOk, gucs.Items(), err)
    {
      assert children[..i + 1][..i] == children[..i];
      if children[i].InitListExpr? {
        ghost var mid, capMid := gucs.Items(), gucs.cap;
        var e := VisitGucList(children[i].elements, want, gucs, reallocOk);
        AppendOutcomeThen(old(gucs.Items()), old(gucs.cap), TableNames(children[..i], want), mid, err,
                          capMid, ListNames(children[i].elements, want), gucs.Items(), e, reallocOk);
        err := err || e;
      }
      i := i + 1;
    }
    assert children[..i] == children;
  }

  /** visit_guc_tables for one top-level cursor: for one of the five tables
      the field index is counted afresh from 0 on its element type, then its
      records are read. */
  method VisitGucDecl(d: Decl, gucs: Vector<string>, reallocOk: bool) returns (err: bool)
    requires DeclOk(d)
    requires gucs.Valid() && gucs.cap > 0
    modifies gucs, gucs.data
    ensures gucs.Valid() && gucs.cap > 0
    ensures gucs.data == old(gucs.data) || fresh(gucs.data)
    ensures !reallocOk ==> gucs.cap == old(gucs.cap)
    ensures AppendOutcome(old(gucs.Items()), old(gucs.cap), DeclNames(d), reallocOk, gucs.Items(), err)
  {
    err := false;
    if d.VarDecl? && IsGucTable(d.name) {
      var fieldIndex := FieldIndexOf(d.elementFields);
      err := VisitGucTable(d.children, fieldIndex, gucs, reallocOk);
    }
  }

  /** clang_visitChildren(tu, visit_guc_tables): every top-level cursor of
      guc_tables.c in order; `err` is the context's sticky ENOMEM. */
  method VisitGucTables(tu: seq<Decl>, gucs: Vector<string>, reallocOk: bool) returns (err: bool)
    requires UnitOk(tu)
    requires gucs.Valid() && gucs.cap > 0
    modifies gucs, gucs.data
    ensures gucs.Valid() && gucs.cap > 0
    ensures gucs.data == old(gucs.data) || fresh(gucs.data)
    ensures !reallocOk ==> gucs.cap == old(gucs.cap)
    ensures AppendOutcome(old(gucs.Items()), old(gucs.cap), GucNames(tu), reallocOk, gucs.Items(), err)
  {
    ghost var before, cap0 := gucs.Items(), gucs.cap;
    err := false;
    var i := 0;
    while i < |tu|
      invariant 0 <= i <= |tu|
      invariant gucs.Valid() && gucs.cap > 0
      invariant gucs.data == old(gucs.data) || fresh(gucs.data)
      invariant !reallocOk ==> gucs.cap == cap0
      invariant UnitOk(tu[..i])
      invariant AppendOutcome(before, cap0, GucNames(tu[..i]), reallocOk, gucs.Items(), err)
    {
      GucNamesStep(tu, i);
      ghost var mid, capMid := gucs.Items(), gucs.cap;
      var e := VisitGucDecl(tu[i], gucs, reallocOk);
      AppendOutcomeThen(before, cap0, GucNames(tu[..i]), mid, err,
                        capMid, DeclNames(tu[i]), gucs.Items(), e, reallocOk);
      err := err || e;
      i := i + 1;
    }
    assert tu[..i] == tu;
  }

  /** Extracting from one more top-level cursor. */
  lemma GucNamesStep(tu: seq<Decl>, i: nat)
    requires UnitOk(tu) && i < |tu|
    ensures UnitOk(tu[..i + 1]) && DeclOk(tu[i])
    ensures GucNames(tu[..i + 1]) == GucNames(tu[..i]) + DeclNames(tu[i])
  {
    assert tu[..i + 1][..i] == tu[..i];
    assert forall k :: 0 <= k < i + 1 ==> tu[..i + 1][k] == tu[k];
  }

  /** Names are appended in the order of the tables: extracting from two
      consecutive parts of a translation unit is extracting from each. */
  lemma {:induction false} GucNamesConcat(a: seq<Decl>, b: seq<Decl>)
    requires UnitOk(a) && UnitOk(b)
    ensures UnitOk(a + b)
    ensures GucNames(a + b) == GucNames(a) + GucNames(b)
  {
    assert forall k :: 0 <= k < |a + b| ==> (a + b)[k] == if k < |a| then a[k] else b[k - |a|];
    if b == [] {
      assert a + b == a;
    } else {
      var b' := b[..|b| - 1];
      assert (a + b)[..|a + b| - 1] == a + b';
      assert (a + b)[|a + b| - 1] == b[|b| - 1];
      assert UnitOk(b');
      GucNamesConcat(a, b');
      assert GucNames(b) == GucNames(b') + DeclNames(b[|b| - 1]);
    }
  }

  /** Only the five `ConfigureNames*` tables contribute names. */
  lemma {:induction false} GucNamesOnlyFromTables(tu: seq<Decl>)
    requires UnitOk(tu)
    requires forall k :: 0 <= k < |tu| ==> !(tu[k].VarDecl? && IsGucTable(tu[k].name))
    ensures GucNames(tu) == []
  {
    if tu != [] {
      GucNamesOnlyFromTables(tu[..|tu| - 1]);
    }
  }

  lemma {:induction false} ListNamesHasRecord(elements: seq<Node>, want: nat, r: nat, name: string)
    requires ListOk(elements, want)
    requires r < |elements| && name in RecordNames(elements[r], want)
    ensures name in ListNames(elements, want)
  {
    if r < |elements| - 1 {
      ListNamesHasRecord(elements[..|elements| - 1], want, r, name);
    }
  }

  lemma {:induction false} TableNamesHasList(children: seq<Node>, want: nat, c: nat, name: string)
    requires TableOk(children, want)
    requires c < |children| && children[c].InitListExpr? && name in ListNames(children[c].elements, want)
    ensures name in TableNames(children, want)
  {
    if c < |children| - 1 {
      TableNamesHasList(children[..|children| - 1], want, c, name);
    }
  }

  lemma {:induction false} GucNamesHasDecl(tu: seq<Decl>, k: nat, name: string)
    requires UnitOk(tu)
    requires k < |tu| && name in DeclNames(tu[k])
    ensures name in GucNames(tu)
  {
    if k < |tu| - 1 {
      GucNamesHasDecl(tu[..|tu| - 1], k, name);
    }
  }

  /** A record `{ ..., &name, ... }` of one of the five tables, with `&name`
      at the position of the `variable` field, puts `name` into `gucs`. */
  lemma RegisteredVariableIsExtracted(tu: seq<Decl>, k: nat, c: nat, r: nat, name: string)
    requires UnitOk(tu)
    requires k < |tu| && tu[k].VarDecl? && IsGucTable(tu[k].name)
    requires c < |tu[k].children| && tu[k].children[c].InitListExpr?
    requires r < |tu[k].children[c].elements|
    requires var rec := tu[k].children[c].elements[r];
             var want := FieldIndex(tu[k].elementFields);
             rec.InitListExpr? && want < |rec.elements| && rec.elements[want] == UnaryOperator(DeclRefExpr(name))
    ensures name in GucNames(tu)
  {
    var d := tu[k];
    var want := FieldIndex(d.elementFields);
    assert DeclOk(d);
    var elements := d.children[c].elements;
    assert RecordNames(elements[r], want) == [name];
    ListNamesHasRecord(elements, want, r, name);
    TableNamesHasList(d.children, want, c, name);
    GucNamesHasDecl(tu, k, name);
  }
}
