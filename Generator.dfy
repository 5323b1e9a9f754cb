/** The generator's main flow: choose the namespace, read the two schema
    views, and render one document per table, in table order. */
module Generator {
  import opened Wrappers
  import opened Ordering
  import opened Schema
  import opened TypeCatalog
  import opened Rendering

  /** The namespace: the third argument when there is one, otherwise the
      connection-string name (the second argument). */
  function Namespace(args: seq<string>): (ns: string)
    requires |args| >= 2
    ensures |args| >= 3 ==> ns == args[2]
    ensures |args| == 2 ==> ns == args[1]
  {
    if |args| > 2 then args[2] else args[1]
  }

  /** A file to be written: its name in the output directory and its text. */
  datatype Document = Document(fileName: string, text: string)

  /** What a run leaves behind: the files written, in order, and the error
      that aborted the run, if any. */
  datatype Outcome = Outcome(written: seq<Document>, failure: Option<Error>)

  function FileName(table: string): string {
    table + ".cs"
  }

  /** The table loop: one file per table, in order, until a table fails;
      the files already written stay written. */
  function WriteTables(ns: string, tables: seq<Group>, m: TypeMap, nl: string): Outcome {
    if tables == [] then Outcome([], None)
    else
      var last := tables[|tables| - 1];
      var o := WriteTables(ns, tables[..|tables| - 1], m, nl);
      if o.failure.Some? then o
      else
        match DocumentText(ns, last, m, nl)
        case Err(e) => Outcome(o.written, Some(e))
        case Ok(text) => Outcome(o.written + [Document(FileName(last.key), text)], None)
  }

  /** The whole run once the schema views have been read: the column
      groups are built first, then the type dictionary, then the files. */
  function Generation(
    args: seq<string>, columnRows: seq<ColumnRow>, typeRows: seq<TypeRow>,
    resolve: string -> Option<HostType>, order: (string, string) -> bool, nl: string): Outcome
    requires |args| >= 2
  {
    var tables := Tables(ProjectAll(columnRows), order);
    match BuildTypeMap(typeRows, resolve)
    case Err(e) => Outcome([], Some(e))
    case Ok(m) => WriteTables(Namespace(args), tables, m, nl)
  }

  lemma WriteTablesStep(ns: string, tables: seq<Group>, i: nat, m: TypeMap, nl: string)
    requires i < |tables| && WriteTables(ns, tables[..i], m, nl).failure.None?
    ensures var o := WriteTables(ns, tables[..i], m, nl);
      WriteTables(ns, tables[..i + 1], m, nl) ==
        match DocumentText(ns, tables[i], m, nl)
        case Err(e) => Outcome(o.written, Some(e))
        case Ok(text) => Outcome(o.written + [Document(FileName(tables[i].key), text)], None)
  {
    assert tables[..i + 1][..i] == tables[..i];
  }

  /** Once a table fails, the tables after it change nothing. */
  lemma {:induction false} WriteTablesStopAtFailure(ns: string, tables: seq<Group>, more: seq<Group>, m: TypeMap, nl: string)
    requires WriteTables(ns, tables, m, nl).failure.Some?
    ensures WriteTables(ns, tables + more, m, nl) == WriteTables(ns, tables, m, nl)
  {
    if more == [] {
      assert tables + more == tables;
    } else {
      WriteTablesStopAtFailure(ns, tables, more[..|more| - 1], m, nl);
      assert (tables + more)[..|tables + more| - 1] == tables + more[..|more| - 1];
    }
  }

  /** The files written are those of a prefix of the tables, each named after
      its table and holding its document. */
  lemma {:induction false} WrittenFilesArePrefix(ns: string, tables: seq<Group>, m: TypeMap, nl: string)
    ensures var o := WriteTables(ns, tables, m, nl);
      && |o.written| <= |tables|
      && (forall i :: 0 <= i < |o.written| ==>
            && DocumentText(ns, tables[i], m, nl).Ok?
            && o.written[i] == Document(FileName(tables[i].key), DocumentText(ns, tables[i], m, nl).value))
  {
    if tables != [] {
      var init := tables[..|tables| - 1];
      WrittenFilesArePrefix(ns, init, m, nl);
      StopsAtFirstFailure(ns, init, m, nl);
      assert forall i :: 0 <= i < |init| ==> init[i] == tables[i];
    }
  }

  /** The run completes exactly when every table renders, and otherwise stops
      at the first table that does not, with that table's error. */
  lemma {:induction false} StopsAtFirstFailure(ns: string, tables: seq<Group>, m: TypeMap, nl: string)
    ensures var o := WriteTables(ns, tables, m, nl);
      && (o.failure.None? <==> |o.written| == |tables|)
      && (o.failure.Some? ==>
            |o.written| < |tables| && DocumentText(ns, tables[|o.written|], m, nl) == Err(o.failure.value))
  {
    if tables != [] {
      var init := tables[..|tables| - 1];
      StopsAtFirstFailure(ns, init, m, nl);
      assert forall i :: 0 <= i < |init| ==> init[i] == tables[i];
    }
  }

  /** The program's column and table loops, run on the rows read from the
      two schema views; `resolve` stands for the runtime type lookup, `order`
      for the string comparer and `nl` for the platform newline. */
  method Run(
    args: seq<string>, columnRows: seq<ColumnRow>, typeRows: seq<TypeRow>,
    resolve: string -> Option<HostType>, order: (string, string) -> bool, nl: string)
    returns (written: seq<Document>, failure: Option<Error>)
    requires |args| >= 2
    ensures Outcome(written, failure) == Generation(args, columnRows, typeRows, resolve, order, nl)
  {
    var ns := Namespace(args);
    var tables := Tables(ProjectAll(columnRows), order);
    var types := BuildTypeMap(typeRows, resolve);
    if types.Err? {
      return [], Some(types.error);
    }
    var m := types.value;
    written, failure := [], None;
    var i := 0;
    while i < |tables|
      invariant 0 <= i <= |tables|
      invariant WriteTables(ns, tables[..i], m, nl) == Outcome(written, None)
    {
      var table := tables[i];
      var text := RenderTable(ns, table, m, nl);
      WriteTablesStep(ns, tables, i, m, nl);
      if text.Err? {
        failure := Some(text.error);
        WriteTablesStopAtFailure(ns, tables[..i + 1], tables[i + 1..], m, nl);
        assert tables[..i + 1] + tables[i + 1..] == tables;
        return;
      }
      written := written + [Document(FileName(table.key), text.value)];
      i := i + 1;
    }
    assert tables[..i] == tables;
  }

  lemma FileNameInjective(a: string, b: string)
    requires FileName(a) == FileName(b)
    ensures a == b
  {
    assert a == FileName(a)[..|a|];
    assert b == FileName(b)[..|b|];
  }

  /** A completed run writes exactly one file per table, named after the
      table, in table order, each holding that table's document. */
  lemma OneFilePerTable(
    args: seq<string>, columnRows: seq<ColumnRow>, typeRows: seq<TypeRow>,
    resolve: string -> Option<HostType>, order: (string, string) -> bool, nl: string)
    requires |args| >= 2
    requires Generation(args, columnRows, typeRows, resolve, order, nl).failure.None?
    ensures var tables := Tables(ProjectAll(columnRows), order);
      var written := Generation(args, columnRows, typeRows, resolve, order, nl).written;
      && BuildTypeMap(typeRows, resolve).Ok?
      && |written| == |tables|
      && (forall i :: 0 <= i < |written| ==>
            && written[i].fileName == tables[i].key + ".cs"
            && DocumentText(Namespace(args), tables[i], BuildTypeMap(typeRows, resolve).value, nl) == Ok(written[i].text))
      && (forall i, j :: 0 <= i < j < |written| ==> written[i].fileName != written[j].fileName)
      && (forall r :: r in columnRows ==> exists i :: 0 <= i < |written| && written[i].fileName == r.tableName + ".cs")
  {
    var cols := ProjectAll(columnRows);
    var tables := Tables(cols, order);
    var m := BuildTypeMap(typeRows, resolve).value;
    var written := WriteTables(Namespace(args), tables, m, nl).written;
    WrittenFilesArePrefix(Namespace(args), tables, m, nl);
    StopsAtFirstFailure(Namespace(args), tables, m, nl);
    TablesPartitionColumns(cols, order);
    forall i, j | 0 <= i < j < |written| ensures written[i].fileName != written[j].fileName {
      if written[i].fileName == written[j].fileName {
        FileNameInjective(tables[i].key, tables[j].key);
      }
    }
    forall r | r in columnRows ensures exists i :: 0 <= i < |written| && written[i].fileName == r.tableName + ".cs" {
      var i := TableOfRow(columnRows, order, r);
      assert written[i].fileName == r.tableName + ".cs";
    }
  }

  /** The position among the tables of the table a column row belongs to. */
  lemma TableOfRow(columnRows: seq<ColumnRow>, order: (string, string) -> bool, r: ColumnRow) returns (i: nat)
    requires r in columnRows
    ensures i < |Tables(ProjectAll(columnRows), order)| && Tables(ProjectAll(columnRows), order)[i].key == r.tableName
  {
    var cols := ProjectAll(columnRows);
    var tables := Tables(cols, order);
    TablesPartitionColumns(cols, order);
    var k :| 0 <= k < |columnRows| && columnRows[k] == r;
    assert cols[k] in cols;
    var g :| g in tables && g.key == r.tableName;
    i :| 0 <= i < |tables| && tables[i] == g;
  }

  /** A table whose document fails stops the loop, and no file carries its name. */
  lemma FailedTableNotWritten(ns: string, tables: seq<Group>, m: TypeMap, nl: string, gi: nat)
    requires KeysDistinct(tables, GroupKey)
    requires gi < |tables| && DocumentText(ns, tables[gi], m, nl).Err?
    ensures WriteTables(ns, tables, m, nl).failure.Some?
    ensures forall d :: d in WriteTables(ns, tables, m, nl).written ==> d.fileName != FileName(tables[gi].key)
  {
    var o := WriteTables(ns, tables, m, nl);
    WrittenFilesArePrefix(ns, tables, m, nl);
    StopsAtFirstFailure(ns, tables, m, nl);
    forall d | d in o.written ensures d.fileName != FileName(tables[gi].key) {
      var i :| 0 <= i < |o.written| && o.written[i] == d;
      if d.fileName == FileName(tables[gi].key) {
        FileNameInjective(tables[i].key, tables[gi].key);
        assert false;
      }
    }
  }

  /** No fallback type: a column whose type code is missing from the dictionary,
      or maps to an unresolved host type, aborts the run, and its table's file is
      not written. */
  lemma UnrenderableColumnAborts(
    args: seq<string>, columnRows: seq<ColumnRow>, typeRows: seq<TypeRow>,
    resolve: string -> Option<HostType>, order: (string, string) -> bool, nl: string, r: ColumnRow)
    requires |args| >= 2
    requires BuildTypeMap(typeRows, resolve).Ok?
    requires r in columnRows && TypeNameOf(Project(r), BuildTypeMap(typeRows, resolve).value).Err?
    ensures var o := Generation(args, columnRows, typeRows, resolve, order, nl);
      && o.failure.Some?
      && forall d :: d in o.written ==> d.fileName != r.tableName + ".cs"
  {
    var cols := ProjectAll(columnRows);
    var tables := Tables(cols, order);
    var m := BuildTypeMap(typeRows, resolve).value;
    var ns := Namespace(args);
    TablesPartitionColumns(cols, order);
    var c := Project(r);
    var k :| 0 <= k < |columnRows| && columnRows[k] == r;
    assert cols[k] == c && c in cols;
    var g :| g in tables && g.key == c.tableName;
    var gi :| 0 <= gi < |tables| && tables[gi] == g;
    WithKeyNonEmpty(cols, TableNameOf, c);
    DocumentFailsOnUnrenderableColumn(ns, g, m);
    FailedTableNotWritten(ns, tables, m, nl, gi);
  }

  /** Two catalog rows with a host type and the same type name abort the run
      with a duplicate-key error before any file is written. */
  lemma DuplicateTypeNameWritesNothing(
    args: seq<string>, columnRows: seq<ColumnRow>, typeRows: seq<TypeRow>,
    resolve: string -> Option<HostType>, order: (string, string) -> bool, nl: string, i: nat, j: nat)
    requires |args| >= 2
    requires i < j < |typeRows| && typeRows[i].dataType.Some? && typeRows[j].dataType.Some?
    requires typeRows[i].typeName == typeRows[j].typeName
    ensures Generation(args, columnRows, typeRows, resolve, order, nl).written == []
    ensures Generation(args, columnRows, typeRows, resolve, order, nl).failure.Some?
    ensures Generation(args, columnRows, typeRows, resolve, order, nl).failure.value.DuplicateTypeName?
  {
    DuplicateRowsFail(typeRows, resolve, i, j);
  }
}
