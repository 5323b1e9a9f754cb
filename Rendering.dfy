/** The per-table C# class template and the StringBuilder that assembles it. */
module Rendering {
  import opened Wrappers
  import opened Schema
  import opened TypeCatalog

  /** The property declaration for one column. */
  function PropertyLine(typeName: string, columnName: string): string {
    "        public " + typeName + " " + columnName + " { get; set; }"
  }

  /** The import and the opening of the namespace. */
  function NamespaceLines(ns: string): seq<string> {
    ["using System;", "", "namespace " + ns, "{"]
  }

  /** The opening of the class. */
  function ClassLines(className: string): seq<string> {
    ["", "    public class " + className, "    {", ""]
  }

  /** The eight lines before the first property. */
  function HeaderLines(ns: string, className: string): seq<string> {
    NamespaceLines(ns) + ClassLines(className)
  }

  /** The two closing lines. */
  function FooterLines(): seq<string> {
    ["    }", "}"]
  }

  /** A property line and a blank line per column, stopping at the first column
      whose type cannot be rendered. */
  function PropertyLines(cols: seq<Column>, m: TypeMap): Result<seq<string>, Error> {
    if cols == [] then Ok([])
    else
      var last := cols[|cols| - 1];
      match PropertyLines(cols[..|cols| - 1], m)
      case Err(e) => Err(e)
      case Ok(ls) =>
        match TypeNameOf(last, m)
        case Err(e) => Err(e)
        case Ok(t) => Ok(ls + [PropertyLine(t, last.columnName), ""])
  }

  /** The lines of the document for one table. */
  function DocumentLines(ns: string, table: Group, m: TypeMap): Result<seq<string>, Error> {
    match PropertyLines(ColumnsInOrder(table.members), m)
    case Err(e) => Err(e)
    case Ok(ps) => Ok(HeaderLines(ns, table.key) + ps + FooterLines())
  }

  /** The text AppendLine produces: every line followed by the newline string. */
  function Text(lines: seq<string>, nl: string): string {
    if lines == [] then ""
    else Text(lines[..|lines| - 1], nl) + lines[|lines| - 1] + nl
  }

  /** The text of the document for one table. */
  function DocumentText(ns: string, table: Group, m: TypeMap, nl: string): Result<string, Error> {
    match DocumentLines(ns, table, m)
    case Err(e) => Err(e)
    case Ok(ls) => Ok(Text(ls, nl))
  }

  lemma TextSnoc(lines: seq<string>, line: string, nl: string)
    ensures Text(lines + [line], nl) == Text(lines, nl) + line + nl
  {
    assert (lines + [line])[..|lines|] == lines;
  }

  lemma SnocTwo(a: seq<string>, b: seq<string>, x: string, y: string)
    ensures a + b + [x] + [y] == a + (b + [x, y])
  {
  }

  lemma PropertyLinesStep(cols: seq<Column>, i: nat, m: TypeMap)
    requires i < |cols| && PropertyLines(cols[..i], m).Ok? && TypeNameOf(cols[i], m).Ok?
    ensures PropertyLines(cols[..i + 1], m)
         == Ok(PropertyLines(cols[..i], m).value + [PropertyLine(TypeNameOf(cols[i], m).value, cols[i].columnName), ""])
  {
    assert cols[..i + 1][..i] == cols[..i];
  }

  lemma PropertyLinesFailStep(cols: seq<Column>, i: nat, m: TypeMap)
    requires i < |cols| && PropertyLines(cols[..i], m).Ok? && TypeNameOf(cols[i], m).Err?
    ensures PropertyLines(cols, m) == Err(TypeNameOf(cols[i], m).error)
  {
    assert cols[..i + 1][..i] == cols[..i];
    PropertyLinesStopAtFailure(cols[..i + 1], cols[i + 1..], m);
    assert cols[..i + 1] + cols[i + 1..] == cols;
  }

  /** Once a column fails, the columns after it do not change the outcome. */
  lemma {:induction false} PropertyLinesStopAtFailure(cols: seq<Column>, more: seq<Column>, m: TypeMap)
    requires PropertyLines(cols, m).Err?
    ensures PropertyLines(cols + more, m) == PropertyLines(cols, m)
  {
    if more == [] {
      assert cols + more == cols;
    } else {
      var init := more[..|more| - 1];
      PropertyLinesStopAtFailure(cols, init, m);
      assert (cols + more)[..|cols + more| - 1] == cols + init;
    }
  }

  /** The property lines, position by position: two lines per column, in the
      given column order, and all of them exactly when every column's type renders. */
  lemma {:induction false} PropertyLinesShape(cols: seq<Column>, m: TypeMap)
    ensures PropertyLines(cols, m).Ok? <==> forall i :: 0 <= i < |cols| ==> TypeNameOf(cols[i], m).Ok?
    ensures PropertyLines(cols, m).Ok? ==>
      && |PropertyLines(cols, m).value| == 2 * |cols|
      && forall i :: 0 <= i < |cols| ==>
           && PropertyLines(cols, m).value[2 * i] == PropertyLine(TypeNameOf(cols[i], m).value, cols[i].columnName)
           && PropertyLines(cols, m).value[2 * i + 1] == ""
  {
    if cols != [] {
      var init := cols[..|cols| - 1];
      PropertyLinesShape(init, m);
      assert forall i :: 0 <= i < |init| ==> init[i] == cols[i];
    }
  }

  /** A failure is the error of the first column, in the given order, whose type does not render. */
  lemma {:induction false} PropertyLinesFirstFailure(cols: seq<Column>, m: TypeMap)
    requires PropertyLines(cols, m).Err?
    ensures exists i :: (0 <= i < |cols| && TypeNameOf(cols[i], m) == Err(PropertyLines(cols, m).error) &&
      forall j :: 0 <= j < i ==> TypeNameOf(cols[j], m).Ok?)
  {
    var init := cols[..|cols| - 1];
    assert forall i :: 0 <= i < |init| ==> init[i] == cols[i];
    if PropertyLines(init, m).Err? {
      PropertyLinesFirstFailure(init, m);
      var i :| 0 <= i < |init| && TypeNameOf(init[i], m) == Err(PropertyLines(init, m).error) &&
        forall j :: 0 <= j < i ==> TypeNameOf(init[j], m).Ok?;
      assert TypeNameOf(cols[i], m) == Err(PropertyLines(cols, m).error);
    } else {
      PropertyLinesShape(init, m);
      assert TypeNameOf(cols[|cols| - 1], m) == Err(PropertyLines(cols, m).error);
    }
  }

  /** The document has the fixed shape: header, a property line and a blank
      line per column in ordinal order, then the two closing braces. */
  lemma DocumentShape(ns: string, table: Group, m: TypeMap)
    requires DocumentLines(ns, table, m).Ok?
    ensures var ls := DocumentLines(ns, table, m).value;
      var cols := ColumnsInOrder(table.members);
      && |cols| == |table.members|
      && |ls| == 10 + 2 * |cols|
      && ls[..8] == HeaderLines(ns, table.key)
      && (forall i :: 0 <= i < |cols| ==>
            && TypeNameOf(cols[i], m).Ok?
            && ls[8 + 2 * i] == PropertyLine(TypeNameOf(cols[i], m).value, cols[i].columnName)
            && ls[9 + 2 * i] == "")
      && ls[8 + 2 * |cols|..] == FooterLines()
  {
    var cols := ColumnsInOrder(table.members);
    ColumnsInOrdinalOrder(table.members);
    assert |cols| == |multiset(cols)| == |multiset(table.members)| == |table.members|;
    PropertyLinesShape(cols, m);
    var ps := PropertyLines(cols, m).value;
    var hs := HeaderLines(ns, table.key);
    var ls := DocumentLines(ns, table, m).value;
    assert ls == hs + ps + FooterLines();
    assert ls[..8] == hs;
    assert ls[8 + |ps|..] == FooterLines();
    assert forall k :: 0 <= k < |ps| ==> ls[8 + k] == ps[k];
  }

  /** The document fails exactly when some column of the table has a type that
      does not render, and then with the error of the first such column in ordinal order. */
  lemma DocumentFailsOnUnrenderableColumn(ns: string, table: Group, m: TypeMap)
    ensures DocumentLines(ns, table, m).Err? <==> exists c :: c in table.members && TypeNameOf(c, m).Err?
    ensures DocumentLines(ns, table, m).Err? ==>
      var cols := ColumnsInOrder(table.members);
      exists i :: 0 <= i < |cols| && TypeNameOf(cols[i], m) == Err(DocumentLines(ns, table, m).error) &&
        forall j :: 0 <= j < i ==> TypeNameOf(cols[j], m).Ok?
  {
    var cols := ColumnsInOrder(table.members);
    ColumnsInOrdinalOrder(table.members);
    PropertyLinesShape(cols, m);
    if PropertyLines(cols, m).Err? {
      PropertyLinesFirstFailure(cols, m);
      var i :| 0 <= i < |cols| && TypeNameOf(cols[i], m).Err?;
      assert cols[i] in multiset(table.members);
    }
    forall c | c in table.members && TypeNameOf(c, m).Err? ensures PropertyLines(cols, m).Err? {
      assert c in multiset(cols);
      var i :| 0 <= i < |cols| && cols[i] == c;
    }
  }

  /** The StringBuilder the program appends the document to; `lines` is the
      sequence of lines appended so far. */
  class TextBuilder {
    var text: string
    ghost var lines: seq<string>
    const newLine: string

    ghost predicate Valid()
      reads this
    {
      text == Text(lines, newLine)
    }

    constructor (newLine: string)
      ensures Valid() && this.newLine == newLine && lines == []
    {
      this.newLine := newLine;
      text := "";
      lines := [];
    }

    method AppendLine(line: string)
      requires Valid()
      modifies this
      ensures Valid() && lines == old(lines) + [line]
    {
      TextSnoc(lines, line, newLine);
      text := text + line + newLine;
      lines := lines + [line];
    }
  }

  lemma DocumentTextOfProperties(ns: string, table: Group, m: TypeMap, nl: string)
    ensures var ps := PropertyLines(ColumnsInOrder(table.members), m);
      && (ps.Err? ==> DocumentText(ns, table, m, nl) == Err(ps.error))
      && (ps.Ok? ==> DocumentText(ns, table, m, nl) == Ok(Text(HeaderLines(ns, table.key) + ps.value + FooterLines(), nl)))
  {
  }

  /** Appends the eight header lines. */
  method AppendHeader(sb: TextBuilder, ns: string, className: string)
    requires sb.Valid()
    modifies sb
    ensures sb.Valid() && sb.lines == old(sb.lines) + HeaderLines(ns, className)
  {
    AppendNamespaceLines(sb, ns);
    AppendClassLines(sb, className);
  }

  /** The first four header lines: the import and the namespace opening. */
  method AppendNamespaceLines(sb: TextBuilder, ns: string)
    requires sb.Valid()
    modifies sb
    ensures sb.Valid() && sb.lines == old(sb.lines) + NamespaceLines(ns)
  {
    sb.AppendLine("using System;");
    sb.AppendLine("");
    sb.AppendLine("namespace " + ns);
    sb.AppendLine("{");
  }

  /** The last four header lines: the class opening. */
  method AppendClassLines(sb: TextBuilder, className: string)
    requires sb.Valid()
    modifies sb
    ensures sb.Valid() && sb.lines == old(sb.lines) + ClassLines(className)
  {
    sb.AppendLine("");
    sb.AppendLine("    public class " + className);
    sb.AppendLine("    {");
    sb.AppendLine("");
  }

  /** The body of the column loop: looks the column's type code up in the
      dictionary, takes the host type's name, adds "?" for a flagged column of
      a value type, and appends the property line and a blank line. On a failed
      lookup nothing is appended. */
  method AppendProperty(sb: TextBuilder, column: Column, m: TypeMap) returns (r: Result<string, Error>)
    requires sb.Valid()
    modifies sb
    ensures r == TypeNameOf(column, m)
    ensures sb.Valid()
    ensures r.Ok? ==> sb.lines == old(sb.lines) + [PropertyLine(r.value, column.columnName), ""]
    ensures r.Err? ==> sb.lines == old(sb.lines)
  {
    if column.dataType !in m {
      return Err(UnmappedType(column.dataType));
    }
    var dataType := m[column.dataType];
    if dataType.None? {
      return Err(UnresolvedHostType(column.dataType));
    }
    var typeName := dataType.value.name;
    if column.isNullable && dataType.value.isValueType {
      typeName := typeName + "?";
    }
    sb.AppendLine(PropertyLine(typeName, column.columnName));
    sb.AppendLine("");
    r := Ok(typeName);
  }

  /** The column loop: appends the properties of `cols` in order and stops at
      the first column whose type does not render. */
  method AppendProperties(sb: TextBuilder, cols: seq<Column>, m: TypeMap) returns (failure: Option<Error>)
    requires sb.Valid()
    modifies sb
    ensures sb.Valid()
    ensures failure.None? <==> PropertyLines(cols, m).Ok?
    ensures failure.Some? ==> PropertyLines(cols, m) == Err(failure.value)
    ensures failure.None? ==> sb.lines == old(sb.lines) + PropertyLines(cols, m).value
    ensures failure.Some? ==> exists k :: (0 <= k < |cols| && PropertyLines(cols[..k], m).Ok? &&
      TypeNameOf(cols[k], m) == Err(failure.value) && sb.lines == old(sb.lines) + PropertyLines(cols[..k], m).value)
  {
    ghost var start := sb.lines;
    ghost var props: seq<string> := [];
    var i := 0;
    assert sb.lines == start + props;
    while i < |cols|
      invariant 0 <= i <= |cols|
      invariant sb.Valid()
      invariant sb.lines == start + props
      invariant PropertyLines(cols[..i], m) == Ok(props)
    {
      var t := AppendProperty(sb, cols[i], m);
      if t.Err? {
        PropertyLinesFailStep(cols, i, m);
        failure := Some(t.error);
        assert PropertyLines(cols[..i], m).Ok? && TypeNameOf(cols[i], m) == Err(failure.value);
        return;
      }
      var line := PropertyLine(t.value, cols[i].columnName);
      SnocTwo(start, props, line, "");
      PropertyLinesStep(cols, i, m);
      props := props + [line, ""];
      i := i + 1;
    }
    assert cols[..i] == cols;
    failure := None;
  }

  /** Appends the two closing lines. */
  method AppendFooter(sb: TextBuilder)
    requires sb.Valid()
    modifies sb
    ensures sb.Valid() && sb.lines == old(sb.lines) + FooterLines()
  {
    sb.AppendLine("    }");
    sb.AppendLine("}");
  }

  /** Renders one table: appends the header, then the properties of the
      columns in ordinal order, then the closing braces; the first column whose
      type does not render aborts the table. */
  method RenderTable(ns: string, table: Group, m: TypeMap, nl: string) returns (r: Result<string, Error>)
    ensures r == DocumentText(ns, table, m, nl)
  {
    var sb := new TextBuilder(nl);
    AppendHeader(sb, ns, table.key);
    assert sb.lines == HeaderLines(ns, table.key);
    var failure := AppendProperties(sb, ColumnsInOrder(table.members), m);
    DocumentTextOfProperties(ns, table, m, nl);
    if failure.Some? {
      return Err(failure.value);
    }
    AppendFooter(sb);
    r := Ok(sb.text);
  }
}
