/** The rows of the "Columns" schema view, projected to column descriptors,
    grouped by table and put in order. */
module Schema {
  import opened Ordering

  /** One row of the "Columns" schema view; IS_NULLABLE is the driver's text. */
  datatype ColumnRow = ColumnRow(
    tableName: string,
    columnName: string,
    dataType: string,
    isNullable: string,
    ordinalPosition: int)

  /** The projected column record the generator works with. */
  datatype Column = Column(
    tableName: string,
    columnName: string,
    dataType: string,
    isNullable: bool,
    ordinalPosition: int)

  /** The columns of one table, under the table's name. */
  datatype Group = Group(key: string, members: seq<Column>)

  function TableNameOf(c: Column): string { c.tableName }
  function GroupKey(g: Group): string { g.key }
  function OrdinalOf(c: Column): int { c.ordinalPosition }
  function IntLe(a: int, b: int): bool { a <= b }

  /** The flag is set exactly when the view says "NO" (the program's own test). */
  function Project(row: ColumnRow): (c: Column)
    ensures c.isNullable <==> row.isNullable == "NO"
    ensures c.tableName == row.tableName && c.columnName == row.columnName
    ensures c.dataType == row.dataType && c.ordinalPosition == row.ordinalPosition
  {
    Column(row.tableName, row.columnName, row.dataType, row.isNullable == "NO", row.ordinalPosition)
  }

  function ProjectAll(rows: seq<ColumnRow>): seq<Column> {
    seq(|rows|, i requires 0 <= i < |rows| => Project(rows[i]))
  }

  /** The distinct table names of `cols`, in order of first occurrence. */
  function TableNames(cols: seq<Column>): (ks: seq<string>)
    ensures forall i, j :: 0 <= i < j < |ks| ==> ks[i] != ks[j]
    ensures forall c :: c in cols ==> c.tableName in ks
    ensures forall n :: n in ks ==> exists c :: c in cols && c.tableName == n
  {
    if cols == [] then []
    else
      var init := cols[..|cols| - 1];
      var last := cols[|cols| - 1];
      var ks := TableNames(init);
      assert forall c :: c in init ==> c in cols;
      assert forall c :: c in cols ==> c in init || c == last;
      if last.tableName in ks then ks else ks + [last.tableName]
  }

  /** GroupBy(x => x.TableName): one group per distinct table name. */
  function GroupBy(cols: seq<Column>): seq<Group> {
    var ks := TableNames(cols);
    seq(|ks|, i requires 0 <= i < |ks| => Group(ks[i], WithKey(cols, TableNameOf, ks[i])))
  }

  /** The table groups in ascending order of table name, under the comparer `order`. */
  function Tables(cols: seq<Column>, order: (string, string) -> bool): seq<Group> {
    OrderBy(GroupBy(cols), GroupKey, order)
  }

  /** The columns of a group in the order they are emitted: OrderBy(x => x.OrdinalPosition). */
  function ColumnsInOrder(members: seq<Column>): seq<Column> {
    OrderBy(members, OrdinalOf, IntLe)
  }

  lemma IntLeIsTotalPreorder()
    ensures TotalPreorder(IntLe)
  {
  }

  /** Each column is emitted once, in non-decreasing ordinal position; among
      columns with equal ordinal positions the input order is kept. */
  lemma ColumnsInOrdinalOrder(members: seq<Column>)
    ensures multiset(ColumnsInOrder(members)) == multiset(members)
    ensures forall i, j :: 0 <= i < j < |ColumnsInOrder(members)| ==>
      ColumnsInOrder(members)[i].ordinalPosition <= ColumnsInOrder(members)[j].ordinalPosition
    ensures forall p :: WithKey(ColumnsInOrder(members), OrdinalOf, p) == WithKey(members, OrdinalOf, p)
  {
    IntLeIsTotalPreorder();
    OrderByPermutes(members, OrdinalOf, IntLe);
    OrderBySorted(members, OrdinalOf, IntLe);
    forall p ensures WithKey(ColumnsInOrder(members), OrdinalOf, p) == WithKey(members, OrdinalOf, p) {
      OrderByStable(members, OrdinalOf, IntLe, p);
    }
  }

  lemma GroupByGroups(cols: seq<Column>)
    ensures KeysDistinct(GroupBy(cols), GroupKey)
    ensures forall c :: c in cols ==> exists g :: g in GroupBy(cols) && g.key == c.tableName
    ensures forall g :: g in GroupBy(cols) ==>
      g.members == WithKey(cols, TableNameOf, g.key) && g.members != []
  {
    var ks := TableNames(cols);
    var gs := GroupBy(cols);
    forall c | c in cols ensures exists g :: g in gs && g.key == c.tableName {
      var i :| 0 <= i < |ks| && ks[i] == c.tableName;
      assert gs[i] in gs;
    }
    forall g | g in gs ensures g.members == WithKey(cols, TableNameOf, g.key) && g.members != [] {
      var i :| 0 <= i < |gs| && gs[i] == g;
      assert ks[i] in ks;
      var c :| c in cols && c.tableName == ks[i];
      WithKeyNonEmpty(cols, TableNameOf, c);
    }
  }

  /** Exactly one group per distinct table name, each holding exactly that
      table's columns in input order. */
  lemma TablesPartitionColumns(cols: seq<Column>, order: (string, string) -> bool)
    ensures KeysDistinct(Tables(cols, order), GroupKey)
    ensures forall c :: c in cols ==> exists g :: g in Tables(cols, order) && g.key == c.tableName
    ensures forall g :: g in Tables(cols, order) ==>
      g.members == WithKey(cols, TableNameOf, g.key) && g.members != []
  {
    var gs := GroupBy(cols);
    var ts := Tables(cols, order);
    GroupByGroups(cols);
    OrderByDistinct(gs, GroupKey, order);
    OrderByPermutes(gs, GroupKey, order);
    forall c | c in cols ensures exists g :: g in ts && g.key == c.tableName {
      var g :| g in gs && g.key == c.tableName;
      assert g in multiset(gs);
    }
    forall g | g in ts ensures g.members == WithKey(cols, TableNameOf, g.key) && g.members != [] {
      assert g in multiset(ts);
    }
  }

  /** The groups come in ascending order of table name under the comparer. */
  lemma TablesInNameOrder(cols: seq<Column>, order: (string, string) -> bool)
    requires TotalPreorder(order)
    ensures forall i, j :: 0 <= i < j < |Tables(cols, order)| ==>
      order(Tables(cols, order)[i].key, Tables(cols, order)[j].key)
  {
    OrderBySorted(GroupBy(cols), GroupKey, order);
  }
}
