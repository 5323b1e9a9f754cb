/** The "DataTypes" schema view turned into a dictionary keyed by type name,
    and the choice of a column's rendered type name. */
module TypeCatalog {
  import opened Wrappers
  import opened Schema

  /** A host-language type: its short name and whether it is a value type. */
  datatype HostType = HostType(name: string, isValueType: bool)

  /** One row of the "DataTypes" view; `dataType` is None when the cell is DBNull. */
  datatype TypeRow = TypeRow(typeName: string, dataType: Option<string>)

  /** A dictionary entry: the resolved host type, None when resolution gave null. */
  datatype TypeEntry = TypeEntry(typeName: string, hostType: Option<HostType>)

  /** The ways generation aborts once the schema has been read. */
  datatype Error =
    | DuplicateTypeName(typeName: string)   // ToDictionary meets a key twice
    | UnmappedType(dataType: string)         // the dictionary indexer finds no key
    | UnresolvedHostType(dataType: string)   // the entry's host type is null

  type TypeMap = map<string, Option<HostType>>

  /** The dictionary entry selected from a row whose host type is present. */
  function RowEntry(row: TypeRow, resolve: string -> Option<HostType>): TypeEntry
    requires row.dataType.Some?
  {
    TypeEntry(row.typeName, resolve(row.dataType.value))
  }

  /** Where(DataType is not DBNull).Select(...): `resolve` stands for the
      runtime's lookup of a type by its full name. */
  function CatalogEntries(rows: seq<TypeRow>, resolve: string -> Option<HostType>): seq<TypeEntry> {
    if rows == [] then []
    else
      var rest := CatalogEntries(rows[..|rows| - 1], resolve);
      var last := rows[|rows| - 1];
      if last.dataType.None? then rest else rest + [RowEntry(last, resolve)]
  }

  /** Every entry comes from a row whose host type is present, and every such row gives one. */
  lemma {:induction false} CatalogEntriesFromRows(rows: seq<TypeRow>, resolve: string -> Option<HostType>)
    ensures forall e :: e in CatalogEntries(rows, resolve) ==>
      exists i :: 0 <= i < |rows| && rows[i].dataType.Some? && e == RowEntry(rows[i], resolve)
    ensures forall i :: 0 <= i < |rows| && rows[i].dataType.Some? ==>
      RowEntry(rows[i], resolve) in CatalogEntries(rows, resolve)
  {
    if rows != [] {
      var init := rows[..|rows| - 1];
      CatalogEntriesFromRows(init, resolve);
      assert forall i :: 0 <= i < |init| ==> init[i] == rows[i];
    }
  }

  /** Where/Select keep the order of the rows: two rows with a host type, in
      order, give two entries in the same order. */
  lemma {:induction false} CatalogEntriesInRowOrder(rows: seq<TypeRow>, resolve: string -> Option<HostType>, i: nat, j: nat)
    requires i < j < |rows| && rows[i].dataType.Some? && rows[j].dataType.Some?
    ensures exists k, l :: (0 <= k < l < |CatalogEntries(rows, resolve)| &&
      CatalogEntries(rows, resolve)[k] == RowEntry(rows[i], resolve) &&
      CatalogEntries(rows, resolve)[l] == RowEntry(rows[j], resolve))
  {
    var init := rows[..|rows| - 1];
    var esInit := CatalogEntries(init, resolve);
    var es := CatalogEntries(rows, resolve);
    assert init[i] == rows[i];
    if j < |init| {
      assert init[j] == rows[j];
      CatalogEntriesInRowOrder(init, resolve, i, j);
      var k, l :| 0 <= k < l < |esInit| && esInit[k] == RowEntry(rows[i], resolve) && esInit[l] == RowEntry(rows[j], resolve);
      assert es[k] == esInit[k] && es[l] == esInit[l];
    } else {
      CatalogEntriesFromRows(init, resolve);
      var k :| 0 <= k < |esInit| && esInit[k] == RowEntry(rows[i], resolve);
      assert es == esInit + [RowEntry(rows[j], resolve)];
      assert es[k] == esInit[k] && es[|esInit|] == RowEntry(rows[j], resolve);
    }
  }

  /** ToDictionary(x => x.TypeName): fails on the first repeated key. */
  function ToDictionary(es: seq<TypeEntry>): Result<TypeMap, Error> {
    if es == [] then Ok(map[])
    else
      var last := es[|es| - 1];
      match ToDictionary(es[..|es| - 1])
      case Err(e) => Err(e)
      case Ok(m) =>
        if last.typeName in m then Err(DuplicateTypeName(last.typeName))
        else Ok(m[last.typeName := last.hostType])
  }

  /** The type names of the entries. */
  function Names(es: seq<TypeEntry>): set<string> {
    if es == [] then {} else Names(es[..|es| - 1]) + {es[|es| - 1].typeName}
  }

  lemma {:induction false} NamesAt(es: seq<TypeEntry>, n: string)
    ensures n in Names(es) <==> exists i :: 0 <= i < |es| && es[i].typeName == n
  {
    if es != [] {
      var init := es[..|es| - 1];
      NamesAt(init, n);
      assert forall i :: 0 <= i < |init| ==> init[i] == es[i];
    }
  }

  /** No two entries share a type name. */
  predicate NamesDistinct(es: seq<TypeEntry>) {
    forall i, j :: 0 <= i < j < |es| ==> es[i].typeName != es[j].typeName
  }

  /** On success the dictionary has one key per entry name, mapped to that entry's host type. */
  lemma {:induction false} ToDictionaryContents(es: seq<TypeEntry>)
    requires ToDictionary(es).Ok?
    ensures ToDictionary(es).value.Keys == Names(es)
    ensures forall i :: 0 <= i < |es| ==>
      es[i].typeName in ToDictionary(es).value && ToDictionary(es).value[es[i].typeName] == es[i].hostType
  {
    if es != [] {
      var init := es[..|es| - 1];
      var last := es[|es| - 1];
      ToDictionaryContents(init);
      var m := ToDictionary(init).value;
      assert ToDictionary(es).value == m[last.typeName := last.hostType];
      forall i | 0 <= i < |es|
        ensures es[i].typeName in ToDictionary(es).value && ToDictionary(es).value[es[i].typeName] == es[i].hostType
      {
        if i < |init| {
          assert init[i] == es[i];
        }
      }
    }
  }

  /** ToDictionary succeeds exactly when the entry names are distinct. */
  lemma {:induction false} ToDictionaryOkIffDistinct(es: seq<TypeEntry>)
    ensures ToDictionary(es).Ok? <==> NamesDistinct(es)
  {
    if es != [] {
      var init := es[..|es| - 1];
      var last := es[|es| - 1];
      ToDictionaryOkIffDistinct(init);
      assert forall i :: 0 <= i < |init| ==> init[i] == es[i];
      match ToDictionary(init)
      case Err(_) =>
        var i, j :| 0 <= i < j < |init| && init[i].typeName == init[j].typeName;
        assert es[i].typeName == es[j].typeName;
      case Ok(m) =>
        ToDictionaryContents(init);
        NamesAt(init, last.typeName);
        if last.typeName in m {
          var i :| 0 <= i < |init| && init[i].typeName == last.typeName;
          assert es[i].typeName == es[|es| - 1].typeName;
        } else {
          forall i, j | 0 <= i < j < |es| ensures es[i].typeName != es[j].typeName {
            if j < |init| { assert init[i] == es[i] && init[j] == es[j]; }
          }
        }
    }
  }

  /** A failure names a type name that two entries share. */
  lemma {:induction false} ToDictionaryDuplicate(es: seq<TypeEntry>)
    requires ToDictionary(es).Err?
    ensures ToDictionary(es).error.DuplicateTypeName?
    ensures exists i, j :: (0 <= i < j < |es| &&
      es[i].typeName == ToDictionary(es).error.typeName && es[j].typeName == ToDictionary(es).error.typeName)
  {
    var init := es[..|es| - 1];
    var last := es[|es| - 1];
    assert forall i :: 0 <= i < |init| ==> init[i] == es[i];
    match ToDictionary(init)
    case Err(_) =>
      ToDictionaryDuplicate(init);
      var i, j :| 0 <= i < j < |init| &&
        init[i].typeName == ToDictionary(init).error.typeName && init[j].typeName == ToDictionary(init).error.typeName;
      assert es[i] == init[i] && es[j] == init[j];
    case Ok(m) =>
      ToDictionaryContents(init);
      NamesAt(init, last.typeName);
      var i :| 0 <= i < |init| && init[i].typeName == last.typeName;
      assert es[i].typeName == es[|es| - 1].typeName;
  }

  /** The type dictionary built from the catalog rows. */
  function BuildTypeMap(rows: seq<TypeRow>, resolve: string -> Option<HostType>): Result<TypeMap, Error> {
    ToDictionary(CatalogEntries(rows, resolve))
  }

  /** The type name rendered for a column: the host type's short name, with "?"
      exactly when the column is flagged nullable and the host type is a value
      type; no fallback when the type code is missing or unresolved. */
  function TypeNameOf(c: Column, m: TypeMap): (r: Result<string, Error>)
    ensures c.dataType !in m ==> r == Err(UnmappedType(c.dataType))
    ensures c.dataType in m && m[c.dataType].None? ==> r == Err(UnresolvedHostType(c.dataType))
    ensures r.Ok? <==> c.dataType in m && m[c.dataType].Some?
    ensures r.Ok? ==>
      var h := m[c.dataType].value;
      && (r.value == h.name + "?" <==> c.isNullable && h.isValueType)
      && (r.value == h.name || r.value == h.name + "?")
  {
    if c.dataType !in m then Err(UnmappedType(c.dataType))
    else
      match m[c.dataType]
      case None => Err(UnresolvedHostType(c.dataType))
      case Some(h) =>
        var typeName := if c.isNullable && h.isValueType then h.name + "?" else h.name;
        assert |h.name + "?"| != |h.name|;
        Ok(typeName)
  }

  /** A reference type never gets the marker, nor does a column that is not flagged. */
  lemma NoMarkerUnlessNullableValueType(c: Column, m: TypeMap)
    requires c.dataType in m && m[c.dataType].Some?
    requires !c.isNullable || !m[c.dataType].value.isValueType
    ensures TypeNameOf(c, m) == Ok(m[c.dataType].value.name)
  {
    var h := m[c.dataType].value;
    assert |h.name + "?"| != |h.name|;
  }

  /** As written, the flag is set for a column the catalog reports as NOT NULL
      ("NO"), so such a column of a value type gets the "?" marker, and a column
      reported as nullable ("YES") does not. */
  lemma NotNullColumnGetsMarker(row: ColumnRow, m: TypeMap)
    requires row.dataType in m && m[row.dataType].Some? && m[row.dataType].value.isValueType
    ensures row.isNullable == "NO" ==> TypeNameOf(Project(row), m) == Ok(m[row.dataType].value.name + "?")
    ensures row.isNullable == "YES" ==> TypeNameOf(Project(row), m) == Ok(m[row.dataType].value.name)
  {
    if row.isNullable == "YES" {
      assert row.isNullable != "NO";
      NoMarkerUnlessNullableValueType(Project(row), m);
    }
  }

  /** No two rows with a host type share a type name. */
  predicate RowNamesDistinct(rows: seq<TypeRow>) {
    forall i, j :: 0 <= i < j < |rows| && rows[i].dataType.Some? && rows[j].dataType.Some? ==>
      rows[i].typeName != rows[j].typeName
  }

  /** Two rows with a host type and the same type name make the build fail,
      with a duplicate-key error naming that type name: no entry overwrites another. */
  lemma DuplicateRowsFail(rows: seq<TypeRow>, resolve: string -> Option<HostType>, i: nat, j: nat)
    requires i < j < |rows| && rows[i].dataType.Some? && rows[j].dataType.Some?
    requires rows[i].typeName == rows[j].typeName
    ensures BuildTypeMap(rows, resolve).Err?
    ensures BuildTypeMap(rows, resolve).error.DuplicateTypeName?
  {
    var es := CatalogEntries(rows, resolve);
    CatalogEntriesInRowOrder(rows, resolve, i, j);
    var k, l :| 0 <= k < l < |es| && es[k] == RowEntry(rows[i], resolve) && es[l] == RowEntry(rows[j], resolve);
    assert es[k].typeName == es[l].typeName;
    ToDictionaryOkIffDistinct(es);
    ToDictionaryDuplicate(es);
  }

  /** The dictionary built from the catalog holds exactly the rows whose host
      type is present, keyed by type name; it is built exactly when no two of
      those rows share a type name, and a repeated name fails. */
  lemma TypeMapFromCatalog(rows: seq<TypeRow>, resolve: string -> Option<HostType>)
    ensures var r := BuildTypeMap(rows, resolve);
      && (r.Ok? <==> RowNamesDistinct(rows))
      && (r.Ok? ==> forall i :: 0 <= i < |rows| && rows[i].dataType.Some? ==>
            rows[i].typeName in r.value && r.value[rows[i].typeName] == resolve(rows[i].dataType.value))
      && (r.Ok? ==> forall n :: n in r.value ==>
            exists i :: 0 <= i < |rows| && rows[i].dataType.Some? && rows[i].typeName == n)
      && (r.Err? ==> r.error.DuplicateTypeName?)
      && (r.Err? ==>
            exists i, j :: (0 <= i < j < |rows| && rows[i].dataType.Some? && rows[j].dataType.Some? &&
              rows[i].typeName == r.error.typeName && rows[j].typeName == r.error.typeName))
  {
    var es := CatalogEntries(rows, resolve);
    var r := ToDictionary(es);
    CatalogEntriesFromRows(rows, resolve);
    if r.Ok? {
      ToDictionaryContents(es);
      forall i | 0 <= i < |rows| && rows[i].dataType.Some?
        ensures rows[i].typeName in r.value && r.value[rows[i].typeName] == resolve(rows[i].dataType.value)
      {
        var k :| 0 <= k < |es| && es[k] == RowEntry(rows[i], resolve);
        NamesAt(es, rows[i].typeName);
      }
      forall n | n in r.value ensures exists i :: 0 <= i < |rows| && rows[i].dataType.Some? && rows[i].typeName == n {
        NamesAt(es, n);
        var k :| 0 <= k < |es| && es[k].typeName == n;
        assert es[k] in es;
      }
      forall i, j | 0 <= i < j < |rows| && rows[i].dataType.Some? && rows[j].dataType.Some?
        ensures rows[i].typeName != rows[j].typeName
      {
        if rows[i].typeName == rows[j].typeName {
          DuplicateRowsFail(rows, resolve, i, j);
        }
      }
    } else {
      ToDictionaryDuplicate(es);
      DuplicateRows(rows, resolve);
    }
  }

  /** The two rows behind a duplicate-name failure, in the order the rows are read. */
  lemma {:induction false} DuplicateRows(rows: seq<TypeRow>, resolve: string -> Option<HostType>)
    requires BuildTypeMap(rows, resolve).Err?
    ensures BuildTypeMap(rows, resolve).error.DuplicateTypeName?
    ensures exists i, j :: (0 <= i < j < |rows| && rows[i].dataType.Some? && rows[j].dataType.Some? &&
      rows[i].typeName == BuildTypeMap(rows, resolve).error.typeName &&
      rows[j].typeName == BuildTypeMap(rows, resolve).error.typeName)
  {
    var init := rows[..|rows| - 1];
    var last := rows[|rows| - 1];
    var esInit := CatalogEntries(init, resolve);
    ToDictionaryDuplicate(CatalogEntries(rows, resolve));
    var n := BuildTypeMap(rows, resolve).error.typeName;
    if last.dataType.None? || ToDictionary(esInit).Err? {
      assert BuildTypeMap(init, resolve) == BuildTypeMap(rows, resolve);
      DuplicateRows(init, resolve);
      var i, j :| 0 <= i < j < |init| && init[i].dataType.Some? && init[j].dataType.Some? &&
        init[i].typeName == n && init[j].typeName == n;
      assert rows[i] == init[i] && rows[j] == init[j];
    } else {
      assert n == last.typeName && n in ToDictionary(esInit).value;
      ToDictionaryContents(esInit);
      NamesAt(esInit, n);
      var k :| 0 <= k < |esInit| && esInit[k].typeName == n;
      assert esInit[k] in esInit;
      CatalogEntriesFromRows(init, resolve);
      var i :| 0 <= i < |init| && init[i].dataType.Some? && esInit[k] == RowEntry(init[i], resolve);
      assert rows[i] == init[i];
    }
  }
}
