/** What the search half of the compiler appends for a search string: one
    OR-group over the searchable columns of the grid, then one orWhereHas per
    column of the relation-search map. The class in module ModelFilter is
    proved to append exactly these predicates. */
module Search {
  import opened Strings
  import opened Query
  import opened SqlPattern

  /** The attributes of a grid column that search reads; an absent string
      attribute is "" (what strval(null) gives). */
  datatype Column = Column(
    field: string,
    dataField: string,
    searchable: bool,
    handledExternally: bool,
    searchableRaw: string)

  /** One entry of a relation's array in the relation-search map: a column
      name (its key is not read) or, under a nested relation's name, a list
      of that nested relation's columns. */
  datatype RelationItem =
    | Direct(column: string)
    | Nested(nestedTable: string, columns: seq<string>)

  /** The value a relation name maps to: an array of items, or anything else
      (a bare column name, say), which ends the relation search. */
  datatype Relation =
    | Listed(items: seq<RelationItem>)
    | Unlisted(value: string)

  datatype RelationSearch = RelationSearch(table: string, relation: Relation)

  /** What search reads besides the columns: the model's table, that table's
      column listing (the cached schema), the driver's LIKE token, and the
      (relation, nested relation) pairs for which getRelation finds the
      nested relation. */
  datatype SearchEnv = SearchEnv(
    table: string,
    columnList: seq<string>,
    like: string,
    nestedRelations: set<(string, string)>)

  /** The column name search uses: dataField when truthy, else field. */
  function SearchField(c: Column): string
  {
    if Truthy(c.dataField) then c.dataField else c.field
  }

  /** A field "t.c" names table t and column c (later dots are dropped); a
      field without a dot names the model's own table. */
  function SearchTarget(table: string, field: string): (r: (string, string))
    ensures '.' !in field ==> r == (table, field)
    ensures '.' in field ==> field == r.0 + "." + r.1 || StartsWith(field, r.0 + "." + r.1 + ".")
    ensures '.' in field ==> '.' !in r.0 && '.' !in r.1
  {
    if '.' in field then
      ContainsChar(field, '.');
      SplitMany(field, ".");
      SplitHead(field, ".");
      SplitPiecesFree(field, ".");
      ContainsChar(Split(field, ".")[0], '.');
      ContainsChar(Split(field, ".")[1], '.');
      (Split(field, ".")[0], Split(field, ".")[1])
    else (table, field)
  }

  function SearchPattern(search: string): string
  {
    "%" + search + "%"
  }

  /** The search pattern matches exactly the texts that contain a search
      string free of LIKE wildcards. */
  lemma SearchPatternMeaning(search: string, t: string)
    requires Literal(search)
    ensures Matches(SearchPattern(search), t) <==> Contains(t, search)
  {
    MatchesInfix(search, t);
  }

  /** The orWhere and orWhereRaw one column adds to the search group. The
      column name is looked up in the listing of the model's own table even
      when the field names another table. */
  function ColumnPreds(env: SearchEnv, search: string, c: Column): seq<Pred>
  {
    var field := SearchField(c);
    if c.searchable && !c.handledExternally && Truthy(field) then
      var target := SearchTarget(env.table, field);
      (if target.1 in env.columnList
       then [OrWhere(target.0 + "." + target.1, env.like, Str(SearchPattern(search)))]
       else [])
      + (if Truthy(c.searchableRaw)
         then [OrWhereRaw(c.searchableRaw + " " + env.like + " '%" + search + "%'")]
         else [])
    else []
  }

  /** The contents of the search group: the predicates of every column, in order. */
  function SearchGroup(env: SearchEnv, search: string, columns: seq<Column>): seq<Pred>
  {
    if columns == [] then [] else ColumnPreds(env, search, columns[0]) + SearchGroup(env, search, columns[1..])
  }

  /** The one relation-scoped match orWhereHas carries. */
  function RelationMatch(like: string, search: string, column: string): seq<Pred>
  {
    [Where(column, like, Str(SearchPattern(search)))]
  }

  function NestedPreds(like: string, search: string, path: string, columns: seq<string>): seq<Pred>
  {
    if columns == [] then []
    else [OrWhereHas(path, RelationMatch(like, search, columns[0]))] + NestedPreds(like, search, path, columns[1..])
  }

  /** The orWhereHas of one item of a relation's array. */
  function RelationItemPreds(env: SearchEnv, search: string, table: string, item: RelationItem): seq<Pred>
  {
    match item
    case Direct(column) => [OrWhereHas(table, RelationMatch(env.like, search, column))]
    case Nested(nested, columns) =>
      if (table, nested) in env.nestedRelations
      then NestedPreds(env.like, search, table + "." + nested, columns)
      else []
  }

  function ItemPreds(env: SearchEnv, search: string, table: string, items: seq<RelationItem>): seq<Pred>
  {
    if items == [] then []
    else RelationItemPreds(env, search, table, items[0]) + ItemPreds(env, search, table, items[1..])
  }

  /** filterRelation: the orWhereHas of every relation in order, stopping
      for good at the first relation whose value is not an array. */
  function RelationPreds(env: SearchEnv, search: string, rels: seq<RelationSearch>): seq<Pred>
  {
    if rels == [] then []
    else
      match rels[0].relation
      case Unlisted(_) => []
      case Listed(items) => ItemPreds(env, search, rels[0].table, items) + RelationPreds(env, search, rels[1..])
  }

  /** filterContains: nothing for an empty search; otherwise the search
      group, followed by the relation search when the map is not empty. */
  function SearchPreds(env: SearchEnv, search: string, columns: seq<Column>, rels: seq<RelationSearch>): seq<Pred>
  {
    if search == "" then []
    else [Group(SearchGroup(env, search, columns))] + (if |rels| > 0 then RelationPreds(env, search, rels) else [])
  }

  // ---------------------------------------------------------------------
  // properties

  /** The column predicate of one column names a column of the model's own
      table; a column whose name is missing there gets none, and never
      raises. */
  predicate ListedColumn(env: SearchEnv, p: Pred)
  {
    p.OrWhere? ==> exists col :: col in env.columnList && EndsWith(p.field, "." + col)
  }

  /** Every predicate of the search group is an orWhere on a listed column
      with the search pattern, or an orWhereRaw. */
  lemma {:induction false} SearchGroupListed(env: SearchEnv, search: string, columns: seq<Column>)
    ensures forall p :: p in SearchGroup(env, search, columns) ==>
              (p.OrWhere? || p.OrWhereRaw?) && ListedColumn(env, p) &&
              (p.OrWhere? ==> p.op == env.like && p.val == Str(SearchPattern(search)))
    decreases |columns|
  {
    if columns != [] {
      SearchGroupListed(env, search, columns[1..]);
      var c := columns[0];
      var field := SearchField(c);
      if c.searchable && !c.handledExternally && Truthy(field) {
        var target := SearchTarget(env.table, field);
        var name := target.0 + "." + target.1;
        assert EndsWith(name, "." + target.1) by {
          assert name == target.0 + ("." + target.1);
        }
      }
    }
  }

  /** One column contributes an orWhere exactly when it is searchable, not
      handled externally, has a truthy name, and that name's column part is
      in the listing; and an orWhereRaw exactly when it also has a truthy
      searchableRaw. */
  lemma ColumnPredsCases(env: SearchEnv, search: string, c: Column)
    ensures var eligible := c.searchable && !c.handledExternally && Truthy(SearchField(c));
            var ps := ColumnPreds(env, search, c);
            && ((exists p :: p in ps && p.OrWhere?) <==>
                  eligible && SearchTarget(env.table, SearchField(c)).1 in env.columnList)
            && ((exists p :: p in ps && p.OrWhereRaw?) <==> eligible && Truthy(c.searchableRaw))
            && |ps| <= 2
  {
    var ps := ColumnPreds(env, search, c);
    var eligible := c.searchable && !c.handledExternally && Truthy(SearchField(c));
    if eligible {
      var target := SearchTarget(env.table, SearchField(c));
      if target.1 in env.columnList {
        assert ps[0].OrWhere?;
      }
      if Truthy(c.searchableRaw) {
        assert ps[|ps| - 1].OrWhereRaw?;
      }
    }
  }

  /** Every predicate of the relation search is an orWhereHas holding one
      case-insensitive match of the search pattern. */
  lemma {:induction false} RelationPredsShape(env: SearchEnv, search: string, rels: seq<RelationSearch>)
    ensures forall p :: p in RelationPreds(env, search, rels) ==>
              p.OrWhereHas? && |p.preds| == 1 && p.preds[0].Where? &&
              p.preds[0].op == env.like && p.preds[0].val == Str(SearchPattern(search))
    decreases |rels|
  {
    if rels != [] && rels[0].relation.Listed? {
      ItemPredsShape(env, search, rels[0].table, rels[0].relation.items);
      RelationPredsShape(env, search, rels[1..]);
    }
  }

  lemma {:induction false} ItemPredsShape(env: SearchEnv, search: string, table: string, items: seq<RelationItem>)
    ensures forall p :: p in ItemPreds(env, search, table, items) ==>
              p.OrWhereHas? && |p.preds| == 1 && p.preds[0].Where? &&
              p.preds == RelationMatch(env.like, search, p.preds[0].field)
    decreases |items|
  {
    if items != [] {
      ItemPredsShape(env, search, table, items[1..]);
      if items[0].Nested? {
        NestedPredsShape(env.like, search, table + "." + items[0].nestedTable, items[0].columns);
      }
    }
  }

  lemma {:induction false} NestedPredsShape(like: string, search: string, path: string, columns: seq<string>)
    ensures |NestedPreds(like, search, path, columns)| == |columns|
    ensures forall j :: 0 <= j < |columns| ==>
              NestedPreds(like, search, path, columns)[j] == OrWhereHas(path, RelationMatch(like, search, columns[j]))
    decreases |columns|
  {
    if columns != [] {
      NestedPredsShape(like, search, path, columns[1..]);
    }
  }

  /** A relation whose value is not an array ends the relation search: the
      relations after it add nothing. */
  lemma {:induction false} RelationStopsAtUnlisted(env: SearchEnv, search: string, rels: seq<RelationSearch>, k: nat)
    requires k < |rels| && rels[k].relation.Unlisted?
    ensures RelationPreds(env, search, rels) == RelationPreds(env, search, rels[..k])
    decreases k
  {
    if k > 0 && rels[0].relation.Listed? {
      RelationStopsAtUnlisted(env, search, rels[1..], k - 1);
      assert rels[..k][1..] == rels[1..][..k - 1];
    }
  }

  /** The example of a grid over "users" with columns name and orders.status,
      whose table has no status column, searched for "shipped": the name
      column matches users.name; orders.status is looked up in users' own
      listing and skipped; a relation map orders => ["status"] adds one
      orWhereHas on orders, while orders => "status" adds nothing. */
  lemma SearchExample(like: string)
    ensures var env := SearchEnv("users", ["id", "name"], like, {});
            var columns := [Column("name", "", true, false, ""), Column("orders.status", "", true, false, "")];
            && SearchPreds(env, "shipped", columns, [RelationSearch("orders", Listed([Direct("status")]))]) ==
                 [Group([OrWhere("users.name", like, Str("%shipped%"))]),
                  OrWhereHas("orders", [Where("status", like, Str("%shipped%"))])]
            && SearchPreds(env, "shipped", columns, [RelationSearch("orders", Unlisted("status"))]) ==
                 [Group([OrWhere("users.name", like, Str("%shipped%"))])]
  {
    var env := SearchEnv("users", ["id", "name"], like, {});
    var name := Column("name", "", true, false, "");
    var status := Column("orders.status", "", true, false, "");
    ExampleNameColumn(env);
    ExampleStatusColumn(env);
    var columns := [name, status];
    var hit := [OrWhere("users.name", like, Str("%shipped%"))];
    assert SearchGroup(env, "shipped", [status]) == [] by {
      assert [status][1..] == [];
      assert SearchGroup(env, "shipped", [status]) == ColumnPreds(env, "shipped", status) + SearchGroup(env, "shipped", []);
    }
    assert SearchGroup(env, "shipped", columns) == hit by {
      assert columns[1..] == [status];
      assert SearchGroup(env, "shipped", columns) == ColumnPreds(env, "shipped", name) + SearchGroup(env, "shipped", [status]);
    }
    var has := [OrWhereHas("orders", [Where("status", like, Str("%shipped%"))])];
    var listed := [RelationSearch("orders", Listed([Direct("status")]))];
    assert RelationPreds(env, "shipped", listed) == has by {
      var items := [Direct("status")];
      assert items[1..] == [];
      assert ItemPreds(env, "shipped", "orders", items) == has + ItemPreds(env, "shipped", "orders", []);
      assert listed[1..] == [];
      assert RelationPreds(env, "shipped", listed) == ItemPreds(env, "shipped", "orders", items) + RelationPreds(env, "shipped", []);
    }
    assert SearchPreds(env, "shipped", columns, listed) == [Group(hit)] + has;
    var unlisted := [RelationSearch("orders", Unlisted("status"))];
    assert RelationPreds(env, "shipped", unlisted) == [];
    assert SearchPreds(env, "shipped", columns, unlisted) == [Group(hit)] + [];
  }

  lemma ExampleNameColumn(env: SearchEnv)
    requires env.table == "users" && env.columnList == ["id", "name"]
    ensures ColumnPreds(env, "shipped", Column("name", "", true, false, "")) ==
            [OrWhere("users.name", env.like, Str("%shipped%"))]
  {
    assert Truthy("name") && !Truthy("");
    assert '.' !in "name";
    assert SearchTarget("users", "name") == ("users", "name");
    assert "name" == env.columnList[1];
    assert "name" in env.columnList;
    assert "users" + "." + "name" == "users.name";
    assert SearchPattern("shipped") == "%shipped%";
    var c := Column("name", "", true, false, "");
    assert SearchField(c) == "name";
    var ps := ColumnPreds(env, "shipped", c);
    assert ps == [OrWhere("users.name", env.like, Str("%shipped%"))] + [];
  }

  lemma ExampleStatusColumn(env: SearchEnv)
    requires env.table == "users" && env.columnList == ["id", "name"]
    ensures ColumnPreds(env, "shipped", Column("orders.status", "", true, false, "")) == []
  {
    var field := "orders.status";
    assert Truthy(field) && !Truthy("");
    assert field[6] == '.';
    SplitDots(field);
    assert SearchTarget("users", field) == ("orders", "status");
    assert "status" !in env.columnList;
  }

  /** explode(".", "orders.status") is ["orders", "status"]. */
  lemma SplitDots(field: string)
    requires field == "orders.status"
    ensures Split(field, ".") == ["orders", "status"]
  {
    var a, b := "orders", "status";
    assert field == a + ['.'] + b;
    assert '.' !in a && '.' !in b;
    ContainsChar(b, '.');
    SplitMany(b, ".");
    assert Split(b, ".") == [b];
    SplitAtChar(a, '.', b);
  }
}
