/** The Model helper: a builder wrapper configured through fluent setters,
    whose filter() appends one nested where-group per filter key and whose
    filterContains() appends the search group and the relation search. Each
    method is proved to append exactly the predicates that modules Filters
    and Search specify. */
module ModelFilter {
  import opened Strings
  import opened Query
  import opened Filters
  import opened Search

  class Model {
    var query: Builder
    var columns: seq<Column>
    var search: string
    var relationSearch: seq<RelationSearch>
    var filters: seq<FilterGroup>
    var inputRangeConfig: map<string, Separators>

    /** The model's table, its cached column listing, the nested relations
        getRelation finds, and the driver's case-insensitive LIKE token:
        fixed by the query the helper was made for. */
    const table: string
    const columnList: seq<string>
    const nestedRelations: set<(string, string)>
    const like: string

    /** Model::query($query) / new Model($query). */
    constructor (query: Builder, table: string, columnList: seq<string>,
                 nestedRelations: set<(string, string)>, like: string)
      ensures this.query == query && this.table == table && this.columnList == columnList
      ensures this.nestedRelations == nestedRelations && this.like == like
      ensures columns == [] && search == "" && relationSearch == []
      ensures filters == [] && inputRangeConfig == map[]
    {
      this.query := query;
      this.table := table;
      this.columnList := columnList;
      this.nestedRelations := nestedRelations;
      this.like := like;
      columns := [];
      search := "";
      relationSearch := [];
      filters := [];
      inputRangeConfig := map[];
    }

    function Ctx(): Context
      reads this
    {
      Context(filters, inputRangeConfig, like)
    }

    function Env(): SearchEnv
      reads this
    {
      SearchEnv(table, columnList, like, nestedRelations)
    }

    // -------------------------------------------------------------------
    // setters

    method SetColumns(columns: seq<Column>) returns (r: Model)
      modifies this
      ensures r == this && this.columns == columns
      ensures query == old(query) && search == old(search) && relationSearch == old(relationSearch)
      ensures filters == old(filters) && inputRangeConfig == old(inputRangeConfig)
    {
      this.columns := columns;
      r := this;
    }

    method SetInputRangeConfig(config: map<string, Separators>) returns (r: Model)
      modifies this
      ensures r == this && inputRangeConfig == config
      ensures query == old(query) && columns == old(columns) && search == old(search)
      ensures relationSearch == old(relationSearch) && filters == old(filters)
    {
      inputRangeConfig := config;
      r := this;
    }

    method SetSearch(search: string) returns (r: Model)
      modifies this
      ensures r == this && this.search == search
      ensures query == old(query) && columns == old(columns) && relationSearch == old(relationSearch)
      ensures filters == old(filters) && inputRangeConfig == old(inputRangeConfig)
    {
      this.search := search;
      r := this;
    }

    method SetFilters(filters: seq<FilterGroup>) returns (r: Model)
      modifies this
      ensures r == this && this.filters == filters
      ensures query == old(query) && columns == old(columns) && search == old(search)
      ensures relationSearch == old(relationSearch) && inputRangeConfig == old(inputRangeConfig)
    {
      this.filters := filters;
      r := this;
    }

    method SetRelationSearch(relations: seq<RelationSearch>) returns (r: Model)
      modifies this
      ensures r == this && relationSearch == relations
      ensures query == old(query) && columns == old(columns) && search == old(search)
      ensures filters == old(filters) && inputRangeConfig == old(inputRangeConfig)
    {
      relationSearch := relations;
      r := this;
    }

    // -------------------------------------------------------------------
    // filter()

    /** Appends one nested where-group per key of the filter state, in
        order, each holding what that key's fields dispatch to. ok is false
        when a text filter raised: the groups before it stay appended. */
    method Filter() returns (ok: bool)
      requires StateShaped(filters)
      modifies query
      ensures ok == !CompileFilters(Ctx(), filters).fault
      ensures query.preds == old(query.preds) + CompileFilters(Ctx(), filters).preds
    {
      ghost var ctx := Ctx();
      ghost var target := old(query.preds) + CompileFilters(ctx, filters).preds;
      var i := 0;
      while i < |filters|
        invariant 0 <= i <= |filters|
        invariant StateShaped(filters[i..])
        invariant CompileFilters(ctx, filters[i..]).fault == CompileFilters(ctx, filters).fault
        invariant query.preds + CompileFilters(ctx, filters[i..]).preds == target
      {
        assert filters[i..][0] == filters[i] && filters[i..][1..] == filters[i + 1..];
        var key, entries := filters[i].key, filters[i].entries;
        assert EntriesShaped(key, entries);
        var group := new Builder();
        assert group.preds == [];
        var raised := FilterKey(group, key, entries);
        assert Ctx() == ctx;
        if raised {
          assert CompileFilters(ctx, filters[i..]) == Compiled([], true);
          return false;
        }
        ghost var g := GroupPreds(ctx, key, entries).value;
        assert [] + g == g;
        assert GroupPreds(ctx, key, entries) == Some(group.preds);
        ghost var rest := CompileFilters(ctx, filters[i + 1..]);
        assert CompileFilters(ctx, filters[i..]) == Compiled([Group(group.preds)] + rest.preds, rest.fault);
        ghost var before := query.preds;
        query.Add(Group(group.preds));
        AppendAssoc(before, [Group(group.preds)], rest.preds);
        i := i + 1;
      }
      ok := true;
    }

    /** The inner loop of filter() over the fields of one key; raised is
        true when one of them raised, and the group is then dropped. */
    method FilterKey(q: Builder, key: string, entries: seq<Entry>) returns (raised: bool)
      requires EntriesShaped(key, entries)
      modifies q
      ensures raised == GroupPreds(Ctx(), key, entries).None?
      ensures !raised ==> q.preds == old(q.preds) + GroupPreds(Ctx(), key, entries).value
    {
      ghost var ctx := Ctx();
      ghost var acc: seq<Pred> := [];
      var j := 0;
      assert entries[0..] == entries;
      PrependEmpty(GroupPreds(ctx, key, entries));
      while j < |entries|
        invariant 0 <= j <= |entries|
        invariant EntriesShaped(key, entries[j..])
        invariant q.preds == old(q.preds) + acc
        invariant GroupPreds(ctx, key, entries) == Prepend(acc, GroupPreds(ctx, key, entries[j..]))
      {
        GroupPredsStep(ctx, key, entries, j);
        var field, value := entries[j].field, entries[j].value;
        assert entries[j] == Entry(field, value);
        raised := FilterField(q, key, field, value);
        if raised {
          return;
        }
        ghost var head := EntryPreds(ctx, key, entries[j]).value;
        AppendAssoc(old(q.preds), acc, head);
        PrependAppend(acc, head, GroupPreds(ctx, key, entries[j + 1..]));
        acc := acc + head;
        j := j + 1;
      }
      assert entries[j..] == [];
      assert acc + [] == acc;
      raised := false;
    }

    /** The switch of filter() on the key, for one field and its value. */
    method FilterField(q: Builder, key: string, field: string, value: Value) returns (raised: bool)
      requires Shaped(key, value)
      modifies q
      ensures raised == EntryPreds(Ctx(), key, Entry(field, value)).None?
      ensures !raised ==> q.preds == old(q.preds) + EntryPreds(Ctx(), key, Entry(field, value)).value
      ensures raised ==> q.preds == old(q.preds)
    {
      raised := false;
      if key == Datetime {
        FilterDatePicker(q, field, value);
      } else if key == MultiSelect {
        FilterMultiSelect(q, field, value.items);
      } else if key == Select {
        FilterSelect(q, field, value);
      } else if key == Boolean {
        FilterBoolean(q, field, value);
      } else if key == InputText {
        raised := FilterInputText(q, field, value);
      } else if key == ContainsText {
        FilterContainsText(q, field, value);
      } else if key == Number {
        FilterNumber(q, field, value);
      }
    }

    /** A date or date range, with the relation key folded into the field. */
    method FilterDatePicker(q: Builder, field: string, value: Value)
      requires Shaped(Datetime, value)
      modifies q
      ensures q.preds == old(q.preds) + DatePickerPreds(field, value)
    {
      var f, raw := field, value;
      if value.Scoped? {
        f := field + "." + value.key;
        raw := value.inner;
      }
      var parts := Split(AsString(raw), "to");
      if |parts| == 1 {
        q.Add(WhereBetween(f, StartOfDay(parts[0]), EndOfDay(parts[0])));
      }
      if |parts| == 2 {
        q.Add(WhereBetween(f, StartOfDay(parts[0]), EndOfDay(parts[1])));
      }
    }

    /** One whereIn unless the list is empty or holds the "" sentinel. */
    method FilterMultiSelect(q: Builder, field: string, values: seq<string>)
      modifies q
      ensures q.preds == old(q.preds) + MultiSelectPreds(field, values)
    {
      var empty := false;
      if |values| == 0 {
        return;
      }
      var i := 0;
      while i < |values|
        invariant 0 <= i <= |values|
        invariant empty <==> "" in values[..i]
      {
        if values[i] == "" {
          empty := true;
        }
        i := i + 1;
      }
      assert values[..i] == values;
      if !empty {
        q.Add(WhereIn(field, values));
      }
    }

    method FilterSelect(q: Builder, field: string, values: Value)
      requires Shaped(Select, values)
      modifies q
      ensures q.preds == old(q.preds) + SelectPreds(field, values)
    {
      var f, x := field, values;
      if values.Scoped? {
        f := field + "." + values.key;
        x := values.inner;
      }
      if x.Text? && Filled(x.s) {
        q.Add(Where(f, "=", Str(x.s)));
      }
    }

    method FilterBoolean(q: Builder, field: string, value: Value)
      requires Shaped(Boolean, value)
      modifies q
      ensures q.preds == old(q.preds) + BooleanPreds(field, value)
    {
      var f, x := field, value;
      if value.Scoped? {
        f := field + "." + value.key;
        x := value.inner;
      }
      var s := AsString(x);
      if s != "all" {
        var b := s == "true" || s == "1";
        q.Add(Where(f, "=", Flag(b)));
      }
    }

    /** The predicates of the field's text operator; raised is true (and
        nothing is added) when the "contains" operator meets a null value. */
    method FilterInputText(q: Builder, field: string, value: Value) returns (raised: bool)
      requires Shaped(InputText, value)
      modifies q
      ensures raised == InputTextPreds(Ctx(), field, value).None?
      ensures !raised ==> q.preds == old(q.preds) + InputTextPreds(Ctx(), field, value).value
      ensures raised ==> q.preds == old(q.preds)
    {
      var f, x := field, value;
      if value.Scoped? {
        f := field + "." + value.key;
        x := value.inner;
      }
      var op := TextOperator(filters, f);
      var s := AsString(x);
      var raw := if x.Text? then Str(x.s) else Nil;
      raised := false;
      if op == "is" {
        q.Add(Where(f, "=", raw));
      } else if op == "is_not" {
        q.Add(Where(f, "!=", raw));
      } else if op == "starts_with" {
        q.Add(Where(f, like, Str(s + "%")));
      } else if op == "ends_with" {
        q.Add(Where(f, like, Str("%" + s)));
      } else if op == "contains" {
        if x.Null? {
          raised := true;
          return;
        }
        q.Add(Where(f, like, Str(ContainsSearchFormat(s))));
      } else if op == "contains_not" {
        q.Add(Where(f, "NOT " + like, Str("%" + s + "%")));
      } else {
        FilterEmptiness(q, op, f);
      }
    }

    /** The cases of filterInputText's switch that do not read the value. */
    method FilterEmptiness(q: Builder, op: string, f: string)
      modifies q
      ensures q.preds == old(q.preds) + EmptinessPreds(op, f)
    {
      if op == "is_empty" {
        q.Add(Where(f, "=", Str("")));
        q.Add(OrWhereNull(f));
      } else if op == "is_not_empty" {
        q.Add(Where(f, "!=", Str("")));
        q.Add(WhereNotNull(f));
      } else if op == "is_null" {
        q.Add(WhereNull(f));
      } else if op == "is_not_null" {
        q.Add(WhereNotNull(f));
      } else if op == "is_blank" {
        q.Add(Where(f, "=", Str("")));
      } else if op == "is_not_blank" {
        q.Add(Where(f, "!=", Str("")));
        q.Add(OrWhereNull(f));
      }
    }

    method FilterContainsText(q: Builder, field: string, value: Value)
      requires Shaped(ContainsText, value)
      modifies q
      ensures q.preds == old(q.preds) + ContainsTextPreds(like, field, value)
    {
      var f, x := field, value;
      if value.Scoped? {
        f := field + "." + value.key;
        x := value.inner;
      }
      q.Add(Where(f, like, Str("%" + AsString(x) + "%")));
    }

    method FilterNumber(q: Builder, field: string, value: Value)
      requires Shaped(Number, value)
      modifies q
      ensures q.preds == old(q.preds) + NumberPreds(inputRangeConfig, field, value)
    {
      if value.start.Some? && value.end.None? {
        var start := Str(value.start.value);
        if field in inputRangeConfig {
          var sep := inputRangeConfig[field];
          var stripped := ReplaceAll(value.start.value, sep.thousands, "");
          start := Float(ReplaceAll(stripped, sep.decimal, "."));
        }
        q.Add(Where(field, ">=", start));
      }
      if value.start.None? && value.end.Some? {
        var end := Str(value.end.value);
        if field in inputRangeConfig {
          var sep := inputRangeConfig[field];
          var stripped := ReplaceAll(value.end.value, sep.thousands, "");
          end := Float(ReplaceAll(stripped, sep.decimal, "."));
        }
        q.Add(Where(field, "<=", end));
      }
      if value.start.Some? && value.end.Some? {
        var start, end := value.start.value, value.end.value;
        if field in inputRangeConfig {
          var sep := inputRangeConfig[field];
          start := ReplaceAll(value.start.value, sep.thousands, "");
          start := ReplaceAll(start, sep.decimal, ".");
          end := ReplaceAll(value.end.value, sep.thousands, "");
          end := ReplaceAll(end, sep.decimal, ".");
        }
        q.Add(WhereBetween(field, Str(start), Str(end)));
      }
    }

    // -------------------------------------------------------------------
    // search

    /** Nothing for an empty search; otherwise one group of orWhere and
        orWhereRaw over the columns, then the relation search. */
    method FilterContains() returns (r: Model)
      modifies query
      ensures r == this
      ensures query.preds == old(query.preds) + SearchPreds(Env(), search, columns, relationSearch)
    {
      r := this;
      if search == "" {
        assert query.preds + [] == query.preds;
      } else {
        var group := new Builder();
        FilterColumns(group);
        assert group.preds == SearchGroup(Env(), search, columns);
        ghost var before := query.preds;
        query.Add(Group(group.preds));
        if |relationSearch| > 0 {
          FilterRelation();
          AppendAssoc(before, [Group(group.preds)], RelationPreds(Env(), search, relationSearch));
        } else {
          assert [Group(group.preds)] + [] == [Group(group.preds)];
        }
      }
    }

    /** The loop of filterContains' closure over the columns. */
    method FilterColumns(q: Builder)
      modifies q
      ensures q.preds == old(q.preds) + SearchGroup(Env(), search, columns)
    {
      ghost var env := Env();
      var i := 0;
      while i < |columns|
        invariant 0 <= i <= |columns|
        invariant q.preds + SearchGroup(env, search, columns[i..]) == old(q.preds) + SearchGroup(env, search, columns)
      {
        assert columns[i..][0] == columns[i] && columns[i..][1..] == columns[i + 1..];
        ghost var before := q.preds;
        ghost var head := ColumnPreds(env, search, columns[i]);
        ghost var rest := SearchGroup(env, search, columns[i + 1..]);
        assert SearchGroup(env, search, columns[i..]) == head + rest;
        FilterColumn(q, columns[i]);
        AppendAssoc(before, head, rest);
        i := i + 1;
      }
      assert columns[i..] == [];
      assert q.preds + [] == q.preds;
    }

    /** The body of filterContains' loop for one column: an orWhere on the
        column when the model's table lists it, an orWhereRaw when the column
        carries raw SQL. */
    method FilterColumn(q: Builder, column: Column)
      modifies q
      ensures q.preds == old(q.preds) + ColumnPreds(Env(), search, column)
    {
      var field := if Truthy(column.dataField) then column.dataField else column.field;
      var tbl := table;
      if column.searchable && !column.handledExternally && Truthy(field) {
        if '.' in field {
          ContainsChar(field, '.');
          SplitMany(field, ".");
          var parts := Split(field, ".");
          tbl := parts[0];
          field := parts[1];
        }
        assert (tbl, field) == SearchTarget(table, SearchField(column));
        ghost var before := q.preds;
        ghost var hit: seq<Pred> := [];
        var hasColumn := field in columnList;
        if hasColumn {
          hit := [OrWhere(tbl + "." + field, like, Str(SearchPattern(search)))];
          q.Add(OrWhere(tbl + "." + field, like, Str("%" + search + "%")));
        }
        assert q.preds == before + hit;
        var sqlRaw := column.searchableRaw;
        if Truthy(sqlRaw) {
          q.Add(OrWhereRaw(sqlRaw + " " + like + " '%" + search + "%'"));
          AppendAssoc(before, hit, [OrWhereRaw(sqlRaw + " " + like + " '%" + search + "%'")]);
        }
      }
    }

    /** One orWhereHas per direct column and per column of an existing
        nested relation, stopping at the first relation that is not an array. */
    method FilterRelation()
      modifies query
      ensures query.preds == old(query.preds) + RelationPreds(Env(), search, relationSearch)
    {
      ghost var env := Env();
      ghost var target := old(query.preds) + RelationPreds(env, search, relationSearch);
      var i := 0;
      while i < |relationSearch|
        invariant 0 <= i <= |relationSearch|
        invariant query.preds + RelationPreds(env, search, relationSearch[i..]) == target
      {
        var rels := relationSearch[i..];
        assert rels[0] == relationSearch[i] && rels[1..] == relationSearch[i + 1..];
        var tbl, relation := relationSearch[i].table, relationSearch[i].relation;
        if !relation.Listed? {
          assert RelationPreds(env, search, rels) == [];
          assert query.preds == target;
          return;
        }
        ghost var before := query.preds;
        ghost var head := ItemPreds(env, search, tbl, relation.items);
        ghost var tail := RelationPreds(env, search, relationSearch[i + 1..]);
        assert RelationPreds(env, search, rels) == head + tail;
        FilterRelationItems(query, tbl, relation.items);
        AppendAssoc(before, head, tail);
        i := i + 1;
      }
    }

    /** The loop of filterRelation over the array of one relation. */
    method FilterRelationItems(q: Builder, tbl: string, items: seq<RelationItem>)
      modifies q
      ensures q.preds == old(q.preds) + ItemPreds(Env(), search, tbl, items)
    {
      var j := 0;
      while j < |items|
        invariant 0 <= j <= |items|
        invariant q.preds + ItemPreds(Env(), search, tbl, items[j..]) == old(q.preds) + ItemPreds(Env(), search, tbl, items)
      {
        assert items[j..][0] == items[j] && items[j..][1..] == items[j + 1..];
        ghost var before := q.preds;
        ghost var head := RelationItemPreds(Env(), search, tbl, items[j]);
        ghost var rest := ItemPreds(Env(), search, tbl, items[j + 1..]);
        assert ItemPreds(Env(), search, tbl, items[j..]) == head + rest;
        FilterRelationItem(q, tbl, items[j]);
        AppendAssoc(before, head, rest);
        j := j + 1;
      }
      assert items[j..] == [];
    }

    /** The body of filterRelation for one entry of a relation's array: a
        column name, or a nested relation with its columns. */
    method FilterRelationItem(q: Builder, tbl: string, item: RelationItem)
      modifies q
      ensures q.preds == old(q.preds) + RelationItemPreds(Env(), search, tbl, item)
    {
      match item {
      case Nested(nestedTable, nestedColumns) =>
        if (tbl, nestedTable) in nestedRelations {
          FilterNested(q, tbl + "." + nestedTable, nestedColumns);
        }
      case Direct(column) =>
        q.Add(OrWhereHas(tbl, [Where(column, like, Str("%" + search + "%"))]));
      }
    }

    /** One orWhereHas on the nested relation path per listed column. */
    method FilterNested(q: Builder, path: string, columns: seq<string>)
      modifies q
      ensures q.preds == old(q.preds) + NestedPreds(like, search, path, columns)
    {
      var k := 0;
      while k < |columns|
        invariant 0 <= k <= |columns|
        invariant q.preds + NestedPreds(like, search, path, columns[k..]) == old(q.preds) + NestedPreds(like, search, path, columns)
      {
        assert columns[k..][0] == columns[k] && columns[k..][1..] == columns[k + 1..];
        ghost var before := q.preds;
        ghost var rest := NestedPreds(like, search, path, columns[k + 1..]);
        var p := OrWhereHas(path, [Where(columns[k], like, Str("%" + search + "%"))]);
        assert NestedPreds(like, search, path, columns[k..]) == [p] + rest;
        q.Add(p);
        AppendAssoc(before, [p], rest);
        k := k + 1;
      }
      assert columns[k..] == [];
    }
  }
}
