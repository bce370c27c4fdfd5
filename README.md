# PowerGrid filter and search compiler, modelled in Dafny

This project models the filter and search compiler of the PowerGrid
table component (`src/Helpers/Model.php`, class `Model`). The class wraps
an Eloquent query builder and is configured through fluent setters. It
turns the grid's filter state and search string into query predicates:

- `filter()` appends one nested where-group per key of the filter state.
  Inside the group, each field of that key is dispatched to a per-kind
  method: `datetime`, `multi_select`, `select`, `boolean`, `input_text`,
  `contains_text` or `number`.
- `filterContains()` appends one OR-group over the searchable columns.
  `filterRelation()` then appends one `orWhereHas` per related column.

The query builder is modelled as the list of predicates appended to it
(`Query.Builder`, a class whose `Add` appends one `Query.Pred`). A nested
closure becomes a fresh builder whose predicates are wrapped in `Group`.

The modules:

- `Strings`: `explode`, `implode`, `str_replace`, ASCII `strtolower`, PHP
  string truthiness, and Laravel's `filled`.
- `SqlPattern`: a reference meaning of LIKE patterns (`%` and `_`). Every
  LIKE pattern the compiler builds (the input-text operators, the
  contains-text filter and the search) is proved against it.
- `Query`: the predicate datatype and the builder.
- `Filters`: what each filter kind appends, as functions, with their
  lemmas; `CompileFilters` describes a whole `filter()` call.
- `Search`: what the search appends (`SearchPreds`).
- `ModelFilter`: the class `Model` itself. Every method's loop is proved
  to append exactly what the `Filters` and `Search` functions describe.

Where the code and its documentation differ, the model follows the code:

- A relation-search entry whose value is not an array (`"orders" =>
  "status"`) ends the whole relation search (`return` at line 344). It
  does not search the `status` column of `orders`.
- `getContainsSearchFormat("*abc*")` is `"*abc%"`: the trailing-`*` rule
  runs last, on the original value. It is not a substring search.
- `contains_not` compares with `'NOT ' . like`, built from the driver's
  case-insensitive LIKE token, not with a plain `NOT LIKE`.
- A boolean filter has no blank check: any value but `'all'` adds a
  comparison.
- Search looks up the column part of a dotted field `t.c` in the model's
  own table listing, not in `t`'s.
- For a field with a number-input configuration, a number filter casts a
  single bound to float, but passes the two bounds of a range as
  de-localised strings. Without a configuration every bound is compared
  as the raw string.

Each filter method requires its value to have a shape that the method
handles (`Filters.Shaped`). The multi-select filter reads every value of
its list (`List`), and the number filter reads the 'start' and 'end' keys of
its array (`Range`). For the date, select, boolean, input-text and
contains-text filters, an array value is modelled by its first key and the
value under it (`Scoped(key, inner)`), which is all those methods read; a
list given to a select filter is `Scoped("0", first item)`. A date or
boolean value is a string, or an array whose first value is a string or
null; that null reads as "", as PHP's coercion gives it. A bare null given
to the date, select, boolean or number filter is a PHP TypeError before the
method body runs.

## Model

| member | source | states |
|---|---|---|
| ModelFilter.Model.constructor | src/Helpers/Model.php:23-30 | wraps the given builder, with empty columns, search, relation map, filters and range configuration |
| ModelFilter.Model.SetColumns | src/Helpers/Model.php:32-37 | replaces the columns, returns the same model, and leaves every other field unchanged |
| ModelFilter.Model.SetInputRangeConfig | src/Helpers/Model.php:39-44 | replaces the number-input configuration, returns the same model, and leaves every other field unchanged |
| ModelFilter.Model.SetSearch | src/Helpers/Model.php:46-51 | replaces the search string, returns the same model, and leaves every other field unchanged |
| ModelFilter.Model.SetFilters | src/Helpers/Model.php:53-58 | replaces the filter state, returns the same model, and leaves every other field unchanged |
| ModelFilter.Model.SetRelationSearch | src/Helpers/Model.php:60-65 | replaces the relation-search map, returns the same model, and leaves every other field unchanged |
| ModelFilter.Model.Filter | src/Helpers/Model.php:67-108 | appends exactly `CompileFilters(filters)`: one group per key, in order. It reports failure exactly when a field raised, and the groups before that field stay |
| ModelFilter.Model.FilterKey | src/Helpers/Model.php:70-104 | the loop over one key's fields: appends exactly that key's `GroupPreds`, or reports that a field raised |
| ModelFilter.Model.FilterField | src/Helpers/Model.php:72-102 | the switch on the key: appends what `EntryPreds` gives for that kind, and nothing for a key that is not a kind; when a field raises, the builder is left as it was |
| ModelFilter.Model.FilterDatePicker | src/Helpers/Model.php:110-134 | appends exactly `DatePickerPreds` (one whereBetween, or nothing for three or more pieces) |
| ModelFilter.Model.FilterMultiSelect | src/Helpers/Model.php:137-153 | with the `$empty` flag loop: appends one whereIn of the values, unless the list is empty or contains "" |
| ModelFilter.Model.FilterSelect | src/Helpers/Model.php:155-166 | appends exactly `SelectPreds` |
| ModelFilter.Model.FilterBoolean | src/Helpers/Model.php:168-180 | appends exactly `BooleanPreds` |
| ModelFilter.Model.FilterInputText | src/Helpers/Model.php:182-241 | appends exactly the predicates of the field's operator. It raises, adding nothing, when the contains operator meets null |
| ModelFilter.Model.FilterEmptiness | src/Helpers/Model.php:216-239 | the six operators that do not read the value: is_empty and is_not_blank add a comparison with "" and an orWhereNull, is_not_empty a comparison and a whereNotNull, the rest one predicate; an unknown operator adds nothing |
| ModelFilter.Model.FilterContainsText | src/Helpers/Model.php:243-251 | appends exactly one LIKE `%v%` on the target field |
| ModelFilter.Model.FilterNumber | src/Helpers/Model.php:256-290 | appends exactly `NumberPreds` over the configured separators |
| ModelFilter.Model.FilterContains | src/Helpers/Model.php:292-338 | for a non-empty search, appends the search group and then the relation search; for "" it appends nothing; it returns the model itself |
| ModelFilter.Model.FilterColumns | src/Helpers/Model.php:302-327 | the loop over the columns: appends exactly `SearchGroup`, each column's predicates in column order |
| ModelFilter.Model.FilterColumn | src/Helpers/Model.php:302-326 | the loop body for one column: appends exactly `ColumnPreds` (an orWhere if the column part is listed, an orWhereRaw if the column has raw SQL) |
| ModelFilter.Model.FilterRelation | src/Helpers/Model.php:340-366 | appends exactly `RelationPreds`: relations in order, stopping at the first non-array value |
| ModelFilter.Model.FilterRelationItems | src/Helpers/Model.php:347-364 | the loop over one relation's array: appends exactly `ItemPreds` |
| ModelFilter.Model.FilterRelationItem | src/Helpers/Model.php:348-363 | one direct column adds one orWhereHas on the relation; a nested relation adds one orWhereHas per column, or nothing when the nested relation is missing |
| ModelFilter.Model.FilterNested | src/Helpers/Model.php:353-357 | one orWhereHas on `table.nested` per nested column, in order |
| Filters.CompileFiltersGroups | src/Helpers/Model.php:67-108 | `filter()` adds at most one group per key, in order. Group i holds key i's predicates. The call faults exactly when it stops short, and it stops at a key whose group raises |
| Filters.UnknownKeyGroupEmpty | src/Helpers/Model.php:72-102 | a key that is not one of the seven kinds (e.g. `input_text_options`) gets an empty group |
| Filters.GroupFaults | src/Helpers/Model.php:71-103 | a group raises iff one of its fields raises, and only an `input_text` group can raise |
| Filters.DatePickerCases | src/Helpers/Model.php:110-134 | no "to": one whole day. One "to": from the start of the first piece to the end of the second, the pieces rejoin to the value, and neither piece contains "to". Nothing iff there are three or more pieces |
| Filters.DatePickerNullIsOneDay | src/Helpers/Model.php:112-128 | a relation-wrapped null is cut as "", giving one whereBetween over the day "" on `field.k` |
| Filters.DatePickerCutsWords | src/Helpers/Model.php:114-122 | "today" is cut at "to": from the start of day "" to the end of day "day" |
| Filters.MultiSelectCases | src/Helpers/Model.php:137-153 | nothing iff the list is empty or some value is ""; otherwise exactly whereIn(field, values) with the values unchanged |
| Filters.SelectCases | src/Helpers/Model.php:155-166 | at most one predicate, present iff the unwrapped value is a string with a character trim() keeps; it is where(`field.k` or field, '=', v) |
| Filters.SelectSkipsBlank | src/Helpers/Model.php:163 | a whitespace-only value and a relation-wrapped null select nothing |
| Filters.BooleanCases | src/Helpers/Model.php:168-180 | nothing iff the value is "all"; otherwise one comparison on the target field, with true iff the value is "true" or "1" |
| Filters.BooleanNullIsFalse | src/Helpers/Model.php:170-178 | a relation-wrapped null is not "all", so `field.k` is compared with false |
| Filters.InputTextPreds | src/Helpers/Model.php:182-241 | raises iff the operator is contains and the value is null. Nothing iff the operator is not one of the twelve. At most two predicates, two iff is_empty, is_not_empty or is_not_blank. All of them target the (rewritten) field |
| Filters.InputTextDefaultsToContains | src/Helpers/Model.php:189 | with no operator configured, the filter is one LIKE with `getContainsSearchFormat` of the value |
| Filters.ContainsSearchMeaning | src/Helpers/Model.php:375-391 | for a value free of LIKE wildcards: with no `*` the pattern matches the texts containing the value; a leading `*` gives a suffix match; a trailing `*` (with or without a leading one) gives a prefix match on the value without its last character |
| Filters.BothStarsKeepLeadingStar | src/Helpers/Model.php:381-388 | "*abc*" becomes "*abc%", which matches "*abcdef" and not "xabcx" |
| Filters.ContainsTextMeaning | src/Helpers/Model.php:243-251 | one LIKE predicate whose pattern matches exactly the texts containing the value, a `*` included literally |
| Filters.TextPatternMeaning | src/Helpers/Model.php:200-213 | for a wildcard-free value, starts_with gives a LIKE matching exactly the texts that start with it, ends_with one matching those that end with it, and contains_not a NOT LIKE whose pattern matches those that contain it |
| Filters.DelocaliseClean | src/Helpers/Model.php:261-262 | for any one-character separators, each character of the de-localised bound is '.' or a character of the input that is neither separator; a decimal separator other than '.' never survives |
| Filters.DelocaliseExample | src/Helpers/Model.php:261-262 | "1,234.5" with thousands "," and decimal "." becomes "1234.5" |
| Filters.NumberCastOnlySingleBounds | src/Helpers/Model.php:256-290 | for a configured field: at most one predicate, none iff no bound is set. A lone bound is compared as a float; two bounds form a whereBetween of strings |
| Filters.NumberStartExample | src/Helpers/Model.php:258-266 | start "1,234.5" alone gives field >= (float) "1234.5" |
| Search.SearchTarget | src/Helpers/Model.php:305-315 | a field without a dot names the model's table. A dotted field is the table, a dot and the column, possibly followed by further dot-separated parts that are dropped; neither the table nor the column contains a dot, so the cut is at the first dot |
| Search.SearchPatternMeaning | src/Helpers/Model.php:320-361 | the pattern of every search LIKE matches exactly the texts containing the wildcard-free search string |
| Search.SearchGroupListed | src/Helpers/Model.php:302-327 | every predicate of the search group is an orWhere (LIKE the search pattern, on `t.c` with c in the model's own listing) or an orWhereRaw |
| Search.ColumnPredsCases | src/Helpers/Model.php:303-325 | a column adds an orWhere iff it is searchable, not handled externally, has a truthy name, and the name's column part is listed; it adds an orWhereRaw iff it is eligible and has truthy raw SQL |
| Search.RelationPredsShape | src/Helpers/Model.php:340-366 | every relation predicate is an orWhereHas holding one LIKE match of the search pattern |
| Search.NestedPredsShape | src/Helpers/Model.php:353-357 | one orWhereHas per nested column, in order, on `table.nested` |
| Search.RelationStopsAtUnlisted | src/Helpers/Model.php:342-345 | relations after the first non-array value add nothing |
| Search.SearchExample | src/Helpers/Model.php:292-366 | for users with columns name and orders.status, searching "shipped": users.name matches; orders.status is looked up in users' listing and skipped; orders => ["status"] adds one orWhereHas, while orders => "status" adds none |
| Strings.SplitJoin | src/Helpers/Model.php:114-122 | `implode(sep, explode(sep, s)) == s` |
| Strings.SplitPiecesFree | src/Helpers/Model.php:114-122 | no piece of explode contains the separator: it cuts at every occurrence |
| Strings.SplitMany | src/Helpers/Model.php:126-133 | explode gives two or more pieces iff the separator occurs |
| Strings.ReplaceAllIsSplitJoin | src/Helpers/Model.php:261-262 | `str_replace` is explode followed by implode with the replacement |
| Strings.ReplaceCharOrigin | src/Helpers/Model.php:261-262 | after replacing a character, every character comes from the replacement or is an original character other than the replaced one |
| SqlPattern.MatchesInfix | src/Helpers/Model.php:378 | "%" + w + "%" matches exactly the texts containing a wildcard-free w |
| SqlPattern.MatchesPrefix | src/Helpers/Model.php:387 | w + "%" matches exactly the texts starting with w |
| SqlPattern.MatchesSuffix | src/Helpers/Model.php:383 | "%" + w matches exactly the texts ending with w |

## Left out

- The column listing of the model's table is a given sequence. `Cache::remember` with its 600-second lifetime and `Schema::getColumnListing` are database access and caching.
- Carbon date parsing and `startOfDay`/`endOfDay` are kept as the unevaluated terms `StartOfDay(d)` and `EndOfDay(d)`. An unparsable date, which Carbon rejects with an exception, is not modelled.
- The `(float)` cast is kept as the term `Float(s)`, since floating point is out of scope. Its parsing of a partly numeric string is not modelled.
- `SqlSupport::like` is a constant token (`like`) fixed per model. SqlSupport is not part of this model.
- `validateInputTextOptions` and `data_get` are modelled as a lookup of the exact field name among the `input_text_options` entries. A string entry is used, lower-cased with ASCII `strtolower`. Dot-path traversal of `data_get` for dotted field names is not modelled.
- ModelFilter.Model.FilterBoolean: PHP's loose `==` makes any value that compares equal to "1" or "true" (e.g. "01" compared numerically) true; the model uses string equality.
- ModelFilter.Model.FilterMultiSelect: values are strings; the PHP strict `=== ''` on non-string values is not modelled.
- Uninitialised typed properties (calling `filter()` before `setFilters`) are not modelled: the constructor gives every field an empty value.
- `getRelation` on an undefined relation throws in Eloquent. The model treats the nested relations as a given set of (relation, nested relation) pairs; a missing pair adds nothing.
- Eloquent's own rewriting of predicates is not modelled: for example, it drops empty nested groups and turns `where(f, '=', null)` into `whereNull(f)`. So is SQL evaluation of the predicates. `SqlPattern.Matches` is a reference meaning of LIKE patterns, not a database.
- The search string is pasted unescaped into the `orWhereRaw` SQL text. The model keeps the text as built and says nothing about its SQL meaning.
- Values outside `Shaped` are not modelled. A bare null given to the date, multi-select, select, boolean or number filter is among them, since those parameter types reject it (the input-text and contains-text filters accept null and are modelled with it). Some array shapes are excluded too, which PHP would accept:
  - a nested array under a boolean's key, which loose comparison turns into a comparison with false;
  - an array under a select's key, which `filled` accepts and Eloquent then compares as a list;
  - an empty array for a date, select or boolean filter, whose missing first key reads as null with a warning.
- Cookie persistence, themes and view templates are outside the compiler.
