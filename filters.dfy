/** What the filter half of the compiler appends for a filter state: the
    value shapes of each filter kind, the predicates each kind produces for
    one field, and the grouping that filter() builds around them. The class
    in module ModelFilter is proved to append exactly these predicates. */
module Filters {
  import opened Strings
  import opened Query
  import opened SqlPattern

  /** A raw filter value as the front end sends it: a string, null, a list
      of strings, a relation-wrapped {key: inner} (only the first key is
      read), or the {start, end} array of a number filter (an absent or null
      bound is None, as isset() sees it). */
  datatype Value =
    | Text(s: string)
    | Null
    | List(items: seq<string>)
    | Scoped(key: string, inner: Value)
    | Range(start: Option<string>, end: Option<string>)

  /** One field => value pair of a filter kind. */
  datatype Entry = Entry(field: string, value: Value)

  /** One key of the filter state (a kind, or "input_text_options") with its
      field => value pairs, in array order. */
  datatype FilterGroup = FilterGroup(key: string, entries: seq<Entry>)

  /** The number-input configuration of one field. */
  datatype Separators = Separators(thousands: string, decimal: string)

  /** What every filter method reads besides its own arguments: the whole
      filter state (for the text operators), the number-input configuration
      and the driver's case-insensitive LIKE token. */
  datatype Context = Context(filters: seq<FilterGroup>, ranges: map<string, Separators>, like: string)

  /** What filter() leaves behind: the groups appended, and whether a filter
      method raised (the groups before it stay, nothing after it is added). */
  datatype Compiled = Compiled(preds: seq<Pred>, fault: bool)

  const Datetime: string := "datetime"
  const MultiSelect: string := "multi_select"
  const Select: string := "select"
  const Boolean: string := "boolean"
  const InputText: string := "input_text"
  const ContainsText: string := "contains_text"
  const Number: string := "number"
  const TextOptions: string := "input_text_options"

  predicate IsKind(key: string)
  {
    key in [Datetime, MultiSelect, Select, Boolean, InputText, ContainsText, Number]
  }

  // ---------------------------------------------------------------------
  // value shapes, as the PHP parameter types admit them

  predicate TextOrNull(v: Value)
  {
    v.Text? || v.Null?
  }

  /** The values a filter method of the given kind accepts. */
  predicate Shaped(kind: string, v: Value)
  {
    if kind == Datetime || kind == Boolean then v.Text? || (v.Scoped? && TextOrNull(v.inner))
    else if kind == MultiSelect then v.List?
    else if kind == Select then v.Text? || (v.Scoped? && TextOrNull(v.inner))
    else if kind == InputText || kind == ContainsText then TextOrNull(v) || (v.Scoped? && TextOrNull(v.inner))
    else if kind == Number then v.Range?
    else true
  }

  predicate EntriesShaped(kind: string, entries: seq<Entry>)
  {
    forall j :: 0 <= j < |entries| ==> Shaped(kind, entries[j].value)
  }

  predicate StateShaped(groups: seq<FilterGroup>)
  {
    forall i :: 0 <= i < |groups| ==> EntriesShaped(groups[i].key, groups[i].entries)
  }

  // ---------------------------------------------------------------------
  // the relation-key rewrite

  /** A relation-wrapped {k: inner} filters field.k; any other value filters field. */
  function TargetField(field: string, v: Value): string
  {
    if v.Scoped? then field + "." + v.key else field
  }

  function TargetValue(v: Value): Value
  {
    if v.Scoped? then v.inner else v
  }

  /** The string PHP's concatenation makes of a string or null. */
  function AsString(v: Value): string
  {
    if v.Text? then v.s else ""
  }

  /** The predicate targets the given field. */
  predicate OnField(p: Pred, f: string)
  {
    match p
    case Where(g, _, _) => g == f
    case OrWhere(g, _, _) => g == f
    case WhereIn(g, _) => g == f
    case WhereBetween(g, _, _) => g == f
    case WhereNull(g) => g == f
    case WhereNotNull(g) => g == f
    case OrWhereNull(g) => g == f
    case _ => false
  }

  // ---------------------------------------------------------------------
  // datetime

  /** The whereBetween a date value adds: the value is cut at every "to";
      one piece is one whole day, two pieces run from the start of the first
      day to the end of the second, more pieces add nothing. A relation-wrapped
      null is cut as "", as explode coerces it. */
  function DatePickerPreds(field: string, v: Value): seq<Pred>
    requires Shaped(Datetime, v)
  {
    var f := TargetField(field, v);
    var parts := Split(AsString(TargetValue(v)), "to");
    if |parts| == 1 then [WhereBetween(f, StartOfDay(parts[0]), EndOfDay(parts[0]))]
    else if |parts| == 2 then [WhereBetween(f, StartOfDay(parts[0]), EndOfDay(parts[1]))]
    else []
  }

  lemma DatePickerCases(field: string, v: Value)
    requires Shaped(Datetime, v)
    ensures var f, s := TargetField(field, v), AsString(TargetValue(v));
            && (!Contains(s, "to") ==>
                  DatePickerPreds(field, v) == [WhereBetween(f, StartOfDay(s), EndOfDay(s))])
            && (|Split(s, "to")| == 2 ==>
                  var a, b := Split(s, "to")[0], Split(s, "to")[1];
                  s == a + "to" + b && !Contains(a, "to") && !Contains(b, "to") &&
                  DatePickerPreds(field, v) == [WhereBetween(f, StartOfDay(a), EndOfDay(b))])
            && (DatePickerPreds(field, v) == [] <==> |Split(s, "to")| >= 3)
  {
    var s := AsString(TargetValue(v));
    SplitMany(s, "to");
    if |Split(s, "to")| == 2 {
      SplitTwo(s, "to");
      SplitPiecesFree(s, "to");
    }
  }

  /** A relation-wrapped null date is one piece, "": one whereBetween. */
  lemma DatePickerNullIsOneDay(field: string)
    ensures DatePickerPreds(field, Scoped("k", Null)) ==
            [WhereBetween(field + ".k", StartOfDay(""), EndOfDay(""))]
  {
    assert AsString(TargetValue(Scoped("k", Null))) == "";
    assert TargetField(field, Scoped("k", Null)) == field + ".k";
    assert |""| < |"to"|;
    assert Split("", "to") == [""];
  }

  /** A date containing the word "to" is cut there too: "today" reads as the
      range from the start of day "" to the end of day "day". */
  lemma DatePickerCutsWords(field: string)
    ensures DatePickerPreds(field, Text("today")) ==
            [WhereBetween(field, StartOfDay(""), EndOfDay("day"))]
  {
    var s := "today";
    assert s[..2] == "to";
    assert s[2..] == "day";
    var rest := s[2..];
    assert !Contains(rest, "to") by {
      assert rest[..2] == "da";
      assert rest[1..] == "ay";
      assert rest[1..][..2] == "ay";
      assert rest[1..][1..] == "y";
      ShortNotContains(rest[1..][1..], "to");
    }
    SplitMany(rest, "to");
    assert Split(s, "to") == [[]] + Split(rest, "to");
  }

  // ---------------------------------------------------------------------
  // multi_select

  /** No predicate for an empty list or a list holding the "" sentinel,
      otherwise one whereIn over the values as given. */
  function MultiSelectPreds(field: string, values: seq<string>): seq<Pred>
  {
    if |values| == 0 || "" in values then [] else [WhereIn(field, values)]
  }

  /** The list is filtered on exactly when it is non-empty and no value is
      "", and then by membership in the values as given. */
  lemma MultiSelectCases(field: string, values: seq<string>)
    ensures MultiSelectPreds(field, values) == [] <==>
              values == [] || exists i :: 0 <= i < |values| && values[i] == ""
    ensures MultiSelectPreds(field, values) != [] ==>
              MultiSelectPreds(field, values) == [WhereIn(field, values)]
  {
    if "" in values {
      var i :| 0 <= i < |values| && values[i] == "";
    }
  }

  // ---------------------------------------------------------------------
  // select and boolean

  /** where(field, value) when the (unwrapped) value is filled. */
  function SelectPreds(field: string, v: Value): seq<Pred>
    requires Shaped(Select, v)
  {
    var x := TargetValue(v);
    if x.Text? && Filled(x.s) then [Where(TargetField(field, v), "=", Str(x.s))] else []
  }

  /** A select adds one equality on the target field exactly when the
      unwrapped value is a string with a character trim() keeps. */
  lemma SelectCases(field: string, v: Value)
    requires Shaped(Select, v)
    ensures |SelectPreds(field, v)| <= 1
    ensures SelectPreds(field, v) != [] <==>
              TargetValue(v).Text? && exists i :: 0 <= i < |TargetValue(v).s| && !IsTrimmed(TargetValue(v).s[i])
    ensures SelectPreds(field, v) != [] ==>
              SelectPreds(field, v)[0] == Where(TargetField(field, v), "=", Str(TargetValue(v).s))
  {
  }

  /** A blank string and null select nothing. */
  lemma SelectSkipsBlank(field: string)
    ensures SelectPreds(field, Text(" \t ")) == []
    ensures SelectPreds(field, Scoped("id", Null)) == []
  {
    var s := " \t ";
    assert forall i | 0 <= i < |s| :: IsTrimmed(s[i]);
  }

  /** Nothing for "all"; otherwise where(field, '=', b) with b true exactly
      for "true" and "1". */
  function BooleanPreds(field: string, v: Value): seq<Pred>
    requires Shaped(Boolean, v)
  {
    var s := AsString(TargetValue(v));
    if s == "all" then [] else [Where(TargetField(field, v), "=", Flag(s == "true" || s == "1"))]
  }

  /** A relation-wrapped null is neither "all" nor "true" nor "1": the
      field is compared with false. */
  lemma BooleanNullIsFalse(field: string)
    ensures BooleanPreds(field, Scoped("k", Null)) == [Where(field + ".k", "=", Flag(false))]
  {
    var s := AsString(TargetValue(Scoped("k", Null)));
    assert s == "";
    assert s != "all" && s != "true" && s != "1";
    assert TargetField(field, Scoped("k", Null)) == field + ".k";
  }

  lemma BooleanCases(field: string, v: Value)
    requires Shaped(Boolean, v)
    ensures var s := AsString(TargetValue(v));
            && (BooleanPreds(field, v) == [] <==> s == "all")
            && (s != "all" ==>
                  && |BooleanPreds(field, v)| == 1
                  && OnField(BooleanPreds(field, v)[0], TargetField(field, v))
                  && (BooleanPreds(field, v)[0].val == Flag(true) <==> s in {"true", "1"}))
  {
  }

  // ---------------------------------------------------------------------
  // input_text

  /** The entry for field in an "input_text_options" array, when it is a string. */
  function OptionIn(entries: seq<Entry>, field: string): Option<string>
  {
    if entries == [] then None
    else if entries[0].field == field then
      (if entries[0].value.Text? then Some(entries[0].value.s) else None)
    else OptionIn(entries[1..], field)
  }

  function TextOption(groups: seq<FilterGroup>, field: string): Option<string>
  {
    if groups == [] then None
    else if groups[0].key == TextOptions then OptionIn(groups[0].entries, field)
    else TextOption(groups[1..], field)
  }

  /** The configured operator of a text field, lower-cased; "contains" when unset. */
  function TextOperator(groups: seq<FilterGroup>, field: string): string
  {
    match TextOption(groups, field)
    case Some(op) => Lower(op)
    case None => "contains"
  }

  const TextOperators: seq<string> :=
    ["is", "is_not", "starts_with", "ends_with", "contains", "contains_not",
     "is_empty", "is_not_empty", "is_null", "is_not_null", "is_blank", "is_not_blank"]

  /** getContainsSearchFormat: "%v%", a leading '*' anchors at the end
      ("%" + v without it), a trailing '*' anchors at the start (v without it
      + "%"); the trailing rule is checked last, on the original value. */
  function ContainsSearchFormat(v: string): string
  {
    var plain := "%" + v + "%";
    var leading := if StartsWith(v, "*") then "%" + v[1..] else plain;
    if EndsWith(v, "*") then v[..|v| - 1] + "%" else leading
  }

  /** What the pattern of ContainsSearchFormat matches, for a value free of
      LIKE wildcards: a substring, a suffix or a prefix. With a '*' at both
      ends the prefix rule wins and the leading '*' stays in the pattern. */
  lemma ContainsSearchMeaning(v: string, t: string)
    requires Literal(v)
    ensures !StartsWith(v, "*") && !EndsWith(v, "*") ==>
              (Matches(ContainsSearchFormat(v), t) <==> Contains(t, v))
    ensures StartsWith(v, "*") && !EndsWith(v, "*") ==>
              (Matches(ContainsSearchFormat(v), t) <==> EndsWith(t, v[1..]))
    ensures EndsWith(v, "*") ==>
              (Matches(ContainsSearchFormat(v), t) <==> StartsWith(t, v[..|v| - 1]))
  {
    if EndsWith(v, "*") {
      MatchesPrefix(v[..|v| - 1], t);
    } else if StartsWith(v, "*") {
      MatchesSuffix(v[1..], t);
    } else {
      MatchesInfix(v, t);
    }
  }

  /** "*abc*" becomes "*abc%": it matches texts that start with "*abc",
      not texts that merely contain "abc". */
  lemma BothStarsKeepLeadingStar()
    ensures ContainsSearchFormat("*abc*") == "*abc%"
    ensures Matches(ContainsSearchFormat("*abc*"), "*abcdef")
    ensures !Matches(ContainsSearchFormat("*abc*"), "xabcx")
  {
    var v := "*abc*";
    assert EndsWith(v, "*");
    assert v[..|v| - 1] == "*abc";
    assert Literal("*abc");
    MatchesPrefix("*abc", "*abcdef");
    MatchesPrefix("*abc", "xabcx");
    assert "*abcdef"[..4] == "*abc";
  }

  /** The predicates of one text filter under operator op; None when
      getContainsSearchFormat is handed null, which raises a TypeError. The
      operators that compare with the value come first; the rest test the
      field for emptiness or null. */
  function TextPreds(op: string, like: string, f: string, x: Value): Option<seq<Pred>>
  {
    var s := AsString(x);
    var raw := if x.Text? then Str(x.s) else Nil;
    if op == "is" then Some([Where(f, "=", raw)])
    else if op == "is_not" then Some([Where(f, "!=", raw)])
    else if op == "starts_with" then Some([Where(f, like, Str(s + "%"))])
    else if op == "ends_with" then Some([Where(f, like, Str("%" + s))])
    else if op == "contains" then
      (if x.Null? then None else Some([Where(f, like, Str(ContainsSearchFormat(s)))]))
    else if op == "contains_not" then Some([Where(f, "NOT " + like, Str("%" + s + "%"))])
    else Some(EmptinessPreds(op, f))
  }

  /** What the starts_with, ends_with and contains_not patterns of a text
      filter match, for a value free of LIKE wildcards: the texts that start
      with it, end with it, and (under NOT LIKE) contain it. */
  lemma TextPatternMeaning(like: string, f: string, x: Value, t: string)
    requires Literal(AsString(x))
    ensures var p := TextPreds("starts_with", like, f, x).value[0];
            p == Where(f, like, p.val) && p.val.Str? && (Matches(p.val.s, t) <==> StartsWith(t, AsString(x)))
    ensures var p := TextPreds("ends_with", like, f, x).value[0];
            p == Where(f, like, p.val) && p.val.Str? && (Matches(p.val.s, t) <==> EndsWith(t, AsString(x)))
    ensures var p := TextPreds("contains_not", like, f, x).value[0];
            p == Where(f, "NOT " + like, p.val) && p.val.Str? && (Matches(p.val.s, t) <==> Contains(t, AsString(x)))
  {
    MatchesPrefix(AsString(x), t);
    MatchesSuffix(AsString(x), t);
    MatchesInfix(AsString(x), t);
  }

  /** The six operators that do not read the value; nothing for an
      unknown operator. */
  function EmptinessPreds(op: string, f: string): seq<Pred>
  {
    if op == "is_empty" then [Where(f, "=", Str("")), OrWhereNull(f)]
    else if op == "is_not_empty" then [Where(f, "!=", Str("")), WhereNotNull(f)]
    else if op == "is_null" then [WhereNull(f)]
    else if op == "is_not_null" then [WhereNotNull(f)]
    else if op == "is_blank" then [Where(f, "=", Str(""))]
    else if op == "is_not_blank" then [Where(f, "!=", Str("")), OrWhereNull(f)]
    else []
  }

  function InputTextPreds(ctx: Context, field: string, v: Value): (r: Option<seq<Pred>>)
    requires Shaped(InputText, v)
    ensures var f, op := TargetField(field, v), TextOperator(ctx.filters, TargetField(field, v));
            && (r.None? <==> op == "contains" && TargetValue(v).Null?)
            && (r.Some? ==>
                  && (r.value == [] <==> op !in TextOperators)
                  && |r.value| <= 2
                  && (|r.value| == 2 <==> op in {"is_empty", "is_not_empty", "is_not_blank"})
                  && (forall p :: p in r.value ==> OnField(p, f)))
  {
    var f := TargetField(field, v);
    var op := TextOperator(ctx.filters, f);
    TextPredsSize(op, ctx.like, f, TargetValue(v));
    TextPredsField(op, ctx.like, f, TargetValue(v));
    TextPreds(op, ctx.like, f, TargetValue(v))
  }

  lemma TextPredsSize(op: string, like: string, f: string, x: Value)
    ensures var r := TextPreds(op, like, f, x);
            && (r.None? <==> op == "contains" && x.Null?)
            && (r.Some? ==>
                  && (r.value == [] <==> op !in TextOperators)
                  && |r.value| <= 2
                  && (|r.value| == 2 <==> op in {"is_empty", "is_not_empty", "is_not_blank"}))
  {
  }

  lemma TextPredsField(op: string, like: string, f: string, x: Value)
    ensures TextPreds(op, like, f, x).Some? ==> forall p :: p in TextPreds(op, like, f, x).value ==> OnField(p, f)
  {
  }

  /** With no operator configured for the field, a text filter is a
      case-insensitive "contains" search built by ContainsSearchFormat. */
  lemma InputTextDefaultsToContains(ctx: Context, field: string, s: string)
    requires TextOption(ctx.filters, field).None?
    ensures InputTextPreds(ctx, field, Text(s)) ==
            Some([Where(field, ctx.like, Str(ContainsSearchFormat(s)))])
  {
  }

  // ---------------------------------------------------------------------
  // contains_text

  /** A plain "%v%" LIKE, with no '*' handling. */
  function ContainsTextPreds(like: string, field: string, v: Value): seq<Pred>
    requires Shaped(ContainsText, v)
  {
    [Where(TargetField(field, v), like, Str("%" + AsString(TargetValue(v)) + "%"))]
  }

  /** The contains_text pattern matches exactly the texts containing the
      value, a '*' included literally. */
  lemma ContainsTextMeaning(like: string, field: string, v: Value, t: string)
    requires Shaped(ContainsText, v) && Literal(AsString(TargetValue(v)))
    ensures |ContainsTextPreds(like, field, v)| == 1
    ensures var p := ContainsTextPreds(like, field, v)[0];
            p.Where? && p.val.Str? && (Matches(p.val.s, t) <==> Contains(t, AsString(TargetValue(v))))
  {
    MatchesInfix(AsString(TargetValue(v)), t);
  }

  // ---------------------------------------------------------------------
  // number

  /** A bound with every thousands separator removed, then every decimal
      separator replaced by '.'. */
  function Delocalise(s: string, sep: Separators): string
  {
    ReplaceAll(ReplaceAll(s, sep.thousands, ""), sep.decimal, ".")
  }

  /** With one-character separators, every character of a de-localised
      bound is the '.' put in for the decimal separator, or a character of
      the input that is neither separator; so a decimal separator other than
      '.' never survives. */
  lemma DelocaliseClean(s: string, sep: Separators, c: char)
    requires |sep.thousands| == 1 && |sep.decimal| == 1
    requires c in Delocalise(s, sep)
    ensures c == '.' || (c in s && c != sep.thousands[0] && c != sep.decimal[0])
    ensures sep.decimal != "." ==> c != sep.decimal[0]
  {
    var t, d := sep.thousands[0], sep.decimal[0];
    assert sep.thousands == [t] && sep.decimal == [d];
    var stripped := ReplaceAll(s, [t], "");
    ReplaceCharOrigin(stripped, d, ".", c);
    if c != '.' {
      ReplaceCharOrigin(s, t, "", c);
    }
  }

  /** "1,234.5" with thousands "," and decimal "." is "1234.5". */
  lemma DelocaliseExample()
    ensures Delocalise("1,234.5", Separators(",", ".")) == "1234.5"
  {
    StripThousandsExample();
    ReplaceDotByDot("1234.5");
  }

  lemma StripThousandsExample()
    ensures ReplaceAll("1,234.5", ",", "") == "1234.5"
  {
    var s := "1,234.5";
    StripCommaTail();
    assert s[..1] == "1" && s[..1] != "," && s[1..] == ",234.5";
    assert ReplaceAll(s, ",", "") == [s[0]] + ReplaceAll(",234.5", ",", "");
  }

  lemma StripCommaTail()
    ensures ReplaceAll(",234.5", ",", "") == "234.5"
  {
    var t := ",234.5";
    var u := "234.5";
    ContainsChar(u, ',');
    ReplaceAllAbsent(u, ",", "");
    assert t[..1] == "," && t[1..] == u;
    assert ReplaceAll(t, ",", "") == "" + ReplaceAll(u, ",", "");
  }

  /** Replacing '.' by '.' changes nothing. */
  lemma {:induction false} ReplaceDotByDot(s: string)
    ensures ReplaceAll(s, ".", ".") == s
    decreases |s|
  {
    if |s| >= 1 {
      ReplaceDotByDot(s[1..]);
      assert s == [s[0]] + s[1..];
    }
  }

  /** The compared value of a single bound: cast to float when the field
      is configured, the raw string otherwise. */
  function SingleBound(ranges: map<string, Separators>, field: string, s: string): Operand
  {
    if field in ranges then Float(Delocalise(s, ranges[field])) else Str(s)
  }

  /** A bound of a two-bound range: de-localised when configured, never cast. */
  function PairBound(ranges: map<string, Separators>, field: string, s: string): Operand
  {
    if field in ranges then Str(Delocalise(s, ranges[field])) else Str(s)
  }

  function NumberPreds(ranges: map<string, Separators>, field: string, v: Value): seq<Pred>
    requires Shaped(Number, v)
  {
    match (v.start, v.end)
    case (Some(s), None) => [Where(field, ">=", SingleBound(ranges, field, s))]
    case (None, Some(e)) => [Where(field, "<=", SingleBound(ranges, field, e))]
    case (Some(s), Some(e)) => [WhereBetween(field, PairBound(ranges, field, s), PairBound(ranges, field, e))]
    case (None, None) => []
  }

  /** A configured field: one bound is compared as a float, two bounds as
      de-localised strings. */
  lemma NumberCastOnlySingleBounds(ranges: map<string, Separators>, field: string, v: Value)
    requires Shaped(Number, v) && field in ranges
    ensures |NumberPreds(ranges, field, v)| <= 1
    ensures NumberPreds(ranges, field, v) == [] <==> v.start.None? && v.end.None?
    ensures v.start.Some? != v.end.Some? ==>
              NumberPreds(ranges, field, v)[0].Where? && NumberPreds(ranges, field, v)[0].val.Float?
    ensures v.start.Some? && v.end.Some? ==>
              NumberPreds(ranges, field, v)[0].WhereBetween? &&
              NumberPreds(ranges, field, v)[0].low.Str? && NumberPreds(ranges, field, v)[0].high.Str?
  {
  }

  /** The example "1,234.5" as a lone start bound: field >= (float) "1234.5". */
  lemma NumberStartExample(field: string)
    ensures NumberPreds(map[field := Separators(",", ".")], field, Range(Some("1,234.5"), None)) ==
            [Where(field, ">=", Float("1234.5"))]
  {
    DelocaliseExample();
  }

  // ---------------------------------------------------------------------
  // dispatch and grouping

  /** The predicates filter() appends for one field of a given kind; a key
      that is not a kind appends nothing. */
  function EntryPreds(ctx: Context, kind: string, e: Entry): Option<seq<Pred>>
    requires Shaped(kind, e.value)
  {
    if kind == Datetime then Some(DatePickerPreds(e.field, e.value))
    else if kind == MultiSelect then Some(MultiSelectPreds(e.field, e.value.items))
    else if kind == Select then Some(SelectPreds(e.field, e.value))
    else if kind == Boolean then Some(BooleanPreds(e.field, e.value))
    else if kind == InputText then InputTextPreds(ctx, e.field, e.value)
    else if kind == ContainsText then Some(ContainsTextPreds(ctx.like, e.field, e.value))
    else if kind == Number then Some(NumberPreds(ctx.ranges, e.field, e.value))
    else Some([])
  }

  /** The contents of the nested where-group of one key: the predicates of
      its fields in order; None once a field raises. */
  function GroupPreds(ctx: Context, kind: string, entries: seq<Entry>): Option<seq<Pred>>
    requires EntriesShaped(kind, entries)
  {
    if entries == [] then Some([])
    else
      match EntryPreds(ctx, kind, entries[0])
      case None => None
      case Some(first) =>
        match GroupPreds(ctx, kind, entries[1..])
        case None => None
        case Some(rest) => Some(first + rest)
  }

  /** ps followed by what o holds; a raise stays a raise. */
  function Prepend(ps: seq<Pred>, o: Option<seq<Pred>>): Option<seq<Pred>>
  {
    match o
    case None => None
    case Some(rest) => Some(ps + rest)
  }

  lemma PrependEmpty(o: Option<seq<Pred>>)
    ensures Prepend([], o) == o
  {
    if o.Some? {
      assert [] + o.value == o.value;
    }
  }

  lemma PrependAppend(ps: seq<Pred>, qs: seq<Pred>, o: Option<seq<Pred>>)
    ensures Prepend(ps, Prepend(qs, o)) == Prepend(ps + qs, o)
  {
    if o.Some? {
      assert ps + (qs + o.value) == (ps + qs) + o.value;
    }
  }

  /** GroupPreds of the fields from j on: field j's predicates, then the rest. */
  lemma GroupPredsStep(ctx: Context, kind: string, entries: seq<Entry>, j: nat)
    requires EntriesShaped(kind, entries) && j < |entries|
    ensures EntriesShaped(kind, entries[j..]) && EntriesShaped(kind, entries[j + 1..])
    ensures GroupPreds(ctx, kind, entries[j..]) ==
            (match EntryPreds(ctx, kind, entries[j])
             case None => None
             case Some(head) => Prepend(head, GroupPreds(ctx, kind, entries[j + 1..])))
  {
    var tail := entries[j..];
    assert tail[0] == entries[j] && tail[1..] == entries[j + 1..];
  }

  /** filter(): one nested where-group per key of the state, in order. */
  function CompileFilters(ctx: Context, groups: seq<FilterGroup>): Compiled
    requires StateShaped(groups)
  {
    if groups == [] then Compiled([], false)
    else
      match GroupPreds(ctx, groups[0].key, groups[0].entries)
      case None => Compiled([], true)
      case Some(g) =>
        var rest := CompileFilters(ctx, groups[1..]);
        Compiled([Group(g)] + rest.preds, rest.fault)
  }

  /** filter() appends one group per key, in order, each holding that key's
      predicates; it stops short exactly at the first key whose group raises. */
  lemma {:induction false} CompileFiltersGroups(ctx: Context, groups: seq<FilterGroup>)
    requires StateShaped(groups)
    ensures var c := CompileFilters(ctx, groups);
            && |c.preds| <= |groups|
            && (c.fault <==> |c.preds| < |groups|)
            && (forall i :: 0 <= i < |c.preds| ==>
                  GroupPreds(ctx, groups[i].key, groups[i].entries).Some? &&
                  c.preds[i] == Group(GroupPreds(ctx, groups[i].key, groups[i].entries).value))
            && (c.fault ==> GroupPreds(ctx, groups[|c.preds|].key, groups[|c.preds|].entries).None?)
    decreases |groups|
  {
    if groups != [] {
      var tail := groups[1..];
      assert StateShaped(tail) by {
        forall i | 0 <= i < |tail| ensures EntriesShaped(tail[i].key, tail[i].entries) {
          assert tail[i] == groups[i + 1];
        }
      }
      assert EntriesShaped(groups[0].key, groups[0].entries);
      CompileFiltersGroups(ctx, tail);
      var c := CompileFilters(ctx, groups);
      if GroupPreds(ctx, groups[0].key, groups[0].entries).Some? {
        forall i | 0 <= i < |c.preds|
          ensures GroupPreds(ctx, groups[i].key, groups[i].entries).Some? &&
                  c.preds[i] == Group(GroupPreds(ctx, groups[i].key, groups[i].entries).value)
        {
          if i > 0 {
            assert groups[i] == tail[i - 1];
          }
        }
      }
    }
  }

  /** A key that is not one of the seven kinds leaves its group empty. */
  lemma {:induction false} UnknownKeyGroupEmpty(ctx: Context, key: string, entries: seq<Entry>)
    requires !IsKind(key) && EntriesShaped(key, entries)
    ensures GroupPreds(ctx, key, entries) == Some([])
    decreases |entries|
  {
    if entries != [] {
      assert key != Datetime && key != MultiSelect && key != Select && key != Boolean;
      assert key != InputText && key != ContainsText && key != Number;
      assert EntryPreds(ctx, key, entries[0]) == Some([]);
      UnknownKeyGroupEmpty(ctx, key, entries[1..]);
      var first := EntryPreds(ctx, key, entries[0]).value;
      var rest := GroupPreds(ctx, key, entries[1..]).value;
      assert GroupPreds(ctx, key, entries) == Some(first + rest);
      assert first + rest == [];
    }
  }

  /** A group raises exactly when one of its fields does, which only a text
      filter with the "contains" operator and a null value can do. */
  lemma {:induction false} GroupFaults(ctx: Context, kind: string, entries: seq<Entry>)
    requires EntriesShaped(kind, entries)
    ensures GroupPreds(ctx, kind, entries).None? <==>
            exists j :: 0 <= j < |entries| && EntryPreds(ctx, kind, entries[j]).None?
    ensures GroupPreds(ctx, kind, entries).None? ==> kind == InputText
    decreases |entries|
  {
    if entries != [] {
      GroupFaults(ctx, kind, entries[1..]);
      if GroupPreds(ctx, kind, entries[1..]).None? {
        var j :| 0 <= j < |entries[1..]| && EntryPreds(ctx, kind, entries[1..][j]).None?;
        assert entries[j + 1] == entries[1..][j];
      }
      forall j | 1 <= j < |entries| && EntryPreds(ctx, kind, entries[j]).None?
        ensures GroupPreds(ctx, kind, entries[1..]).None?
      {
        assert entries[1..][j - 1] == entries[j];
      }
    }
  }
}
