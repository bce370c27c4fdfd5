/** The query builder the compiler writes into, reduced to the predicates
    appended to it: each call of where, orWhere, whereIn, whereBetween,
    whereNull, whereNotNull, orWhereNull, orWhereRaw, a nested where(closure)
    and orWhereHas(relation, closure) adds one Pred, in call order. */
module Query {

  datatype Option<T> = None | Some(value: T)

  /** A value bound into a predicate. Float(s) is the PHP (float) cast of s,
      StartOfDay(d) and EndOfDay(d) are Carbon::parse(d)->startOfDay() and
      ->endOfDay(); the model keeps them as unevaluated terms. */
  datatype Operand =
    | Str(s: string)
    | Nil
    | Flag(b: bool)
    | Float(text: string)
    | StartOfDay(date: string)
    | EndOfDay(date: string)

  datatype Pred =
    | Where(field: string, op: string, val: Operand)
    | OrWhere(field: string, op: string, val: Operand)
    | WhereIn(field: string, values: seq<string>)
    | WhereBetween(field: string, low: Operand, high: Operand)
    | WhereNull(field: string)
    | WhereNotNull(field: string)
    | OrWhereNull(field: string)
    | OrWhereRaw(sql: string)
    | Group(preds: seq<Pred>)
    | OrWhereHas(relation: string, preds: seq<Pred>)

  lemma AppendAssoc(a: seq<Pred>, b: seq<Pred>, c: seq<Pred>)
    ensures a + b + c == a + (b + c)
  {
  }

  /** An Eloquent builder, seen as the list of predicates appended to it. */
  class Builder {
    var preds: seq<Pred>

    constructor ()
      ensures preds == []
    {
      preds := [];
    }

    method Add(p: Pred)
      modifies this
      ensures preds == old(preds) + [p]
    {
      preds := preds + [p];
    }
  }
}
