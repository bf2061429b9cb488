/**
  The two FIQL connectives: `;` is the logical AND and `,` the logical OR.
  AND binds tighter than OR, and every comparison between operators looks at
  precedence alone.
 */
module Operators {
  import opened Wrappers
  import opened Errors

  datatype Operator = And | Or

  /** The operator table: symbol, common name and precedence. */
  function Symbol(op: Operator): string {
    match op
    case And => ";"
    case Or => ","
  }

  function Precedence(op: Operator): nat {
    match op
    case And => 2
    case Or => 1
  }

  /** Building an operator from its symbol; any other symbol is refused. */
  function Parse(symbol: string): (r: Result<Operator, Error>)
    ensures r.Ok? <==> symbol == ";" || symbol == ","
    ensures r.Ok? ==> Symbol(r.value) == symbol
    ensures r.Err? ==> r.error == InvalidOperator(symbol) && r.error.IsFiqlException()
  {
    if symbol == ";" then Ok(And)
    else if symbol == "," then Ok(Or)
    else Err(InvalidOperator(symbol))
  }

  /** The operator's common name, as its Python form gives it. */
  function Name(op: Operator): (name: string)
    ensures name == "AND" <==> op == And
    ensures name == "OR" <==> op == Or
  {
    match op
    case And => "AND"
    case Or => "OR"
  }

  /** `a < b`: a has the lower precedence. */
  predicate Less(a: Operator, b: Operator) {
    Precedence(a) < Precedence(b)
  }

  /** `a == b`: a and b have the same precedence. */
  predicate SamePrecedence(a: Operator, b: Operator) {
    Precedence(a) == Precedence(b)
  }

  /** The three-way comparison: -1, 0 or 1 as a's precedence is below, equal to or above b's. */
  function Compare(a: Operator, b: Operator): (c: int)
    ensures c == -1 <==> Less(a, b)
    ensures c == 0 <==> SamePrecedence(a, b)
    ensures c == 1 <==> Less(b, a)
  {
    if Precedence(a) < Precedence(b) then -1
    else if Precedence(a) > Precedence(b) then 1
    else 0
  }

  /** The symbol table is a bijection: parsing a symbol gives the operator back. */
  lemma ParseSymbol(op: Operator)
    ensures Parse(Symbol(op)) == Ok(op)
  {
  }

  /** AND ranks above OR. */
  lemma AndAboveOr()
    ensures Less(Or, And) && !Less(And, Or)
    ensures Precedence(And) == 2 && Precedence(Or) == 1
  {
  }

  /** The two precedences differ, so equal precedence means the same operator. */
  lemma SamePrecedenceIsEquality(a: Operator, b: Operator)
    ensures SamePrecedence(a, b) <==> a == b
  {
  }

  /** `<` is a strict total order on the two operators. */
  lemma LessIsStrictTotalOrder(a: Operator, b: Operator, c: Operator)
    ensures !Less(a, a)
    ensures Less(a, b) ==> !Less(b, a)
    ensures Less(a, b) && Less(b, c) ==> Less(a, c)
    ensures a == b || Less(a, b) || Less(b, a)
  {
  }

  /** The three-way comparison agrees with `<` and `==` and is antisymmetric. */
  lemma CompareIsConsistent(a: Operator, b: Operator)
    ensures Compare(a, b) == -Compare(b, a)
    ensures Compare(a, b) == 0 <==> a == b
  {
  }
}
