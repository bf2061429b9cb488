/**
  What the package's `parse_str_to_expression` makes of short strings,
  stated over any selectors that fit the same positions and for every
  recursion limit.
 */
module ParseExamples {
  import opened Wrappers
  import opened Errors
  import Operators
  import opened Expressions
  import opened Parser
  import Grammar

  /** A decoder that leaves text as it is. */
  function Verbatim(s: string): string {
    s
  }

  // ---------------------------------------------------------------------------
  // One constraint: printed and converted back
  // ---------------------------------------------------------------------------

  /**
    A single constraint parses, prints back as the same text and converts
    to its triple with the comparison in common form.
   */
  lemma ParseOneConstraint(sel: string, cmp: string, arg: string, fuel: nat)
    requires Grammar.IsSelector(sel) && Grammar.IsComparison(cmp) && Grammar.IsArgument(arg, Grammar.Package)
    ensures var r := Parse(sel + cmp + arg, Verbatim, fuel);
      && r.Ok?
      && Expressions.ToStr(r.value.0, r.value.1, {}, Verbatim) == Ok(sel + cmp + arg)
      && Expressions.ToPython(r.value.0, r.value.1, {}) == Ok(Constraints.Triple(sel, Constraints.MapComparison(Some(cmp)), Some(arg)))
  {
    OneConstraintPieces(sel, cmp, arg);
    var st := OneConstraintRun(Part("", Some(sel), Some(cmp), Some(arg)), fuel);
    SingleConstraintGroup(st.forest, 0, 1, Verbatim);
  }

  /** A bare selector parses, prints back as itself and converts to a triple without comparison or argument. */
  lemma ParseOneSelector(sel: string, fuel: nat)
    requires Grammar.IsSelector(sel)
    ensures var r := Parse(sel, Verbatim, fuel);
      && r.Ok?
      && Expressions.ToStr(r.value.0, r.value.1, {}, Verbatim) == Ok(sel)
      && Expressions.ToPython(r.value.0, r.value.1, {}) == Ok(Constraints.Triple(sel, None, None))
  {
    Last("", sel);
    assert "" + sel == sel;
    var st := OneConstraintRun(Part("", Some(sel), None, None), fuel);
    SingleConstraintGroup(st.forest, 0, 1, Verbatim);
  }

  // ---------------------------------------------------------------------------
  // Two constraints joined by one operator
  // ---------------------------------------------------------------------------

  /**
    Two constraints joined by `;` or `,` parse, print back as the same text
    and convert to the operator's name followed by the two triples.
   */
  lemma ParseTwoConstraints(a: string, c1: string, x1: string, op: Operators.Operator, b: string, c2: string, x2: string, fuel: nat)
    requires Grammar.IsSelector(a) && Grammar.IsComparison(c1) && Grammar.IsArgument(x1, Grammar.Package)
    requires Grammar.IsSelector(b) && Grammar.IsComparison(c2) && Grammar.IsArgument(x2, Grammar.Package)
    ensures var s := a + c1 + x1 + Operators.Symbol(op) + b + c2 + x2;
      var r := Parse(s, Verbatim, fuel);
      && r.Ok?
      && Expressions.ToStr(r.value.0, r.value.1, {}, Verbatim) == Ok(s)
      && Expressions.ToPython(r.value.0, r.value.1, {})
         == Ok(Constraints.List([Constraints.Text(Operators.Name(op)),
                                 Constraints.Triple(a, Constraints.MapComparison(Some(c1)), Some(x1)),
                                 Constraints.Triple(b, Constraints.MapComparison(Some(c2)), Some(x2))]))
  {
    var sym := Operators.Symbol(op);
    var s := a + c1 + x1 + sym + b + c2 + x2;
    var p, q := Part("", Some(a), Some(c1), Some(x1)), Part(sym, Some(b), Some(c2), Some(x2));
    assert s == (a + c1 + x1) + sym + (b + c2 + x2);
    TwoConstraintPieces(a, c1, x1, sym, b, c2, x2);
    var f := TwoConstraintParse(s, p, q, op, fuel);
    TwoConstraintGroup(f, 0, 1, 2, op, Verbatim);
  }

  // ---------------------------------------------------------------------------
  // Strings that are refused, and why
  // ---------------------------------------------------------------------------

  /** A string without a constraint is refused. */
  lemma ParseEmpty(fuel: nat)
    ensures Parse("", Verbatim, fuel) == Err(NoConstraint)
  {
  }

  /** Operator characters before any constraint are refused, as in `;;foo`. */
  lemma ParseOperatorFirst(pre: string, x: string, fuel: nat)
    requires pre != [] && (pre[0] == ';' || pre[0] == ',')
    requires forall i | 0 <= i < |pre| :: Grammar.OutsideSelector(pre[i])
    requires Grammar.IsSelector(x)
    ensures Parse(pre + x, Verbatim, fuel) == Err(OperatorBeforeConstraint)
  {
    Last(pre, x);
    RunOne(Start(), Part(pre, Some(x), None, None), fuel);
  }

  /**
    After a constraint, a preamble that starts with neither a parenthesis
    nor an operator symbol is refused: its first character is taken for an
    operator.
   */
  lemma NonOperatorStep(st: ParseState, p: Part, fuel: nat)
    requires Good(st) && HasConstraint(st.forest, st.cursor) && st.last == OperandElement
    requires p.preamble != [] && p.preamble[0] !in "();,"
    ensures Step(st, p, fuel) == Err(InvalidOperator([p.preamble[0]]))
  {
    var c := p.preamble[0];
    assert [c] != ";" && [c] != ",";
    assert PreambleChar(st, c, fuel) == Err(InvalidOperator([c]));
  }

  /** A character between two constraints that is no operator is refused as one. */
  lemma ParseUnknownOperator(x: string, y: string, fuel: nat)
    requires Grammar.IsSelector(x) && Grammar.IsSelector(y)
    ensures Parse(x + "&" + y, Verbatim, fuel) == Err(InvalidOperator("&"))
  {
    UnknownOperatorPieces(x, y);
    SelectorThenNonOperator(x + "&" + y, x, Part("&", Some(y), None, None), fuel);
  }

  /** `x=y` is two pieces: x, then `=` with y. */
  lemma EqualsSelectorPieces(x: string, y: string)
    requires Grammar.IsSelector(x) && Grammar.IsSelector(y)
    ensures IterParse(x + "=" + y, Verbatim) == [Part("", Some(x), None, None), Part("=", Some(y), None, None)]
  {
    Grammar.SelectorCharsNoEquals(y);
    Grammar.SplitAtLoneEquals(x, y, Grammar.Package);
    Last("=", y);
    ConsOntoOne(Part("", Some(x), None, None), Part("=", Some(y), None, None));
  }

  /** `x=` and `x==` are two pieces: x, then the equals signs alone. */
  lemma LoneEqualsPieces(x: string, eq: string)
    requires Grammar.IsSelector(x) && (eq == "=" || eq == "==")
    ensures IterParse(x + eq, Verbatim) == [Part("", Some(x), None, None), Part(eq, None, None, None)]
  {
    var t := eq[1..];
    assert eq == "=" + t && x + eq == x + "=" + t;
    Grammar.SplitAtLoneEquals(x, t, Grammar.Package);
    IterParseNoConstraint(eq, Verbatim);
    ConsOntoOne(Part("", Some(x), None, None), Part(eq, None, None, None));
  }

  /**
    An `=` that begins no comparison followed by an argument is taken for
    an operator, and refused, as in `foo=bar`.
   */
  lemma ParseEqualsSelector(x: string, y: string, fuel: nat)
    requires Grammar.IsSelector(x) && Grammar.IsSelector(y)
    ensures Parse(x + "=" + y, Verbatim, fuel) == Err(InvalidOperator("="))
  {
    EqualsSelectorPieces(x, y);
    SelectorThenNonOperator(x + "=" + y, x, Part("=", Some(y), None, None), fuel);
  }

  /** A comparison without an argument, or a lone trailing `=`, is refused the same way, as in `foo==` and `foo=`. */
  lemma ParseLoneEquals(x: string, eq: string, fuel: nat)
    requires Grammar.IsSelector(x) && (eq == "=" || eq == "==")
    ensures Parse(x + eq, Verbatim, fuel) == Err(InvalidOperator("="))
  {
    LoneEqualsPieces(x, eq);
    SelectorThenNonOperator(x + eq, x, Part(eq, None, None, None), fuel);
    assert [eq[0]] == "=";
  }

  /** A group left open is refused. */
  lemma ParseUnclosed(x: string, fuel: nat)
    requires Grammar.IsSelector(x)
    ensures Parse("(" + x, Verbatim, fuel) == Err(UnclosedGroup)
  {
    Last("(", x);
    RunOne(Start(), Part("(", Some(x), None, None), fuel);
    assert "("[1..] == "";
  }

  /** Closing a group at the top level asks the first Expression for a parent it does not have. */
  lemma ParseCloseAtTop(x: string, fuel: nat)
    requires Grammar.IsSelector(x)
    ensures Parse(x + ")", Verbatim, fuel) == Err(InvalidParent)
  {
    IterParseNoConstraint(")", Verbatim);
    Then("", x, ")", [Part(")", None, None, None)]);
    assert "" + x + ")" == x + ")";
    var st := FirstSelector(x, fuel);
    RunTwo(Start(), Part("", Some(x), None, None), Part(")", None, None, None), st, fuel);
    assert ")"[1..] == "";
  }

  /** An operator at the very end is accepted: nothing checks what follows it. */
  lemma ParseTrailingOperator(x: string, fuel: nat)
    requires Grammar.IsSelector(x)
    ensures Parse(x + ";", Verbatim, fuel).Ok?
  {
    IterParseNoConstraint(";", Verbatim);
    Then("", x, ";", [Part(";", None, None, None)]);
    assert "" + x + ";" == x + ";";
    var st := FirstSelector(x, fuel);
    RunTwo(Start(), Part("", Some(x), None, None), Part(";", None, None, None), st, fuel);
    AddOperatorRecords(st.forest, st.cursor, Operators.And, fuel);
    OperatorChar(st, ';', Operators.And, fuel);
    assert ";"[1..] == "";
  }

  /** Closing a group and opening another right away is refused: the closed group counts as an operand. */
  lemma GroupAfterGroupStep(st: ParseState, y: string, fuel: nat)
    requires Good(st) && st.forest.nodes[st.cursor].parent.Some?
    ensures Step(st, Part(")(", Some(y), None, None), fuel) == Err(OperandAfterOperand)
  {
    assert ")("[1..] == "(" && "("[1..] == "";
  }

  /** A group directly after a group is refused, as in `(foo)(bar)`. */
  lemma ParseGroupAfterGroup(x: string, y: string, fuel: nat)
    requires Grammar.IsSelector(x) && Grammar.IsSelector(y)
    ensures Parse("(" + x + ")(" + y + ")", Verbatim, fuel) == Err(OperandAfterOperand)
  {
    GroupAfterGroupPieces(x, y);
    var st := OpenedSelector(x, fuel);
    GroupAfterGroupStep(st, y, fuel);
    RunThreeStops(Start(), Part("(", Some(x), None, None), Part(")(", Some(y), None, None), Part(")", None, None, None), st, fuel);
  }

  // ---------------------------------------------------------------------------
  // `a,b;c,d`: the upward recursion of add_operator never ends
  // ---------------------------------------------------------------------------

  /** The working fragment of the cursor is an AND group whose parent is the cursor itself. */
  predicate AndBelow(st: ParseState)
    requires Good(st)
  {
    var w := Working(st.forest, st.cursor);
    st.forest.nodes[w].parent == Some(st.cursor) && st.forest.nodes[w].operator == Some(Operators.And)
  }

  /**
    `a,b;c,d` never parses, whatever the recursion limit: the second `,`
    finds the AND group holding b and c as the working fragment, with the
    first Expression as its parent, and hands the operator to that parent
    again and again.
   */
  lemma ParseAlternationForever(a: string, b: string, c: string, d: string, fuel: nat)
    requires Grammar.IsSelector(a) && Grammar.IsSelector(b) && Grammar.IsSelector(c) && Grammar.IsSelector(d)
    ensures Parse(a + "," + b + ";" + c + "," + d, Verbatim, fuel) == Err(RecursionLimitExceeded)
  {
    var s := a + "," + b + ";" + c + "," + d;
    AlternationPieces(s, a, b, c, d, ",", ";");
    AlternationRun(a, b, c, d, ",", ";", fuel);
  }

  // ---------------------------------------------------------------------------
  // `a,b;(c)`: the result is where the cursor ends, not the whole expression
  // ---------------------------------------------------------------------------

  /**
    `a,b;(c)` parses, but the result is the AND group holding b and the
    group of c, which has a parent: the Expression holding a is not
    returned. The cursor, not the first Expression, is what the parser
    returns.
   */
  lemma ParseReturnsCursor(a: string, b: string, c: string, fuel: nat)
    requires Grammar.IsSelector(a) && Grammar.IsSelector(b) && Grammar.IsSelector(c)
    ensures var r := Parse(a + "," + b + ";(" + c + ")", Verbatim, fuel);
      r.Ok? && r.value.1 in r.value.0.nodes && r.value.0.nodes[r.value.1].parent == Some(0)
  {
    var s := a + "," + b + ";(" + c + ")";
    GroupedPieces(s, a, b, c, ",", ";(", ")");
    var st := GroupedRun(IterParse(s, Verbatim), a, b, c, fuel);
  }

  // ---------------------------------------------------------------------------
  // Proof steps: the pieces, steps and walks the examples above are built from;
  // they state no behaviour of their own
  // ---------------------------------------------------------------------------

  /** A bare selector after operator and parenthesis text is a piece, before those of the text after it. */
  lemma Then(pre: string, x: string, rest: string, tail: seq<Part>)
    requires forall i | 0 <= i < |pre| :: Grammar.OutsideSelector(pre[i])
    requires Grammar.IsSelector(x) && IterParse(rest, Verbatim) == tail
    requires rest == [] || (Grammar.OutsideSelector(rest[0]) && rest[0] != '=' && !Grammar.IsFiqlDelim(rest[0]))
    ensures IterParse(pre + x + rest, Verbatim) == [Part(pre, Some(x), None, None)] + tail
  {
    IterParseAtSelector(pre, x, rest, Verbatim);
  }

  /** A bare selector as the whole remaining text is the last piece. */
  lemma Last(pre: string, x: string)
    requires forall i | 0 <= i < |pre| :: Grammar.OutsideSelector(pre[i])
    requires Grammar.IsSelector(x)
    ensures IterParse(pre + x, Verbatim) == [Part(pre, Some(x), None, None)]
  {
    Then(pre, x, "", []);
    assert pre + x + "" == pre + x;
  }

  /** A step is its preamble, then its constraint. */
  lemma StepOf(st: ParseState, p: Part, st1: ParseState, fuel: nat)
    requires Good(st) && Preamble(st, p.preamble, fuel) == Ok(st1)
    ensures Good(st1) && Step(st, p, fuel) == ConstraintStep(st1, p, fuel)
  {
  }

  /** A walk over one piece is that piece's step. */
  lemma RunOne(st: ParseState, p: Part, fuel: nat)
    requires Good(st)
    ensures Run(st, [p], fuel) == Step(st, p, fuel)
  {
    assert [p][1..] == [];
  }

  /** A walk over two pieces, the first of which succeeds, ends as the second step does. */
  lemma RunTwo(st: ParseState, p: Part, q: Part, st1: ParseState, fuel: nat)
    requires Good(st) && Step(st, p, fuel) == Ok(st1)
    ensures Good(st1) && Run(st, [p, q], fuel) == Step(st1, q, fuel)
  {
    assert [p, q][1..] == [q];
    RunOne(st1, q, fuel);
  }

  /** A selector first: it becomes the first element of the first Expression, which has no parent or operator. */
  lemma FirstSelector(x: string, fuel: nat) returns (st: ParseState)
    requires x != ""
    ensures Step(Start(), Part("", Some(x), None, None), fuel) == Ok(st)
    ensures Good(st) && st.cursor == 0 && st.depth == 0 && st.last == OperandElement
    ensures HasConstraint(st.forest, 0) && st.forest.nodes[0].parent.None?
    ensures st.forest.nodes[0].operator.None? && st.forest.nodes[0].working == 0
  {
    st := Step(Start(), Part("", Some(x), None, None), fuel).value;
  }

  /** A whole constraint is one piece. */
  lemma OneConstraintPieces(sel: string, cmp: string, arg: string)
    requires Grammar.IsSelector(sel) && Grammar.IsComparison(cmp) && Grammar.IsArgument(arg, Grammar.Package)
    ensures IterParse(sel + cmp + arg, Verbatim) == [Part("", Some(sel), Some(cmp), Some(arg))]
  {
    assert sel + cmp + arg == "" + sel + cmp + arg + "";
    IterParseAtConstraint("", sel, cmp, arg, "", Verbatim);
  }

  /**
    Walking the one piece of a constraint leaves the first Expression, with
    no parent or operator, holding the constraint as its only element.
   */
  lemma OneConstraintRun(p: Part, fuel: nat) returns (st: ParseState)
    requires p.preamble == "" && p.selector.Some? && p.selector.value != ""
    requires p.comparison.Some? ==> Grammar.IsComparison(p.comparison.value)
    ensures Run(Start(), [p], fuel) == Ok(st)
    ensures st.cursor == 0 && st.depth == 0 && st.last == OperandElement && Good(st) && st.forest.next == 2
    ensures 1 in st.forest.nodes && st.forest.nodes[0] == Group([1], None, None, 0)
    ensures st.forest.nodes[1] == Leaf(Constraints.Constraint(p.selector.value, p.comparison, p.argument), Some(0))
  {
    RunOne(Start(), p, fuel);
    st := Step(Start(), p, fuel).value;
  }

  /** Two whole constraints joined by an operator symbol are two pieces, the second led by the symbol. */
  lemma TwoConstraintPieces(a: string, c1: string, x1: string, op: string, b: string, c2: string, x2: string)
    requires Grammar.IsSelector(a) && Grammar.IsComparison(c1) && Grammar.IsArgument(x1, Grammar.Package)
    requires Grammar.IsSelector(b) && Grammar.IsComparison(c2) && Grammar.IsArgument(x2, Grammar.Package)
    requires op == ";" || op == ","
    ensures IterParse(a + c1 + x1 + op + b + c2 + x2, Verbatim)
            == [Part("", Some(a), Some(c1), Some(x1)), Part(op, Some(b), Some(c2), Some(x2))]
  {
    var rest := op + b + c2 + x2;
    assert a + c1 + x1 + op + b + c2 + x2 == "" + a + c1 + x1 + rest;
    assert rest == op + b + c2 + x2 + "";
    IterParseAtConstraint(op, b, c2, x2, "", Verbatim);
    IterParseAtConstraint("", a, c1, x1, rest, Verbatim);
  }

  /**
    Walking a constraint, an operator symbol and a second constraint leaves
    the first Expression with that operator and the two constraints.
   */
  lemma TwoConstraintRun(p: Part, q: Part, op: Operators.Operator, fuel: nat) returns (st: ParseState)
    requires p.preamble == "" && p.selector.Some? && p.selector.value != ""
    requires p.comparison.Some? ==> Grammar.IsComparison(p.comparison.value)
    requires q.preamble == Operators.Symbol(op) && q.selector.Some? && q.selector.value != ""
    requires q.comparison.Some? ==> Grammar.IsComparison(q.comparison.value)
    ensures Run(Start(), [p, q], fuel) == Ok(st)
    ensures st.cursor == 0 && st.depth == 0 && Good(st) && 1 in st.forest.nodes && 2 in st.forest.nodes
    ensures st.forest.nodes[0] == Group([1, 2], Some(op), None, 0)
    ensures st.forest.nodes[1] == Leaf(Constraints.Constraint(p.selector.value, p.comparison, p.argument), Some(0))
    ensures st.forest.nodes[2] == Leaf(Constraints.Constraint(q.selector.value, q.comparison, q.argument), Some(0))
  {
    var st1 := OneConstraintRun(p, fuel);
    RunOne(Start(), p, fuel);
    RunTwo(Start(), p, q, st1, fuel);
    var st2 := SymbolAfterConstraint(st1, q.preamble, op, fuel);
    StepOf(st1, q, st2, fuel);
    st := ConstraintStep(st2, q, fuel).value;
  }

  /** An operator symbol right after the first constraint is recorded on the first Expression. */
  lemma SymbolAfterConstraint(st: ParseState, sym: string, op: Operators.Operator, fuel: nat) returns (st': ParseState)
    requires Good(st) && st.last == OperandElement && HasConstraint(st.forest, st.cursor)
    requires st.forest.nodes[st.cursor].operator.None? && st.forest.nodes[st.cursor].working == st.cursor
    requires sym == Operators.Symbol(op)
    ensures Preamble(st, sym, fuel) == Ok(st') && Good(st')
    ensures var f := st.forest;
      st' == ParseState(Forest(f.nodes[st.cursor := f.nodes[st.cursor].(operator := Some(op))], f.next), st.cursor, st.depth, OperatorElement)
  {
    var f := st.forest;
    AddOperatorRecords(f, st.cursor, op, fuel);
    st' := ParseState(Forest(f.nodes[st.cursor := f.nodes[st.cursor].(operator := Some(op))], f.next), st.cursor, st.depth, OperatorElement);
    OperatorChar(st, sym[0], op, fuel);
    assert sym[1..] == "";
  }

  /** A string cut into those two pieces parses to the first Expression, as walked. */
  lemma TwoConstraintParse(s: string, p: Part, q: Part, op: Operators.Operator, fuel: nat) returns (f: Forest)
    requires IterParse(s, Verbatim) == [p, q]
    requires p.preamble == "" && p.selector.Some? && p.selector.value != ""
    requires p.comparison.Some? ==> Grammar.IsComparison(p.comparison.value)
    requires q.preamble == Operators.Symbol(op) && q.selector.Some? && q.selector.value != ""
    requires q.comparison.Some? ==> Grammar.IsComparison(q.comparison.value)
    ensures Parse(s, Verbatim, fuel) == Ok((f, 0)) && Valid(f) && 1 in f.nodes && 2 in f.nodes
    ensures f.nodes[0] == Group([1, 2], Some(op), None, 0)
    ensures f.nodes[1] == Leaf(Constraints.Constraint(p.selector.value, p.comparison, p.argument), Some(0))
    ensures f.nodes[2] == Leaf(Constraints.Constraint(q.selector.value, q.comparison, q.argument), Some(0))
  {
    var st := TwoConstraintRun(p, q, op, fuel);
    f := st.forest;
  }

  /** `x&y` is two pieces: x, then `&` with y. */
  lemma UnknownOperatorPieces(x: string, y: string)
    requires Grammar.IsSelector(x) && Grammar.IsSelector(y)
    ensures IterParse(x + "&" + y, Verbatim) == [Part("", Some(x), None, None), Part("&", Some(y), None, None)]
  {
    SelectorThenPiece(x, "&", y);
  }

  /** A selector, then a one-character preamble that cannot go on with it, then a selector. */
  lemma SelectorThenPiece(x: string, pre: string, y: string)
    requires Grammar.IsSelector(x) && Grammar.IsSelector(y)
    requires |pre| == 1 && Grammar.OutsideSelector(pre[0]) && pre[0] != '=' && !Grammar.IsFiqlDelim(pre[0])
    ensures IterParse(x + pre + y, Verbatim) == [Part("", Some(x), None, None), Part(pre, Some(y), None, None)]
  {
    assert x + pre + y == x + (pre + y);
    Last(pre, y);
    StartsWith(pre, y);
    IterParseLeadingSelector(x, pre + y, Verbatim);
    ConsOntoOne(Part("", Some(x), None, None), Part(pre, Some(y), None, None));
  }

  /** A selector, then a piece whose preamble starts with no operator symbol: refused. */
  lemma SelectorThenNonOperator(s: string, x: string, p: Part, fuel: nat)
    requires x != "" && IterParse(s, Verbatim) == [Part("", Some(x), None, None), p]
    requires p.preamble != [] && p.preamble[0] !in "();,"
    ensures Parse(s, Verbatim, fuel) == Err(InvalidOperator([p.preamble[0]]))
  {
    var st := FirstSelector(x, fuel);
    NonOperatorStep(st, p, fuel);
    RunTwo(Start(), Part("", Some(x), None, None), p, st, fuel);
  }

  /** A walk over three pieces stops at the second when that one fails. */
  lemma RunThreeStops(st: ParseState, p: Part, q: Part, r: Part, st1: ParseState, fuel: nat)
    requires Good(st) && Step(st, p, fuel) == Ok(st1)
    ensures Good(st1)
    ensures Step(st1, q, fuel).Err? ==> Run(st, [p, q, r], fuel) == Step(st1, q, fuel)
  {
    assert [p, q, r][1..] == [q, r];
  }

  /** `(x)(y)` is three pieces. */
  lemma GroupAfterGroupPieces(x: string, y: string)
    requires Grammar.IsSelector(x) && Grammar.IsSelector(y)
    ensures IterParse("(" + x + ")(" + y + ")", Verbatim)
            == [Part("(", Some(x), None, None), Part(")(", Some(y), None, None), Part(")", None, None, None)]
  {
    GroupAfterGroupTail(")(", y, ")");
    SelectorBeforeGroup("(", x, ")(", y, ")", [Part(")(", Some(y), None, None), Part(")", None, None, None)]);
  }

  /** The same, with the operator and parenthesis text as plain strings. */
  lemma SelectorBeforeGroup(open: string, x: string, between: string, y: string, close: string, tail: seq<Part>)
    requires Grammar.IsSelector(x) && open == "(" && between == ")(" && close == ")"
    requires IterParse(between + y + close, Verbatim) == tail
    ensures IterParse(open + x + between + y + close, Verbatim) == [Part(open, Some(x), None, None)] + tail
  {
    StartsWith(between, y);
    StartsWith(between + y, close);
    Then(open, x, between + y + close, tail);
    Rebracket(open, x, between, y, close);
  }

  lemma GroupAfterGroupTail(between: string, y: string, close: string)
    requires Grammar.IsSelector(y) && between == ")(" && close == ")"
    ensures IterParse(between + y + close, Verbatim) == [Part(between, Some(y), None, None), Part(close, None, None, None)]
  {
    IterParseNoConstraint(close, Verbatim);
    Then(between, y, close, [Part(close, None, None, None)]);
    ConsOntoOne(Part(between, Some(y), None, None), Part(close, None, None, None));
  }

  /** A group opened before a selector: the cursor is the nested group, which has a parent. */
  lemma OpenedSelector(x: string, fuel: nat) returns (st: ParseState)
    requires x != ""
    ensures Step(Start(), Part("(", Some(x), None, None), fuel) == Ok(st)
    ensures Good(st) && st.forest.nodes[st.cursor].parent.Some?
  {
    assert "("[1..] == "";
    st := Step(Start(), Part("(", Some(x), None, None), fuel).value;
  }

  /** A selector after an operator, before text that starts with an operator. */
  lemma OperatorThen(op: string, x: string, rest: string, tail: seq<Part>)
    requires op == "," || op == ";"
    requires Grammar.IsSelector(x) && IterParse(rest, Verbatim) == tail
    requires rest == [] || rest[0] == ',' || rest[0] == ';'
    ensures IterParse(op + x + rest, Verbatim) == [Part(op, Some(x), None, None)] + tail
  {
    Then(op, x, rest, tail);
  }

  /** `,b;c,d` after the first selector is three pieces. */
  lemma AlternationTail(b: string, c: string, d: string, or: string, and: string)
    requires Grammar.IsSelector(b) && Grammar.IsSelector(c) && Grammar.IsSelector(d)
    requires or == "," && and == ";"
    ensures IterParse(or + b + (and + c + (or + d + [])), Verbatim)
            == [Part(or, Some(b), None, None), Part(and, Some(c), None, None), Part(or, Some(d), None, None)]
  {
    var p4 := [Part(or, Some(d), None, None)];
    OperatorThen(or, d, [], []);
    StartsWith(or, d);
    StartsWith(or + d, []);
    OperatorThen(and, c, or + d + [], p4);
    StartsWith(and, c);
    StartsWith(and + c, or + d + []);
    OperatorThen(or, b, and + c + (or + d + []), [Part(and, Some(c), None, None)] + p4);
  }

  /** `a,b;c,d` is four pieces, one per selector. */
  lemma AlternationPieces(s: string, a: string, b: string, c: string, d: string, or: string, and: string)
    requires Grammar.IsSelector(a) && Grammar.IsSelector(b) && Grammar.IsSelector(c) && Grammar.IsSelector(d)
    requires or == "," && and == ";" && s == a + or + b + and + c + or + d
    ensures IterParse(s, Verbatim)
            == [Part("", Some(a), None, None), Part(or, Some(b), None, None), Part(and, Some(c), None, None), Part(or, Some(d), None, None)]
  {
    var r2 := or + b + (and + c + (or + d + []));
    var tail := [Part(or, Some(b), None, None), Part(and, Some(c), None, None), Part(or, Some(d), None, None)];
    AlternationTail(b, c, d, or, and);
    StartsWith(or, b);
    StartsWith(or + b, and + c + (or + d + []));
    assert r2[0] == ',';
    Then("", a, r2, tail);
    ConsOntoThree(Part("", Some(a), None, None), tail[0], tail[1], tail[2]);
    Flatten(a, or, b, and, c, or, d);
  }

  lemma Flatten(a: string, b: string, c: string, d: string, e: string, f: string, g: string)
    ensures [] + a + (b + c + (d + e + (f + g + []))) == a + b + c + d + e + f + g
  {
  }

  /** `,` and a selector after the first constraint: the first Expression takes OR and the constraint. */
  lemma OrThenSelector(st: ParseState, b: string, or: string, fuel: nat) returns (st': ParseState)
    requires or == "," && b != ""
    requires Good(st) && st.last == OperandElement && HasConstraint(st.forest, st.cursor)
    requires st.forest.nodes[st.cursor].operator.None? && st.forest.nodes[st.cursor].working == st.cursor
    ensures Step(st, Part(or, Some(b), None, None), fuel) == Ok(st')
    ensures Good(st') && st'.cursor == st.cursor && st'.depth == st.depth && st'.last == OperandElement
    ensures HasConstraint(st'.forest, st'.cursor) && st'.forest.nodes[st'.cursor].operator == Some(Operators.Or)
    ensures st'.forest.nodes[st'.cursor].working == st'.cursor
  {
    var f := st.forest;
    var e := st.cursor;
    AddOperatorRecords(f, e, Operators.Or, fuel);
    var f1 := Forest(f.nodes[e := f.nodes[e].(operator := Some(Operators.Or))], f.next);
    var st1 := ParseState(f1, e, st.depth, OperatorElement);
    OperatorChar(st, ',', Operators.Or, fuel);
    assert or[1..] == "" && or[0] == ',';
    assert Preamble(st, or, fuel) == Ok(st1);
    st' := ConstraintStep(st1, Part(or, Some(b), None, None), fuel).value;
  }

  /** An operator character after an element hands the operator to `add_operator`, whose result becomes the cursor. */
  lemma OperatorChar(st: ParseState, c: char, op: Operators.Operator, fuel: nat)
    requires Good(st) && HasConstraint(st.forest, st.cursor) && st.last != OperatorElement
    requires Operators.Symbol(op) == [c]
    requires AddOperator(st.forest, st.cursor, OperatorRef(op), fuel).Ok?
    ensures var r := AddOperator(st.forest, st.cursor, OperatorRef(op), fuel).value;
      PreambleChar(st, c, fuel) == Ok(ParseState(r.0, r.1, st.depth, OperatorElement))
  {
    Operators.ParseSymbol(op);
  }

  /** `;` after an OR: the last constraint moves into a new AND group under the cursor, its new working fragment. */
  lemma AndRegroups(st: ParseState, and: string, fuel: nat) returns (st1: ParseState)
    requires and == ";"
    requires Good(st) && st.last == OperandElement && HasConstraint(st.forest, st.cursor)
    requires st.forest.nodes[st.cursor].operator == Some(Operators.Or) && st.forest.nodes[st.cursor].working == st.cursor
    ensures Preamble(st, and, fuel) == Ok(st1)
    ensures Good(st1) && st1.cursor == st.cursor && HasConstraint(st1.forest, st1.cursor) && AndBelow(st1)
  {
    var f := st.forest;
    var e := st.cursor;
    AddOperatorTighter(f, e, Operators.And, fuel);
    var g := AddOperator(f, e, OperatorRef(Operators.And), fuel).value.0;
    st1 := ParseState(g, e, st.depth, OperatorElement);
    OperatorChar(st, ';', Operators.And, fuel);
    assert and[1..] == "" && and[0] == ';';
    NextIsFresh(f);
  }

  /** A selector after an operator is appended to the working fragment, which stays an AND group under the cursor. */
  lemma SelectorIntoWorking(st: ParseState, c: string, pre: string, fuel: nat) returns (st': ParseState)
    requires c != ""
    requires Good(st) && st.last != OperandElement && HasConstraint(st.forest, st.cursor) && AndBelow(st)
    ensures ConstraintStep(st, Part(pre, Some(c), None, None), fuel) == Ok(st')
    ensures Good(st') && st'.cursor == st.cursor && st'.last == OperandElement
    ensures HasConstraint(st'.forest, st'.cursor) && AndBelow(st')
  {
    var e := st.cursor;
    var (h1, k) := NewConstraint(st.forest, c, None, None).value;
    NextIsFresh(st.forest);
    assert Working(h1, e) == Working(st.forest, e);
    st' := ConstraintStep(st, Part(pre, Some(c), None, None), fuel).value;
    assert st'.forest == Append(h1, e, k);
  }

  /**
    `;` and a selector after an OR: the last constraint moves into a new
    group with AND, which becomes the working fragment and takes the new
    constraint; its parent is the cursor itself.
   */
  lemma AndThenSelector(st: ParseState, c: string, and: string, fuel: nat) returns (st': ParseState)
    requires and == ";" && c != ""
    requires Good(st) && st.last == OperandElement && HasConstraint(st.forest, st.cursor)
    requires st.forest.nodes[st.cursor].operator == Some(Operators.Or) && st.forest.nodes[st.cursor].working == st.cursor
    ensures Step(st, Part(and, Some(c), None, None), fuel) == Ok(st')
    ensures Good(st') && st'.cursor == st.cursor && st'.last == OperandElement
    ensures HasConstraint(st'.forest, st'.cursor) && AndBelow(st')
  {
    var st1 := AndRegroups(st, and, fuel);
    st' := SelectorIntoWorking(st1, c, and, fuel);
  }

  /** `,` when the working fragment is an AND group whose parent is the cursor: the recursion limit is reached. */
  lemma OrClimbsForever(st: ParseState, d: string, or: string, fuel: nat)
    requires or == ","
    requires Good(st) && st.last == OperandElement && HasConstraint(st.forest, st.cursor) && AndBelow(st)
    ensures Step(st, Part(or, Some(d), None, None), fuel) == Err(RecursionLimitExceeded)
  {
    assert or[1..] == "" && [or[0]] == or;
    AddOperatorClimbsForever(st.forest, st.cursor, Operators.Or, fuel);
  }

  /** A walk over four pieces whose first three steps succeed ends as the fourth step does. */
  lemma RunFour(st: ParseState, p: seq<Part>, st1: ParseState, st2: ParseState, st3: ParseState, fuel: nat)
    requires |p| == 4 && Good(st)
    requires Step(st, p[0], fuel) == Ok(st1)
    requires Good(st1) && Step(st1, p[1], fuel) == Ok(st2)
    requires Good(st2) && Step(st2, p[2], fuel) == Ok(st3)
    ensures Good(st3) && Run(st, p, fuel) == Step(st3, p[3], fuel)
  {
    assert Run(st, p, fuel) == Run(st1, p[1..], fuel);
    assert Run(st1, p[1..], fuel) == Run(st2, p[2..], fuel) by {
      assert p[1..][0] == p[1] && p[1..][1..] == p[2..];
    }
    assert Run(st2, p[2..], fuel) == Run(st3, p[3..], fuel) by {
      assert p[2..][0] == p[2] && p[2..][1..] == p[3..];
    }
    assert p[3..] == [p[3]];
    RunOne(st3, p[3], fuel);
  }

  /** The walk over the four pieces of `a,b;c,d` fails at the last one. */
  lemma AlternationRun(a: string, b: string, c: string, d: string, or: string, and: string, fuel: nat)
    requires a != "" && b != "" && c != "" && d != ""
    requires or == "," && and == ";"
    ensures Run(Start(), [Part("", Some(a), None, None), Part(or, Some(b), None, None), Part(and, Some(c), None, None), Part(or, Some(d), None, None)], fuel)
            == Err(RecursionLimitExceeded)
  {
    var parts := [Part("", Some(a), None, None), Part(or, Some(b), None, None), Part(and, Some(c), None, None), Part(or, Some(d), None, None)];
    var st1 := FirstSelector(a, fuel);
    var st2 := OrThenSelector(st1, b, or, fuel);
    var st3 := AndThenSelector(st2, c, and, fuel);
    OrClimbsForever(st3, d, or, fuel);
    RunFour(Start(), parts, st1, st2, st3, fuel);
  }

  /** `,b;(c)` after the first selector is three pieces. */
  lemma GroupedTail(b: string, c: string, or: string, andOpen: string, close: string)
    requires Grammar.IsSelector(b) && Grammar.IsSelector(c)
    requires or == "," && andOpen == ";(" && close == ")"
    ensures IterParse(or + b + (andOpen + c + close), Verbatim)
            == [Part(or, Some(b), None, None), Part(andOpen, Some(c), None, None), Part(close, None, None, None)]
  {
    IterParseNoConstraint(close, Verbatim);
    Then(andOpen, c, close, [Part(close, None, None, None)]);
    StartsWith(andOpen, c);
    StartsWith(andOpen + c, close);
    OperatorThen(or, b, andOpen + c + close, [Part(andOpen, Some(c), None, None), Part(close, None, None, None)]);
  }

  /** `a,b;(c)` is four pieces. */
  lemma GroupedPieces(s: string, a: string, b: string, c: string, or: string, andOpen: string, close: string)
    requires Grammar.IsSelector(a) && Grammar.IsSelector(b) && Grammar.IsSelector(c)
    requires or == "," && andOpen == ";(" && close == ")" && s == a + or + b + andOpen + c + close
    ensures IterParse(s, Verbatim)
            == [Part("", Some(a), None, None), Part(or, Some(b), None, None), Part(andOpen, Some(c), None, None),
                Part(close, None, None, None)]
  {
    var r2 := or + b + (andOpen + c + close);
    var tail := [Part(or, Some(b), None, None), Part(andOpen, Some(c), None, None), Part(close, None, None, None)];
    GroupedTail(b, c, or, andOpen, close);
    StartsWith(or, b);
    StartsWith(or + b, andOpen + c + close);
    Then("", a, r2, tail);
    ConsOntoThree(Part("", Some(a), None, None), tail[0], tail[1], tail[2]);
    FlattenSix(a, or, b, andOpen, c, close);
  }

  lemma FlattenSix(a: string, b: string, c: string, d: string, e: string, f: string)
    ensures [] + a + (b + c + (d + e + f)) == a + b + c + d + e + f
  {
  }

  /**
    `;(` after an OR: the last constraint moves into a new AND group w
    under the cursor, and the new group opened by `(` is placed in w, not
    in the cursor.
   */
  lemma AndOpens(st: ParseState, andOpen: string, fuel: nat) returns (st': ParseState, w: NodeId)
    requires andOpen == ";("
    requires Good(st) && st.last == OperandElement && HasConstraint(st.forest, st.cursor)
    requires st.forest.nodes[st.cursor].operator == Some(Operators.Or) && st.forest.nodes[st.cursor].working == st.cursor
    ensures Preamble(st, andOpen, fuel) == Ok(st')
    ensures Good(st') && st'.depth == st.depth + 1 && st'.last == OperatorElement
    ensures Working(st'.forest, st'.cursor) == st'.cursor
    ensures IsGroup(st'.forest, w) && st'.forest.nodes[st'.cursor].parent == Some(w)
    ensures st'.forest.nodes[w].parent == Some(st.cursor) && HasConstraint(st'.forest, w)
  {
    var st1 := AndRegroups(st, ";", fuel);
    assert ";"[1..] == "";
    assert PreambleChar(st, ';', fuel) == Ok(st1);
    w := Working(st1.forest, st1.cursor);
    st' := PreambleChar(st1, '(', fuel).value;
    assert andOpen[0] == ';' && andOpen[1..] == "(" && "("[1..] == "";
    assert Preamble(st1, "(", fuel) == Ok(st');
  }

  /** A selector in a freshly opened group is appended to it; the groups above keep their parents. */
  lemma SelectorInside(st: ParseState, w: NodeId, c: string, pre: string, fuel: nat) returns (st': ParseState)
    requires c != ""
    requires Good(st) && st.last != OperandElement && Working(st.forest, st.cursor) == st.cursor
    requires IsGroup(st.forest, w) && st.forest.nodes[st.cursor].parent == Some(w) && HasConstraint(st.forest, w)
    ensures ConstraintStep(st, Part(pre, Some(c), None, None), fuel) == Ok(st')
    ensures Good(st') && st'.cursor == st.cursor && st'.depth == st.depth && st'.last == OperandElement
    ensures IsGroup(st'.forest, w) && st'.forest.nodes[st'.cursor].parent == Some(w) && HasConstraint(st'.forest, w)
    ensures st'.forest.nodes[w].parent == st.forest.nodes[w].parent
  {
    var e := st.cursor;
    var (h1, k) := NewConstraint(st.forest, c, None, None).value;
    NextIsFresh(st.forest);
    assert Working(h1, e) == e;
    st' := ConstraintStep(st, Part(pre, Some(c), None, None), fuel).value;
    assert st'.forest == Append(h1, e, k);
  }

  /** `)` moves the cursor to its parent, one level up. */
  lemma CloseToParent(st: ParseState, w: NodeId, fuel: nat)
    requires Good(st) && st.forest.nodes[st.cursor].parent == Some(w)
    ensures Step(st, Part(")", None, None, None), fuel) == Ok(ParseState(st.forest, w, st.depth - 1, OperandElement))
  {
    assert ")"[1..] == "";
  }

  /** The walk over `a,b;(c)` ends on the AND group w, whose parent is the first Expression. */
  lemma GroupedRun(parts: seq<Part>, a: string, b: string, c: string, fuel: nat) returns (st: ParseState)
    requires a != "" && b != "" && c != ""
    requires parts == [Part("", Some(a), None, None), Part(",", Some(b), None, None), Part(";(", Some(c), None, None),
                       Part(")", None, None, None)]
    ensures Run(Start(), parts, fuel) == Ok(st)
    ensures Good(st) && st.depth == 0 && HasConstraint(st.forest, st.cursor) && st.forest.nodes[st.cursor].parent == Some(0)
  {
    var st1 := FirstSelector(a, fuel);
    var st2 := OrThenSelector(st1, b, ",", fuel);
    var st3, w := AndOpens(st2, ";(", fuel);
    var st3' := SelectorInside(st3, w, c, ";(", fuel);
    StepOf(st2, parts[2], st3, fuel);
    CloseToParent(st3', w, fuel);
    RunFour(Start(), parts, st1, st2, st3', fuel);
    st := ParseState(st3'.forest, w, 0, OperandElement);
  }
}
