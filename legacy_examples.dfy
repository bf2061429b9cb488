/**
  The behaviour the single-module parser's own tests describe, stated over
  any selectors, comparisons and arguments that fit the same positions.
 */
module LegacyExamples {
  import opened Wrappers
  import opened Errors
  import opened Operators
  import Constraints
  import Grammar
  import Parser
  import opened Legacy

  /** The decoder that changes nothing. */
  function Verbatim(s: string): string {
    s
  }

  /** An empty arena. */
  const Empty := Heap(map[], 0)

  // ---------------------------------------------------------------------------
  // Objects
  // ---------------------------------------------------------------------------

  /** An Expression holding nothing yet, and two Constraints with bare selectors. */
  predicate Fixture(h: Heap, e: NodeId, foo: NodeId, bar: NodeId) {
    && IsGroup(h, e) && h.nodes[e] == Group([], None)
    && foo in h.nodes && h.nodes[foo] == Leaf("foo", None, None, None)
    && bar in h.nodes && h.nodes[bar] == Leaf("bar", None, None, None)
  }

  /**
    The add_element sequence of the tests: a string, an operator first, a
    second constraint in a row and a second operator in a row are refused;
    the rest is accepted, in order.
   */
  lemma AddElementSequence(h: Heap, e: NodeId, foo: NodeId, bar: NodeId) returns (g: Heap)
    requires Valid(h) && Fixture(h, e, foo, bar)
    ensures AddElement(h, e, Foreign) == Err(InvalidElementType)
    ensures AddElement(h, e, OperatorRef(And)) == Err(OperatorBeforeConstraint)
    ensures var h1 := AddElement(h, e, NodeRef(foo));
      && h1.Ok?
      && AddElement(h1.value, e, NodeRef(bar)) == Err(OperandAfterOperand)
      && var h2 := AddElement(h1.value, e, OperatorRef(And));
      && h2.Ok?
      && AddElement(h2.value, e, OperatorRef(Or)) == Err(OperatorAfterOperator)
      && AddElement(h2.value, e, NodeRef(bar)) == Ok(g)
    ensures Valid(g) && IsGroup(g, e) && g.nodes[e] == Group([Ref(foo), Op(And), Ref(bar)], None)
    ensures g.nodes[foo] == Leaf("foo", None, None, Some(e)) && g.nodes[bar] == Leaf("bar", None, None, Some(e))
  {
    var h1 := AddElement(h, e, NodeRef(foo)).value;
    var h2 := AddElement(h1, e, OperatorRef(And)).value;
    g := AddElement(h2, e, NodeRef(bar)).value;
  }

  /** What the accepted elements leave behind prints as `foo AND bar`. */
  lemma AddElementSequenceStr(g: Heap, e: NodeId, foo: NodeId, bar: NodeId)
    requires Valid(g) && IsGroup(g, e) && g.nodes[e] == Group([Ref(foo), Op(And), Ref(bar)], None)
    requires foo in g.nodes && g.nodes[foo] == Leaf("foo", None, None, Some(e))
    requires bar in g.nodes && g.nodes[bar] == Leaf("bar", None, None, Some(e))
    ensures ToStr(g, e, {}) == Ok("foo AND bar")
  {
    var items := [Ref(foo), Op(And), Ref(bar)];
    assert foo != e && bar != e;
    assert ToStr(g, foo, {e}) == Ok("foo");
    assert ToStr(g, bar, {e}) == Ok("bar");
    assert items[1..][1..] == [Ref(bar)];
    assert JoinItems(g, [Ref(bar)], {e}) == Ok("bar");
    var rest := "AND" + " " + "bar";
    assert JoinItems(g, items[1..], {e}) == Ok(rest);
    assert JoinItems(g, items, {e}) == Ok("foo" + " " + rest);
    assert "foo" + " " + rest == "foo AND bar";
    assert {} + {e} == {e};
  }

  /**
    A fresh Expression has no parent and takes a nested one, which takes
    one of its own; each knows its parent; a second nested Expression in a
    row is refused.
   */
  lemma CreateNestedSequence(h: Heap, e: NodeId) returns (g: Heap, sub: NodeId, subsub: NodeId)
    requires Valid(h) && IsGroup(h, e) && h.nodes[e] == Group([], None)
    ensures GetParent(h, e) == Err(InvalidParent)
    ensures var r1 := CreateNestedExpression(h, e);
      && r1.Ok? && r1.value.1 == sub
      && var r2 := CreateNestedExpression(r1.value.0, sub);
      && r2 == Ok((g, subsub))
    ensures Valid(g) && GetParent(g, sub) == Ok(e) && GetParent(g, subsub) == Ok(sub)
    ensures CreateNestedExpression(g, e) == Err(OperandAfterOperand)
  {
    var h1;
    h1, sub := CreateNestedExpression(h, e).value.0, CreateNestedExpression(h, e).value.1;
    g, subsub := CreateNestedExpression(h1, sub).value.0, CreateNestedExpression(h1, sub).value.1;
    assert g.nodes[e] == h1.nodes[e];
  }

  /** A nested Expression right after a constraint is refused. */
  lemma NestedAfterConstraint(h: Heap, e: NodeId, foo: NodeId, bar: NodeId)
    requires Valid(h) && Fixture(h, e, foo, bar)
    ensures var h1 := AddElement(h, e, NodeRef(foo));
      h1.Ok? && CreateNestedExpression(h1.value, e) == Err(OperandAfterOperand)
  {
  }

  /** Only an Expression can be a parent; a Constraint cannot. */
  lemma SetParentExamples(h: Heap, e: NodeId, foo: NodeId, bar: NodeId)
    requires Valid(h) && Fixture(h, e, foo, bar)
    ensures SetParent(h, foo, NodeRef(bar)) == Err(InvalidParent)
    ensures SetParent(h, foo, Foreign) == Err(InvalidParent)
    ensures GetParent(h, foo) == Err(InvalidParent)
    ensures var g := SetParent(h, foo, NodeRef(e));
      g.Ok? && GetParent(g.value, foo) == Ok(e)
  {
  }

  /** A Constraint prints its three parts only when it has an argument. */
  lemma ConstraintStrExamples()
    ensures ConstraintStr("foo", None, None) == "foo"
    ensures ConstraintStr("foo", Some("=="), Some("bar")) == "foo == bar"
  {
  }

  // ---------------------------------------------------------------------------
  // Parsing
  // ---------------------------------------------------------------------------

  /** The objects `((x))` builds: the result 0 holds 1, which holds 2, which holds the constraint 3. */
  predicate NestedTwiceObjects(h: Heap, x: string) {
    && 0 in h.nodes && h.nodes[0] == Group([Ref(1)], None)
    && 1 in h.nodes && h.nodes[1] == Group([Ref(2)], Some(0))
    && 2 in h.nodes && h.nodes[2] == Group([Ref(3)], Some(1))
    && 3 in h.nodes && h.nodes[3] == Leaf(x, None, None, Some(2))
  }

  /** `((foo))` parses, and the result prints as `( ( foo ) )`. */
  lemma ParseNestedTwice(x: string)
    requires Grammar.IsSelector(x)
    ensures var r := Legacy.Parse("((" + x + "))", Verbatim);
      r.Ok? && ToStr(r.value.0, r.value.1, {}) == Ok("( ( " + x + " ) )")
  {
    NestedTwicePieces(x);
    var h := NestedTwiceRun(x);
    NestedTwiceStr(h, x);
  }

  /**
    A single constraint parses, and the result prints its selector, its
    comparison in common form and its argument, separated by spaces, as
    `foo=gt=bar` prints as `foo > bar`.
   */
  lemma ParseOneConstraint(sel: string, cmp: string, arg: string)
    requires Grammar.IsSelector(sel) && Grammar.IsComparison(cmp) && Grammar.IsArgument(arg, Grammar.Legacy)
    ensures var r := Legacy.Parse(sel + cmp + arg, Verbatim);
      r.Ok? && ToStr(r.value.0, r.value.1, {})
               == Ok(sel + " " + Constraints.Format(Constraints.MapComparison(Some(cmp))) + " " + arg)
  {
    assert sel + cmp + arg == "" + sel + cmp + arg + "";
    IterParseAtConstraint("", sel, cmp, arg, "", Verbatim);
    var st := OneConstraintRun(Parser.Part("", Some(sel), Some(cmp), Some(arg)));
    SingleConstraintExpression(st.heap, 0, 1);
  }

  /** A bare selector parses, and the result prints as the selector. */
  lemma ParseOneSelector(sel: string)
    requires Grammar.IsSelector(sel)
    ensures var r := Legacy.Parse(sel, Verbatim);
      r.Ok? && ToStr(r.value.0, r.value.1, {}) == Ok(sel)
  {
    assert sel == "" + sel + "";
    IterParseAtSelector("", sel, "", Verbatim);
    var st := OneConstraintRun(Parser.Part("", Some(sel), None, None));
    SingleConstraintExpression(st.heap, 0, 1);
  }

  /** An empty string parses to an Expression without a constraint, which is refused. */
  lemma ParseEmpty()
    ensures Legacy.Parse("", Verbatim) == Err(NoConstraint)
  {
  }

  /** Operator characters before any constraint are refused, as in `;;foo`. */
  lemma ParseOperatorFirst(pre: string, x: string)
    requires pre != [] && (pre[0] == ';' || pre[0] == ',')
    requires forall i | 0 <= i < |pre| :: Grammar.OutsideSelector(pre[i])
    requires Grammar.IsSelector(x)
    ensures Legacy.Parse(pre + x, Verbatim) == Err(OperatorBeforeConstraint)
  {
    IterParseAtSelector(pre, x, "", Verbatim);
    assert pre + x + "" == pre + x;
    assert [pre[0]] == ";" || [pre[0]] == ",";
    RunOne(Start(), Parser.Part(pre, Some(x), None, None));
  }

  /**
    A preamble that starts with neither a parenthesis nor an operator
    symbol is refused, wherever the cursor is: its first character is taken
    for an operator.
   */
  lemma NonOperatorStep(st: State, p: Parser.Part)
    requires Good(st) && p.preamble != [] && p.preamble[0] !in "();,"
    ensures Step(st, p) == Err(InvalidOperator([p.preamble[0]]))
  {
    var c := p.preamble[0];
    assert [c] != ";" && [c] != ",";
    assert PreambleChar(st, c) == Err(InvalidOperator([c]));
  }

  /** A closing parenthesis at the top level is refused. */
  lemma CloseAtTopStep(st: State)
    requires Good(st) && st.current == st.root
    ensures Step(st, Parser.Part(")", None, None, None)) == Err(InvalidParent)
  {
    assert ")"[1..] == "";
  }

  /** A character between two constraints that is no operator is refused as one. */
  lemma ParseUnknownOperator(x: string, y: string)
    requires Grammar.IsSelector(x) && Grammar.IsSelector(y)
    ensures Legacy.Parse(x + "&" + y, Verbatim) == Err(InvalidOperator("&"))
  {
    UnknownOperatorPieces(x, y);
    SelectorThenNonOperator(x + "&" + y, x, Parser.Part("&", Some(y), None, None));
  }

  /** A group left open is refused. */
  lemma ParseUnclosed(x: string)
    requires Grammar.IsSelector(x)
    ensures Legacy.Parse("(" + x, Verbatim) == Err(UnclosedGroup)
  {
    IterParseAtSelector("(", x, "", Verbatim);
    assert "(" + x + "" == "(" + x;
    var p := Parser.Part("(", Some(x), None, None);
    RunOne(Start(), p);
    var inside := Preamble(Start(), "(");
    assert "("[1..] == "";
    assert inside.Ok? && inside.value.current != inside.value.root;
  }

  /** Closing a group at the top level asks the result for a parent it does not have. */
  lemma ParseCloseAtTop(x: string)
    requires Grammar.IsSelector(x)
    ensures Legacy.Parse(x + ")", Verbatim) == Err(InvalidParent)
  {
    IterParseNoConstraint(")", Verbatim);
    IterParseAtSelector("", x, ")", Verbatim);
    assert "" + x + ")" == x + ")";
    var st := FirstSelector(x);
    CloseAtTopStep(st);
    RunTwo(Start(), Parser.Part("", Some(x), None, None), Parser.Part(")", None, None, None), st);
  }

  /** An `=` that begins no comparison followed by an argument is taken for an operator, as in `foo=bar`. */
  lemma ParseEqualsSelector(x: string, y: string)
    requires Grammar.IsSelector(x) && Grammar.IsSelector(y)
    ensures Legacy.Parse(x + "=" + y, Verbatim) == Err(InvalidOperator("="))
  {
    EqualsSelectorPieces(x, y);
    SelectorThenNonOperator(x + "=" + y, x, Parser.Part("=", Some(y), None, None));
  }

  /** A comparison without an argument, or a lone trailing `=`, is refused the same way, as in `foo==` and `foo=`. */
  lemma ParseLoneEquals(x: string, eq: string)
    requires Grammar.IsSelector(x) && (eq == "=" || eq == "==")
    ensures Legacy.Parse(x + eq, Verbatim) == Err(InvalidOperator("="))
  {
    LoneEqualsPieces(x, eq);
    SelectorThenNonOperator(x + eq, x, Parser.Part(eq, None, None, None));
    assert [eq[0]] == "=";
  }

  /** Closing the group and opening another at once is refused: the closed group is the result's last item. */
  lemma GroupAfterGroupStep(st: State, y: string)
    requires Good(st) && st.current in st.heap.nodes && st.heap.nodes[st.current].parent == Some(st.root)
    requires st.heap.nodes[st.root].items == [Ref(st.current)]
    ensures Step(st, Parser.Part(")(", Some(y), None, None)) == Err(OperandAfterOperand)
  {
    var st1 := PreambleChar(st, ')').value;
    assert st1.current == st.root;
    assert ")("[1..] == "(" && "("[1..] == "";
  }

  /** A group directly after a group is refused, as in `(foo)(bar)`. */
  lemma ParseGroupAfterGroup(x: string, y: string)
    requires Grammar.IsSelector(x) && Grammar.IsSelector(y)
    ensures Legacy.Parse("(" + x + ")(" + y + ")", Verbatim) == Err(OperandAfterOperand)
  {
    GroupAfterGroupPieces(x, y);
    var st := OpenedSelector(x);
    GroupAfterGroupStep(st, y);
    RunThreeStops(Start(), Parser.Part("(", Some(x), None, None), Parser.Part(")(", Some(y), None, None),
                  Parser.Part(")", None, None, None), st);
  }

  // ---------------------------------------------------------------------------
  // Proof steps: the pieces, steps and walks the examples above are built from;
  // they state no behaviour of their own
  // ---------------------------------------------------------------------------

  /** `((x))` is two pieces: the opening parentheses with x, then the closing ones. */
  lemma NestedTwicePieces(x: string)
    requires Grammar.IsSelector(x)
    ensures IterParse("((" + x + "))", Verbatim)
            == [Parser.Part("((", Some(x), None, None), Parser.Part("))", None, None, None)]
  {
    IterParseAtSelector("((", x, "))", Verbatim);
    IterParseNoConstraint("))", Verbatim);
  }

  lemma NestedTwiceOpens() returns (st: State)
    ensures Preamble(Start(), "((") == Ok(st)
    ensures Good(st) && st.root == 0 && st.current == 2 && st.heap.next == 3 && 0 in st.heap.nodes && 1 in st.heap.nodes
    ensures st.heap.nodes[0] == Group([Ref(1)], None) && st.heap.nodes[1] == Group([Ref(2)], Some(0))
    ensures st.heap.nodes[2] == Group([], Some(1))
  {
    var st0 := Start();
    var st1 := PreambleChar(st0, '(').value;
    st := PreambleChar(st1, '(').value;
    assert "(("[1..] == "(" && "("[1..] == "";
  }

  lemma NestedTwiceFills(st: State, x: string) returns (st': State)
    requires Good(st) && st.root == 0 && st.current == 2 && st.heap.next == 3 && 0 in st.heap.nodes && 1 in st.heap.nodes
    requires st.heap.nodes[0] == Group([Ref(1)], None) && st.heap.nodes[1] == Group([Ref(2)], Some(0))
    requires st.heap.nodes[2] == Group([], Some(1))
    requires x != ""
    ensures ConstraintStep(st, Parser.Part("((", Some(x), None, None)) == Ok(st')
    ensures Good(st') && st'.root == 0 && st'.current == 2 && NestedTwiceObjects(st'.heap, x)
  {
    st' := ConstraintStep(st, Parser.Part("((", Some(x), None, None)).value;
  }

  lemma NestedTwiceCloses(st: State, x: string)
    requires Good(st) && st.root == 0 && st.current == 2 && NestedTwiceObjects(st.heap, x)
    ensures Preamble(st, "))") == Ok(State(st.heap, 0, 0))
  {
    var st1 := PreambleChar(st, ')').value;
    assert "))"[1..] == ")" && ")"[1..] == "";
  }

  lemma NestedTwiceStr(h: Heap, x: string)
    requires Valid(h) && NestedTwiceObjects(h, x) && x != ""
    ensures ToStr(h, 0, {}) == Ok("( ( " + x + " ) )")
  {
    assert ToStr(h, 3, {0, 1, 2}) == Ok(x);
    assert JoinItems(h, [Ref(3)], {0, 1, 2}) == Ok(x);
    assert {0, 1} + {2} == {0, 1, 2};
    assert ToStr(h, 2, {0, 1}) == Ok("( " + x + " )");
    assert {0} + {1} == {0, 1};
    assert ToStr(h, 1, {0}) == Ok("( " + ("( " + x + " )") + " )");
    assert {} + {0} == {0};
    assert "( " + ("( " + x + " )") + " )" == "( ( " + x + " ) )";
  }

  /** The walk over both pieces leaves the cursor back on the result. */
  lemma NestedTwiceRun(x: string) returns (h: Heap)
    requires x != ""
    ensures Run(Start(), [Parser.Part("((", Some(x), None, None), Parser.Part("))", None, None, None)]) == Ok(State(h, 0, 0))
    ensures Valid(h) && NestedTwiceObjects(h, x)
  {
    var p, q := Parser.Part("((", Some(x), None, None), Parser.Part("))", None, None, None);
    var st := NestedTwiceOpens();
    var st' := NestedTwiceFills(st, x);
    NestedTwiceCloses(st', x);
    h := st'.heap;
    assert Step(Start(), p) == Ok(st');
    RunTwo(Start(), p, q, st');
    assert Step(st', q) == Ok(State(h, 0, 0));
  }

  /**
    Walking the one piece of a constraint leaves the first Expression, with
    no parent, holding the constraint, its comparison in common form.
   */
  lemma OneConstraintRun(p: Parser.Part) returns (st: State)
    requires p.preamble == "" && p.selector.Some? && p.selector.value != ""
    ensures Run(Start(), [p]) == Ok(st)
    ensures st.root == 0 && st.current == 0 && Good(st)
    ensures 1 in st.heap.nodes && st.heap.nodes[0] == Group([Ref(1)], None)
    ensures st.heap.nodes[1] == Leaf(p.selector.value, Constraints.MapComparison(p.comparison), p.argument, Some(0))
  {
    RunOne(Start(), p);
    st := Step(Start(), p).value;
  }

  /** A walk over one piece is that piece's step. */
  lemma RunOne(st: State, p: Parser.Part)
    requires Good(st)
    ensures Run(st, [p]) == Step(st, p)
  {
    assert [p][1..] == [];
  }

  /** A walk over two pieces, the first of which succeeds, ends as the second step does. */
  lemma RunTwo(st: State, p: Parser.Part, q: Parser.Part, st1: State)
    requires Good(st) && Step(st, p) == Ok(st1)
    ensures Good(st1) && Run(st, [p, q]) == Step(st1, q)
  {
    assert [p, q][1..] == [q];
    RunOne(st1, q);
  }

  /** A bare selector at the start becomes the first element of the result. */
  lemma FirstSelector(x: string) returns (st: State)
    requires x != ""
    ensures Step(Start(), Parser.Part("", Some(x), None, None)) == Ok(st)
    ensures Good(st) && st.root == 0 && st.current == 0
  {
    st := Step(Start(), Parser.Part("", Some(x), None, None)).value;
  }

  /** `&y` is one piece. */
  lemma UnknownOperatorPiece(y: string)
    requires Grammar.IsSelector(y)
    ensures IterParse("&" + y, Verbatim) == [Parser.Part("&", Some(y), None, None)]
  {
    IterParseAtSelector("&", y, "", Verbatim);
    assert "&" + y + "" == "&" + y;
  }

  /** A bare selector at the start is the first piece, before those of the text after it. */
  lemma SelectorFirst(x: string, rest: string, tail: seq<Parser.Part>)
    requires Grammar.IsSelector(x) && IterParse(rest, Verbatim) == tail
    requires rest == [] || (Grammar.OutsideSelector(rest[0]) && rest[0] != '=' && !Grammar.IsFiqlDelim(rest[0]))
    ensures IterParse(x + rest, Verbatim) == [Parser.Part("", Some(x), None, None)] + tail
  {
    IterParseAtSelector("", x, rest, Verbatim);
    assert "" + x + rest == x + rest;
  }

  /** `x&y` is two pieces: x, then `&` with y. */
  lemma UnknownOperatorPieces(x: string, y: string)
    requires Grammar.IsSelector(x) && Grammar.IsSelector(y)
    ensures IterParse(x + "&" + y, Verbatim)
            == [Parser.Part("", Some(x), None, None), Parser.Part("&", Some(y), None, None)]
  {
    UnknownOperatorPiece(y);
    Parser.StartsWith("&", y);
    SelectorFirst(x, "&" + y, [Parser.Part("&", Some(y), None, None)]);
    assert x + "&" + y == x + ("&" + y);
    Parser.ConsOntoOne(Parser.Part("", Some(x), None, None), Parser.Part("&", Some(y), None, None));
  }

  /** A selector, then a piece whose preamble starts with no operator symbol: refused. */
  lemma SelectorThenNonOperator(s: string, x: string, p: Parser.Part)
    requires x != "" && IterParse(s, Verbatim) == [Parser.Part("", Some(x), None, None), p]
    requires p.preamble != [] && p.preamble[0] !in "();,"
    ensures Legacy.Parse(s, Verbatim) == Err(InvalidOperator([p.preamble[0]]))
  {
    var st := FirstSelector(x);
    NonOperatorStep(st, p);
    RunTwo(Start(), Parser.Part("", Some(x), None, None), p, st);
  }

  /** `x=y` is two pieces: x, then `=` with y. */
  lemma EqualsSelectorPieces(x: string, y: string)
    requires Grammar.IsSelector(x) && Grammar.IsSelector(y)
    ensures IterParse(x + "=" + y, Verbatim)
            == [Parser.Part("", Some(x), None, None), Parser.Part("=", Some(y), None, None)]
  {
    Grammar.SelectorCharsNoEquals(y);
    Grammar.SplitAtLoneEquals(x, y, Grammar.Legacy);
    IterParseAtSelector("=", y, "", Verbatim);
    assert "=" + y + "" == "=" + y;
    Parser.ConsOntoOne(Parser.Part("", Some(x), None, None), Parser.Part("=", Some(y), None, None));
  }

  /** `x=` and `x==` are two pieces: x, then the equals signs alone. */
  lemma LoneEqualsPieces(x: string, eq: string)
    requires Grammar.IsSelector(x) && (eq == "=" || eq == "==")
    ensures IterParse(x + eq, Verbatim) == [Parser.Part("", Some(x), None, None), Parser.Part(eq, None, None, None)]
  {
    var t := eq[1..];
    assert eq == "=" + t && x + eq == x + "=" + t;
    Grammar.SplitAtLoneEquals(x, t, Grammar.Legacy);
    IterParseNoConstraint(eq, Verbatim);
    Parser.ConsOntoOne(Parser.Part("", Some(x), None, None), Parser.Part(eq, None, None, None));
  }

  /** `)(y)` is two pieces. */
  lemma GroupAfterGroupTail(between: string, y: string, close: string)
    requires Grammar.IsSelector(y) && between == ")(" && close == ")"
    ensures IterParse(between + y + close, Verbatim)
            == [Parser.Part(between, Some(y), None, None), Parser.Part(close, None, None, None)]
  {
    IterParseNoConstraint(close, Verbatim);
    IterParseAtSelector(between, y, close, Verbatim);
    Parser.ConsOntoOne(Parser.Part(between, Some(y), None, None), Parser.Part(close, None, None, None));
  }

  /** `(x)(y)` is three pieces. */
  lemma GroupAfterGroupPieces(x: string, y: string)
    requires Grammar.IsSelector(x) && Grammar.IsSelector(y)
    ensures IterParse("(" + x + ")(" + y + ")", Verbatim)
            == [Parser.Part("(", Some(x), None, None), Parser.Part(")(", Some(y), None, None), Parser.Part(")", None, None, None)]
  {
    GroupAfterGroupTail(")(", y, ")");
    SelectorBeforeGroup("(", x, ")(", y, ")",
                        [Parser.Part(")(", Some(y), None, None), Parser.Part(")", None, None, None)]);
  }

  /** The same, with the parenthesis text as plain strings. */
  lemma SelectorBeforeGroup(open: string, x: string, between: string, y: string, close: string, tail: seq<Parser.Part>)
    requires Grammar.IsSelector(x) && open == "(" && between == ")(" && close == ")"
    requires IterParse(between + y + close, Verbatim) == tail
    ensures IterParse(open + x + between + y + close, Verbatim) == [Parser.Part(open, Some(x), None, None)] + tail
  {
    Parser.StartsWith(between, y);
    Parser.StartsWith(between + y, close);
    IterParseAtSelector(open, x, between + y + close, Verbatim);
    Parser.Rebracket(open, x, between, y, close);
  }

  /** A group opened before a selector: the cursor is the nested Expression, the result's only item. */
  lemma OpenedSelector(x: string) returns (st: State)
    requires x != ""
    ensures Step(Start(), Parser.Part("(", Some(x), None, None)) == Ok(st)
    ensures Good(st) && st.root == 0 && st.current in st.heap.nodes && st.heap.nodes[st.current].parent == Some(0)
    ensures st.heap.nodes[0].items == [Ref(st.current)]
  {
    var st1 := PreambleChar(Start(), '(').value;
    assert "("[1..] == "";
    st := ConstraintStep(st1, Parser.Part("(", Some(x), None, None)).value;
  }

  /** A walk over three pieces stops at the second when that one fails. */
  lemma RunThreeStops(st: State, p: Parser.Part, q: Parser.Part, r: Parser.Part, st1: State)
    requires Good(st) && Step(st, p) == Ok(st1)
    ensures Good(st1)
    ensures Step(st1, q).Err? ==> Run(st, [p, q, r]) == Step(st1, q)
  {
    assert [p, q, r][1..] == [q, r];
  }
}
