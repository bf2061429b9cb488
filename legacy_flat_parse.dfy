/**
  What the single-module `parse_str_to_expression` makes of any number of
  constraints joined by one operator symbol: one Expression whose list
  interleaves them with the operator, which prints as the constraints'
  texts separated by the operator's name.
 */
module LegacyFlatParse {
  import opened Wrappers
  import opened Errors
  import opened Operators
  import Constraints
  import Grammar
  import Parser
  import opened Legacy
  import opened FlatParse
  import Expressions
  import LegacyExamples

  /** The node the parser builds for a constraint: its comparison in common form. */
  function LeafOf(c: Constraints.Constraint, parent: Option<NodeId>): Node {
    Leaf(c.selector, Constraints.MapComparison(c.comparison), c.argument, parent)
  }

  /** How that node prints. */
  function Printed(c: Constraints.Constraint): string {
    ConstraintStr(c.selector, Constraints.MapComparison(c.comparison), c.argument)
  }

  /** How the constraints print, in order. */
  function PrintedAll(cs: seq<Constraints.Constraint>): (texts: seq<string>)
    ensures |texts| == |cs| && forall i | 0 <= i < |cs| :: texts[i] == Printed(cs[i])
  {
    seq(|cs|, i requires 0 <= i < |cs| => Printed(cs[i]))
  }

  /** The nodes, interleaved with the operator: the list `add_element` builds from them. */
  function ItemsOf(ids: seq<NodeId>, op: Operator): (items: seq<Item>)
    requires ids != []
    ensures |items| == 2 * |ids| - 1
  {
    if |ids| == 1 then [Ref(ids[0])] else [Ref(ids[0]), Op(op)] + ItemsOf(ids[1..], op)
  }

  /** One node more at the end is the operator and that node after the others. */
  lemma {:induction false} ItemsOfSnoc(ids: seq<NodeId>, k: NodeId, op: Operator)
    requires ids != []
    ensures ItemsOf(ids + [k], op) == ItemsOf(ids, op) + [Op(op), Ref(k)]
    decreases |ids|
  {
    assert (ids + [k])[0] == ids[0];
    if |ids| > 1 {
      assert (ids + [k])[1..] == ids[1..] + [k];
      ItemsOfSnoc(ids[1..], k, op);
    } else {
      assert (ids + [k])[1..] == [k];
    }
  }

  // ---------------------------------------------------------------------------
  // Pieces
  // ---------------------------------------------------------------------------

  /** A constraint after a preamble without selector characters is the next piece. */
  lemma PieceThen(pre: string, c: Constraints.Constraint, rest: string, unquote: string -> string)
    requires forall i | 0 <= i < |pre| :: Grammar.OutsideSelector(pre[i])
    requires Writable(c, Grammar.Legacy) && Keeps(unquote, c)
    requires rest == [] || rest[0] in {';', ',', ')'}
    ensures Legacy.IterParse(pre + Written(c) + rest, unquote) == [PieceOf(pre, c)] + Legacy.IterParse(rest, unquote)
  {
    if c.comparison.Some? {
      FullPieceThen(pre, c.selector, c.comparison.value, c.argument.value, rest, unquote);
    } else {
      assert pre + Written(c) + rest == pre + c.selector + rest;
      IterParseAtSelector(pre, c.selector, rest, unquote);
    }
  }

  lemma FullPieceThen(pre: string, sel: string, cmp: string, arg: string, rest: string, unquote: string -> string)
    requires forall i | 0 <= i < |pre| :: Grammar.OutsideSelector(pre[i])
    requires Grammar.IsSelector(sel) && Grammar.IsComparison(cmp) && Grammar.IsArgument(arg, Grammar.Legacy)
    requires unquote(sel) == sel && unquote(arg) == arg
    requires rest == [] || rest[0] in {';', ',', ')'}
    ensures var c := Constraints.Constraint(sel, Some(cmp), Some(arg));
      Legacy.IterParse(pre + Written(c) + rest, unquote) == [PieceOf(pre, c)] + Legacy.IterParse(rest, unquote)
  {
    assert pre + Written(Constraints.Constraint(sel, Some(cmp), Some(arg))) + rest == pre + sel + cmp + arg + rest;
    IterParseAtConstraint(pre, sel, cmp, arg, rest, unquote);
  }

  /** Constraints each led by the symbol are cut into one piece each, the symbol as preamble. */
  lemma {:induction false} FollowingPieces(cs: seq<Constraints.Constraint>, op: Operator, unquote: string -> string)
    requires forall c | c in cs :: Writable(c, Grammar.Legacy) && Keeps(unquote, c)
    ensures Legacy.IterParse(Following(cs, Symbol(op)), unquote) == PiecesAfter(cs, Symbol(op))
    decreases |cs|
  {
    if cs != [] {
      var symbol := Symbol(op);
      var rest := Following(cs[1..], symbol);
      SymbolChar(op);
      FollowingPieces(cs[1..], op, unquote);
      assert rest == [] || rest[0] == symbol[0];
      PieceThen(symbol, cs[0], rest, unquote);
    }
  }

  /** Constraints joined by the symbol are cut into one piece each, the first without preamble. */
  lemma JoinedPieces(cs: seq<Constraints.Constraint>, op: Operator, unquote: string -> string)
    requires cs != [] && forall c | c in cs :: Writable(c, Grammar.Legacy) && Keeps(unquote, c)
    ensures Legacy.IterParse(Joined(cs, Symbol(op)), unquote) == [PieceOf("", cs[0])] + PiecesAfter(cs[1..], Symbol(op))
  {
    var rest := Following(cs[1..], Symbol(op));
    SymbolChar(op);
    FollowingPieces(cs[1..], op, unquote);
    assert rest == [] || rest[0] == Symbol(op)[0];
    assert Joined(cs, Symbol(op)) == "" + Written(cs[0]) + rest;
    PieceThen("", cs[0], rest, unquote);
  }

  // ---------------------------------------------------------------------------
  // The walk
  // ---------------------------------------------------------------------------

  /**
    The walk so far: the cursor is on the result, node 0, which has no
    parent and lists nodes 1 to n, the constraints of cs in order,
    interleaved with the operator; each has node 0 as parent.
   */
  ghost predicate Flat(st: State, cs: seq<Constraints.Constraint>, op: Operator)
    requires cs != []
  {
    && Good(st) && st.root == 0 && st.current == 0 && st.heap.next == |cs| + 1
    && st.heap.nodes[0] == Group(ItemsOf(Upto(|cs|), op), None)
    && forall i | 1 <= i <= |cs| :: i in st.heap.nodes && st.heap.nodes[i] == LeafOf(cs[i - 1], Some(0))
  }

  /** The first constraint: the result lists it alone. */
  lemma FirstStep(c: Constraints.Constraint, op: Operator) returns (st: State)
    requires Writable(c, Grammar.Legacy)
    ensures Step(Start(), PieceOf("", c)) == Ok(st) && Flat(st, [c], op)
  {
    st := Step(Start(), PieceOf("", c)).value;
    assert Upto(1) == [1];
  }

  /** The operator symbol is added after the last constraint. */
  lemma SymbolStep(st: State, cs: seq<Constraints.Constraint>, op: Operator) returns (st': State)
    requires cs != [] && Flat(st, cs, op)
    ensures Preamble(st, Symbol(op)) == Ok(st')
    ensures Good(st') && st'.root == 0 && st'.current == 0 && st'.heap.next == st.heap.next
    ensures st'.heap.nodes == st.heap.nodes[0 := Group(ItemsOf(Upto(|cs|), op) + [Op(op)], None)]
  {
    ItemsOfLast(Upto(|cs|), op);
    st' := OperatorAppended(st, op);
  }

  lemma {:induction false} ItemsOfLast(ids: seq<NodeId>, op: Operator)
    requires ids != []
    ensures var items := ItemsOf(ids, op); items[|items| - 1] == Ref(ids[|ids| - 1])
    decreases |ids|
  {
    if |ids| > 1 {
      ItemsOfLast(ids[1..], op);
    }
  }

  /** A constraint is added to the end of the list at the cursor, when that list is empty or ends with an operator. */
  lemma LeafAppended(st: State, pre: string, c: Constraints.Constraint) returns (st': State)
    requires Good(st) && Grammar.IsSelector(c.selector)
    requires var items := st.heap.nodes[st.current].items; items == [] || items[|items| - 1].Op?
    ensures ConstraintStep(st, PieceOf(pre, c)) == Ok(st')
    ensures Good(st') && st'.root == st.root && st'.current == st.current && st'.heap.next == st.heap.next + 1
    ensures st'.heap.nodes[st.current] == st.heap.nodes[st.current].(items := st.heap.nodes[st.current].items + [Ref(st.heap.next)])
    ensures st.heap.next in st'.heap.nodes && st'.heap.nodes[st.heap.next] == LeafOf(c, Some(st.current))
    ensures forall i | i in st.heap.nodes && i != st.current :: i in st'.heap.nodes && st'.heap.nodes[i] == st.heap.nodes[i]
  {
    var (h1, leaf) := NewConstraint(st.heap, c.selector, Constraints.MapComparison(c.comparison), c.argument);
    var g := AddElement(h1, st.current, NodeRef(leaf)).value;
    st' := State(g, st.root, st.current);
  }

  /** An operator symbol is added to the end of the list at the cursor, when that list ends with an operand. */
  lemma OperatorAppended(st: State, op: Operator) returns (st': State)
    requires Good(st)
    requires var items := st.heap.nodes[st.current].items; items != [] && items[|items| - 1].Ref?
    ensures Preamble(st, Symbol(op)) == Ok(st')
    ensures Good(st') && st'.root == st.root && st'.current == st.current && st'.heap.next == st.heap.next
    ensures st'.heap.nodes == st.heap.nodes[st.current := st.heap.nodes[st.current].(items := st.heap.nodes[st.current].items + [Op(op)])]
  {
    var symbol := Symbol(op);
    SymbolChar(op);
    ParseSymbol(op);
    assert [symbol[0]] == symbol && symbol[1..] == "";
    st' := PreambleChar(st, symbol[0]).value;
  }

  lemma UptoItems(n: nat, op: Operator)
    requires n > 0
    ensures ItemsOf(Upto(n), op) + [Op(op)] + [Ref(n + 1)] == ItemsOf(Upto(n + 1), op)
  {
    ItemsOfSnoc(Upto(n), n + 1, op);
    assert Upto(n) + [n + 1] == Upto(n + 1);
  }

  /** Leaves kept, and one more after them. */
  lemma LeavesSnoc(h: Heap, g: Heap, cs: seq<Constraints.Constraint>, c: Constraints.Constraint)
    requires forall i | 1 <= i <= |cs| :: i in h.nodes && h.nodes[i] == LeafOf(cs[i - 1], Some(0))
    requires forall i | i in h.nodes && i != 0 :: i in g.nodes && g.nodes[i] == h.nodes[i]
    requires |cs| + 1 in g.nodes && g.nodes[|cs| + 1] == LeafOf(c, Some(0))
    ensures forall i | 1 <= i <= |cs + [c]| :: i in g.nodes && g.nodes[i] == LeafOf((cs + [c])[i - 1], Some(0))
  {
    var ds := cs + [c];
    forall i | 1 <= i <= |ds| ensures i in g.nodes && g.nodes[i] == LeafOf(ds[i - 1], Some(0)) {
      if i <= |cs| {
        assert ds[i - 1] == cs[i - 1] && h.nodes[i] == LeafOf(cs[i - 1], Some(0));
      } else {
        assert ds[i - 1] == c;
      }
    }
  }

  /** A constraint after the symbol is added to the result. */
  lemma ConstraintAdded(st: State, cs: seq<Constraints.Constraint>, op: Operator, c: Constraints.Constraint)
    returns (st': State)
    requires cs != [] && Good(st) && st.root == 0 && st.current == 0 && st.heap.next == |cs| + 1
    requires st.heap.nodes[0] == Group(ItemsOf(Upto(|cs|), op) + [Op(op)], None)
    requires forall i | 1 <= i <= |cs| :: i in st.heap.nodes && st.heap.nodes[i] == LeafOf(cs[i - 1], Some(0))
    requires Grammar.IsSelector(c.selector)
    ensures ConstraintStep(st, PieceOf(Symbol(op), c)) == Ok(st') && Flat(st', cs + [c], op)
  {
    st' := LeafAppended(st, Symbol(op), c);
    UptoItems(|cs|, op);
    assert st'.heap.nodes[0] == Group(ItemsOf(Upto(|cs + [c]|), op), None);
    LeavesSnoc(st.heap, st'.heap, cs, c);
  }

  /** One more constraint led by the symbol keeps the walk flat. */
  lemma NextStep(st: State, cs: seq<Constraints.Constraint>, op: Operator, c: Constraints.Constraint) returns (st': State)
    requires cs != [] && Flat(st, cs, op) && Writable(c, Grammar.Legacy)
    ensures Step(st, PieceOf(Symbol(op), c)) == Ok(st') && Flat(st', cs + [c], op)
  {
    var st1 := SymbolStep(st, cs, op);
    forall i | 1 <= i <= |cs| ensures i in st1.heap.nodes && st1.heap.nodes[i] == LeafOf(cs[i - 1], Some(0)) {
      assert i in st.heap.nodes && st.heap.nodes[i] == LeafOf(cs[i - 1], Some(0));
    }
    st' := ConstraintAdded(st1, cs, op, c);
  }

  /** A walk whose first step succeeds goes on from that step's state. */
  lemma RunCons(st: State, pieces: seq<Parser.Part>, st1: State)
    requires Good(st) && pieces != [] && Step(st, pieces[0]) == Ok(st1)
    ensures Good(st1) && Run(st, pieces) == Run(st1, pieces[1..])
  {
  }

  /** The pieces of the remaining constraints, walked one by one, keep the walk flat. */
  lemma {:induction false} FlatRun(st: State, cs: seq<Constraints.Constraint>, op: Operator, ds: seq<Constraints.Constraint>)
    returns (st': State)
    requires cs != [] && Flat(st, cs, op)
    requires forall c | c in ds :: Writable(c, Grammar.Legacy)
    ensures Run(st, PiecesAfter(ds, Symbol(op))) == Ok(st') && Flat(st', cs + ds, op)
    decreases |ds|
  {
    if ds == [] {
      st' := st;
      assert cs + ds == cs;
    } else {
      var pieces := PiecesAfter(ds, Symbol(op));
      assert pieces[0] == PieceOf(Symbol(op), ds[0]) && pieces[1..] == PiecesAfter(ds[1..], Symbol(op));
      assert cs + [ds[0]] + ds[1..] == cs + ds;
      var st1 := NextStep(st, cs, op, ds[0]);
      RunCons(st, pieces, st1);
      st' := FlatRun(st1, cs + [ds[0]], op, ds[1..]);
    }
  }

  // ---------------------------------------------------------------------------
  // What parsing gives
  // ---------------------------------------------------------------------------

  /**
    Any number of constraints joined by one operator symbol parse to the
    result, node 0, which lists nodes 1 to n, the constraints in order with
    their comparisons in common form, interleaved with the operator.
   */
  lemma ParseJoined(cs: seq<Constraints.Constraint>, op: Operator, unquote: string -> string) returns (h: Heap)
    requires cs != [] && forall c | c in cs :: Writable(c, Grammar.Legacy) && Keeps(unquote, c)
    ensures Legacy.Parse(Joined(cs, Symbol(op)), unquote) == Ok((h, 0)) && Valid(h)
    ensures h.nodes[0] == Group(ItemsOf(Upto(|cs|), op), None)
    ensures forall i | 1 <= i <= |cs| :: i in h.nodes && h.nodes[i] == LeafOf(cs[i - 1], Some(0))
  {
    JoinedPieces(cs, op, unquote);
    var st1 := FirstStep(cs[0], op);
    var st := FlatRun(st1, [cs[0]], op, cs[1..]);
    assert [cs[0]] + cs[1..] == cs;
    var pieces := [PieceOf("", cs[0])] + PiecesAfter(cs[1..], Symbol(op));
    assert pieces[0] == PieceOf("", cs[0]) && pieces[1..] == PiecesAfter(cs[1..], Symbol(op));
    RunCons(Start(), pieces, st1);
    h := st.heap;
  }

  /** An interleaved list of constraint nodes prints as their texts separated by the operator's name. */
  lemma {:induction false} JoinItemsFlat(h: Heap, ids: seq<NodeId>, texts: seq<string>, seen: set<NodeId>, op: Operator)
    requires Valid(h) && ids != [] && |texts| == |ids|
    requires forall i | 0 <= i < |ids| :: ids[i] in h.nodes && ids[i] !in seen && h.nodes[ids[i]].Leaf?
    requires forall i | 0 <= i < |ids| :: var n := h.nodes[ids[i]]; ConstraintStr(n.selector, n.comparison, n.argument) == texts[i]
    ensures forall i | 0 <= i < |ItemsOf(ids, op)| :: ItemsOf(ids, op)[i].Ref? ==> ItemsOf(ids, op)[i].id in h.nodes
    ensures JoinItems(h, ItemsOf(ids, op), seen) == Ok(Expressions.JoinTexts(texts, " " + Name(op) + " "))
    decreases |ids|
  {
    ItemsInHeap(h, ids, op);
    var n := h.nodes[ids[0]];
    assert ToStr(h, ids[0], seen) == Ok(texts[0]);
    if |ids| > 1 {
      var rest := ItemsOf(ids[1..], op);
      JoinItemsFlat(h, ids[1..], texts[1..], seen, op);
      var items := ItemsOf(ids, op);
      var sep := " " + Name(op) + " ";
      var tail := Expressions.JoinTexts(texts[1..], sep);
      assert items[1..] == [Op(op)] + rest && ([Op(op)] + rest)[1..] == rest;
      assert JoinItems(h, [Op(op)] + rest, seen) == Ok(Name(op) + " " + tail);
      assert JoinItems(h, items, seen) == Ok(texts[0] + " " + (Name(op) + " " + tail));
      assert texts[0] + " " + (Name(op) + " " + tail) == texts[0] + sep + tail;
    }
  }

  lemma {:induction false} ItemsInHeap(h: Heap, ids: seq<NodeId>, op: Operator)
    requires ids != [] && forall i | 0 <= i < |ids| :: ids[i] in h.nodes
    ensures forall i | 0 <= i < |ItemsOf(ids, op)| :: ItemsOf(ids, op)[i].Ref? ==> ItemsOf(ids, op)[i].id in h.nodes
    decreases |ids|
  {
    if |ids| > 1 {
      ItemsInHeap(h, ids[1..], op);
      var items := ItemsOf(ids, op);
      forall i | 0 <= i < |items| && items[i].Ref? ensures items[i].id in h.nodes {
        if i >= 2 {
          assert items[i] == ItemsOf(ids[1..], op)[i - 2];
        }
      }
    }
  }

  /**
    Parsing any number of constraints joined by `;` or `,`: the result
    prints as the constraints' texts, each with its comparison in common
    form, separated by ` AND ` or ` OR `.
   */
  lemma ParseJoinedPrints(cs: seq<Constraints.Constraint>, op: Operator, unquote: string -> string)
    requires cs != [] && forall c | c in cs :: Writable(c, Grammar.Legacy) && Keeps(unquote, c)
    ensures var r := Legacy.Parse(Joined(cs, Symbol(op)), unquote);
      r.Ok? && Legacy.ToStr(r.value.0, r.value.1, {}) == Ok(Expressions.JoinTexts(PrintedAll(cs), " " + Name(op) + " "))
  {
    var h := ParseJoined(cs, op, unquote);
    var ids := Upto(|cs|);
    var texts := PrintedAll(cs);
    forall i | 0 <= i < |ids| ensures ids[i] in h.nodes && ids[i] !in {0} && h.nodes[ids[i]].Leaf? {
      assert h.nodes[ids[i]] == LeafOf(cs[i], Some(0));
    }
    JoinItemsFlat(h, ids, texts, {} + {0}, op);
  }

  // ---------------------------------------------------------------------------
  // A constraint and a parenthesised pair
  // ---------------------------------------------------------------------------

  /** The FIQL text `a op1 (b op2 c)`. */
  function NestedText(a: Constraints.Constraint, op1: Operator, b: Constraints.Constraint, op2: Operator, c: Constraints.Constraint): string {
    Written(a) + Opened(op1, b, op2, c)
  }

  /** The text after the first constraint: `op1 (b op2 c)`. */
  function Opened(op1: Operator, b: Constraints.Constraint, op2: Operator, c: Constraints.Constraint): (s: string)
    ensures s != [] && s[0] == Symbol(op1)[0]
  {
    SymbolChar(op1);
    Symbol(op1) + "(" + Written(b) + (Symbol(op2) + Written(c) + ")")
  }

  /** Its pieces: each constraint with the text before it, then the closing parenthesis. */
  lemma NestedPieces(a: Constraints.Constraint, op1: Operator, b: Constraints.Constraint, op2: Operator, c: Constraints.Constraint,
                     unquote: string -> string)
    requires Writable(a, Grammar.Legacy) && Writable(b, Grammar.Legacy) && Writable(c, Grammar.Legacy)
    requires Keeps(unquote, a) && Keeps(unquote, b) && Keeps(unquote, c)
    ensures Legacy.IterParse(NestedText(a, op1, b, op2, c), unquote)
            == [PieceOf("", a), PieceOf(Symbol(op1) + "(", b), PieceOf(Symbol(op2), c), Parser.Part(")", None, None, None)]
  {
    var rest := Opened(op1, b, op2, c);
    SymbolChar(op1);
    assert "" + Written(a) + rest == NestedText(a, op1, b, op2, c);
    PieceThen("", a, rest, unquote);
    var p1, p2, p3 := PieceOf(Symbol(op1) + "(", b), PieceOf(Symbol(op2), c), Parser.Part(")", None, None, None);
    InnerPieces(op1, b, op2, c, unquote);
    PrependOne(PieceOf("", a), Legacy.IterParse(rest, unquote), p1, p2, p3);
  }

  lemma PrependOne(x: Parser.Part, ys: seq<Parser.Part>, y1: Parser.Part, y2: Parser.Part, y3: Parser.Part)
    requires ys == [y1, y2, y3]
    ensures [x] + ys == [x, y1, y2, y3]
  {
  }

  lemma InnerPieces(op1: Operator, b: Constraints.Constraint, op2: Operator, c: Constraints.Constraint, unquote: string -> string)
    requires Writable(b, Grammar.Legacy) && Writable(c, Grammar.Legacy) && Keeps(unquote, b) && Keeps(unquote, c)
    ensures Legacy.IterParse(Opened(op1, b, op2, c), unquote)
            == [PieceOf(Symbol(op1) + "(", b), PieceOf(Symbol(op2), c), Parser.Part(")", None, None, None)]
  {
    var t2 := Symbol(op2) + Written(c) + ")";
    ClosingPieces(op2, c, unquote);
    OpeningOutside(op1);
    SymbolChar(op2);
    assert t2[0] == Symbol(op2)[0];
    PieceThen(Symbol(op1) + "(", b, t2, unquote);
  }

  /** An operator symbol and `(` hold no selector character. */
  lemma OpeningOutside(op: Operator)
    ensures forall i | 0 <= i < |Symbol(op) + "("| :: Grammar.OutsideSelector((Symbol(op) + "(")[i])
  {
    SymbolChar(op);
  }

  lemma ClosingPieces(op2: Operator, c: Constraints.Constraint, unquote: string -> string)
    requires Writable(c, Grammar.Legacy) && Keeps(unquote, c)
    ensures Legacy.IterParse(Symbol(op2) + Written(c) + ")", unquote) == [PieceOf(Symbol(op2), c), Parser.Part(")", None, None, None)]
  {
    SymbolChar(op2);
    IterParseNoConstraint(")", unquote);
    PieceThen(Symbol(op2), c, ")", unquote);
  }

  /** What the walk over those pieces leaves: the pair is an Expression inside the result. */
  ghost predicate NestedObjects(h: Heap, a: Constraints.Constraint, op1: Operator, b: Constraints.Constraint, op2: Operator,
                                c: Constraints.Constraint) {
    && 0 in h.nodes && h.nodes[0] == Group([Ref(1), Op(op1), Ref(2)], None)
    && 1 in h.nodes && h.nodes[1] == LeafOf(a, Some(0))
    && 2 in h.nodes && h.nodes[2] == Group([Ref(3), Op(op2), Ref(4)], Some(0))
    && 3 in h.nodes && h.nodes[3] == LeafOf(b, Some(2))
    && 4 in h.nodes && h.nodes[4] == LeafOf(c, Some(2))
  }

  /** The operator, then `(`: a new Expression after it, the cursor inside. */
  lemma NestedOpens(st: State, a: Constraints.Constraint, op1: Operator) returns (st': State)
    requires Flat(st, [a], op1)
    ensures Preamble(st, Symbol(op1) + "(") == Ok(st')
    ensures Good(st') && st'.root == 0 && st'.current == 2 && st'.heap.next == 3
    ensures 0 in st'.heap.nodes && st'.heap.nodes[0] == Group([Ref(1), Op(op1), Ref(2)], None)
    ensures 1 in st'.heap.nodes && st'.heap.nodes[1] == LeafOf(a, Some(0))
    ensures 2 in st'.heap.nodes && st'.heap.nodes[2] == Group([], Some(0))
  {
    assert Upto(1) == [1];
    assert 1 in st.heap.nodes && st.heap.nodes[1] == LeafOf(a, Some(0));
    var st1 := OperatorAppended(st, op1);
    st' := OpenParen(st1, a, op1);
    SymbolChar(op1);
    var pre := Symbol(op1) + "(";
    assert pre[0] == Symbol(op1)[0] && pre[1..] == "(";
    assert Preamble(st, pre) == Preamble(st1, "(");
  }

  lemma OpenParen(st: State, a: Constraints.Constraint, op1: Operator) returns (st': State)
    requires Good(st) && st.root == 0 && st.current == 0 && st.heap.next == 2
    requires st.heap.nodes[0] == Group([Ref(1), Op(op1)], None)
    requires 1 in st.heap.nodes && st.heap.nodes[1] == LeafOf(a, Some(0))
    ensures Preamble(st, "(") == Ok(st')
    ensures Good(st') && st'.root == 0 && st'.current == 2 && st'.heap.next == 3
    ensures 0 in st'.heap.nodes && st'.heap.nodes[0] == Group([Ref(1), Op(op1), Ref(2)], None)
    ensures 1 in st'.heap.nodes && st'.heap.nodes[1] == LeafOf(a, Some(0))
    ensures 2 in st'.heap.nodes && st'.heap.nodes[2] == Group([], Some(0))
  {
    assert "("[1..] == "";
    st' := PreambleChar(st, '(').value;
  }

  /** The pair's first constraint. */
  lemma FillFirst(st: State, b: Constraints.Constraint, op1: Operator) returns (st': State)
    requires Good(st) && st.root == 0 && st.current == 2 && st.heap.next == 3
    requires 2 in st.heap.nodes && st.heap.nodes[2] == Group([], Some(0))
    requires Grammar.IsSelector(b.selector)
    ensures ConstraintStep(st, PieceOf(Symbol(op1) + "(", b)) == Ok(st')
    ensures Good(st') && st'.root == 0 && st'.current == 2 && st'.heap.next == 4
    ensures 2 in st'.heap.nodes && st'.heap.nodes[2] == Group([Ref(3)], Some(0))
    ensures 3 in st'.heap.nodes && st'.heap.nodes[3] == LeafOf(b, Some(2))
    ensures forall i | i in st.heap.nodes && i != 2 :: i in st'.heap.nodes && st'.heap.nodes[i] == st.heap.nodes[i]
  {
    st' := LeafAppended(st, Symbol(op1) + "(", b);
  }

  /** The pair's operator and second constraint. */
  lemma FillSecond(st: State, b: Constraints.Constraint, op2: Operator, c: Constraints.Constraint) returns (st': State)
    requires Good(st) && st.root == 0 && st.current == 2 && st.heap.next == 4
    requires 2 in st.heap.nodes && st.heap.nodes[2] == Group([Ref(3)], Some(0))
    requires Grammar.IsSelector(c.selector)
    ensures Step(st, PieceOf(Symbol(op2), c)) == Ok(st')
    ensures Good(st') && st'.root == 0 && st'.current == 2 && st'.heap.next == 5
    ensures 2 in st'.heap.nodes && st'.heap.nodes[2] == Group([Ref(3), Op(op2), Ref(4)], Some(0))
    ensures 4 in st'.heap.nodes && st'.heap.nodes[4] == LeafOf(c, Some(2))
    ensures forall i | i in st.heap.nodes && i != 2 :: i in st'.heap.nodes && st'.heap.nodes[i] == st.heap.nodes[i]
  {
    var st1 := OperatorAppended(st, op2);
    st' := LeafAppended(st1, Symbol(op2), c);
  }

  lemma RunOne(st: State, p: Parser.Part)
    requires Good(st) && Step(st, p).Ok?
    ensures Run(st, [p]) == Step(st, p)
  {
    assert [p][1..] == [];
  }

  /** `)`: the cursor goes back to the result. */
  lemma NestedCloses(st: State)
    requires Good(st) && st.current == 2 && 2 in st.heap.nodes && st.heap.nodes[2].parent == Some(0)
    ensures Run(st, [Parser.Part(")", None, None, None)]) == Ok(State(st.heap, st.root, 0))
  {
    assert ")"[1..] == "";
    RunOne(st, Parser.Part(")", None, None, None));
  }

  /** The walk over the four pieces. */
  lemma NestedRun(a: Constraints.Constraint, op1: Operator, b: Constraints.Constraint, op2: Operator, c: Constraints.Constraint)
    returns (h: Heap)
    requires Writable(a, Grammar.Legacy) && Writable(b, Grammar.Legacy) && Writable(c, Grammar.Legacy)
    ensures Run(Start(), [PieceOf("", a), PieceOf(Symbol(op1) + "(", b), PieceOf(Symbol(op2), c), Parser.Part(")", None, None, None)])
            == Ok(State(h, 0, 0))
    ensures Valid(h) && NestedObjects(h, a, op1, b, op2, c)
  {
    var pieces := [PieceOf("", a), PieceOf(Symbol(op1) + "(", b), PieceOf(Symbol(op2), c), Parser.Part(")", None, None, None)];
    var st1 := FirstStep(a, op1);
    var st2 := NestedOpens(st1, a, op1);
    var st3 := FillFirst(st2, b, op1);
    var st4 := FillSecond(st3, b, op2, c);
    NestedCloses(st4);
    h := st4.heap;
    assert Step(st1, pieces[1]) == Ok(st3);
    assert pieces[1..][1..] == [pieces[2], pieces[3]] && [pieces[2], pieces[3]][1..] == [pieces[3]];
    RunCons(Start(), pieces, st1);
    RunCons(st1, pieces[1..], st3);
    RunCons(st3, pieces[1..][1..], st4);
  }

  /** How the result prints: the pair in parentheses after the first constraint. */
  lemma NestedStr(h: Heap, a: Constraints.Constraint, op1: Operator, b: Constraints.Constraint, op2: Operator, c: Constraints.Constraint)
    requires Valid(h) && NestedObjects(h, a, op1, b, op2, c)
    ensures ToStr(h, 0, {}) == Ok(Printed(a) + " " + Name(op1) + " ( " + Printed(b) + " " + Name(op2) + " " + Printed(c) + " )")
  {
    var inner := Printed(b) + " " + Name(op2) + " " + Printed(c);
    InnerStr(h, a, op1, b, op2, c);
    JoinItemsOuter(h, a, op1, "( " + inner + " )");
    assert {} + {0} == {0};
    NestedStrAssociates(Printed(a), Name(op1), inner, Printed(b), Name(op2), Printed(c));
  }

  lemma NestedStrAssociates(pa: string, n1: string, inner: string, pb: string, n2: string, pc: string)
    requires inner == pb + " " + n2 + " " + pc
    ensures pa + " " + n1 + " " + ("( " + inner + " )") == pa + " " + n1 + " ( " + pb + " " + n2 + " " + pc + " )"
  {
  }

  /** The pair prints in parentheses, its constraints separated by the operator's name. */
  lemma InnerStr(h: Heap, a: Constraints.Constraint, op1: Operator, b: Constraints.Constraint, op2: Operator, c: Constraints.Constraint)
    requires Valid(h) && NestedObjects(h, a, op1, b, op2, c)
    ensures ToStr(h, 2, {0}) == Ok("( " + (Printed(b) + " " + Name(op2) + " " + Printed(c)) + " )")
  {
    JoinItemsFlat(h, [3, 4], [Printed(b), Printed(c)], {0, 2}, op2);
    assert ItemsOf([3, 4], op2) == [Ref(3), Op(op2), Ref(4)] by {
      assert [3, 4][1..] == [4];
    }
    assert Expressions.JoinTexts([Printed(b), Printed(c)], " " + Name(op2) + " ") == Printed(b) + " " + Name(op2) + " " + Printed(c) by {
      assert [Printed(b), Printed(c)][1..] == [Printed(c)];
    }
    assert {0} + {2} == {0, 2};
  }

  lemma JoinItemsOuter(h: Heap, a: Constraints.Constraint, op1: Operator, text: string)
    requires Valid(h) && 0 in h.nodes && 1 in h.nodes && 2 in h.nodes && h.nodes[1] == LeafOf(a, Some(0))
    requires ToStr(h, 2, {0}) == Ok(text)
    ensures JoinItems(h, [Ref(1), Op(op1), Ref(2)], {0}) == Ok(Printed(a) + " " + Name(op1) + " " + text)
  {
    var items := [Ref(1), Op(op1), Ref(2)];
    assert items[1..] == [Op(op1), Ref(2)] && items[1..][1..] == [Ref(2)];
    assert JoinItems(h, [Ref(2)], {0}) == Ok(text);
    assert JoinItems(h, [Op(op1), Ref(2)], {0}) == Ok(Name(op1) + " " + text);
    assert ToStr(h, 1, {0}) == Ok(Printed(a));
    assert Printed(a) + " " + (Name(op1) + " " + text) == Printed(a) + " " + Name(op1) + " " + text;
  }

  /**
    `a op1 (b op2 c)` parses to the result holding a, the operator and an
    Expression for the pair, and prints as `A OP1 ( B OP2 C )`.
   */
  lemma ParseNested(a: Constraints.Constraint, op1: Operator, b: Constraints.Constraint, op2: Operator, c: Constraints.Constraint,
                    unquote: string -> string)
    requires Writable(a, Grammar.Legacy) && Writable(b, Grammar.Legacy) && Writable(c, Grammar.Legacy)
    requires Keeps(unquote, a) && Keeps(unquote, b) && Keeps(unquote, c)
    ensures var r := Legacy.Parse(NestedText(a, op1, b, op2, c), unquote);
      && r.Ok? && r.value.1 == 0 && NestedObjects(r.value.0, a, op1, b, op2, c)
      && Legacy.ToStr(r.value.0, r.value.1, {}) == Ok(Printed(a) + " " + Name(op1) + " ( " + Printed(b) + " " + Name(op2) + " " + Printed(c) + " )")
  {
    NestedPieces(a, op1, b, op2, c, unquote);
    var h := NestedRun(a, op1, b, op2, c);
    NestedStr(h, a, op1, b, op2, c);
  }

  // ---------------------------------------------------------------------------
  // The rows of the single-module parser's own string tests
  // ---------------------------------------------------------------------------

  /** `foo==bar;goo=gt=5` prints as `foo == bar AND goo > 5`. */
  lemma AndRow(s: string, out: string)
    requires s == "foo==bar;goo=gt=5" && out == "foo == bar AND goo > 5"
    ensures var r := Legacy.Parse(s, LegacyExamples.Verbatim); r.Ok? && Legacy.ToStr(r.value.0, r.value.1, {}) == Ok(out)
  {
    var cs := AndRowConstraints(s, out);
    ParseJoinedPrints(cs, And, LegacyExamples.Verbatim);
  }

  lemma AndRowConstraints(s: string, out: string) returns (cs: seq<Constraints.Constraint>)
    requires s == "foo==bar;goo=gt=5" && out == "foo == bar AND goo > 5"
    ensures cs != [] && forall c | c in cs :: Writable(c, Grammar.Legacy) && Keeps(LegacyExamples.Verbatim, c)
    ensures Joined(cs, Symbol(And)) == s && Expressions.JoinTexts(PrintedAll(cs), " " + Name(And) + " ") == out
  {
    var c0 := RowConstraint("foo", "==", "bar", "==");
    var c1 := RowConstraint("goo", "=gt=", "5", ">");
    cs := [c0, c1];
    PairUsable(cs, c0, c1);
    AndRowTexts(s, out);
    RowJoined(cs, c0, c1, And, "foo" + "==" + "bar", "goo" + "=gt=" + "5", s);
    PrintedPair(cs, And, "foo" + " " + "==" + " " + "bar", "goo" + " " + ">" + " " + "5");
  }

  /** `foo==bar,goo=lt=5` prints as `foo == bar OR goo < 5`. */
  lemma OrRow(s: string, out: string)
    requires s == "foo==bar,goo=lt=5" && out == "foo == bar OR goo < 5"
    ensures var r := Legacy.Parse(s, LegacyExamples.Verbatim); r.Ok? && Legacy.ToStr(r.value.0, r.value.1, {}) == Ok(out)
  {
    var cs := OrRowConstraints(s, out);
    ParseJoinedPrints(cs, Or, LegacyExamples.Verbatim);
  }

  lemma OrRowConstraints(s: string, out: string) returns (cs: seq<Constraints.Constraint>)
    requires s == "foo==bar,goo=lt=5" && out == "foo == bar OR goo < 5"
    ensures cs != [] && forall c | c in cs :: Writable(c, Grammar.Legacy) && Keeps(LegacyExamples.Verbatim, c)
    ensures Joined(cs, Symbol(Or)) == s && Expressions.JoinTexts(PrintedAll(cs), " " + Name(Or) + " ") == out
  {
    var c0 := RowConstraint("foo", "==", "bar", "==");
    var c1 := RowConstraint("goo", "=lt=", "5", "<");
    cs := [c0, c1];
    PairUsable(cs, c0, c1);
    OrRowTexts(s, out);
    RowJoined(cs, c0, c1, Or, "foo" + "==" + "bar", "goo" + "=lt=" + "5", s);
    PrintedPair(cs, Or, "foo" + " " + "==" + " " + "bar", "goo" + " " + "<" + " " + "5");
  }

  /** `foo==bar,(goo=gt=5;goo=lt=10)` prints as `foo == bar OR ( goo > 5 AND goo < 10 )`. */
  lemma NestedRow(s: string, out: string)
    requires s == "foo==bar,(goo=gt=5;goo=lt=10)" && out == "foo == bar OR ( goo > 5 AND goo < 10 )"
    ensures var r := Legacy.Parse(s, LegacyExamples.Verbatim); r.Ok? && Legacy.ToStr(r.value.0, r.value.1, {}) == Ok(out)
  {
    var a, b, c := NestedRowConstraints(s, out);
    ParseNested(a, Or, b, And, c, LegacyExamples.Verbatim);
  }

  lemma NestedRowConstraints(s: string, out: string) returns (a: Constraints.Constraint, b: Constraints.Constraint, c: Constraints.Constraint)
    requires s == "foo==bar,(goo=gt=5;goo=lt=10)" && out == "foo == bar OR ( goo > 5 AND goo < 10 )"
    ensures Writable(a, Grammar.Legacy) && Writable(b, Grammar.Legacy) && Writable(c, Grammar.Legacy)
    ensures Keeps(LegacyExamples.Verbatim, a) && Keeps(LegacyExamples.Verbatim, b) && Keeps(LegacyExamples.Verbatim, c)
    ensures NestedText(a, Or, b, And, c) == s
    ensures Printed(a) + " " + Name(Or) + " ( " + Printed(b) + " " + Name(And) + " " + Printed(c) + " )" == out
  {
    a := RowConstraint("foo", "==", "bar", "==");
    b := RowConstraint("goo", "=gt=", "5", ">");
    c := RowConstraint("goo", "=lt=", "10", "<");
    NestedRowTexts(s, out);
    NestedTextOf(a, Or, b, And, c, "foo" + "==" + "bar", "goo" + "=gt=" + "5", "goo" + "=lt=" + "10");
  }

  /** Two writable constraints, which the decoder that changes nothing keeps. */
  lemma PairUsable(cs: seq<Constraints.Constraint>, c0: Constraints.Constraint, c1: Constraints.Constraint)
    requires cs == [c0, c1] && Writable(c0, Grammar.Legacy) && Writable(c1, Grammar.Legacy)
    ensures cs != [] && forall c | c in cs :: Writable(c, Grammar.Legacy) && Keeps(LegacyExamples.Verbatim, c)
  {
  }

  lemma AndRowTexts(s: string, out: string)
    requires s == "foo==bar;goo=gt=5" && out == "foo == bar AND goo > 5"
    ensures s == ("foo" + "==" + "bar") + Symbol(And) + ("goo" + "=gt=" + "5")
    ensures out == ("foo" + " " + "==" + " " + "bar") + (" " + Name(And) + " ") + ("goo" + " " + ">" + " " + "5")
  {
    assert Symbol(And) == ";" && Name(And) == "AND";
  }

  lemma OrRowTexts(s: string, out: string)
    requires s == "foo==bar,goo=lt=5" && out == "foo == bar OR goo < 5"
    ensures s == ("foo" + "==" + "bar") + Symbol(Or) + ("goo" + "=lt=" + "5")
    ensures out == ("foo" + " " + "==" + " " + "bar") + (" " + Name(Or) + " ") + ("goo" + " " + "<" + " " + "5")
  {
    assert Symbol(Or) == "," && Name(Or) == "OR";
  }

  lemma NestedRowTexts(s: string, out: string)
    requires s == "foo==bar,(goo=gt=5;goo=lt=10)" && out == "foo == bar OR ( goo > 5 AND goo < 10 )"
    ensures s == ("foo" + "==" + "bar") + (Symbol(Or) + "(" + ("goo" + "=gt=" + "5") + (Symbol(And) + ("goo" + "=lt=" + "10") + ")"))
    ensures out == ("foo" + " " + "==" + " " + "bar") + " " + Name(Or) + " ( " + ("goo" + " " + ">" + " " + "5") + " " + Name(And) + " "
                   + ("goo" + " " + "<" + " " + "10") + " )"
  {
    NestedRowSource(s);
    NestedRowPrinted(out);
  }

  lemma NestedRowSource(s: string)
    requires s == "foo==bar,(goo=gt=5;goo=lt=10)"
    ensures s == ("foo" + "==" + "bar") + (Symbol(Or) + "(" + ("goo" + "=gt=" + "5") + (Symbol(And) + ("goo" + "=lt=" + "10") + ")"))
  {
    assert Symbol(Or) == "," && Symbol(And) == ";";
    assert ("goo" + "=gt=" + "5") + (";" + ("goo" + "=lt=" + "10") + ")") == "goo=gt=5;goo=lt=10)";
  }

  lemma NestedRowPrinted(out: string)
    requires out == "foo == bar OR ( goo > 5 AND goo < 10 )"
    ensures out == ("foo" + " " + "==" + " " + "bar") + " " + Name(Or) + " ( " + ("goo" + " " + ">" + " " + "5") + " " + Name(And) + " "
                   + ("goo" + " " + "<" + " " + "10") + " )"
  {
    var head, tail := "foo == bar OR ( ", "goo > 5 AND goo < 10 )";
    NestedRowHalves(out, head, tail);
    NestedRowHead(head);
    NestedRowTail(tail);
    JoinRegroups("foo" + " " + "==" + " " + "bar", " ", Name(Or), " ( ", "goo" + " " + ">" + " " + "5", " ", Name(And), " ",
                "goo" + " " + "<" + " " + "10", " )");
  }

  lemma NestedRowHalves(out: string, head: string, tail: string)
    requires out == "foo == bar OR ( goo > 5 AND goo < 10 )" && head == "foo == bar OR ( " && tail == "goo > 5 AND goo < 10 )"
    ensures out == head + tail
  {
  }

  lemma NestedRowHead(head: string)
    requires head == "foo == bar OR ( "
    ensures head == ("foo" + " " + "==" + " " + "bar") + " " + Name(Or) + " ( "
  {
  }

  lemma NestedRowTail(tail: string)
    requires tail == "goo > 5 AND goo < 10 )"
    ensures tail == ("goo" + " " + ">" + " " + "5") + " " + Name(And) + " " + ("goo" + " " + "<" + " " + "10") + " )"
  {
  }

  lemma JoinRegroups(x1: string, x2: string, x3: string, x4: string, x5: string, x6: string, x7: string, x8: string, x9: string, x10: string)
    ensures (x1 + x2 + x3 + x4) + (x5 + x6 + x7 + x8 + x9 + x10) == x1 + x2 + x3 + x4 + x5 + x6 + x7 + x8 + x9 + x10
  {
  }

  /** The two constraints of a row, joined by the operator's symbol. */
  lemma RowJoined(cs: seq<Constraints.Constraint>, c0: Constraints.Constraint, c1: Constraints.Constraint, op: Operator,
                  t0: string, t1: string, text: string)
    requires cs == [c0, c1] && Written(c0) == t0 && Written(c1) == t1 && text == t0 + Symbol(op) + t1
    ensures Joined(cs, Symbol(op)) == text
  {
    assert cs[1..] == [c1] && cs[1..][1..] == [];
    assert Following(cs[1..], Symbol(op)) == Symbol(op) + Written(c1) + "";
  }

  /** Two constraints print joined by the operator's name. */
  lemma PrintedPair(cs: seq<Constraints.Constraint>, op: Operator, first: string, second: string)
    requires |cs| == 2 && Printed(cs[0]) == first && Printed(cs[1]) == second
    ensures Expressions.JoinTexts(PrintedAll(cs), " " + Name(op) + " ") == first + (" " + Name(op) + " ") + second
  {
    assert PrintedAll(cs) == [first, second];
    assert [first, second][1..] == [second];
  }

  /**
    A constraint of a test row, spelled with unreserved characters and a
    comparison the table knows: it can be written, the decoder that changes
    nothing keeps it, and its text and printed form are as given.
   */
  lemma RowConstraint(sel: string, cmp: string, arg: string, common: string) returns (c: Constraints.Constraint)
    requires sel != [] && forall i | 0 <= i < |sel| :: Grammar.IsUnreserved(sel[i])
    requires arg != [] && forall i | 0 <= i < |arg| :: Grammar.IsUnreserved(arg[i])
    requires Grammar.IsComparison(cmp) && cmp in Constraints.ComparisonMap && Constraints.ComparisonMap[cmp] == common
    ensures Writable(c, Grammar.Legacy) && Keeps(LegacyExamples.Verbatim, c)
    ensures Written(c) == sel + cmp + arg && Printed(c) == sel + " " + common + " " + arg
  {
    c := Constraints.Constraint(sel, Some(cmp), Some(arg));
    PlainWritable(sel, cmp, arg, Grammar.Legacy);
  }

  /** The nested text from the constraints' own texts. */
  lemma NestedTextOf(a: Constraints.Constraint, op1: Operator, b: Constraints.Constraint, op2: Operator, c: Constraints.Constraint,
                     ta: string, tb: string, tc: string)
    requires Written(a) == ta && Written(b) == tb && Written(c) == tc
    ensures NestedText(a, op1, b, op2, c) == ta + (Symbol(op1) + "(" + tb + (Symbol(op2) + tc + ")"))
  {
  }
}
