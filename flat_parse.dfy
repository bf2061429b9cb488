/**
  What the package's `parse_str_to_expression` makes of any number of
  constraints joined by one operator symbol: one Expression holding them
  all, in order, which prints back as the same text and converts to the
  operator's name followed by the constraints' values.
 */
module FlatParse {
  import opened Wrappers
  import opened Errors
  import opened Operators
  import opened Constraints
  import opened Expressions
  import opened Parser
  import Grammar

  /**
    A constraint as FIQL text can carry it: a selector, and a comparison
    with an argument of the dialect's characters, or neither.
   */
  predicate Writable(c: Constraint, d: Grammar.Dialect) {
    && Grammar.IsSelector(c.selector)
    && (c.comparison.Some? <==> c.argument.Some?)
    && (c.comparison.Some? ==> Grammar.IsComparison(c.comparison.value) && Grammar.IsArgument(c.argument.value, d))
  }

  /** The coder changes neither the selector nor the argument of c. */
  predicate Keeps(code: string -> string, c: Constraint) {
    code(c.selector) == c.selector && (c.argument.Some? ==> code(c.argument.value) == c.argument.value)
  }

  /** The FIQL text of a constraint: selector, comparison and argument side by side. */
  function Written(c: Constraint): string {
    c.selector + Grammar.OptText(c.comparison) + Grammar.OptText(c.argument)
  }

  /** The texts of the constraints, each led by the symbol. */
  function Following(cs: seq<Constraint>, symbol: string): string {
    if cs == [] then "" else symbol + Written(cs[0]) + Following(cs[1..], symbol)
  }

  /** The texts of the constraints joined by the symbol. */
  function Joined(cs: seq<Constraint>, symbol: string): string
    requires cs != []
  {
    Written(cs[0]) + Following(cs[1..], symbol)
  }

  /** The piece `iter_parse` yields for a constraint after the given preamble. */
  function PieceOf(preamble: string, c: Constraint): Part {
    Part(preamble, Some(c.selector), c.comparison, c.argument)
  }

  /** The pieces of constraints each led by the symbol. */
  function PiecesAfter(cs: seq<Constraint>, symbol: string): seq<Part> {
    if cs == [] then [] else [PieceOf(symbol, cs[0])] + PiecesAfter(cs[1..], symbol)
  }

  /** The identities 1 to n, in order: the constraints' nodes after the first Expression, node 0. */
  function Upto(n: nat): (ids: seq<NodeId>)
    ensures |ids| == n && forall i | 0 <= i < n :: ids[i] == i + 1
  {
    seq(n, i => i + 1)
  }

  /** The constraints' values, in order. */
  function Values(cs: seq<Constraint>): (vs: seq<Value>)
    ensures |vs| == |cs| && forall i | 0 <= i < |cs| :: vs[i] == Constraints.ToPython(cs[i])
  {
    seq(|cs|, i requires 0 <= i < |cs| => Constraints.ToPython(cs[i]))
  }

  // ---------------------------------------------------------------------------
  // Pieces
  // ---------------------------------------------------------------------------

  /** A constraint spelled with unreserved characters only can be written in either dialect. */
  lemma PlainWritable(sel: string, cmp: string, arg: string, d: Grammar.Dialect)
    requires sel != [] && forall i | 0 <= i < |sel| :: Grammar.IsUnreserved(sel[i])
    requires arg != [] && forall i | 0 <= i < |arg| :: Grammar.IsUnreserved(arg[i])
    requires Grammar.IsComparison(cmp)
    ensures Writable(Constraint(sel, Some(cmp), Some(arg)), d)
  {
    Grammar.UnreservedRun(sel);
    Grammar.ArgCharsWithoutPct(arg, d);
  }

  /** An operator symbol is the single character `;` or `,`. */
  lemma SymbolChar(op: Operator)
    ensures |Symbol(op)| == 1 && Symbol(op)[0] in {';', ','}
  {
  }

  /** A constraint after a preamble without selector characters is the next piece. */
  lemma PieceThen(pre: string, c: Constraint, rest: string, unquote: string -> string)
    requires forall i | 0 <= i < |pre| :: Grammar.OutsideSelector(pre[i])
    requires Writable(c, Grammar.Package) && Keeps(unquote, c)
    requires rest == [] || rest[0] in {';', ','}
    ensures IterParse(pre + Written(c) + rest, unquote) == [PieceOf(pre, c)] + IterParse(rest, unquote)
  {
    if c.comparison.Some? {
      FullPieceThen(pre, c.selector, c.comparison.value, c.argument.value, rest, unquote);
    } else {
      assert pre + Written(c) + rest == pre + c.selector + rest;
      IterParseAtSelector(pre, c.selector, rest, unquote);
    }
  }

  lemma FullPieceThen(pre: string, sel: string, cmp: string, arg: string, rest: string, unquote: string -> string)
    requires forall i | 0 <= i < |pre| :: Grammar.OutsideSelector(pre[i])
    requires Grammar.IsSelector(sel) && Grammar.IsComparison(cmp) && Grammar.IsArgument(arg, Grammar.Package)
    requires unquote(sel) == sel && unquote(arg) == arg
    requires rest == [] || rest[0] in {';', ','}
    ensures var c := Constraint(sel, Some(cmp), Some(arg));
      IterParse(pre + Written(c) + rest, unquote) == [PieceOf(pre, c)] + IterParse(rest, unquote)
  {
    assert pre + Written(Constraint(sel, Some(cmp), Some(arg))) + rest == pre + sel + cmp + arg + rest;
    IterParseAtConstraint(pre, sel, cmp, arg, rest, unquote);
  }

  /** Constraints each led by the symbol are cut into one piece each, the symbol as preamble. */
  lemma {:induction false} FollowingPieces(cs: seq<Constraint>, op: Operator, unquote: string -> string)
    requires forall c | c in cs :: Writable(c, Grammar.Package) && Keeps(unquote, c)
    ensures IterParse(Following(cs, Symbol(op)), unquote) == PiecesAfter(cs, Symbol(op))
    decreases |cs|
  {
    if cs != [] {
      var symbol := Symbol(op);
      var rest := Following(cs[1..], symbol);
      SymbolChar(op);
      FollowingPieces(cs[1..], op, unquote);
      assert rest == [] || rest[0] == symbol[0];
      PieceThen(symbol, cs[0], rest, unquote);
    }
  }

  /** Constraints joined by the symbol are cut into one piece each, the first without preamble. */
  lemma JoinedPieces(cs: seq<Constraint>, op: Operator, unquote: string -> string)
    requires cs != [] && forall c | c in cs :: Writable(c, Grammar.Package) && Keeps(unquote, c)
    ensures IterParse(Joined(cs, Symbol(op)), unquote) == [PieceOf("", cs[0])] + PiecesAfter(cs[1..], Symbol(op))
  {
    var rest := Following(cs[1..], Symbol(op));
    SymbolChar(op);
    FollowingPieces(cs[1..], op, unquote);
    assert rest == [] || rest[0] == Symbol(op)[0];
    assert Joined(cs, Symbol(op)) == "" + Written(cs[0]) + rest;
    PieceThen("", cs[0], rest, unquote);
  }

  // ---------------------------------------------------------------------------
  // The walk
  // ---------------------------------------------------------------------------

  /**
    The walk so far: the cursor is on the first Expression, node 0, with
    no parent, at nesting level 0, a constraint added last; it holds nodes
    1 to n, the constraints of cs in order, under the operator `op`.
   */
  ghost predicate Flat(st: ParseState, cs: seq<Constraint>, op: Option<Operator>) {
    && Good(st) && st.cursor == 0 && st.depth == 0 && st.last == OperandElement
    && st.forest.next == |cs| + 1
    && st.forest.nodes[0] == Group(Upto(|cs|), op, None, 0)
    && forall i | 1 <= i <= |cs| :: i in st.forest.nodes && st.forest.nodes[i] == Leaf(cs[i - 1], Some(0))
  }

  /** A writable constraint passes the constructor. */
  lemma WritableIsValid(c: Constraint)
    requires Writable(c, Grammar.Package)
    ensures Constraints.New(c.selector, c.comparison, c.argument) == Ok(c)
  {
  }

  /** The first constraint: the first Expression holds it and has no operator yet. */
  lemma FirstStep(c: Constraint, fuel: nat) returns (st: ParseState)
    requires Writable(c, Grammar.Package)
    ensures Step(Start(), PieceOf("", c), fuel) == Ok(st) && Flat(st, [c], None)
  {
    WritableIsValid(c);
    st := Step(Start(), PieceOf("", c), fuel).value;
    assert Upto(1) == [1];
  }

  /**
    The operator symbol: recorded on the first Expression when it has no
    operator yet, and changing nothing when it is the one already there.
   */
  lemma SymbolStep(st: ParseState, cs: seq<Constraint>, o: Option<Operator>, op: Operator, fuel: nat)
    returns (st': ParseState)
    requires Flat(st, cs, o) && cs != [] && (o.None? || o == Some(op))
    ensures Preamble(st, Symbol(op), fuel) == Ok(st')
    ensures Good(st') && st'.cursor == 0 && st'.depth == 0 && st'.last == OperatorElement
    ensures st'.forest == Forest(st.forest.nodes[0 := Group(Upto(|cs|), Some(op), None, 0)], st.forest.next)
  {
    var f := st.forest;
    var symbol := Symbol(op);
    SymbolChar(op);
    ParseSymbol(op);
    assert [symbol[0]] == symbol && symbol[1..] == "";
    assert Working(f, 0) == 0;
    if o.None? {
      AddOperatorRecords(f, 0, op, fuel);
    } else {
      AddOperatorSamePrecedence(f, 0, op, fuel);
      assert f.nodes[0 := Group(Upto(|cs|), Some(op), None, 0)] == f.nodes;
    }
    st' := PreambleChar(st, symbol[0], fuel).value;
  }

  /** A constraint after the symbol is appended to the first Expression. */
  lemma ConstraintAppended(st: ParseState, cs: seq<Constraint>, op: Operator, c: Constraint, fuel: nat)
    returns (st': ParseState)
    requires Good(st) && st.cursor == 0 && st.depth == 0 && st.last == OperatorElement
    requires st.forest.next == |cs| + 1 && st.forest.nodes[0] == Group(Upto(|cs|), Some(op), None, 0)
    requires forall i | 1 <= i <= |cs| :: i in st.forest.nodes && st.forest.nodes[i] == Leaf(cs[i - 1], Some(0))
    requires Writable(c, Grammar.Package)
    ensures ConstraintStep(st, PieceOf(Symbol(op), c), fuel) == Ok(st') && Flat(st', cs + [c], Some(op))
  {
    var f := st.forest;
    WritableIsValid(c);
    var (h, k) := NewConstraint(f, c.selector, c.comparison, c.argument).value;
    assert k == |cs| + 1;
    assert Working(h, 0) == 0;
    st' := ConstraintStep(st, PieceOf(Symbol(op), c), fuel).value;
    assert st'.forest == Append(h, 0, k);
    assert Upto(|cs|) + [k] == Upto(|cs + [c]|);
  }

  /** One more constraint led by the symbol keeps the walk flat, under the operator. */
  lemma NextStep(st: ParseState, cs: seq<Constraint>, o: Option<Operator>, op: Operator, c: Constraint, fuel: nat)
    returns (st': ParseState)
    requires Flat(st, cs, o) && cs != [] && (o.None? || o == Some(op)) && Writable(c, Grammar.Package)
    ensures Step(st, PieceOf(Symbol(op), c), fuel) == Ok(st') && Flat(st', cs + [c], Some(op))
  {
    var st1 := SymbolStep(st, cs, o, op, fuel);
    forall i | 1 <= i <= |cs| ensures i in st1.forest.nodes && st1.forest.nodes[i] == Leaf(cs[i - 1], Some(0)) {
      assert i in st.forest.nodes && st.forest.nodes[i] == Leaf(cs[i - 1], Some(0));
    }
    st' := ConstraintAppended(st1, cs, op, c, fuel);
  }

  /** The pieces of the remaining constraints, walked one by one, keep the walk flat. */
  lemma {:induction false} FlatRun(st: ParseState, cs: seq<Constraint>, o: Option<Operator>, op: Operator,
                                   ds: seq<Constraint>, fuel: nat)
    returns (st': ParseState)
    requires Flat(st, cs, o) && cs != [] && (o.None? || o == Some(op))
    requires forall c | c in ds :: Writable(c, Grammar.Package)
    ensures Run(st, PiecesAfter(ds, Symbol(op)), fuel) == Ok(st')
    ensures Flat(st', cs + ds, if ds == [] then o else Some(op))
    decreases |ds|
  {
    if ds == [] {
      st' := st;
      assert cs + ds == cs;
    } else {
      var pieces := PiecesAfter(ds, Symbol(op));
      assert pieces[0] == PieceOf(Symbol(op), ds[0]) && pieces[1..] == PiecesAfter(ds[1..], Symbol(op));
      assert cs + [ds[0]] + ds[1..] == cs + ds;
      var st1 := NextStep(st, cs, o, op, ds[0], fuel);
      RunCons(st, pieces, st1, fuel);
      st' := FlatRun(st1, cs + [ds[0]], Some(op), op, ds[1..], fuel);
    }
  }

  /** A walk whose first step succeeds goes on from that step's state. */
  lemma RunCons(st: ParseState, pieces: seq<Part>, st1: ParseState, fuel: nat)
    requires Good(st) && pieces != [] && Step(st, pieces[0], fuel) == Ok(st1)
    ensures Good(st1) && Run(st, pieces, fuel) == Run(st1, pieces[1..], fuel)
  {
  }

  // ---------------------------------------------------------------------------
  // What parsing gives
  // ---------------------------------------------------------------------------

  /**
    Any number of constraints joined by one operator symbol parse to the
    first Expression, node 0: it holds nodes 1 to n, the constraints in
    order, each with node 0 as parent, and has the operator once there are
    two constraints or more.
   */
  lemma ParseJoined(cs: seq<Constraint>, op: Operator, unquote: string -> string, fuel: nat) returns (f: Forest)
    requires cs != [] && forall c | c in cs :: Writable(c, Grammar.Package) && Keeps(unquote, c)
    ensures Parser.Parse(Joined(cs, Symbol(op)), unquote, fuel) == Ok((f, 0)) && Valid(f)
    ensures f.nodes[0] == Group(Upto(|cs|), if |cs| == 1 then None else Some(op), None, 0)
    ensures forall i | 1 <= i <= |cs| :: i in f.nodes && f.nodes[i] == Leaf(cs[i - 1], Some(0))
  {
    JoinedPieces(cs, op, unquote);
    var st1 := FirstStep(cs[0], fuel);
    var st := FlatRun(st1, [cs[0]], None, op, cs[1..], fuel);
    assert [cs[0]] + cs[1..] == cs;
    assert Run(Start(), [PieceOf("", cs[0])] + PiecesAfter(cs[1..], Symbol(op)), fuel) == Ok(st) by {
      assert ([PieceOf("", cs[0])] + PiecesAfter(cs[1..], Symbol(op)))[1..] == PiecesAfter(cs[1..], Symbol(op));
    }
    f := st.forest;
  }

  /** A writable constraint prints as its own text under a coder that keeps it. */
  lemma WrittenIsPrinted(c: Constraint, quote: string -> string)
    requires Writable(c, Grammar.Package) && Keeps(quote, c)
    ensures Constraints.ToStr(c, quote) == Written(c)
  {
    if c.comparison.None? {
      assert Written(c) == c.selector + "" + "";
    }
  }

  /** The printed texts of the parsed constraints, joined by the symbol, are the text parsed. */
  lemma {:induction false} JoinTextsFollowing(texts: seq<string>, cs: seq<Constraint>, symbol: string, quote: string -> string)
    requires |texts| == |cs| + 1 && forall i | 0 <= i < |cs| :: texts[i + 1] == Written(cs[i])
    ensures JoinTexts(texts, symbol) == texts[0] + Following(cs, symbol)
    decreases |cs|
  {
    if cs != [] {
      JoinTextsFollowing(texts[1..], cs[1..], symbol, quote);
      assert texts[1..][0] == Written(cs[0]);
    } else {
      assert texts[0] + "" == texts[0];
    }
  }

  /**
    Parsing any number of constraints joined by `;` or `,`: the
    Expression prints back as the same text, and converts to the lone
    constraint's value, or to the operator's name followed by the
    constraints' values in order.
   */
  lemma ParseJoinedPrintsBack(cs: seq<Constraint>, op: Operator, unquote: string -> string, quote: string -> string, fuel: nat)
    requires cs != [] && forall c | c in cs :: Writable(c, Grammar.Package) && Keeps(unquote, c) && Keeps(quote, c)
    ensures var r := Parser.Parse(Joined(cs, Symbol(op)), unquote, fuel);
      && r.Ok?
      && Expressions.ToStr(r.value.0, r.value.1, {}, quote) == Ok(Joined(cs, Symbol(op)))
      && Expressions.ToPython(r.value.0, r.value.1, {})
         == Ok(if |cs| == 1 then Constraints.ToPython(cs[0]) else List([Text(Name(op))] + Values(cs)))
  {
    var f := ParseJoined(cs, op, unquote, fuel);
    var ids := Upto(|cs|);
    assert LeavesOutside(f, ids, {0});
    FlatGroup(f, 0, quote);
    var texts := LeafTexts(f, ids, quote);
    forall i | 0 <= i < |cs| ensures texts[i] == Written(cs[i]) {
      assert f.nodes[ids[i]] == Leaf(cs[i], Some(0));
      WrittenIsPrinted(cs[i], quote);
    }
    JoinTextsFollowing(texts, cs[1..], Symbol(if |cs| == 1 then And else op), quote);
    if |cs| > 1 {
      assert LeafValues(f, ids) == Values(cs);
    }
  }
}
