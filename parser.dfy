/**
  The FIQL parser: `iter_parse` cuts a string into the text before each
  constraint and the constraint's parts; `parse_str_to_expression` walks
  those pieces, character by character through each preamble, building an
  expression tree with a cursor on the group being filled.

  `unquote` is the form decoder the parser applies to selectors and
  arguments; `fuel` bounds the upward recursion of `add_operator` as
  Python's recursion limit does.
 */
module Parser {
  import opened Wrappers
  import opened Errors
  import opened Operators
  import opened Constraints
  import opened Expressions
  import opened ExpressionArena
  import Grammar

  // ---------------------------------------------------------------------------
  // iter_parse
  // ---------------------------------------------------------------------------

  /**
    One piece of the string: the text before a constraint, then its decoded
    selector, its comparison and its decoded argument; all three None for
    the text after the last constraint.
   */
  datatype Part = Part(preamble: string, selector: Option<string>, comparison: Option<string>, argument: Option<string>)

  /** The pieces of s, in order; nothing for the empty string. */
  function IterParse(s: string, unquote: string -> string): (parts: seq<Part>)
    ensures s == [] <==> parts == []
    decreases |s|
  {
    if s == [] then []
    else
      match Grammar.Split(s, Grammar.Package)
      case None => [Part(s, None, None, None)]
      case Some(m) =>
        var argument := if m.argument.Some? && m.argument.value != "" then Some(unquote(m.argument.value)) else None;
        var rest := IterParse(m.rest, unquote);
        [Part(m.preamble, Some(unquote(m.selector)), m.comparison, argument)] + rest
  }

  /**
    Only the last piece can lack a constraint; a comparison always comes
    with an argument; and a piece without a selector has neither.
   */
  lemma {:induction false} IterParseShape(s: string, unquote: string -> string)
    ensures var parts := IterParse(s, unquote);
      && (forall i | 0 <= i < |parts| - 1 :: parts[i].selector.Some?)
      && (forall i | 0 <= i < |parts| ::
            && (parts[i].comparison.Some? <==> parts[i].argument.Some?)
            && (parts[i].selector.None? ==> parts[i].comparison.None?))
    decreases |s|
  {
    if s != [] {
      match Grammar.Split(s, Grammar.Package)
      case None =>
      case Some(m) =>
        Grammar.SplitFacts(s, Grammar.Package);
        IterParseShape(m.rest, unquote);
        var argument := if m.argument.Some? && m.argument.value != "" then Some(unquote(m.argument.value)) else None;
        var head := Part(m.preamble, Some(unquote(m.selector)), m.comparison, argument);
        assert IterParse(s, unquote) == [head] + IterParse(m.rest, unquote);
        ShapeCons(head, IterParse(m.rest, unquote));
    }
  }

  /** A piece with a selector, whose comparison comes with an argument, keeps the shape of what follows. */
  lemma ShapeCons(head: Part, tail: seq<Part>)
    requires head.selector.Some? && (head.comparison.Some? <==> head.argument.Some?)
    requires forall i | 0 <= i < |tail| - 1 :: tail[i].selector.Some?
    requires forall i | 0 <= i < |tail| ::
      && (tail[i].comparison.Some? <==> tail[i].argument.Some?)
      && (tail[i].selector.None? ==> tail[i].comparison.None?)
    ensures var parts := [head] + tail;
      && (forall i | 0 <= i < |parts| - 1 :: parts[i].selector.Some?)
      && (forall i | 0 <= i < |parts| ::
            && (parts[i].comparison.Some? <==> parts[i].argument.Some?)
            && (parts[i].selector.None? ==> parts[i].comparison.None?))
  {
    var parts := [head] + tail;
    forall i | 1 <= i < |parts|
      ensures parts[i] == tail[i - 1]
    {
    }
  }

  /** A full constraint after operator and parenthesis text is the next piece. */
  lemma IterParseAtConstraint(pre: string, sel: string, cmp: string, arg: string, rest: string, unquote: string -> string)
    requires forall i | 0 <= i < |pre| :: Grammar.OutsideSelector(pre[i])
    requires Grammar.IsSelector(sel) && Grammar.IsComparison(cmp) && Grammar.IsArgument(arg, Grammar.Package)
    requires rest == [] || (!Grammar.IsArgChar(rest[0], Grammar.Package) && rest[0] != '%')
    ensures IterParse(pre + sel + cmp + arg + rest, unquote)
            == [Part(pre, Some(unquote(sel)), Some(cmp), Some(unquote(arg)))] + IterParse(rest, unquote)
  {
    Grammar.SplitAtConstraint(pre, sel, cmp, arg, rest, Grammar.Package);
  }

  /** A bare selector after operator and parenthesis text is the next piece. */
  lemma IterParseAtSelector(pre: string, sel: string, rest: string, unquote: string -> string)
    requires forall i | 0 <= i < |pre| :: Grammar.OutsideSelector(pre[i])
    requires Grammar.IsSelector(sel)
    requires rest == [] || (Grammar.OutsideSelector(rest[0]) && rest[0] != '=' && !Grammar.IsFiqlDelim(rest[0]))
    ensures IterParse(pre + sel + rest, unquote) == [Part(pre, Some(unquote(sel)), None, None)] + IterParse(rest, unquote)
  {
    Grammar.SplitAtSelector(pre, sel, rest, Grammar.Package);
  }

  /** A selector at the very start of the text is a first piece with an empty preamble. */
  lemma IterParseLeadingSelector(sel: string, rest: string, unquote: string -> string)
    requires Grammar.IsSelector(sel)
    requires rest == [] || (Grammar.OutsideSelector(rest[0]) && rest[0] != '=' && !Grammar.IsFiqlDelim(rest[0]))
    ensures IterParse(sel + rest, unquote) == [Part("", Some(unquote(sel)), None, None)] + IterParse(rest, unquote)
  {
    var none: string := [];
    assert none + sel + rest == sel + rest;
    IterParseAtSelector(none, sel, rest, unquote);
  }

  /** Text without a selector character is one last piece. */
  lemma IterParseNoConstraint(s: string, unquote: string -> string)
    requires s != [] && forall i | 0 <= i < |s| :: Grammar.OutsideSelector(s[i])
    ensures IterParse(s, unquote) == [Part(s, None, None, None)]
  {
    assert Grammar.Split(s, Grammar.Package) == None by {
      forall i | 0 <= i < |s| ensures !Grammar.StartsSelector(s, i) {
        assert Grammar.OutsideSelector(s[i]);
      }
    }
  }

  /** The text a list of pieces stands for, pieces joined in order. */
  function Text(parts: seq<Part>): string {
    if parts == [] then ""
    else
      var p := parts[0];
      p.preamble + Grammar.OptText(p.selector) + Grammar.OptText(p.comparison) + Grammar.OptText(p.argument) + Text(parts[1..])
  }

  /** The preambles alone, joined in order. */
  function Preambles(parts: seq<Part>): string {
    if parts == [] then "" else parts[0].preamble + Preambles(parts[1..])
  }

  /** With a decoder that changes nothing, the pieces join back into the string: nothing is lost or reordered. */
  lemma {:induction false} IterParseJoinsBack(s: string)
    ensures Text(IterParse(s, x => x)) == s
    decreases |s|
  {
    if s != [] {
      match Grammar.Split(s, Grammar.Package)
      case None =>
      case Some(m) =>
        Grammar.SplitIsLeftmost(s, Grammar.Package);
        IterParseJoinsBack(m.rest);
        var parts := IterParse(s, x => x);
        assert parts[1..] == IterParse(m.rest, x => x);
        assert Grammar.OptText(parts[0].argument) == Grammar.OptText(m.argument);
        assert Grammar.OptText(parts[0].comparison) == Grammar.OptText(m.comparison);
    }
  }

  // ---------------------------------------------------------------------------
  // parse_str_to_expression
  // ---------------------------------------------------------------------------

  /** What was added last: nothing yet, a constraint or group, or an operator. */
  datatype LastElement = NoElement | OperandElement | OperatorElement

  /** The parser's variables: the objects so far, the cursor, the nesting level and the last element. */
  datatype ParseState = ParseState(forest: Forest, cursor: NodeId, depth: int, last: LastElement)

  /** The objects are consistent and the cursor is an Expression. */
  ghost predicate Good(st: ParseState) {
    Valid(st.forest) && IsGroup(st.forest, st.cursor)
  }

  /**
    One preamble character. `(` opens a nested group under the cursor,
    unless a constraint or group was added last; `)` moves the cursor to
    its parent; any other character must follow an element, not an
    operator, and must be an operator symbol, which is added at the cursor.
   */
  function PreambleChar(st: ParseState, c: char, fuel: nat): (r: Result<ParseState, Error>)
    requires Good(st)
    ensures r.Ok? ==> Good(r.value) && Grows(st.forest, r.value.forest)
  {
    if c == '(' then
      if st.last == OperandElement then Err(OperandAfterOperand)
      else
        var (g, sub) := CreateNestedExpression(st.forest, st.cursor);
        Ok(ParseState(g, sub, st.depth + 1, st.last))
    else if c == ')' then
      var p :- GetParent(st.forest, st.cursor);
      Ok(ParseState(st.forest, p, st.depth - 1, OperandElement))
    else if !HasConstraint(st.forest, st.cursor) then Err(OperatorBeforeConstraint)
    else if st.last == OperatorElement then Err(OperatorAfterOperator)
    else
      var op :- Operators.Parse([c]);
      var added :- AddOperator(st.forest, st.cursor, OperatorRef(op), fuel);
      Ok(ParseState(added.0, added.1, st.depth, OperatorElement))
  }

  /** The characters of a preamble, in order; the first failure stops the walk. */
  function Preamble(st: ParseState, preamble: string, fuel: nat): (r: Result<ParseState, Error>)
    requires Good(st)
    ensures r.Ok? ==> Good(r.value) && Grows(st.forest, r.value.forest)
    decreases |preamble|
  {
    if preamble == [] then Ok(st)
    else
      var st1 :- PreambleChar(st, preamble[0], fuel);
      GrowsTransitiveOk(st, st1, Preamble(st1, preamble[1..], fuel));
      Preamble(st1, preamble[1..], fuel)
  }

  /**
    The constraint of a piece, when its selector is not empty: it must not
    follow a constraint or group; it is built and added at the cursor,
    which stays where it is.
   */
  function ConstraintStep(st: ParseState, part: Part, fuel: nat): (r: Result<ParseState, Error>)
    requires Good(st)
    ensures r.Ok? ==> Good(r.value) && Grows(st.forest, r.value.forest)
  {
    if !Truthy(part.selector) then Ok(st)
    else if st.last == OperandElement then Err(OperandAfterOperand)
    else
      var built :- NewConstraint(st.forest, part.selector.value, part.comparison, part.argument);
      var added := AddElement(built.0, st.cursor, NodeRef(built.1), fuel).value;
      GrowsTransitive(st.forest, built.0, added.0);
      Ok(ParseState(added.0, st.cursor, st.depth, OperandElement))
  }

  /** One piece: its preamble, then its constraint. */
  function Step(st: ParseState, part: Part, fuel: nat): (r: Result<ParseState, Error>)
    requires Good(st)
    ensures r.Ok? ==> Good(r.value) && Grows(st.forest, r.value.forest)
  {
    var st1 :- Preamble(st, part.preamble, fuel);
    GrowsTransitiveOk(st, st1, ConstraintStep(st1, part, fuel));
    ConstraintStep(st1, part, fuel)
  }

  /** All pieces, in order; the first failure stops the walk. */
  function Run(st: ParseState, parts: seq<Part>, fuel: nat): (r: Result<ParseState, Error>)
    requires Good(st)
    ensures r.Ok? ==> Good(r.value) && Grows(st.forest, r.value.forest)
    decreases |parts|
  {
    if parts == [] then Ok(st)
    else
      var st1 :- Step(st, parts[0], fuel);
      GrowsTransitiveOk(st, st1, Run(st1, parts[1..], fuel));
      Run(st1, parts[1..], fuel)
  }

  lemma GrowsTransitiveOk(st: ParseState, st1: ParseState, r: Result<ParseState, Error>)
    requires Grows(st.forest, st1.forest)
    ensures r.Ok? && Grows(st1.forest, r.value.forest) ==> Grows(st.forest, r.value.forest)
  {
    if r.Ok? && Grows(st1.forest, r.value.forest) {
      GrowsTransitive(st.forest, st1.forest, r.value.forest);
    }
  }

  /** The arena before parsing: no object yet. */
  const NoObjects := Forest(map[], 0)

  /** The state the walk starts in: one new Expression, the cursor on it. */
  function Start(): (st: ParseState)
    ensures Good(st) && st.depth == 0 && st.last == NoElement
    ensures st.forest.nodes == map[st.cursor := Group([], None, None, st.cursor)]
  {
    assert Valid(NoObjects);
    var (f, root) := NewExpression(NoObjects);
    ParseState(f, root, 0, NoElement)
  }

  /**
    `parse_str_to_expression`: walk every piece; then the nesting level
    must be back at zero and the cursor's group must hold an element. The
    result is the group under the cursor, with all the objects.
   */
  function Parse(s: string, unquote: string -> string, fuel: nat): (r: Result<(Forest, NodeId), Error>)
    ensures r.Ok? ==> Valid(r.value.0) && IsGroup(r.value.0, r.value.1) && HasConstraint(r.value.0, r.value.1)
  {
    var st :- Run(Start(), IterParse(s, unquote), fuel);
    if st.depth != 0 then Err(UnclosedGroup)
    else if !HasConstraint(st.forest, st.cursor) then Err(NoConstraint)
    else Ok((st.forest, st.cursor))
  }

  /**
    A step of the walk behaved as specified: on success with the specified
    new state, on failure with the specified error.
   */
  predicate Reaches(spec: Result<ParseState, Error>, now: ParseState, error: Option<Error>) {
    match spec
    case Ok(st) => error.None? && now == st
    case Err(e) => error == Some(e)
  }

  /**
    `parse_str_to_expression`: the loop over the pieces, on objects created
    in a new arena. On success the arena and the result are the ones
    `Parse` gives; on failure the error is.
   */
  method ParseStrToExpression(s: string, unquote: string -> string, fuel: nat)
    returns (arena: Arena, r: Result<NodeId, Error>)
    ensures fresh(arena)
    ensures match Parse(s, unquote, fuel)
      case Ok((g, x)) => arena.State() == g && r == Ok(x)
      case Err(e) => r == Err(e)
  {
    arena := new Arena();
    var expression := arena.NewExpression();
    var depth := 0;
    var last := NoElement;
    var parts := IterParse(s, unquote);
    assert Start() == ParseState(arena.State(), expression, depth, last);
    var i := 0;
    while i < |parts|
      invariant 0 <= i <= |parts|
      invariant Good(ParseState(arena.State(), expression, depth, last))
      invariant Run(Start(), parts, fuel) == Run(ParseState(arena.State(), expression, depth, last), parts[i..], fuel)
    {
      assert parts[i..][0] == parts[i] && parts[i..][1..] == parts[i + 1..];
      var error;
      expression, depth, last, error := WalkPiece(arena, expression, depth, last, parts[i], fuel);
      if error.Some? {
        return arena, Err(error.value);
      }
      i := i + 1;
    }
    assert parts[i..] == [];
    if depth != 0 {
      return arena, Err(UnclosedGroup);
    }
    var has := arena.HasConstraint(expression);
    if !has {
      return arena, Err(NoConstraint);
    }
    return arena, Ok(expression);
  }

  /** One piece: the loop over the preamble's characters, then the constraint. */
  method WalkPiece(arena: Arena, expression: NodeId, depth: int, last: LastElement, part: Part, fuel: nat)
    returns (expression': NodeId, depth': int, last': LastElement, error: Option<Error>)
    requires Good(ParseState(arena.State(), expression, depth, last))
    modifies arena
    ensures Reaches(Step(old(ParseState(arena.State(), expression, depth, last)), part, fuel),
                    ParseState(arena.State(), expression', depth', last'), error)
    ensures error.None? ==> Good(ParseState(arena.State(), expression', depth', last'))
  {
    ghost var before := ParseState(arena.State(), expression, depth, last);
    expression', depth', last' := expression, depth, last;
    var j := 0;
    while j < |part.preamble|
      invariant 0 <= j <= |part.preamble|
      invariant Good(ParseState(arena.State(), expression', depth', last'))
      invariant Preamble(before, part.preamble, fuel)
                == Preamble(ParseState(arena.State(), expression', depth', last'), part.preamble[j..], fuel)
    {
      assert part.preamble[j..][0] == part.preamble[j] && part.preamble[j..][1..] == part.preamble[j + 1..];
      expression', depth', last', error := PreambleCharStep(arena, expression', depth', last', part.preamble[j], fuel);
      if error.Some? {
        return;
      }
      j := j + 1;
    }
    assert part.preamble[j..] == [];
    if part.selector.Some? && part.selector.value != "" {
      if last' == OperandElement {
        return expression', depth', last', Some(OperandAfterOperand);
      }
      var built := arena.NewConstraint(part.selector.value, part.comparison, part.argument);
      if built.Err? {
        return expression', depth', last', Some(built.error);
      }
      last' := OperandElement;
      var ignored := arena.AddElement(expression', NodeRef(built.value), fuel);
    }
    error := None;
  }

  /** One preamble character. */
  method PreambleCharStep(arena: Arena, expression: NodeId, depth: int, last: LastElement, c: char, fuel: nat)
    returns (expression': NodeId, depth': int, last': LastElement, error: Option<Error>)
    requires Good(ParseState(arena.State(), expression, depth, last))
    modifies arena
    ensures Reaches(PreambleChar(old(ParseState(arena.State(), expression, depth, last)), c, fuel),
                    ParseState(arena.State(), expression', depth', last'), error)
    ensures error.None? ==> Good(ParseState(arena.State(), expression', depth', last'))
  {
    expression', depth', last', error := expression, depth, last, None;
    if c == '(' {
      if last == OperandElement {
        error := Some(OperandAfterOperand);
        return;
      }
      expression' := arena.CreateNestedExpression(expression);
      depth' := depth + 1;
    } else if c == ')' {
      var parent := arena.GetParent(expression);
      if parent.Err? {
        error := Some(parent.error);
        return;
      }
      expression' := parent.value;
      last' := OperandElement;
      depth' := depth - 1;
    } else {
      var has := arena.HasConstraint(expression);
      if !has {
        error := Some(OperatorBeforeConstraint);
        return;
      }
      if last == OperatorElement {
        error := Some(OperatorAfterOperator);
        return;
      }
      var op := Operators.Parse([c]);
      if op.Err? {
        error := Some(op.error);
        return;
      }
      last' := OperatorElement;
      var added := arena.AddOperator(expression, OperatorRef(op.value), fuel);
      if added.Err? {
        error := Some(added.error);
        return;
      }
      expression' := added.value;
    }
  }

  // ---------------------------------------------------------------------------
  // Nesting
  // ---------------------------------------------------------------------------

  /** Occurrences of c in s. */
  function Count(c: char, s: string): nat {
    if s == [] then 0 else (if s[0] == c then 1 else 0) + Count(c, s[1..])
  }

  lemma {:induction false} CountConcat(c: char, a: string, b: string)
    ensures Count(c, a + b) == Count(c, a) + Count(c, b)
    decreases |a|
  {
    if a != [] {
      assert (a + b)[1..] == a[1..] + b;
      CountConcat(c, a[1..], b);
    } else {
      assert a + b == b;
    }
  }

  /** The nesting level moves by the parentheses a preamble holds. */
  lemma {:induction false} PreambleDepth(st: ParseState, preamble: string, fuel: nat)
    requires Good(st)
    ensures var r := Preamble(st, preamble, fuel);
      r.Ok? ==> r.value.depth == st.depth + Count('(', preamble) - Count(')', preamble)
    decreases |preamble|
  {
    if preamble != [] {
      var r1 := PreambleChar(st, preamble[0], fuel);
      if r1.Ok? {
        PreambleDepth(r1.value, preamble[1..], fuel);
      }
    }
  }

  /** The nesting level after the walk: the opening parentheses of all preambles less the closing ones. */
  lemma {:induction false} RunDepth(st: ParseState, parts: seq<Part>, fuel: nat)
    requires Good(st)
    ensures var r := Run(st, parts, fuel);
      r.Ok? ==> r.value.depth == st.depth + Count('(', Preambles(parts)) - Count(')', Preambles(parts))
    decreases |parts|
  {
    if parts != [] {
      var r1 := Step(st, parts[0], fuel);
      if r1.Ok? {
        PreambleDepth(st, parts[0].preamble, fuel);
        RunDepth(r1.value, parts[1..], fuel);
        CountConcat('(', parts[0].preamble, Preambles(parts[1..]));
        CountConcat(')', parts[0].preamble, Preambles(parts[1..]));
      }
    }
  }

  /** Neither parenthesis occurs in s. */
  predicate NoParens(s: string) {
    forall i | 0 <= i < |s| :: s[i] != '(' && s[i] != ')'
  }

  lemma NoParensCount(s: string)
    requires NoParens(s)
    ensures Count('(', s) == 0 && Count(')', s) == 0
  {
    if s != [] {
      assert NoParens(s[1..]) by {
        forall i | 0 <= i < |s[1..]| ensures s[1..][i] != '(' && s[1..][i] != ')' {
          assert s[1..][i] == s[i + 1];
        }
      }
      NoParensCount(s[1..]);
    }
  }

  lemma NoParensConcat(a: string, b: string)
    requires NoParens(a) && NoParens(b)
    ensures NoParens(a + b)
  {
    forall i | 0 <= i < |a + b| ensures (a + b)[i] != '(' && (a + b)[i] != ')' {
      if i < |a| { assert (a + b)[i] == a[i]; } else { assert (a + b)[i] == b[i - |a|]; }
    }
  }

  lemma {:induction false} SelectorCharsNoParens(s: string)
    requires Grammar.SelectorChars(s)
    ensures NoParens(s)
    decreases |s|
  {
    if s != [] {
      if Grammar.IsUnreserved(s[0]) && Grammar.SelectorChars(s[1..]) {
        SelectorCharsNoParens(s[1..]);
        NoParensConcat(s[..1], s[1..]);
        assert s == s[..1] + s[1..];
      } else {
        SelectorCharsNoParens(s[3..]);
        NoParensConcat(s[..3], s[3..]);
        assert s == s[..3] + s[3..];
      }
    }
  }

  lemma {:induction false} ArgCharsNoParens(s: string, d: Grammar.Dialect)
    requires Grammar.ArgChars(s, d)
    ensures NoParens(s)
    decreases |s|
  {
    if s != [] {
      if Grammar.IsArgChar(s[0], d) && Grammar.ArgChars(s[1..], d) {
        ArgCharsNoParens(s[1..], d);
        NoParensConcat(s[..1], s[1..]);
        assert s == s[..1] + s[1..];
      } else {
        ArgCharsNoParens(s[3..], d);
        NoParensConcat(s[..3], s[3..]);
        assert s == s[..3] + s[3..];
      }
    }
  }

  lemma ComparisonNoParens(s: string)
    requires Grammar.IsComparison(s)
    ensures NoParens(s)
  {
    forall i | 0 <= i < |s| ensures s[i] != '(' && s[i] != ')' {
      if 0 < i < |s| - 1 {
        assert s[1..|s| - 1][i - 1] == s[i];
      }
    }
  }

  /** Selectors, comparisons and arguments hold no parenthesis: every one in s is in a preamble. */
  lemma {:induction false} ParensAreInPreambles(s: string, unquote: string -> string)
    ensures Count('(', s) == Count('(', Preambles(IterParse(s, unquote)))
    ensures Count(')', s) == Count(')', Preambles(IterParse(s, unquote)))
    decreases |s|
  {
    if s != [] {
      var r := Grammar.Split(s, Grammar.Package);
      if r.None? {
        assert IterParse(s, unquote) == [Part(s, None, None, None)];
        assert Preambles([Part(s, None, None, None)]) == s + "";
        assert s + "" == s;
      } else {
        var m := r.value;
        ParensAreInPreambles(m.rest, unquote);
        MatchMiddle(s, m);
        PreamblesOfMatch(s, unquote, m);
        CountsAround(s, m.preamble, m.selector + Grammar.OptText(m.comparison) + Grammar.OptText(m.argument), m.rest,
                     Preambles(IterParse(m.rest, unquote)), Preambles(IterParse(s, unquote)));
      }
    }
  }

  /** What Split takes out of s between preamble and rest holds no parenthesis. */
  lemma MatchMiddle(s: string, m: Grammar.Match)
    requires Grammar.Split(s, Grammar.Package) == Some(m)
    ensures var middle := m.selector + Grammar.OptText(m.comparison) + Grammar.OptText(m.argument);
      s == m.preamble + middle + m.rest && NoParens(middle)
  {
    Grammar.SplitJoins(s, Grammar.Package);
    MatchMiddleNoParens(m, Grammar.Package);
    Reassociate(m.preamble, m.selector, Grammar.OptText(m.comparison), Grammar.OptText(m.argument), m.rest);
  }

  lemma Reassociate(a: string, b: string, c: string, d: string, e: string)
    ensures a + b + c + d + e == a + (b + c + d) + e
  {
  }

  lemma Rebracket(a: string, b: string, c: string, d: string, e: string)
    ensures a + b + (c + d + e) == a + b + c + d + e
  {
  }

  lemma StartsWith(a: string, b: string)
    requires a != []
    ensures (a + b)[0] == a[0]
  {
  }

  lemma ConsOntoOne(p1: Part, p2: Part)
    ensures [p1] + [p2] == [p1, p2]
  {
  }

  lemma ConsOntoThree(p1: Part, p2: Part, p3: Part, p4: Part)
    ensures [p1] + [p2, p3, p4] == [p1, p2, p3, p4]
  {
  }

  lemma ConsOntoFour(p1: Part, p2: Part, p3: Part, p4: Part, p5: Part)
    ensures [p1] + [p2, p3, p4, p5] == [p1, p2, p3, p4, p5]
  {
  }

  /** Both parenthesis counts survive dropping a middle part without parentheses. */
  lemma CountsAround(s: string, pre: string, middle: string, rest: string, later: string, joined: string)
    requires s == pre + middle + rest && joined == pre + later && NoParens(middle)
    requires Count('(', rest) == Count('(', later) && Count(')', rest) == Count(')', later)
    ensures Count('(', s) == Count('(', joined) && Count(')', s) == Count(')', joined)
  {
    CountAround('(', pre, middle, rest, later);
    CountAround(')', pre, middle, rest, later);
  }

  lemma PreamblesOfMatch(s: string, unquote: string -> string, m: Grammar.Match)
    requires s != [] && Grammar.Split(s, Grammar.Package) == Some(m)
    ensures Preambles(IterParse(s, unquote)) == m.preamble + Preambles(IterParse(m.rest, unquote))
  {
    var parts := IterParse(s, unquote);
    assert parts[0].preamble == m.preamble;
    assert parts[1..] == IterParse(m.rest, unquote);
  }

  lemma MatchMiddleNoParens(m: Grammar.Match, d: Grammar.Dialect)
    requires Grammar.PartsValid(m, d)
    ensures NoParens(m.selector + Grammar.OptText(m.comparison) + Grammar.OptText(m.argument))
  {
    SelectorCharsNoParens(m.selector);
    if m.comparison.Some? {
      ComparisonNoParens(m.comparison.value);
      ArgCharsNoParens(m.argument.value, d);
      NoParensConcat(m.selector, m.comparison.value);
      NoParensConcat(m.selector + m.comparison.value, m.argument.value);
    } else {
      assert m.selector + Grammar.OptText(m.comparison) + Grammar.OptText(m.argument) == m.selector;
    }
  }

  lemma CountAround(c: char, pre: string, middle: string, rest: string, later: string)
    requires c == '(' || c == ')'
    requires NoParens(middle) && Count(c, rest) == Count(c, later)
    ensures Count(c, pre + middle + rest) == Count(c, pre + later)
  {
    NoParensCount(middle);
    CountConcat(c, pre, middle);
    CountConcat(c, pre + middle, rest);
    CountConcat(c, pre, later);
  }

  /** A string that parses holds as many closing parentheses as opening ones. */
  lemma ParseBalanced(s: string, unquote: string -> string, fuel: nat)
    requires Parse(s, unquote, fuel).Ok?
    ensures Count('(', s) == Count(')', s)
  {
    RunDepth(Start(), IterParse(s, unquote), fuel);
    ParensAreInPreambles(s, unquote);
  }
}
