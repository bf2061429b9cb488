/**
  The single-module predecessor of the package. Its Expression keeps one
  flat list in which operators and operands are interleaved; `add_element`
  enforces the alternation (an operand first, then operator and operand in
  turn) instead of building a precedence tree. Its argument characters do
  not include `:`, and its Constraint checks nothing.
 */
module Legacy {
  import opened Wrappers
  import opened Errors
  import Operators
  import Constraints
  import Grammar
  import Parser

  /** The identity of a Python object in the arena. */
  type NodeId = nat

  /** An entry of an Expression's element list: an Operator, or a Constraint or Expression. */
  datatype Item = Op(op: Operators.Operator) | Ref(id: NodeId)

  /** What a caller can pass to `add_element`. */
  datatype Element =
    | NodeRef(id: NodeId)                  // a Constraint or an Expression
    | OperatorRef(op: Operators.Operator)  // an Operator
    | Foreign                              // any other Python value

  datatype Node =
    | Leaf(selector: string, comparison: Option<string>, argument: Option<string>, parent: Option<NodeId>)
    | Group(items: seq<Item>, parent: Option<NodeId>)

  datatype Heap = Heap(nodes: map<NodeId, Node>, next: NodeId)

  predicate IsGroup(h: Heap, id: NodeId) {
    id in h.nodes && h.nodes[id].Group?
  }

  /** Operands at the even positions, operators at the odd ones. */
  predicate Alternates(items: seq<Item>) {
    forall i | 0 <= i < |items| :: items[i].Ref? <==> i % 2 == 0
  }

  /** Every reference a node holds leads to a node, a parent to an Expression; its items alternate. */
  predicate Closed(h: Heap, n: Node) {
    && (n.parent.Some? ==> IsGroup(h, n.parent.value))
    && (n.Group? ==> Alternates(n.items) && forall i | 0 <= i < |n.items| :: n.items[i].Ref? ==> n.items[i].id in h.nodes)
  }

  predicate Live(h: Heap, id: NodeId) {
    id in h.nodes
  }

  /**
    The arena invariant: identities below `next`, every reference closed,
    every element list alternating. Instantiated only at the nodes a proof
    names (NodeClosed).
   */
  ghost predicate Valid(h: Heap) {
    forall id: NodeId {:trigger Live(h, id)} | Live(h, id) :: id < h.next && Closed(h, h.nodes[id])
  }

  lemma NodeClosed(h: Heap, id: NodeId)
    requires Valid(h) && id in h.nodes
    ensures id < h.next && Closed(h, h.nodes[id])
  {
    assert Live(h, id);
  }

  /** g extends h: no node removed, none changed kind, `next` not lowered. */
  predicate Grows(h: Heap, g: Heap) {
    && h.next <= g.next
    && forall id | id in h.nodes :: id in g.nodes && (h.nodes[id].Group? <==> g.nodes[id].Group?)
  }

  lemma GrowsTransitive(h: Heap, g: Heap, k: Heap)
    requires Grows(h, g) && Grows(g, k)
    ensures Grows(h, k)
  {
  }

  // ---------------------------------------------------------------------------
  // Updates, each keeping the invariant
  // ---------------------------------------------------------------------------

  /** Replacing one node by a closed node of the same kind. */
  function Put(h: Heap, id: NodeId, n: Node): (g: Heap)
    requires Valid(h) && id in h.nodes && h.nodes[id].Group? == n.Group? && Closed(h, n)
    ensures Valid(g) && Grows(h, g) && g.next == h.next
    ensures g.nodes == h.nodes[id := n]
  {
    var g := Heap(h.nodes[id := n], h.next);
    assert Grows(h, g);
    forall i: NodeId | Live(g, i) ensures i < g.next && Closed(g, g.nodes[i]) {
      NodeClosed(h, i);
    }
    g
  }

  /** A new node at the fresh identity `next`. */
  function Allocate(h: Heap, n: Node): (r: (Heap, NodeId))
    requires Valid(h) && n.parent.None? && (n.Group? ==> n.items == [])
    ensures r.1 == h.next && r.1 !in h.nodes
    ensures Valid(r.0) && Grows(h, r.0) && r.0.next == h.next + 1
    ensures r.0.nodes == h.nodes[r.1 := n]
  {
    var g := Heap(h.nodes[h.next := n], h.next + 1);
    assert h.next !in h.nodes by {
      if h.next in h.nodes {
        NodeClosed(h, h.next);
      }
    }
    assert Grows(h, g);
    forall i: NodeId | Live(g, i) ensures i < g.next && Closed(g, g.nodes[i]) {
      if i != h.next {
        NodeClosed(h, i);
      }
    }
    (g, h.next)
  }

  /** `Expression()`: no elements, no parent. */
  function NewExpression(h: Heap): (r: (Heap, NodeId))
    requires Valid(h)
    ensures Valid(r.0) && Grows(h, r.0) && r.1 !in h.nodes && r.0.next == h.next + 1
    ensures r.0.nodes == h.nodes[r.1 := Group([], None)]
  {
    Allocate(h, Group([], None))
  }

  /** `Constraint(selector, comparison, argument)`: stored as given, nothing checked. */
  function NewConstraint(h: Heap, selector: string, comparison: Option<string>, argument: Option<string>)
    : (r: (Heap, NodeId))
    requires Valid(h)
    ensures Valid(r.0) && Grows(h, r.0) && r.1 !in h.nodes && r.0.next == h.next + 1
    ensures r.0.nodes == h.nodes[r.1 := Leaf(selector, comparison, argument, None)]
  {
    Allocate(h, Leaf(selector, comparison, argument, None))
  }

  /** `set_parent`: the parent must be an Expression. */
  function SetParent(h: Heap, id: NodeId, parent: Element): (r: Result<Heap, Error>)
    requires Valid(h) && id in h.nodes
    ensures r.Ok? <==> parent.NodeRef? && IsGroup(h, parent.id)
    ensures r.Err? ==> r.error == InvalidParent
    ensures r.Ok? ==> Valid(r.value) && Grows(h, r.value) && r.value.next == h.next
    ensures r.Ok? ==> r.value.nodes == h.nodes[id := h.nodes[id].(parent := Some(parent.id))]
  {
    if parent.NodeRef? && IsGroup(h, parent.id) then
      NodeClosed(h, id);
      Ok(Put(h, id, h.nodes[id].(parent := Some(parent.id))))
    else
      Err(InvalidParent)
  }

  /** `get_parent`: fails while no parent has been set. */
  function GetParent(h: Heap, id: NodeId): (r: Result<NodeId, Error>)
    requires Valid(h) && id in h.nodes
    ensures r.Ok? <==> h.nodes[id].parent.Some?
    ensures r.Ok? ==> IsGroup(h, r.value) && h.nodes[id].parent == Some(r.value)
    ensures r.Err? ==> r.error == InvalidParent
  {
    NodeClosed(h, id);
    if h.nodes[id].parent.Some? then Ok(h.nodes[id].parent.value) else Err(InvalidParent)
  }

  /** `has_constraint`: the list is not empty and starts with a Constraint or Expression. */
  predicate HasConstraint(h: Heap, e: NodeId)
    requires IsGroup(h, e)
  {
    |h.nodes[e].items| > 0 && h.nodes[e].items[0].Ref?
  }

  // ---------------------------------------------------------------------------
  // add_element, create_nested_expression
  // ---------------------------------------------------------------------------

  /** The item an accepted element becomes. */
  function ItemOf(element: Element): Item
    requires !element.Foreign?
  {
    if element.NodeRef? then Ref(element.id) else Op(element.op)
  }

  /**
    The adjacency rule of `add_element`: an operator needs an operand right
    before it; an operand must not follow another operand.
   */
  predicate Accepts(items: seq<Item>, element: Element) {
    match element
    case Foreign => false
    case OperatorRef(_) => items != [] && items[|items| - 1].Ref?
    case NodeRef(_) => items == [] || items[|items| - 1].Op?
  }

  /**
    `add_element`. A value that is neither a node nor an Operator, an
    Operator first or after an Operator, and a node after a node are
    refused; otherwise the element is appended, and a node gets this
    Expression as its parent. Nothing else changes.
   */
  function AddElement(h: Heap, e: NodeId, element: Element): (r: Result<Heap, Error>)
    requires Valid(h) && IsGroup(h, e) && (element.NodeRef? ==> element.id in h.nodes)
    ensures r.Ok? <==> Accepts(h.nodes[e].items, element)
    ensures element.Foreign? ==> r == Err(InvalidElementType)
    ensures element.OperatorRef? && h.nodes[e].items == [] ==> r == Err(OperatorBeforeConstraint)
    ensures element.OperatorRef? && h.nodes[e].items != [] && !r.Ok? ==> r == Err(OperatorAfterOperator)
    ensures element.NodeRef? && !r.Ok? ==> r == Err(OperandAfterOperand)
    ensures r.Ok? ==> Valid(r.value) && Grows(h, r.value) && r.value.next == h.next
    ensures r.Ok? ==> IsGroup(r.value, e) && r.value.nodes[e].items == h.nodes[e].items + [ItemOf(element)]
    ensures r.Ok? && element.NodeRef? ==> r.value.nodes[element.id].parent == Some(e)
    ensures r.Ok? && element.NodeRef? && element.id != e ==>
              r.value.nodes[element.id] == h.nodes[element.id].(parent := Some(e))
    ensures r.Ok? ==> forall i | i in h.nodes && i != e && !(element.NodeRef? && i == element.id) ::
                        r.value.nodes[i] == h.nodes[i]
    ensures r.Ok? && !(element.NodeRef? && element.id == e) ==> r.value.nodes[e].parent == h.nodes[e].parent
  {
    var items := h.nodes[e].items;
    NodeClosed(h, e);
    match element
    case Foreign => Err(InvalidElementType)
    case OperatorRef(op) =>
      if items == [] then Err(OperatorBeforeConstraint)
      else if items[|items| - 1].Op? then Err(OperatorAfterOperator)
      else
        AppendAlternates(items, Op(op));
        Ok(Put(h, e, h.nodes[e].(items := items + [Op(op)])))
    case NodeRef(x) =>
      if items != [] && items[|items| - 1].Ref? then Err(OperandAfterOperand)
      else
        var h1 := SetParent(h, x, NodeRef(e)).value;
        NodeClosed(h1, e);
        AppendAlternates(items, Ref(x));
        var h2 := Put(h1, e, h1.nodes[e].(items := items + [Ref(x)]));
        GrowsTransitive(h, h1, h2);
        Ok(h2)
  }

  /** An alternating list stays alternating when the next item has the kind its position calls for. */
  lemma AppendAlternates(items: seq<Item>, item: Item)
    requires Alternates(items)
    requires items == [] ==> item.Ref?
    requires items != [] ==> (items[|items| - 1].Ref? <==> item.Op?)
    ensures Alternates(items + [item])
  {
    if items != [] {
      assert items[|items| - 1].Ref? <==> (|items| - 1) % 2 == 0;
    }
  }

  /**
    `create_nested_expression`: a new Expression, added with `add_element`
    and so under the same adjacency rule, is returned.
   */
  function CreateNestedExpression(h: Heap, e: NodeId): (r: Result<(Heap, NodeId), Error>)
    requires Valid(h) && IsGroup(h, e)
    ensures r.Ok? <==> h.nodes[e].items == [] || h.nodes[e].items[|h.nodes[e].items| - 1].Op?
    ensures r.Err? ==> r.error == OperandAfterOperand
    ensures r.Ok? ==> Valid(r.value.0) && Grows(h, r.value.0) && r.value.1 == h.next
    ensures r.Ok? ==> var (g, sub) := r.value;
      && sub in g.nodes && g.nodes[sub] == Group([], Some(e))
      && g.nodes[e].items == h.nodes[e].items + [Ref(sub)]
      && g.nodes[e].parent == h.nodes[e].parent
      && forall i | i in h.nodes && i != e :: g.nodes[i] == h.nodes[i]
  {
    var (h1, sub) := NewExpression(h);
    var g :- AddElement(h1, e, NodeRef(sub));
    GrowsTransitive(h, h1, g);
    Ok((g, sub))
  }

  // ---------------------------------------------------------------------------
  // __str__
  // ---------------------------------------------------------------------------

  /** A Constraint's text: `selector comparison argument` with a non-empty argument, else the selector. */
  function ConstraintStr(selector: string, comparison: Option<string>, argument: Option<string>): (s: string)
    ensures !Constraints.Truthy(argument) ==> s == selector
    ensures Constraints.Truthy(argument) ==>
              s == selector + " " + Constraints.Format(comparison) + " " + argument.value
  {
    if Constraints.Truthy(argument) then
      selector + " " + Constraints.Format(comparison) + " " + argument.value
    else
      selector
  }

  /** `s` holds no space character. */
  predicate SpaceFree(s: string) {
    forall i | 0 <= i < |s| :: s[i] != ' '
  }

  /** The text before the first space is the same whenever both heads are space-free. */
  lemma FirstSpaceSplits(a: string, r: string, b: string, t: string)
    requires SpaceFree(a) && SpaceFree(b)
    requires a + " " + r == b + " " + t
    ensures a == b && r == t
  {
    var x := a + " " + r;
    assert x[|a|] == ' ';
    assert (b + " " + t)[|b|] == ' ';
    assert |a| == |b|;
    assert a == x[..|a|] == b;
    assert r == x[|a| + 1..] == t;
  }

  /**
    A Constraint's text splits back at its spaces: when the selector and the
    printed comparison hold no space, the text determines the selector,
    whether an argument was printed, and then the comparison and argument.
   */
  lemma ConstraintStrSplitsBack(s1: string, c1: Option<string>, a1: Option<string>,
                                s2: string, c2: Option<string>, a2: Option<string>)
    requires SpaceFree(s1) && SpaceFree(Constraints.Format(c1))
    requires SpaceFree(s2) && SpaceFree(Constraints.Format(c2))
    requires ConstraintStr(s1, c1, a1) == ConstraintStr(s2, c2, a2)
    ensures s1 == s2
    ensures Constraints.Truthy(a1) <==> Constraints.Truthy(a2)
    ensures Constraints.Truthy(a1) ==> Constraints.Format(c1) == Constraints.Format(c2) && a1 == a2
  {
    var f1, f2 := Constraints.Format(c1), Constraints.Format(c2);
    var t := ConstraintStr(s1, c1, a1);
    if Constraints.Truthy(a1) {
      assert t[|s1|] == ' ';
    }
    if Constraints.Truthy(a2) {
      assert t[|s2|] == ' ';
    }
    if Constraints.Truthy(a1) && Constraints.Truthy(a2) {
      assert t == s1 + " " + (f1 + " " + a1.value);
      assert t == s2 + " " + (f2 + " " + a2.value);
      FirstSpaceSplits(s1, f1 + " " + a1.value, s2, f2 + " " + a2.value);
      FirstSpaceSplits(f1, a1.value, f2, a2.value);
    }
  }

  /**
    `__str__`: a Constraint's text, or an Expression's items joined by
    spaces (an operator printing its name), wrapped in `( … )` when the
    Expression has a parent. `seen` holds the Expressions being printed
    further up; meeting one again is a recursion Python never leaves.
   */
  function ToStr(h: Heap, id: NodeId, seen: set<NodeId>): (r: Result<string, Error>)
    requires Valid(h) && id in h.nodes
    ensures r.Err? ==> r.error == RecursionLimitExceeded
    decreases h.nodes.Keys - seen, 1
  {
    if id in seen then Err(RecursionLimitExceeded)
    else
      NodeClosed(h, id);
      match h.nodes[id]
      case Leaf(selector, comparison, argument, _) => Ok(ConstraintStr(selector, comparison, argument))
      case Group(items, parent) =>
        var text :- JoinItems(h, items, seen + {id});
        if parent.Some? then Ok("( " + text + " )") else Ok(text)
  }

  /** The items' texts joined by single spaces. */
  function JoinItems(h: Heap, items: seq<Item>, seen: set<NodeId>): (r: Result<string, Error>)
    requires Valid(h) && forall i | 0 <= i < |items| :: items[i].Ref? ==> items[i].id in h.nodes
    ensures r.Err? ==> r.error == RecursionLimitExceeded
    decreases h.nodes.Keys - seen, 2, |items|
  {
    if items == [] then Ok("")
    else
      var first :- match items[0]
        case Op(op) => Ok(Operators.Name(op))
        case Ref(x) => ToStr(h, x, seen);
      if |items| == 1 then Ok(first)
      else
        var rest :- JoinItems(h, items[1..], seen);
        Ok(first + " " + rest)
  }

  /** An Expression with no parent whose one item is a constraint prints as that constraint. */
  lemma SingleConstraintExpression(h: Heap, e: NodeId, x: NodeId)
    requires Valid(h) && IsGroup(h, e) && h.nodes[e].items == [Ref(x)] && h.nodes[e].parent.None?
    requires x in h.nodes && h.nodes[x].Leaf?
    ensures var c := h.nodes[x];
      ToStr(h, e, {}) == Ok(ConstraintStr(c.selector, c.comparison, c.argument))
  {
    var c := h.nodes[x];
    var seen: set<NodeId> := {} + {e};
    assert ToStr(h, x, seen) == Ok(ConstraintStr(c.selector, c.comparison, c.argument));
    assert JoinItems(h, [Ref(x)], seen) == Ok(ConstraintStr(c.selector, c.comparison, c.argument));
  }

  // ---------------------------------------------------------------------------
  // iter_parse
  // ---------------------------------------------------------------------------

  /** The pieces of s, as the package cuts them, but with the legacy argument characters. */
  function IterParse(s: string, unquote: string -> string): (parts: seq<Parser.Part>)
    ensures s == [] <==> parts == []
    decreases |s|
  {
    if s == [] then []
    else
      match Grammar.Split(s, Grammar.Legacy)
      case None => [Parser.Part(s, None, None, None)]
      case Some(m) =>
        var argument := if m.argument.Some? && m.argument.value != "" then Some(unquote(m.argument.value)) else None;
        var rest := IterParse(m.rest, unquote);
        [Parser.Part(m.preamble, Some(unquote(m.selector)), m.comparison, argument)] + rest
  }

  /** With a decoder that changes nothing, the pieces join back into the string. */
  lemma {:induction false} IterParseJoinsBack(s: string)
    ensures Parser.Text(IterParse(s, x => x)) == s
    decreases |s|
  {
    if s != [] {
      match Grammar.Split(s, Grammar.Legacy)
      case None =>
      case Some(m) =>
        Grammar.SplitIsLeftmost(s, Grammar.Legacy);
        IterParseJoinsBack(m.rest);
        var parts := IterParse(s, x => x);
        assert parts[1..] == IterParse(m.rest, x => x);
        assert Grammar.OptText(parts[0].argument) == Grammar.OptText(m.argument);
        assert Grammar.OptText(parts[0].comparison) == Grammar.OptText(m.comparison);
    }
  }

  /** The only difference from the package's `iter_parse` is `:`: without one, both cut a string alike. */
  lemma {:induction false} IterParseAgrees(s: string, unquote: string -> string)
    requires forall i | 0 <= i < |s| :: s[i] != ':'
    ensures IterParse(s, unquote) == Parser.IterParse(s, unquote)
    decreases |s|
  {
    if s != [] {
      Grammar.SplitDialectsAgree(s);
      match Grammar.Split(s, Grammar.Legacy)
      case None =>
      case Some(m) =>
        Grammar.SplitJoins(s, Grammar.Legacy);
        SuffixWithoutColon(m.preamble + m.selector + Grammar.OptText(m.comparison) + Grammar.OptText(m.argument), m.rest);
        IterParseAgrees(m.rest, unquote);
    }
  }

  /** A full constraint after operator and parenthesis text is the next piece. */
  lemma IterParseAtConstraint(pre: string, sel: string, cmp: string, arg: string, rest: string, unquote: string -> string)
    requires forall i | 0 <= i < |pre| :: Grammar.OutsideSelector(pre[i])
    requires Grammar.IsSelector(sel) && Grammar.IsComparison(cmp) && Grammar.IsArgument(arg, Grammar.Legacy)
    requires rest == [] || (!Grammar.IsArgChar(rest[0], Grammar.Legacy) && rest[0] != '%')
    ensures IterParse(pre + sel + cmp + arg + rest, unquote)
            == [Parser.Part(pre, Some(unquote(sel)), Some(cmp), Some(unquote(arg)))] + IterParse(rest, unquote)
  {
    Grammar.SplitAtConstraint(pre, sel, cmp, arg, rest, Grammar.Legacy);
  }

  /** A bare selector after operator and parenthesis text is the next piece. */
  lemma IterParseAtSelector(pre: string, sel: string, rest: string, unquote: string -> string)
    requires forall i | 0 <= i < |pre| :: Grammar.OutsideSelector(pre[i])
    requires Grammar.IsSelector(sel)
    requires rest == [] || (Grammar.OutsideSelector(rest[0]) && rest[0] != '=' && !Grammar.IsFiqlDelim(rest[0]))
    ensures IterParse(pre + sel + rest, unquote) == [Parser.Part(pre, Some(unquote(sel)), None, None)] + IterParse(rest, unquote)
  {
    Grammar.SplitAtSelector(pre, sel, rest, Grammar.Legacy);
  }

  /** Text without a selector character is one last piece. */
  lemma IterParseNoConstraint(s: string, unquote: string -> string)
    requires s != [] && forall i | 0 <= i < |s| :: Grammar.OutsideSelector(s[i])
    ensures IterParse(s, unquote) == [Parser.Part(s, None, None, None)]
  {
    assert Grammar.Split(s, Grammar.Legacy) == None by {
      forall i | 0 <= i < |s| ensures !Grammar.StartsSelector(s, i) {
        assert Grammar.OutsideSelector(s[i]);
      }
    }
  }

  lemma SuffixWithoutColon(a: string, b: string)
    requires forall i | 0 <= i < |a + b| :: (a + b)[i] != ':'
    ensures forall i | 0 <= i < |b| :: b[i] != ':'
  {
    forall i | 0 <= i < |b| ensures b[i] != ':' {
      assert (a + b)[|a| + i] == b[i];
    }
  }

  // ---------------------------------------------------------------------------
  // parse_str_to_expression
  // ---------------------------------------------------------------------------

  /** The parser's variables: the objects so far, the Expression it returns, and the one being filled. */
  datatype State = State(heap: Heap, root: NodeId, current: NodeId)

  /** The objects are consistent, both Expressions exist, and the returned one is never nested. */
  ghost predicate Good(st: State) {
    && Valid(st.heap)
    && IsGroup(st.heap, st.root)
    && IsGroup(st.heap, st.current)
    && st.heap.nodes[st.root].parent.None?
  }

  /** Every node of h is still in g, with the same parent. */
  ghost predicate ParentsKept(h: Heap, g: Heap) {
    forall id {:trigger Live(h, id)} | Live(h, id) :: Live(g, id) && g.nodes[id].parent == h.nodes[id].parent
  }

  /** A step of the walk: the invariant holds, nodes only grow, parents stay. */
  ghost predicate Advances(st: State, r: Result<State, Error>) {
    r.Ok? ==>
      && Good(r.value)
      && r.value.root == st.root
      && Grows(st.heap, r.value.heap)
      && ParentsKept(st.heap, r.value.heap)
  }

  /**
    One preamble character. `(` adds a new Expression at the cursor and
    moves the cursor into it; `)` moves the cursor to its parent; any other
    character is made an Operator, which must be `;` or `,`, and added at
    the cursor.
   */
  function PreambleChar(st: State, c: char): (r: Result<State, Error>)
    requires Good(st)
    ensures Advances(st, r)
  {
    if c == '(' then
      var nested :- CreateNestedExpression(st.heap, st.current);
      Ok(State(nested.0, st.root, nested.1))
    else if c == ')' then
      var p :- GetParent(st.heap, st.current);
      Ok(State(st.heap, st.root, p))
    else
      var op :- Operators.Parse([c]);
      var g :- AddElement(st.heap, st.current, OperatorRef(op));
      Ok(State(g, st.root, st.current))
  }

  /** The characters of a preamble, in order; the first failure stops the walk. */
  function Preamble(st: State, preamble: string): (r: Result<State, Error>)
    requires Good(st)
    ensures Advances(st, r)
    decreases |preamble|
  {
    if preamble == [] then Ok(st)
    else
      var st1 :- PreambleChar(st, preamble[0]);
      AdvancesTransitive(st, st1, Preamble(st1, preamble[1..]));
      Preamble(st1, preamble[1..])
  }

  /**
    The constraint of a piece, when its selector is not empty: built with
    its comparison in common form when the table knows it, then added at
    the cursor.
   */
  function ConstraintStep(st: State, part: Parser.Part): (r: Result<State, Error>)
    requires Good(st)
    ensures Advances(st, r)
  {
    if !Constraints.Truthy(part.selector) then Ok(st)
    else
      var (h1, leaf) := NewConstraint(st.heap, part.selector.value, Constraints.MapComparison(part.comparison), part.argument);
      var g :- AddElement(h1, st.current, NodeRef(leaf));
      GrowsTransitive(st.heap, h1, g);
      Ok(State(g, st.root, st.current))
  }

  function Step(st: State, part: Parser.Part): (r: Result<State, Error>)
    requires Good(st)
    ensures Advances(st, r)
  {
    var st1 :- Preamble(st, part.preamble);
    AdvancesTransitive(st, st1, ConstraintStep(st1, part));
    ConstraintStep(st1, part)
  }

  function Run(st: State, parts: seq<Parser.Part>): (r: Result<State, Error>)
    requires Good(st)
    ensures Advances(st, r)
    decreases |parts|
  {
    if parts == [] then Ok(st)
    else
      var st1 :- Step(st, parts[0]);
      AdvancesTransitive(st, st1, Run(st1, parts[1..]));
      Run(st1, parts[1..])
  }

  lemma AdvancesTransitive(st: State, st1: State, r: Result<State, Error>)
    requires Advances(st, Ok(st1)) && Advances(st1, r)
    ensures Advances(st, r)
  {
    if r.Ok? {
      GrowsTransitive(st.heap, st1.heap, r.value.heap);
    }
  }

  /** Before parsing: one new Expression, the cursor on it. */
  function Start(): (st: State)
    ensures Good(st) && st.current == st.root
    ensures st.heap.nodes == map[st.root := Group([], None)]
  {
    var empty := Heap(map[], 0);
    assert Valid(empty);
    var (h, root) := NewExpression(empty);
    State(h, root, root)
  }

  /**
    `parse_str_to_expression`: walk every piece; the cursor must then be
    back on the first Expression, which must start with a constraint. The
    result is that Expression, which has no parent.
   */
  function Parse(s: string, unquote: string -> string): (r: Result<(Heap, NodeId), Error>)
    ensures r.Ok? ==> var (h, root) := r.value;
      Valid(h) && IsGroup(h, root) && HasConstraint(h, root) && h.nodes[root].parent.None?
  {
    var st :- Run(Start(), IterParse(s, unquote));
    if st.current != st.root then Err(UnclosedGroup)
    else if !HasConstraint(st.heap, st.root) then Err(NoConstraint)
    else Ok((st.heap, st.root))
  }

  // ---------------------------------------------------------------------------
  // Nesting: the cursor is as many levels below the result as parentheses are open
  // ---------------------------------------------------------------------------

  /** A chain of Expressions, each the parent of the next. */
  ghost predicate IsPath(h: Heap, path: seq<NodeId>) {
    && |path| > 0
    && (forall i | 0 <= i < |path| :: path[i] in h.nodes)
    && (forall i | 1 <= i < |path| :: h.nodes[path[i]].parent == Some(path[i - 1]))
  }

  /** The chain from the Expression the parser returns down to the one it is filling. */
  ghost predicate Nested(st: State, path: seq<NodeId>) {
    IsPath(st.heap, path) && path[0] == st.root && path[|path| - 1] == st.current
  }

  lemma PathKept(h: Heap, g: Heap, path: seq<NodeId>)
    requires IsPath(h, path) && ParentsKept(h, g)
    ensures IsPath(g, path)
  {
    forall i | 0 <= i < |path| ensures path[i] in g.nodes && (i >= 1 ==> g.nodes[path[i]].parent == Some(path[i - 1])) {
      assert Live(h, path[i]);
    }
  }

  /** How a character moves the nesting level. */
  function Shift(c: char): int {
    if c == '(' then 1 else if c == ')' then -1 else 0
  }

  /** `(` takes the cursor one level down, `)` one level up, and never above the result. */
  lemma PreambleCharNests(st: State, c: char, path: seq<NodeId>) returns (path': seq<NodeId>)
    requires Good(st) && Nested(st, path)
    ensures var r := PreambleChar(st, c);
      r.Ok? ==> Nested(r.value, path') && |path'| == |path| + Shift(c)
  {
    var r := PreambleChar(st, c);
    path' := path;
    if r.Ok? {
      PathKept(st.heap, r.value.heap, path);
      if c == '(' {
        path' := path + [r.value.current];
        assert r.value.heap.nodes[r.value.current].parent == Some(st.current);
      } else if c == ')' {
        path' := path[..|path| - 1];
      }
    }
  }

  lemma {:induction false} PreambleNests(st: State, preamble: string, path: seq<NodeId>) returns (path': seq<NodeId>)
    requires Good(st) && Nested(st, path)
    ensures var r := Preamble(st, preamble);
      r.Ok? ==> Nested(r.value, path') && |path'| == |path| + Parser.Count('(', preamble) - Parser.Count(')', preamble)
    decreases |preamble|
  {
    path' := path;
    if preamble != [] {
      var r1 := PreambleChar(st, preamble[0]);
      var path1 := PreambleCharNests(st, preamble[0], path);
      if r1.Ok? {
        path' := PreambleNests(r1.value, preamble[1..], path1);
      }
    }
  }

  lemma {:induction false} RunNests(st: State, parts: seq<Parser.Part>, path: seq<NodeId>) returns (path': seq<NodeId>)
    requires Good(st) && Nested(st, path)
    ensures var r := Run(st, parts);
      r.Ok? ==> Nested(r.value, path')
                && |path'| == |path| + Parser.Count('(', Parser.Preambles(parts)) - Parser.Count(')', Parser.Preambles(parts))
    decreases |parts|
  {
    path' := path;
    if parts != [] {
      var r0 := Preamble(st, parts[0].preamble);
      var path0 := PreambleNests(st, parts[0].preamble, path);
      if r0.Ok? {
        var r1 := ConstraintStep(r0.value, parts[0]);
        if r1.Ok? {
          PathKept(r0.value.heap, r1.value.heap, path0);
          path' := RunNests(r1.value, parts[1..], path0);
          Parser.CountConcat('(', parts[0].preamble, Parser.Preambles(parts[1..]));
          Parser.CountConcat(')', parts[0].preamble, Parser.Preambles(parts[1..]));
        }
      }
    }
  }

  /** A chain that ends where it starts, at an Expression without a parent, has no step. */
  lemma PathBackToTop(h: Heap, path: seq<NodeId>)
    requires IsPath(h, path) && path[|path| - 1] == path[0] && h.nodes[path[0]].parent.None?
    ensures |path| == 1
  {
    LastStep(h, path);
  }

  lemma LastStep(h: Heap, path: seq<NodeId>)
    requires IsPath(h, path)
    ensures |path| == 1 || h.nodes[path[|path| - 1]].parent == Some(path[|path| - 2])
  {
  }

  /** Every parenthesis of s is in a preamble. */
  lemma {:induction false} ParensAreInPreambles(s: string, unquote: string -> string)
    ensures Parser.Count('(', s) == Parser.Count('(', Parser.Preambles(IterParse(s, unquote)))
    ensures Parser.Count(')', s) == Parser.Count(')', Parser.Preambles(IterParse(s, unquote)))
    decreases |s|
  {
    if s != [] {
      var r := Grammar.Split(s, Grammar.Legacy);
      if r.None? {
        assert IterParse(s, unquote) == [Parser.Part(s, None, None, None)];
        assert Parser.Preambles([Parser.Part(s, None, None, None)]) == s + "";
        assert s + "" == s;
      } else {
        var m := r.value;
        ParensAreInPreambles(m.rest, unquote);
        MatchMiddle(s, m);
        PreamblesOfMatch(s, unquote, m);
        Parser.CountsAround(s, m.preamble, m.selector + Grammar.OptText(m.comparison) + Grammar.OptText(m.argument), m.rest,
                            Parser.Preambles(IterParse(m.rest, unquote)), Parser.Preambles(IterParse(s, unquote)));
      }
    }
  }

  lemma MatchMiddle(s: string, m: Grammar.Match)
    requires Grammar.Split(s, Grammar.Legacy) == Some(m)
    ensures var middle := m.selector + Grammar.OptText(m.comparison) + Grammar.OptText(m.argument);
      s == m.preamble + middle + m.rest && Parser.NoParens(middle)
  {
    Grammar.SplitJoins(s, Grammar.Legacy);
    Parser.MatchMiddleNoParens(m, Grammar.Legacy);
    Parser.Reassociate(m.preamble, m.selector, Grammar.OptText(m.comparison), Grammar.OptText(m.argument), m.rest);
  }

  lemma PreamblesOfMatch(s: string, unquote: string -> string, m: Grammar.Match)
    requires s != [] && Grammar.Split(s, Grammar.Legacy) == Some(m)
    ensures Parser.Preambles(IterParse(s, unquote)) == m.preamble + Parser.Preambles(IterParse(m.rest, unquote))
  {
    var parts := IterParse(s, unquote);
    assert parts[0].preamble == m.preamble;
    assert parts[1..] == IterParse(m.rest, unquote);
  }

  /**
    A string the legacy parser accepts holds as many closing parentheses
    as opening ones: the cursor has to end on the Expression it started on,
    which no `)` can climb above.
   */
  lemma ParseBalanced(s: string, unquote: string -> string)
    requires Parse(s, unquote).Ok?
    ensures Parser.Count('(', s) == Parser.Count(')', s)
  {
    var st := Start();
    var parts := IterParse(s, unquote);
    var path := RunNests(st, parts, [st.root]);
    var end := Run(st, parts).value;
    PathBackToTop(end.heap, path);
    ParensAreInPreambles(s, unquote);
  }
}
