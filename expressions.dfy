/**
  FIQL expressions: the mutable tree of constraints and groups.

  Python objects refer to each other (a group lists its elements, every
  element points back at its parent, every group points at the group it is
  currently filling, its working fragment). The model keeps all objects in
  an arena, a map from object identity to node, so that sharing and cycles,
  which the fluent API can build, are represented as they are.

  The functions on `Forest` values specify each operation; the `Arena` class
  at the end performs them in place, and each of its methods is proved to
  agree with its specification.
 */
module Expressions {
  import opened Wrappers
  import opened Errors
  import opened Operators
  import opened Constraints

  /** The identity of a Python object in the arena. */
  type NodeId = nat

  datatype Node =
    | Leaf(constraint: Constraint, parent: Option<NodeId>)
    | Group(elements: seq<NodeId>, operator: Option<Operator>, parent: Option<NodeId>, working: NodeId)

  /** What a caller can pass where an element is expected. */
  datatype Element =
    | NodeRef(id: NodeId)       // a Constraint or an Expression
    | OperatorRef(op: Operator) // an Operator
    | Foreign                   // any other Python value

  datatype Forest = Forest(nodes: map<NodeId, Node>, next: NodeId)

  predicate IsGroup(f: Forest, id: NodeId) {
    id in f.nodes && f.nodes[id].Group?
  }

  /** Every reference a node holds leads to a node; parents and working fragments to groups. */
  predicate Closed(f: Forest, n: Node) {
    && (n.parent.Some? ==> IsGroup(f, n.parent.value))
    && (n.Group? ==> IsGroup(f, n.working) && forall x | x in n.elements :: x in f.nodes)
  }

  /**
    The arena invariant: identities below `next` (so `next` is always
    fresh) and every reference closed. Neither acyclicity nor "my parent
    lists me" is required: the fluent API can break both.
   */
  ghost predicate Valid(f: Forest) {
    forall id: NodeId {:trigger Live(f, id)} | Live(f, id) :: id < f.next && Closed(f, f.nodes[id])
  }

  /**
    Membership, as its own symbol: the invariant is instantiated only at the
    nodes a proof names (NodeClosed), which keeps the solver from chasing
    parent and working-fragment references without end.
   */
  predicate Live(f: Forest, id: NodeId) {
    id in f.nodes
  }

  lemma NextIsFresh(f: Forest)
    requires Valid(f)
    ensures forall id | id in f.nodes :: id < f.next
  {
    forall id | id in f.nodes ensures id < f.next {
      NodeClosed(f, id);
    }
  }

  lemma NodeClosed(f: Forest, id: NodeId)
    requires Valid(f) && id in f.nodes
    ensures id < f.next && Closed(f, f.nodes[id])
  {
    assert Live(f, id);
  }

  /** g extends f: no node removed, none changed kind, `next` not lowered. */
  predicate Grows(f: Forest, g: Forest) {
    && f.next <= g.next
    && forall id | id in f.nodes :: id in g.nodes && (f.nodes[id].Group? <==> g.nodes[id].Group?)
  }

  lemma ClosedGrows(f: Forest, g: Forest, n: Node)
    requires Grows(f, g) && Closed(f, n)
    ensures Closed(g, n)
  {
  }

  lemma GrowsTransitive(f: Forest, g: Forest, h: Forest)
    requires Grows(f, g) && Grows(g, h)
    ensures Grows(f, h)
  {
  }

  /** The working fragment of group e. */
  function Working(f: Forest, e: NodeId): (w: NodeId)
    requires Valid(f) && IsGroup(f, e)
    ensures IsGroup(f, w)
  {
    NodeClosed(f, e);
    f.nodes[e].working
  }

  // ---------------------------------------------------------------------------
  // Single-field updates, each keeping the invariant
  // ---------------------------------------------------------------------------

  /** Replacing one node by a closed node of the same kind keeps the invariant. */
  function Put(f: Forest, id: NodeId, n: Node): (g: Forest)
    requires Valid(f) && id in f.nodes && f.nodes[id].Group? == n.Group? && Closed(f, n)
    ensures Valid(g) && Grows(f, g) && g.next == f.next
    ensures g.nodes == f.nodes[id := n]
  {
    var g := Forest(f.nodes[id := n], f.next);
    assert Grows(f, g);
    forall i: NodeId | Live(g, i) ensures i < g.next && Closed(g, g.nodes[i]) {
      NodeClosed(f, i);
      ClosedGrows(f, g, if i == id then n else f.nodes[i]);
    }
    g
  }

  function WithParent(f: Forest, id: NodeId, p: NodeId): (g: Forest)
    requires Valid(f) && id in f.nodes && IsGroup(f, p)
    ensures Valid(g) && Grows(f, g) && g.next == f.next
    ensures g.nodes == f.nodes[id := f.nodes[id].(parent := Some(p))]
  {
    NodeClosed(f, id);
    Put(f, id, f.nodes[id].(parent := Some(p)))
  }

  function WithElements(f: Forest, id: NodeId, elements: seq<NodeId>): (g: Forest)
    requires Valid(f) && IsGroup(f, id) && forall x | x in elements :: x in f.nodes
    ensures Valid(g) && Grows(f, g) && g.next == f.next
    ensures g.nodes == f.nodes[id := f.nodes[id].(elements := elements)]
  {
    NodeClosed(f, id);
    Put(f, id, f.nodes[id].(elements := elements))
  }

  function WithOperator(f: Forest, id: NodeId, op: Operator): (g: Forest)
    requires Valid(f) && IsGroup(f, id)
    ensures Valid(g) && Grows(f, g) && g.next == f.next
    ensures g.nodes == f.nodes[id := f.nodes[id].(operator := Some(op))]
  {
    NodeClosed(f, id);
    Put(f, id, f.nodes[id].(operator := Some(op)))
  }

  function WithWorking(f: Forest, id: NodeId, w: NodeId): (g: Forest)
    requires Valid(f) && IsGroup(f, id) && IsGroup(f, w)
    ensures Valid(g) && Grows(f, g) && g.next == f.next
    ensures g.nodes == f.nodes[id := f.nodes[id].(working := w)]
  {
    NodeClosed(f, id);
    Put(f, id, f.nodes[id].(working := w))
  }

  /** Allocating a node at the fresh identity `next`. */
  function Allocate(f: Forest, n: Node): (r: (Forest, NodeId))
    requires Valid(f) && (n.Group? ==> n.working == f.next && n.elements == []) && n.parent.None?
    ensures r.1 == f.next && r.1 !in f.nodes
    ensures Valid(r.0) && Grows(f, r.0) && r.0.next == f.next + 1
    ensures r.0.nodes == f.nodes[r.1 := n]
  {
    var g := Forest(f.nodes[f.next := n], f.next + 1);
    NextIsFresh(f);
    assert Grows(f, g);
    forall i: NodeId | Live(g, i) ensures i < g.next && Closed(g, g.nodes[i]) {
      if i != f.next {
        NodeClosed(f, i);
        ClosedGrows(f, g, f.nodes[i]);
      }
    }
    (g, f.next)
  }

  // ---------------------------------------------------------------------------
  // Construction, parents
  // ---------------------------------------------------------------------------

  /** `Expression()`: no elements, no operator, no parent, its own working fragment. */
  function NewExpression(f: Forest): (r: (Forest, NodeId))
    requires Valid(f)
    ensures Valid(r.0) && Grows(f, r.0) && r.1 !in f.nodes
    ensures r.0.nodes == f.nodes[r.1 := Group([], None, None, r.1)]
  {
    Allocate(f, Group([], None, None, f.next))
  }

  /**
    `Constraint(selector, comparison, argument)`: the comparison is checked,
    then a leaf without parent is allocated. On failure nothing is allocated.
   */
  function NewConstraint(f: Forest, selector: string, comparison: Option<string>, argument: Option<string>)
    : (r: Result<(Forest, NodeId), Error>)
    requires Valid(f)
    ensures r.Err? <==> Constraints.New(selector, comparison, argument).Err?
    ensures r.Err? ==> r.error == InvalidComparison(comparison.value)
    ensures r.Ok? ==> Valid(r.value.0) && Grows(f, r.value.0) && r.value.1 !in f.nodes
    ensures r.Ok? ==> r.value.0.nodes == f.nodes[r.value.1 := Leaf(Constraint(selector, comparison, argument), None)]
  {
    var c :- Constraints.New(selector, comparison, argument);
    Ok(Allocate(f, Leaf(c, None)))
  }

  /** `set_parent`: only an Expression may be a parent. */
  function SetParent(f: Forest, id: NodeId, parent: Element): (r: Result<Forest, Error>)
    requires Valid(f) && id in f.nodes
    ensures r.Ok? <==> parent.NodeRef? && IsGroup(f, parent.id)
    ensures r.Err? ==> r.error == InvalidParent
    ensures r.Ok? ==> Valid(r.value) && Grows(f, r.value)
    ensures r.Ok? ==> r.value.nodes == f.nodes[id := f.nodes[id].(parent := Some(parent.id))]
  {
    if parent.NodeRef? && IsGroup(f, parent.id) then Ok(WithParent(f, id, parent.id))
    else Err(InvalidParent)
  }

  /** `get_parent`: fails while no parent has been set. */
  function GetParent(f: Forest, id: NodeId): (r: Result<NodeId, Error>)
    requires Valid(f) && id in f.nodes
    ensures r.Ok? <==> f.nodes[id].parent.Some?
    ensures r.Ok? ==> IsGroup(f, r.value) && f.nodes[id].parent == Some(r.value)
    ensures r.Err? ==> r.error == InvalidParent
  {
    NodeClosed(f, id);
    if f.nodes[id].parent.Some? then Ok(f.nodes[id].parent.value) else Err(InvalidParent)
  }

  /** `has_constraint`: the group's own element list is not empty (its working fragment is not consulted). */
  predicate HasConstraint(f: Forest, e: NodeId)
    requires IsGroup(f, e)
  {
    |f.nodes[e].elements| > 0
  }

  // ---------------------------------------------------------------------------
  // Adding elements and operators
  // ---------------------------------------------------------------------------

  /**
    Appending node x to the working fragment w of e: x's parent becomes w,
    w's element list grows by x at the end, and no other node changes.
   */
  function Append(f: Forest, e: NodeId, x: NodeId): (g: Forest)
    requires Valid(f) && IsGroup(f, e) && x in f.nodes
    ensures Valid(g) && Grows(f, g) && g.next == f.next
    ensures var w := Working(f, e);
      && g.nodes[x].parent == Some(w)
      && g.nodes[w].elements == f.nodes[w].elements + [x]
      && (forall i | i in f.nodes && i != x && i != w :: g.nodes[i] == f.nodes[i])
      && (x != w ==> g.nodes[w] == f.nodes[w].(elements := f.nodes[w].elements + [x]))
      && (x != w ==> g.nodes[x] == f.nodes[x].(parent := Some(w)))
  {
    var w := Working(f, e);
    var f1 := WithParent(f, x, w);
    NodeClosed(f, w);
    assert f1.nodes[w].elements == f.nodes[w].elements;
    var g := WithElements(f1, w, f1.nodes[w].elements + [x]);
    GrowsTransitive(f, f1, g);
    g
  }

  /**
    `add_element`: a Constraint or Expression is appended to the working
    fragment and the receiver returned; anything else goes to
    `add_operator`, whose result is returned.
   */
  function AddElement(f: Forest, e: NodeId, element: Element, fuel: nat): (r: Result<(Forest, NodeId), Error>)
    requires Valid(f) && IsGroup(f, e) && (element.NodeRef? ==> element.id in f.nodes)
    ensures r.Ok? ==> Valid(r.value.0) && Grows(f, r.value.0) && IsGroup(r.value.0, r.value.1)
    ensures element.NodeRef? ==> r == Ok((Append(f, e, element.id), e))
    ensures element.OperatorRef? ==> r == AddOperator(f, e, element, fuel)
    ensures element.Foreign? ==> r == Err(InvalidElementType)
  {
    match element
    case NodeRef(x) => Ok((Append(f, e, x), e))
    case _ => AddOperator(f, e, element, fuel)
  }

  /**
    `add_operator`, on the working fragment w of e:
    - w has no operator: it is recorded;
    - the new operator binds tighter than w's: the last element of w moves
      into a new nested group under w, with the new operator, and that
      group becomes e's working fragment;
    - it binds looser: the operator goes to w's parent, or, when w has
      none, to a new top group holding w, which is returned;
    - equal precedence: nothing changes.
    Each upward step spends one unit of fuel; running out is Python's
    recursion limit.
   */
  function AddOperator(f: Forest, e: NodeId, element: Element, fuel: nat): (r: Result<(Forest, NodeId), Error>)
    requires Valid(f) && IsGroup(f, e)
    ensures r.Ok? ==> Valid(r.value.0) && Grows(f, r.value.0) && IsGroup(r.value.0, r.value.1)
    ensures !element.OperatorRef? ==> r == Err(InvalidElementType)
    decreases fuel
  {
    if !element.OperatorRef? then Err(InvalidElementType)
    else
      var op := element.op;
      var w := Working(f, e);
      var current := f.nodes[w].operator;
      if current.None? then
        Ok((WithOperator(f, w, op), e))
      else if Less(current.value, op) then
        Regroup(f, e, op)
      else if Less(op, current.value) then
        NodeClosed(f, w);
        match f.nodes[w].parent
        case Some(p) =>
          if fuel == 0 then Err(RecursionLimitExceeded)
          else AddOperator(f, p, element, fuel - 1)
        case None =>
          Ok(NewTop(f, w, op))
      else
        Ok((f, e))
  }

  /**
    The tighter-binding case of `add_operator`: pop the last element of the
    working fragment w, let w create a nested group (which `add_element`
    places in w's own working fragment), make it e's working fragment, and
    give it the popped element and the operator. The group is fresh, so it
    is its own working fragment and has no operator yet: its
    `add_element` and `add_operator` calls reduce to an append and a
    recorded operator.
   */
  function Regroup(f: Forest, e: NodeId, op: Operator): (r: Result<(Forest, NodeId), Error>)
    requires Valid(f) && IsGroup(f, e)
    ensures r.Err? <==> |f.nodes[Working(f, e)].elements| == 0
    ensures r.Err? ==> r.error == PopFromEmptyList
    ensures r.Ok? ==> Valid(r.value.0) && Grows(f, r.value.0) && r.value.1 == e
    ensures r.Ok? ==> Regrouped(f, e, op, r.value.0)
  {
    var w := Working(f, e);
    var elements := f.nodes[w].elements;
    if |elements| == 0 then Err(PopFromEmptyList)
    else
      var last := elements[|elements| - 1];
      NodeClosed(f, w);
      assert last in f.nodes;
      var f1 := WithElements(f, w, elements[..|elements| - 1]);
      var (f2, sub) := NewExpression(f1);
      var f3 := Append(f2, w, sub);
      var f4 := WithWorking(f3, e, sub);
      var f5 := Append(f4, sub, last);
      var f6 := WithOperator(f5, sub, op);
      GrowsTransitive(f, f1, f2);
      GrowsTransitive(f, f2, f3);
      GrowsTransitive(f, f3, f4);
      GrowsTransitive(f, f4, f5);
      GrowsTransitive(f, f5, f6);
      RegroupSteps(f, e, op, f1, f2, sub, f3, f4, f5, f6);
      Ok((f6, e))
  }

  /** The steps of the tighter-binding case, one node at a time, give the state `Regrouped` describes. */
  lemma RegroupSteps(f: Forest, e: NodeId, op: Operator, f1: Forest, f2: Forest, sub: NodeId, f3: Forest, f4: Forest, f5: Forest, g: Forest)
    requires Valid(f) && IsGroup(f, e) && |f.nodes[Working(f, e)].elements| > 0
    requires var w := Working(f, e);
      var elements := f.nodes[w].elements;
      && (forall x | x in elements :: x in f.nodes)
      && f1 == WithElements(f, w, elements[..|elements| - 1])
      && (f2, sub) == NewExpression(f1)
      && f3 == Append(f2, w, sub)
      && f4 == WithWorking(f3, e, sub)
      && f5 == Append(f4, sub, elements[|elements| - 1])
      && g == WithOperator(f5, sub, op)
    ensures Regrouped(f, e, op, g)
  {
    var w := Working(f, e);
    var v := Working(f, w);
    var elements := f.nodes[w].elements;
    NextIsFresh(f);
    var last := elements[|elements| - 1];
    RegroupMoves(f, w, v, elements[..|elements| - 1], f1, f2, sub, f3);
    RegroupReattaches(f3, e, last, sub, v, op, f4, f5, g);
    forall i | i in f.nodes ensures SameExcept(f.nodes[i], g.nodes[i], i == w || i == v, i == e, i == last) {
      SameExceptThen(f.nodes[i], f3.nodes[i], g.nodes[i], i == w || i == v, i == e, i == last);
    }
  }

  /** A change of some fields followed by a change of others changes at most both. */
  lemma SameExceptThen(a: Node, b: Node, c: Node, elements: bool, working: bool, parent: bool)
    requires SameExcept(a, b, elements, false, false) && SameExcept(b, c, false, working, parent)
    ensures SameExcept(a, c, elements, working, parent)
  {
  }

  /**
    The first half of the tighter-binding case: w loses its last element, a
    new empty group is appended to w's working fragment v.
   */
  lemma RegroupMoves(f: Forest, w: NodeId, v: NodeId, kept: seq<NodeId>, f1: Forest, f2: Forest, sub: NodeId, f3: Forest)
    requires Valid(f) && IsGroup(f, w) && v == Working(f, w) && forall x | x in kept :: x in f.nodes
    requires f.next !in f.nodes
    requires f1 == WithElements(f, w, kept) && (f2, sub) == NewExpression(f1) && f3 == Append(f2, w, sub)
    ensures sub == f.next && f3.next == f.next + 1 && f3.nodes.Keys == f.nodes.Keys + {sub}
    ensures f3.nodes[sub] == Group([], None, Some(v), sub)
    ensures IsGroup(f3, w) && f3.nodes[w].elements == (if v == w then kept + [sub] else kept)
    ensures IsGroup(f3, v) && (v != w ==> f3.nodes[v].elements == f.nodes[v].elements + [sub])
    ensures forall i | i in f.nodes && i != w && i != v :: f3.nodes[i] == f.nodes[i]
    ensures forall i | i in f.nodes :: SameExcept(f.nodes[i], f3.nodes[i], i == w || i == v, false, false)
  {
    assert Working(f2, w) == v;
  }

  /**
    The second half: e works in the new group `sub`, which receives the
    moved element and the operator; only e, the moved element and `sub` change.
   */
  lemma RegroupReattaches(f3: Forest, e: NodeId, last: NodeId, sub: NodeId, v: NodeId, op: Operator, f4: Forest, f5: Forest, g: Forest)
    requires Valid(f3) && IsGroup(f3, e) && last in f3.nodes && last != sub
    requires sub in f3.nodes && f3.nodes[sub] == Group([], None, Some(v), sub)
    requires f4 == WithWorking(f3, e, sub) && f5 == Append(f4, sub, last) && g == WithOperator(f5, sub, op)
    ensures g.next == f3.next && g.nodes.Keys == f3.nodes.Keys
    ensures g.nodes[sub] == Group([last], Some(op), Some(v), sub)
    ensures IsGroup(g, e) && g.nodes[e].working == sub && g.nodes[last].parent == Some(sub)
    ensures forall i | i in f3.nodes && i != sub && f3.nodes[i].Group? :: g.nodes[i].Group? && g.nodes[i].elements == f3.nodes[i].elements
    ensures forall i | i in f3.nodes && i != sub && i != e && i != last :: g.nodes[i] == f3.nodes[i]
    ensures forall i | i in f3.nodes && i != sub :: SameExcept(f3.nodes[i], g.nodes[i], false, i == e, i == last)
  {
    assert Working(f4, sub) == sub;
  }

  /**
    g is f after the tighter-binding case of `add_operator` on e's working
    fragment w, whose own working fragment is v: one node is added, a group
    `sub` (the old `next`) holding only the last element of w, with the new
    operator, placed in v; w has lost its last element (and, when w is v,
    gained `sub` in its place); v has gained `sub` at its end; e works in
    `sub`; the moved element has `sub` as its parent; no other node changes,
    and the changed nodes keep every other field (`SameExcept`).
   */
  ghost predicate Regrouped(f: Forest, e: NodeId, op: Operator, g: Forest)
    requires Valid(f) && IsGroup(f, e) && |f.nodes[Working(f, e)].elements| > 0
  {
    var w := Working(f, e);
    var v := Working(f, w);
    var elements := f.nodes[w].elements;
    var last := elements[|elements| - 1];
    var sub := f.next;
    && g.next == f.next + 1
    && g.nodes.Keys == f.nodes.Keys + {sub}
    && g.nodes[sub] == Group([last], Some(op), Some(v), sub)
    && IsGroup(g, e) && g.nodes[e].working == sub
    && last in g.nodes && g.nodes[last].parent == Some(sub)
    && IsGroup(g, w) && g.nodes[w].elements == (if v == w then elements[..|elements| - 1] + [sub] else elements[..|elements| - 1])
    && IsGroup(g, v) && (v != w ==> g.nodes[v].elements == f.nodes[v].elements + [sub])
    && (forall i | i in f.nodes && i != w && i != v && i != e && i != last :: g.nodes[i] == f.nodes[i])
    && (forall i | i in f.nodes :: SameExcept(f.nodes[i], g.nodes[i], i == w || i == v, i == e, i == last))
  }

  /**
    Node b is node a with at most the named fields changed: its elements,
    its working fragment, its parent. Its kind, its constraint and its
    operator are always kept.
   */
  predicate SameExcept(a: Node, b: Node, elements: bool, working: bool, parent: bool) {
    && a.Leaf? == b.Leaf?
    && (a.Leaf? ==> a.constraint == b.constraint)
    && (!parent ==> a.parent == b.parent)
    && (a.Group? ==> a.operator == b.operator
                     && (!elements ==> a.elements == b.elements)
                     && (!working ==> a.working == b.working))
  }

  /** The looser-binding case at the top: a new group holding w, with the operator. */
  function NewTop(f: Forest, w: NodeId, op: Operator): (r: (Forest, NodeId))
    requires Valid(f) && IsGroup(f, w)
    ensures Valid(r.0) && Grows(f, r.0) && IsGroup(r.0, r.1) && r.1 !in f.nodes
    ensures r.1 == f.next && r.0.next == f.next + 1 && r.0.nodes.Keys == f.nodes.Keys + {r.1}
    ensures r.0.nodes[r.1] == Group([w], Some(op), None, r.1)
    ensures r.0.nodes[w] == f.nodes[w].(parent := Some(r.1))
    ensures forall i | i in f.nodes && i != w :: r.0.nodes[i] == f.nodes[i]
  {
    var (f1, top) := NewExpression(f);
    assert Working(f1, top) == top;
    var f2 := Append(f1, top, w);
    var f3 := WithOperator(f2, top, op);
    GrowsTransitive(f, f1, f2);
    GrowsTransitive(f, f2, f3);
    (f3, top)
  }

  /** `create_nested_expression`: a new group appended to the working fragment, and returned. */
  function CreateNestedExpression(f: Forest, e: NodeId): (r: (Forest, NodeId))
    requires Valid(f) && IsGroup(f, e)
    ensures Valid(r.0) && Grows(f, r.0) && IsGroup(r.0, r.1) && r.1 !in f.nodes
    ensures var w := Working(f, e);
      && r.0.nodes[r.1] == Group([], None, Some(w), r.1)
      && r.0.nodes[w].elements == f.nodes[w].elements + [r.1]
      && forall i | i in f.nodes && i != w :: r.0.nodes[i] == f.nodes[i]
  {
    var (f1, sub) := NewExpression(f);
    GrowsTransitive(f, f1, Append(f1, e, sub));
    (Append(f1, e, sub), sub)
  }

  // ---------------------------------------------------------------------------
  // op_and / op_or
  // ---------------------------------------------------------------------------

  /** Every node among the elements is in the arena. */
  predicate AllLive(f: Forest, elements: seq<Element>) {
    forall i | 0 <= i < |elements| :: elements[i].NodeRef? ==> elements[i].id in f.nodes
  }

  lemma AllLiveGrows(f: Forest, g: Forest, elements: seq<Element>)
    requires AllLive(f, elements) && Grows(f, g)
    ensures AllLive(g, elements)
  {
  }

  /**
    The loop of `op_and` and `op_or`: each element is added to e in turn,
    what `add_element` returns is dropped, and the first failure stops the
    loop with the elements before it already added.
   */
  function AddEach(f: Forest, e: NodeId, elements: seq<Element>, fuel: nat): (r: (Forest, Option<Error>))
    requires Valid(f) && IsGroup(f, e) && AllLive(f, elements)
    ensures Valid(r.0) && Grows(f, r.0)
    ensures (exists i | 0 <= i < |elements| :: elements[i].Foreign?) ==> r.1.Some?
    decreases |elements|
  {
    if elements == [] then (f, None)
    else
      match AddElement(f, e, elements[0], fuel)
      case Err(err) => (f, Some(err))
      case Ok((g, _)) =>
        AllLiveGrows(f, g, elements[1..]);
        var r := AddEach(g, e, elements[1..], fuel);
        assert forall i | 1 <= i < |elements| :: elements[i] == elements[1..][i - 1];
        GrowsTransitive(f, g, r.0);
        r
  }

  /**
    `op_and` (op = And) and `op_or` (op = Or): add the operator, then add
    each element to the expression that `add_operator` returned, which is
    itself returned. The arena after a failure keeps what was done before it.
   */
  function Connect(f: Forest, e: NodeId, op: Operator, elements: seq<Element>, fuel: nat)
    : (r: (Forest, Result<NodeId, Error>))
    requires Valid(f) && IsGroup(f, e) && AllLive(f, elements)
    ensures Valid(r.0) && Grows(f, r.0)
    ensures r.1.Ok? ==> IsGroup(r.0, r.1.value)
  {
    match AddOperator(f, e, OperatorRef(op), fuel)
    case Err(err) => (f, Err(err))
    case Ok((g, x)) =>
      AllLiveGrows(f, g, elements);
      var (h, failure) := AddEach(g, x, elements, fuel);
      GrowsTransitive(f, g, h);
      (h, if failure.Some? then Err(failure.value) else Ok(x))
  }

  /** `Constraint.op_and` / `op_or`: a new Expression connecting this constraint and the elements. */
  function ConstraintConnect(f: Forest, c: NodeId, op: Operator, elements: seq<Element>, fuel: nat)
    : (r: (Forest, Result<NodeId, Error>))
    requires Valid(f) && c in f.nodes && f.nodes[c].Leaf? && AllLive(f, elements)
    ensures Valid(r.0) && Grows(f, r.0)
  {
    var (f1, top) := NewExpression(f);
    AllLiveGrows(f, f1, elements);
    var r := Connect(f1, top, op, [NodeRef(c)] + elements, fuel);
    GrowsTransitive(f, f1, r.0);
    r
  }

  // ---------------------------------------------------------------------------
  // to_python and __str__
  // ---------------------------------------------------------------------------

  /**
    `to_python`: None for no element, the single element's value for one,
    otherwise the operator's name (AND by default) followed by the
    elements' values. `seen` holds the groups being converted further up
    the call chain; meeting one again is a recursion Python never leaves.
   */
  function ToPython(f: Forest, id: NodeId, seen: set<NodeId>): (r: Result<Value, Error>)
    requires Valid(f) && id in f.nodes
    ensures r.Err? ==> r.error == RecursionLimitExceeded
    decreases f.nodes.Keys - seen, 1
  {
    if id in seen then Err(RecursionLimitExceeded)
    else
      NodeClosed(f, id);
      match f.nodes[id]
      case Leaf(c, _) => Ok(Constraints.ToPython(c))
      case Group(elements, op, _, _) =>
        if |elements| == 0 then Ok(Nothing)
        else if |elements| == 1 then ToPython(f, elements[0], seen + {id})
        else
          var values :- ToPythonAll(f, elements, seen + {id});
          Ok(List([Text(Name(op.GetOr(And)))] + values))
  }

  function ToPythonAll(f: Forest, ids: seq<NodeId>, seen: set<NodeId>): (r: Result<seq<Value>, Error>)
    requires Valid(f) && forall x | x in ids :: x in f.nodes
    ensures r.Ok? ==> |r.value| == |ids|
    ensures r.Err? ==> r.error == RecursionLimitExceeded
    decreases f.nodes.Keys - seen, 2, |ids|
  {
    if ids == [] then Ok([])
    else
      var first :- ToPython(f, ids[0], seen);
      var rest :- ToPythonAll(f, ids[1..], seen);
      Ok([first] + rest)
  }

  /**
    `__str__`: the elements' texts joined by the operator's symbol (`;` by
    default), in parentheses exactly when the node has a parent whose
    operator (`;` by default) binds tighter than its own. `quote` is the
    form encoder the constraints use.
   */
  function ToStr(f: Forest, id: NodeId, seen: set<NodeId>, quote: string -> string): (r: Result<string, Error>)
    requires Valid(f) && id in f.nodes
    ensures r.Err? ==> r.error == RecursionLimitExceeded
    decreases f.nodes.Keys - seen, 1
  {
    if id in seen then Err(RecursionLimitExceeded)
    else
      NodeClosed(f, id);
      match f.nodes[id]
      case Leaf(c, _) => Ok(Constraints.ToStr(c, quote))
      case Group(elements, op, parent, _) =>
        var own := op.GetOr(And);
        var text :- JoinStr(f, elements, seen + {id}, Symbol(own), quote);
        if parent.Some? && Less(own, f.nodes[parent.value].operator.GetOr(And)) then
          Ok("(" + text + ")")
        else
          Ok(text)
  }

  /** The elements' texts joined by a separator. */
  function JoinStr(f: Forest, ids: seq<NodeId>, seen: set<NodeId>, separator: string, quote: string -> string)
    : (r: Result<string, Error>)
    requires Valid(f) && forall x | x in ids :: x in f.nodes
    ensures r.Err? ==> r.error == RecursionLimitExceeded
    decreases f.nodes.Keys - seen, 2, |ids|
  {
    if ids == [] then Ok("")
    else
      var first :- ToStr(f, ids[0], seen, quote);
      if |ids| == 1 then Ok(first)
      else
        var rest :- JoinStr(f, ids[1..], seen, separator, quote);
        Ok(first + separator + rest)
  }

  /** Every id is a constraint node that is not in `seen`. */
  predicate LeavesOutside(f: Forest, ids: seq<NodeId>, seen: set<NodeId>) {
    forall x | x in ids :: x in f.nodes && f.nodes[x].Leaf? && x !in seen
  }

  /** The texts of constraint nodes, in order. */
  function LeafTexts(f: Forest, ids: seq<NodeId>, quote: string -> string): (texts: seq<string>)
    requires forall x | x in ids :: x in f.nodes && f.nodes[x].Leaf?
    ensures |texts| == |ids|
    ensures forall i | 0 <= i < |ids| :: texts[i] == Constraints.ToStr(f.nodes[ids[i]].constraint, quote)
  {
    if ids == [] then [] else [Constraints.ToStr(f.nodes[ids[0]].constraint, quote)] + LeafTexts(f, ids[1..], quote)
  }

  /** The values of constraint nodes, in order. */
  function LeafValues(f: Forest, ids: seq<NodeId>): (values: seq<Value>)
    requires forall x | x in ids :: x in f.nodes && f.nodes[x].Leaf?
    ensures |values| == |ids|
    ensures forall i | 0 <= i < |ids| :: values[i] == Constraints.ToPython(f.nodes[ids[i]].constraint)
  {
    if ids == [] then [] else [Constraints.ToPython(f.nodes[ids[0]].constraint)] + LeafValues(f, ids[1..])
  }

  /** Python's `separator.join(texts)`. */
  function JoinTexts(texts: seq<string>, separator: string): string {
    if texts == [] then ""
    else if |texts| == 1 then texts[0]
    else texts[0] + separator + JoinTexts(texts[1..], separator)
  }

  /** Joining constraint nodes is joining their own texts. */
  lemma {:induction false} JoinStrLeaves(f: Forest, ids: seq<NodeId>, seen: set<NodeId>, separator: string, quote: string -> string)
    requires Valid(f) && LeavesOutside(f, ids, seen)
    ensures JoinStr(f, ids, seen, separator, quote) == Ok(JoinTexts(LeafTexts(f, ids, quote), separator))
    decreases |ids|
  {
    if ids != [] {
      assert ToStr(f, ids[0], seen, quote) == Ok(Constraints.ToStr(f.nodes[ids[0]].constraint, quote));
      if |ids| > 1 {
        JoinStrLeaves(f, ids[1..], seen, separator, quote);
      }
    }
  }

  /** Converting constraint nodes gives their own values. */
  lemma {:induction false} ToPythonAllLeaves(f: Forest, ids: seq<NodeId>, seen: set<NodeId>)
    requires Valid(f) && LeavesOutside(f, ids, seen)
    ensures ToPythonAll(f, ids, seen) == Ok(LeafValues(f, ids))
    decreases |ids|
  {
    if ids != [] {
      assert ToPython(f, ids[0], seen) == Ok(Constraints.ToPython(f.nodes[ids[0]].constraint));
      ToPythonAllLeaves(f, ids[1..], seen);
    }
  }

  /**
    An Expression with no parent whose elements are all constraints prints
    as their texts joined by its operator's symbol (`;` when it has none),
    and converts to None for no element, the one value for one, and
    otherwise the operator's name (AND when it has none) followed by the
    values, in order.
   */
  lemma FlatGroup(f: Forest, e: NodeId, quote: string -> string)
    requires Valid(f) && IsGroup(f, e) && f.nodes[e].parent.None? && LeavesOutside(f, f.nodes[e].elements, {e})
    ensures var n := f.nodes[e];
      var op := n.operator.GetOr(And);
      ToStr(f, e, {}, quote) == Ok(JoinTexts(LeafTexts(f, n.elements, quote), Symbol(op)))
    ensures var n := f.nodes[e];
      var op := n.operator.GetOr(And);
      var values := LeafValues(f, n.elements);
      ToPython(f, e, {})
        == Ok(if |values| == 0 then Nothing else if |values| == 1 then values[0] else List([Text(Name(op))] + values))
  {
    var n := f.nodes[e];
    var seen: set<NodeId> := {} + {e};
    JoinStrLeaves(f, n.elements, seen, Symbol(n.operator.GetOr(And)), quote);
    ToPythonAllLeaves(f, n.elements, seen);
    if |n.elements| == 1 {
      assert ToPython(f, n.elements[0], seen) == Ok(Constraints.ToPython(f.nodes[n.elements[0]].constraint));
    }
  }

  /**
    An Expression with no parent that holds one constraint prints as that
    constraint and converts to that constraint's value, whatever its operator.
   */
  lemma SingleConstraintGroup(f: Forest, e: NodeId, x: NodeId, quote: string -> string)
    requires Valid(f) && IsGroup(f, e) && f.nodes[e].elements == [x] && f.nodes[e].parent.None?
    requires x in f.nodes && f.nodes[x].Leaf?
    ensures ToStr(f, e, {}, quote) == Ok(Constraints.ToStr(f.nodes[x].constraint, quote))
    ensures ToPython(f, e, {}) == Ok(Constraints.ToPython(f.nodes[x].constraint))
  {
    var c := f.nodes[x].constraint;
    var seen: set<NodeId> := {} + {e};
    assert ToStr(f, x, seen, quote) == Ok(Constraints.ToStr(c, quote));
    assert JoinStr(f, [x], seen, Symbol(f.nodes[e].operator.GetOr(And)), quote) == Ok(Constraints.ToStr(c, quote));
  }

  /**
    An Expression with no parent that holds two constraints prints as their
    texts joined by its operator's symbol, and converts to its operator's
    name followed by their values.
   */
  lemma TwoConstraintGroup(f: Forest, e: NodeId, x: NodeId, y: NodeId, op: Operator, quote: string -> string)
    requires Valid(f) && IsGroup(f, e) && f.nodes[e].elements == [x, y]
    requires f.nodes[e].operator == Some(op) && f.nodes[e].parent.None?
    requires x in f.nodes && f.nodes[x].Leaf? && y in f.nodes && f.nodes[y].Leaf?
    ensures ToStr(f, e, {}, quote)
            == Ok(Constraints.ToStr(f.nodes[x].constraint, quote) + Symbol(op) + Constraints.ToStr(f.nodes[y].constraint, quote))
    ensures ToPython(f, e, {})
            == Ok(List([Text(Name(op)), Constraints.ToPython(f.nodes[x].constraint), Constraints.ToPython(f.nodes[y].constraint)]))
  {
    var cx, cy := f.nodes[x].constraint, f.nodes[y].constraint;
    var seen: set<NodeId> := {} + {e};
    assert [x, y][1..] == [y];
    assert ToStr(f, y, seen, quote) == Ok(Constraints.ToStr(cy, quote));
    assert JoinStr(f, [y], seen, Symbol(op), quote) == Ok(Constraints.ToStr(cy, quote));
    assert ToStr(f, x, seen, quote) == Ok(Constraints.ToStr(cx, quote));
    assert JoinStr(f, [x, y], seen, Symbol(op), quote)
           == Ok(Constraints.ToStr(cx, quote) + Symbol(op) + Constraints.ToStr(cy, quote));
    assert ToPython(f, y, seen) == Ok(Constraints.ToPython(cy));
    assert ToPython(f, x, seen) == Ok(Constraints.ToPython(cx));
    assert [y][0] == y && [y][1..] == [] && [x, y][0] == x;
    assert ToPythonAll(f, [y][1..], seen) == Ok([]);
    assert [Constraints.ToPython(cy)] + [] == [Constraints.ToPython(cy)];
    assert ToPythonAll(f, [y], seen) == Ok([Constraints.ToPython(cy)]);
    var vx, vy := Constraints.ToPython(cx), Constraints.ToPython(cy);
    assert [vx] + [vy] == [vx, vy] && [Text(Name(op))] + [vx, vy] == [Text(Name(op)), vx, vy];
    assert ToPythonAll(f, [x, y], seen) == Ok([vx, vy]);
  }

  // ---------------------------------------------------------------------------
  // What add_operator does, case by case
  // ---------------------------------------------------------------------------

  /** No operator on the working fragment yet: the operator is recorded there, and nothing else changes. */
  lemma AddOperatorRecords(f: Forest, e: NodeId, op: Operator, fuel: nat)
    requires Valid(f) && IsGroup(f, e) && f.nodes[Working(f, e)].operator.None?
    ensures var w := Working(f, e);
      AddOperator(f, e, OperatorRef(op), fuel)
      == Ok((Forest(f.nodes[w := f.nodes[w].(operator := Some(op))], f.next), e))
  {
  }

  /** An operator of the working fragment's own precedence changes nothing. */
  lemma AddOperatorSamePrecedence(f: Forest, e: NodeId, op: Operator, fuel: nat)
    requires Valid(f) && IsGroup(f, e) && f.nodes[Working(f, e)].operator == Some(op)
    ensures AddOperator(f, e, OperatorRef(op), fuel) == Ok((f, e))
  {
  }

  /** A tighter operator on a working fragment without elements finds nothing to pop. */
  lemma AddOperatorTighterEmpty(f: Forest, e: NodeId, op: Operator, fuel: nat)
    requires Valid(f) && IsGroup(f, e)
    requires var w := Working(f, e);
      && f.nodes[w].operator.Some? && Less(f.nodes[w].operator.value, op)
      && f.nodes[w].elements == []
    ensures AddOperator(f, e, OperatorRef(op), fuel) == Err(PopFromEmptyList)
  {
  }

  /**
    A tighter operator: the last element of the working fragment w moves
    into a new group, which holds only that element and the new operator,
    is placed at the end of w's own working fragment, and becomes e's
    working fragment; the receiver is returned and no other node changes
    (`Regrouped`).
   */
  lemma AddOperatorTighter(f: Forest, e: NodeId, op: Operator, fuel: nat)
    requires Valid(f) && IsGroup(f, e)
    requires var w := Working(f, e);
      && f.nodes[w].operator.Some? && Less(f.nodes[w].operator.value, op)
      && f.nodes[w].elements != []
    ensures var r := AddOperator(f, e, OperatorRef(op), fuel);
      r.Ok? && r.value.1 == e && Regrouped(f, e, op, r.value.0)
  {
    assert AddOperator(f, e, OperatorRef(op), fuel) == Regroup(f, e, op);
  }

  /**
    A looser operator on a working fragment w without parent: a new top
    group holding only w, now w's parent, with the operator, is returned.
   */
  lemma AddOperatorLooserAtTop(f: Forest, e: NodeId, op: Operator, fuel: nat)
    requires Valid(f) && IsGroup(f, e)
    requires var w := Working(f, e);
      && f.nodes[w].operator.Some? && Less(op, f.nodes[w].operator.value)
      && f.nodes[w].parent.None?
    ensures var w := Working(f, e);
      var top := f.next;
      var r := AddOperator(f, e, OperatorRef(op), fuel);
      && r.Ok? && r.value.1 == top && top !in f.nodes
      && r.value.0.next == f.next + 1 && r.value.0.nodes.Keys == f.nodes.Keys + {top}
      && r.value.0.nodes[top] == Group([w], Some(op), None, top)
      && r.value.0.nodes[w] == f.nodes[w].(parent := Some(top))
      && forall i | i in f.nodes && i != w :: r.value.0.nodes[i] == f.nodes[i]
  {
    var w := Working(f, e);
    NextIsFresh(f);
    var (f1, top) := NewExpression(f);
    assert Working(f1, top) == top;
    var f2 := Append(f1, top, w);
    var f3 := WithOperator(f2, top, op);
    assert NewTop(f, w, op) == (f3, top);
  }

  /**
    The upward recursion need not end: when the working fragment's parent
    is the receiver itself and the operator binds looser than the
    fragment's, every call repeats on the same receiver, so no recursion
    limit is enough. Parsing `a,b;c,d` reaches this state.
   */
  lemma {:induction false} AddOperatorClimbsForever(f: Forest, e: NodeId, op: Operator, fuel: nat)
    requires Valid(f) && IsGroup(f, e)
    requires var w := Working(f, e);
      && f.nodes[w].parent == Some(e)
      && f.nodes[w].operator.Some? && Less(op, f.nodes[w].operator.value)
    ensures AddOperator(f, e, OperatorRef(op), fuel) == Err(RecursionLimitExceeded)
    decreases fuel
  {
    if fuel > 0 {
      AddOperatorClimbsForever(f, e, op, fuel - 1);
    }
  }

  // ---------------------------------------------------------------------------
  // Parents, and the expressions the fluent API builds
  // ---------------------------------------------------------------------------

  /** A parent that was set is the parent that is got; a new node has none. */
  lemma SetThenGetParent(f: Forest, id: NodeId, p: NodeId)
    requires Valid(f) && id in f.nodes && IsGroup(f, p)
    ensures SetParent(f, id, NodeRef(p)).Ok?
    ensures GetParent(SetParent(f, id, NodeRef(p)).value, id) == Ok(p)
  {
  }

  lemma NewNodesHaveNoParent(f: Forest, selector: string, comparison: Option<string>, argument: Option<string>)
    requires Valid(f)
    ensures GetParent(NewExpression(f).0, NewExpression(f).1) == Err(InvalidParent)
    ensures var r := NewConstraint(f, selector, comparison, argument);
      r.Ok? ==> GetParent(r.value.0, r.value.1) == Err(InvalidParent)
  {
  }

  /** Every element is a node, not yet among e's elements' owners. */
  predicate NodesOnly(elements: seq<Element>) {
    forall i | 0 <= i < |elements| :: elements[i].NodeRef?
  }

  function Ids(elements: seq<Element>): (ids: seq<NodeId>)
    requires NodesOnly(elements)
    ensures |ids| == |elements| && forall i | 0 <= i < |ids| :: elements[i] == NodeRef(ids[i])
  {
    if elements == [] then [] else [elements[0].id] + Ids(elements[1..])
  }

  /**
    g is f with the nodes ids appended to group t, in order, t the parent
    of each of them, and every other node as it was.
   */
  predicate AppendedAll(f: Forest, g: Forest, t: NodeId, ids: seq<NodeId>)
    requires IsGroup(f, t)
  {
    && t in g.nodes
    && g.nodes[t] == f.nodes[t].(elements := f.nodes[t].elements + ids)
    && (forall x | x in ids :: x in g.nodes && g.nodes[x].parent == Some(t))
    && (forall i | i in f.nodes && i != t && i !in ids :: i in g.nodes && g.nodes[i] == f.nodes[i])
  }

  lemma AppendedAllStep(f: Forest, g: Forest, h: Forest, t: NodeId, x: NodeId, ids: seq<NodeId>)
    requires IsGroup(f, t) && t != x && t !in ids
    requires AppendedAll(f, g, t, [x]) && AppendedAll(g, h, t, ids)
    ensures AppendedAll(f, h, t, [x] + ids)
  {
    assert f.nodes[t].elements + [x] + ids == f.nodes[t].elements + ([x] + ids);
  }

  /**
    Adding nodes one by one to a group that is its own working fragment
    appends them all, in order, and makes it the parent of each.
   */
  lemma {:induction false} AddEachNodes(f: Forest, t: NodeId, elements: seq<Element>, fuel: nat)
    requires Valid(f) && IsGroup(f, t) && Working(f, t) == t && AllLive(f, elements)
    requires NodesOnly(elements) && t !in Ids(elements)
    ensures AddEach(f, t, elements, fuel).1.None?
    ensures AppendedAll(f, AddEach(f, t, elements, fuel).0, t, Ids(elements))
    decreases |elements|
  {
    if elements == [] {
      assert f.nodes[t].elements + [] == f.nodes[t].elements;
    } else {
      var x := elements[0].id;
      var rest := elements[1..];
      var g := Append(f, t, x);
      assert AddElement(f, t, elements[0], fuel) == Ok((g, t));
      assert AddEach(f, t, elements, fuel) == AddEach(g, t, rest, fuel);
      assert Ids(elements) == [x] + Ids(rest);
      assert AppendedAll(f, g, t, [x]);
      AllLiveGrows(f, g, rest);
      assert NodesOnly(rest);
      AddEachNodes(g, t, rest, fuel);
      AppendedAllStep(f, g, AddEach(g, t, rest, fuel).0, t, x, Ids(rest));
    }
  }

  /**
    g holds a new group `top` (absent from f) with no parent, the given
    elements in order and operator op; it is the parent of each element,
    and every other node of f is unchanged.
   */
  predicate NewGroupOf(f: Forest, g: Forest, top: NodeId, ids: seq<NodeId>, op: Operator) {
    && top !in f.nodes && top in g.nodes
    && g.nodes[top] == Group(ids, Some(op), None, top)
    && (forall x | x in ids :: x in g.nodes && g.nodes[x].parent == Some(top))
    && (forall i | i in f.nodes && i !in ids :: i in g.nodes && g.nodes[i] == f.nodes[i])
  }

  /**
    `Constraint.op_and` / `op_or` with nodes: a new Expression, returned,
    whose elements are the constraint then the nodes, in order, whose
    operator is the one asked for, and which is the parent of each of them.
   */
  lemma ConstraintConnectBuildsGroup(f: Forest, c: NodeId, op: Operator, elements: seq<Element>, fuel: nat)
    requires Valid(f) && c in f.nodes && f.nodes[c].Leaf? && AllLive(f, elements) && NodesOnly(elements)
    ensures var r := ConstraintConnect(f, c, op, elements, fuel);
      r.1 == Ok(f.next) && NewGroupOf(f, r.0, f.next, [c] + Ids(elements), op)
  {
    var (f1, top) := NewExpression(f);
    var all := [NodeRef(c)] + elements;
    IdsCons(c, elements);
    IdsLive(f, all);
    ConstraintConnectIsConnect(f, c, op, elements, fuel);
    ConnectFresh(f1, top, op, all, fuel);
    NewGroupFromAppended(f, WithOperator(f1, top, op), Connect(f1, top, op, all, fuel).0, top, Ids(all), op);
  }

  lemma IdsCons(c: NodeId, elements: seq<Element>)
    requires NodesOnly(elements)
    ensures NodesOnly([NodeRef(c)] + elements) && Ids([NodeRef(c)] + elements) == [c] + Ids(elements)
  {
    assert ([NodeRef(c)] + elements)[1..] == elements;
  }

  lemma ConstraintConnectIsConnect(f: Forest, c: NodeId, op: Operator, elements: seq<Element>, fuel: nat)
    requires Valid(f) && c in f.nodes && f.nodes[c].Leaf? && AllLive(f, elements)
    ensures var (f1, top) := NewExpression(f);
      AllLive(f1, [NodeRef(c)] + elements)
      && ConstraintConnect(f, c, op, elements, fuel) == Connect(f1, top, op, [NodeRef(c)] + elements, fuel)
  {
  }

  lemma IdsLive(f: Forest, elements: seq<Element>)
    requires AllLive(f, elements) && NodesOnly(elements)
    ensures forall x | x in Ids(elements) :: x in f.nodes
  {
    forall x | x in Ids(elements) ensures x in f.nodes {
      var i :| 0 <= i < |Ids(elements)| && Ids(elements)[i] == x;
      assert elements[i] == NodeRef(x);
    }
  }

  /** op_and / op_or on a fresh Expression: the operator is recorded and the nodes appended. */
  lemma ConnectFresh(f: Forest, top: NodeId, op: Operator, elements: seq<Element>, fuel: nat)
    requires Valid(f) && IsGroup(f, top) && Working(f, top) == top && f.nodes[top].operator.None?
    requires AllLive(f, elements) && NodesOnly(elements) && top !in Ids(elements)
    ensures Connect(f, top, op, elements, fuel).1 == Ok(top)
    ensures AppendedAll(WithOperator(f, top, op), Connect(f, top, op, elements, fuel).0, top, Ids(elements))
  {
    var g := WithOperator(f, top, op);
    assert AddOperator(f, top, OperatorRef(op), fuel) == Ok((g, top));
    AllLiveGrows(f, g, elements);
    AddEachNodes(g, top, elements, fuel);
  }

  lemma NewGroupFromAppended(f: Forest, f2: Forest, h: Forest, top: NodeId, ids: seq<NodeId>, op: Operator)
    requires top !in f.nodes && f2.nodes == f.nodes[top := Group([], Some(op), None, top)]
    requires AppendedAll(f2, h, top, ids)
    ensures NewGroupOf(f, h, top, ids, op)
  {
    assert [] + ids == ids;
  }
}
