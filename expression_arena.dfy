/**
  The Python objects of an expression tree, changed in place. An `Arena`
  holds every Constraint and Expression object by identity; its methods
  perform the steps the Python methods perform, one field update at a
  time, and each is proved to leave the arena exactly as the function of
  the same name in `Expressions` says.
 */
module ExpressionArena {
  import opened Wrappers
  import opened Errors
  import opened Operators
  import opened Constraints
  import opened Expressions

  /**
    A method with outcome `spec` behaved as specified: on success the arena
    became the new state and the returned object is the one specified; on
    failure the arena is as it was and the same error is returned.
   */
  predicate Performs(spec: Result<(Forest, NodeId), Error>, before: Forest, after: Forest, r: Result<NodeId, Error>) {
    match spec
    case Ok((g, x)) => after == g && r == Ok(x)
    case Err(err) => after == before && r == Err(err)
  }

  class Arena {
    var nodes: map<NodeId, Node>
    var next: NodeId

    /** The arena as a value, the state the specification functions take. */
    function State(): Forest
      reads this
    {
      Forest(nodes, next)
    }

    constructor ()
      ensures State() == Forest(map[], 0) && Valid(State())
    {
      nodes := map[];
      next := 0;
    }

    // -------------------------------------------------------------------------
    // Single-field updates
    // -------------------------------------------------------------------------

    method SetParentField(id: NodeId, p: NodeId)
      requires Valid(State()) && id in nodes && IsGroup(State(), p)
      modifies this
      ensures State() == WithParent(old(State()), id, p)
    {
      nodes := nodes[id := nodes[id].(parent := Some(p))];
    }

    method SetElements(id: NodeId, elements: seq<NodeId>)
      requires Valid(State()) && IsGroup(State(), id) && forall x | x in elements :: x in nodes
      modifies this
      ensures State() == WithElements(old(State()), id, elements)
    {
      nodes := nodes[id := nodes[id].(elements := elements)];
    }

    method SetOperator(id: NodeId, op: Operator)
      requires Valid(State()) && IsGroup(State(), id)
      modifies this
      ensures State() == WithOperator(old(State()), id, op)
    {
      nodes := nodes[id := nodes[id].(operator := Some(op))];
    }

    method SetWorking(id: NodeId, w: NodeId)
      requires Valid(State()) && IsGroup(State(), id) && IsGroup(State(), w)
      modifies this
      ensures State() == WithWorking(old(State()), id, w)
    {
      nodes := nodes[id := nodes[id].(working := w)];
    }

    // -------------------------------------------------------------------------
    // Construction, parents
    // -------------------------------------------------------------------------

    /** `Expression()`. */
    method NewExpression() returns (e: NodeId)
      requires Valid(State())
      modifies this
      ensures (State(), e) == Expressions.NewExpression(old(State()))
    {
      e := next;
      nodes := nodes[e := Group([], None, None, e)];
      next := next + 1;
    }

    /** `Constraint(selector, comparison, argument)`. */
    method NewConstraint(selector: string, comparison: Option<string>, argument: Option<string>)
      returns (r: Result<NodeId, Error>)
      requires Valid(State())
      modifies this
      ensures Performs(Expressions.NewConstraint(old(State()), selector, comparison, argument), old(State()), State(), r)
    {
      if comparison.Some? && comparison.value != "" && !Grammar.MatchesComparisonPattern(comparison.value) {
        return Err(InvalidComparison(comparison.value));
      }
      var id := next;
      nodes := nodes[id := Leaf(Constraint(selector, comparison, argument), None)];
      next := next + 1;
      return Ok(id);
    }

    /** `set_parent`. */
    method SetParent(id: NodeId, parent: Element) returns (error: Option<Error>)
      requires Valid(State()) && id in nodes
      modifies this
      ensures match Expressions.SetParent(old(State()), id, parent)
        case Ok(g) => State() == g && error.None?
        case Err(err) => State() == old(State()) && error == Some(err)
    {
      if !(parent.NodeRef? && IsGroup(State(), parent.id)) {
        return Some(InvalidParent);
      }
      SetParentField(id, parent.id);
      return None;
    }

    /** `get_parent`. */
    method GetParent(id: NodeId) returns (r: Result<NodeId, Error>)
      requires Valid(State()) && id in nodes
      ensures r == Expressions.GetParent(State(), id)
    {
      if nodes[id].parent.None? {
        return Err(InvalidParent);
      }
      return Ok(nodes[id].parent.value);
    }

    /** `has_constraint`. */
    method HasConstraint(e: NodeId) returns (b: bool)
      requires IsGroup(State(), e)
      ensures b == Expressions.HasConstraint(State(), e)
    {
      return |nodes[e].elements| > 0;
    }

    // -------------------------------------------------------------------------
    // Adding elements and operators
    // -------------------------------------------------------------------------

    /** The node branch of `add_element`: the parent is set, then the node appended. */
    method Append(e: NodeId, x: NodeId)
      requires Valid(State()) && IsGroup(State(), e) && x in nodes
      modifies this
      ensures State() == Expressions.Append(old(State()), e, x)
    {
      var w := Working(State(), e);
      SetParentField(x, w);
      NodeClosed(State(), w);
      SetElements(w, nodes[w].elements + [x]);
    }

    /** `add_element`. */
    method AddElement(e: NodeId, element: Element, fuel: nat) returns (r: Result<NodeId, Error>)
      requires Valid(State()) && IsGroup(State(), e) && (element.NodeRef? ==> element.id in nodes)
      modifies this
      ensures Performs(Expressions.AddElement(old(State()), e, element, fuel), old(State()), State(), r)
    {
      if element.NodeRef? {
        Append(e, element.id);
        return Ok(e);
      }
      r := AddOperator(e, element, fuel);
    }

    /** `add_operator`; each upward step spends one unit of fuel. */
    method AddOperator(e: NodeId, element: Element, fuel: nat) returns (r: Result<NodeId, Error>)
      requires Valid(State()) && IsGroup(State(), e)
      modifies this
      ensures Performs(Expressions.AddOperator(old(State()), e, element, fuel), old(State()), State(), r)
      decreases fuel
    {
      if !element.OperatorRef? {
        return Err(InvalidElementType);
      }
      var op := element.op;
      var w := Working(State(), e);
      var current := nodes[w].operator;
      if current.None? {
        SetOperator(w, op);
        return Ok(e);
      } else if Less(current.value, op) {
        r := Regroup(e, op);
      } else if Less(op, current.value) {
        NodeClosed(State(), w);
        match nodes[w].parent
        case Some(p) =>
          if fuel == 0 {
            return Err(RecursionLimitExceeded);
          }
          r := AddOperator(p, element, fuel - 1);
        case None =>
          var top := NewTop(w, op);
          return Ok(top);
      } else {
        return Ok(e);
      }
    }

    /** The tighter-binding case of `add_operator`. */
    method Regroup(e: NodeId, op: Operator) returns (r: Result<NodeId, Error>)
      requires Valid(State()) && IsGroup(State(), e)
      modifies this
      ensures Performs(Expressions.Regroup(old(State()), e, op), old(State()), State(), r)
    {
      var w := Working(State(), e);
      var elements := nodes[w].elements;
      if |elements| == 0 {
        return Err(PopFromEmptyList);
      }
      var last := elements[|elements| - 1];
      NodeClosed(State(), w);
      SetElements(w, elements[..|elements| - 1]);
      var sub := CreateNestedExpression(w);
      SetWorking(e, sub);
      Append(sub, last);
      SetOperator(sub, op);
      return Ok(e);
    }

    /** The looser-binding case at the top: `Expression().add_element(w).add_operator(op)`. */
    method NewTop(w: NodeId, op: Operator) returns (top: NodeId)
      requires Valid(State()) && IsGroup(State(), w)
      modifies this
      ensures (State(), top) == Expressions.NewTop(old(State()), w, op)
    {
      top := NewExpression();
      Append(top, w);
      SetOperator(top, op);
    }

    /** `create_nested_expression`. */
    method CreateNestedExpression(e: NodeId) returns (sub: NodeId)
      requires Valid(State()) && IsGroup(State(), e)
      modifies this
      ensures (State(), sub) == Expressions.CreateNestedExpression(old(State()), e)
    {
      sub := NewExpression();
      Append(e, sub);
    }

    // -------------------------------------------------------------------------
    // op_and / op_or
    // -------------------------------------------------------------------------

    /**
      `op_and` (op = And) and `op_or` (op = Or): the operator, then each
      element in turn, on the expression `add_operator` returned. A failure
      leaves the elements added before it in place.
     */
    method Connect(e: NodeId, op: Operator, elements: seq<Element>, fuel: nat) returns (r: Result<NodeId, Error>)
      requires Valid(State()) && IsGroup(State(), e) && AllLive(State(), elements)
      modifies this
      ensures (State(), r) == Expressions.Connect(old(State()), e, op, elements, fuel)
    {
      var a := AddOperator(e, OperatorRef(op), fuel);
      if a.Err? {
        return Err(a.error);
      }
      var x := a.value;
      AllLiveGrows(old(State()), State(), elements);
      ghost var start := State();
      var i := 0;
      while i < |elements|
        invariant 0 <= i <= |elements|
        invariant Valid(State()) && IsGroup(State(), x) && Grows(start, State())
        invariant AllLive(State(), elements[i..])
        invariant AddEach(start, x, elements, fuel) == AddEach(State(), x, elements[i..], fuel)
      {
        ghost var before := State();
        var b := AddElement(x, elements[i], fuel);
        if b.Err? {
          return Err(b.error);
        }
        assert elements[i..][1..] == elements[i + 1..];
        AllLiveGrows(before, State(), elements[i + 1..]);
        GrowsTransitive(start, before, State());
        i := i + 1;
      }
      return Ok(x);
    }

    /** `Constraint.op_and` / `op_or`: a new Expression connecting the constraint and the elements. */
    method ConstraintConnect(c: NodeId, op: Operator, elements: seq<Element>, fuel: nat) returns (r: Result<NodeId, Error>)
      requires Valid(State()) && c in nodes && nodes[c].Leaf? && AllLive(State(), elements)
      modifies this
      ensures (State(), r) == Expressions.ConstraintConnect(old(State()), c, op, elements, fuel)
    {
      var top := NewExpression();
      AllLiveGrows(old(State()), State(), [NodeRef(c)] + elements);
      r := Connect(top, op, [NodeRef(c)] + elements, fuel);
    }
  }
}
