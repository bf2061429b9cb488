/**
  The objects of the single-module parser, changed in place, and its parse
  loop over them. Each method performs the field updates of the Python
  method of the same name and is proved to leave the objects as the
  function of that name in `Legacy` says.
 */
module LegacyObjects {
  import opened Wrappers
  import opened Errors
  import Operators
  import Constraints
  import Parser
  import opened Legacy

  /** Every Constraint and Expression object, by identity. */
  class Objects {
    var nodes: map<NodeId, Node>
    var next: NodeId

    function State(): Heap
      reads this
    {
      Heap(nodes, next)
    }

    constructor ()
      ensures State() == Heap(map[], 0) && Valid(State())
    {
      nodes := map[];
      next := 0;
    }

    /** `Expression()`. */
    method NewExpression() returns (e: NodeId)
      requires Valid(State())
      modifies this
      ensures (State(), e) == Legacy.NewExpression(old(State()))
    {
      e := next;
      nodes := nodes[e := Group([], None)];
      next := next + 1;
    }

    /** `Constraint(selector, comparison, argument)`. */
    method NewConstraint(selector: string, comparison: Option<string>, argument: Option<string>) returns (c: NodeId)
      requires Valid(State())
      modifies this
      ensures (State(), c) == Legacy.NewConstraint(old(State()), selector, comparison, argument)
    {
      c := next;
      nodes := nodes[c := Leaf(selector, comparison, argument, None)];
      next := next + 1;
    }

    /** `set_parent`. */
    method SetParent(id: NodeId, parent: Element) returns (error: Option<Error>)
      requires Valid(State()) && id in nodes
      modifies this
      ensures match Legacy.SetParent(old(State()), id, parent)
        case Ok(g) => State() == g && error.None?
        case Err(err) => State() == old(State()) && error == Some(err)
    {
      if !(parent.NodeRef? && IsGroup(State(), parent.id)) {
        return Some(InvalidParent);
      }
      nodes := nodes[id := nodes[id].(parent := Some(parent.id))];
      return None;
    }

    /** `get_parent`. */
    method GetParent(id: NodeId) returns (r: Result<NodeId, Error>)
      requires Valid(State()) && id in nodes
      ensures r == Legacy.GetParent(State(), id)
    {
      if nodes[id].parent.None? {
        return Err(InvalidParent);
      }
      return Ok(nodes[id].parent.value);
    }

    /** `has_constraint`. */
    method HasConstraint(e: NodeId) returns (b: bool)
      requires IsGroup(State(), e)
      ensures b == Legacy.HasConstraint(State(), e)
    {
      var items := nodes[e].items;
      return |items| > 0 && items[0].Ref?;
    }

    /** `add_element`: the checks, then the parent, then the append. */
    method AddElement(e: NodeId, element: Element) returns (error: Option<Error>)
      requires Valid(State()) && IsGroup(State(), e) && (element.NodeRef? ==> element.id in nodes)
      modifies this
      ensures match Legacy.AddElement(old(State()), e, element)
        case Ok(g) => State() == g && error.None?
        case Err(err) => State() == old(State()) && error == Some(err)
    {
      if element.Foreign? {
        return Some(InvalidElementType);
      }
      var items := nodes[e].items;
      if element.OperatorRef? {
        if |items| == 0 {
          return Some(OperatorBeforeConstraint);
        }
        if items[|items| - 1].Op? {
          return Some(OperatorAfterOperator);
        }
      } else {
        if |items| > 0 && items[|items| - 1].Ref? {
          return Some(OperandAfterOperand);
        }
        error := SetParent(element.id, NodeRef(e));
      }
      nodes := nodes[e := nodes[e].(items := items + [ItemOf(element)])];
      return None;
    }

    /**
      `create_nested_expression`. The new Expression exists even when
      `add_element` refuses it; it is then referenced by nothing.
     */
    method CreateNestedExpression(e: NodeId) returns (r: Result<NodeId, Error>)
      requires Valid(State()) && IsGroup(State(), e)
      modifies this
      ensures match Legacy.CreateNestedExpression(old(State()), e)
        case Ok((g, sub)) => State() == g && r == Ok(sub)
        case Err(err) => State() == Legacy.NewExpression(old(State())).0 && r == Err(err)
    {
      var sub := NewExpression();
      var error := AddElement(e, NodeRef(sub));
      if error.Some? {
        return Err(error.value);
      }
      return Ok(sub);
    }
  }

  /**
    A step of the walk behaved as specified: on success with the specified
    new state, on failure with the specified error.
   */
  predicate Reaches(spec: Result<State, Error>, now: State, error: Option<Error>) {
    match spec
    case Ok(st) => error.None? && now == st
    case Err(e) => error == Some(e)
  }

  /**
    `parse_str_to_expression`: the loop over the pieces, on objects created
    for it. On success the objects and the result are the ones `Parse`
    gives; on failure the error is.
   */
  method ParseStrToExpression(s: string, unquote: string -> string)
    returns (objects: Objects, r: Result<NodeId, Error>)
    ensures fresh(objects)
    ensures match Parse(s, unquote)
      case Ok((h, x)) => objects.State() == h && r == Ok(x)
      case Err(e) => r == Err(e)
  {
    objects := new Objects();
    var expression := objects.NewExpression();
    var current := expression;
    var parts := IterParse(s, unquote);
    assert Start() == State(objects.State(), expression, current);
    var i := 0;
    while i < |parts|
      invariant 0 <= i <= |parts|
      invariant Good(State(objects.State(), expression, current))
      invariant Run(Start(), parts) == Run(State(objects.State(), expression, current), parts[i..])
    {
      assert parts[i..][0] == parts[i] && parts[i..][1..] == parts[i + 1..];
      var error;
      current, error := WalkPiece(objects, expression, current, parts[i]);
      if error.Some? {
        return objects, Err(error.value);
      }
      i := i + 1;
    }
    assert parts[i..] == [];
    if current != expression {
      return objects, Err(UnclosedGroup);
    }
    var has := objects.HasConstraint(expression);
    if !has {
      return objects, Err(NoConstraint);
    }
    return objects, Ok(expression);
  }

  /** One piece: the loop over the preamble's characters, then the constraint. */
  method WalkPiece(objects: Objects, expression: NodeId, current: NodeId, part: Parser.Part)
    returns (current': NodeId, error: Option<Error>)
    requires Good(State(objects.State(), expression, current))
    modifies objects
    ensures Reaches(Step(old(State(objects.State(), expression, current)), part),
                    State(objects.State(), expression, current'), error)
    ensures error.None? ==> Good(State(objects.State(), expression, current'))
  {
    current' := current;
    ghost var before := State(objects.State(), expression, current);
    var j := 0;
    while j < |part.preamble|
      invariant 0 <= j <= |part.preamble|
      invariant Good(State(objects.State(), expression, current'))
      invariant Preamble(before, part.preamble) == Preamble(State(objects.State(), expression, current'), part.preamble[j..])
    {
      assert part.preamble[j..][0] == part.preamble[j] && part.preamble[j..][1..] == part.preamble[j + 1..];
      current', error := PreambleCharStep(objects, expression, current', part.preamble[j]);
      if error.Some? {
        return;
      }
      j := j + 1;
    }
    assert part.preamble[j..] == [];
    if part.selector.Some? && part.selector.value != "" {
      var leaf := objects.NewConstraint(part.selector.value, Constraints.MapComparison(part.comparison), part.argument);
      error := objects.AddElement(current', NodeRef(leaf));
      return;
    }
    error := None;
  }

  /** One preamble character. */
  method PreambleCharStep(objects: Objects, expression: NodeId, current: NodeId, c: char)
    returns (current': NodeId, error: Option<Error>)
    requires Good(State(objects.State(), expression, current))
    modifies objects
    ensures Reaches(PreambleChar(old(State(objects.State(), expression, current)), c),
                    State(objects.State(), expression, current'), error)
    ensures error.None? ==> Good(State(objects.State(), expression, current'))
  {
    current', error := current, None;
    if c == '(' {
      var sub := objects.CreateNestedExpression(current);
      if sub.Err? {
        return current, Some(sub.error);
      }
      current' := sub.value;
    } else if c == ')' {
      var parent := objects.GetParent(current);
      if parent.Err? {
        return current, Some(parent.error);
      }
      current' := parent.value;
    } else {
      var op := Operators.Parse([c]);
      if op.Err? {
        return current, Some(op.error);
      }
      error := objects.AddElement(current, OperatorRef(op.value));
    }
  }
}
