/**
  The printed forms of both parsers hold as many closing parentheses as
  opening ones, for every tree, as long as the constraints' own texts hold
  none: `__str__` adds parentheses only in pairs around a group. With
  Parser.ParseBalanced and Legacy.ParseBalanced this says that parsing and
  printing agree on the parenthesis balance of a text.
 */
module PrintBalance {
  import opened Wrappers
  import Operators
  import Constraints
  import Expressions
  import Legacy
  import Parser

  /** As many closing parentheses as opening ones. */
  predicate Balanced(s: string) {
    Parser.Count('(', s) == Parser.Count(')', s)
  }

  lemma NoParensBalanced(s: string)
    requires Parser.NoParens(s)
    ensures Balanced(s)
  {
    Parser.NoParensCount(s);
  }

  lemma BalancedConcat(a: string, b: string)
    requires Balanced(a) && Balanced(b)
    ensures Balanced(a + b)
  {
    Parser.CountConcat('(', a, b);
    Parser.CountConcat(')', a, b);
  }

  /** Wrapping a balanced text in a pair of parentheses, padded by `pad`, keeps it balanced. */
  lemma WrappedBalanced(t: string, pad: string)
    requires Balanced(t) && Parser.NoParens(pad)
    ensures Balanced("(" + pad + t + pad + ")")
  {
    NoParensBalanced(pad);
    assert Parser.Count('(', "(") == 1 && Parser.Count(')', "(") == 0;
    assert Parser.Count('(', ")") == 0 && Parser.Count(')', ")") == 1;
    Parser.CountConcat('(', "(", pad);
    Parser.CountConcat(')', "(", pad);
    BalancedConcat(pad, t);
    BalancedConcat(pad + t, pad);
    assert "(" + pad + t + pad + ")" == "(" + ((pad + t + pad) + ")");
    Parser.CountConcat('(', "(", (pad + t + pad) + ")");
    Parser.CountConcat(')', "(", (pad + t + pad) + ")");
    Parser.CountConcat('(', pad + t + pad, ")");
    Parser.CountConcat(')', pad + t + pad, ")");
  }

  lemma SymbolHasNoParens(op: Operators.Operator)
    ensures Parser.NoParens(Operators.Symbol(op))
  {
  }

  lemma NameHasNoParens(op: Operators.Operator)
    ensures Parser.NoParens(Operators.Name(op))
  {
  }

  /**
    A parenthesis decoded into a selector breaks the balance: the selector
    `foo(`, read from `foo%28`, prints back unencoded without an argument.
   */
  lemma DecodedParenUnbalanced(quote: string -> string)
    ensures !Balanced(Constraints.ToStr(Constraints.Constraint("foo(", None, None), quote))
  {
    assert Constraints.ToStr(Constraints.Constraint("foo(", None, None), quote) == "foo(";
    assert Parser.Count(')', "(") == 0;
    assert Parser.Count(')', "o(") == 0;
    assert Parser.Count(')', "oo(") == 0;
  }

  // ---------------------------------------------------------------------------
  // The package
  // ---------------------------------------------------------------------------

  /** Every constraint of the forest prints without parentheses. */
  predicate LeavesParenFree(f: Expressions.Forest, quote: string -> string) {
    forall x | x in f.nodes && f.nodes[x].Leaf? :: Parser.NoParens(Constraints.ToStr(f.nodes[x].constraint, quote))
  }

  /** Any node's `__str__`, when it ends, is balanced. */
  lemma {:induction false} StrBalanced(f: Expressions.Forest, id: Expressions.NodeId, seen: set<Expressions.NodeId>,
                                       quote: string -> string)
    requires Expressions.Valid(f) && id in f.nodes && LeavesParenFree(f, quote)
    ensures var r := Expressions.ToStr(f, id, seen, quote); r.Ok? ==> Balanced(r.value)
    decreases f.nodes.Keys - seen, 1
  {
    if id !in seen {
      Expressions.NodeClosed(f, id);
      match f.nodes[id]
      case Leaf(c, _) =>
        NoParensBalanced(Constraints.ToStr(c, quote));
      case Group(elements, op, parent, _) =>
        var own := op.GetOr(Operators.And);
        SymbolHasNoParens(own);
        JoinStrBalanced(f, elements, seen + {id}, Operators.Symbol(own), quote);
        var j := Expressions.JoinStr(f, elements, seen + {id}, Operators.Symbol(own), quote);
        if j.Ok? {
          WrappedBalanced(j.value, "");
          assert "(" + "" + j.value + "" + ")" == "(" + j.value + ")";
        }
    }
  }

  /** Joining balanced texts by a separator without parentheses is balanced. */
  lemma {:induction false} JoinStrBalanced(f: Expressions.Forest, ids: seq<Expressions.NodeId>,
                                           seen: set<Expressions.NodeId>, separator: string, quote: string -> string)
    requires Expressions.Valid(f) && (forall x | x in ids :: x in f.nodes) && LeavesParenFree(f, quote)
    requires Parser.NoParens(separator)
    ensures var r := Expressions.JoinStr(f, ids, seen, separator, quote); r.Ok? ==> Balanced(r.value)
    decreases f.nodes.Keys - seen, 2, |ids|
  {
    if ids == [] {
      NoParensBalanced("");
    } else {
      StrBalanced(f, ids[0], seen, quote);
      if |ids| > 1 {
        JoinStrBalanced(f, ids[1..], seen, separator, quote);
        var first := Expressions.ToStr(f, ids[0], seen, quote);
        var rest := Expressions.JoinStr(f, ids[1..], seen, separator, quote);
        if first.Ok? && rest.Ok? {
          NoParensBalanced(separator);
          BalancedConcat(first.value, separator);
          BalancedConcat(first.value + separator, rest.value);
        }
      }
    }
  }

  // ---------------------------------------------------------------------------
  // The legacy module
  // ---------------------------------------------------------------------------

  /** Every constraint of the heap prints without parentheses. */
  predicate LegacyLeavesParenFree(h: Legacy.Heap) {
    forall x | x in h.nodes && h.nodes[x].Leaf? ::
      Parser.NoParens(Legacy.ConstraintStr(h.nodes[x].selector, h.nodes[x].comparison, h.nodes[x].argument))
  }

  /** Any object's legacy `__str__`, when it ends, is balanced. */
  lemma {:induction false} LegacyStrBalanced(h: Legacy.Heap, id: Legacy.NodeId, seen: set<Legacy.NodeId>)
    requires Legacy.Valid(h) && id in h.nodes && LegacyLeavesParenFree(h)
    ensures var r := Legacy.ToStr(h, id, seen); r.Ok? ==> Balanced(r.value)
    decreases h.nodes.Keys - seen, 1
  {
    if id !in seen {
      Legacy.NodeClosed(h, id);
      match h.nodes[id]
      case Leaf(selector, comparison, argument, _) =>
        NoParensBalanced(Legacy.ConstraintStr(selector, comparison, argument));
      case Group(items, parent) =>
        JoinItemsBalanced(h, items, seen + {id});
        var j := Legacy.JoinItems(h, items, seen + {id});
        if j.Ok? {
          WrappedBalanced(j.value, " ");
          assert "(" + " " + j.value + " " + ")" == "( " + j.value + " )";
        }
    }
  }

  /** Joining the items' texts by spaces is balanced. */
  lemma {:induction false} JoinItemsBalanced(h: Legacy.Heap, items: seq<Legacy.Item>, seen: set<Legacy.NodeId>)
    requires Legacy.Valid(h) && LegacyLeavesParenFree(h)
    requires forall i | 0 <= i < |items| :: items[i].Ref? ==> items[i].id in h.nodes
    ensures var r := Legacy.JoinItems(h, items, seen); r.Ok? ==> Balanced(r.value)
    decreases h.nodes.Keys - seen, 2, |items|
  {
    if items == [] {
      NoParensBalanced("");
    } else {
      var first := match items[0]
        case Op(op) => Ok(Operators.Name(op))
        case Ref(x) => Legacy.ToStr(h, x, seen);
      match items[0] {
        case Op(op) => NameHasNoParens(op); NoParensBalanced(Operators.Name(op));
        case Ref(x) => LegacyStrBalanced(h, x, seen);
      }
      if |items| > 1 {
        JoinItemsBalanced(h, items[1..], seen);
        var rest := Legacy.JoinItems(h, items[1..], seen);
        if first.Ok? && rest.Ok? {
          NoParensBalanced(" ");
          BalancedConcat(first.value, " ");
          BalancedConcat(first.value + " ", rest.value);
        }
      }
    }
  }
}
