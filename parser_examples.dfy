/**
  The parser on concrete strings: the pieces `iter_parse` yields, and what
  `parse_str_to_expression` makes of well-formed and malformed strings.
 */
module ParserExamples {
  import opened Wrappers
  import opened Errors
  import opened Operators
  import opened Constraints
  import opened Expressions
  import opened Parser
  import Grammar

  /** A decoder that leaves text as it is. */
  function Verbatim(s: string): string {
    s
  }

  lemma SelectorsAndArguments()
    ensures Grammar.IsSelector("a") && Grammar.IsSelector("b") && Grammar.IsSelector("c")
    ensures Grammar.IsArgument("23", Grammar.Package) && Grammar.IsArgument("4", Grammar.Package)
    ensures Grammar.IsArgument("5", Grammar.Package) && Grammar.IsArgument("15", Grammar.Package)
    ensures Grammar.IsComparison("==") && Grammar.IsComparison("=gt=")
    ensures Grammar.IsComparison("=ge=") && Grammar.IsComparison("=lt=")
  {
    assert "23"[1..][1..] == [] && "15"[1..][1..] == [];
    assert "=gt="[1..3] == "gt" && "=ge="[1..3] == "ge" && "=lt="[1..3] == "lt";
  }

  predicate Full(sel: string, cmp: string, arg: string) {
    Grammar.IsSelector(sel) && Grammar.IsComparison(cmp) && Grammar.IsArgument(arg, Grammar.Package)
  }

  /** `<pre><sel><cmp><arg><rest>` yields its constraint, then what `rest` yields. */
  lemma Level(pre: string, sel: string, cmp: string, arg: string, rest: string, tail: seq<Part>)
    requires pre == ";" || pre == ",(" || pre == ";("
    requires Full(sel, cmp, arg) && rest != [] && (rest[0] == ';' || rest[0] == ',' || rest[0] == ')')
    requires IterParse(rest, Verbatim) == tail
    ensures IterParse(pre + sel + cmp + arg + rest, Verbatim) == [Part(pre, Some(sel), Some(cmp), Some(arg))] + tail
  {
    IterParseAtConstraint(pre, sel, cmp, arg, rest, Verbatim);
  }

  /** A constraint at the very start yields a piece with an empty preamble. */
  lemma FirstLevel(sel: string, cmp: string, arg: string, rest: string, tail: seq<Part>)
    requires Full(sel, cmp, arg) && rest != [] && (rest[0] == ';' || rest[0] == ',')
    requires IterParse(rest, Verbatim) == tail
    ensures IterParse(sel + cmp + arg + rest, Verbatim) == [Part("", Some(sel), Some(cmp), Some(arg))] + tail
  {
    IterParseAtConstraint("", sel, cmp, arg, rest, Verbatim);
    assert "" + sel == sel;
  }

  // The pieces of strings shaped like `a==23;(b=gt=4,(c=ge=5;c=lt=15))`, built from the end.

  lemma InnermostPieces(s4: string, c4: string, a4: string)
    requires Full(s4, c4, a4)
    ensures IterParse(";" + s4 + c4 + a4 + "))", Verbatim)
            == [Part(";", Some(s4), Some(c4), Some(a4)), Part("))", None, None, None)]
  {
    IterParseNoConstraint("))", Verbatim);
    Level(";", s4, c4, a4, "))", [Part("))", None, None, None)]);
  }

  lemma InnerGroupPieces(s3: string, c3: string, a3: string, s4: string, c4: string, a4: string)
    requires Full(s3, c3, a3) && Full(s4, c4, a4)
    ensures var r3: string := ";" + s4 + c4 + a4 + "))";
      IterParse(",(" + s3 + c3 + a3 + r3, Verbatim)
      == [Part(",(", Some(s3), Some(c3), Some(a3)), Part(";", Some(s4), Some(c4), Some(a4)), Part("))", None, None, None)]
  {
    var r3: string := ";" + s4 + c4 + a4 + "))";
    InnermostPieces(s4, c4, a4);
    Level(",(", s3, c3, a3, r3, [Part(";", Some(s4), Some(c4), Some(a4)), Part("))", None, None, None)]);
  }

  lemma OuterGroupPieces(s2: string, c2: string, a2: string, s3: string, c3: string, a3: string,
                         s4: string, c4: string, a4: string)
    requires Full(s2, c2, a2) && Full(s3, c3, a3) && Full(s4, c4, a4)
    ensures var r3: string := ";" + s4 + c4 + a4 + "))";
      var r2: string := ",(" + s3 + c3 + a3 + r3;
      IterParse(";(" + s2 + c2 + a2 + r2, Verbatim)
      == [Part(";(", Some(s2), Some(c2), Some(a2)), Part(",(", Some(s3), Some(c3), Some(a3)),
          Part(";", Some(s4), Some(c4), Some(a4)), Part("))", None, None, None)]
  {
    var r3: string := ";" + s4 + c4 + a4 + "))";
    var r2: string := ",(" + s3 + c3 + a3 + r3;
    var tail := [Part(",(", Some(s3), Some(c3), Some(a3)), Part(";", Some(s4), Some(c4), Some(a4)),
                 Part("))", None, None, None)];
    InnerGroupPieces(s3, c3, a3, s4, c4, a4);
    assert IterParse(r2, Verbatim) == tail;
    assert r2[0] == ',' by {
      StartsWith(",(", s3 + c3 + a3 + r3);
      assert ",(" + s3 + c3 + a3 + r3 == r2;
    }
    Level(";(", s2, c2, a2, r2, tail);
    ConsOntoThree(Part(";(", Some(s2), Some(c2), Some(a2)), tail[0], tail[1], tail[2]);
  }

  /**
    The pieces `iter_parse` yields for a constraint followed by a group that
    nests another, as in `a==23;(b=gt=4,(c=ge=5;c=lt=15))`: one piece per
    constraint, with the operators and parentheses before it, then the
    closing parentheses alone.
   */
  lemma IterParseNested(s1: string, c1: string, a1: string, s2: string, c2: string, a2: string,
                        s3: string, c3: string, a3: string, s4: string, c4: string, a4: string)
    requires Full(s1, c1, a1) && Full(s2, c2, a2) && Full(s3, c3, a3) && Full(s4, c4, a4)
    ensures var r3: string := ";" + s4 + c4 + a4 + "))";
      var r2: string := ",(" + s3 + c3 + a3 + r3;
      var r1: string := ";(" + s2 + c2 + a2 + r2;
      IterParse(s1 + c1 + a1 + r1, Verbatim)
      == [Part("", Some(s1), Some(c1), Some(a1)), Part(";(", Some(s2), Some(c2), Some(a2)),
          Part(",(", Some(s3), Some(c3), Some(a3)), Part(";", Some(s4), Some(c4), Some(a4)), Part("))", None, None, None)]
  {
    var r3: string := ";" + s4 + c4 + a4 + "))";
    var r2: string := ",(" + s3 + c3 + a3 + r3;
    var r1: string := ";(" + s2 + c2 + a2 + r2;
    var first := Part("", Some(s1), Some(c1), Some(a1));
    var tail := [Part(";(", Some(s2), Some(c2), Some(a2)), Part(",(", Some(s3), Some(c3), Some(a3)),
                 Part(";", Some(s4), Some(c4), Some(a4)), Part("))", None, None, None)];
    OuterGroupPieces(s2, c2, a2, s3, c3, a3, s4, c4, a4);
    FirstLevel(s1, c1, a1, r1, tail);
    ConsOntoFour(first, tail[0], tail[1], tail[2], tail[3]);
  }

  /** The strings of the example fit those places. */
  lemma NestedExampleFits()
    ensures Full("a", "==", "23") && Full("b", "=gt=", "4") && Full("c", "=ge=", "5") && Full("c", "=lt=", "15")
  {
    SelectorsAndArguments();
  }
}
