/**
  The FIQL constraint: the leaf of an expression, a selector optionally
  compared with an argument. Its place in a tree (its parent) is kept by the
  expression arena; this module holds its fields and the pure operations on
  them.
 */
module Constraints {
  import opened Wrappers
  import opened Errors
  import Grammar

  /** selector, comparison and argument, as stored by the constructor. */
  datatype Constraint = Constraint(selector: string, comparison: Option<string>, argument: Option<string>)

  /**
    The plain Python values `to_python` builds: None, a
    (selector, comparison, argument) tuple, an operator name, or a list.
   */
  datatype Value =
    | Nothing
    | Triple(selector: string, comparison: Option<string>, argument: Option<string>)
    | Text(text: string)
    | List(items: seq<Value>)

  /** Python truthiness of an optional string: present and non-empty. */
  predicate Truthy(o: Option<string>) {
    o.Some? && o.value != ""
  }

  /**
    The constructor. A comparison that is present and non-empty must pass
    the anchored comparison pattern; the fields are stored unchanged.
   */
  function New(selector: string, comparison: Option<string>, argument: Option<string>): (r: Result<Constraint, Error>)
    ensures r.Err? <==> Truthy(comparison) && !Grammar.MatchesComparisonPattern(comparison.value)
    ensures r.Ok? ==> r.value == Constraint(selector, comparison, argument)
    ensures r.Err? ==> r.error == InvalidComparison(comparison.value) && r.error.IsObjectException()
  {
    if Truthy(comparison) && !Grammar.MatchesComparisonPattern(comparison.value) then
      Err(InvalidComparison(comparison.value))
    else
      Ok(Constraint(selector, comparison, argument))
  }

  /** The common forms of the usual comparisons. */
  const ComparisonMap: map<string, string> := map[
    "==" := "==",
    "!=" := "!=",
    "=gt=" := ">",
    "=ge=" := ">=",
    "=lt=" := "<",
    "=le=" := "<="]

  /** A comparison in the table is replaced by its common form; any other passes through. */
  function MapComparison(c: Option<string>): (r: Option<string>)
    ensures c.None? ==> r.None?
    ensures c.Some? && c.value !in ComparisonMap ==> r == c
  {
    if c.Some? && c.value in ComparisonMap then Some(ComparisonMap[c.value]) else c
  }

  /** The constraint as a plain tuple, with its comparison in common form. */
  function ToPython(c: Constraint): (v: Value)
    ensures v.Triple? && v.selector == c.selector && v.argument == c.argument
    ensures v.comparison == MapComparison(c.comparison)
  {
    Triple(c.selector, MapComparison(c.comparison), c.argument)
  }

  /** Python's text for an optional string: the string itself, or `None`. */
  function Format(o: Option<string>): string {
    if o.Some? then o.value else "None"
  }

  /**
    The constraint as FIQL text. With a non-empty argument, the encoded
    selector, the comparison and the encoded argument; otherwise the
    selector alone, not encoded. `quote` is the form encoder.
   */
  function ToStr(c: Constraint, quote: string -> string): (s: string)
    ensures !Truthy(c.argument) ==> s == c.selector
    ensures Truthy(c.argument) ==> var head, tail := quote(c.selector), quote(c.argument.value);
      |head| + |tail| <= |s| && s[..|head|] == head && s[|s| - |tail|..] == tail
  {
    if Truthy(c.argument) then
      quote(c.selector) + Format(c.comparison) + quote(c.argument.value)
    else
      c.selector
  }

  // ---------------------------------------------------------------------------
  // Properties
  // ---------------------------------------------------------------------------

  /** Mapping a comparison twice is mapping it once: the common forms are fixed points. */
  lemma MapComparisonIdempotent(c: Option<string>)
    ensures MapComparison(MapComparison(c)) == MapComparison(c)
  {
    if c.Some? && c.value in ComparisonMap {
      var v := ComparisonMap[c.value];
      assert v in {"==", "!=", ">", ">=", "<", "<="};
    }
  }

  /** No common form but `==` and `!=` is itself a comparison. */
  lemma CommonFormsAreNotComparisons()
    ensures !Grammar.IsComparison(">") && !Grammar.IsComparison(">=")
    ensures !Grammar.IsComparison("<") && !Grammar.IsComparison("<=")
  {
  }

  /**
    Mapping loses nothing on valid comparisons: two comparisons with the same
    common form are the same comparison.
   */
  lemma MapComparisonInjective(a: string, b: string)
    requires Grammar.IsComparison(a) && Grammar.IsComparison(b)
    requires MapComparison(Some(a)) == MapComparison(Some(b))
    ensures a == b
  {
    CommonFormsAreNotComparisons();
  }

  /**
    The tuple loses nothing on constraints the parser can build: two
    constraints whose comparisons are absent or valid and whose tuples are
    equal are the same constraint.
   */
  lemma ToPythonInjective(a: Constraint, b: Constraint)
    requires a.comparison.Some? ==> Grammar.IsComparison(a.comparison.value)
    requires b.comparison.Some? ==> Grammar.IsComparison(b.comparison.value)
    requires ToPython(a) == ToPython(b)
    ensures a == b
  {
    if a.comparison.Some? && b.comparison.Some? {
      MapComparisonInjective(a.comparison.value, b.comparison.value);
    }
  }

  /** Every comparison the table knows is valid, so the constructor accepts it. */
  lemma MappedComparisonsAreValid(selector: string, c: string, argument: Option<string>)
    requires c in ComparisonMap
    ensures New(selector, Some(c), argument).Ok?
  {
    assert c in {"==", "!=", "=gt=", "=ge=", "=lt=", "=le="};
    assert "=gt="[1..3] == "gt" && "=ge="[1..3] == "ge";
    assert "=lt="[1..3] == "lt" && "=le="[1..3] == "le";
  }

  /** A comparison missing its closing `=` is refused, as is one with digits. */
  lemma InvalidComparisonExamples(selector: string, argument: Option<string>)
    ensures New(selector, Some("=gt"), argument) == Err(InvalidComparison("=gt"))
    ensures New(selector, Some("=01="), argument) == Err(InvalidComparison("=01="))
    ensures New(selector, None, argument).Ok? && New(selector, Some(""), argument).Ok?
  {
    assert "=gt"[..2] == "=g";
    assert "=01="[1..3][0] == '0';
    assert "=01=\n"[..4] == "=01=";
  }

  /**
    The text of a full constraint splits back into its own parts, when the
    encoder leaves its selector and argument as they are.
   */
  lemma StrSplitsBack(c: Constraint, quote: string -> string, d: Grammar.Dialect)
    requires Grammar.IsSelector(c.selector)
    requires c.comparison.Some? && Grammar.IsComparison(c.comparison.value)
    requires c.argument.Some? && Grammar.IsArgument(c.argument.value, d)
    requires quote(c.selector) == c.selector && quote(c.argument.value) == c.argument.value
    ensures Grammar.Split(ToStr(c, quote), d)
            == Some(Grammar.Match("", c.selector, c.comparison, c.argument, ""))
  {
    var sel, cmp, arg := c.selector, c.comparison.value, c.argument.value;
    Grammar.SplitAtConstraint("", sel, cmp, arg, "", d);
    calc {
      ToStr(c, quote);
      sel + cmp + arg;
      { assert "" + sel == sel; assert sel + cmp + arg + "" == sel + cmp + arg; }
      "" + sel + cmp + arg + "";
    }
  }

  /** The text of a bare constraint is its selector, which splits back as a bare constraint. */
  lemma BareStrSplitsBack(c: Constraint, quote: string -> string, d: Grammar.Dialect)
    requires Grammar.IsSelector(c.selector) && !Truthy(c.argument)
    ensures Grammar.Split(ToStr(c, quote), d) == Some(Grammar.Match("", c.selector, None, None, ""))
  {
    Grammar.SplitAtSelector("", c.selector, "", d);
    assert ToStr(c, quote) == "" + c.selector + "";
  }

  /** An argument without a comparison prints Python's `None` in the comparison's place. */
  lemma StrWithoutComparison(quote: string -> string)
    requires quote("a") == "a" && quote("b") == "b"
    ensures ToStr(Constraint("a", None, Some("b")), quote) == "aNoneb"
  {
  }
}
