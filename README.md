# FIQL parser, modelled in Dafny

This project models the core of `fiql_parser`, a Python library that reads
FIQL (Feed Item Query Language) filter strings. An example is
`name==bar;(age=gt=30,age=lt=10)`. The library turns such a string into a
tree of Expression, Constraint and Operator objects, and prints or
converts that tree back. Two implementations are modelled:

- the package `fiql_parser/`:
  - the grammar as regular expressions (`constants.py`);
  - operators with precedence (`operator.py`);
  - constraints (`constraint.py`);
  - expressions that regroup themselves by operator precedence (`expression.py`);
  - the parser that drives them (`parser.py`);
- the older single-module `fiql_parser.py`, with its own grammar,
  objects and parser.

How the model is built:

- **Grammar.** It is a set of predicates over strings. `Grammar.Split`
  is a scanner that finds what Python's `re.split(..., 1)` finds: the
  leftmost, longest constraint match.
- **Objects.** The Python heap of objects is an arena: a map from object
  ids to nodes. `Expressions.Forest` covers the package and
  `Legacy.Heap` covers the older module. Functions on these values
  specify every object operation.
- **Mutation.** Each object method that mutates is also written as a
  method of a class over the arena: `ExpressionArena.Arena` and
  `LegacyObjects.Objects`. The parsers' `for` loops are imperative
  methods: `Parser.ParseStrToExpression` and
  `LegacyObjects.ParseStrToExpression`. Each such method is proved to
  leave the arena exactly as the specifying function says.
- **Whole parses.** `FlatParse` and `LegacyFlatParse` state, for any
  constraints, the tree each parser builds from a text that joins them by
  one operator (and, for the older module, a parenthesised pair), and what
  that tree prints. `PrintBalance` shows that every printed tree whose
  constraints print without parentheses has balanced parentheses.
- **Error paths.** They are results. `Errors.Error` names every
  exception the code raises. `IsFiqlException` and `IsObjectException`
  tell the package's `FiqlException` apart from its
  `FiqlObjectException`. That classification is the package's only:
  the older `fiql_parser.py` has no `FiqlObjectException` and raises a
  plain `FiqlException` only for a bad parent or element
  (fiql_parser.py:123-125, 137-139, 212-215). Its `Constraint` accepts
  any comparison (fiql_parser.py:154-167), so `Legacy.NewConstraint` has
  no error case. The `Legacy` functions still name the case
  (`InvalidParent`, `InvalidElementType`), and both stand for that one
  exception.
- **Python `RecursionError`** is `RecursionLimitExceeded`:
  - `add_operator` can call itself without end. It carries a `fuel`
    bound, and running out of fuel is this error.
  - `__str__` and `to_python` on a cyclic tree carry a set of ids
    already on the call chain.
- **URL coding.** `unquote_plus` and `quote_plus` are function
  parameters (`unquote`, `quote`). The examples use the identity.
- **Python 2.** `fiql_parser.py` calls `urllib.unquote_plus`
  (fiql_parser.py:22, 280-282), which only Python 2 has; under Python 3
  its parser stops with an `AttributeError` at the first constraint. The
  `Legacy` model is the module's Python 2 behaviour.

Where the library's own description and its code differ, the model
follows the code:

- `parser.py` returns the final cursor, not the first Expression
  (`ParseExamples.ParseReturnsCursor`).
- A `(` does not reset the last element seen.
- The nesting counter may go below zero in the middle of a string. Only
  the final check looks at it.
- The final "no constraint" check looks at the cursor's Expression.

## Model

| member | source | states |
|---|---|---|
| Operators.Parse | fiql_parser/operator.py:34-43 | succeeds exactly for `;` and `,`, giving the operator whose symbol is the input; any other string fails with the invalid-operator FIQL error naming it |
| Operators.Name | fiql_parser/operator.py:45-47 | the name is `AND` exactly for the AND operator and `OR` exactly for OR |
| Operators.Compare | fiql_parser/operator.py:53-61 | -1 exactly when the first operator has lower precedence, 0 exactly when both have the same, 1 exactly when the first has higher |
| Operators.ParseSymbol | fiql_parser/operator.py:40-51 | the printed symbol of an operator parses back to that operator |
| Operators.AndAboveOr | fiql_parser/operator.py:15-18 | AND binds tighter than OR (precedence 2 against 1) |
| Operators.SamePrecedenceIsEquality | fiql_parser/operator.py:63-65 | operators compare equal exactly when they are the same operator |
| Operators.LessIsStrictTotalOrder | fiql_parser/operator.py:67-69 | less-than is irreflexive, asymmetric and transitive, and relates any two distinct operators |
| Operators.CompareIsConsistent | fiql_parser/operator.py:53-61 | swapping the arguments negates the comparison, and 0 means equal operators |
| Constraints.New | fiql_parser/constraint.py:48-68 | fails exactly when the comparison is present, non-empty and refused by the anchored comparison pattern, with the object error naming it; otherwise keeps the three fields as given |
| Constraints.MapComparison | fiql_parser/constraint.py:23-30 | an absent comparison stays absent and one the table does not know passes through unchanged |
| Constraints.ToPython | fiql_parser/constraint.py:98-104 | the value is a triple holding the selector and argument unchanged and the comparison in common form; that nothing is lost on buildable constraints is `Constraints.ToPythonInjective` |
| Constraints.ToPythonInjective | fiql_parser/constraint.py:98-104 | two constraints whose comparisons are absent or valid and whose tuples are equal are the same constraint |
| Constraints.MapComparisonIdempotent | fiql_parser/constraint.py:23-30 | mapping a comparison twice gives what mapping it once gives |
| Constraints.CommonFormsAreNotComparisons | fiql_parser/constraint.py:26-29 | the common forms `>`, `>=`, `<`, `<=` are not FIQL comparisons |
| Constraints.MapComparisonInjective | fiql_parser/constraint.py:23-30 | two FIQL comparisons with the same common form are the same comparison |
| Constraints.MappedComparisonsAreValid | fiql_parser/constraint.py:64-66 | every comparison in the table passes the constructor's check |
| Constraints.InvalidComparisonExamples | fiql_parser/constraint.py:64-66 | `=gt` and `=01=` are refused; an absent or empty comparison is accepted |
| Constraints.StrSplitsBack | fiql_parser/constraint.py:106-112 | the text of a constraint with comparison and argument is matched back by the constraint pattern as exactly that selector, comparison and argument |
| Constraints.BareStrSplitsBack | fiql_parser/constraint.py:106-112 | the text of a constraint without an argument is its selector, which is matched back as a bare constraint |
| Constraints.StrWithoutComparison | fiql_parser/constraint.py:108-111 | an argument without a comparison prints Python's `None` in the comparison's place |
| Constraints.ToStr | fiql_parser/constraint.py:106-112 | without a non-empty argument the text is the selector, not encoded; with one it starts with the encoded selector and ends with the encoded argument; `Constraints.StrSplitsBack` and `Constraints.BareStrSplitsBack` show the parts are recovered from it |
| Grammar.SelectorEnd | fiql_parser/constants.py:55 | the end of the longest run of selector characters from a position: a run that cannot be extended |
| Grammar.ArgumentEnd | fiql_parser/constants.py:58-62 | the end of the longest run of argument characters from a position, likewise |
| Grammar.LettersEnd | fiql_parser/constants.py:52 | the end of the longest run of letters from a position |
| Grammar.ComparisonEnd | fiql_parser/constants.py:52 | finds k exactly when the text from the position to k is a comparison, so at most one comparison starts there |
| Grammar.EqualsComparisonEnd | fiql_parser/constants.py:52 | a comparison starting with `=` ends right after the letters that follow it |
| Grammar.FirstConstraint | fiql_parser/constants.py:65-66 | the first position where a selector character starts, with none before it |
| Grammar.ComparisonArgumentEnd | fiql_parser/constants.py:65-66 | the comparison and longest argument after a selector when there is one; nothing only when no comparison there is followed by an argument character |
| Grammar.Split | fiql_parser/constants.py:69 | a match leaves a remainder strictly shorter than the text, so the splitting loop ends |
| Grammar.SplitIsLeftmost | fiql_parser/constants.py:65-69 | no match exactly when no selector character occurs; otherwise the leftmost-longest match, whose parts rejoin to the text |
| Grammar.SplitJoins | fiql_parser/constants.py:65-66 | the parts of a match are well formed and rejoin to the text |
| Grammar.SplitFacts | fiql_parser/constants.py:65-66 | in a match the comparison is present exactly when the argument is, the argument is not empty, and the remainder is shorter |
| Grammar.SelectorIffScanned | fiql_parser/constants.py:55 | a string is a selector exactly when it is non-empty and the scanner consumes all of it |
| Grammar.ArgumentIffScanned | fiql_parser/constants.py:62 | a string is an argument exactly when it is non-empty and the scanner consumes all of it |
| Grammar.SplitIsUnique | fiql_parser/constants.py:65-69 | any leftmost-longest match of the constraint pattern is the one the scanner returns |
| Grammar.SplitAtConstraint | fiql_parser/constants.py:65-66 | operator and parenthesis text, a selector, a comparison, an argument and a rest that cannot extend it split into exactly those parts |
| Grammar.SplitAtSelector | fiql_parser/constants.py:65-66 | operator and parenthesis text and a selector followed by a rest that starts no comparison split as a bare constraint |
| Grammar.SelectorCharsNoEquals | fiql_parser/constants.py:55 | no selector contains `=` |
| Grammar.SplitAtLoneEquals | fiql_parser/constants.py:65-66 | a selector followed by `=` and text without `=` (or by `==`) matches as a bare selector, and the `=` is left to the rest |
| Grammar.ComparisonPatternIsWhole | fiql_parser/constants.py:72 | the anchored comparison pattern refuses a comparison followed by anything but a single newline |
| Grammar.ComparisonNotExtended | fiql_parser/constants.py:52 | no comparison is a proper prefix of another |
| Grammar.ComparisonExamples | tests/test_regex.py:62-77 | `==`, `=gt=`, `+=`, `!=`, `=le=` are comparisons; `=`, `=gt`, `=01=` are not |
| Grammar.PctEncodingExamples | tests/test_regex.py:19-31 | `%5E` and `%ad` are percent-encodings; `%A`, `%G1`, `%AAA` are not |
| Grammar.SelectorExamples | tests/test_regex.py:79-81 | `ABC%3Edef_34%04` is a selector |
| Grammar.UnreservedRun | fiql_parser/constants.py:46 | a run of unreserved characters is a run of selector characters |
| Grammar.NonSelectorExamples | tests/test_regex.py:82-85 | the empty string, `#`, `!` and `=` are not selectors |
| Grammar.SelectorCharsConcat | fiql_parser/constants.py:55 | two runs of selector characters joined are one |
| Grammar.ArgCharsWithoutPct | fiql_parser/constants.py:58-59 | without `%`, a run of argument characters is a string of single argument characters |
| Grammar.ArgumentColonExample | fiql_parser/constants.py:23-26 | the package accepts `10:30Z` as an argument and the older module does not |
| Grammar.ArgCharsWithoutColon | fiql_parser.py:41-42 | without `:`, the two modules' argument characters agree |
| Grammar.SplitDialectsAgree | fiql_parser.py:49-53 | on text without `:` the two modules' constraint patterns split alike |
| Grammar.ArgumentExamples | tests/test_regex.py:90-94 | `?`, `&`, `,`, `;` and the empty string are not arguments |
| Grammar.SplitExampleFull | tests/test_regex.py:100-101 | `foo=gt=bar` splits into `foo`, `=gt=`, `bar` |
| Grammar.SplitExampleNoComparison | tests/test_regex.py:106-107 | `foo=bar` splits as the bare selector `foo` with `=bar` left |
| Grammar.SplitExampleNoArgument | tests/test_regex.py:108-109 | `foo==` splits as the bare selector `foo` with `==` left |
| Grammar.SplitExampleTrailingEquals | tests/test_regex.py:110-111 | `foo=` splits as the bare selector `foo` with `=` left |
| Grammar.SplitExampleNone | fiql_parser/parser.py:45-47 | `;(` holds no constraint |
| Expressions.Working | fiql_parser/expression.py:83-84 | the working fragment of an Expression is an Expression |
| Expressions.NewExpression | fiql_parser/expression.py:78-86 | a fresh object: an Expression with no elements, operator or parent, which is its own working fragment; nothing else changes |
| Expressions.NewConstraint | fiql_parser/constraint.py:48-68 | fails exactly when the constraint constructor fails, with its error; otherwise a fresh parentless constraint and nothing else changes |
| Expressions.SetParent | fiql_parser/expression.py:34-46 | succeeds exactly when the parent is an Expression, and then only the object's parent changes; otherwise the invalid-parent error |
| Expressions.GetParent | fiql_parser/expression.py:48-60 | succeeds exactly when the object has a parent, giving that Expression; otherwise the invalid-parent error |
| Expressions.Append | fiql_parser/expression.py:158-161 | the element is appended to the working fragment's elements with the fragment as its parent, and nothing else changes |
| Expressions.AddElement | fiql_parser/expression.py:141-163 | a Constraint or Expression is appended to the working fragment and the receiver returned; an operator gives exactly what `add_operator` gives; any other value is refused with the element-type error |
| Expressions.AddOperator | fiql_parser/expression.py:121-123 | anything but an operator is refused; a success leaves consistent objects and returns an Expression |
| Expressions.Regroup | fiql_parser/expression.py:127-132 | fails, as popping from an empty list, exactly when the working fragment has no elements; otherwise one fresh Expression with the operator takes the fragment's last element, is appended to the fragment's own working fragment and becomes the receiver's working fragment, and the moved element's parent is it; the changed objects keep every other field and no other object changes |
| Expressions.NewTop | fiql_parser/expression.py:137-138 | the new top is the fresh id `next`, an Expression without parent holding only the fragment, with the operator; the fragment's parent becomes the top, and no other object changes |
| Expressions.CreateNestedExpression | fiql_parser/expression.py:165-174 | a fresh empty Expression whose parent is the working fragment, appended to its elements; nothing else changes |
| Expressions.AddEach | fiql_parser/expression.py:187-188 | adding a list with a value that is neither object nor operator ends in an error |
| Expressions.Connect | fiql_parser/expression.py:176-204 | a success returns an Expression and keeps the objects consistent |
| Expressions.ConstraintConnect | fiql_parser/constraint.py:70-96 | the objects stay consistent |
| Expressions.ToPython | fiql_parser/expression.py:206-216 | the only failure is a recursion without end; the value of any flat Expression is `Expressions.FlatGroup` |
| Expressions.ToStr | fiql_parser/expression.py:218-227 | the only failure is a recursion without end; the text of any flat Expression is `Expressions.FlatGroup`, and the text of a tree whose constraints print without parentheses is balanced by `PrintBalance.StrBalanced` |
| Expressions.SingleConstraintGroup | fiql_parser/expression.py:206-227 | an Expression without parent holding one constraint prints as that constraint and converts to its triple |
| Expressions.TwoConstraintGroup | fiql_parser/expression.py:206-227 | an Expression without parent holding two constraints prints as their texts joined by its operator's symbol, and converts to its operator's name followed by their triples |
| Expressions.FlatGroup | fiql_parser/expression.py:206-227 | an Expression without parent whose elements are all constraints, any number of them, prints as their texts joined by its operator's symbol (`;` without one) and converts to nothing, the lone constraint's triple, or its operator's name followed by all the triples in order |
| Expressions.JoinStrLeaves | fiql_parser/expression.py:221-222 | joining constraint elements gives their own texts joined by the separator |
| Expressions.ToPythonAllLeaves | fiql_parser/expression.py:215-216 | converting constraint elements gives their own triples, in order |
| PrintBalance.StrBalanced | fiql_parser/expression.py:218-227 | for every object of any tree whose constraints print without parentheses, a printed text has as many `(` as `)` |
| PrintBalance.JoinStrBalanced | fiql_parser/expression.py:221-222 | joining such texts by a separator without parentheses keeps them balanced |
| Expressions.AddOperatorRecords | fiql_parser/expression.py:125-126 | without an operator on the working fragment, the operator is recorded there and nothing else changes |
| Expressions.AddOperatorSamePrecedence | fiql_parser/expression.py:127-139 | an operator of the working fragment's own precedence changes nothing |
| Expressions.AddOperatorTighterEmpty | fiql_parser/expression.py:127-128 | a tighter operator on a working fragment without elements fails, popping from an empty list |
| Expressions.AddOperatorTighter | fiql_parser/expression.py:127-132 | a tighter operator on a non-empty working fragment gives the regrouped objects `Expressions.Regroup` states: the new Expression, both changed lists, the receiver's new working fragment, the moved element's parent, `next`, every other field of those objects kept and every other object unchanged |
| Expressions.AddOperatorLooserAtTop | fiql_parser/expression.py:133-138 | a looser operator at a parentless fragment returns a fresh top Expression, one more object, whose only element is that fragment, which gets it as parent; nothing else changes |
| Expressions.AddOperatorClimbsForever | fiql_parser/expression.py:133-135 | when the working fragment's parent is the receiver and the operator is looser, the call never returns, whatever the recursion limit |
| Expressions.SetThenGetParent | fiql_parser/expression.py:34-60 | the parent that is set is the parent that is got |
| Expressions.NewNodesHaveNoParent | fiql_parser/expression.py:30-32 | new Expressions and Constraints have no parent |
| Expressions.AddEachNodes | fiql_parser/expression.py:187-188 | adding a list of objects appends them all, in order, to the group, with the group as their parent |
| Expressions.ConstraintConnectBuildsGroup | fiql_parser/constraint.py:70-96 | connecting a constraint builds a fresh Expression with the operator, holding the constraint and then the elements |
| Expressions.ConstraintConnectIsConnect | fiql_parser/constraint.py:82 | connecting a constraint is connecting a new Expression with the constraint first |
| Expressions.ConnectFresh | fiql_parser/expression.py:186-189 | on a fresh Expression, connecting records the operator and appends every element in order |
| ExpressionArena.Arena.NewExpression | fiql_parser/expression.py:78-86 | the arena becomes what `Expressions.NewExpression` gives, and the new id is returned |
| ExpressionArena.Arena.NewConstraint | fiql_parser/constraint.py:48-68 | the arena and result are what `Expressions.NewConstraint` gives; on failure the arena is unchanged |
| ExpressionArena.Arena.SetParent | fiql_parser/expression.py:34-46 | the arena becomes what `Expressions.SetParent` gives, or stays unchanged with its error |
| ExpressionArena.Arena.GetParent | fiql_parser/expression.py:48-60 | the result is `Expressions.GetParent` of the arena |
| ExpressionArena.Arena.HasConstraint | fiql_parser/expression.py:88-90 | the result is whether the Expression has elements |
| ExpressionArena.Arena.Append | fiql_parser/expression.py:158-161 | the arena becomes what `Expressions.Append` gives |
| ExpressionArena.Arena.AddElement | fiql_parser/expression.py:141-163 | the arena and result are what `Expressions.AddElement` gives; on failure the arena is unchanged |
| ExpressionArena.Arena.AddOperator | fiql_parser/expression.py:92-139 | the arena and result are what `Expressions.AddOperator` gives, through the recursive calls |
| ExpressionArena.Arena.Regroup | fiql_parser/expression.py:127-132 | the arena and result are what `Expressions.Regroup` gives |
| ExpressionArena.Arena.NewTop | fiql_parser/expression.py:137-138 | the arena and new top are what `Expressions.NewTop` gives |
| ExpressionArena.Arena.CreateNestedExpression | fiql_parser/expression.py:165-174 | the arena and new Expression are what `Expressions.CreateNestedExpression` gives |
| ExpressionArena.Arena.Connect | fiql_parser/expression.py:176-204 | the arena and result are what `Expressions.Connect` gives, element after element |
| ExpressionArena.Arena.ConstraintConnect | fiql_parser/constraint.py:70-96 | the arena and result are what `Expressions.ConstraintConnect` gives |
| Parser.IterParse | fiql_parser/parser.py:22-55 | the pieces are empty exactly when the text is |
| Parser.IterParseShape | fiql_parser/parser.py:45-53 | every piece but the last has a selector; a piece has a comparison exactly when it has an argument; a piece without selector has neither |
| Parser.IterParseAtConstraint | fiql_parser/parser.py:48-55 | operator and parenthesis text and a whole constraint yield one piece with those parts, then the pieces of the rest |
| Parser.IterParseAtSelector | fiql_parser/parser.py:48-55 | operator and parenthesis text and a bare selector yield one piece, then the pieces of the rest |
| Parser.IterParseNoConstraint | fiql_parser/parser.py:45-47 | text without selector characters is one last piece with only a preamble |
| Parser.IterParseJoinsBack | fiql_parser/parser.py:43-55 | without decoding, the pieces' texts joined give back the string |
| Parser.PreambleChar | fiql_parser/parser.py:79-98 | a success leaves consistent objects, a cursor on an Expression, and only adds objects |
| Parser.Preamble | fiql_parser/parser.py:78-79 | likewise for all characters of a preamble |
| Parser.ConstraintStep | fiql_parser/parser.py:99-104 | likewise for adding a piece's constraint |
| Parser.Step | fiql_parser/parser.py:77-104 | likewise for one piece |
| Parser.Run | fiql_parser/parser.py:77-104 | likewise for all pieces |
| Parser.Start | fiql_parser/parser.py:74-76 | the walk starts with one object, an empty Expression under the cursor, at nesting level zero with nothing added yet |
| Parser.Parse | fiql_parser/parser.py:57-111 | a success is an Expression that has elements, among consistent objects; the tree for any number of constraints joined by one operator is `FlatParse.ParseJoined` |
| Parser.ParseStrToExpression | fiql_parser/parser.py:57-111 | the method ends with the objects and result `Parser.Parse` gives, or with its error |
| Parser.WalkPiece | fiql_parser/parser.py:77-104 | one iteration of the parsing loop ends in the state or error `Parser.Step` gives |
| Parser.PreambleCharStep | fiql_parser/parser.py:79-98 | one preamble character ends in the state or error `Parser.PreambleChar` gives |
| Parser.PreambleDepth | fiql_parser/parser.py:80-89 | after a preamble, the nesting level has moved by its `(` count minus its `)` count |
| Parser.RunDepth | fiql_parser/parser.py:105-107 | after all pieces, the nesting level is the `(` count minus the `)` count of all preambles |
| Parser.ParensAreInPreambles | fiql_parser/parser.py:43-55 | every parenthesis of the text is in some preamble |
| Parser.ParseBalanced | fiql_parser/parser.py:105-107 | a string that parses has as many `(` as `)` |
| FlatParse.ParseJoined | fiql_parser/parser.py:57-111 | one or more constraints joined by `;` or `,` parse to the first Expression, which holds them all as its elements, in order, each with it as parent, and carries the operator once there are two |
| FlatParse.WrittenIsPrinted | fiql_parser/constraint.py:106-112 | a constraint made of plain characters prints as its own FIQL text under an encoder that keeps it |
| FlatParse.ParseJoinedPrintsBack | fiql_parser/parser.py:57-111 | such a text parses, prints back as the same text, and converts to the lone triple or to the operator's name followed by all the triples in order |
| ParserExamples.SelectorsAndArguments | tests/test_parse.py:16 | the selectors, comparisons and arguments of the nested example are what the grammar says they are |
| ParserExamples.IterParseNested | tests/test_parse.py:15-23 | the pieces of the form `a==23;(b=gt=4,(c=ge=5;c=lt=15))` are its five expected tuples, for any parts of the same kinds |
| ParserExamples.NestedExampleFits | tests/test_parse.py:16-22 | the example's own parts are of those kinds |
| ParseExamples.ParseOneConstraint | tests/test_parse.py:27-34 | a single constraint parses, prints back as its text and converts to its triple with the comparison in common form |
| ParseExamples.ParseOneSelector | tests/test_parse.py:35-36 | a bare selector parses, prints as itself and converts to a triple without comparison or argument |
| ParseExamples.ParseTwoConstraints | tests/test_parse.py:37-40 | two constraints joined by `;` or `,` parse and print back as the same text; they convert to the operator's name followed by the two triples, in that order |
| ParseExamples.ParseEmpty | fiql_parser/parser.py:108-110 | the empty string is refused for holding no constraint |
| ParseExamples.ParseOperatorFirst | tests/test_parse.py:57 | operator characters before the first constraint, as in `;;foo`, are refused |
| ParseExamples.NonOperatorStep | fiql_parser/parser.py:90-98 | after a constraint, a preamble character other than a parenthesis or an operator symbol fails as an invalid operator |
| ParseExamples.ParseUnknownOperator | fiql_parser/operator.py:40-42 | `x&y` is refused with `&` named as an invalid operator |
| ParseExamples.EqualsSelectorPieces | tests/test_regex.py:106-107 | `foo=bar` comes in two pieces, the second with preamble `=` |
| ParseExamples.LoneEqualsPieces | tests/test_regex.py:108-111 | `foo=` and `foo==` come as the selector and a last piece holding only the `=` text |
| ParseExamples.ParseEqualsSelector | tests/test_parse.py:54 | `foo=bar` is refused, `=` being taken for an operator |
| ParseExamples.ParseLoneEquals | tests/test_parse.py:55-56 | `foo==` and `foo=` are refused, `=` being taken for an operator |
| ParseExamples.ParseUnclosed | tests/test_parse.py:59 | an opened group left unclosed is refused |
| ParseExamples.ParseCloseAtTop | fiql_parser/expression.py:57-59 | a `)` at the first Expression is refused, as it has no parent |
| ParseExamples.ParseTrailingOperator | fiql_parser/parser.py:90-98 | a trailing operator, as in `foo;`, is accepted |
| ParseExamples.GroupAfterGroupStep | fiql_parser/parser.py:80-83 | a `(` right after a closed group is refused |
| ParseExamples.ParseGroupAfterGroup | tests/test_parse.py:58 | `(foo)(bar)` is refused |
| ParseExamples.ParseAlternationForever | fiql_parser/expression.py:133-135 | `a,b;c,d` never parses, whatever the recursion limit |
| ParseExamples.ParseReturnsCursor | fiql_parser/parser.py:111 | `a,b;(c)` parses to an Expression that has a parent: the cursor, not the first Expression |
| Legacy.NewExpression | fiql_parser.py:187-190 | a fresh Expression with no items or parent; nothing else changes |
| Legacy.NewConstraint | fiql_parser.py:154-167 | a fresh parentless constraint with the given fields; nothing else changes |
| Legacy.SetParent | fiql_parser.py:114-126 | succeeds exactly when the parent is an Expression, and then only the parent changes; otherwise the invalid-parent error |
| Legacy.GetParent | fiql_parser.py:128-140 | succeeds exactly when there is a parent, giving it; otherwise the invalid-parent error |
| Legacy.AddElement | fiql_parser.py:198-228 | accepted exactly when operands and operators alternate starting with an operand; each refusal with its own error; on success the item is appended, an operand's parent set, and nothing else changes |
| Legacy.AppendAlternates | fiql_parser.py:201-204 | appending as add_element allows keeps items alternating between operands and operators |
| Legacy.CreateNestedExpression | fiql_parser.py:230-239 | succeeds exactly when the Expression is empty or ends with an operator, appending a fresh empty Expression whose parent it is |
| Legacy.ConstraintStr | fiql_parser.py:169-174 | the selector alone without an argument; otherwise selector, comparison and argument separated by spaces; `Legacy.ConstraintStrSplitsBack` shows the parts are recovered from it |
| Legacy.ConstraintStrSplitsBack | fiql_parser.py:169-174 | when the selector and the printed comparison hold no space, the text determines the selector, whether an argument was printed, and then the comparison and the argument |
| Legacy.ToStr | fiql_parser.py:241-246 | the only failure is a recursion without end; flat and nested results are `LegacyFlatParse.ParseJoinedPrints` and `LegacyFlatParse.ParseNested`, and the text of a tree whose constraints print without parentheses is balanced by `PrintBalance.LegacyStrBalanced` |
| Legacy.SingleConstraintExpression | fiql_parser.py:241-246 | an Expression without parent whose one item is a constraint prints as that constraint |
| PrintBalance.LegacyStrBalanced | fiql_parser.py:241-246 | for every object of any tree whose constraints print without parentheses, a printed text has as many `(` as `)` |
| PrintBalance.JoinItemsBalanced | fiql_parser.py:243 | joining such items by spaces, operators printing their names, keeps them balanced |
| Legacy.IterParse | fiql_parser.py:249-285 | the pieces are empty exactly when the text is |
| Legacy.IterParseJoinsBack | fiql_parser.py:273-285 | without decoding, the pieces' texts joined give back the string |
| Legacy.IterParseAgrees | fiql_parser.py:41-42 | on text without `:`, the older module cuts the same pieces as the package |
| Legacy.IterParseAtConstraint | fiql_parser.py:278-285 | operator and parenthesis text and a whole constraint yield one piece with those parts, then the pieces of the rest |
| Legacy.IterParseAtSelector | fiql_parser.py:278-285 | operator and parenthesis text and a bare selector yield one piece, then the pieces of the rest |
| Legacy.IterParseNoConstraint | fiql_parser.py:275-277 | text without selector characters is one last piece |
| Legacy.PreambleChar | fiql_parser.py:302-308 | a success keeps the objects consistent and every parent link in place |
| Legacy.Preamble | fiql_parser.py:301-308 | likewise for a whole preamble |
| Legacy.ConstraintStep | fiql_parser.py:309-311 | likewise for adding a piece's constraint |
| Legacy.Step | fiql_parser.py:300-311 | likewise for one piece |
| Legacy.Run | fiql_parser.py:300-311 | likewise for all pieces |
| Legacy.Start | fiql_parser.py:298-299 | the walk starts with one object, an empty Expression without parent, which is both the result and the cursor |
| Legacy.Parse | fiql_parser.py:287-318 | a success is the first Expression, which has no parent and starts with a constraint or Expression; the tree for joined and for parenthesised constraints is `LegacyFlatParse.ParseJoined` and `LegacyFlatParse.ParseNested` |
| Legacy.PreambleCharNests | fiql_parser.py:303-306 | the cursor stays on a chain of parents down from the first Expression, one link longer after `(` and one shorter after `)` |
| Legacy.PreambleNests | fiql_parser.py:301-308 | after a preamble the chain has grown by its `(` count minus its `)` count |
| Legacy.RunNests | fiql_parser.py:300-311 | after all pieces the chain has grown by the `(` count minus the `)` count of all preambles |
| Legacy.PathBackToTop | fiql_parser.py:312-314 | a chain of parents from the first Expression back to it has no links |
| Legacy.ParensAreInPreambles | fiql_parser.py:273-285 | every parenthesis of the text is in some preamble |
| Legacy.ParseBalanced | fiql_parser.py:312-314 | a string that parses has as many `(` as `)` |
| LegacyFlatParse.ParseJoined | fiql_parser.py:287-318 | one or more constraints joined by `;` or `,` parse to the first Expression, which lists them in order, comparisons in common form, each with it as parent, with the operator between each two |
| LegacyFlatParse.JoinItemsFlat | fiql_parser.py:241-246 | such a list prints as the constraints' texts separated by ` AND ` or ` OR ` |
| LegacyFlatParse.ParseJoinedPrints | fiql_parser.py:287-318 | such a text parses and prints as the constraints' texts separated by ` AND ` or ` OR ` |
| LegacyFlatParse.ParseNested | fiql_parser.py:287-318 | `a op1 (b op2 c)` parses to the first Expression holding a, op1 and a nested Expression holding b, op2 and c with their parents set, and prints as `A OP1 ( B OP2 C )` |
| LegacyFlatParse.AndRow | tests/test_objects.py:121-122 | `foo==bar;goo=gt=5` parses and prints as `foo == bar AND goo > 5` |
| LegacyFlatParse.OrRow | tests/test_objects.py:123-124 | `foo==bar,goo=lt=5` parses and prints as `foo == bar OR goo < 5` |
| LegacyFlatParse.NestedRow | tests/test_objects.py:125-126 | `foo==bar,(goo=gt=5;goo=lt=10)` parses and prints as `foo == bar OR ( goo > 5 AND goo < 10 )` |
| LegacyObjects.Objects.NewExpression | fiql_parser.py:187-190 | the objects become what `Legacy.NewExpression` gives |
| LegacyObjects.Objects.NewConstraint | fiql_parser.py:154-167 | the objects become what `Legacy.NewConstraint` gives |
| LegacyObjects.Objects.SetParent | fiql_parser.py:114-126 | the objects become what `Legacy.SetParent` gives, or stay unchanged with its error |
| LegacyObjects.Objects.GetParent | fiql_parser.py:128-140 | the result is `Legacy.GetParent` of the objects |
| LegacyObjects.Objects.HasConstraint | fiql_parser.py:192-196 | the result is whether the first item is a constraint or Expression |
| LegacyObjects.Objects.AddElement | fiql_parser.py:198-228 | the objects become what `Legacy.AddElement` gives, or stay unchanged with its error |
| LegacyObjects.Objects.CreateNestedExpression | fiql_parser.py:230-239 | the objects and result are what `Legacy.CreateNestedExpression` gives; on failure the new Expression is still allocated |
| LegacyObjects.ParseStrToExpression | fiql_parser.py:287-318 | the method ends with the objects and result `Legacy.Parse` gives, or with its error |
| LegacyObjects.WalkPiece | fiql_parser.py:300-311 | one iteration of the parsing loop ends in the state or error `Legacy.Step` gives |
| LegacyObjects.PreambleCharStep | fiql_parser.py:302-308 | one preamble character ends in the state or error `Legacy.PreambleChar` gives |
| LegacyExamples.AddElementSequence | tests/test_objects.py:61-80 | a foreign value, a leading operator, two operands or two operators in a row are refused with their errors; `foo ; bar` is built |
| LegacyExamples.AddElementSequenceStr | tests/test_objects.py:81 | that Expression prints as `foo AND bar` |
| LegacyExamples.CreateNestedSequence | tests/test_objects.py:83-92 | nested Expressions have the Expression they were created in as parent; a second nested Expression in a row is refused |
| LegacyExamples.NestedAfterConstraint | tests/test_objects.py:93-98 | a nested Expression right after a constraint is refused |
| LegacyExamples.SetParentExamples | tests/test_objects.py:34-53 | a constraint or foreign value is refused as a parent; a parentless object has no parent to get; a set parent is got back |
| LegacyExamples.ConstraintStrExamples | tests/test_objects.py:20-32 | `foo` prints as `foo`, and `foo` `==` `bar` as `foo == bar` |
| LegacyExamples.ParseNestedTwice | tests/test_objects.py:127-128 | `((foo))` parses and prints as `( ( foo ) )` |
| LegacyExamples.ParseOneConstraint | tests/test_objects.py:113-118 | a single constraint parses and prints as selector, common comparison and argument separated by spaces |
| LegacyExamples.ParseOneSelector | tests/test_objects.py:119-120 | a bare selector parses and prints as itself |
| LegacyExamples.ParseEmpty | fiql_parser.py:315-317 | the empty string is refused for holding no constraint |
| LegacyExamples.ParseOperatorFirst | tests/test_objects.py:139 | operator characters before the first constraint, as in `;;foo`, are refused |
| LegacyExamples.NonOperatorStep | fiql_parser.py:308 | a preamble character other than a parenthesis or an operator symbol fails as an invalid operator |
| LegacyExamples.CloseAtTopStep | fiql_parser.py:305-306 | a `)` at the first Expression fails, as it has no parent |
| LegacyExamples.ParseUnknownOperator | fiql_parser.py:93-97 | `x&y` is refused with `&` named as an invalid operator |
| LegacyExamples.ParseUnclosed | tests/test_objects.py:141 | an opened group left unclosed is refused |
| LegacyExamples.ParseCloseAtTop | fiql_parser.py:137-139 | a `)` at the first Expression is refused |
| LegacyExamples.ParseEqualsSelector | tests/test_objects.py:136 | `foo=bar` is refused, `=` being taken for an operator |
| LegacyExamples.ParseLoneEquals | tests/test_objects.py:137-138 | `foo==` and `foo=` are refused, `=` being taken for an operator |
| LegacyExamples.GroupAfterGroupStep | fiql_parser.py:223-226 | a group right after a closed group is refused as an operand after an operand |
| LegacyExamples.ParseGroupAfterGroup | tests/test_objects.py:140 | `(foo)(bar)` is refused |

## Left out

- URL decoding and encoding (`unquote_plus`, `quote_plus`) are parameters, not modelled; the examples use the identity, so `%24` and `+` are not decoded in them.
- Python's recursion limit is a `fuel` count in `add_operator`; the recursion in `__str__` and `to_python` on a cyclic tree is cut by a set of visited ids instead. Both give `RecursionLimitExceeded`.
- Exception messages are not modelled; only which exception and which case.
- Object identity is an arena id. Python's `==` on Expressions (`current != expression`) is id equality, which is what the default `__eq__` does.
- `Expression._last_element` is set in the constructor and never read; it is not modelled.
- `__init__.py`, `setup.py` and the Python 2 and 3 compatibility imports are not part of this model.
- Operator `__str__` and `to_python` are `Operators.Symbol` and `Operators.Name`; the older module's `Operator` uses the same symbol table without precedence.
- tests/test_parse.py:37-50 also expect the conversion of two joined constraints to put the operator's name between their triples, and nested strings to print back unchanged. The code puts the name first (fiql_parser/expression.py:213-215). It also drops the parentheses of a group whose operator is not looser than its parent's, so `((foo))` prints as `foo`. The model follows the code: `ParseExamples.ParseTwoConstraints` states the two-constraint rows as the code computes them, and the nested rows are not stated.
- The parser examples are stated for any selectors (and comparisons and arguments) in the same positions rather than the literal strings; `(foo==bar` is stated as `(` followed by a bare selector.
- `Parser.Parse` and `Legacy.Parse` report only the error on failure; the half-built objects are not returned.
- Expressions.AddOperator: the function's own contract states only the non-operator error and consistency; each branch is stated by the `AddOperator…` lemmas, and the looser case at a fragment whose parent is not the receiver is stated only through `ExpressionArena.Arena.AddOperator`.
- Expressions.AddEach: states only that a foreign value ends in an error; the all-objects case is `Expressions.AddEachNodes`.
- Expressions.Connect: states only consistency; the fresh-Expression case is `Expressions.ConnectFresh`.
- Expressions.ConstraintConnect: states only consistency; its result is `Expressions.ConstraintConnectBuildsGroup`.
- Expressions.ToPython: states only the error kind; values are stated for Expressions whose elements are all constraints (`Expressions.FlatGroup`), not for deeper trees.
- Expressions.ToStr: likewise; for every tree whose constraints print without parentheses only the parenthesis balance is stated (`PrintBalance.StrBalanced`).
- Legacy.ToStr: likewise, with `LegacyFlatParse.ParseJoinedPrints`, `LegacyFlatParse.ParseNested` and `PrintBalance.LegacyStrBalanced`.
- Parenthesis balance of printed trees with parentheses inside a constraint: a decoded `%28` or `%29` puts a parenthesis into a selector or argument, and the package prints a selector without an argument unencoded (fiql_parser/constraint.py:112) while the older module never encodes (fiql_parser.py:169-174), so `foo%28` reads as the selector `foo(` and prints back as `foo(`, which is unbalanced. `PrintBalance.DecodedParenUnbalanced` states this case, and `PrintBalance` states balance only for trees whose constraints print without parentheses.
- Parser.Parse: the tree it builds is stated for constraints joined by one operator (`FlatParse.ParseJoined`); mixed operators and groups are stated only by the examples.
- Legacy.Parse: the tree it builds is stated for constraints joined by one operator and for one constraint followed by a parenthesised pair (`LegacyFlatParse.ParseJoined`, `LegacyFlatParse.ParseNested`).
- Parser.PreambleChar: states only consistency; the nesting level is `Parser.PreambleDepth`, the cases are the parse examples.
- Parser.Preamble, Parser.ConstraintStep, Parser.Step, Parser.Run: likewise.
- Legacy.PreambleChar, Legacy.Preamble, Legacy.ConstraintStep, Legacy.Step, Legacy.Run: likewise, with the nesting lemmas `Legacy.PreambleCharNests`, `Legacy.PreambleNests`, `Legacy.RunNests`.
- Grammar.Split: its own contract states only that the remainder shrinks; what it finds is `Grammar.SplitIsLeftmost` and `Grammar.SplitIsUnique`.
- Constraints.MapComparison: states the pass-through cases; the table entries are the constant `Constraints.ComparisonMap`.
- Parser.IterParse and Legacy.IterParse: state only emptiness; the pieces are stated by the `IterParse…` lemmas.
