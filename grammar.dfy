/**
  The FIQL grammar of section 3.2 of draft-nottingham-atompub-fiql-00, with the
  two changes the package makes: a comparison may hold no letter at all (so
  `==` is one), and an argument may hold `:`. Percent-encoding follows
  section 2.1 of RFC 3986 and unreserved characters section 2.3.

  Each rule is a recogniser on strings. The scanner below finds the leftmost
  constraint in a string the way the package's compiled constraint pattern
  does: a selector token can never start a comparison, so each part is the
  longest run of its own tokens and no backtracking is needed.
 */
module Grammar {
  import opened Wrappers

  // ---------------------------------------------------------------------------
  // Character classes
  // ---------------------------------------------------------------------------

  predicate IsAlpha(c: char) {
    'A' <= c <= 'Z' || 'a' <= c <= 'z'
  }

  predicate IsDigit(c: char) {
    '0' <= c <= '9'
  }

  predicate IsHexDigit(c: char) {
    IsDigit(c) || 'A' <= c <= 'F' || 'a' <= c <= 'f'
  }

  /** unreserved = ALPHA / DIGIT / "-" / "." / "_" / "~" */
  predicate IsUnreserved(c: char) {
    IsAlpha(c) || IsDigit(c) || c == '-' || c == '.' || c == '_' || c == '~'
  }

  /** fiql-delim = "!" / "$" / "'" / "*" / "+" */
  predicate IsFiqlDelim(c: char) {
    c == '!' || c == '$' || c == '\'' || c == '*' || c == '+'
  }

  /** pct-encoded = "%" HEXDIG HEXDIG, as a whole string */
  predicate IsPctEncoding(s: string) {
    |s| == 3 && s[0] == '%' && IsHexDigit(s[1]) && IsHexDigit(s[2])
  }

  /**
    The package allows `:` in arguments; the older single-file module does
    not. Nothing else in the grammar differs between the two.
   */
  datatype Dialect = Package | Legacy

  /** arg-char, less its percent-encoded alternative */
  predicate IsArgChar(c: char, d: Dialect) {
    IsUnreserved(c) || IsFiqlDelim(c) || c == '=' || (d == Package && c == ':')
  }

  predicate AllAlpha(s: string) {
    forall i | 0 <= i < |s| :: IsAlpha(s[i])
  }

  // ---------------------------------------------------------------------------
  // Rules, as whole-string recognisers
  // ---------------------------------------------------------------------------

  /** comparison = ( ( "=" *ALPHA ) / fiql-delim ) "=" */
  predicate IsComparison(s: string) {
    && |s| >= 2
    && s[|s| - 1] == '='
    && ((s[0] == '=' && AllAlpha(s[1..|s| - 1])) || (|s| == 2 && IsFiqlDelim(s[0])))
  }

  /** Zero or more selector tokens: unreserved characters or percent-encodings. */
  predicate SelectorChars(s: string)
    decreases |s|
  {
    || s == []
    || (IsUnreserved(s[0]) && SelectorChars(s[1..]))
    || (|s| >= 3 && IsPctEncoding(s[..3]) && SelectorChars(s[3..]))
  }

  /** selector = 1*( unreserved / pct-encoded ) */
  predicate IsSelector(s: string) {
    s != [] && SelectorChars(s)
  }

  /** Zero or more arg-chars, percent-encodings included. */
  predicate ArgChars(s: string, d: Dialect)
    decreases |s|
  {
    || s == []
    || (IsArgChar(s[0], d) && ArgChars(s[1..], d))
    || (|s| >= 3 && IsPctEncoding(s[..3]) && ArgChars(s[3..], d))
  }

  /** argument = 1*arg-char */
  predicate IsArgument(s: string, d: Dialect) {
    s != [] && ArgChars(s, d)
  }

  // ---------------------------------------------------------------------------
  // Scanner
  // ---------------------------------------------------------------------------

  /** A selector token (and so a constraint) starts at position i of s. */
  predicate StartsSelector(s: string, i: nat) {
    i < |s| && (IsUnreserved(s[i]) || (i + 3 <= |s| && IsPctEncoding(s[i..i + 3])))
  }

  /** An argument token starts at position i of s. */
  predicate StartsArgument(s: string, i: nat, d: Dialect) {
    i < |s| && (IsArgChar(s[i], d) || (i + 3 <= |s| && IsPctEncoding(s[i..i + 3])))
  }

  /** End of the longest run of selector tokens from position i. */
  function SelectorEnd(s: string, i: nat): (j: nat)
    requires i <= |s|
    ensures i <= j <= |s|
    ensures SelectorChars(s[i..j])
    ensures !StartsSelector(s, j)
    decreases |s| - i
  {
    if i < |s| && IsUnreserved(s[i]) then
      var j := SelectorEnd(s, i + 1);
      assert s[i..j][1..] == s[i + 1..j];
      j
    else if i + 3 <= |s| && IsPctEncoding(s[i..i + 3]) then
      var j := SelectorEnd(s, i + 3);
      assert s[i..j][..3] == s[i..i + 3] && s[i..j][3..] == s[i + 3..j];
      j
    else
      assert s[i..i] == [];
      i
  }

  /** End of the longest run of argument tokens from position i. */
  function ArgumentEnd(s: string, i: nat, d: Dialect): (j: nat)
    requires i <= |s|
    ensures i <= j <= |s|
    ensures ArgChars(s[i..j], d)
    ensures !StartsArgument(s, j, d)
    decreases |s| - i
  {
    if i < |s| && IsArgChar(s[i], d) then
      var j := ArgumentEnd(s, i + 1, d);
      assert s[i..j][1..] == s[i + 1..j];
      j
    else if i + 3 <= |s| && IsPctEncoding(s[i..i + 3]) then
      var j := ArgumentEnd(s, i + 3, d);
      assert s[i..j][..3] == s[i..i + 3] && s[i..j][3..] == s[i + 3..j];
      j
    else
      assert s[i..i] == [];
      i
  }

  /** End of the longest run of letters from position i. */
  function LettersEnd(s: string, i: nat): (j: nat)
    requires i <= |s|
    ensures i <= j <= |s|
    ensures AllAlpha(s[i..j])
    ensures j < |s| ==> !IsAlpha(s[j])
    decreases |s| - i
  {
    if i < |s| && IsAlpha(s[i]) then LettersEnd(s, i + 1) else i
  }

  /**
    The comparison that starts at position i, as its end position. Comparisons
    are prefix-free, so there is at most one.
   */
  function ComparisonEnd(s: string, i: nat): (r: Option<nat>)
    requires i <= |s|
    ensures forall k | i < k <= |s| :: IsComparison(s[i..k]) <==> r == Some(k)
  {
    if i < |s| && s[i] == '=' then
      var j := LettersEnd(s, i + 1);
      forall k | i < k <= |s| && IsComparison(s[i..k]) ensures k == j + 1 {
        EqualsComparisonEnd(s, i, j, k);
      }
      if j < |s| && s[j] == '=' then
        SliceOfSlice(s, i, j + 1, 1, j - i);
        Some(j + 1)
      else
        None
    else if i + 1 < |s| && IsFiqlDelim(s[i]) && s[i + 1] == '=' then
      Some(i + 2)
    else
      None
  }

  /** A comparison opened by `=` ends at the first `=` after its letters. */
  lemma EqualsComparisonEnd(s: string, i: nat, j: nat, k: nat)
    requires i < k <= |s| && s[i] == '=' && IsComparison(s[i..k])
    requires i + 1 <= j <= |s| && AllAlpha(s[i + 1..j]) && (j < |s| ==> !IsAlpha(s[j]))
    ensures k == j + 1
  {
    var t := s[i..k];
    assert |t| == k - i;
    assert t[0] == s[i];
    assert !IsFiqlDelim(t[0]);
    SliceOfSlice(s, i, k, 1, k - i - 1);
    assert t[|t| - 1] == s[k - 1];
    assert forall m | i + 1 <= m < j :: IsAlpha(s[m]) by {
      forall m | i + 1 <= m < j ensures IsAlpha(s[m]) { assert s[i + 1..j][m - (i + 1)] == s[m]; }
    }
    var u := t[1..|t| - 1];
    assert AllAlpha(u);
    assert u == s[i + 1..k - 1];
    assert forall m | i + 1 <= m < k - 1 :: IsAlpha(s[m]) by {
      forall m | i + 1 <= m < k - 1 ensures IsAlpha(s[m]) {
        assert u[m - (i + 1)] == s[m];
        assert IsAlpha(u[m - (i + 1)]);
      }
    }
  }

  /** The parts of one constraint match, in the order they appear. */
  datatype Match = Match(
    preamble: string,
    selector: string,
    comparison: Option<string>,
    argument: Option<string>,
    rest: string)

  function OptText(o: Option<string>): string {
    if o.Some? then o.value else ""
  }

  /** Position of the first selector token at or after i, or |s| when there is none. */
  function FirstConstraint(s: string, i: nat): (j: nat)
    requires i <= |s|
    ensures i <= j <= |s|
    ensures j < |s| <==> StartsSelector(s, j)
    ensures forall k | i <= k < j :: !StartsSelector(s, k)
    decreases |s| - i
  {
    if i == |s| || StartsSelector(s, i) then i else FirstConstraint(s, i + 1)
  }

  /**
    The tail of a constraint that starts at position j: the end of its
    comparison and of its argument, when a comparison and a non-empty
    argument both follow; None when the constraint is a bare selector.
   */
  function ComparisonArgumentEnd(s: string, j: nat, d: Dialect): (r: Option<(nat, nat)>)
    requires j <= |s|
    ensures r.Some? ==>
              && j < r.value.0 < r.value.1 <= |s|
              && IsComparison(s[j..r.value.0])
              && IsArgument(s[r.value.0..r.value.1], d)
              && !StartsArgument(s, r.value.1, d)
    ensures r.None? ==> forall k | j < k <= |s| && IsComparison(s[j..k]) :: !StartsArgument(s, k, d)
  {
    match ComparisonEnd(s, j)
    case Some(k) =>
      var l := ArgumentEnd(s, k, d);
      if l > k then Some((k, l))
      else
        assert !StartsArgument(s, k, d);
        None
    case None => None
  }

  /**
    m is the leftmost match of the constraint rule in s, taken as the
    pattern engine takes it: m's parts are consecutive slices of s; nothing
    before the selector starts a selector token; the selector is not followed
    by another selector token; the argument is not followed by another
    argument token; and when comparison and argument are absent, no
    comparison after the selector is followed by an argument token.
   */
  predicate IsLeftmostMatch(s: string, d: Dialect, m: Match) {
    && PartsAt(s, m)
    && PartsValid(m, d)
    && LeftmostAndLongest(s, d, m)
  }

  /** Where m's parts end in s: after the preamble, selector, comparison, argument. */
  function Ends(m: Match): (nat, nat, nat, nat) {
    var i := |m.preamble|;
    var j := i + |m.selector|;
    var k := j + |OptText(m.comparison)|;
    (i, j, k, k + |OptText(m.argument)|)
  }

  /** m's parts are consecutive slices of s. */
  predicate PartsAt(s: string, m: Match) {
    var (i, j, k, l) := Ends(m);
    && l <= |s|
    && m.preamble == s[..i]
    && m.selector == s[i..j]
    && OptText(m.comparison) == s[j..k]
    && OptText(m.argument) == s[k..l]
    && m.rest == s[l..]
  }

  /** Each part matches its rule, and comparison and argument come together. */
  predicate PartsValid(m: Match, d: Dialect) {
    && IsSelector(m.selector)
    && (m.comparison.Some? <==> m.argument.Some?)
    && (m.comparison.Some? ==> IsComparison(m.comparison.value) && IsArgument(m.argument.value, d))
  }

  /** The pattern engine's choice among the matches: leftmost, then greedy. */
  predicate LeftmostAndLongest(s: string, d: Dialect, m: Match) {
    var (i, j, k, l) := Ends(m);
    && l <= |s|
    && (forall x | 0 <= x < i :: !StartsSelector(s, x))
    && !StartsSelector(s, j)
    && (m.comparison.Some? ==> !StartsArgument(s, l, d))
    && (m.comparison.None? ==> forall x | j < x <= |s| && IsComparison(s[j..x]) :: !StartsArgument(s, x, d))
  }

  /**
    Splitting s once at the leftmost constraint: the text before it, its
    selector, its comparison and argument (both or neither) and the text
    after it. None when s holds no constraint.
   */
  function Split(s: string, d: Dialect): (r: Option<Match>)
    ensures r.Some? ==> |r.value.rest| < |s|
  {
    var i := FirstConstraint(s, 0);
    if i == |s| then None
    else
      var j := SelectorEnd(s, i);
      SelectorRunStarts(s, i);
      match ComparisonArgumentEnd(s, j, d)
      case Some((k, l)) => Some(Match(s[..i], s[i..j], Some(s[j..k]), Some(s[k..l]), s[l..]))
      case None => Some(Match(s[..i], s[i..j], None, None, s[j..]))
  }

  /**
    Split finds no constraint exactly when no selector token starts anywhere
    in s; otherwise what it returns is the leftmost, longest match, and its
    parts put together give s back.
   */
  lemma SplitIsLeftmost(s: string, d: Dialect)
    ensures var r := Split(s, d);
      && (r.None? <==> forall i | 0 <= i < |s| :: !StartsSelector(s, i))
      && (r.Some? ==> IsLeftmostMatch(s, d, r.value))
      && (r.Some? ==>
            r.value.preamble + r.value.selector + OptText(r.value.comparison)
            + OptText(r.value.argument) + r.value.rest == s)
  {
    var i := FirstConstraint(s, 0);
    if i < |s| {
      var j := SelectorEnd(s, i);
      SelectorRunStarts(s, i);
      match ComparisonArgumentEnd(s, j, d)
      case Some((k, l)) =>
        ScannedIsLeftmostSome(s, d, i, j, k, l, Match(s[..i], s[i..j], Some(s[j..k]), Some(s[k..l]), s[l..]));
      case None =>
        ScannedIsLeftmostNone(s, d, i, j, Match(s[..i], s[i..j], None, None, s[j..]));
    }
  }

  /** A split's parts are valid and join back into the string. */
  lemma SplitJoins(s: string, d: Dialect)
    ensures var r := Split(s, d);
      r.Some? ==>
        && PartsValid(r.value, d)
        && r.value.preamble + r.value.selector + OptText(r.value.comparison) + OptText(r.value.argument) + r.value.rest == s
  {
    SplitIsLeftmost(s, d);
  }

  /** What a split leaves: a shorter rest, and a comparison exactly when a non-empty argument. */
  lemma SplitFacts(s: string, d: Dialect)
    ensures var r := Split(s, d);
      r.Some? ==>
        && |r.value.rest| < |s|
        && PartsValid(r.value, d)
        && (r.value.comparison.Some? <==> r.value.argument.Some?)
        && (r.value.argument.Some? ==> r.value.argument.value != "")
  {
    var r := Split(s, d);
    SplitIsLeftmost(s, d);
    if r.Some? {
      var m := r.value;
      assert PartsValid(m, d);
      assert |s| == |m.preamble| + |m.selector| + |OptText(m.comparison)| + |OptText(m.argument)| + |m.rest|;
    }
  }

  lemma ScannedIsLeftmostSome(s: string, d: Dialect, i: nat, j: nat, k: nat, l: nat, m: Match)
    requires i < j <= |s| && i == FirstConstraint(s, 0) && j == SelectorEnd(s, i)
    requires ComparisonArgumentEnd(s, j, d) == Some((k, l))
    requires m == Match(s[..i], s[i..j], Some(s[j..k]), Some(s[k..l]), s[l..])
    ensures IsLeftmostMatch(s, d, m)
    ensures m.preamble + m.selector + OptText(m.comparison) + OptText(m.argument) + m.rest == s
  {
    assert Ends(m) == (i, j, k, l);
    assert PartsAt(s, m);
    assert PartsValid(m, d);
    assert LeftmostAndLongest(s, d, m);
    SliceConcat(s, i, j, k, l);
  }

  lemma ScannedIsLeftmostNone(s: string, d: Dialect, i: nat, j: nat, m: Match)
    requires i < j <= |s| && i == FirstConstraint(s, 0) && j == SelectorEnd(s, i)
    requires ComparisonArgumentEnd(s, j, d) == None
    requires m == Match(s[..i], s[i..j], None, None, s[j..])
    ensures IsLeftmostMatch(s, d, m)
    ensures m.preamble + m.selector + OptText(m.comparison) + OptText(m.argument) + m.rest == s
  {
    assert Ends(m) == (i, j, j, j);
    assert s[j..j] == [];
    assert PartsAt(s, m);
    assert PartsValid(m, d);
    assert LeftmostAndLongest(s, d, m);
    SliceConcat(s, i, j, j, j);
  }

  /** A selector token at i makes the run from i non-empty. */
  lemma SelectorRunStarts(s: string, i: nat)
    requires i < |s| && StartsSelector(s, i)
    ensures SelectorEnd(s, i) > i
  {
  }

  lemma SliceConcat(s: string, i: nat, j: nat, k: nat, l: nat)
    requires i <= j <= k <= l <= |s|
    ensures s[..i] + s[i..j] + s[j..k] + s[k..l] + s[l..] == s
  {
    assert s[..i] + s[i..j] == s[..j];
    assert s[..j] + s[j..k] == s[..k];
    assert s[..k] + s[k..l] == s[..l];
  }

  lemma SliceOfSlice(s: string, a: nat, b: nat, c: nat, d: nat)
    requires a <= b <= |s| && c <= d <= b - a
    ensures s[a..b][c..d] == s[a + c..a + d]
  {
    var t := s[a..b];
    assert |t[c..d]| == d - c;
    forall m | 0 <= m < d - c ensures t[c..d][m] == s[a + c + m] {
    }
  }

  // ---------------------------------------------------------------------------
  // The scanner agrees with the recognisers
  // ---------------------------------------------------------------------------

  /**
    Selector tokens split a string in one way only: a run of them from i that
    is not followed by another token ends where SelectorEnd says.
   */
  lemma {:induction false} SelectorRunEnd(s: string, i: nat, k: nat)
    requires i <= k <= |s| && SelectorChars(s[i..k]) && !StartsSelector(s, k)
    ensures k == SelectorEnd(s, i)
    decreases k - i
  {
    var t := s[i..k];
    if k > i {
      if IsUnreserved(t[0]) && SelectorChars(t[1..]) {
        assert t[1..] == s[i + 1..k];
        SelectorRunEnd(s, i + 1, k);
      } else {
        assert t[..3] == s[i..i + 3] && t[3..] == s[i + 3..k];
        SelectorRunEnd(s, i + 3, k);
      }
    }
  }

  /** The same for argument tokens. */
  lemma {:induction false} ArgumentRunEnd(s: string, i: nat, k: nat, d: Dialect)
    requires i <= k <= |s| && ArgChars(s[i..k], d) && !StartsArgument(s, k, d)
    ensures k == ArgumentEnd(s, i, d)
    decreases k - i
  {
    var t := s[i..k];
    if k > i {
      if IsArgChar(t[0], d) && ArgChars(t[1..], d) {
        assert t[1..] == s[i + 1..k];
        ArgumentRunEnd(s, i + 1, k, d);
      } else {
        assert t[..3] == s[i..i + 3] && t[3..] == s[i + 3..k];
        ArgumentRunEnd(s, i + 3, k, d);
      }
    }
  }

  /** A whole string is a selector exactly when the scanner consumes all of it. */
  lemma SelectorIffScanned(s: string)
    ensures IsSelector(s) <==> s != [] && SelectorEnd(s, 0) == |s|
  {
    assert s[0..|s|] == s;
    if IsSelector(s) {
      SelectorRunEnd(s, 0, |s|);
    }
  }

  /** A whole string is an argument exactly when the scanner consumes all of it. */
  lemma ArgumentIffScanned(s: string, d: Dialect)
    ensures IsArgument(s, d) <==> s != [] && ArgumentEnd(s, 0, d) == |s|
  {
    assert s[0..|s|] == s;
    if IsArgument(s, d) {
      ArgumentRunEnd(s, 0, |s|, d);
    }
  }

  /**
    The leftmost match is unique: whatever satisfies IsLeftmostMatch is what
    Split returns.
   */
  lemma SplitIsUnique(s: string, d: Dialect, m: Match)
    requires IsLeftmostMatch(s, d, m)
    ensures Split(s, d) == Some(m)
  {
    var (i, j, k, l) := Ends(m);
    assert PartsAt(s, m) && PartsValid(m, d) && LeftmostAndLongest(s, d, m);
    SelectorRunFirst(s, i, j);
    if m.comparison.Some? {
      TailSome(s, d, j, k, l);
    } else {
      TailNone(s, d, j);
    }
  }

  lemma SelectorRunFirst(s: string, i: nat, j: nat)
    requires i < j <= |s| && IsSelector(s[i..j]) && !StartsSelector(s, j)
    requires forall k | 0 <= k < i :: !StartsSelector(s, k)
    ensures FirstConstraint(s, 0) == i && SelectorEnd(s, i) == j
  {
    var t := s[i..j];
    assert StartsSelector(s, i) by {
      assert t[0] == s[i];
      if !IsUnreserved(t[0]) {
        assert t[..3] == s[i..i + 3];
      }
    }
    FirstConstraintIsFirst(s, i);
    SelectorRunEnd(s, i, j);
  }

  lemma FirstConstraintIsFirst(s: string, i: nat)
    requires i < |s| && StartsSelector(s, i)
    requires forall k | 0 <= k < i :: !StartsSelector(s, k)
    ensures FirstConstraint(s, 0) == i
  {
  }

  lemma TailSome(s: string, d: Dialect, j: nat, k: nat, l: nat)
    requires j < k < l <= |s|
    requires IsComparison(s[j..k]) && IsArgument(s[k..l], d) && !StartsArgument(s, l, d)
    ensures ComparisonArgumentEnd(s, j, d) == Some((k, l))
  {
    assert ComparisonEnd(s, j) == Some(k);
    ArgumentRunEnd(s, k, l, d);
  }

  lemma TailNone(s: string, d: Dialect, j: nat)
    requires j <= |s|
    requires forall k | j < k <= |s| && IsComparison(s[j..k]) :: !StartsArgument(s, k, d)
    ensures ComparisonArgumentEnd(s, j, d) == None
  {
    match ComparisonEnd(s, j)
    case Some(k) =>
      assert IsComparison(s[j..k]);
    case None =>
  }

  // ---------------------------------------------------------------------------
  // Splitting text built from known parts
  // ---------------------------------------------------------------------------

  /** A character that can neither start a selector token nor belong to one. */
  predicate OutsideSelector(c: char) {
    !IsUnreserved(c) && c != '%'
  }

  /**
    A constraint with comparison and argument, between text that holds no
    selector character and text that does not go on with the argument, is
    what Split finds.
   */
  lemma SplitAtConstraint(pre: string, sel: string, cmp: string, arg: string, rest: string, d: Dialect)
    requires forall i | 0 <= i < |pre| :: OutsideSelector(pre[i])
    requires IsSelector(sel) && IsComparison(cmp) && IsArgument(arg, d)
    requires rest == [] || (!IsArgChar(rest[0], d) && rest[0] != '%')
    ensures Split(pre + sel + cmp + arg + rest, d) == Some(Match(pre, sel, Some(cmp), Some(arg), rest))
  {
    var s := pre + sel + cmp + arg + rest;
    var m := Match(pre, sel, Some(cmp), Some(arg), rest);
    var (i, j, k, l) := Ends(m);
    PartsOfConcat(pre, sel, cmp, arg, rest);
    assert PartsAt(s, m);
    assert PartsValid(m, d);
    forall x | 0 <= x < i ensures !StartsSelector(s, x) {
      assert s[x] == pre[x];
    }
    assert s[j] == cmp[0];
    assert l < |s| ==> s[l] == rest[0];
    assert LeftmostAndLongest(s, d, m);
    SplitIsUnique(s, d, m);
  }

  /**
    A bare selector, between text that holds no selector character and text
    that can start neither a selector nor a comparison, is what Split finds.
   */
  lemma SplitAtSelector(pre: string, sel: string, rest: string, d: Dialect)
    requires forall i | 0 <= i < |pre| :: OutsideSelector(pre[i])
    requires IsSelector(sel)
    requires rest == [] || (OutsideSelector(rest[0]) && rest[0] != '=' && !IsFiqlDelim(rest[0]))
    ensures Split(pre + sel + rest, d) == Some(Match(pre, sel, None, None, rest))
  {
    var s := pre + sel + rest;
    var m := Match(pre, sel, None, None, rest);
    var (i, j, k, l) := Ends(m);
    PartsOfConcat(pre, sel, [], [], rest);
    assert pre + sel + [] + [] + rest == s;
    assert PartsAt(s, m);
    forall x | 0 <= x < i ensures !StartsSelector(s, x) {
      assert s[x] == pre[x];
    }
    assert j < |s| ==> s[j] == rest[0];
    forall x | j < x <= |s| ensures !IsComparison(s[j..x]) {
      assert s[j..x][0] == s[j];
    }
    assert LeftmostAndLongest(s, d, m);
    SplitIsUnique(s, d, m);
  }

  /** No selector token holds `=`. */
  lemma {:induction false} SelectorCharsNoEquals(s: string)
    requires SelectorChars(s)
    ensures forall i | 0 <= i < |s| :: s[i] != '='
    decreases |s|
  {
    if s != [] {
      if IsUnreserved(s[0]) && SelectorChars(s[1..]) {
        SelectorCharsNoEquals(s[1..]);
        forall i | 1 <= i < |s| ensures s[i] != '=' {
          assert s[i] == s[1..][i - 1];
        }
      } else {
        SelectorCharsNoEquals(s[3..]);
        assert IsPctEncoding(s[..3]);
        forall i | 0 <= i < |s| ensures s[i] != '=' {
          if i < 3 {
            assert s[i] == s[..3][i];
          } else {
            assert s[i] == s[3..][i - 3];
          }
        }
      }
    }
  }

  /**
    A selector followed by `=` and then by text without `=`, or by one more
    `=` and nothing else: no comparison there is followed by an argument, so
    Split takes the bare selector and leaves the `=` to the rest.
   */
  lemma SplitAtLoneEquals(sel: string, t: string, d: Dialect)
    requires IsSelector(sel)
    requires t == "=" || forall i | 0 <= i < |t| :: t[i] != '='
    ensures Split(sel + "=" + t, d) == Some(Match("", sel, None, None, "=" + t))
  {
    var s := sel + "=" + t;
    var j := |sel|;
    assert s[..0] == "" && s[0..j] == sel && s[j..] == "=" + t;
    SelectorRunFirst(s, 0, j);
    LoneEqualsTail(s, j, t, d);
    var m := Match(s[..0], s[0..j], None, None, s[j..]);
    ScannedIsLeftmostNone(s, d, 0, j, m);
    SplitIsUnique(s, d, m);
  }

  /** A lone `=` (or `==` closing the text) has no argument after it. */
  lemma LoneEqualsTail(s: string, j: nat, t: string, d: Dialect)
    requires j < |s| && s[j..] == "=" + t
    requires t == "=" || forall i | 0 <= i < |t| :: t[i] != '='
    ensures ComparisonArgumentEnd(s, j, d) == None
  {
    forall k | j < k <= |s| ensures IsComparison(s[j..k]) ==> k == |s| {
      var c := s[j..k];
      if k - 1 > j {
        assert s[k - 1] == s[j..][k - 1 - j] == t[k - j - 2];
        assert c[|c| - 1] == s[k - 1];
      }
    }
    TailNone(s, d, j);
  }

  lemma PartsOfConcat(a: string, b: string, c: string, e: string, f: string)
    ensures var s := a + b + c + e + f;
      var i := |a|; var j := i + |b|; var k := j + |c|; var l := k + |e|;
      && s[..i] == a && s[i..j] == b && s[j..k] == c && s[k..l] == e && s[l..] == f
  {
    var s := a + b + c + e + f;
    var i := |a|; var j := i + |b|; var k := j + |c|; var l := k + |e|;
    assert s[..i] == a;
    assert s[i..j] == b;
    assert s[j..k] == c;
    assert s[k..l] == e;
    assert s[l..] == f;
  }

  // ---------------------------------------------------------------------------
  // The anchored comparison pattern
  // ---------------------------------------------------------------------------

  /**
    The full-string comparison check. The pattern is anchored with `^` and
    `$`, and `$` also matches just before a final newline, so a comparison
    followed by one `\n` passes as well.
   */
  predicate MatchesComparisonPattern(s: string) {
    || IsComparison(s)
    || (|s| >= 1 && s[|s| - 1] == '\n' && IsComparison(s[..|s| - 1]))
  }

  /** The anchored check accepts no proper prefix or extension of a comparison but the newline one. */
  lemma ComparisonPatternIsWhole(s: string, t: string)
    requires IsComparison(s) && t != [] && t != "\n"
    ensures !MatchesComparisonPattern(s + t)
  {
    var u := s + t;
    if IsComparison(u) {
      ComparisonNotExtended(s, t);
    } else if |u| >= 1 && u[|u| - 1] == '\n' && IsComparison(u[..|u| - 1]) {
      assert u[..|u| - 1] == s + t[..|t| - 1];
      ComparisonNotExtended(s, t[..|t| - 1]);
    }
  }

  /** Comparisons are prefix-free: no comparison extends another. */
  lemma ComparisonNotExtended(s: string, t: string)
    requires IsComparison(s) && t != []
    ensures !IsComparison(s + t)
  {
    var u := s + t;
    var r := ComparisonEnd(u, 0);
    assert u[0..|s|] == s && u[0..|u|] == u;
  }

  // ---------------------------------------------------------------------------
  // Examples
  // ---------------------------------------------------------------------------

  lemma ComparisonExamples()
    ensures IsComparison("==") && IsComparison("=gt=") && IsComparison("+=")
    ensures IsComparison("!=") && IsComparison("=le=")
    ensures !IsComparison("=") && !IsComparison("=gt") && !IsComparison("=01=")
  {
    assert "=gt="[1..3] == "gt";
    assert "=le="[1..3] == "le";
    assert "=01="[1..3][0] == '0';
  }

  lemma PctEncodingExamples()
    ensures IsPctEncoding("%5E") && IsPctEncoding("%ad")
    ensures !IsPctEncoding("%A") && !IsPctEncoding("%G1") && !IsPctEncoding("%AAA")
  {
  }

  lemma SelectorExamples()
    ensures IsSelector("ABC%3Edef_34%04")
  {
    var a, b, c, d := "ABC", "%3E", "def_34", "%04";
    UnreservedRun(a);
    UnreservedRun(c);
    assert SelectorChars(b) by { assert b[..3] == b && b[3..] == []; }
    assert SelectorChars(d) by { assert d[..3] == d && d[3..] == []; }
    SelectorCharsConcat(c, d);
    SelectorCharsConcat(b, c + d);
    SelectorCharsConcat(a, b + (c + d));
    assert a + (b + (c + d)) == "ABC%3Edef_34%04";
  }

  /** A run of unreserved characters is a run of selector tokens. */
  lemma {:induction false} UnreservedRun(s: string)
    requires forall i | 0 <= i < |s| :: IsUnreserved(s[i])
    ensures SelectorChars(s)
    decreases |s|
  {
    if s != [] {
      assert forall i | 0 <= i < |s[1..]| :: s[1..][i] == s[i + 1];
      UnreservedRun(s[1..]);
    }
  }

  lemma NonSelectorExamples()
    ensures !IsSelector("") && !IsSelector("#") && !IsSelector("!") && !IsSelector("=")
  {
  }

  /** Two runs of selector tokens make one. */
  lemma {:induction false} SelectorCharsConcat(a: string, b: string)
    requires SelectorChars(a) && SelectorChars(b)
    ensures SelectorChars(a + b)
    decreases |a|
  {
    if a == [] {
      assert a + b == b;
    } else if IsUnreserved(a[0]) && SelectorChars(a[1..]) {
      SelectorCharsConcat(a[1..], b);
      assert (a + b)[1..] == a[1..] + b;
    } else {
      SelectorCharsConcat(a[3..], b);
      assert (a + b)[..3] == a[..3] && (a + b)[3..] == a[3..] + b;
    }
  }

  /** Without `%`, a string is a run of argument tokens exactly when each character is an arg-char. */
  lemma {:induction false} ArgCharsWithoutPct(s: string, d: Dialect)
    requires forall i | 0 <= i < |s| :: s[i] != '%'
    ensures ArgChars(s, d) <==> forall i | 0 <= i < |s| :: IsArgChar(s[i], d)
    decreases |s|
  {
    if s != [] {
      assert forall i | 0 <= i < |s| - 1 :: s[1..][i] == s[i + 1];
      ArgCharsWithoutPct(s[1..], d);
      if forall i | 0 <= i < |s[1..]| :: IsArgChar(s[1..][i], d) {
        assert forall i | 1 <= i < |s| :: IsArgChar(s[i], d) by {
          forall i | 1 <= i < |s| ensures IsArgChar(s[i], d) { assert s[1..][i - 1] == s[i]; }
        }
      }
    }
  }

  /** A time of day: `:` is an arg-char of the package only. */
  lemma ArgumentColonExample()
    ensures IsArgument("10:30Z", Package)
    ensures !IsArgument("10:30Z", Legacy)
  {
    var s := "10:30Z";
    ArgCharsWithoutPct(s, Package);
    ArgCharsWithoutPct(s, Legacy);
    assert !IsArgChar(s[2], Legacy);
  }

  /** Without `:`, the two dialects accept the same runs of argument tokens. */
  lemma {:induction false} ArgCharsWithoutColon(s: string)
    requires forall i | 0 <= i < |s| :: s[i] != ':'
    ensures ArgChars(s, Legacy) <==> ArgChars(s, Package)
    decreases |s|
  {
    if s != [] {
      assert forall i | 0 <= i < |s| - 1 :: s[1..][i] == s[i + 1];
      ArgCharsWithoutColon(s[1..]);
      if |s| >= 3 {
        assert forall i | 0 <= i < |s| - 3 :: s[3..][i] == s[i + 3];
        ArgCharsWithoutColon(s[3..]);
      }
    }
  }

  /** On a string without `:`, both dialects split at the same place into the same parts. */
  lemma SplitDialectsAgree(s: string)
    requires forall i | 0 <= i < |s| :: s[i] != ':'
    ensures Split(s, Legacy) == Split(s, Package)
  {
    SplitIsLeftmost(s, Package);
    match Split(s, Package)
    case None =>
      SplitIsLeftmost(s, Legacy);
    case Some(m) =>
      LeftmostInBothDialects(s, m);
      SplitIsUnique(s, Legacy, m);
  }

  /** Legacy's arg-chars are among the package's, so without `:` a leftmost, longest match stays one. */
  lemma LeftmostInBothDialects(s: string, m: Match)
    requires forall i | 0 <= i < |s| :: s[i] != ':'
    requires IsLeftmostMatch(s, Package, m)
    ensures IsLeftmostMatch(s, Legacy, m)
  {
    var (i, j, k, l) := Ends(m);
    assert PartsAt(s, m) && PartsValid(m, Package) && LeftmostAndLongest(s, Package, m);
    if m.argument.Some? {
      var a := m.argument.value;
      assert a == s[k..l];
      assert forall x | 0 <= x < |a| :: a[x] == s[k + x];
      ArgCharsWithoutColon(a);
    }
    assert PartsValid(m, Legacy);
    assert LeftmostAndLongest(s, Legacy, m);
  }

  lemma ArgumentExamples()
    ensures !IsArgument("?", Package) && !IsArgument("&", Package)
    ensures !IsArgument(",", Package) && !IsArgument(";", Package) && !IsArgument("", Package)
  {
  }

  lemma SplitExampleFull()
    ensures Split("foo=gt=bar", Package) == Some(Match("", "foo", Some("=gt="), Some("bar"), ""))
  {
    var s := "foo=gt=bar";
    var m := Match("", "foo", Some("=gt="), Some("bar"), "");
    assert Ends(m) == (0, 3, 7, 10);
    assert s[..0] == "" && s[0..3] == "foo" && s[3..7] == "=gt=" && s[7..10] == "bar" && s[10..] == "";
    assert PartsAt(s, m);
    assert "foo"[1..][1..][1..] == [];
    assert "bar"[1..][1..][1..] == [];
    assert "=gt="[1..3] == "gt";
    assert PartsValid(m, Package);
    assert LeftmostAndLongest(s, Package, m);
    SplitIsUnique(s, Package, m);
  }

  lemma SplitExampleNoArgument()
    ensures Split("foo==", Package) == Some(Match("", "foo", None, None, "=="))
  {
    var s := "foo==";
    var m := Match("", "foo", None, None, "==");
    assert Ends(m) == (0, 3, 3, 3);
    assert s[..0] == "" && s[0..3] == "foo" && s[3..3] == "" && s[3..] == "==";
    assert PartsAt(s, m);
    assert "foo"[1..][1..][1..] == [];
    assert PartsValid(m, Package);
    forall x | 3 < x <= 5 && IsComparison(s[3..x]) ensures !StartsArgument(s, x, Package) {
      assert x == 5 by { assert s[3..4] == "="; }
    }
    assert LeftmostAndLongest(s, Package, m);
    SplitIsUnique(s, Package, m);
  }

  lemma SplitExampleNoComparison()
    ensures Split("foo=bar", Package) == Some(Match("", "foo", None, None, "=bar"))
  {
    var s := "foo=bar";
    var m := Match("", "foo", None, None, "=bar");
    assert Ends(m) == (0, 3, 3, 3);
    assert s[..0] == "" && s[0..3] == "foo" && s[3..3] == "" && s[3..] == "=bar";
    assert PartsAt(s, m);
    assert "foo"[1..][1..][1..] == [];
    assert PartsValid(m, Package);
    forall x | 3 < x <= 7 ensures !IsComparison(s[3..x]) {
      var t := s[3..x];
      assert t[|t| - 1] == s[x - 1];
    }
    assert LeftmostAndLongest(s, Package, m);
    SplitIsUnique(s, Package, m);
  }

  lemma SplitExampleTrailingEquals()
    ensures Split("foo=", Package) == Some(Match("", "foo", None, None, "="))
  {
    var s := "foo=";
    var m := Match("", "foo", None, None, "=");
    assert Ends(m) == (0, 3, 3, 3);
    assert s[..0] == "" && s[0..3] == "foo" && s[3..3] == "" && s[3..] == "=";
    assert PartsAt(s, m);
    assert "foo"[1..][1..][1..] == [];
    assert PartsValid(m, Package);
    forall x | 3 < x <= 4 ensures !IsComparison(s[3..x]) {
      assert s[3..x] == "=";
    }
    assert LeftmostAndLongest(s, Package, m);
    SplitIsUnique(s, Package, m);
  }

  lemma SplitExampleNone()
    ensures Split(";(", Package) == None
  {
  }
}
