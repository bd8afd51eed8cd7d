/**
 * Expansions of templates made of a single expression, and of a few
 * concrete templates, worked through the model of `URITemplate`
 * (libapi/templates.py:44-78).
 */
module TemplateExamples {
  import opened Optional
  import opened PercentEncoding
  import opened Templates

  /** A name the pattern takes whole after the operator `op`. */
  predicate IsPlainName(op: string, name: string) {
    && (forall k :: 0 <= k < |name| ==> name[k] != '}' && name[k] != '\n')
    && (op == "" && name != "" ==> name[0] != '+' && name[0] != '#')
  }

  /** A template that is exactly one expression is that expression, from its first character to its last. */
  lemma SingleExpressionAt(op: string, name: string)
    requires op == "" || op == "+" || op == "#"
    requires IsPlainName(op, name)
    ensures var t := "{" + op + name + "}";
      IsExpressionAt(t, Variable(op, name, 0, |t|))
  {
    var t := "{" + op + name + "}";
    assert t[1 .. 1 + |op|] == op;
    assert t[1 + |op| .. |t| - 1] == name;
    forall k | 1 <= k < |t| - 1
      ensures t[k] != '}' && t[k] != '\n'
    {
      if k <= |op| {
        assert t[k] == op[k - 1];
      } else {
        assert t[k] == name[k - 1 - |op|];
      }
    }
  }

  /** A template that is exactly one expression has that expression as its only match. */
  lemma SingleMatch(op: string, name: string)
    requires op == "" || op == "+" || op == "#"
    requires IsPlainName(op, name)
    ensures var t := "{" + op + name + "}";
      Matches(t) == [Variable(op, name, 0, |t|)]
  {
    var t := "{" + op + name + "}";
    SingleExpressionAt(op, name);
    MatchAtComplete(t, Variable(op, name, 0, |t|));
    assert Scan(t, |t|) == [];
  }

  /** A template whose only match spans all of it expands to that match's replacement. */
  lemma WholeExpansion(t: string, v: Variable, values: map<string, Option<string>>)
    requires Matches(t) == [v] && v.start == 0 && v.end == |t|
    ensures Expansion(t, values) == Replacement(v, values)
  {
    MatchesPlaced(t);
    var reps := Replacements([v], values);
    assert reps == [Replacement(v, values)];
    assert ExpandFrom(t, [], [], |t|) == "";
    assert ExpandFrom(t, [v], reps, 0) == t[0..0] + reps[0] + ExpandFrom(t, [], [], |t|);
    assert t[0..0] == "";
  }

  /** A template that is exactly one expression expands to that expression's replacement. */
  lemma SingleExpression(op: string, name: string, values: map<string, Option<string>>)
    requires op == "" || op == "+" || op == "#"
    requires IsPlainName(op, name)
    ensures var t := "{" + op + name + "}";
      Expansion(t, values) == Replacement(Variable(op, name, 0, |t|), values)
  {
    SingleMatch(op, name);
    var t := "{" + op + name + "}";
    WholeExpansion(t, Variable(op, name, 0, |t|), values);
  }

  /** Zero-length names are accepted, with and without an operator. */
  lemma ZeroLengthNames()
    ensures Matches("{}") == [Variable("", "", 0, 2)]
    ensures Matches("{+}") == [Variable("+", "", 0, 3)]
    ensures Matches("{#}") == [Variable("#", "", 0, 3)]
  {
    assert "{" + "" + "" + "}" == "{}";
    assert "{" + "+" + "" + "}" == "{+}";
    assert "{" + "#" + "" + "}" == "{#}";
    SingleMatch("", "");
    SingleMatch("+", "");
    SingleMatch("#", "");
  }

  /** A name may contain '{': the match runs from the first '{' to the first '}'. */
  lemma BraceInName()
    ensures Matches("{a{b}") == [Variable("", "a{b", 0, 5)]
  {
    assert "{" + "" + "a{b" + "}" == "{a{b}";
    SingleMatch("", "a{b");
  }

  /** `{a}` expands to its value, and to nothing when `a` is absent. */
  lemma Simple()
    ensures Expansion("{a}", map["a" := Some("x")]) == "x"
    ensures Expansion("{a}", map[]) == ""
  {
    assert "{" + "" + "a" + "}" == "{a}";
    SingleExpression("", "a", map["a" := Some("x")]);
    SingleExpression("", "a", map[]);
    UnreservedPassThrough("x", false);
  }

  /** A '/' is kept by reserved encoding and escaped by plain encoding. */
  lemma Slash()
    ensures PctEncode("/", true) == "/"
    ensures PctEncode("/", false) == "%2F"
  {
  }

  /** Reserved encoding keeps '/' and escapes the space. */
  lemma SlashSpace()
    ensures PctEncode("/ ", true) == "/%20"
  {
    Slash();
    assert PctEncode(" ", true) == "%20";
    PctEncodeAppend("/", " ", true);
    assert "/" + " " == "/ ";
  }

  /** `{+a}` keeps reserved characters and escapes the space; `{a}` escapes both. */
  lemma Reserved()
    ensures Expansion("{+a}", map["a" := Some("/ ")]) == "/%20"
    ensures Expansion("{a}", map["a" := Some("/")]) == "%2F"
  {
    assert "{" + "+" + "a" + "}" == "{+a}";
    assert "{" + "" + "a" + "}" == "{a}";
    SingleExpression("+", "a", map["a" := Some("/ ")]);
    SingleExpression("", "a", map["a" := Some("/")]);
    SlashSpace();
    Slash();
  }

  /** `{#a}` prefixes '#', also for a value of `None`. */
  lemma Fragment()
    ensures Expansion("{#a}", map["a" := Some("x")]) == "#x"
    ensures Expansion("{#a}", map["a" := None]) == "#"
  {
    assert "{" + "#" + "a" + "}" == "{#a}";
    SingleExpression("#", "a", map["a" := Some("x")]);
    SingleExpression("#", "a", map["a" := None]);
    UnreservedPassThrough("x", true);
    UnreservedPassThrough("", true);
  }

  /** `{}` is an expression with the empty name. */
  lemma EmptyName()
    ensures Expansion("{}", map["" := Some("z")]) == "z"
  {
    assert "{" + "" + "" + "}" == "{}";
    SingleExpression("", "", map["" := Some("z")]);
    UnreservedPassThrough("z", false);
  }

  /** The scan of `{a}/{a}` from the '/' finds the second expression only. */
  lemma ScanRepeatedTail()
    ensures Scan("{a}/{a}", 3) == [Variable("", "a", 4, 7)]
  {
    var t := "{a}/{a}";
    var v2 := Variable("", "a", 4, 7);
    assert t[5..6] == "a";
    assert IsExpressionAt(t, v2);
    MatchAtComplete(t, v2);
    assert Scan(t, 7) == [];
    assert Scan(t, 4) == [v2];
  }

  /** The matches of `{a}/{a}`: the same name twice, the '/' between them literal. */
  lemma MatchesRepeated()
    ensures Matches("{a}/{a}") == [Variable("", "a", 0, 3), Variable("", "a", 4, 7)]
  {
    var t := "{a}/{a}";
    var v1 := Variable("", "a", 0, 3);
    assert t[1..2] == "a";
    assert IsExpressionAt(t, v1);
    MatchAtComplete(t, v1);
    ScanRepeatedTail();
  }

  /** Two spans are placed when the first ends before the second starts, both within the text. */
  lemma PlacedTwo(t: string, v1: Variable, v2: Variable)
    ensures Placed(t, [v1, v2], 0) <==> v1.start < v1.end <= v2.start < v2.end <= |t|
  {
    assert [v1, v2][0] == v1 && [v1, v2][1] == v2;
  }

  /** Two matches are placed, and the expansion is over them. */
  lemma TwoMatchesUnfold(t: string, v1: Variable, v2: Variable, values: map<string, Option<string>>)
    requires Matches(t) == [v1, v2] && v1.start == 0 && v2.end == |t|
    ensures Placed(t, [v1, v2], 0)
    ensures Expansion(t, values) == ExpandFrom(t, [v1, v2], Replacements([v1, v2], values), 0)
  {
    MatchesPlaced(t);
  }

  /** The replacements of two spans, written out. */
  lemma ReplacementsTwo(v1: Variable, v2: Variable, values: map<string, Option<string>>)
    ensures Replacements([v1, v2], values) == [Replacement(v1, values), Replacement(v2, values)]
  {
    assert [v1, v2][1..] == [v2];
  }

  /** A last span that ends the text leaves the gap before it and its replacement. */
  lemma ExpandLast(t: string, v: Variable, r: string, pos: nat)
    requires pos <= v.start < v.end == |t|
    ensures Placed(t, [v], pos) && ExpandFrom(t, [v], [r], pos) == t[pos..v.start] + r
  {
    assert Placed(t, [], |t|) && ExpandFrom(t, [], [], |t|) == [];
    assert [v][1..] == [] && [r][1..] == [];
    assert ExpandFrom(t, [v], [r], pos) == t[pos..v.start] + r + [];
    assert t[pos..v.start] + r + [] == t[pos..v.start] + r;
  }

  /** Two spans that cover the text from its first character to its last leave only the text between them. */
  lemma ExpandTwoWhole(t: string, v1: Variable, v2: Variable, r1: string, r2: string)
    requires 0 == v1.start < v1.end <= v2.start < v2.end == |t|
    ensures Placed(t, [v1, v2], 0) && ExpandFrom(t, [v1, v2], [r1, r2], 0) == r1 + t[v1.end..v2.start] + r2
  {
    ExpandLast(t, v2, r2, v1.end);
    ExpandCons(t, v1, r1, [v2], [r2]);
    assert [v1] + [v2] == [v1, v2] && [r1] + [r2] == [r1, r2];
    ConcatAssoc(r1, t[v1.end..v2.start], r2);
  }

  /**
   * A template whose two matches begin and end it expands to the two
   * replacements with the literal text between the matches.
   */
  lemma TwoMatchesExpansion(t: string, v1: Variable, v2: Variable, values: map<string, Option<string>>)
    requires Matches(t) == [v1, v2] && v1.start == 0 && v2.end == |t|
    ensures v1.end <= v2.start <= |t|
      && Expansion(t, values) == Replacement(v1, values) + t[v1.end..v2.start] + Replacement(v2, values)
  {
    TwoMatchesUnfold(t, v1, v2, values);
    PlacedTwo(t, v1, v2);
    ReplacementsTwo(v1, v2, values);
    ExpandTwoWhole(t, v1, v2, Replacement(v1, values), Replacement(v2, values));
  }

  /** Every occurrence of a name is replaced, and the text between them is kept. */
  lemma Repeated()
    ensures Expansion("{a}/{a}", map["a" := Some("x")]) == "x/x"
  {
    var t := "{a}/{a}";
    var values := map["a" := Some("x")];
    MatchesRepeated();
    TwoMatchesExpansion(t, Variable("", "a", 0, 3), Variable("", "a", 4, 7), values);
    UnreservedPassThrough("x", false);
    assert t[3..4] == "/";
  }
}
