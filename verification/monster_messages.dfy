/**
 * Monster Messages: a grammar of numbered rules, each a list of alternatives,
 * each alternative a list of partial rules (a literal or a reference to
 * another rule). Rule 0's first alternative is expanded depth-first into every
 * literal-only derivation, each derivation is folded into one string, and a
 * message matches when it equals one of those strings exactly.
 *
 * Termination of the expansion needs an acyclic grammar; the code has no guard
 * against cycles, so the model asks for a ghost `size` map that witnesses
 * acyclicity: every rule is heavier than each of its alternatives.
 */
module MonsterMessages {
  import opened Basics

  datatype PartialRule = Literal(value: string) | Rule(index: int)
  {
    predicate IsLiteral() { Literal? }

    function IsRulesReference(): (r: bool)
      ensures r <==> !IsLiteral()
    {
      Rule?
    }

    function RuleIndex(): (r: Option<int>)
      ensures r.Some? <==> IsRulesReference()
      ensures r.Some? ==> this == Rule(r.value)
    {
      if Rule? then Some(index) else None
    }

    function LiteralValue(): (r: Option<string>)
      ensures r.Some? <==> IsLiteral()
      ensures r.Some? ==> this == Literal(r.value)
    {
      if Literal? then Some(value) else None
    }
  }

  type Alternative = seq<PartialRule>
  type Rules = map<int, seq<Alternative>>

  // ---------------------------------------------------------------------------
  // Parsing. Every force-unwrap of the source (`Int(...)!`, `.first!`, the
  // character at offset 1, a missing `": "`) becomes a `None` result.

  /** One alternative: space-separated rule numbers. */
  function ParseReferences(pieces: seq<string>): (r: Option<Alternative>)
    ensures r.Some? <==> forall j :: 0 <= j < |pieces| ==> ParseInt(pieces[j]).Some?
    ensures r.Some? ==> (|r.value| == |pieces| &&
      forall j :: 0 <= j < |pieces| ==> r.value[j] == Rule(ParseInt(pieces[j]).value))
  {
    var results := seq(|pieces|, j requires 0 <= j < |pieces| => if ParseInt(pieces[j]).None? then None else Some(Rule(ParseInt(pieces[j]).value)));
    assert forall j :: 0 <= j < |pieces| ==> results[j] == (if ParseInt(pieces[j]).None? then None else Some(Rule(ParseInt(pieces[j]).value)));
    AllSome(results)
  }

  /** All alternatives, in order; `None` as soon as one does not parse. */
  function ParseAlternatives(alternatives: seq<string>): (r: Option<seq<Alternative>>)
    ensures r.Some? <==> forall k :: 0 <= k < |alternatives| ==> ParseReferences(Components(alternatives[k], " ")).Some?
    ensures r.Some? ==> (|r.value| == |alternatives| &&
      forall k :: 0 <= k < |alternatives| ==> r.value[k] == ParseReferences(Components(alternatives[k], " ")).value)
  {
    var results := seq(|alternatives|, k requires 0 <= k < |alternatives| => ParseReferences(Components(alternatives[k], " ")));
    assert forall k :: 0 <= k < |alternatives| ==> results[k] == ParseReferences(Components(alternatives[k], " "));
    AllSome(results)
  }

  /**
   * `parse(partialRulesString:)`: a body starting with a quote is one
   * alternative holding one literal, the character right after the quote;
   * any other body is one alternative per `" | "` piece, each a list of rule
   * references.
   */
  function ParsePartialRules(body: string): (r: Option<seq<Alternative>>)
    ensures |body| > 0 && body[0] == '"' ==>
      r == if |body| >= 2 then Some([[Literal([body[1]])]]) else None
    ensures |body| == 0 ==> r.None?
    ensures |body| > 0 && body[0] != '"' ==> r == ParseAlternatives(Components(body, " | "))
    ensures (|body| == 0 || body[0] != '"') && r.Some? ==>
      (|body| > 0 &&
       var pieces := Components(body, " | ");
       |r.value| == |pieces| &&
       forall k :: 0 <= k < |pieces| ==>
         |r.value[k]| == |Components(pieces[k], " ")| &&
         forall j :: 0 <= j < |r.value[k]| ==>
           r.value[k][j].Rule? && ParseInt(Components(pieces[k], " ")[j]) == Some(r.value[k][j].index))
  {
    if |body| == 0 then None
    else if body[0] == '"' then
      if |body| >= 2 then Some([[Literal([body[1]])]]) else None
    else ParseAlternatives(Components(body, " | "))
  }

  /** `parse(ruleStrings:)` for one line: `<id>: <body>`, the body trimmed. */
  function ParseRuleLine(line: string): (r: Option<(int, seq<Alternative>)>)
    ensures r.Some? <==> (|Components(line, ": ")| >= 2 &&
      ParseInt(Components(line, ": ")[0]).Some? && ParsePartialRules(Trim(Components(line, ": ")[1])).Some?)
    ensures r.Some? ==> ParseInt(Components(line, ": ")[0]) == Some(r.value.0)
    ensures r.Some? ==> ParsePartialRules(Trim(Components(line, ": ")[1])) == Some(r.value.1)
  {
    var components := Components(line, ": ");
    if |components| < 2 then None
    else
      match (ParseInt(components[0]), ParsePartialRules(Trim(components[1])))
      case (Some(index), Some(alternatives)) => Some((index, alternatives))
      case _ => None
  }

  /** `parse(ruleStrings:)`: the rule table, a later line for the same id replacing an earlier one. */
  function ParseRuleStrings(lines: seq<string>): Option<Rules>
  {
    ParseTable(ParseRuleLine, lines)
  }

  /**
   * `parse(_:)`: the rule lines and the messages are the first two groups of
   * non-empty lines; fewer than two groups, or a bad rule line, is a crash.
   */
  function ParseInput(input: seq<string>): (r: Option<(Rules, seq<string>)>)
    ensures r.Some? <==> |SplitOn(input, "")| >= 2 && ParseRuleStrings(SplitOn(input, "")[0]).Some?
    ensures r.Some? ==> r.value.1 == SplitOn(input, "")[1]
    ensures r.Some? ==> ParseRuleStrings(SplitOn(input, "")[0]) == Some(r.value.0)
  {
    var groups := SplitOn(input, "");
    if |groups| < 2 then None
    else
      match ParseRuleStrings(groups[0])
      case Some(rules) => Some((rules, groups[1]))
      case None => None
  }

  // Writing a body back out, the partner of `ParsePartialRules` for
  // reference-only rules.

  function ShowReferences(indices: seq<int>): (s: string)
  {
    Join(seq(|indices|, j requires 0 <= j < |indices| => ShowInt(indices[j])), " ")
  }

  function ShowBody(alternatives: seq<seq<int>>): string
  {
    Join(seq(|alternatives|, k requires 0 <= k < |alternatives| => ShowReferences(alternatives[k])), " | ")
  }

  lemma {:induction false} ShowIntHasNoSpaceOrBar(n: int)
    ensures ' ' !in ShowInt(n) && '|' !in ShowInt(n) && ShowInt(n)[0] != '"'
  {
    ShowIntChars(n);
  }

  lemma {:induction false} JoinWithoutChar(parts: seq<string>, sep: string, c: char)
    requires c !in sep
    requires forall k :: 0 <= k < |parts| ==> c !in parts[k]
    ensures c !in Join(parts, sep)
    decreases |parts|
  {
    if |parts| > 1 {
      JoinWithoutChar(parts[1..], sep, c);
    }
  }

  /**
   * A separator after a piece in which it cannot start ends exactly that
   * piece: the multi-character form of `ComponentsAfterPiece`.
   */
  lemma {:induction false} ComponentsAfterBarFreePiece(p: string, r: string)
    requires '|' !in p
    ensures Components(p + " | " + r, " | ") == [p] + Components(r, " | ")
    decreases |p|
  {
    var s := p + " | " + r;
    if |p| == 0 {
      assert s[..3] == " | ";
      assert s[3..] == r;
    } else {
      assert s[..3] != " | " by {
        if |p| == 1 { assert s[1] == ' '; } else { assert s[1] == p[1]; assert p[1] in p; }
      }
      assert s[1..] == p[1..] + " | " + r;
      assert '|' !in p[1..] by { forall i | 0 <= i < |p[1..]| ensures p[1..][i] != '|' { assert p[1..][i] == p[i + 1]; } }
      ComponentsAfterBarFreePiece(p[1..], r);
      assert [p[0]] + p[1..] == p;
    }
  }

  lemma {:induction false} ComponentsWithoutBar(p: string)
    requires '|' !in p
    ensures Components(p, " | ") == [p]
    decreases |p|
  {
    if |p| >= 3 {
      assert p[..3] != " | " by { assert p[1] in p; }
      assert '|' !in p[1..] by { forall i | 0 <= i < |p[1..]| ensures p[1..][i] != '|' { assert p[1..][i] == p[i + 1]; } }
      ComponentsWithoutBar(p[1..]);
      assert [p[0]] + p[1..] == p;
    } else if |p| > 0 {
      assert '|' !in p[1..] by { forall i | 0 <= i < |p[1..]| ensures p[1..][i] != '|' { assert p[1..][i] == p[i + 1]; } }
      ComponentsWithoutBar(p[1..]);
      assert [p[0]] + p[1..] == p;
    }
  }

  lemma {:induction false} ComponentsOfBarJoin(parts: seq<string>)
    requires |parts| >= 1
    requires forall k :: 0 <= k < |parts| ==> '|' !in parts[k]
    ensures Components(Join(parts, " | "), " | ") == parts
    decreases |parts|
  {
    if |parts| == 1 {
      ComponentsWithoutBar(parts[0]);
    } else {
      ComponentsOfBarJoin(parts[1..]);
      ComponentsAfterBarFreePiece(parts[0], Join(parts[1..], " | "));
      assert parts == [parts[0]] + parts[1..];
    }
  }

  lemma {:induction false} ReferencesRoundTrip(indices: seq<int>)
    requires |indices| >= 1
    ensures Components(ShowReferences(indices), " ") == seq(|indices|, j requires 0 <= j < |indices| => ShowInt(indices[j]))
    ensures ParseReferences(Components(ShowReferences(indices), " ")) == Some(seq(|indices|, j requires 0 <= j < |indices| => Rule(indices[j])))
    ensures '|' !in ShowReferences(indices) && ShowReferences(indices)[0] != '"'
  {
    var shown := seq(|indices|, j requires 0 <= j < |indices| => ShowInt(indices[j]));
    forall j | 0 <= j < |indices| ensures ' ' !in shown[j] && '|' !in shown[j] && ParseInt(shown[j]) == Some(indices[j]) {
      ShowIntHasNoSpaceOrBar(indices[j]);
      ParseShowInt(indices[j]);
    }
    ComponentsOfJoin(shown, ' ');
    JoinWithoutChar(shown, " ", '|');
    ShowIntHasNoSpaceOrBar(indices[0]);
    JoinStartsWithFirst(shown, " ");
    var parsed := ParseReferences(shown);
    assert parsed.Some?;
    assert parsed.value == seq(|indices|, j requires 0 <= j < |indices| => Rule(indices[j]));
  }

  lemma {:induction false} JoinStartsWithFirst(parts: seq<string>, sep: string)
    requires |parts| >= 1 && |parts[0]| >= 1
    ensures |Join(parts, sep)| >= 1 && Join(parts, sep)[0] == parts[0][0]
  {
  }

  /** Parsing a written-out body gives back its rule references, alternative by alternative. */
  lemma {:induction false} BodyRoundTrip(alternatives: seq<seq<int>>)
    requires |alternatives| >= 1
    requires forall k :: 0 <= k < |alternatives| ==> |alternatives[k]| >= 1
    ensures ParsePartialRules(ShowBody(alternatives)) ==
      Some(seq(|alternatives|, k requires 0 <= k < |alternatives| =>
        seq(|alternatives[k]|, j requires 0 <= j < |alternatives[k]| => Rule(alternatives[k][j]))))
  {
    var shown := seq(|alternatives|, k requires 0 <= k < |alternatives| => ShowReferences(alternatives[k]));
    var expected := seq(|alternatives|, k requires 0 <= k < |alternatives| =>
        seq(|alternatives[k]|, j requires 0 <= j < |alternatives[k]| => Rule(alternatives[k][j])));
    forall k | 0 <= k < |alternatives|
      ensures '|' !in shown[k] && |shown[k]| >= 1 && shown[k][0] != '"'
      ensures ParseReferences(Components(shown[k], " ")) == Some(expected[k])
    {
      ReferencesRoundTrip(alternatives[k]);
    }
    ComponentsOfBarJoin(shown);
    JoinStartsWithFirst(shown, " | ");
    var body := ShowBody(alternatives);
    assert body == Join(shown, " | ");
    assert body[0] != '"';
    assert ParsePartialRules(body) == ParseAlternatives(shown);
    var parsed := ParseAlternatives(shown);
    assert parsed.Some?;
    assert parsed.value == expected;
  }

  // ---------------------------------------------------------------------------
  // Folding literals.

  predicate AllLiteral(ps: seq<PartialRule>)
  {
    forall k :: 0 <= k < |ps| ==> ps[k].Literal?
  }

  /** The literal values laid end to end. */
  function Text(ps: seq<PartialRule>): string
    requires AllLiteral(ps)
  {
    if ps == [] then "" else Text(ps[..|ps| - 1]) + ps[|ps| - 1].value
  }

  lemma {:induction false} TextAppend(a: seq<PartialRule>, b: seq<PartialRule>)
    requires AllLiteral(a) && AllLiteral(b)
    ensures AllLiteral(a + b) && Text(a + b) == Text(a) + Text(b)
    decreases |b|
  {
    if b == [] {
      assert a + b == a;
    } else {
      var b' := b[..|b| - 1];
      assert (a + b)[..|a + b| - 1] == a + b';
      TextAppend(a, b');
    }
  }

  /**
   * `joinLiterals(partialRules:)`: `None` as soon as an element is a rule
   * reference; otherwise one literal holding all the values in order.
   */
  method JoinLiterals(partialRules: seq<PartialRule>) returns (r: Option<PartialRule>)
    ensures r.None? <==> exists k :: 0 <= k < |partialRules| && partialRules[k].IsRulesReference()
    ensures r.Some? ==> AllLiteral(partialRules) && r.value == Literal(Text(partialRules))
  {
    var joinedLiteralValues := "";
    for i := 0 to |partialRules|
      invariant AllLiteral(partialRules[..i])
      invariant joinedLiteralValues == Text(partialRules[..i])
    {
      match partialRules[i].LiteralValue()
      case None =>
        return None;
      case Some(literalValue) =>
        assert partialRules[..i + 1][..i] == partialRules[..i];
        joinedLiteralValues := joinedLiteralValues + literalValue;
    }
    assert partialRules[..|partialRules|] == partialRules;
    return Some(Literal(joinedLiteralValues));
  }

  /**
   * `joinLiterals(partialRulesList:)`: same length and order; an all-literal
   * list becomes a one-element list, any other is kept as it is.
   */
  method JoinLiteralsList(partialRulesList: seq<seq<PartialRule>>) returns (r: seq<seq<PartialRule>>)
    ensures |r| == |partialRulesList|
    ensures forall k :: 0 <= k < |r| ==>
      r[k] == if AllLiteral(partialRulesList[k]) then [Literal(Text(partialRulesList[k]))] else partialRulesList[k]
  {
    r := [];
    for i := 0 to |partialRulesList|
      invariant |r| == i
      invariant forall k :: 0 <= k < i ==>
        r[k] == if AllLiteral(partialRulesList[k]) then [Literal(Text(partialRulesList[k]))] else partialRulesList[k]
    {
      var joinedLiterals := JoinLiterals(partialRulesList[i]);
      match joinedLiterals
      case None => r := r + [partialRulesList[i]];
      case Some(joined) => r := r + [[joined]];
    }
  }

  // ---------------------------------------------------------------------------
  // Acyclic grammars.

  predicate RefsDefined(ps: seq<PartialRule>, rules: Rules)
  {
    forall k :: 0 <= k < |ps| && ps[k].Rule? ==> ps[k].index in rules
  }

  /** A literal weighs 1, a reference the weight `size` gives its rule. */
  function Weight(ps: seq<PartialRule>, size: map<int, nat>): nat
  {
    if ps == [] then 0
    else
      (match ps[0]
       case Literal(_) => 1
       case Rule(i) => if i in size then size[i] else 0)
      + Weight(ps[1..], size)
  }

  /**
   * Every reference resolves, and every rule is heavier than each of its
   * alternatives: `size` is a well-founded rank, so the grammar is acyclic.
   */
  ghost predicate Ranked(rules: Rules, size: map<int, nat>)
  {
    forall i :: i in rules ==>
      i in size &&
      forall k :: 0 <= k < |rules[i]| ==> RefsDefined(rules[i][k], rules) && Weight(rules[i][k], size) < size[i]
  }

  lemma {:induction false} WeightAppend(a: seq<PartialRule>, b: seq<PartialRule>, size: map<int, nat>)
    ensures Weight(a + b, size) == Weight(a, size) + Weight(b, size)
  {
    if a != [] {
      assert (a + b)[0] == a[0];
      assert (a + b)[1..] == a[1..] + b;
      WeightAppend(a[1..], b, size);
    } else {
      assert a + b == b;
    }
  }

  /** The lists an alternative-by-alternative substitution produces, in alternative order. */
  function Candidates(alternatives: seq<Alternative>, rest: seq<PartialRule>): (cs: seq<seq<PartialRule>>)
    ensures |cs| == |alternatives|
    ensures forall k :: 0 <= k < |cs| ==> cs[k] == alternatives[k] + rest
  {
    seq(|alternatives|, k requires 0 <= k < |alternatives| => alternatives[k] + rest)
  }

  /** Substituting any alternative of a rule for a reference to it makes the list lighter. */
  lemma {:induction false} CandidatesLighter(ps: seq<PartialRule>, rules: Rules, size: map<int, nat>)
    requires Ranked(rules, size) && RefsDefined(ps, rules)
    requires |ps| > 0 && ps[0].Rule?
    ensures ps[0].index in rules
    ensures forall c :: c in Candidates(rules[ps[0].index], ps[1..]) ==>
      RefsDefined(c, rules) && Weight(c, size) < Weight(ps, size)
  {
    var alternatives := rules[ps[0].index];
    var cs := Candidates(alternatives, ps[1..]);
    forall c: seq<PartialRule> | c in cs ensures RefsDefined(c, rules) && Weight(c, size) < Weight(ps, size) {
      var k :| 0 <= k < |cs| && cs[k] == c;
      WeightAppend(alternatives[k], ps[1..], size);
      assert RefsDefined(alternatives[k], rules);
      forall j: nat | j < |c| && c[j].Rule? ensures c[j].index in rules {
        if j >= |alternatives[k]| {
          assert c[j] == ps[1..][j - |alternatives[k]|] == ps[j - |alternatives[k]| + 1];
        }
      }
    }
  }

  // ---------------------------------------------------------------------------
  // Expansion.

  /**
   * What `permutations(of:prefix:from:)` returns: the input is consumed from
   * the left; a literal moves onto the prefix, a reference to a rule with one
   * alternative is replaced by it in place, and a reference to a rule with
   * several alternatives yields the results of each alternative in turn.
   */
  ghost function Expansions(ps: seq<PartialRule>, prefix: seq<PartialRule>, rules: Rules, size: map<int, nat>): seq<seq<PartialRule>>
    requires Ranked(rules, size) && RefsDefined(ps, rules)
    decreases Weight(ps, size), 1, 0
  {
    if ps == [] then [prefix]
    else if ps[0].Literal? then Expansions(ps[1..], prefix + [ps[0]], rules, size)
    else
      CandidatesLighter(ps, rules, size);
      var alternatives := rules[ps[0].index];
      var cs := Candidates(alternatives, ps[1..]);
      if |alternatives| == 1 then
        assert cs[0] in cs;
        Expansions(cs[0], prefix, rules, size)
      else ExpandAll(cs, prefix, rules, size, Weight(ps, size))
  }

  /** The expansions of each candidate, concatenated in candidate order. */
  ghost function ExpandAll(cs: seq<seq<PartialRule>>, prefix: seq<PartialRule>, rules: Rules, size: map<int, nat>, bound: nat): seq<seq<PartialRule>>
    requires Ranked(rules, size)
    requires forall c :: c in cs ==> RefsDefined(c, rules) && Weight(c, size) < bound
    decreases bound, 0, |cs|
  {
    if cs == [] then []
    else
      assert cs[|cs| - 1] in cs;
      ExpandAll(cs[..|cs| - 1], prefix, rules, size, bound) + Expansions(cs[|cs| - 1], prefix, rules, size)
  }

  /**
   * `permutations(of:prefix:from:)`, with the loop that builds the list of
   * substituted alternatives and the loop that expands each of them.
   */
  method Permutations(partialRules: seq<PartialRule>, prefix: seq<PartialRule>, rules: Rules, ghost size: map<int, nat>)
    returns (r: seq<seq<PartialRule>>)
    requires Ranked(rules, size) && RefsDefined(partialRules, rules)
    ensures r == Expansions(partialRules, prefix, rules, size)
    decreases Weight(partialRules, size)
  {
    if |partialRules| == 0 {
      return [prefix];
    }
    var partialRule := partialRules[0];
    match partialRule.RuleIndex()
    case None =>
      r := Permutations(partialRules[1..], prefix + [partialRule], rules, size);
    case Some(ruleIndex) =>
      CandidatesLighter(partialRules, rules, size);
      var replacementRules := rules[ruleIndex];
      ghost var cs := Candidates(replacementRules, partialRules[1..]);
      if |replacementRules| == 1 {
        assert cs[0] in cs;
        r := Permutations(replacementRules[0] + partialRules[1..], prefix, rules, size);
        return;
      }
      var thePermutations: seq<seq<PartialRule>> := [];
      for k := 0 to |replacementRules|
        invariant thePermutations == cs[..k]
      {
        thePermutations := thePermutations + [replacementRules[k] + partialRules[1..]];
      }
      assert thePermutations == cs;
      r := [];
      for k := 0 to |thePermutations|
        invariant r == ExpandAll(cs[..k], prefix, rules, size, Weight(partialRules, size))
      {
        assert cs[k] in cs;
        var expanded := Permutations(thePermutations[k], prefix, rules, size);
        assert cs[..k + 1][..k] == cs[..k];
        r := r + expanded;
      }
      assert cs[..|cs|] == cs;
  }

  /**
   * Every expansion starts with the prefix, and what follows the prefix is
   * literals only: no reference is left unexpanded.
   */
  lemma {:induction false} ExpansionsShape(ps: seq<PartialRule>, prefix: seq<PartialRule>, rules: Rules, size: map<int, nat>)
    requires Ranked(rules, size) && RefsDefined(ps, rules)
    ensures forall d :: d in Expansions(ps, prefix, rules, size) ==>
      |prefix| <= |d| && d[..|prefix|] == prefix && AllLiteral(d[|prefix|..])
    decreases Weight(ps, size), 1, 0
  {
    if ps == [] {
      assert prefix[|prefix|..] == [];
    } else if ps[0].Literal? {
      var prefix' := prefix + [ps[0]];
      ExpansionsShape(ps[1..], prefix', rules, size);
      forall d | d in Expansions(ps, prefix, rules, size)
        ensures |prefix| <= |d| && d[..|prefix|] == prefix && AllLiteral(d[|prefix|..])
      {
        assert d[..|prefix'|][..|prefix|] == prefix;
        assert d[|prefix|..] == [ps[0]] + d[|prefix'|..];
      }
    } else {
      CandidatesLighter(ps, rules, size);
      var alternatives := rules[ps[0].index];
      var cs := Candidates(alternatives, ps[1..]);
      if |alternatives| == 1 {
        assert cs[0] in cs;
        ExpansionsShape(cs[0], prefix, rules, size);
      } else {
        ExpandAllShape(cs, prefix, rules, size, Weight(ps, size));
      }
    }
  }

  lemma {:induction false} ExpandAllShape(cs: seq<seq<PartialRule>>, prefix: seq<PartialRule>, rules: Rules, size: map<int, nat>, bound: nat)
    requires Ranked(rules, size)
    requires forall c :: c in cs ==> RefsDefined(c, rules) && Weight(c, size) < bound
    ensures forall d :: d in ExpandAll(cs, prefix, rules, size, bound) ==>
      |prefix| <= |d| && d[..|prefix|] == prefix && AllLiteral(d[|prefix|..])
    decreases bound, 0, |cs|
  {
    if cs != [] {
      assert cs[|cs| - 1] in cs;
      ExpandAllShape(cs[..|cs| - 1], prefix, rules, size, bound);
      ExpansionsShape(cs[|cs| - 1], prefix, rules, size);
    }
  }

  /** A derivation is in the concatenation iff it is among the expansions of some candidate. */
  lemma {:induction false} ExpandAllMembers(cs: seq<seq<PartialRule>>, prefix: seq<PartialRule>, rules: Rules, size: map<int, nat>, bound: nat, d: seq<PartialRule>)
    requires Ranked(rules, size)
    requires forall c :: c in cs ==> RefsDefined(c, rules) && Weight(c, size) < bound
    ensures d in ExpandAll(cs, prefix, rules, size, bound) <==>
      exists k :: 0 <= k < |cs| && d in Expansions(cs[k], prefix, rules, size)
    decreases |cs|
  {
    if cs != [] {
      var init := cs[..|cs| - 1];
      assert cs[|cs| - 1] in cs;
      ExpandAllMembers(init, prefix, rules, size, bound, d);
      if exists k :: 0 <= k < |cs| && d in Expansions(cs[k], prefix, rules, size) {
        var k :| 0 <= k < |cs| && d in Expansions(cs[k], prefix, rules, size);
        if k < |init| { assert init[k] == cs[k]; }
      }
      if exists k :: 0 <= k < |init| && d in Expansions(init[k], prefix, rules, size) {
        var k :| 0 <= k < |init| && d in Expansions(init[k], prefix, rules, size);
        assert init[k] == cs[k];
      }
    }
  }

  /**
   * A reference to a rule with one alternative is spliced in place; a
   * reference to a rule with several yields, for each alternative in order,
   * the expansions with that alternative spliced in.
   */
  lemma {:induction false} ReferenceSplice(i: int, rest: seq<PartialRule>, prefix: seq<PartialRule>, rules: Rules, size: map<int, nat>)
    requires Ranked(rules, size) && RefsDefined([Rule(i)] + rest, rules)
    ensures i in rules
    ensures forall k :: 0 <= k < |rules[i]| ==> RefsDefined(rules[i][k] + rest, rules)
    ensures |rules[i]| == 1 ==>
      Expansions([Rule(i)] + rest, prefix, rules, size) == Expansions(rules[i][0] + rest, prefix, rules, size)
    ensures |rules[i]| != 1 ==>
      Expansions([Rule(i)] + rest, prefix, rules, size) ==
      Flatten(seq(|rules[i]|, k requires 0 <= k < |rules[i]| => Expansions(rules[i][k] + rest, prefix, rules, size)))
  {
    var ps := [Rule(i)] + rest;
    assert ps[0] == Rule(i) && ps[1..] == rest;
    CandidatesLighter(ps, rules, size);
    var cs := Candidates(rules[i], rest);
    assert forall k :: 0 <= k < |rules[i]| ==> cs[k] in cs;
    if |rules[i]| != 1 {
      var bound := Weight(ps, size);
      assert Expansions(ps, prefix, rules, size) == ExpandAll(cs, prefix, rules, size, bound);
      ExpandAllIsFlatten(cs, prefix, rules, size, bound);
      assert seq(|cs|, k requires 0 <= k < |cs| => Expansions(cs[k], prefix, rules, size)) ==
        seq(|rules[i]|, k requires 0 <= k < |rules[i]| => Expansions(rules[i][k] + rest, prefix, rules, size));
    }
  }

  lemma {:induction false} FlattenSnoc<T>(parts: seq<seq<T>>, last: seq<T>)
    ensures Flatten(parts + [last]) == Flatten(parts) + last
  {
    if parts == [] {
      assert [] + [last] == [last];
    } else {
      assert (parts + [last])[1..] == parts[1..] + [last];
      FlattenSnoc(parts[1..], last);
    }
  }

  lemma {:induction false} ExpandAllIsFlatten(cs: seq<seq<PartialRule>>, prefix: seq<PartialRule>, rules: Rules, size: map<int, nat>, bound: nat)
    requires Ranked(rules, size)
    requires forall c :: c in cs ==> RefsDefined(c, rules) && Weight(c, size) < bound
    ensures ExpandAll(cs, prefix, rules, size, bound) ==
      Flatten(seq(|cs|, k requires 0 <= k < |cs| => Expansions(cs[k], prefix, rules, size)))
    decreases |cs|
  {
    if cs != [] {
      var init := cs[..|cs| - 1];
      assert cs[|cs| - 1] in cs;
      ExpandAllIsFlatten(init, prefix, rules, size, bound);
      var all := seq(|cs|, k requires 0 <= k < |cs| => Expansions(cs[k], prefix, rules, size));
      var front := seq(|init|, k requires 0 <= k < |init| => Expansions(init[k], prefix, rules, size));
      assert all == front + [Expansions(cs[|cs| - 1], prefix, rules, size)];
      FlattenSnoc(front, Expansions(cs[|cs| - 1], prefix, rules, size));
    }
  }

  // ---------------------------------------------------------------------------
  // What a list of partial rules matches, stated as a recogniser: the
  // grammar's own meaning, independent of the expansion order.

  ghost predicate Derives(ps: seq<PartialRule>, s: string, rules: Rules, size: map<int, nat>)
    requires Ranked(rules, size) && RefsDefined(ps, rules)
    decreases Weight(ps, size), 1
  {
    if ps == [] then s == ""
    else if ps[0].Literal? then
      var v := ps[0].value;
      |v| <= |s| && s[..|v|] == v && Derives(ps[1..], s[|v|..], rules, size)
    else
      CandidatesLighter(ps, rules, size);
      var cs := Candidates(rules[ps[0].index], ps[1..]);
      exists k :: 0 <= k < |cs| && Derives(cs[k], s, rules, size)
  }

  /** A literal-only list matches exactly its folded text: joining literals changes no match. */
  lemma {:induction false} DerivesLiterals(ps: seq<PartialRule>, s: string, rules: Rules, size: map<int, nat>)
    requires Ranked(rules, size) && AllLiteral(ps)
    ensures RefsDefined(ps, rules)
    ensures Derives(ps, s, rules, size) <==> s == Text(ps)
    decreases |ps|
  {
    if ps != [] {
      var v := ps[0].value;
      assert AllLiteral(ps[1..]);
      TextAppend([ps[0]], ps[1..]);
      assert [ps[0]] + ps[1..] == ps;
      assert Text([ps[0]]) == v by { assert [ps[0]][..0] == []; }
      if |v| <= |s| && s[..|v|] == v {
        DerivesLiterals(ps[1..], s[|v|..], rules, size);
        assert s == s[..|v|] + s[|v|..];
      } else {
        assert s != Text(ps);
      }
    }
  }

  /** Two adjacent literals match exactly what their concatenation matches. */
  lemma {:induction false} AdjacentLiteralsJoin(a: string, b: string, rest: seq<PartialRule>, s: string, rules: Rules, size: map<int, nat>)
    requires Ranked(rules, size) && RefsDefined(rest, rules)
    ensures RefsDefined([Literal(a), Literal(b)] + rest, rules) && RefsDefined([Literal(a + b)] + rest, rules)
    ensures Derives([Literal(a), Literal(b)] + rest, s, rules, size) <==> Derives([Literal(a + b)] + rest, s, rules, size)
  {
    var two := [Literal(a), Literal(b)] + rest;
    var one := [Literal(a + b)] + rest;
    assert two[1..] == [Literal(b)] + rest && two[1..][1..] == rest && one[1..] == rest;
    if Derives(two, s, rules, size) {
      var t := s[|a|..];
      assert Derives(two[1..], t, rules, size);
      assert |b| <= |t| && t[..|b|] == b && Derives(rest, t[|b|..], rules, size);
      assert s[..|a + b|] == s[..|a|] + t[..|b|];
      assert t[|b|..] == s[|a + b|..];
    }
    if Derives(one, s, rules, size) {
      assert s[..|a|] == (a + b)[..|a|];
      var t := s[|a|..];
      assert t[..|b|] == s[|a|..|a + b|];
      assert t[|b|..] == s[|a + b|..];
      assert Derives(two[1..], t, rules, size);
    }
  }

  /**
   * The expansions are exactly the derivations: a string is the folded text
   * of some expansion iff it is the prefix's text followed by a string the
   * list derives.
   */
  lemma {:induction false} ExpansionsMatch(ps: seq<PartialRule>, prefix: seq<PartialRule>, rules: Rules, size: map<int, nat>, s: string)
    requires Ranked(rules, size) && RefsDefined(ps, rules) && AllLiteral(prefix)
    ensures (exists d :: d in Expansions(ps, prefix, rules, size) && AllLiteral(d) && Text(d) == s) <==>
      (|Text(prefix)| <= |s| && s[..|Text(prefix)|] == Text(prefix) && Derives(ps, s[|Text(prefix)|..], rules, size))
    decreases Weight(ps, size), 1
  {
    var t := Text(prefix);
    if ps == [] {
      assert Expansions(ps, prefix, rules, size) == [prefix];
      if |t| <= |s| && s[..|t|] == t && s[|t|..] == "" {
        assert s == t;
      }
    } else if ps[0].Literal? {
      LiteralHeadMatch(ps, prefix, rules, size, s);
    } else {
      ReferenceHeadMatch(ps, prefix, rules, size, s);
    }
  }

  lemma {:induction false} LiteralHeadMatch(ps: seq<PartialRule>, prefix: seq<PartialRule>, rules: Rules, size: map<int, nat>, s: string)
    requires Ranked(rules, size) && RefsDefined(ps, rules) && AllLiteral(prefix)
    requires ps != [] && ps[0].Literal?
    ensures (exists d :: d in Expansions(ps, prefix, rules, size) && AllLiteral(d) && Text(d) == s) <==>
      (|Text(prefix)| <= |s| && s[..|Text(prefix)|] == Text(prefix) && Derives(ps, s[|Text(prefix)|..], rules, size))
    decreases Weight(ps, size), 0
  {
    var t := Text(prefix);
    var v := ps[0].value;
    var prefix' := prefix + [ps[0]];
    TextAppend(prefix, [ps[0]]);
    assert Text([ps[0]]) == v by { assert [ps[0]][..0] == []; }
    ExpansionsMatch(ps[1..], prefix', rules, size, s);
    var t' := t + v;
    assert Text(prefix') == t';
    if |t'| <= |s| && s[..|t'|] == t' {
      assert s[..|t|] == t'[..|t|] == t;
      var u := s[|t|..];
      assert u[..|v|] == s[|t|..|t'|] == v;
      assert u[|v|..] == s[|t'|..];
    }
    if |t| <= |s| && s[..|t|] == t && |v| <= |s| - |t| && s[|t|..][..|v|] == v {
      assert s[..|t'|] == s[..|t|] + s[|t|..][..|v|];
    }
  }

  lemma {:induction false} ReferenceHeadMatch(ps: seq<PartialRule>, prefix: seq<PartialRule>, rules: Rules, size: map<int, nat>, s: string)
    requires Ranked(rules, size) && RefsDefined(ps, rules) && AllLiteral(prefix)
    requires ps != [] && ps[0].Rule?
    ensures (exists d :: d in Expansions(ps, prefix, rules, size) && AllLiteral(d) && Text(d) == s) <==>
      (|Text(prefix)| <= |s| && s[..|Text(prefix)|] == Text(prefix) && Derives(ps, s[|Text(prefix)|..], rules, size))
    decreases Weight(ps, size), 0
  {
    var t := Text(prefix);
    CandidatesLighter(ps, rules, size);
    var alternatives := rules[ps[0].index];
    var cs := Candidates(alternatives, ps[1..]);
    var matchesText := |t| <= |s| && s[..|t|] == t;
    forall k | 0 <= k < |cs|
      ensures (exists d :: d in Expansions(cs[k], prefix, rules, size) && AllLiteral(d) && Text(d) == s) <==>
        (matchesText && Derives(cs[k], s[|t|..], rules, size))
    {
      assert cs[k] in cs;
      ExpansionsMatch(cs[k], prefix, rules, size, s);
    }
    if |alternatives| == 1 {
      assert cs[0] in cs;
      assert Expansions(ps, prefix, rules, size) == Expansions(cs[0], prefix, rules, size);
    } else {
      var bound := Weight(ps, size);
      assert Expansions(ps, prefix, rules, size) == ExpandAll(cs, prefix, rules, size, bound);
      forall d ensures d in ExpandAll(cs, prefix, rules, size, bound) <==>
        exists k :: 0 <= k < |cs| && d in Expansions(cs[k], prefix, rules, size)
      {
        ExpandAllMembers(cs, prefix, rules, size, bound, d);
      }
    }
  }

  // ---------------------------------------------------------------------------
  // The match count.

  /** How many of the messages rule 0's first alternative derives, duplicates included. */
  ghost function CountDerived(messages: seq<string>, start: Alternative, rules: Rules, size: map<int, nat>): nat
    requires Ranked(rules, size) && RefsDefined(start, rules)
  {
    if messages == [] then 0
    else
      CountDerived(messages[..|messages| - 1], start, rules, size) +
      (if Derives(start, messages[|messages| - 1], rules, size) then 1 else 0)
  }

  /** With an empty prefix, the expansions are literal-only and fold to exactly the derived strings. */
  lemma {:induction false} ExpansionsFromNothing(start: Alternative, rules: Rules, size: map<int, nat>, m: string)
    requires Ranked(rules, size) && RefsDefined(start, rules)
    ensures forall d :: d in Expansions(start, [], rules, size) ==> AllLiteral(d)
    ensures (exists d :: d in Expansions(start, [], rules, size) && AllLiteral(d) && Text(d) == m) <==>
      Derives(start, m, rules, size)
  {
    ExpansionsShape(start, [], rules, size);
    forall d | d in Expansions(start, [], rules, size) ensures AllLiteral(d) {
      assert d[0..] == d;
    }
    ExpansionsMatch(start, [], rules, size, m);
    assert Text([]) == "";
    assert m[..0] == "" && m[0..] == m;
  }

  /** Folding literal-only lists keeps exactly their texts. */
  lemma {:induction false} FoldedTexts(expansions: seq<seq<PartialRule>>, folded: seq<seq<PartialRule>>, m: string)
    requires forall k :: 0 <= k < |expansions| ==> AllLiteral(expansions[k])
    requires |folded| == |expansions|
    requires forall k :: 0 <= k < |folded| ==>
      folded[k] == if AllLiteral(expansions[k]) then [Literal(Text(expansions[k]))] else expansions[k]
    ensures (exists d: seq<PartialRule> :: d in folded && |d| > 0 && d[0].Literal? && d[0].value == m) <==>
      (exists d :: d in expansions && AllLiteral(d) && Text(d) == m)
  {
    if exists d: seq<PartialRule> :: d in folded && |d| > 0 && d[0].Literal? && d[0].value == m {
      var d: seq<PartialRule> :| d in folded && |d| > 0 && d[0].Literal? && d[0].value == m;
      var k :| 0 <= k < |folded| && folded[k] == d;
      assert expansions[k] in expansions;
    }
    if exists d :: d in expansions && AllLiteral(d) && Text(d) == m {
      var d :| d in expansions && AllLiteral(d) && Text(d) == m;
      var k :| 0 <= k < |expansions| && expansions[k] == d;
      assert folded[k] == [Literal(m)];
    }
  }

  /**
   * The top-level count: expand only `rules[0]![0]`, fold each derivation
   * into a string, and count the messages equal to one of those strings.
   * `None` stands for the crash when rule 0 is missing or has no alternative.
   */
  method CountMatches(rules: Rules, messages: seq<string>, ghost size: map<int, nat>) returns (matches: Option<nat>)
    requires Ranked(rules, size)
    ensures matches.None? <==> 0 !in rules || |rules[0]| == 0
    ensures matches.Some? ==> matches.value == CountDerived(messages, rules[0][0], rules, size)
  {
    if 0 !in rules || |rules[0]| == 0 {
      return None;
    }
    var start := rules[0][0];
    var rule0 := Permutations(start, [], rules, size);
    var rule0Joined := JoinLiteralsList(rule0);
    var rule0Strings: set<string> := set d: seq<PartialRule> | d in rule0Joined && |d| > 0 && d[0].Literal? :: d[0].value;
    forall m ensures m in rule0Strings <==> Derives(start, m, rules, size) {
      ExpansionsFromNothing(start, rules, size, m);
      assert forall k :: 0 <= k < |rule0| ==> rule0[k] in rule0;
      FoldedTexts(rule0, rule0Joined, m);
    }
    var count := 0;
    for i := 0 to |messages|
      invariant count == CountDerived(messages[..i], start, rules, size)
    {
      assert messages[..i + 1][..i] == messages[..i];
      if messages[i] in rule0Strings {
        count := count + 1;
      }
    }
    assert messages[..|messages|] == messages;
    return Some(count);
  }
}
