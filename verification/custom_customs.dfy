/**
 * Custom Customs: each line of a group is one person's declaration, the
 * letters of the questions that person answered "yes" to; groups are
 * separated by blank lines.
 */
module CustomCustoms {
  import opened Basics

  /** The characters of a declaration, as a set. */
  function Answers(declaration: string): (r: set<char>)
    ensures forall c :: c in r <==> c in declaration
  {
    set c | c in declaration
  }

  const Alphabet: set<char> := Answers("abcdefghijklmnopqrstuvwxyz")

  /** `questionsAnyoneAnswered`: the union of the declarations, starting from the empty set. */
  function QuestionsAnyoneAnswered(declarations: seq<string>): (r: set<char>)
    ensures forall c :: c in r <==> exists k :: 0 <= k < |declarations| && c in declarations[k]
  {
    if declarations == [] then {}
    else
      var init := declarations[..|declarations| - 1];
      assert forall k :: 0 <= k < |init| ==> init[k] == declarations[k];
      QuestionsAnyoneAnswered(init) + Answers(declarations[|declarations| - 1])
  }

  /**
   * `questionsAllAnswered`: the intersection of the declarations, starting
   * from the lower-case letters, so no other character survives and an empty
   * group answers every letter.
   */
  function QuestionsAllAnswered(declarations: seq<string>): (r: set<char>)
    ensures forall c :: c in r <==> c in Alphabet && forall k :: 0 <= k < |declarations| ==> c in declarations[k]
    ensures r <= Alphabet
  {
    if declarations == [] then Alphabet
    else
      var init := declarations[..|declarations| - 1];
      assert forall k :: 0 <= k < |init| ==> init[k] == declarations[k];
      QuestionsAllAnswered(init) * Answers(declarations[|declarations| - 1])
  }

  /** In a group of at least one person, what everyone answered someone answered. */
  lemma {:induction false} AllWithinAnyone(declarations: seq<string>)
    requires declarations != []
    ensures QuestionsAllAnswered(declarations) <= QuestionsAnyoneAnswered(declarations)
  {
    forall c | c in QuestionsAllAnswered(declarations) ensures c in QuestionsAnyoneAnswered(declarations) {
      assert c in declarations[0];
    }
  }

  /** Neither answer depends on the order in which the group's declarations are listed. */
  lemma {:induction false} OrderIndependent(declarations: seq<string>, reordered: seq<string>)
    requires multiset(declarations) == multiset(reordered)
    ensures QuestionsAnyoneAnswered(declarations) == QuestionsAnyoneAnswered(reordered)
    ensures QuestionsAllAnswered(declarations) == QuestionsAllAnswered(reordered)
  {
    forall d | d in declarations ensures d in reordered {
      assert d in multiset(declarations);
    }
    forall d | d in reordered ensures d in declarations {
      assert d in multiset(reordered);
    }
    forall c | c in QuestionsAnyoneAnswered(declarations) ensures c in QuestionsAnyoneAnswered(reordered) {
      var k :| 0 <= k < |declarations| && c in declarations[k];
      assert declarations[k] in reordered;
    }
    forall c | c in QuestionsAnyoneAnswered(reordered) ensures c in QuestionsAnyoneAnswered(declarations) {
      var k :| 0 <= k < |reordered| && c in reordered[k];
      assert reordered[k] in declarations;
    }
    forall c | c in QuestionsAllAnswered(declarations) ensures c in QuestionsAllAnswered(reordered) {
      forall k | 0 <= k < |reordered| ensures c in reordered[k] {
        assert reordered[k] in declarations;
      }
    }
    forall c | c in QuestionsAllAnswered(reordered) ensures c in QuestionsAllAnswered(declarations) {
      forall k | 0 <= k < |declarations| ensures c in declarations[k] {
        assert declarations[k] in reordered;
      }
    }
  }

  /**
   * The groups of the input: `split(separator: "")` over the lines, the
   * maximal runs of non-blank lines, so blank lines never make an empty group.
   */
  function Groups(lines: seq<string>): (groups: seq<seq<string>>)
    ensures forall k :: 0 <= k < |groups| ==> groups[k] != [] && "" !in groups[k]
    ensures Flatten(groups) == Without(lines, "")
  {
    SplitOnGroups(lines, "");
    SplitOn(lines, "")
  }

  /** Groups written out with one blank line between them are read back unchanged. */
  lemma {:induction false} GroupsRoundTrip(groups: seq<seq<string>>)
    requires |groups| >= 1
    requires forall k :: 0 <= k < |groups| ==> groups[k] != [] && "" !in groups[k]
    ensures Groups(Join(groups, [""])) == groups
  {
    SplitOnJoin(groups, "");
  }

  /** The sum over the groups of the number of questions anyone answered. */
  function AnyoneTotal(groups: seq<seq<string>>): int
  {
    if groups == [] then 0
    else AnyoneTotal(groups[..|groups| - 1]) + |QuestionsAnyoneAnswered(groups[|groups| - 1])|
  }

  /** The sum over the groups of the number of questions everyone answered. */
  function AllTotal(groups: seq<seq<string>>): int
  {
    if groups == [] then 0
    else AllTotal(groups[..|groups| - 1]) + |QuestionsAllAnswered(groups[|groups| - 1])|
  }

  /** Since no group of the input is empty, the second total never exceeds the first. */
  lemma {:induction false} TotalsOrdered(groups: seq<seq<string>>)
    requires forall k :: 0 <= k < |groups| ==> groups[k] != []
    ensures AllTotal(groups) <= AnyoneTotal(groups)
  {
    if groups != [] {
      var init := groups[..|groups| - 1];
      assert forall k :: 0 <= k < |init| ==> init[k] == groups[k];
      TotalsOrdered(init);
      AllWithinAnyone(groups[|groups| - 1]);
      SubsetSize(QuestionsAllAnswered(groups[|groups| - 1]), QuestionsAnyoneAnswered(groups[|groups| - 1]));
    }
  }

  lemma {:induction false} SubsetSize(a: set<char>, b: set<char>)
    requires a <= b
    ensures |a| <= |b|
  {
    assert b == a + (b - a);
  }

  lemma {:induction false} InputTotalsOrdered(lines: seq<string>)
    ensures AllTotal(Groups(lines)) <= AnyoneTotal(Groups(lines))
  {
    TotalsOrdered(Groups(lines));
  }
}
