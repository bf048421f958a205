/**
 * Handy Haversack: rules saying which bags, and how many of each, a bag of
 * a given colour must hold; the bags that can eventually hold a given bag;
 * and the number of bags a bag holds.
 */
module HandyHaversack {
  import opened Basics

  /** A bag's contents: how many of which bag, in the order its rule lists them. */
  type Contents = seq<(int, string)>
  type Rules = map<string, Contents>

  const RuleSeparator := " bags contain "
  const ListSeparator := ", "

  // ---------------------------------------------------------------------------
  // Parsing.

  /**
   * `parse(allowableBag:)`: exactly four space-separated words, the first an
   * integer; the bag is named by the second and third words.
   */
  function ParseAllowableBag(s: string): (r: Option<(int, string)>)
    ensures r.Some? <==> |Components(s, " ")| == 4 && ParseInt(Components(s, " ")[0]).Some?
  {
    var words := Components(s, " ");
    if |words| != 4 then None
    else match ParseInt(words[0])
      case None => None
      case Some(count) => Some((count, words[1] + " " + words[2]))
  }

  /**
   * The `compactMap` over the listed pieces: the bags of the pieces that
   * parse, in order; a malformed piece is dropped.
   */
  function ParseAllowableBags(pieces: seq<string>): (r: Contents)
    ensures |r| <= |pieces|
  {
    if pieces == [] then []
    else
      (match ParseAllowableBag(pieces[0]) case Some(b) => [b] case None => [])
      + ParseAllowableBags(pieces[1..])
  }

  /** The kept bags are exactly the bags of the pieces that parse. */
  lemma {:induction false} ParseAllowableBagsMembers(pieces: seq<string>)
    ensures forall b :: b in ParseAllowableBags(pieces) ==>
      exists k :: 0 <= k < |pieces| && ParseAllowableBag(pieces[k]) == Some(b)
    ensures forall k :: 0 <= k < |pieces| && ParseAllowableBag(pieces[k]).Some? ==>
      ParseAllowableBag(pieces[k]).value in ParseAllowableBags(pieces)
  {
    if pieces != [] {
      ParseAllowableBagsMembers(pieces[1..]);
      assert forall k :: 1 <= k < |pieces| ==> pieces[k] == pieces[1..][k - 1];
    }
  }

  /** Pieces are kept or dropped one at a time, so the `compactMap` distributes over concatenation. */
  lemma {:induction false} ParseAllowableBagsAppend(a: seq<string>, b: seq<string>)
    ensures ParseAllowableBags(a + b) == ParseAllowableBags(a) + ParseAllowableBags(b)
    decreases |a|
  {
    if a != [] {
      assert (a + b)[0] == a[0];
      assert (a + b)[1..] == a[1..] + b;
      ParseAllowableBagsAppend(a[1..], b);
    } else {
      assert a + b == b;
    }
  }

  /** A piece that parses contributes its bag in place; a malformed one contributes nothing. */
  lemma {:induction false} ParseAllowableBagsPiece(before: seq<string>, piece: string, after: seq<string>)
    ensures ParseAllowableBag(piece).Some? ==>
      ParseAllowableBags(before + [piece] + after) ==
        ParseAllowableBags(before) + [ParseAllowableBag(piece).value] + ParseAllowableBags(after)
    ensures ParseAllowableBag(piece).None? ==>
      ParseAllowableBags(before + [piece] + after) == ParseAllowableBags(before) + ParseAllowableBags(after)
  {
    var kept := match ParseAllowableBag(piece) case Some(b) => [b] case None => [];
    assert ParseAllowableBags([piece]) == kept by {
      assert [piece][1..] == [];
    }
    ParseAllowableBagsAppend(before, [piece]);
    ParseAllowableBagsAppend(before + [piece], after);
  }

  /**
   * `parse(rule:)`: the line must split into exactly two parts on
   * " bags contain "; the first is the outer bag, the second the list.
   */
  function ParseRule(line: string): (r: Option<(string, Contents)>)
    ensures r.Some? <==> |Components(line, RuleSeparator)| == 2
    ensures r.Some? ==> line == r.value.0 + RuleSeparator + Components(line, RuleSeparator)[1]
  {
    var parts := Components(line, RuleSeparator);
    JoinComponents(line, RuleSeparator);
    if |parts| != 2 then None
    else Some((parts[0], ParseAllowableBags(Components(parts[1], ListSeparator))))
  }

  /** The rules of the lines that parse, in order. */
  function ParseRuleList(lines: seq<string>): (r: seq<(string, Contents)>)
    ensures |r| <= |lines|
  {
    if lines == [] then []
    else
      (match ParseRule(lines[0]) case Some(rule) => [rule] case None => [])
      + ParseRuleList(lines[1..])
  }

  /** The rule dictionary: a later rule for the same bag replaces an earlier one. */
  function ParseRules(lines: seq<string>): Rules
  {
    ToMap(ParseRuleList(lines))
  }

  // Writing rules out, to state what the parsers read back.

  /** A bag is named by two words, an adjective and a colour, and no comma. */
  predicate IsBagName(name: string)
  {
    |Components(name, " ")| == 2 && ',' !in name
  }

  function ShowAllowableBag(bag: (int, string), noun: string): string
  {
    ShowInt(bag.0) + " " + bag.1 + " " + noun
  }

  /** The listed contents, each item ending in `bags`, the last in `bags.`. */
  function ShowPieces(c: Contents): (pieces: seq<string>)
    ensures |pieces| == |c|
  {
    seq(|c|, i requires 0 <= i < |c| => ShowAllowableBag(c[i], if i == |c| - 1 then "bags." else "bags"))
  }

  function ShowContents(c: Contents): string
  {
    if c == [] then "no other bags." else Join(ShowPieces(c), ListSeparator)
  }

  function ShowRule(outer: string, c: Contents): string
  {
    outer + RuleSeparator + ShowContents(c)
  }

  /** A listed item reads back as its count and bag, whatever its last word. */
  lemma {:induction false} AllowableBagRoundTrip(bag: (int, string), noun: string)
    requires IsBagName(bag.1) && ' ' !in noun
    ensures ParseAllowableBag(ShowAllowableBag(bag, noun)) == Some(bag)
  {
    var words := Components(bag.1, " ");
    JoinComponents(bag.1, " ");
    ComponentsAvoidSeparator(bag.1, ' ');
    assert words[0] in words && words[1] in words;
    assert bag.1 == words[0] + " " + words[1];
    ShowIntChars(bag.0);
    var parts := [ShowInt(bag.0), words[0], words[1], noun];
    assert Join(parts[2..], " ") == words[1] + " " + noun by {
      assert parts[2..][1..] == [noun];
    }
    assert Join(parts[1..], " ") == words[0] + " " + Join(parts[2..], " ") by {
      assert parts[1..][1..] == parts[2..];
    }
    assert ShowAllowableBag(bag, noun) == Join(parts, " ");
    ComponentsOfJoin(parts, ' ');
    ParseShowInt(bag.0);
  }

  /** `"no other bags."` has three words, so an empty list parses to no contents. */
  lemma {:induction false} NoOtherBags()
    ensures ParseAllowableBag("no other bags.") == None
    ensures ParseAllowableBags(Components("no other bags.", ListSeparator)) == []
  {
    var text := "no other bags.";
    var parts := ["no", "other", "bags."];
    assert Join(parts, " ") == text by {
      assert Join(parts[1..], " ") == "other bags." by {
        assert parts[1..][1..] == ["bags."];
      }
    }
    ComponentsOfJoin(parts, ' ');
    assert ',' !in text;
    ComponentsWithoutLead(text, ListSeparator);
    assert Components(text, ListSeparator) == [text];
    assert ParseAllowableBags([text]) == [] by {
      assert [text][1..] == [];
    }
  }

  lemma {:induction false} ParseEachPiece(pieces: seq<string>, c: Contents)
    requires |pieces| == |c|
    requires forall k :: 0 <= k < |c| ==> ParseAllowableBag(pieces[k]) == Some(c[k])
    ensures ParseAllowableBags(pieces) == c
  {
    if pieces != [] {
      ParseEachPiece(pieces[1..], c[1..]);
      assert c == [c[0]] + c[1..];
    }
  }

  /** The listed contents read back as the contents. */
  lemma {:induction false} ContentsRoundTrip(c: Contents)
    requires forall k :: 0 <= k < |c| ==> IsBagName(c[k].1)
    ensures ParseAllowableBags(Components(ShowContents(c), ListSeparator)) == c
  {
    if c == [] {
      NoOtherBags();
    } else {
      var pieces := ShowPieces(c);
      forall k | 0 <= k < |c|
        ensures ',' !in pieces[k] && ParseAllowableBag(pieces[k]) == Some(c[k])
      {
        ShowIntChars(c[k].0);
        AllowableBagRoundTrip(c[k], if k == |c| - 1 then "bags." else "bags");
      }
      ComponentsOfJoinLeadFree(pieces, ListSeparator);
      ParseEachPiece(pieces, c);
    }
  }

  /**
   * A rule line reads back as its outer bag and contents, provided the outer
   * bag's name does not run into the separator and the list does not repeat it.
   */
  lemma {:induction false} RuleRoundTrip(outer: string, c: Contents)
    requires FirstAfter(outer, RuleSeparator) && Free(ShowContents(c), RuleSeparator)
    requires forall k :: 0 <= k < |c| ==> IsBagName(c[k].1)
    ensures ParseRule(ShowRule(outer, c)) == Some((outer, c))
  {
    ComponentsAfterFirst(outer, ShowContents(c), RuleSeparator);
    ComponentsOfFree(ShowContents(c), RuleSeparator);
    ContentsRoundTrip(c);
  }

  // ---------------------------------------------------------------------------
  // Which bags can hold a bag.

  /** The rule for `key` lists `bag` among its contents. */
  predicate Mentions(rules: Rules, key: string, bag: string)
  {
    key in rules && exists k :: 0 <= k < |rules[key]| && rules[key][k].1 == bag
  }

  /**
   * `bags(from:thatCanDirectlyHold:)`: the keys whose contents mention the
   * bag. A dictionary's key order is unspecified, so the order of the keys
   * visited is left open.
   */
  method DirectHolders(rules: Rules, bag: string) returns (holders: seq<string>)
    ensures forall o :: o in holders <==> Mentions(rules, o, bag)
    ensures forall i, j :: 0 <= i < j < |holders| ==> holders[i] != holders[j]
  {
    holders := [];
    var keys := rules.Keys;
    while keys != {}
      invariant keys <= rules.Keys
      invariant forall o :: o in holders <==> o in rules.Keys - keys && Mentions(rules, o, bag)
      invariant forall i, j :: 0 <= i < j < |holders| ==> holders[i] != holders[j]
      decreases |keys|
    {
      var key :| key in keys;
      if Mentions(rules, key, bag) {
        assert key !in holders;
        holders := holders + [key];
      }
      keys := keys - {key};
    }
  }

  /** Each step of the path is a bag whose rule lists the next one. */
  ghost predicate IsChain(rules: Rules, path: seq<string>)
  {
    forall k :: 0 <= k < |path| - 1 ==> Mentions(rules, path[k], path[k + 1])
  }

  /** `outer` holds `bag` through one or more levels of nesting. */
  ghost predicate CanHold(rules: Rules, outer: string, bag: string)
  {
    exists path :: |path| >= 2 && path[0] == outer && path[|path| - 1] == bag && IsChain(rules, path)
  }

  /** A bag that lists a bag that is, or can hold, `bag` can hold `bag`. */
  lemma {:induction false} CanHoldThrough(rules: Rules, o: string, t: string, bag: string)
    requires Mentions(rules, o, t) && (t == bag || CanHold(rules, t, bag))
    ensures CanHold(rules, o, bag)
  {
    if t == bag {
      assert IsChain(rules, [o, bag]);
    } else {
      var path :| |path| >= 2 && path[0] == t && path[|path| - 1] == bag && IsChain(rules, path);
      var longer := [o] + path;
      assert forall k :: 1 <= k < |longer| ==> longer[k] == path[k - 1];
      assert IsChain(rules, longer);
    }
  }

  /** A set that contains every holder of its members contains every bag of a chain ending in it. */
  lemma {:induction false} ClosedContainsChain(rules: Rules, closed: set<string>, path: seq<string>)
    requires |path| >= 1 && path[|path| - 1] in closed && IsChain(rules, path)
    requires forall t, o :: t in closed && Mentions(rules, o, t) ==> o in closed
    ensures forall k :: 0 <= k < |path| ==> path[k] in closed
  {
    if |path| > 1 {
      var tail := path[1..];
      assert IsChain(rules, tail) by {
        forall k | 0 <= k < |tail| - 1 ensures Mentions(rules, tail[k], tail[k + 1]) {
          assert tail[k] == path[k + 1] && tail[k + 1] == path[k + 2];
        }
      }
      ClosedContainsChain(rules, closed, tail);
      assert path[1] == tail[0];
      assert Mentions(rules, path[0], path[1]);
      forall k | 0 <= k < |path| ensures path[k] in closed {
        if k > 0 { assert path[k] == tail[k - 1]; }
      }
    }
  }

  /** `Array(set)`: the members of a set, each once, in an unspecified order. */
  method ListOf(s: set<string>) returns (r: seq<string>)
    ensures forall o :: o in r <==> o in s
    ensures forall i, j :: 0 <= i < j < |r| ==> r[i] != r[j]
  {
    r := [];
    var rest := s;
    while rest != {}
      invariant rest <= s
      invariant forall o :: o in r <==> o in s - rest
      invariant forall i, j :: 0 <= i < j < |r| ==> r[i] != r[j]
      decreases |rest|
    {
      var o :| o in rest;
      assert o !in r;
      forall x ensures x in r + [o] <==> x in s - (rest - {o}) {
        assert x in r + [o] <==> x in r || x == o;
      }
      r := r + [o];
      rest := rest - {o};
    }
  }

  /**
   * `bags(from:thatCanHold:)`: a worklist search outward from `bag`, each
   * bag expanded at most once. It returns, each once, exactly the bags that
   * can hold `bag` through one or more levels of nesting.
   */
  method BagsThatCanHold(rules: Rules, bag: string) returns (holders: seq<string>)
    ensures forall o :: o in holders <==> CanHold(rules, o, bag)
    ensures forall i, j :: 0 <= i < j < |holders| ==> holders[i] != holders[j]
  {
    var result: set<string> := {};
    var tried: set<string> := {};
    var toTry := [bag];
    ghost var universe := rules.Keys + {bag};
    while toTry != []
      invariant tried <= universe && forall t :: t in toTry ==> t in universe
      invariant Searching(rules, bag, result, tried, toTry)
      decreases |universe - tried|, |toTry|
    {
      var nextBag := toTry[0];
      assert toTry == [nextBag] + toTry[1..];
      toTry := toTry[1..];
      if nextBag !in tried {
        FewerLeft(universe, tried, nextBag);
        var nextBags := DirectHolders(rules, nextBag);
        ExpandStep(rules, bag, result, tried, toTry, nextBag, nextBags);
        tried := tried + {nextBag};
        result := result + (set o | o in nextBags);
        toTry := toTry + nextBags;
      } else {
        SkipStep(rules, bag, result, tried, toTry, nextBag);
      }
    }
    SearchComplete(rules, bag, result, tried);
    holders := ListOf(result);
  }

  lemma {:induction false} FewerLeft(universe: set<string>, tried: set<string>, next: string)
    requires next in universe && next !in tried
    ensures |universe - (tried + {next})| < |universe - tried|
  {
    assert universe - tried == (universe - (tried + {next})) + {next};
  }

  /**
   * What the search keeps true: `bag` is expanded or waiting; every bag
   * expanded or waiting is `bag` or can hold it; the bags found are exactly
   * the holders of the bags expanded, and each of them is expanded or waiting.
   */
  ghost predicate Searching(rules: Rules, bag: string, result: set<string>, tried: set<string>, toTry: seq<string>)
  {
    (bag in tried || bag in toTry) &&
    (forall t :: t in tried ==> t == bag || CanHold(rules, t, bag)) &&
    (forall t :: t in toTry ==> t == bag || CanHold(rules, t, bag)) &&
    (forall o :: o in result <==> exists t :: t in tried && Mentions(rules, o, t)) &&
    (forall o :: o in result ==> o in tried || o in toTry)
  }

  /** Dropping a waiting bag that was expanded before keeps the search's invariant. */
  lemma {:induction false} SkipStep(rules: Rules, bag: string, result: set<string>, tried: set<string>, toTry: seq<string>, nextBag: string)
    requires Searching(rules, bag, result, tried, [nextBag] + toTry) && nextBag in tried
    ensures Searching(rules, bag, result, tried, toTry)
  {
  }

  /** Expanding a waiting bag that was not expanded before keeps the search's invariant. */
  lemma {:induction false} ExpandStep(rules: Rules, bag: string, result: set<string>, tried: set<string>, toTry: seq<string>,
                   nextBag: string, nextBags: seq<string>)
    requires Searching(rules, bag, result, tried, [nextBag] + toTry) && nextBag !in tried
    requires forall o :: o in nextBags <==> Mentions(rules, o, nextBag)
    ensures Searching(rules, bag, result + (set o | o in nextBags), tried + {nextBag}, toTry + nextBags)
  {
    forall o | o in nextBags ensures CanHold(rules, o, bag) {
      CanHoldThrough(rules, o, nextBag, bag);
    }
  }

  /**
   * When the worklist is empty, the bags found are those holding a bag
   * expanded, and every bag expanded is `bag` or can hold it.
   */
  lemma {:induction false} SearchComplete(rules: Rules, bag: string, result: set<string>, tried: set<string>)
    requires Searching(rules, bag, result, tried, [])
    ensures forall o :: o in result <==> CanHold(rules, o, bag)
  {
    forall o | CanHold(rules, o, bag) ensures o in result {
      var path :| |path| >= 2 && path[0] == o && path[|path| - 1] == bag && IsChain(rules, path);
      ClosedContainsChain(rules, tried, path);
      assert Mentions(rules, path[0], path[1]);
    }
    forall o | o in result ensures CanHold(rules, o, bag) {
      var t :| t in tried && Mentions(rules, o, t);
      CanHoldThrough(rules, o, t, bag);
    }
  }

  // ---------------------------------------------------------------------------
  // How many bags a bag holds.

  /**
   * The rank falls strictly from a bag with a rule to every listed bag that
   * has a rule of its own, so no bag holds itself, however deeply.
   */
  ghost predicate Ranked(rules: Rules, rank: map<string, nat>)
  {
    forall key :: key in rules ==>
      key in rank &&
      forall k :: 0 <= k < |rules[key]| && rules[key][k].1 in rules ==>
        rules[key][k].1 in rank && rank[rules[key][k].1] < rank[key]
  }

  /** How deep the recursion from a bag may go. */
  function Height(rules: Rules, rank: map<string, nat>, bag: string): nat
    requires Ranked(rules, rank)
  {
    if bag in rules then rank[bag] + 1 else 0
  }

  /** Every listed bag is lower than `bound`. */
  ghost predicate Below(rules: Rules, rank: map<string, nat>, contents: Contents, bound: nat)
    requires Ranked(rules, rank)
  {
    forall k :: 0 <= k < |contents| ==> Height(rules, rank, contents[k].1) < bound
  }

  /**
   * `bagCount`: 0 for a bag without a rule; otherwise the sum over its
   * contents of count times one more than the inner bag's own count.
   */
  function BagCount(rules: Rules, rank: map<string, nat>, bag: string): (n: int)
    requires Ranked(rules, rank)
    ensures bag !in rules || rules[bag] == [] ==> n == 0
    decreases Height(rules, rank, bag), 1
  {
    if bag !in rules then 0
    else SumContents(rules, rank, rules[bag], Height(rules, rank, bag))
  }

  function SumContents(rules: Rules, rank: map<string, nat>, contents: Contents, bound: nat): int
    requires Ranked(rules, rank) && Below(rules, rank, contents, bound)
    decreases bound, 0, |contents|
  {
    if contents == [] then 0
    else
      contents[0].0 * (1 + BagCount(rules, rank, contents[0].1))
      + SumContents(rules, rank, contents[1..], bound)
  }

  /** The count does not depend on which rank witnesses that the rules have no cycle. */
  lemma {:induction false} BagCountRankFree(rules: Rules, rank: map<string, nat>, rank': map<string, nat>, bag: string)
    requires Ranked(rules, rank) && Ranked(rules, rank')
    ensures BagCount(rules, rank, bag) == BagCount(rules, rank', bag)
    decreases Height(rules, rank, bag), 1
  {
    if bag in rules {
      SumContentsRankFree(rules, rank, rank', rules[bag], Height(rules, rank, bag), Height(rules, rank', bag));
    }
  }

  lemma {:induction false} SumContentsRankFree(rules: Rules, rank: map<string, nat>, rank': map<string, nat>,
                                               contents: Contents, bound: nat, bound': nat)
    requires Ranked(rules, rank) && Ranked(rules, rank')
    requires Below(rules, rank, contents, bound) && Below(rules, rank', contents, bound')
    ensures SumContents(rules, rank, contents, bound) == SumContents(rules, rank', contents, bound')
    decreases bound, 0, |contents|
  {
    if contents != [] {
      BagCountRankFree(rules, rank, rank', contents[0].1);
      SumContentsRankFree(rules, rank, rank', contents[1..], bound, bound');
    }
  }

  /** `n` copies of `s` laid end to end; none for a count below one. */
  function Repeat<T>(n: int, s: seq<T>): (r: seq<T>)
    ensures |r| == (if n > 0 then n * |s| else 0)
    decreases n
  {
    if n <= 0 then [] else s + Repeat(n - 1, s)
  }

  /**
   * Every individual bag inside `bag`, outermost first: for each listed
   * item, `count` copies of the inner bag followed by what it holds.
   */
  ghost function Inside(rules: Rules, rank: map<string, nat>, bag: string): seq<string>
    requires Ranked(rules, rank)
    decreases Height(rules, rank, bag), 1
  {
    if bag !in rules then []
    else InsideAll(rules, rank, rules[bag], Height(rules, rank, bag))
  }

  ghost function InsideAll(rules: Rules, rank: map<string, nat>, contents: Contents, bound: nat): seq<string>
    requires Ranked(rules, rank) && Below(rules, rank, contents, bound)
    decreases bound, 0, |contents|
  {
    if contents == [] then []
    else
      Repeat(contents[0].0, [contents[0].1] + Inside(rules, rank, contents[0].1))
      + InsideAll(rules, rank, contents[1..], bound)
  }

  /** Every count in every rule is a natural number. */
  ghost predicate NaturalCounts(rules: Rules)
  {
    forall key, k :: key in rules && 0 <= k < |rules[key]| ==> rules[key][k].0 >= 0
  }

  /** With natural counts, `bagCount` is the number of individual bags inside. */
  lemma {:induction false} BagCountIsInside(rules: Rules, rank: map<string, nat>, bag: string)
    requires Ranked(rules, rank) && NaturalCounts(rules)
    ensures BagCount(rules, rank, bag) == |Inside(rules, rank, bag)|
    decreases Height(rules, rank, bag), 1
  {
    if bag in rules {
      SumContentsIsInsideAll(rules, rank, rules[bag], Height(rules, rank, bag));
    }
  }

  lemma {:induction false} SumContentsIsInsideAll(rules: Rules, rank: map<string, nat>, contents: Contents, bound: nat)
    requires Ranked(rules, rank) && NaturalCounts(rules) && Below(rules, rank, contents, bound)
    requires forall k :: 0 <= k < |contents| ==> contents[k].0 >= 0
    ensures SumContents(rules, rank, contents, bound) == |InsideAll(rules, rank, contents, bound)|
    decreases bound, 0, |contents|
  {
    if contents != [] {
      BagCountIsInside(rules, rank, contents[0].1);
      SumContentsIsInsideAll(rules, rank, contents[1..], bound);
    }
  }
}
