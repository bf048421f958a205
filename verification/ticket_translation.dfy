/**
 * Ticket Translation: rules name sets of valid values (unions of inclusive
 * ranges), tickets are rows of integers, a value is invalid when no rule
 * accepts it, and a rule's column is the only column every ticket satisfies.
 */
module TicketTranslation {
  import opened Basics

  /** `RulesMap`: rule name to the set of values it accepts. */
  type RulesMap = map<string, set<int>>

  // ---------------------------------------------------------------------------
  // Parsing. `Int(...)!`, a missing `-` or `": "` piece, and a range whose
  // minimum exceeds its maximum (a reversed closed range) all trap; each
  // becomes a `None` result.

  /** One `min-max` piece. */
  function ParseRange(range: string): (r: Option<(int, int)>)
    ensures r.Some? <==> (var minMax := Components(range, "-");
      |minMax| >= 2 && ParseInt(minMax[0]).Some? && ParseInt(minMax[1]).Some? &&
      ParseInt(minMax[0]).value <= ParseInt(minMax[1]).value)
    ensures r.Some? ==> (Some(r.value.0) == ParseInt(Components(range, "-")[0]) &&
      Some(r.value.1) == ParseInt(Components(range, "-")[1]))
    ensures r.Some? ==> r.value.0 <= r.value.1
  {
    var minMax := Components(range, "-");
    if |minMax| < 2 then None
    else
      var lo := ParseInt(minMax[0]);
      var hi := ParseInt(minMax[1]);
      if lo.None? || hi.None? || lo.value > hi.value then None
      else Some((lo.value, hi.value))
  }

  /** Every `" or "` piece, in order; `None` as soon as one does not parse. */
  function ParseRangeList(pieces: seq<string>): (r: Option<seq<(int, int)>>)
    ensures r.Some? <==> forall k :: 0 <= k < |pieces| ==> ParseRange(pieces[k]).Some?
    ensures r.Some? ==> (|r.value| == |pieces| &&
      forall k :: 0 <= k < |pieces| ==> Some(r.value[k]) == ParseRange(pieces[k]))
  {
    var results := seq(|pieces|, k requires 0 <= k < |pieces| => ParseRange(pieces[k]));
    assert forall k :: 0 <= k < |pieces| ==> results[k] == ParseRange(pieces[k]);
    AllSome(results)
  }

  /** The inclusive interval `lo...hi` as a set (empty when lo > hi). */
  function Interval(lo: int, hi: int): (r: set<int>)
    ensures forall v :: v in r <==> lo <= v <= hi
    decreases hi - lo
  {
    if lo > hi then {} else {lo} + Interval(lo + 1, hi)
  }

  /** The union of the inclusive intervals, built one interval at a time (`formUnion`). */
  function Union(intervals: seq<(int, int)>): (r: set<int>)
    ensures forall v :: v in r <==> exists iv :: iv in intervals && iv.0 <= v <= iv.1
  {
    if intervals == [] then {}
    else
      var init := intervals[..|intervals| - 1];
      var last := intervals[|intervals| - 1];
      assert intervals == init + [last];
      Union(init) + Interval(last.0, last.1)
  }

  /** `parse(ranges:)`: the union of the `min-max` intervals separated by `" or "`. */
  function ParseRanges(ranges: string): (r: Option<set<int>>)
    ensures r.Some? <==> ParseRangeList(Components(ranges, " or ")).Some?
  {
    var intervals := ParseRangeList(Components(ranges, " or "));
    if intervals.None? then None
    else Some(Union(intervals.value))
  }

  function ShowRange(interval: (int, int)): string
  {
    ShowInt(interval.0) + "-" + ShowInt(interval.1)
  }

  /** A written-out non-negative interval parses back, and holds no space. */
  lemma {:induction false} RangeRoundTrip(interval: (int, int))
    requires 0 <= interval.0 <= interval.1
    ensures ' ' !in ShowRange(interval)
    ensures ParseRange(ShowRange(interval)) == Some(interval)
  {
    var lo := ShowInt(interval.0);
    var hi := ShowInt(interval.1);
    ShowNaturalDigits(interval.0);
    ShowNaturalDigits(interval.1);
    assert '-' !in lo && '-' !in hi && ' ' !in lo && ' ' !in hi;
    assert ShowRange(interval) == Join([lo, hi], "-");
    ComponentsOfJoin([lo, hi], '-');
    ParseShowInt(interval.0);
    ParseShowInt(interval.1);
  }

  /** The written form of intervals: `min-max` pieces joined by `" or "`. */
  function ShowRanges(intervals: seq<(int, int)>): string
  {
    Join(seq(|intervals|, k requires 0 <= k < |intervals| => ShowRange(intervals[k])), " or ")
  }

  /** Parsing written-out non-negative intervals gives back their union. */
  lemma {:induction false} RangesRoundTrip(intervals: seq<(int, int)>)
    requires |intervals| >= 1
    requires forall k :: 0 <= k < |intervals| ==> 0 <= intervals[k].0 <= intervals[k].1
    ensures ParseRanges(ShowRanges(intervals)) == Some(Union(intervals))
  {
    var pieces := seq(|intervals|, k requires 0 <= k < |intervals| => ShowRange(intervals[k]));
    forall k | 0 <= k < |intervals|
      ensures " or "[0] !in pieces[k] && ParseRange(pieces[k]) == Some(intervals[k])
    {
      RangeRoundTrip(intervals[k]);
    }
    ComponentsOfJoinLeadFree(pieces, " or ");
    assert Components(ShowRanges(intervals), " or ") == pieces;
    ParseRangeListOfParsed(pieces, intervals);
  }

  lemma {:induction false} ParseRangeListOfParsed(pieces: seq<string>, intervals: seq<(int, int)>)
    requires |pieces| == |intervals|
    requires forall k :: 0 <= k < |pieces| ==> ParseRange(pieces[k]) == Some(intervals[k])
    ensures ParseRangeList(pieces) == Some(intervals)
  {
    assert ParseRangeList(pieces).Some?;
    assert ParseRangeList(pieces).value == intervals;
  }

  /** Comma-separated integers, in order. */
  function ParseInts(pieces: seq<string>): (r: Option<seq<int>>)
    ensures r.Some? <==> forall k :: 0 <= k < |pieces| ==> ParseInt(pieces[k]).Some?
    ensures r.Some? ==> (|r.value| == |pieces| &&
      forall k :: 0 <= k < |pieces| ==> Some(r.value[k]) == ParseInt(pieces[k]))
  {
    var results := seq(|pieces|, k requires 0 <= k < |pieces| => ParseInt(pieces[k]));
    assert forall k :: 0 <= k < |pieces| ==> results[k] == ParseInt(pieces[k]);
    AllSome(results)
  }

  /** `parse(ticket:)`. */
  function ParseTicket(ticket: string): Option<seq<int>>
  {
    ParseInts(Components(ticket, ","))
  }

  function ShowTicket(values: seq<int>): string
  {
    Join(seq(|values|, k requires 0 <= k < |values| => ShowInt(values[k])), ",")
  }

  /** `parse(ticket:)` reads back the comma-separated values in order. */
  lemma {:induction false} TicketRoundTrip(values: seq<int>)
    requires |values| >= 1
    ensures ParseTicket(ShowTicket(values)) == Some(values)
  {
    var pieces := seq(|values|, k requires 0 <= k < |values| => ShowInt(values[k]));
    forall k | 0 <= k < |values| ensures ',' !in pieces[k] && ParseInt(pieces[k]) == Some(values[k]) {
      ShowIntChars(values[k]);
      ParseShowInt(values[k]);
    }
    ComponentsOfJoin(pieces, ',');
    var parsed := ParseInts(pieces);
    assert parsed.Some?;
    assert parsed.value == values;
  }

  /** One rule line `name: ranges`. */
  function ParseRuleLine(line: string): (r: Option<(string, set<int>)>)
    ensures r.Some? <==> |Components(line, ": ")| >= 2 && ParseRanges(Components(line, ": ")[1]).Some?
    ensures r.Some? ==> r.value.0 == Components(line, ": ")[0]
    ensures r.Some? ==> ParseRanges(Components(line, ": ")[1]) == Some(r.value.1)
  {
    var components := Components(line, ": ");
    if |components| < 2 then None
    else
      var validRanges := ParseRanges(components[1]);
      if validRanges.None? then None else Some((components[0], validRanges.value))
  }

  /** `parse(rules:)`: the rules table, filled line by line, a later line for a name replacing an earlier one. */
  function ParseRules(lines: seq<string>): Option<RulesMap>
  {
    ParseTable(ParseRuleLine, lines)
  }

  function ParseTickets(lines: seq<string>): (r: Option<seq<seq<int>>>)
    ensures r.Some? <==> forall k :: 0 <= k < |lines| ==> ParseTicket(lines[k]).Some?
    ensures r.Some? ==> (|r.value| == |lines| &&
      forall k :: 0 <= k < |lines| ==> Some(r.value[k]) == ParseTicket(lines[k]))
  {
    var results := seq(|lines|, k requires 0 <= k < |lines| => ParseTicket(lines[k]));
    assert forall k :: 0 <= k < |lines| ==> results[k] == ParseTicket(lines[k]);
    AllSome(results)
  }

  /**
   * `parse(_:)` on the groups of non-empty lines: the rules, the own ticket
   * (the last line of the second group) and the nearby tickets (the third
   * group without its header line). Fewer than three groups traps.
   */
  function ParseGroups(groups: seq<seq<string>>): (r: Option<(RulesMap, seq<int>, seq<seq<int>>)>)
    requires forall k :: 0 <= k < |groups| ==> groups[k] != []
    ensures r.Some? <==> (|groups| >= 3 && ParseRules(groups[0]).Some? &&
      ParseTicket(groups[1][|groups[1]| - 1]).Some? && ParseTickets(groups[2][1..]).Some?)
    ensures r.Some? ==> Some(r.value.0) == ParseRules(groups[0])
    ensures r.Some? ==> Some(r.value.1) == ParseTicket(groups[1][|groups[1]| - 1])
    ensures r.Some? ==> Some(r.value.2) == ParseTickets(groups[2][1..])
  {
    if |groups| < 3 then None
    else
      var rules := ParseRules(groups[0]);
      var myTicket := ParseTicket(groups[1][|groups[1]| - 1]);
      var otherTickets := ParseTickets(groups[2][1..]);
      if rules.None? || myTicket.None? || otherTickets.None? then None
      else Some((rules.value, myTicket.value, otherTickets.value))
  }

  /** `parse(_:)`: the input split into its groups of non-empty lines, none of which is empty. */
  function ParseInput(input: seq<string>): Option<(RulesMap, seq<int>, seq<seq<int>>)>
  {
    SplitOnGroups(input, "");
    ParseGroups(SplitOn(input, ""))
  }

  // ---------------------------------------------------------------------------
  // Validation.

  /** Some rule accepts the value (`rules.values.contains { $0.contains(value) }`). */
  predicate InSomeRule(rules: RulesMap, value: int)
  {
    exists name :: name in rules && value in rules[name]
  }

  /** `invalidValues(forTicket:)`: the values no rule accepts, in ticket order. */
  function InvalidValues(ticket: seq<int>, rules: RulesMap): seq<int>
  {
    if ticket == [] then []
    else
      var value := ticket[|ticket| - 1];
      InvalidValues(ticket[..|ticket| - 1], rules) + (if InSomeRule(rules, value) then [] else [value])
  }

  /** Exactly the values no rule accepts, each as often as it occurs in the ticket. */
  lemma {:induction false} InvalidValuesCount(ticket: seq<int>, rules: RulesMap)
    ensures forall v :: multiset(InvalidValues(ticket, rules))[v] == if InSomeRule(rules, v) then 0 else multiset(ticket)[v]
  {
    if ticket != [] {
      var init := ticket[..|ticket| - 1];
      InvalidValuesCount(init, rules);
      assert ticket == init + [ticket[|ticket| - 1]];
    }
  }

  /** The filter works value by value, so it distributes over concatenation (it keeps order). */
  lemma {:induction false} InvalidValuesAppend(a: seq<int>, b: seq<int>, rules: RulesMap)
    ensures InvalidValues(a + b, rules) == InvalidValues(a, rules) + InvalidValues(b, rules)
    decreases |b|
  {
    if b == [] {
      assert a + b == a;
    } else {
      var b' := b[..|b| - 1];
      var value := b[|b| - 1];
      var tail := if InSomeRule(rules, value) then [] else [value];
      assert (a + b)[..|a + b| - 1] == a + b';
      assert (a + b)[|a + b| - 1] == value;
      assert InvalidValues(a + b, rules) == InvalidValues(a + b', rules) + tail;
      assert InvalidValues(b, rules) == InvalidValues(b', rules) + tail;
      InvalidValuesAppend(a, b', rules);
    }
  }

  /** `invalidValues(forTickets:)`: the per-ticket results one after the other (`flatMap`). */
  function InvalidValuesForTickets(tickets: seq<seq<int>>, rules: RulesMap): seq<int>
  {
    if tickets == [] then [] else InvalidValues(tickets[0], rules) + InvalidValuesForTickets(tickets[1..], rules)
  }

  /** Filtering every ticket and concatenating is filtering the concatenated tickets. */
  lemma {:induction false} InvalidValuesForTicketsIsFlat(tickets: seq<seq<int>>, rules: RulesMap)
    ensures InvalidValuesForTickets(tickets, rules) == InvalidValues(Flatten(tickets), rules)
  {
    if tickets != [] {
      InvalidValuesForTicketsIsFlat(tickets[1..], rules);
      InvalidValuesAppend(tickets[0], Flatten(tickets[1..]), rules);
    }
  }

  /** `isValid(forTicket:)`: every value is accepted by some rule. */
  function IsValid(ticket: seq<int>, rules: RulesMap): (r: bool)
    ensures r <==> InvalidValues(ticket, rules) == []
  {
    var invalid := InvalidValues(ticket, rules);
    InvalidValuesCount(ticket, rules);
    if invalid != [] then
      assert multiset(invalid)[invalid[0]] > 0;
      false
    else
      assert forall v :: v in ticket ==> InSomeRule(rules, v) by {
        forall v | v in ticket ensures InSomeRule(rules, v) {
          assert v in multiset(ticket);
          assert multiset(invalid)[v] == 0;
        }
      }
      forall v :: v in ticket ==> InSomeRule(rules, v)
  }

  // ---------------------------------------------------------------------------
  // Column matching.

  /** `tickets[0]` exists and no ticket is shorter, so every column below its width can be read. */
  predicate Rectangular(tickets: seq<seq<int>>)
  {
    |tickets| >= 1 && forall k :: 0 <= k < |tickets| ==> |tickets[k]| >= |tickets[0]|
  }

  /** Every ticket's value in the column is a valid value. */
  predicate Fits(validValues: set<int>, tickets: seq<seq<int>>, position: nat)
    requires Rectangular(tickets) && position < |tickets[0]|
  {
    forall k :: 0 <= k < |tickets| ==> tickets[k][position] in validValues
  }

  /** The fitting columns below `n`, in increasing order. */
  function FittingColumns(validValues: set<int>, tickets: seq<seq<int>>, n: nat): (r: seq<nat>)
    requires Rectangular(tickets) && n <= |tickets[0]|
    ensures forall p: nat :: p in r <==> p < n && Fits(validValues, tickets, p)
    ensures forall i, j :: 0 <= i < j < |r| ==> r[i] < r[j]
  {
    if n == 0 then []
    else
      var prev := FittingColumns(validValues, tickets, n - 1);
      assert forall i :: 0 <= i < |prev| ==> prev[i] < n - 1 by {
        forall i | 0 <= i < |prev| ensures prev[i] < n - 1 {
          assert prev[i] in prev;
        }
      }
      prev + (if Fits(validValues, tickets, n - 1) then [n - 1] else [])
  }

  /** The only fitting column, if there is exactly one. */
  function MatchingPosition(validValues: set<int>, tickets: seq<seq<int>>): Option<nat>
    requires Rectangular(tickets)
  {
    var matches := FittingColumns(validValues, tickets, |tickets[0]|);
    if |matches| == 1 then Some(matches[0]) else None
  }

  /**
   * A column is reported iff it is the only fitting one: with no fitting
   * column, or with several, there is no answer.
   */
  lemma {:induction false} MatchingPositionIsUnique(validValues: set<int>, tickets: seq<seq<int>>)
    requires Rectangular(tickets)
    ensures var r := MatchingPosition(validValues, tickets);
      r.Some? ==> (r.value < |tickets[0]| && Fits(validValues, tickets, r.value) &&
        forall q: nat :: q < |tickets[0]| && Fits(validValues, tickets, q) ==> q == r.value)
    ensures MatchingPosition(validValues, tickets).None? ==>
      forall p: nat :: p < |tickets[0]| && Fits(validValues, tickets, p) ==>
        exists q: nat :: q < |tickets[0]| && q != p && Fits(validValues, tickets, q)
  {
    var matches := FittingColumns(validValues, tickets, |tickets[0]|);
    if |matches| == 1 {
      assert matches[0] in matches;
    } else {
      forall p: nat | p < |tickets[0]| && Fits(validValues, tickets, p)
        ensures exists q: nat :: q < |tickets[0]| && q != p && Fits(validValues, tickets, q)
      {
        assert p in matches;
        if matches[0] != p {
          assert matches[0] in matches;
        } else {
          assert matches[1] in matches;
        }
      }
    }
  }

  /**
   * `findMatchingPosition`: collects the fitting columns below the width of
   * the first ticket and answers only when there is exactly one.
   */
  method FindMatchingPosition(validValues: set<int>, tickets: seq<seq<int>>) returns (r: Option<nat>)
    requires Rectangular(tickets)
    ensures r == MatchingPosition(validValues, tickets)
    ensures r.Some? <==> exists p: nat :: (p < |tickets[0]| && Fits(validValues, tickets, p) &&
      forall q: nat :: q < |tickets[0]| && Fits(validValues, tickets, q) ==> q == p)
  {
    var matches: seq<nat> := [];
    for position := 0 to |tickets[0]|
      invariant matches == FittingColumns(validValues, tickets, position)
    {
      if Fits(validValues, tickets, position) {
        matches := matches + [position];
      }
    }
    r := if |matches| == 1 then Some(matches[0]) else None;
    MatchingPositionIsUnique(validValues, tickets);
  }

  /** What the found positions record: names of rules, each once, each with its only fitting column. */
  ghost predicate Records(results: seq<(nat, string)>, found: set<string>, rules: RulesMap, tickets: seq<seq<int>>)
  {
    (forall k :: 0 <= k < |results| ==>
      results[k].1 in found && results[k].1 in rules && Rectangular(tickets) &&
      Some(results[k].0) == MatchingPosition(rules[results[k].1], tickets)) &&
    (forall j, k :: 0 <= j < k < |results| ==> results[j].1 != results[k].1) &&
    (forall name :: name in found ==> exists k :: 0 <= k < |results| && results[k].1 == name)
  }

  /** The rules that have exactly one fitting column. */
  ghost function UniqueNames(rules: RulesMap, tickets: seq<seq<int>>): set<string>
    requires |rules| > 0 ==> Rectangular(tickets)
  {
    set name | name in rules && MatchingPosition(rules[name], tickets).Some?
  }

  /** Recording a new rule with its only fitting column keeps the record consistent. */
  lemma {:induction false} RecordsAppend(results: seq<(nat, string)>, found: set<string>, rules: RulesMap, tickets: seq<seq<int>>,
                      position: nat, name: string)
    requires Records(results, found, rules, tickets)
    requires name in rules && name !in found && Rectangular(tickets)
    requires Some(position) == MatchingPosition(rules[name], tickets)
    ensures Records(results + [(position, name)], found + {name}, rules, tickets)
  {
    var results' := results + [(position, name)];
    forall n | n in found + {name} ensures exists k :: 0 <= k < |results'| && results'[k].1 == n {
      if n == name {
        assert results'[|results|].1 == n;
      } else {
        var k :| 0 <= k < |results| && results[k].1 == n;
        assert results'[k].1 == n;
      }
    }
  }

  /**
   * One pass of `for rule in rules` inside `findRulePositions`, visiting the
   * rules in the dictionary's unspecified order: each rule not found yet is
   * recorded with its column when it has exactly one fitting column. Started
   * from rules that all have one, a pass ends with exactly the rules that
   * have one.
   */
  method RecordPass(rules: RulesMap, validTickets: seq<seq<int>>, results: seq<(nat, string)>, rulesFound: set<string>)
    returns (results': seq<(nat, string)>, rulesFound': set<string>)
    requires |rules| > 0 ==> Rectangular(validTickets)
    requires rulesFound <= UniqueNames(rules, validTickets)
    requires Records(results, rulesFound, rules, validTickets)
    ensures rulesFound' == UniqueNames(rules, validTickets)
    ensures Records(results', rulesFound', rules, validTickets)
  {
    results', rulesFound' := results, rulesFound;
    ghost var unique := UniqueNames(rules, validTickets);
    var remaining := rules.Keys;
    while remaining != {}
      invariant remaining <= rules.Keys
      invariant rulesFound' == rulesFound + (unique - remaining)
      invariant Records(results', rulesFound', rules, validTickets)
      decreases |remaining|
    {
      var name :| name in remaining;
      PassStep(rulesFound, unique, remaining, rulesFound', name);
      remaining := remaining - {name};
      if name !in rulesFound' {
        var position := FindMatchingPosition(rules[name], validTickets);
        if position.Some? {
          assert name in unique;
          RecordsAppend(results', rulesFound', rules, validTickets, position.value, name);
          results' := results' + [(position.value, name)];
          rulesFound' := rulesFound' + {name};
        } else {
          assert name !in unique;
        }
      }
    }
  }

  /** Visiting one more rule adds it to the names found exactly when it is unique and not found yet. */
  lemma {:induction false} PassStep(before: set<string>, unique: set<string>, remaining: set<string>, found: set<string>, name: string)
    requires name in remaining && before <= unique
    requires found == before + (unique - remaining)
    ensures name in unique && name !in found ==> found + {name} == before + (unique - (remaining - {name}))
    ensures name !in unique || name in found ==> found == before + (unique - (remaining - {name}))
  {
  }

  /**
   * `findRulePositions`: passes over the rules until every rule has been
   * given a position. The search for a rule's column ignores the rules
   * already found, so the first pass finds every rule that has a single
   * fitting column and later passes find nothing new: the loop ends iff
   * every rule has one. The model stops after `fuel` passes and answers
   * `None` in place of looping forever.
   */
  method FindRulePositions(rules: RulesMap, validTickets: seq<seq<int>>, fuel: nat) returns (r: Option<seq<(nat, string)>>)
    requires |rules| > 0 ==> Rectangular(validTickets)
    ensures r.Some? <==> (|rules| == 0 ||
      (fuel >= 1 && forall name :: name in rules ==> MatchingPosition(rules[name], validTickets).Some?))
    ensures r.Some? ==> Records(r.value, rules.Keys, rules, validTickets)
  {
    var results: seq<(nat, string)> := [];
    var rulesFound: set<string> := {};
    var passes: nat := 0;
    ghost var unique := UniqueNames(rules, validTickets);
    while |rulesFound| < |rules|
      invariant rulesFound <= unique <= rules.Keys
      invariant passes == 0 ==> rulesFound == {}
      invariant passes > 0 ==> rulesFound == unique
      invariant passes <= fuel
      invariant Records(results, rulesFound, rules, validTickets)
      decreases fuel - passes
    {
      if passes == fuel {
        if passes > 0 {
          assert rulesFound != rules.Keys;
          var missing :| missing in rules.Keys && missing !in rulesFound;
          assert MatchingPosition(rules[missing], validTickets).None?;
        }
        return None;
      }
      results, rulesFound := RecordPass(rules, validTickets, results, rulesFound);
      passes := passes + 1;
    }
    SubsetOfSameSize(rulesFound, rules.Keys);
    return Some(results);
  }
}
