/**
 * Passport Processing: a batch of `key:value` fields over several lines,
 * passports separated by empty lines, and validators for the seven
 * required fields.
 */
module PassportProcessing {
  import opened Basics

  type Passport = map<string, string>

  // ---------------------------------------------------------------------------
  // Parsing.

  /** One `key:value` token: it must split on `:` into exactly two non-empty parts. */
  function TokenField(token: string): (r: Option<(string, string)>)
    ensures r.Some? <==> |SplitOn(token, ':')| == 2
  {
    var values := SplitOn(token, ':');
    if |values| == 2 then Some((values[0], values[1])) else None
  }

  /** The fields of the well-formed tokens, in token order. */
  function FieldList(tokens: seq<string>): seq<(string, string)>
  {
    if tokens == [] then []
    else
      var token := tokens[|tokens| - 1];
      FieldList(tokens[..|tokens| - 1]) + (if TokenField(token).Some? then [TokenField(token).value] else [])
  }

  /** The fields of a line: its space-separated tokens, a later key replacing an earlier one. */
  function Fields(line: string): Passport
  {
    ToMap(FieldList(SplitOn(line, ' ')))
  }

  /**
   * `parseFields`: splits the line on spaces, skips every token that does
   * not split on `:` into exactly two parts, and stores the others, a later
   * key overwriting an earlier one.
   */
  method ParseFields(line: string) returns (fields: Passport)
    ensures fields == Fields(line)
  {
    fields := map[];
    var fieldsString := SplitOn(line, ' ');
    for i := 0 to |fieldsString|
      invariant fields == ToMap(FieldList(fieldsString[..i]))
    {
      FieldListStep(fieldsString, i);
      var values := SplitOn(fieldsString[i], ':');
      if |values| == 2 {
        assert TokenField(fieldsString[i]) == Some((values[0], values[1]));
        ToMapStep(FieldList(fieldsString[..i]), (values[0], values[1]));
        fields := fields[values[0] := values[1]];
        assert fields == ToMap(FieldList(fieldsString[..i + 1]));
      } else {
        assert TokenField(fieldsString[i]).None?;
        assert FieldList(fieldsString[..i + 1]) == FieldList(fieldsString[..i]);
      }
    }
    assert fieldsString[..|fieldsString|] == fieldsString;
  }

  lemma {:induction false} FieldListStep(tokens: seq<string>, i: nat)
    requires i < |tokens|
    ensures FieldList(tokens[..i + 1]) ==
      FieldList(tokens[..i]) + (if TokenField(tokens[i]).Some? then [TokenField(tokens[i]).value] else [])
  {
    var seen := tokens[..i + 1];
    assert seen[..|seen| - 1] == tokens[..i] && seen[|seen| - 1] == tokens[i];
  }

  lemma {:induction false} ToMapStep(pairs: seq<(string, string)>, p: (string, string))
    ensures ToMap(pairs + [p]) == ToMap(pairs)[p.0 := p.1]
  {
    assert (pairs + [p])[..|pairs|] == pairs;
  }

  /** Collecting fields works token by token, so it distributes over concatenation. */
  lemma {:induction false} FieldListAppend(a: seq<string>, b: seq<string>)
    ensures FieldList(a + b) == FieldList(a) + FieldList(b)
    decreases |b|
  {
    if b == [] {
      assert a + b == a;
    } else {
      var b' := b[..|b| - 1];
      assert (a + b)[..|a + b| - 1] == a + b';
      assert (a + b)[|a + b| - 1] == b[|b| - 1];
      FieldListAppend(a, b');
    }
  }

  /** A malformed token anywhere contributes nothing. */
  lemma {:induction false} MalformedTokenSkipped(a: seq<string>, token: string, b: seq<string>)
    requires |SplitOn(token, ':')| != 2
    ensures FieldList(a + [token] + b) == FieldList(a + b)
  {
    FieldListAppend(a + [token], b);
    FieldListAppend(a, b);
    assert FieldList([token]) == [] by { assert [token][..0] == []; }
    FieldListAppend(a, [token]);
  }

  /** Written-out fields read back: each `key:value` token in turn, later keys winning. */
  function ShowFields(fields: seq<(string, string)>): string
  {
    Join(seq(|fields| , k requires 0 <= k < |fields| => fields[k].0 + ":" + fields[k].1), " ")
  }

  /** Keys and values without spaces or colons. */
  predicate Plain(fields: seq<(string, string)>)
  {
    forall k :: 0 <= k < |fields| ==>
      fields[k].0 != [] && fields[k].1 != [] &&
      ' ' !in fields[k].0 && ':' !in fields[k].0 && ' ' !in fields[k].1 && ':' !in fields[k].1
  }

  lemma {:induction false} FieldListOfWellFormed(tokens: seq<string>, fields: seq<(string, string)>)
    requires |tokens| == |fields|
    requires forall k :: 0 <= k < |tokens| ==> TokenField(tokens[k]) == Some(fields[k])
    ensures FieldList(tokens) == fields
    decreases |tokens|
  {
    if tokens != [] {
      FieldListOfWellFormed(tokens[..|tokens| - 1], fields[..|fields| - 1]);
      assert fields == fields[..|fields| - 1] + [fields[|fields| - 1]];
    }
  }

  /** `parseFields` reads back written-out fields, the last value of a key winning. */
  lemma {:induction false} FieldsRoundTrip(fields: seq<(string, string)>)
    requires |fields| >= 1 && Plain(fields)
    ensures Fields(ShowFields(fields)) == ToMap(fields)
  {
    var tokens := seq(|fields|, k requires 0 <= k < |fields| => fields[k].0 + ":" + fields[k].1);
    forall k | 0 <= k < |fields| ensures tokens[k] != [] && ' ' !in tokens[k] && TokenField(tokens[k]) == Some(fields[k]) {
      assert tokens[k] == Join([fields[k].0, fields[k].1], [':']);
      SplitOnJoin([fields[k].0, fields[k].1], ':');
    }
    SplitOnJoin(tokens, ' ');
    assert SplitOn(ShowFields(fields), ' ') == tokens;
    FieldListOfWellFormed(tokens, fields);
  }

  /** Passports closed by the empty lines so far. */
  function Completed(lines: seq<string>): seq<Passport>
  {
    if lines == [] then []
    else
      var init := lines[..|lines| - 1];
      if lines[|lines| - 1] == "" then Completed(init) + [Pending(init)] else Completed(init)
  }

  /** The passport being filled: the fields of the lines since the last empty line, merged in order. */
  function Pending(lines: seq<string>): Passport
  {
    if lines == [] then map[]
    else
      var init := lines[..|lines| - 1];
      if lines[|lines| - 1] == "" then map[] else Pending(init) + Fields(lines[|lines| - 1])
  }

  /**
   * `parsePassports`: every empty line closes the current passport; other
   * lines merge their fields into it, a new value replacing an old one.
   * The fields after the last empty line are never appended.
   */
  method ParsePassports(lines: seq<string>) returns (passports: seq<Passport>)
    ensures passports == Completed(lines)
  {
    passports := [];
    var passport: Passport := map[];
    for i := 0 to |lines|
      invariant passports == Completed(lines[..i]) && passport == Pending(lines[..i])
    {
      assert lines[..i + 1][..i] == lines[..i];
      if lines[i] == "" {
        passports := passports + [passport];
        passport := map[];
      } else {
        var fields := ParseFields(lines[i]);
        passport := passport + fields;
      }
    }
    assert lines[..|lines|] == lines;
  }

  function CountEmpty(lines: seq<string>): nat
  {
    if lines == [] then 0 else CountEmpty(lines[..|lines| - 1]) + (if lines[|lines| - 1] == "" then 1 else 0)
  }

  /** Exactly one passport per empty line. */
  lemma {:induction false} OnePassportPerEmptyLine(lines: seq<string>)
    ensures |Completed(lines)| == CountEmpty(lines)
  {
    if lines != [] {
      OnePassportPerEmptyLine(lines[..|lines| - 1]);
    }
  }

  /** Lines after the last empty line add no passport: their fields are dropped. */
  lemma {:induction false} TrailingFieldsDropped(lines: seq<string>, tail: seq<string>)
    requires forall k :: 0 <= k < |tail| ==> tail[k] != ""
    ensures Completed(lines + tail) == Completed(lines)
    decreases |tail|
  {
    if tail == [] {
      assert lines + tail == lines;
    } else {
      var tail' := tail[..|tail| - 1];
      assert (lines + tail)[..|lines + tail| - 1] == lines + tail';
      assert (lines + tail)[|lines + tail| - 1] == tail[|tail| - 1];
      TrailingFieldsDropped(lines, tail');
    }
  }

  /** All fields of the lines, in order. */
  function AllFields(lines: seq<string>): seq<(string, string)>
  {
    if lines == [] then []
    else AllFields(lines[..|lines| - 1]) + FieldList(SplitOn(lines[|lines| - 1], ' '))
  }

  /**
   * Within one passport the fields of all its lines are stored as if filled
   * one by one, so a later value for a key replaces an earlier one, also
   * across lines.
   */
  lemma {:induction false} PendingIsLastWins(lines: seq<string>)
    requires forall k :: 0 <= k < |lines| ==> lines[k] != ""
    ensures Pending(lines) == ToMap(AllFields(lines))
  {
    if lines != [] {
      var init := lines[..|lines| - 1];
      PendingIsLastWins(init);
      ToMapAppend(AllFields(init), FieldList(SplitOn(lines[|lines| - 1], ' ')));
    }
  }

  // ---------------------------------------------------------------------------
  // Validation. A validator gets `passport[key]`, which is `None` for a missing key.

  function Lookup(passport: Passport, key: string): (r: Option<string>)
    ensures r.Some? <==> key in passport
  {
    if key in passport then Some(passport[key]) else None
  }

  const RequiredFieldKeys: seq<string> := ["byr", "iyr", "eyr", "hgt", "hcl", "ecl", "pid"]

  /** `compactMap { passport[$0] }`: the values of the keys that are present. */
  function PresentValues(keys: seq<string>, passport: Passport): seq<string>
  {
    if keys == [] then []
    else (if keys[0] in passport then [passport[keys[0]]] else []) + PresentValues(keys[1..], passport)
  }

  /** There are as many present values as keys iff every key is present. */
  lemma {:induction false} PresentValuesCount(keys: seq<string>, passport: Passport)
    ensures |PresentValues(keys, passport)| <= |keys|
    ensures |PresentValues(keys, passport)| == |keys| <==> forall k :: 0 <= k < |keys| ==> keys[k] in passport
  {
    if keys != [] {
      PresentValuesCount(keys[1..], passport);
      if forall k :: 0 <= k < |keys| ==> keys[k] in passport {
        assert forall k :: 0 <= k < |keys[1..]| ==> keys[1..][k] in passport by {
          forall k | 0 <= k < |keys[1..]| ensures keys[1..][k] in passport { assert keys[1..][k] == keys[k + 1]; }
        }
      }
      if !(forall k :: 0 <= k < |keys| ==> keys[k] in passport) && keys[0] in passport {
        var k :| 0 <= k < |keys| && keys[k] !in passport;
        assert keys[1..][k - 1] == keys[k];
      }
    }
  }

  /** `hasRequiredFields`: all seven keys are present; `cid` is not among them. */
  function HasRequiredFields(passport: Passport): (r: bool)
    ensures r <==> forall k :: k in RequiredFieldKeys ==> k in passport
  {
    PresentValuesCount(RequiredFieldKeys, passport);
    |PresentValues(RequiredFieldKeys, passport)| == |RequiredFieldKeys|
  }

  /** `isValidYear`: present, an integer, and within min...max. */
  function IsValidYear(s: Option<string>, min: int, max: int): bool
  {
    if s.None? then false
    else
      var year := ParseInt(s.value);
      year.Some? && min <= year.value <= max
  }

  /** A written-out year is valid exactly when it lies in the range. */
  lemma {:induction false} YearRoundTrip(year: int, min: int, max: int)
    ensures IsValidYear(Some(ShowInt(year)), min, max) <==> min <= year <= max
  {
    ParseShowInt(year);
  }

  /** `dropLast(k)`: everything but the last k characters (nothing when there are fewer). */
  function DropLast(s: string, k: nat): (r: string)
    ensures |r| == if |s| <= k then 0 else |s| - k
    ensures r == s[..|r|]
  {
    if |s| <= k then "" else s[..|s| - k]
  }

  predicate HasSuffix(s: string, suffix: string)
  {
    |suffix| <= |s| && s[|s| - |suffix|..] == suffix
  }

  /** `isValidHeight`: all but the last two characters an integer, 59...76 with `in` or 150...193 with `cm`. */
  function IsValidHeight(s: Option<string>): bool
  {
    if s.None? then false
    else
      var value := ParseInt(DropLast(s.value, 2));
      value.Some? &&
      ((HasSuffix(s.value, "in") && 59 <= value.value <= 76) ||
       (HasSuffix(s.value, "cm") && 150 <= value.value <= 193))
  }

  /** A written-out height with its unit is valid exactly when it lies in that unit's range. */
  lemma {:induction false} HeightRoundTrip(value: int, unit: string)
    requires unit == "in" || unit == "cm"
    ensures IsValidHeight(Some(ShowInt(value) + unit)) <==>
      (unit == "in" && 59 <= value <= 76) || (unit == "cm" && 150 <= value <= 193)
  {
    var s := ShowInt(value) + unit;
    assert DropLast(s, 2) == ShowInt(value);
    assert s[|s| - 2..] == unit;
    ParseShowInt(value);
  }

  /** A valid height has at least one digit before a two-letter unit. */
  lemma {:induction false} HeightShape(s: string)
    requires IsValidHeight(Some(s))
    ensures |s| >= 3 && (HasSuffix(s, "in") || HasSuffix(s, "cm"))
  {
    assert ParseInt(DropLast(s, 2)).Some?;
  }

  predicate IsHexDigit(c: char)
  {
    c in "0123456789abcdef"
  }

  /** `isValidHairColor`: a leading `#`, then only the characters 0-9 and a-f, of any length. */
  function IsValidHairColor(s: Option<string>): bool
  {
    if s.None? then false
    else |s.value| >= 1 && s.value[0] == '#' && forall i :: 1 <= i < |s.value| ==> IsHexDigit(s.value[i])
  }

  /** There is no length check: `#` followed by any number of hex digits is accepted, `#` alone included. */
  lemma {:induction false} HairColorAnyLength(digits: string)
    requires forall i :: 0 <= i < |digits| ==> IsHexDigit(digits[i])
    ensures IsValidHairColor(Some("#" + digits))
    ensures IsValidHairColor(Some("#"))
  {
    var s := "#" + digits;
    assert forall i :: 1 <= i < |s| ==> s[i] == digits[i - 1];
  }

  const ValidEyeColors: set<string> := {"amb", "blu", "brn", "gry", "grn", "hzl", "oth"}

  /** `isValidEyeColor`: one of the seven listed codes. */
  function IsValidEyeColor(s: Option<string>): (r: bool)
    ensures r ==> s.Some? && |s.value| == 3
  {
    s.Some? && s.value in ValidEyeColors
  }

  /** `isValidPassportId`: exactly nine decimal digits, leading zeros allowed. */
  function IsValidPassportId(s: Option<string>): (r: bool)
    ensures r <==> s.Some? && |s.value| == 9 && forall i :: 0 <= i < 9 ==> IsDigit(s.value[i])
    ensures r ==> (IsNumeral(s.value) &&
      ParseInt(s.value) == Some(NumeralValue(s.value)) && NumeralValue(s.value) < 1000000000)
  {
    if s.None? then false
    else
      var valid := |s.value| == 9 && forall i :: 0 <= i < |s.value| ==> IsDigit(s.value[i]);
      if valid then
        assert IsNumeral(s.value);
        assert s.value[0] != '+' && s.value[0] != '-' by { assert IsDigit(s.value[0]); }
        assert Pow10(9) == 1000000000;
        true
      else false
  }

  /**
   * `hasValidRequiredFields`: the seven validators in order, conjoined.
   * Each rejects a missing field, so a passport that passes them has every
   * required field.
   */
  function HasValidRequiredFields(passport: Passport): (r: bool)
    ensures r ==> HasRequiredFields(passport)
  {
    IsValidYear(Lookup(passport, "byr"), 1920, 2002) &&
    IsValidYear(Lookup(passport, "iyr"), 2010, 2020) &&
    IsValidYear(Lookup(passport, "eyr"), 2020, 2030) &&
    IsValidHeight(Lookup(passport, "hgt")) &&
    IsValidHairColor(Lookup(passport, "hcl")) &&
    IsValidEyeColor(Lookup(passport, "ecl")) &&
    IsValidPassportId(Lookup(passport, "pid"))
  }
}
