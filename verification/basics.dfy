/**
 * Text and collection helpers shared by the puzzle solvers: the optional
 * value returned where the Swift code force-unwraps or returns nil, the two
 * flavours of splitting (Foundation's `components(separatedBy:)`, which keeps
 * empty pieces, and the standard library's `split(separator:)`, which drops
 * them), whitespace trimming, and `Int(String)` decimal parsing.
 */
module Basics {

  datatype Option<T> = None | Some(value: T)

  /**
   * Every value of `results` in order when all of them are present, and
   * `None` as soon as one is missing: parsing each piece of a list, where
   * one piece that does not parse spoils the whole list.
   */
  function AllSome<T>(results: seq<Option<T>>): (r: Option<seq<T>>)
    ensures r.Some? <==> forall k :: 0 <= k < |results| ==> results[k].Some?
    ensures r.Some? ==> (|r.value| == |results| &&
      forall k :: 0 <= k < |results| ==> results[k] == Some(r.value[k]))
  {
    if results == [] then Some([])
    else
      var rest := AllSome(results[1..]);
      if results[0].None? then None
      else if rest.None? then
        assert exists k :: 1 <= k < |results| && results[k].None? by {
          var k :| 0 <= k < |results[1..]| && results[1..][k].None?;
          assert results[k + 1] == results[1..][k];
        }
        None
      else
        assert forall k :: 1 <= k < |results| ==> results[k] == results[1..][k - 1];
        Some([results[0].value] + rest.value)
  }

  /** The pieces joined back together with `sep` between consecutive pieces. */
  function Join<T>(parts: seq<seq<T>>, sep: seq<T>): seq<T>
  {
    if |parts| == 0 then []
    else if |parts| == 1 then parts[0]
    else parts[0] + sep + Join(parts[1..], sep)
  }

  /**
   * Foundation's `components(separatedBy:)`: scanning from the left, every
   * occurrence of `sep` ends a piece. Empty pieces are kept, so there is
   * always at least one piece.
   */
  function Components<T(==)>(s: seq<T>, sep: seq<T>): (parts: seq<seq<T>>)
    requires |sep| > 0
    ensures |parts| >= 1
    decreases |s|
  {
    if |s| < |sep| then [s]
    else if s[..|sep|] == sep then [[]] + Components(s[|sep|..], sep)
    else
      var rest := Components(s[1..], sep);
      [[s[0]] + rest[0]] + rest[1..]
  }

  /** Splitting and joining again gives back the original text. */
  lemma {:induction false} JoinComponents<T>(s: seq<T>, sep: seq<T>)
    requires |sep| > 0
    ensures Join(Components(s, sep), sep) == s
    decreases |s|
  {
    if |s| < |sep| {
    } else if s[..|sep|] == sep {
      JoinComponents(s[|sep|..], sep);
      var rest := Components(s[|sep|..], sep);
      assert Components(s, sep) == [[]] + rest;
      assert ([[]] + rest)[1..] == rest;
      assert s == s[..|sep|] + s[|sep|..];
    } else {
      JoinComponents(s[1..], sep);
      var rest := Components(s[1..], sep);
      assert Components(s, sep) == [[s[0]] + rest[0]] + rest[1..];
      JoinGrownHead(s[0], rest, sep);
      assert s == [s[0]] + s[1..];
    }
  }

  /** Growing the first piece at its front grows the joined text at its front. */
  lemma {:induction false} JoinGrownHead<T>(x: T, rest: seq<seq<T>>, sep: seq<T>)
    requires |rest| >= 1
    ensures Join([[x] + rest[0]] + rest[1..], sep) == [x] + Join(rest, sep)
  {
    var parts := [[x] + rest[0]] + rest[1..];
    assert parts[1..] == rest[1..];
    if |rest| > 1 {
      assert Join(rest, sep) == rest[0] + sep + Join(rest[1..], sep);
    }
  }

  /** With a one-element separator, no piece contains the separator. */
  lemma {:induction false} ComponentsAvoidSeparator<T>(s: seq<T>, c: T)
    ensures forall part :: part in Components(s, [c]) ==> c !in part
    decreases |s|
  {
    if |s| == 0 {
    } else if s[..1] == [c] {
      ComponentsAvoidSeparator(s[1..], c);
      assert Components(s, [c]) == [[]] + Components(s[1..], [c]);
    } else {
      ComponentsAvoidSeparator(s[1..], c);
      var rest := Components(s[1..], [c]);
      assert rest[0] in rest;
      assert s[0] != c;
      forall part | part in Components(s, [c]) ensures c !in part {
        if part != [s[0]] + rest[0] {
          assert part in rest[1..];
        }
      }
    }
  }

  /** A text without the separator is a single piece. */
  lemma {:induction false} ComponentsWithoutSeparator<T>(p: seq<T>, c: T)
    requires c !in p
    ensures Components(p, [c]) == [p]
    decreases |p|
  {
    if |p| > 0 {
      assert p[..1] != [c] by { assert p[0] in p; }
      ComponentsWithoutSeparator(p[1..], c);
      assert p == [p[0]] + p[1..];
    }
  }

  /** A separator after a separator-free piece ends exactly that piece. */
  lemma {:induction false} ComponentsAfterPiece<T>(p: seq<T>, r: seq<T>, c: T)
    requires c !in p
    ensures Components(p + [c] + r, [c]) == [p] + Components(r, [c])
    decreases |p|
  {
    var s := p + [c] + r;
    if |p| == 0 {
      assert s[..1] == [c];
      assert s[1..] == r;
    } else {
      assert s[..1] != [c] by { assert s[0] == p[0]; assert p[0] in p; }
      assert s[1..] == p[1..] + [c] + r;
      ComponentsAfterPiece(p[1..], r, c);
      assert [p[0]] + p[1..] == p;
    }
  }

  /** Splitting a joined list on a separator no piece contains gives the list back. */
  lemma {:induction false} ComponentsOfJoin<T>(parts: seq<seq<T>>, c: T)
    requires |parts| >= 1
    requires forall k :: 0 <= k < |parts| ==> c !in parts[k]
    ensures Components(Join(parts, [c]), [c]) == parts
    decreases |parts|
  {
    if |parts| == 1 {
      ComponentsWithoutSeparator(parts[0], c);
    } else {
      ComponentsOfJoin(parts[1..], c);
      ComponentsAfterPiece(parts[0], Join(parts[1..], [c]), c);
      assert parts == [parts[0]] + parts[1..];
    }
  }

  /**
   * A separator whose first element a piece does not contain cannot start
   * inside that piece: the multi-element form of `ComponentsAfterPiece`.
   */
  lemma {:induction false} ComponentsAfterLeadFreePiece<T>(p: seq<T>, r: seq<T>, sep: seq<T>)
    requires |sep| > 0 && sep[0] !in p
    ensures Components(p + sep + r, sep) == [p] + Components(r, sep)
    decreases |p|
  {
    var s := p + sep + r;
    if |p| == 0 {
      assert s[..|sep|] == sep;
      assert s[|sep|..] == r;
    } else {
      assert |s| >= |sep|;
      assert s[..|sep|] != sep by { assert s[0] == p[0]; assert p[0] in p; }
      assert s[1..] == p[1..] + sep + r;
      assert sep[0] !in p[1..] by { forall i | 0 <= i < |p[1..]| ensures p[1..][i] != sep[0] { assert p[1..][i] == p[i + 1]; } }
      ComponentsAfterLeadFreePiece(p[1..], r, sep);
      assert [p[0]] + p[1..] == p;
    }
  }

  lemma {:induction false} ComponentsWithoutLead<T>(p: seq<T>, sep: seq<T>)
    requires |sep| > 0 && sep[0] !in p
    ensures Components(p, sep) == [p]
    decreases |p|
  {
    if |p| >= |sep| {
      assert p[..|sep|] != sep by { assert p[0] in p; }
    }
    if |p| > 0 && |p| >= |sep| {
      assert sep[0] !in p[1..] by { forall i | 0 <= i < |p[1..]| ensures p[1..][i] != sep[0] { assert p[1..][i] == p[i + 1]; } }
      ComponentsWithoutLead(p[1..], sep);
      assert [p[0]] + p[1..] == p;
    }
  }

  /** Splitting a joined list gives it back when no piece contains the separator's first element. */
  lemma {:induction false} ComponentsOfJoinLeadFree<T>(parts: seq<seq<T>>, sep: seq<T>)
    requires |parts| >= 1 && |sep| > 0
    requires forall k :: 0 <= k < |parts| ==> sep[0] !in parts[k]
    ensures Components(Join(parts, sep), sep) == parts
    decreases |parts|
  {
    if |parts| == 1 {
      ComponentsWithoutLead(parts[0], sep);
    } else {
      ComponentsOfJoinLeadFree(parts[1..], sep);
      ComponentsAfterLeadFreePiece(parts[0], Join(parts[1..], sep), sep);
      assert parts == [parts[0]] + parts[1..];
    }
  }

  /** `sep` occurs nowhere in `s`. */
  predicate Free<T(==)>(s: seq<T>, sep: seq<T>)
  {
    forall i :: 0 <= i <= |s| - |sep| ==> s[i..][..|sep|] != sep
  }

  /** In `p + sep`, the first occurrence of `sep` is the one right after `p`. */
  predicate FirstAfter<T(==)>(p: seq<T>, sep: seq<T>)
  {
    forall i :: 0 <= i < |p| ==> (p + sep)[i..][..|sep|] != sep
  }

  /** A text in which the separator does not occur is a single piece. */
  lemma {:induction false} ComponentsOfFree<T>(s: seq<T>, sep: seq<T>)
    requires |sep| > 0 && Free(s, sep)
    ensures Components(s, sep) == [s]
    decreases |s|
  {
    if |s| >= |sep| {
      assert s[..|sep|] == s[0..][..|sep|];
      assert Free(s[1..], sep) by {
        forall i | 0 <= i <= |s[1..]| - |sep| ensures s[1..][i..][..|sep|] != sep {
          assert s[1..][i..] == s[i + 1..];
        }
      }
      ComponentsOfFree(s[1..], sep);
      assert [s[0]] + s[1..] == s;
    }
  }

  /** The piece before the first occurrence of the separator is the first component. */
  lemma {:induction false} ComponentsAfterFirst<T>(p: seq<T>, r: seq<T>, sep: seq<T>)
    requires |sep| > 0 && FirstAfter(p, sep)
    ensures Components(p + sep + r, sep) == [p] + Components(r, sep)
    decreases |p|
  {
    var s := p + sep + r;
    if |p| == 0 {
      assert s[..|sep|] == sep;
      assert s[|sep|..] == r;
    } else {
      assert s[..|sep|] == (p + sep)[0..][..|sep|];
      assert s[1..] == p[1..] + sep + r;
      assert FirstAfter(p[1..], sep) by {
        forall i | 0 <= i < |p[1..]| ensures (p[1..] + sep)[i..][..|sep|] != sep {
          assert (p[1..] + sep)[i..] == (p + sep)[i + 1..];
        }
      }
      ComponentsAfterFirst(p[1..], r, sep);
      assert [p[0]] + p[1..] == p;
    }
  }

  /** The pieces that are not empty, in order. */
  function NonEmpty<T>(parts: seq<seq<T>>): (r: seq<seq<T>>)
    ensures forall k :: 0 <= k < |r| ==> r[k] != [] && r[k] in parts
  {
    if parts == [] then []
    else if parts[0] == [] then NonEmpty(parts[1..])
    else [parts[0]] + NonEmpty(parts[1..])
  }

  /** Dropping empty pieces leaves a list of non-empty pieces as it is. */
  lemma {:induction false} NonEmptyKeeps<T>(parts: seq<seq<T>>)
    requires forall k :: 0 <= k < |parts| ==> parts[k] != []
    ensures NonEmpty(parts) == parts
  {
    if parts != [] {
      NonEmptyKeeps(parts[1..]);
      assert parts == [parts[0]] + parts[1..];
    }
  }

  /** `split(separator:)` gives back non-empty pieces joined by a separator none contains. */
  lemma {:induction false} SplitOnJoin<T>(parts: seq<seq<T>>, sep: T)
    requires |parts| >= 1
    requires forall k :: 0 <= k < |parts| ==> parts[k] != [] && sep !in parts[k]
    ensures SplitOn(Join(parts, [sep]), sep) == parts
  {
    ComponentsOfJoin(parts, sep);
    NonEmptyKeeps(parts);
  }

  /** All the pieces laid end to end. */
  function Flatten<T>(parts: seq<seq<T>>): seq<T>
  {
    if parts == [] then [] else parts[0] + Flatten(parts[1..])
  }

  /** The elements other than `x`, in order. */
  function Without<T(==)>(s: seq<T>, x: T): (r: seq<T>)
    ensures x !in r
  {
    if s == [] then [] else (if s[0] == x then [] else [s[0]]) + Without(s[1..], x)
  }

  /**
   * The standard library's `split(separator:)`: the maximal runs of elements
   * other than `sep`, with the empty runs (leading, trailing or between two
   * adjacent separators) omitted.
   */
  function SplitOn<T(==)>(s: seq<T>, sep: T): seq<seq<T>>
  {
    NonEmpty(Components(s, [sep]))
  }

  lemma {:induction false} NonEmptyOfPrepend<T>(p: seq<T>, parts: seq<seq<T>>)
    ensures Flatten(NonEmpty([p] + parts)) == p + Flatten(NonEmpty(parts))
  {
    assert ([p] + parts)[1..] == parts;
  }

  lemma {:induction false} FlattenNonEmptyComponents<T>(s: seq<T>, c: T)
    ensures Flatten(NonEmpty(Components(s, [c]))) == Without(s, c)
    decreases |s|
  {
    if |s| > 0 {
      FlattenNonEmptyComponents(s[1..], c);
      var rest := Components(s[1..], [c]);
      ComponentsStep(s, c);
      if s[0] == c {
        NonEmptyOfEmptyPrepend(rest);
      } else {
        FlattenGrownPiece(s[0], rest);
      }
    }
  }

  /** One step of `Components` on a one-element separator, and of `Without`. */
  lemma {:induction false} ComponentsStep<T>(s: seq<T>, c: T)
    requires |s| > 0
    ensures s[0] == c ==> Components(s, [c]) == [[]] + Components(s[1..], [c])
    ensures s[0] != c ==> Components(s, [c]) == [[s[0]] + Components(s[1..], [c])[0]] + Components(s[1..], [c])[1..]
    ensures Without(s, c) == (if s[0] == c then [] else [s[0]]) + Without(s[1..], c)
  {
    assert s[..1] == [s[0]];
  }

  /** An empty first piece is dropped. */
  lemma {:induction false} NonEmptyOfEmptyPrepend<T>(parts: seq<seq<T>>)
    ensures NonEmpty([[]] + parts) == NonEmpty(parts)
  {
    assert ([[]] + parts)[1..] == parts;
  }

  /** Adding an element in front of the first piece adds it in front of the non-empty pieces laid end to end. */
  lemma {:induction false} FlattenGrownPiece<T>(x: T, rest: seq<seq<T>>)
    requires |rest| >= 1
    ensures Flatten(NonEmpty([[x] + rest[0]] + rest[1..])) == [x] + Flatten(NonEmpty(rest))
  {
    var first, tail := rest[0], rest[1..];
    assert rest == [first] + tail;
    NonEmptyOfPrepend(first, tail);
    NonEmptyOfPrepend([x] + first, tail);
  }

  /**
   * The groups of `split(separator:)` are never empty, never contain the
   * separator, and laid end to end they are the input with every separator
   * removed.
   */
  lemma {:induction false} SplitOnGroups<T>(s: seq<T>, sep: T)
    ensures forall k :: 0 <= k < |SplitOn(s, sep)| ==> SplitOn(s, sep)[k] != [] && sep !in SplitOn(s, sep)[k]
    ensures Flatten(SplitOn(s, sep)) == Without(s, sep)
  {
    ComponentsAvoidSeparator(s, sep);
    FlattenNonEmptyComponents(s, sep);
  }

  // Trimming spaces and tabs (`trimmingCharacters(in: .whitespaces)`).

  predicate IsBlank(c: char) { c == ' ' || c == '\t' }

  function TrimStart(s: string): (r: string)
    ensures r == [] || !IsBlank(r[0])
    ensures |r| <= |s| && r == s[|s| - |r|..]
    ensures forall k :: 0 <= k < |s| - |r| ==> IsBlank(s[k])
  {
    if |s| > 0 && IsBlank(s[0]) then TrimStart(s[1..]) else s
  }

  function TrimEnd(s: string): (r: string)
    ensures r == [] || !IsBlank(r[|r| - 1])
    ensures |r| <= |s| && r == s[..|r|]
    ensures forall k :: |r| <= k < |s| ==> IsBlank(s[k])
  {
    if |s| > 0 && IsBlank(s[|s| - 1]) then TrimEnd(s[..|s| - 1]) else s
  }

  function Trim(s: string): (r: string)
    ensures r == [] || (!IsBlank(r[0]) && !IsBlank(r[|r| - 1]))
  {
    TrimEnd(TrimStart(s))
  }

  /** The trimmed text is a slice of the text, with only blanks before and after it. */
  lemma {:induction false} TrimSlice(s: string) returns (i: nat)
    ensures i + |Trim(s)| <= |s| && Trim(s) == s[i..i + |Trim(s)|]
    ensures forall k :: 0 <= k < i ==> IsBlank(s[k])
    ensures forall k :: i + |Trim(s)| <= k < |s| ==> IsBlank(s[k])
  {
    var start := TrimStart(s);
    i := |s| - |start|;
    var r := TrimEnd(start);
    assert Trim(s) == r;
    assert start == s[i..];
    assert r == start[..|r|];
    assert start[..|r|] == s[i..i + |r|];
    forall k | i + |r| <= k < |s| ensures IsBlank(s[k]) {
      assert s[k] == start[k - i];
    }
  }

  // Decimal integers (`Int(String)`): an optional `+` or `-`, then one or
  // more ASCII digits and nothing else.

  predicate IsDigit(c: char) { '0' <= c <= '9' }

  predicate IsNumeral(s: string)
  {
    |s| > 0 && forall i :: 0 <= i < |s| ==> IsDigit(s[i])
  }

  function DigitValue(c: char): nat
    requires IsDigit(c)
  {
    c as int - '0' as int
  }

  /** The value of a string of digits, most significant first. */
  function NumeralValue(s: string): (n: nat)
    requires forall i :: 0 <= i < |s| ==> IsDigit(s[i])
    ensures n < Pow10(|s|)
  {
    if s == [] then 0 else NumeralValue(s[..|s| - 1]) * 10 + DigitValue(s[|s| - 1])
  }

  function Pow10(k: nat): (p: nat)
    ensures p >= 1
  {
    if k == 0 then 1 else 10 * Pow10(k - 1)
  }

  function ParseInt(s: string): (r: Option<int>)
    ensures r.Some? <==> (IsNumeral(s) || (|s| > 1 && (s[0] == '+' || s[0] == '-') && IsNumeral(s[1..])))
  {
    if |s| > 0 && (s[0] == '+' || s[0] == '-') then
      if IsNumeral(s[1..]) then
        var v: int := NumeralValue(s[1..]);
        Some(if s[0] == '-' then -v else v)
      else None
    else if IsNumeral(s) then Some(NumeralValue(s))
    else None
  }

  function DigitChar(d: nat): (c: char)
    requires d < 10
    ensures IsDigit(c) && DigitValue(c) == d
  {
    ('0' as int + d) as char
  }

  /** The shortest decimal numeral of `n`. */
  function ShowNat(n: nat): (s: string)
    ensures IsNumeral(s)
  {
    if n < 10 then [DigitChar(n)] else ShowNat(n / 10) + [DigitChar(n % 10)]
  }

  function ShowInt(n: int): (s: string)
    ensures |s| > 0
  {
    if n < 0 then "-" + ShowNat(-n) else ShowNat(n)
  }

  lemma {:induction false} NumeralValueOfShowNat(n: nat)
    ensures NumeralValue(ShowNat(n)) == n
  {
    if n >= 10 {
      NumeralValueOfShowNat(n / 10);
      var s := ShowNat(n / 10) + [DigitChar(n % 10)];
      assert s[..|s| - 1] == ShowNat(n / 10);
    }
  }

  /** `Int(String)` reads back what `ShowInt` writes. */
  lemma {:induction false} ParseShowInt(n: int)
    ensures ParseInt(ShowInt(n)) == Some(n)
  {
    if n < 0 {
      var digits := ShowNat(-n);
      NumeralValueOfShowNat(-n);
      assert ShowInt(n) == "-" + digits;
      assert ("-" + digits)[0] == '-' && ("-" + digits)[1..] == digits;
      assert IsNumeral(digits);
    } else {
      var digits := ShowNat(n);
      NumeralValueOfShowNat(n);
      assert ShowInt(n) == digits;
      assert digits[0] != '+' && digits[0] != '-' by { assert IsDigit(digits[0]); }
      assert IsNumeral(digits);
    }
  }

  /** The shown form of an integer never contains a character other than a sign or digit. */
  lemma {:induction false} ShowIntChars(n: int)
    ensures forall i :: 0 <= i < |ShowInt(n)| ==> IsDigit(ShowInt(n)[i]) || ShowInt(n)[i] == '-'
  {
  }

  /** A non-negative number is shown with digits only. */
  lemma {:induction false} ShowNaturalDigits(n: int)
    requires n >= 0
    ensures IsNumeral(ShowInt(n))
  {
  }

  /** A subset as large as its superset is the whole superset. */
  lemma {:induction false} SubsetOfSameSize<T>(a: set<T>, b: set<T>)
    requires a <= b && |a| >= |b|
    ensures a == b
  {
    assert b == a + (b - a);
    assert |b| == |a| + |b - a|;
  }

  // Dictionaries filled one entry at a time (`dict[key] = value` in a loop or
  // a `reduce(into:)`): a later entry for the same key replaces an earlier one.

  function ToMap<K, V>(pairs: seq<(K, V)>): map<K, V>
  {
    if pairs == [] then map[]
    else ToMap(pairs[..|pairs| - 1])[pairs[|pairs| - 1].0 := pairs[|pairs| - 1].1]
  }

  /** A key is present iff some entry has it, and it maps to the value of the last such entry. */
  lemma {:induction false} ToMapLastWins<K, V>(pairs: seq<(K, V)>)
    ensures forall k :: k in ToMap(pairs) <==> exists j :: 0 <= j < |pairs| && pairs[j].0 == k
    ensures forall j :: 0 <= j < |pairs| && (forall j' :: j < j' < |pairs| ==> pairs[j'].0 != pairs[j].0) ==>
      ToMap(pairs)[pairs[j].0] == pairs[j].1
  {
    if pairs != [] {
      var init := pairs[..|pairs| - 1];
      ToMapLastWins(init);
      forall k ensures k in ToMap(pairs) <==> exists j :: 0 <= j < |pairs| && pairs[j].0 == k {
        if k in ToMap(init) {
          var j :| 0 <= j < |init| && init[j].0 == k;
          assert pairs[j].0 == k;
        }
        if exists j :: 0 <= j < |pairs| && pairs[j].0 == k {
          var j :| 0 <= j < |pairs| && pairs[j].0 == k;
          if j < |init| { assert init[j].0 == k; }
        }
      }
      forall j | 0 <= j < |pairs| && (forall j' :: j < j' < |pairs| ==> pairs[j'].0 != pairs[j].0)
        ensures ToMap(pairs)[pairs[j].0] == pairs[j].1
      {
        if j < |init| {
          assert init[j] == pairs[j];
          assert forall j' :: j < j' < |init| ==> init[j'].0 != init[j].0 by {
            forall j' | j < j' < |init| ensures init[j'].0 != init[j].0 {
              assert init[j'] == pairs[j'];
            }
          }
        }
      }
    }
  }

  /** Every line read by `parse`, in order; absent as soon as one line does not parse. */
  function ParseEach<T>(parse: string -> Option<T>, lines: seq<string>): (r: Option<seq<T>>)
    ensures r.Some? <==> forall k :: 0 <= k < |lines| ==> parse(lines[k]).Some?
    ensures r.Some? ==> (|r.value| == |lines| &&
      forall k :: 0 <= k < |lines| ==> Some(r.value[k]) == parse(lines[k]))
  {
    var results := seq(|lines|, k requires 0 <= k < |lines| => parse(lines[k]));
    assert forall k :: 0 <= k < |lines| ==> results[k] == parse(lines[k]);
    AllSome(results)
  }

  /**
   * A dictionary filled from lines of keys and values, one `result[key] =
   * value` per line in order; absent as soon as one line does not parse.
   */
  function ParseTable<K, V>(parse: string -> Option<(K, V)>, lines: seq<string>): (r: Option<map<K, V>>)
    ensures r.Some? <==> forall k :: 0 <= k < |lines| ==> parse(lines[k]).Some?
  {
    match ParseEach(parse, lines)
    case Some(pairs) => Some(ToMap(pairs))
    case None => None
  }

  /** Every key of the table comes from some line, and a repeated key keeps the value of its last line. */
  lemma {:induction false} TableLastWins<K, V>(parse: string -> Option<(K, V)>, lines: seq<string>)
    returns (pairs: seq<(K, V)>, table: map<K, V>)
    requires ParseTable(parse, lines).Some?
    ensures ParseEach(parse, lines) == Some(pairs) && ParseTable(parse, lines) == Some(table)
    ensures forall key :: key in table <==> exists k :: 0 <= k < |pairs| && pairs[k].0 == key
    ensures forall k :: 0 <= k < |pairs| && (forall k' :: k < k' < |pairs| ==> pairs[k'].0 != pairs[k].0) ==>
      pairs[k].0 in table && table[pairs[k].0] == pairs[k].1
  {
    var parsed := ParseEach(parse, lines);
    assert parsed.Some?;
    pairs := parsed.value;
    table := ToMap(pairs);
    assert ParseTable(parse, lines) == Some(table);
    ToMapLastWins(pairs);
  }

  /** Filling from `a` and then from `b` is `b`'s entries overriding `a`'s. */
  lemma {:induction false} ToMapAppend<K, V>(a: seq<(K, V)>, b: seq<(K, V)>)
    ensures ToMap(a + b) == ToMap(a) + ToMap(b)
    decreases |b|
  {
    if b != [] {
      var b' := b[..|b| - 1];
      assert (a + b)[..|a + b| - 1] == a + b';
      ToMapAppend(a, b');
    } else {
      assert a + b == a;
    }
  }
}
