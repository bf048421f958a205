# Advent of Code 2020 solvers, modelled in Dafny

This project models the cores of eight Swift puzzle solvers from the AoC2020
repository and proves what each one computes. There is one Dafny module per
solver, plus `Basics`.

| module | file | what it models |
|---|---|---|
| `Basics` | basics.dfy | Helpers the solvers share. |
| `MonsterMessages` | monster_messages.dfy | Rule-line parsing into a table of alternatives of `PartialRule`s. Depth-first expansion of references (`permutations`). Folding of literal runs (`joinLiterals`). The count of messages that match rule 0. |
| `ConwayCubes` | conway_cubes.dfy | A 3-D cellular automaton stored folded onto z ≥ 0: the initial slice, the neighbour count, one cycle, and the weighted `count`. |
| `TicketTranslation` | ticket_translation.dfy | Range-set parsing, the invalid-value filter, ticket validity, the unique-column search and the rule-position loop. |
| `PassportProcessing` | passport_processing.dfy | The blank-line-separated passport parser, the field parser and the seven field validators. |
| `HandyHaversack` | handy_haversack.dfy | The bag-rule parser, direct holders, the worklist search for all holders, and the recursive bag count. |
| `EncodingError` | encoding_error.dfy | The sliding-window search for the first invalid value and the search for a contiguous range summing to it. |
| `CustomCustoms` | custom_customs.dfy | Union and intersection of the declarations in a group, and the grouping of lines. |
| `RambunctiousRecitation` | rambunctious_recitation.dfy | The memory game played on the `spoken` dictionary. |

`Basics` provides `Option`, Foundation's `components(separatedBy:)` (`Components`) and the empty-dropping `split(separator:)` (`SplitOn`). It also provides `Int(String)` (`ParseInt`), its inverse `ShowInt`, and the dictionary built by `reduce(into: [:])`, where a later key wins (`ToMap`).

How each source form is modelled:

- Pure Swift code (`map`, `filter`, `reduce`, recursion) becomes functions.
- Loops that update variables become methods. Each method is proved against a specification function or states the property directly.
  - Both `joinLiterals` functions and `permutations`.
  - `init(input:)`, `activeNeighborCount`, `runCycle` and `count`.
  - `findMatchingPosition` and `findRulePositions`.
  - `parseFields` and `parsePassports`.
  - `bags(thatCanDirectlyHold:)` and `bags(thatCanHold:)`.
  - `findInvalidValue` and `findWeaknessRange`.
  - `add` and `value(onTurn:)`.
- The global dictionary `spoken` of the recitation game is a field of the class `Recitation`. Its methods update that field in place.
- `ConwayCube` is a Swift struct whose fields are all `let`, so it is a datatype value and `runCycle` returns a new one.
- Swift dictionaries and sets iterate in no fixed order. Where the result depends on that order, the methods pick the next element with `:|`. Their contracts therefore hold for every order.
  - This affects `bags(thatCanDirectlyHold:)`, `Array(set)`, the `for rule in rules` pass and `count`.

## Model

Source paths are relative to the repository root.

| member | source | states |
|---|---|---|
| MonsterMessages.PartialRule.IsRulesReference | Swift/19-MonsterMessages/MonsterMessages.swift:55-60 | A partial rule is a reference exactly when it is not a literal, so exactly one of `isLiteral` and `isRulesReference` holds. |
| MonsterMessages.PartialRule.RuleIndex | Swift/19-MonsterMessages/MonsterMessages.swift:62-67 | The index is present iff the partial rule is a reference, and it is that reference's index. |
| MonsterMessages.PartialRule.LiteralValue | Swift/19-MonsterMessages/MonsterMessages.swift:76-81 | The value is present iff the partial rule is a literal, and it is that literal's text. |
| MonsterMessages.ParseReferences | Swift/19-MonsterMessages/MonsterMessages.swift:107-108 | An alternative parses iff every space-separated piece is an integer. It is then the references to those integers, in order. |
| MonsterMessages.ParseAlternatives | Swift/19-MonsterMessages/MonsterMessages.swift:105-109 | One alternative per piece between the separators made of a space, a vertical bar and a space, in order. The result is absent iff some piece does not parse. |
| MonsterMessages.ParsePartialRules | Swift/19-MonsterMessages/MonsterMessages.swift:101-110 | A body that starts with a quote gives exactly one alternative holding one literal, the character after the quote, and is absent when nothing follows the quote. An empty body traps, so it is absent. Any other body parses exactly when every vertical-bar-separated piece is a list of integers, and then gives one alternative per piece, each the rule references of its numbers in order. |
| MonsterMessages.ParseRuleLine | Swift/19-MonsterMessages/MonsterMessages.swift:93-96 | A line gives a rule exactly when it has a `": "` piece, the text before it is an integer and the trimmed text after it is a body that parses. The index is that integer and the alternatives are that body's. |
| MonsterMessages.ParseInput | Swift/19-MonsterMessages/MonsterMessages.swift:86-89 | The input parses exactly when it has at least two blank-line-separated groups and every line of the first group is a rule. The rules are the table of the first group and the messages are the second group. |
| MonsterMessages.ReferencesRoundTrip | Swift/19-MonsterMessages/MonsterMessages.swift:105-109 | A written-out list of rule numbers splits back into its numerals and parses back to references to those numbers. |
| MonsterMessages.BodyRoundTrip | Swift/19-MonsterMessages/MonsterMessages.swift:101-110 | A body of written-out reference alternatives joined by the vertical-bar separator parses back to exactly those alternatives. |
| MonsterMessages.TextAppend | Swift/19-MonsterMessages/MonsterMessages.swift:119-123 | The text of literals distributes over concatenation, which is what appending literal values one at a time relies on. |
| MonsterMessages.JoinLiterals | Swift/19-MonsterMessages/MonsterMessages.swift:118-125 | Absent iff some element is a reference. Otherwise it is one literal whose value is all literal values concatenated in order. |
| MonsterMessages.JoinLiteralsList | Swift/19-MonsterMessages/MonsterMessages.swift:127-134 | Same length and order as the input. Every all-literal list becomes the one-element list of its joined literal. Every other list is returned unchanged. |
| MonsterMessages.CandidatesLighter | Swift/19-MonsterMessages/MonsterMessages.swift:144-157 | In an acyclic grammar, a referenced rule exists. Each of its alternatives, followed by the rest of the list, weighs less than the list it replaces. This is the termination argument. |
| MonsterMessages.Permutations | Swift/19-MonsterMessages/MonsterMessages.swift:136-158 | The loop-and-recursion implementation returns exactly `Expansions`, the recursive reference definition of the derivation list. |
| MonsterMessages.ExpansionsShape | Swift/19-MonsterMessages/MonsterMessages.swift:136-158 | Every returned list starts with the prefix, and the rest holds only literals. |
| MonsterMessages.ReferenceSplice | Swift/19-MonsterMessages/MonsterMessages.swift:144-157 | A reference to a single-alternative rule is spliced in place. A reference to a multi-alternative rule yields each alternative's expansions, concatenated in alternative order. |
| MonsterMessages.ExpandAllIsFlatten | Swift/19-MonsterMessages/MonsterMessages.swift:151-157 | Mapping over the candidates and `joined()` gives the concatenation of each candidate's expansions, in order. |
| MonsterMessages.ExpandAllMembers | Swift/19-MonsterMessages/MonsterMessages.swift:157 | A list is among the joined expansions iff it is an expansion of some candidate. |
| MonsterMessages.DerivesLiterals | Swift/19-MonsterMessages/MonsterMessages.swift:138-142 | A literal-only list derives exactly one string: its text. |
| MonsterMessages.AdjacentLiteralsJoin | Swift/19-MonsterMessages/MonsterMessages.swift:118-125 | Joining two adjacent literals into one does not change the strings a list derives. |
| MonsterMessages.ExpansionsMatch | Swift/19-MonsterMessages/MonsterMessages.swift:136-158 | A string is the text of some expansion iff it is the prefix's text followed by a string that the list derives under the grammar's own recogniser. |
| MonsterMessages.LiteralHeadMatch | Swift/19-MonsterMessages/MonsterMessages.swift:138-142 | The literal-head case of that equivalence: moving the literal onto the prefix keeps the matched strings. |
| MonsterMessages.ReferenceHeadMatch | Swift/19-MonsterMessages/MonsterMessages.swift:144-157 | The reference-head case of that equivalence: the strings matched are those of any one alternative spliced in. |
| MonsterMessages.ExpansionsFromNothing | Swift/19-MonsterMessages/MonsterMessages.swift:164 | From an empty prefix, every expansion is literal-only, and its texts are exactly the derived strings. |
| MonsterMessages.FoldedTexts | Swift/19-MonsterMessages/MonsterMessages.swift:165-166 | After folding, the first literal values are exactly the texts of the expansions. |
| MonsterMessages.CountMatches | Swift/19-MonsterMessages/MonsterMessages.swift:164-168 | Absent iff rule 0 is missing or has no alternative, which is the trap. Otherwise it is the number of messages, duplicates included, that rule 0's first alternative derives exactly. |
| ConwayCubes.FromInput | Swift/17-ConwayCubes/ConwayCubes.swift:72-85 | (x, y, 0) is active exactly where row y has `#` at column x. x runs over 0 to the first row's width − 1, y over 0 to the row count − 1, and `maxZ` is 0. |
| ConwayCubes.FromInputValid | Swift/17-ConwayCubes/ConwayCubes.swift:72-84 | When no row is wider than the first, the initial cube keeps its cells within its bounds. |
| ConwayCubes.Cube.ActiveNeighbors | Swift/17-ConwayCubes/ConwayCubes.swift:134-147 | The active neighbours are the active cells of the 3×3×3 box around the cell, the cell itself excluded, each looked up at `abs(z)`. |
| ConwayCubes.Cube.ActiveNeighborCount | Swift/17-ConwayCubes/ConwayCubes.swift:134-147 | The triple loop counts exactly the active neighbours, so the count is between 0 and 26. |
| ConwayCubes.Cube.Next | Swift/17-ConwayCubes/ConwayCubes.swift:94-128 | The next cube's cells are the cells of the scanned box that live: x and y two beyond the bounds, z from 0 to `maxZ` + 2. The bounds grow by one on each side and `maxZ` by one. |
| ConwayCubes.Cube.RunCycle | Swift/17-ConwayCubes/ConwayCubes.swift:94-128 | The nested loops build exactly `Next()`. The precondition is that the loop ranges are well formed, since Swift traps on a reversed closed range. |
| ConwayCubes.NothingLivesFarOut | Swift/17-ConwayCubes/ConwayCubes.swift:99-101 | Outside the scanned box, no cell has an active neighbour, so none comes alive. |
| ConwayCubes.NextIsComplete | Swift/17-ConwayCubes/ConwayCubes.swift:102-121 | For every cell at z ≥ 0 there are two cases. An active cell stays active iff it has 2 or 3 active neighbours. An inactive cell becomes active iff it has exactly 3. |
| ConwayCubes.NextValid | Swift/17-ConwayCubes/ConwayCubes.swift:96-101 | A cycle keeps every active cell within the new bounds and at z ≥ 0. |
| ConwayCubes.Cube.Count | Swift/17-ConwayCubes/ConwayCubes.swift:66-70 | The count adds 1 for each active cell at z = 0 and 2 for each other active cell. |
| ConwayCubes.UnfoldLookup | Swift/17-ConwayCubes/ConwayCubes.swift:140 | A cell of the full mirror-symmetric space is active iff the folded cube holds it at `abs(z)`. |
| ConwayCubes.CountIsUnfoldedSize | Swift/17-ConwayCubes/ConwayCubes.swift:66-70 | The weighted count is the number of active cells of the full, unfolded space. |
| TicketTranslation.ParseRange | Swift/16-TicketTranslation/TicketTranslation.swift:57-59 | A range parses exactly when it has a `-` piece, both ends are integers and min ≤ max, since a reversed range traps. The result is those two integers. |
| TicketTranslation.ParseRangeList | Swift/16-TicketTranslation/TicketTranslation.swift:55-58 | Every `" or "` piece parses, in order. Otherwise the result is absent. |
| TicketTranslation.Interval | Swift/16-TicketTranslation/TicketTranslation.swift:59 | `Set(min...max)` holds exactly the values from min to max. |
| TicketTranslation.Union | Swift/16-TicketTranslation/TicketTranslation.swift:56-60 | A value is in the union iff it lies in one of the inclusive intervals. |
| TicketTranslation.ParseRanges | Swift/16-TicketTranslation/TicketTranslation.swift:54-61 | The value set exists iff every piece parses. |
| TicketTranslation.RangeRoundTrip | Swift/16-TicketTranslation/TicketTranslation.swift:57-59 | A written-out `min-max` range with natural ends parses back to itself. |
| TicketTranslation.RangesRoundTrip | Swift/16-TicketTranslation/TicketTranslation.swift:54-61 | Written-out ranges joined by `" or "` parse back to the union of their intervals. |
| TicketTranslation.ParseInts | Swift/16-TicketTranslation/TicketTranslation.swift:64 | Every piece must be an integer. The result is those integers, in order. |
| TicketTranslation.TicketRoundTrip | Swift/16-TicketTranslation/TicketTranslation.swift:63-65 | A ticket parses to its comma-separated integers, in order. |
| TicketTranslation.ParseRuleLine | Swift/16-TicketTranslation/TicketTranslation.swift:47-50 | A line gives a rule exactly when it has a `": "` piece and the text after it is a list of ranges that parses. The name is the text before it and the value set is the parse of the text after it. |
| TicketTranslation.ParseTickets | Swift/16-TicketTranslation/TicketTranslation.swift:67-69 | One ticket per line, in order. The result is absent iff some line does not parse. |
| TicketTranslation.ParseGroups | Swift/16-TicketTranslation/TicketTranslation.swift:37-43 | On the groups of non-empty lines (none of them empty, as `split` guarantees), the input parses exactly when there are at least three groups, the first group is rules, the last line of the second group is a ticket and the third group after its header line is tickets. The rules, the own ticket and the nearby tickets are those parses. |
| TicketTranslation.InvalidValuesCount | Swift/16-TicketTranslation/TicketTranslation.swift:75-81 | A value in no rule's set occurs in the result as often as in the ticket. Any other value does not occur. |
| TicketTranslation.InvalidValuesAppend | Swift/16-TicketTranslation/TicketTranslation.swift:75-81 | The filter works value by value in order: the result for a concatenation is the concatenation of the results. |
| TicketTranslation.InvalidValuesForTicketsIsFlat | Swift/16-TicketTranslation/TicketTranslation.swift:71-73 | The per-ticket results, concatenated in ticket order, equal the filter applied to all values of all tickets. |
| TicketTranslation.IsValid | Swift/16-TicketTranslation/TicketTranslation.swift:83-87 | A ticket is valid iff it has no invalid value. |
| TicketTranslation.FittingColumns | Swift/16-TicketTranslation/TicketTranslation.swift:115-121 | The list holds exactly the columns below n where every ticket's value is in the set, in ascending order. |
| TicketTranslation.MatchingPositionIsUnique | Swift/16-TicketTranslation/TicketTranslation.swift:114-123 | A returned column fits and no other column does. Nothing is returned when no column fits or several do. |
| TicketTranslation.FindMatchingPosition | Swift/16-TicketTranslation/TicketTranslation.swift:114-123 | The loop returns p iff p is the only fitting column below the width of the first ticket. |
| TicketTranslation.RecordsAppend | Swift/16-TicketTranslation/TicketTranslation.swift:104-106 | Recording a new name with the position found for it keeps the results free of repeated names. Every position still comes from `findMatchingPosition`. |
| TicketTranslation.RecordPass | Swift/16-TicketTranslation/TicketTranslation.swift:102-109 | One pass over the rules records exactly the rules that have a single fitting column. Each is recorded once, with that column. |
| TicketTranslation.FindRulePositions | Swift/16-TicketTranslation/TicketTranslation.swift:98-112 | The loop finishes iff there are no rules or every rule has a single fitting column. It then records each rule name exactly once, with the position `findMatchingPosition` gives. |
| PassportProcessing.TokenField | Swift/04-PassportProcessing.playground/Contents.swift:52-57 | A token gives a field iff it splits on `:` into exactly two non-empty parts, the key and the value. |
| PassportProcessing.ParseFields | Swift/04-PassportProcessing.playground/Contents.swift:48-61 | The loop stores the fields of the well-formed tokens in order, a later key overwriting an earlier one. |
| PassportProcessing.MalformedTokenSkipped | Swift/04-PassportProcessing.playground/Contents.swift:50-55 | A token that does not split into two parts contributes nothing, wherever it stands. |
| PassportProcessing.FieldListAppend | Swift/04-PassportProcessing.playground/Contents.swift:51-59 | Tokens are read one by one, so collecting fields distributes over concatenation. |
| PassportProcessing.FieldsRoundTrip | Swift/04-PassportProcessing.playground/Contents.swift:48-61 | Written-out `key:value` tokens parse back to their fields, the last value of a key winning. |
| PassportProcessing.ParsePassports | Swift/04-PassportProcessing.playground/Contents.swift:33-46 | The loop returns exactly the passports closed by empty lines, each merging the fields of its lines. |
| PassportProcessing.OnePassportPerEmptyLine | Swift/04-PassportProcessing.playground/Contents.swift:36-41 | There is exactly one passport per empty line. |
| PassportProcessing.TrailingFieldsDropped | Swift/04-PassportProcessing.playground/Contents.swift:33-46 | Lines after the last empty line add no passport. |
| PassportProcessing.PendingIsLastWins | Swift/04-PassportProcessing.playground/Contents.swift:43 | Within one passport, a later value for a key replaces an earlier one, also across lines. |
| PassportProcessing.PresentValuesCount | Swift/04-PassportProcessing.playground/Contents.swift:65-66 | The `compactMap` has as many values as keys iff every key is present. |
| PassportProcessing.HasRequiredFields | Swift/04-PassportProcessing.playground/Contents.swift:63-67 | True iff all seven keys `byr`, `iyr`, `eyr`, `hgt`, `hcl`, `ecl`, `pid` are present. `cid` is not required. |
| PassportProcessing.YearRoundTrip | Swift/04-PassportProcessing.playground/Contents.swift:85-89 | A written-out year is valid iff min ≤ year ≤ max. |
| PassportProcessing.DropLast | Swift/04-PassportProcessing.playground/Contents.swift:93 | `dropLast(2)` is the prefix of the string without its last two characters, and nothing of a shorter string. |
| PassportProcessing.HeightRoundTrip | Swift/04-PassportProcessing.playground/Contents.swift:91-99 | A written-out number followed by a unit is valid iff the unit is `in` and the number is 59–76, or the unit is `cm` and the number is 150–193. |
| PassportProcessing.HeightShape | Swift/04-PassportProcessing.playground/Contents.swift:91-99 | A valid height has at least one character before an `in` or `cm` suffix. |
| PassportProcessing.HairColorAnyLength | Swift/04-PassportProcessing.playground/Contents.swift:101-107 | `#` followed by any number of characters from 0-9a-f is valid, `#` alone included. There is no length check. |
| PassportProcessing.IsValidEyeColor | Swift/04-PassportProcessing.playground/Contents.swift:109-113 | An accepted eye colour is present and is one of the three-letter codes. |
| PassportProcessing.IsValidPassportId | Swift/04-PassportProcessing.playground/Contents.swift:115-120 | An id is accepted exactly when it is present and is nine decimal digits, so leading zeros are allowed. An accepted id reads as a number below 10^9. |
| PassportProcessing.HasValidRequiredFields | Swift/04-PassportProcessing.playground/Contents.swift:69-83 | The conjunction of the seven validators, each of which rejects a missing value, so it implies `hasRequiredFields`. |
| HandyHaversack.ParseAllowableBag | Swift/07-HandyHaversack.playground/Contents.swift:39-46 | An item parses iff it has exactly four space-separated words and the first is an integer. |
| HandyHaversack.ParseAllowableBagsMembers | Swift/07-HandyHaversack.playground/Contents.swift:34-35 | The `compactMap` keeps the bag of every piece that parses, and nothing that does not come from such a piece. |
| HandyHaversack.ParseAllowableBagsAppend | Swift/07-HandyHaversack.playground/Contents.swift:35 | The `compactMap` works piece by piece, so it distributes over concatenation and keeps order. |
| HandyHaversack.ParseAllowableBagsPiece | Swift/07-HandyHaversack.playground/Contents.swift:35 | A piece that parses contributes its bag in its place; a malformed piece is dropped. |
| HandyHaversack.NoOtherBags | Swift/07-HandyHaversack.playground/Contents.swift:35-46 | `"no other bags."` has three words, so a bag that holds nothing gets empty contents. |
| HandyHaversack.ParseRule | Swift/07-HandyHaversack.playground/Contents.swift:29-37 | A line parses iff it splits into exactly two parts on `" bags contain "`. The outer bag is the first part. |
| HandyHaversack.AllowableBagRoundTrip | Swift/07-HandyHaversack.playground/Contents.swift:39-46 | A written-out item reads back as its count and two-word bag name, whatever its last word. |
| HandyHaversack.ContentsRoundTrip | Swift/07-HandyHaversack.playground/Contents.swift:34-35 | A written-out contents list reads back as those contents, in order. |
| HandyHaversack.RuleRoundTrip | Swift/07-HandyHaversack.playground/Contents.swift:29-37 | A written-out rule line reads back as its outer bag and contents. |
| HandyHaversack.DirectHolders | Swift/07-HandyHaversack.playground/Contents.swift:49-54 | The result is exactly the keys whose contents mention the bag, each once. |
| HandyHaversack.CanHoldThrough | Swift/07-HandyHaversack.playground/Contents.swift:57-71 | A bag that lists a bag which is, or can hold, the target can hold the target. |
| HandyHaversack.BagsThatCanHold | Swift/07-HandyHaversack.playground/Contents.swift:57-71 | The result is exactly the bags that hold the bag through one or more levels of nesting, each once. The loop ends because each bag is expanded at most once. |
| HandyHaversack.ExpandStep | Swift/07-HandyHaversack.playground/Contents.swift:64-68 | Expanding a bag not tried before keeps the search invariant. |
| HandyHaversack.SkipStep | Swift/07-HandyHaversack.playground/Contents.swift:62-63 | Dropping a bag already tried keeps the search invariant. |
| HandyHaversack.SearchComplete | Swift/07-HandyHaversack.playground/Contents.swift:61-70 | When the worklist is empty, the bags found are exactly the holders. |
| HandyHaversack.BagCount | Swift/07-HandyHaversack.playground/Contents.swift:74-77 | 0 for a bag with no rule or empty contents. Otherwise it is the sum, over the contents, of count × (1 + the inner bag's count). |
| HandyHaversack.BagCountRankFree | Swift/07-HandyHaversack.playground/Contents.swift:74-77 | The count does not depend on which rank witnesses that the rules have no cycle. |
| HandyHaversack.BagCountIsInside | Swift/07-HandyHaversack.playground/Contents.swift:73-77 | With natural counts, `bagCount` is the number of individual bags inside the bag, nested ones included. |
| EncodingError.SetOf | Swift/09-EncodingError.playground/Contents.swift:43 | `Set(...)` of a slice holds exactly its values. |
| EncodingError.FindInvalidValue | Swift/09-EncodingError.playground/Contents.swift:40-53 | The result is absent iff every number from position `windowSize` on is the sum of two different values of the set of the preceding window. Otherwise it is the first number that is not. |
| EncodingError.FirstIndex | Swift/09-EncodingError.playground/Contents.swift:60 | `firstIndex(of:)` is the first position holding the target, and is absent iff the target does not occur. |
| EncodingError.FindWeaknessRange | Swift/09-EncodingError.playground/Contents.swift:55-73 | The nested loops return exactly `WeaknessRange`: upper ends are tried from just below the target's first position downward, and the first hit is returned. |
| EncodingError.WeaknessRangeSums | Swift/09-EncodingError.playground/Contents.swift:61-70 | A returned (l, u) satisfies l < u < the target's first position, and `data[l...u]` sums to the target. No upper end tried before it gave a hit. |
| EncodingError.WeaknessRangeBounds | Swift/09-EncodingError.playground/Contents.swift:61-70 | A returned range lies within the data. |
| EncodingError.DescentFindsRange | Swift/09-EncodingError.playground/Contents.swift:64-67 | With positive numbers, the inner loop stops exactly at the lower end of a range that sums to the target. |
| EncodingError.WeaknessRangeComplete | Swift/09-EncodingError.playground/Contents.swift:55-73 | With positive numbers, the search misses no range: if some run before the target's first position sums to the target, a range is returned, and its upper end is at least as high. |
| EncodingError.FindWeakness | Swift/09-EncodingError.playground/Contents.swift:75-82 | Present iff a weakness range exists. |
| EncodingError.WeaknessIsExtremes | Swift/09-EncodingError.playground/Contents.swift:79-81 | The weakness is the smallest plus the largest number of `data[l...u]`. |
| CustomCustoms.QuestionsAnyoneAnswered | Swift/06-CustomCustoms.playground/Contents.swift:35-39 | A question is in the result iff some declaration of the group contains it. An empty group gives the empty set. |
| CustomCustoms.QuestionsAllAnswered | Swift/06-CustomCustoms.playground/Contents.swift:41-45 | A question is in the result iff it is a letter a–z that every declaration contains. So an empty group gives the whole alphabet. |
| CustomCustoms.AllWithinAnyone | Swift/06-CustomCustoms.playground/Contents.swift:35-45 | For a non-empty group, what everyone answered is within what anyone answered. |
| CustomCustoms.OrderIndependent | Swift/06-CustomCustoms.playground/Contents.swift:36-44 | Neither result depends on the order of the declarations. |
| CustomCustoms.Groups | Swift/06-CustomCustoms.playground/Contents.swift:48 | Groups are non-empty and hold no blank line. Together they hold exactly the non-blank lines, in order. |
| CustomCustoms.GroupsRoundTrip | Swift/06-CustomCustoms.playground/Contents.swift:48 | Groups written out with one blank line between them split back into exactly those groups. |
| CustomCustoms.TotalsOrdered | Swift/06-CustomCustoms.playground/Contents.swift:50-56 | Over non-empty groups, the sum of the all-answered counts is at most the sum of the anyone-answered counts. |
| RambunctiousRecitation.Latest | Swift/15-RambunctiousRecitation/RambunctiousRecitation.swift:9-13 | The latest earlier position of a number, or nothing if it has not been spoken. |
| RambunctiousRecitation.Game | Swift/15-RambunctiousRecitation/RambunctiousRecitation.swift:23-43 | The game has one number per turn, and its first turns are the starting numbers. |
| RambunctiousRecitation.RecordedEntries | Swift/15-RambunctiousRecitation/RambunctiousRecitation.swift:8-14 | After a game is recorded, the dictionary holds exactly the numbers spoken. Each has its latest turn and, if any, the turn it was spoken before that. |
| RambunctiousRecitation.TurnsIncrease | Swift/15-RambunctiousRecitation/RambunctiousRecitation.swift:8-14 | Every stored entry has a latest turn between 1 and the current turn. An earlier turn, when present, is before the latest one. |
| RambunctiousRecitation.Recitation.Add | Swift/15-RambunctiousRecitation/RambunctiousRecitation.swift:8-14 | A first mention stores (nil, turn). After that, the previous latest turn becomes the earlier one and `turn` the latest. No other entry changes. |
| RambunctiousRecitation.Recitation.ValueFor | Swift/15-RambunctiousRecitation/RambunctiousRecitation.swift:16-21 | 0 unless the number has both an earlier and a latest turn. |
| RambunctiousRecitation.Recitation.ValueForIsNext | Swift/15-RambunctiousRecitation/RambunctiousRecitation.swift:16-21 | On the dictionary of a game, `value(for:)` of the last number spoken is exactly what the game speaks next. |
| RambunctiousRecitation.Recitation.ValueOnTurn | Swift/15-RambunctiousRecitation/RambunctiousRecitation.swift:23-43 | 0 when `finalTurn` does not exceed the number of starting numbers. Otherwise, starting from an empty dictionary, it returns the number spoken on turn `finalTurn`, and the dictionary is that of the game so far. |
| RambunctiousRecitation.ExampleGame | Swift/15-RambunctiousRecitation/RambunctiousRecitation.swift:23-43 | Starting with 0, 3, 6, the first ten turns are 0 3 6 0 3 3 1 0 4 0. |
| Basics.Components | Swift/07-HandyHaversack.playground/Contents.swift:30 | `components(separatedBy:)` always gives at least one piece. |
| Basics.JoinComponents | Swift/07-HandyHaversack.playground/Contents.swift:30 | Joining the pieces with the separator gives back the string. |
| Basics.ComponentsOfJoin | Swift/16-TicketTranslation/TicketTranslation.swift:64 | Pieces free of a one-character separator, joined with it, split back into exactly those pieces. |
| Basics.SplitOnGroups | Swift/06-CustomCustoms.playground/Contents.swift:48 | `split(separator:)` gives non-empty pieces without the separator, which together are the input without its separators. |
| Basics.SplitOnJoin | Swift/06-CustomCustoms.playground/Contents.swift:48 | Non-empty, separator-free pieces joined with the separator split back into those pieces. |
| Basics.Trim | Swift/19-MonsterMessages/MonsterMessages.swift:95 | The trimmed text neither starts nor ends with a space or tab. |
| Basics.TrimSlice | Swift/19-MonsterMessages/MonsterMessages.swift:95 | The trimmed text is a slice of the input with only spaces and tabs before and after it, so trimming removes nothing but blank ends. |
| Basics.ParseInt | Swift/04-PassportProcessing.playground/Contents.swift:87 | `Int(String)` succeeds iff the text is a numeral, optionally after one `+` or `-`. |
| Basics.ParseShowInt | Swift/16-TicketTranslation/TicketTranslation.swift:64 | Any integer, written out, parses back to itself. |
| Basics.ToMapLastWins | Swift/07-HandyHaversack.playground/Contents.swift:80 | Building a dictionary with `reduce(into: [:])` keeps every key given. Each key maps to the value of its last pair. |
| Basics.ParseEach | Swift/16-TicketTranslation/TicketTranslation.swift:45-52 | Reading every line with a line parser gives a result exactly when every line parses, and then one value per line, in order. |
| Basics.ParseTable | Swift/19-MonsterMessages/MonsterMessages.swift:91-99 | The rule tables of `parse(ruleStrings:)` and `parse(rules:)` exist exactly when every line parses, since a line that does not parse traps. |
| Basics.TableLastWins | Swift/16-TicketTranslation/TicketTranslation.swift:45-52 | Every key of a rule table comes from some line, and a repeated key (a rule name or a rule index) keeps the value of its last line. |
| Basics.AllSome | Swift/16-TicketTranslation/TicketTranslation.swift:64 | A `map` with a force unwrap succeeds iff every element does, and gives their values in order. |

## Left out

- Input and output: every `readFile` helper, every top-level `print`, `print(_ rules:)` and `ConwayCube.description`. The parsers take the lines as a parameter instead.
- Swift/convertPlaygrounds.swift is not part of this model. It only moves files on disk.
- The floating-point `Double` product of the departure fields (TicketTranslation.swift:138).
- Force unwraps and other traps become an absent (`None`) result or a precondition.
  - `None` covers `Int(...)!`, `.first!`, a missing `": "` or `-` piece, a reversed `min...max`, too few input groups, and a missing `rules[0]` or its first alternative.
  - Preconditions cover three cases: a window larger than the data in `findInvalidValue`, reversed loop ranges in `runCycle`, and, in `findMatchingPosition`, an empty ticket list (`tickets[0]` traps) or a ticket shorter than the first.
- TicketTranslation.FindMatchingPosition: requires every ticket to be at least as wide as the first. This is stronger than the source: `allSatisfy` stops at the first ticket whose value does not fit, so a shorter ticket after that one is never read and does not trap.
  - There is no structured error type, as in the source.
- Integers are unbounded. Swift's fixed-width overflow traps are not modelled.
- Text is ASCII: `CharacterSet.decimalDigits`, Unicode scalars and grapheme clusters are read as the ASCII digits and single characters. `Int(String)` is an optional sign followed by decimal digits.
- Termination of `permutations` and `bagCount` on cyclic rules is not modelled; the source has no guard. Both take a ghost rank (`size`, `rank`) as a precondition, which witnesses that the rules have no cycle.
- References to rules that do not exist (`rules[ruleIndex]!`) are excluded by the same precondition.
- A rule-rewriting reduction strategy for the grammar is not part of this model. The source only expands and matches.
- The iteration order of dictionaries and sets is left open (chosen with `:|`). So the order of the lists returned by `bags(thatCanDirectlyHold:)`, `bags(thatCanHold:)` and `findRulePositions` is not fixed.
- TicketTranslation.FindRulePositions: the source's `while` loop never ends when a rule has no single fitting column. The model takes a `fuel` bound on the number of passes and returns `None` when it runs out, instead of looping forever. Its contract does not claim termination of the source.
- RambunctiousRecitation.Recitation.ValueOnTurn: the value is tied to the game only when `spoken` starts out empty, as it does at both calls in the program. Its `startingWith` parameter is ignored, as in the source, and the class's `startingNumbers` is used instead.
- PassportProcessing.IsValidEyeColor: its contract states only that an accepted value is present and three characters long. Membership in the seven listed codes is its definition.
- PassportProcessing.YearRoundTrip: stated for years written out by `ShowInt`. Other spellings that `Int(String)` accepts, such as a leading `+` or zeros, are covered only by the definition.
- PassportProcessing.HeightRoundTrip: stated for numbers written out by `ShowInt`, for the same reason.
- HandyHaversack.RuleRoundTrip: the outer bag name must not run into `" bags contain "`, and the written contents must not repeat it. Every listed bag name must be two words without a comma.
- MonsterMessages.BodyRoundTrip: covers bodies made of rule references. A quoted literal body is covered by `ParsePartialRules`'s own contract.
- TicketTranslation.RangeRoundTrip: covers ranges with non-negative ends, since a `-` inside a negative number would split the range.
- TicketTranslation.RangesRoundTrip: covers ranges with non-negative ends, for the same reason.
- EncodingError.WeaknessRangeComplete: proves that no range is missed only when all numbers are positive, as in the puzzle input.
- EncodingError.DescentFindsRange: assumes all numbers are positive, for the same reason.
- ConwayCubes.Cube.Count: written as a method, because the set it folds has no order to follow in a function.
