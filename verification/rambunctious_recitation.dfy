/**
 * Rambunctious Recitation: a memory game. The starting numbers are spoken
 * in turn; after that, each turn speaks 0 if the previous number had not
 * been spoken before, and otherwise how many turns apart its last two
 * utterances were. A dictionary remembers, for each number, the turns on
 * which it was last spoken and spoken before that.
 */
module RambunctiousRecitation {
  import opened Basics

  /** For a number: the turn it was spoken before its latest one, if any, and its latest turn. */
  type Entry = (Option<int>, Option<int>)

  // ---------------------------------------------------------------------------
  // The game, stated on the list of numbers spoken so far.

  /** The latest position before `upTo` holding `x`, if there is one. */
  function Latest(game: seq<int>, x: int, upTo: nat): (p: Option<nat>)
    requires upTo <= |game|
    ensures p.Some? ==> p.value < upTo && game[p.value] == x
    ensures p.Some? ==> forall i :: p.value < i < upTo ==> game[i] != x
    ensures p.None? ==> forall i :: 0 <= i < upTo ==> game[i] != x
  {
    if upTo == 0 then None
    else if game[upTo - 1] == x then Some(upTo - 1)
    else Latest(game, x, upTo - 1)
  }

  /**
   * What is spoken after `game`: 0 if its last number was new, otherwise
   * how many turns earlier that number had last been spoken. Before any
   * number has been spoken the previous number counts as 0, never spoken.
   */
  function Next(game: seq<int>): (n: int)
    ensures n >= 0
  {
    if game == [] then 0
    else match Latest(game, game[|game| - 1], |game| - 1)
      case None => 0
      case Some(i) => |game| - 1 - i
  }

  /** The numbers spoken on turns 1 to `turns`: the starting numbers, then one `Next` at a time. */
  function Game(start: seq<int>, turns: nat): (game: seq<int>)
    ensures |game| == turns
    ensures turns <= |start| ==> game == start[..turns]
  {
    if turns <= |start| then start[..turns]
    else var before := Game(start, turns - 1); before + [Next(before)]
  }

  /** The dictionary update `add` makes when `number` is spoken on `turn`. */
  function Record(spoken: map<int, Entry>, number: int, turn: int): map<int, Entry>
  {
    if number in spoken then spoken[number := (spoken[number].1, Some(turn))]
    else spoken[number := (None, Some(turn))]
  }

  /** The dictionary after the numbers of `game` have been spoken on turns 1, 2, … */
  function Recorded(game: seq<int>): map<int, Entry>
  {
    if game == [] then map[]
    else Record(Recorded(game[..|game| - 1]), game[|game| - 1], |game|)
  }

  lemma {:induction false} RecordedStep(game: seq<int>, x: int)
    ensures Recorded(game + [x]) == Record(Recorded(game), x, |game| + 1)
  {
    assert (game + [x])[..|game|] == game;
  }

  /** The 1-based turn of a position. */
  function Turn(p: Option<nat>): Option<int>
  {
    match p
    case None => None
    case Some(i) => Some(i + 1)
  }

  /** The entry a number should have: its latest turn, and the turn it was spoken before that. */
  function Expected(game: seq<int>, x: int): Entry
  {
    match Latest(game, x, |game|)
    case None => (None, None)
    case Some(last) => (Turn(Latest(game, x, last)), Some(last + 1))
  }

  /** Looking further back only matters when nothing was found nearer. */
  lemma {:induction false} LatestOfLonger(game: seq<int>, y: int, x: int, upTo: nat)
    requires upTo <= |game|
    ensures Latest(game + [y], x, upTo) == Latest(game, x, upTo)
  {
    if upTo > 0 {
      assert (game + [y])[upTo - 1] == game[upTo - 1];
      LatestOfLonger(game, y, x, upTo - 1);
    }
  }

  /**
   * The dictionary holds exactly the numbers spoken, each with its latest
   * turn and the turn it was spoken before that.
   */
  lemma {:induction false} RecordedEntries(game: seq<int>)
    ensures forall x :: x in Recorded(game) <==> x in game
    ensures forall x :: x in Recorded(game) ==> Recorded(game)[x] == Expected(game, x)
  {
    if game != [] {
      var init := game[..|game| - 1];
      var y := game[|game| - 1];
      assert game == init + [y];
      RecordedEntries(init);
      forall x ensures Latest(game, x, |init|) == Latest(init, x, |init|) {
        LatestOfLonger(init, y, x, |init|);
      }
      forall x | x in Recorded(game) ensures Recorded(game)[x] == Expected(game, x) {
        if x != y {
          assert Latest(game, x, |game|) == Latest(init, x, |init|);
          if Latest(init, x, |init|).Some? {
            LatestOfLonger(init, y, x, Latest(init, x, |init|).value);
          }
        }
      }
    }
  }

  /** Turns are recorded in increasing order: the earlier turn comes before the latest, which is at most the current turn. */
  lemma {:induction false} TurnsIncrease(game: seq<int>, x: int)
    requires x in Recorded(game)
    ensures Recorded(game)[x].1.Some? && 1 <= Recorded(game)[x].1.value <= |game|
    ensures Recorded(game)[x].0.Some? ==> 1 <= Recorded(game)[x].0.value < Recorded(game)[x].1.value
  {
    RecordedEntries(game);
  }

  // ---------------------------------------------------------------------------
  // The game as played on the dictionary.

  class Recitation {
    /** The dictionary `spoken`, updated in place by every turn. */
    var spoken: map<int, Entry>
    /** The global `startingNumbers`. */
    const startingNumbers: seq<int>

    constructor(startingNumbers: seq<int>)
      ensures spoken == map[] && this.startingNumbers == startingNumbers
    {
      this.startingNumbers := startingNumbers;
      spoken := map[];
    }

    /** `add`: the previous latest turn becomes the earlier one and `turn` the latest; a new number gets no earlier turn. */
    method Add(number: int, turn: int)
      modifies this
      ensures spoken == Record(old(spoken), number, turn)
    {
      if number in spoken {
        var entry := spoken[number];
        spoken := spoken[number := (entry.1, Some(turn))];
        return;
      }
      spoken := spoken[number := (None, Some(turn))];
    }

    /** `value(for:)`: latest minus earlier turn when both are known, and 0 otherwise. */
    function ValueFor(number: int): (v: int)
      reads this
      ensures number !in spoken || spoken[number].0.None? || spoken[number].1.None? ==> v == 0
    {
      if number in spoken && spoken[number].0.Some? && spoken[number].1.Some? then
        spoken[number].1.value - spoken[number].0.value
      else 0
    }

    /** On the dictionary of a game, `value(for:)` of the last number spoken is what the game speaks next. */
    lemma {:induction false} ValueForIsNext(game: seq<int>, lastSpoken: int)
      requires spoken == Recorded(game)
      requires if game == [] then lastSpoken == 0 else lastSpoken == game[|game| - 1]
      ensures ValueFor(lastSpoken) == Next(game)
    {
      RecordedEntries(game);
      if game != [] {
        var before := Latest(game, lastSpoken, |game| - 1);
        assert Latest(game, lastSpoken, |game|) == Some(|game| - 1);
        assert Expected(game, lastSpoken) == (Turn(before), Some(|game|));
      }
    }

    /**
     * `value(onTurn:startingWith:)`: 0 unless `finalTurn` lies beyond the
     * starting numbers; otherwise the number spoken on turn `finalTurn`.
     * The numbers come from the `startingNumbers` field and `startingWith`
     * is not read. The game is the one stated by `Game` when the dictionary
     * starts out empty, as it does for every call in the program.
     */
    method ValueOnTurn(finalTurn: int, startingWith: seq<int>) returns (r: int)
      modifies this
      ensures finalTurn <= |startingNumbers| ==> r == 0 && spoken == old(spoken)
      ensures finalTurn > |startingNumbers| && old(spoken) == map[] ==>
        r == Game(startingNumbers, finalTurn)[finalTurn - 1] && spoken == Recorded(Game(startingNumbers, finalTurn))
    {
      if finalTurn <= |startingNumbers| {
        return 0;
      }
      ghost var fromScratch := spoken == map[];
      var lastSpoken := 0;
      var turn := 1;
      for i := 0 to |startingNumbers|
        invariant turn == i + 1
        invariant fromScratch ==> spoken == Recorded(startingNumbers[..i])
        invariant if i == 0 then lastSpoken == 0 else lastSpoken == startingNumbers[i - 1]
      {
        var number := startingNumbers[i];
        assert startingNumbers[..i + 1] == startingNumbers[..i] + [number];
        RecordedStep(startingNumbers[..i], number);
        Add(number, turn);
        lastSpoken := number;
        turn := turn + 1;
      }
      ghost var game := Game(startingNumbers, turn - 1);
      assert startingNumbers[..|startingNumbers|] == startingNumbers;
      while true
        invariant |startingNumbers| < turn <= finalTurn
        invariant game == Game(startingNumbers, turn - 1)
        invariant fromScratch ==> spoken == Recorded(game)
        invariant fromScratch ==> if game == [] then lastSpoken == 0 else lastSpoken == game[|game| - 1]
        decreases finalTurn - turn
      {
        if fromScratch {
          ValueForIsNext(game, lastSpoken);
        }
        var number := ValueFor(lastSpoken);
        RecordedStep(game, number);
        Add(number, turn);
        game := Game(startingNumbers, turn);
        if turn == finalTurn {
          return number;
        }
        lastSpoken := number;
        turn := turn + 1;
      }
    }
  }

  /** The example game from the puzzle: starting 0, 3, 6, the tenth number spoken is 0. */
  lemma {:induction false} ExampleGame()
    ensures Game([0, 3, 6], 10) == [0, 3, 6, 0, 3, 3, 1, 0, 4, 0]
  {
  }
}
