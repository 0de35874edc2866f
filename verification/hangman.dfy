/** The `game` class of hangman.py: the state of one round of hangman and the `guess`
    step. Guesses are Python strings, so `letter in self.misses` is a substring test and a
    guess may be empty or longer than one symbol; the board `working` is a list of
    one-entry strings, `"_"` for a hidden position. The announcement `guess` prints is
    returned as an `Outcome` instead of printed. */
module Hangman {
  import opened Words

  type Str = seq<char>

  /** The board entry of a position not yet revealed. */
  const Hidden: Str := "_"

  /** The `game` object's fields. `maxmiss` is stored and never read by `guess`. */
  datatype Game = Game(
    user: Str, target: Str, maxmiss: int,
    n: int, miss: int, misses: Str, hits: Str, working: seq<Str>)
  {
    /** The board has one entry per target position, each hidden or showing the
        target's symbol there. */
    predicate WellFormed()
    {
      |working| == |target| &&
      forall i :: 0 <= i < |working| ==> working[i] == Hidden || working[i] == [target[i]]
    }
  }

  /** What `guess` announces: a repeated guess, a miss, or a hit with the number of
      positions the guess matches. */
  datatype Outcome = Repeat | Miss | Hit(count: nat)

  datatype Step = Step(game: Game, outcome: Outcome)

  /** `game(user, target, maxmiss)`. */
  function Init(user: Str, target: Str, maxmiss: int): (g: Game)
    ensures g.n == 1 && g.miss == 0 && g.misses == [] && g.hits == []
    ensures g.target == target && g.user == user && g.maxmiss == maxmiss
    ensures |g.working| == |target| && forall i :: 0 <= i < |target| ==> g.working[i] == Hidden
    ensures g.WellFormed()
  {
    Game(user, target, maxmiss, 1, 0, [], [], seq(|target|, _ => Hidden))
  }

  /** The `for i in range(0, len(self.target))` loop of a hit, on the board: every
      position whose target symbol equals the guess shows the guess. */
  function Reveal(target: Str, working: seq<Str>, letter: Str): seq<Str>
    requires |working| == |target|
  {
    seq(|working|, i requires 0 <= i < |working| => if [target[i]] == letter then letter else working[i])
  }

  /** The counter `m` of the same loop, over positions `i` onwards. */
  function CountFrom(target: Str, letter: Str, i: nat): nat
    decreases |target| - i
  {
    if i >= |target| then 0
    else (if [target[i]] == letter then 1 else 0) + CountFrom(target, letter, i + 1)
  }

  /** `game.guess(letter)`. */
  function Guess(g: Game, letter: Str): Step
    requires |g.working| == |g.target|
  {
    var g1 := g.(n := g.n + 1);
    if Occurs(letter, g.misses) || Occurs(letter, g.hits) then
      Step(g1, Repeat)
    else if !Occurs(letter, g.target) then
      Step(g1.(miss := g.miss + 1, misses := g.misses + letter), Miss)
    else
      Step(g1.(hits := g.hits + letter, working := Reveal(g.target, g.working, letter)),
           Hit(CountFrom(g.target, letter, 0)))
  }

  /** Every guess adds exactly one to the guess counter and leaves the player, target
      and miss limit alone. */
  lemma GuessCounts(g: Game, letter: Str)
    requires |g.working| == |g.target|
    ensures Guess(g, letter).game.n == g.n + 1
    ensures Guess(g, letter).game.target == g.target
    ensures Guess(g, letter).game.user == g.user && Guess(g, letter).game.maxmiss == g.maxmiss
  {
  }

  /** A guess already among the misses or the hits changes nothing but the counter. */
  lemma GuessRepeat(g: Game, letter: Str)
    requires |g.working| == |g.target|
    ensures Guess(g, letter).outcome == Repeat <==> Occurs(letter, g.misses) || Occurs(letter, g.hits)
    ensures Guess(g, letter).outcome == Repeat ==> Guess(g, letter).game == g.(n := g.n + 1)
  {
  }

  /** A new guess that is not in the target adds one miss and is appended to the misses;
      the hits and the board stay as they were. */
  lemma GuessMiss(g: Game, letter: Str)
    requires |g.working| == |g.target|
    ensures Guess(g, letter).outcome == Miss <==>
      !Occurs(letter, g.misses) && !Occurs(letter, g.hits) && !Occurs(letter, g.target)
    ensures Guess(g, letter).outcome == Miss ==>
      var g' := Guess(g, letter).game;
      g'.miss == g.miss + 1 && g'.misses == g.misses + letter && g'.hits == g.hits && g'.working == g.working
  {
  }

  /** A new guess that is in the target is appended to the hits; the board shows it
      exactly where the target's symbol equals it and is unchanged elsewhere; the miss
      count and the misses stay as they were. */
  lemma GuessHit(g: Game, letter: Str)
    requires |g.working| == |g.target|
    ensures Guess(g, letter).outcome.Hit? <==>
      !Occurs(letter, g.misses) && !Occurs(letter, g.hits) && Occurs(letter, g.target)
    ensures Guess(g, letter).outcome.Hit? ==>
      var g' := Guess(g, letter).game;
      && g'.hits == g.hits + letter && g'.miss == g.miss && g'.misses == g.misses
      && |g'.working| == |g.working|
      && (forall i :: 0 <= i < |g.target| && [g.target[i]] == letter ==> g'.working[i] == letter)
      && (forall i :: 0 <= i < |g.target| && [g.target[i]] != letter ==> g'.working[i] == g.working[i])
  {
  }

  /** For a one-symbol guess the announced count is the number of copies of that symbol
      in the target. */
  lemma {:induction false} CountFromSingle(target: Str, c: char, i: nat)
    requires i <= |target|
    ensures CountFrom(target, [c], i) == multiset(target[i..])[c]
    decreases |target| - i
  {
    if i < |target| {
      CountFromSingle(target, c, i + 1);
      assert target[i..] == [target[i]] + target[i + 1..];
    }
  }

  lemma HitCount(g: Game, c: char)
    requires |g.working| == |g.target|
    requires Guess(g, [c]).outcome.Hit?
    ensures Guess(g, [c]).outcome.count == multiset(g.target)[c] > 0
  {
    CountFromSingle(g.target, c, 0);
    assert g.target[0..] == g.target;
    var i :| 0 <= i <= |g.target| - 1 && MatchAt(g.target, [c], i);
    assert g.target[i] == c;
  }

  /** The board invariant holds from the start and survives every guess. */
  lemma GuessKeepsWellFormed(g: Game, letter: Str)
    requires g.WellFormed()
    ensures Guess(g, letter).game.WellFormed()
  {
  }

  /** While every guess is a single symbol, the miss counter equals the number of
      missed symbols. */
  lemma GuessKeepsMissTally(g: Game, c: char)
    requires |g.working| == |g.target| && g.miss == |g.misses|
    ensures Guess(g, [c]).game.miss == |Guess(g, [c]).game.misses|
  {
  }

  /** Longer guesses break that tally: `"xy"`, absent from a fresh game's target `"a"`,
      counts as one miss but adds two symbols to the misses. */
  lemma MultiSymbolMiss()
    ensures var g := Guess(Init("p", "a", 6), "xy").game;
            g.miss == 1 && |g.misses| == 2
  {
    var g := Init("p", "a", 6);
    assert !Occurs("xy", g.target) by {
      assert !MatchAt(g.target, "xy", 0);
    }
  }

  /** The empty guess is a substring of every string, so it is always a repeat, even in
      a fresh game. */
  lemma EmptyGuessIsRepeat(g: Game)
    requires |g.working| == |g.target|
    ensures Guess(g, []).outcome == Repeat
  {
    assert MatchAt(g.misses, [], 0);
  }

  /** A guess of two or more symbols that occurs in the target is a hit that reveals
      nothing: no single board position equals it. */
  lemma LongHitRevealsNothing(g: Game, letter: Str)
    requires |g.working| == |g.target| && |letter| >= 2
    requires Guess(g, letter).outcome.Hit?
    ensures Guess(g, letter).game.working == g.working
    ensures Guess(g, letter).outcome.count == 0
  {
    LongGuessCountsNothing(g.target, letter, 0);
  }

  lemma {:induction false} LongGuessCountsNothing(target: Str, letter: Str, i: nat)
    requires |letter| >= 2
    ensures CountFrom(target, letter, i) == 0
    decreases |target| - i
  {
    if i < |target| {
      LongGuessCountsNothing(target, letter, i + 1);
    }
  }
}
