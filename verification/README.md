# String rewriting and Knuth–Bendix completion, and a hangman game, in Dafny

This project models two programs.

**LIS4930-knuthbendix.py** is a small string-rewriting engine. Words are Python strings, and a rule
`[lhs, rhs]` rewrites `lhs` to `rhs`. The engine has these parts:

- list hygiene: `remduplicates`, `remtrivial` and `simplifyrules`;
- the shortlex order: `shortlex`;
- reduction to normal form: `isreduced` and `reduce`;
- three read-only testers: `testnoetherian`, `testnormalized` and `testlocalconfluence`;
- critical-overlap enumeration: `overlaps`;
- the normalizer: `normalize`;
- the Knuth–Bendix completion loop: `knuthbendix`;
- the `rewritingsystem` class, which wraps a rule list and caches the three tester answers.

**hangman.py** contributes the state of one hangman game: `game.__init__` and `game.guess`.

## How the model is built

- Words and guesses are `seq<char>`. Rules are the immutable values `Rule(lhs, rhs)`.
- Every Python function becomes a pure Dafny function.
- A Python `for` loop over a list that its own body mutates becomes a walk by position over the
  current list: the position goes up by one each time, and the walk stops once the position
  passes the end of the current list. This gives the following behaviours of the code as written:
  - `remtrivial([[a,a],[b,b]])` leaves `[[b,b]]` (`Hygiene.RemTrivialSkipsNeighbour`).
  - `remduplicates` keeps the LAST copy (`Hygiene.RemDuplicatesKeepsLastCopy`).
  - `remduplicates` can even leave a duplicate: `[x,y,z,y,x,z]` becomes `[y,y,x,z]`
    (`Hygiene.RemDuplicatesCanLeaveDuplicates`).
  - The passes of `normalize` walk the list as it changes.
- The three unbounded `while` loops take a `fuel: nat` bound: `reduce` (line 69), `normalize`
  (line 111) and `knuthbendix` (line 179). One fuel value bounds every loop. Running out is the
  result `OutOfFuel`, or `None` for `reduce`.
- A `KeyError` from `shortlex` with an alphabet order that lacks a symbol is the result
  `UnrankedSymbol`.
- Inside `knuthbendix`, `alreadyfound` is the very list object `rules`. `normalize` and
  `simplifyrules` mutate and return the list they are given, so the two stay the same object.
  The model keeps this aliasing:
  - the merge appends each staged rule not yet in the GROWING list;
  - it then appends every staged rule once more (`Completion.MergeSpec`: a new staged rule ends up
    in the list at least twice).
- `normalize` does not orient a rule list that is already normalized: `[a -> bb]` comes back
  unchanged (`Normalize.NormalizeDoesNotOrient`).
- `testnoetherian` only looks for a right-hand side equal to some left-hand side. It accepts
  `[a -> aa]`, for which `reduce` never stops (`Testers.NoetherianTestIsNotTermination`).
- `shortlex` sorts by the key `(len(x), ranks of x)`:
  - without an order, the rank of a symbol is its code point;
  - with an order, the rank is its last index in the order, since the dict comprehension keeps
    the last one.

  Either way, distinct symbols get distinct ranks. Equal keys therefore mean equal words, and
  Python's stable `sorted` returns the one sorted permutation
  (`Ordering.ShortlexIsTheSortedPermutation`). The model sorts by insertion.
- In `knuthbendix`, the second `shortlex` of an already sorted list returns it unchanged
  (`Ordering.ShortlexSortedIsFixed`), so the staging loop walks the sorted list directly.
- "The same Thue congruence" (lines 108 and 174) is `Congruence.Equivalent`: every rule of
  each list is a consequence of the other list, meaning its two sides are linked by single
  rewrites applied forwards or backwards inside a word. Lists related this way identify
  exactly the same pairs of words (`Congruence.EquivalentSameCongruence`).
- The `rewritingsystem` object is a record. Each cached property query returns its answer
  together with the record it leaves behind.
- The hangman game is a record, and `guess` maps a game and a guess to the next game and the
  announcement `guess` prints: `Repeat`, `Miss`, or `Hit(count)`.
- `letter in self.misses` is Python's substring test (`Words.Occurs`). So the empty guess is
  always a repeat (`Hangman.EmptyGuessIsRepeat`). A guess of several symbols that occurs in the
  target is a hit that reveals nothing (`Hangman.LongHitRevealsNothing`).

## Model

| member | source | states |
|---|---|---|
| Words.Find | LIS4930-knuthbendix.py:72 | `word.index(r[0])`: absent exactly when the subword does not occur; otherwise the position of the leftmost occurrence |
| Words.RewriteLeftmostSpec | LIS4930-knuthbendix.py:71-73 | one rule application leaves the word alone when the left-hand side is absent, otherwise splices the right-hand side over the leftmost occurrence, changing the length by `|rhs| - |lhs|` |
| Lists.IndexOf | LIS4930-knuthbendix.py:122 | `list.index(x)`: the first position holding `x` |
| Lists.RemoveFirstSpec | LIS4930-knuthbendix.py:24 | `list.remove(x)` deletes exactly one copy of `x` and keeps the order of the rest |
| Lists.RemoveCopiesCount | LIS4930-knuthbendix.py:23-24 | removing `n` copies of `x` lowers its count by `n` and leaves every other count alone |
| Hygiene.RemDuplicatesSpec | LIS4930-knuthbendix.py:16-25 | `remduplicates` only deletes entries, order kept, and every value present keeps at least one copy |
| Hygiene.RemDuplicatesDistinct | LIS4930-knuthbendix.py:16-25 | a list without duplicates comes back unchanged |
| Hygiene.RemDuplicatesSingleton | LIS4930-knuthbendix.py:16-25 | the result has exactly one entry iff the list is non-empty and all its entries are equal (the test at line 166) |
| Hygiene.RemDuplicatesKeepsLastCopy | LIS4930-knuthbendix.py:16-25 | `[x, y, x]` becomes `[y, x]`: the first copy is the one deleted |
| Hygiene.RemDuplicatesCanLeaveDuplicates | LIS4930-knuthbendix.py:16-25 | `[x, y, z, y, x, z]` becomes `[y, y, x, z]`, which still holds a duplicate |
| Hygiene.RemTrivialSpec | LIS4930-knuthbendix.py:28-32 | `remtrivial` only deletes entries, and every non-trivial rule keeps all its copies |
| Hygiene.RemTrivialSkipsNeighbour | LIS4930-knuthbendix.py:28-32 | `[[a,a],[b,b]]` becomes `[[b,b]]`: the trivial rule after a removed one survives |
| Hygiene.SimplifySpec | LIS4930-knuthbendix.py:35-37 | `simplifyrules` only deletes entries, and every non-trivial rule present survives |
| Congruence.SimplifyEquivalent | LIS4930-knuthbendix.py:35-37 | `simplifyrules` keeps the Thue congruence of the list |
| Congruence.EquivalentSameCongruence | LIS4930-knuthbendix.py:108 | two lists that each entail the other's rules identify exactly the same pairs of words, which is what "the same Thue congruence" means |
| Congruence.ConvertibleInContext | LIS4930-knuthbendix.py:108 | the congruence is compatible with concatenation: congruent words stay congruent inside any context |
| Hygiene.SimplifyClean | LIS4930-knuthbendix.py:35-37 | a list without duplicates and trivial rules comes back unchanged |
| Ordering.LastIndexOf | LIS4930-knuthbendix.py:48 | the rank dict maps a symbol to its last index in the order |
| Ordering.KeyLeTotalPreorder | LIS4930-knuthbendix.py:46-49 | the sort key order is total and transitive |
| Ordering.KeyLeAntisym | LIS4930-knuthbendix.py:46-49 | for ranked words equal keys mean equal words |
| Ordering.Shortlex | LIS4930-knuthbendix.py:44-49 | a `KeyError` exactly when some word has a symbol outside the order; otherwise a permutation of the input, sorted by length and then by symbol ranks |
| Ordering.ShortlexIsTheSortedPermutation | LIS4930-knuthbendix.py:44-49 | any sorted permutation of the input is the result, so the result is Python's stable `sorted` |
| Ordering.ShortlexSortedIsFixed | LIS4930-knuthbendix.py:204-206 | sorting an already sorted list returns it unchanged |
| Ordering.ShortlexShorterFirst | LIS4930-knuthbendix.py:44-49 | a shorter word always comes before a longer one |
| Ordering.ShortlexExample | LIS4930-knuthbendix.py:44-46 | `shortlex(["ba", "b", "ab"]) == ["b", "ab", "ba"]` |
| Reduction.PassShortens | LIS4930-knuthbendix.py:70-73 | when every rule is shortening, one pass of the `for` loop never lengthens the word and strictly shortens a reducible one |
| Reduction.PassFixesReduced | LIS4930-knuthbendix.py:70-73 | a pass leaves a reduced word alone |
| Reduction.Reduce | LIS4930-knuthbendix.py:68-74 | whatever `reduce` returns is reduced: no left-hand side occurs in it |
| Reduction.ReduceFixesReduced | LIS4930-knuthbendix.py:56-74 | a reduced word comes back unchanged |
| Reduction.ReduceIdempotent | LIS4930-knuthbendix.py:68-74 | `reduce(R, reduce(R, w)) == reduce(R, w)` |
| Reduction.ReduceMoreFuel | LIS4930-knuthbendix.py:69 | more fuel never changes an answer already found |
| Reduction.ReduceTerminates | LIS4930-knuthbendix.py:69 | with shortening rules the loop stops within `|w|` passes |
| Reduction.ReduceDerives | LIS4930-knuthbendix.py:68-74 | the normal form is reached from `w` by single rule applications |
| Reduction.EmptyLhsNeverReduces | LIS4930-knuthbendix.py:56-74 | a rule with an empty left-hand side makes `reduce` run forever |
| Reduction.ReduceExample | LIS4930-knuthbendix.py:68-74 | with `aa -> a, bb -> b, ab -> ba`, `abab` reduces to `ba` in three passes |
| Testers.TestNoetherian | LIS4930-knuthbendix.py:82-89 | true iff no rule's right-hand side equals any rule's left-hand side, itself included |
| Testers.TrivialRuleNotNoetherian | LIS4930-knuthbendix.py:82-89 | any trivial rule makes the test fail |
| Testers.NoetherianTestIsNotTermination | LIS4930-knuthbendix.py:82-89 | `[a -> aa]` passes the test, yet `reduce` never stops on a word containing `a` |
| Testers.TestNormalized | LIS4930-knuthbendix.py:96-102 | true iff each left-hand side is reduced with respect to the list without one copy of its rule, and each right-hand side with respect to the whole list |
| Testers.NormalizedNoTrivial | LIS4930-knuthbendix.py:96-102 | a normalized list has no trivial rule |
| Testers.NormalizedNoDuplicates | LIS4930-knuthbendix.py:96-102 | a normalized list has no rule twice |
| Testers.NormalizedNonEmptyLhs | LIS4930-knuthbendix.py:96-102 | a normalized list has no empty left-hand side |
| Overlapping.OverlapsSpec | LIS4930-knuthbendix.py:130-138 | a word is in `overlaps(u, v)` iff it glues a proper suffix of one word onto the equal proper prefix of the other |
| Overlapping.OverlapsFromDescending | LIS4930-knuthbendix.py:132-134 | within one loop the glued words get strictly shorter as `i` ascends |
| Overlapping.OverlapsShape | LIS4930-knuthbendix.py:130-138 | every result has one word as prefix and the other as suffix, and its length lies strictly between `max(|u|, |v|)` and `|u| + |v|` |
| Overlapping.OverlapsExample | LIS4930-knuthbendix.py:130-138 | `overlaps("aab", "aba") == ["aaba", "abaab"]` |
| Confluence.CriticalWordsContainBoth | LIS4930-knuthbendix.py:149-153 | every critical word contains both left-hand sides |
| Confluence.OneStepRewritesSpec | LIS4930-knuthbendix.py:157-163 | the rewrites of a critical word are exactly its single applications of either rule, each a rewriting step of the list |
| Confluence.NormalFormsSpec | LIS4930-knuthbendix.py:164-165 | the normal forms exist iff each rewrite reduces, and then they are the rewrites' `reduce` results in order |
| Confluence.WordJoinsSpec | LIS4930-knuthbendix.py:155-167 | one critical word passes iff its rewrites reduce to one common normal form |
| Confluence.PairJoinsSpec | LIS4930-knuthbendix.py:149-167 | one ordered pair passes iff every one of its critical words passes |
| Confluence.TestLocalConfluenceSpec | LIS4930-knuthbendix.py:146-168 | `testlocalconfluence` is true iff every critical word of every ordered pair of rules has joinable rewrites |
| Confluence.TestLocalConfluenceRejects | LIS4930-knuthbendix.py:146-168 | a false answer names a pair and a critical word whose rewrites do not reach exactly one normal form: two different ones, or none at all when the word has no rewrite |
| Confluence.EmptyLhsNotConfluent | LIS4930-knuthbendix.py:146-168 | a rule with an empty left-hand side keeps the test from answering true |
| Normalize.RhsRewriteSpec | LIS4930-knuthbendix.py:113-115 | the new right-hand side is a normal form of the old one for the other rules, reached by rewriting with them |
| Normalize.LhsRewriteSpec | LIS4930-knuthbendix.py:118-122 | the replacement rule is made of the reduced left-hand side and the old right-hand side, with the shortlex-larger one on the left |
| Normalize.RhsRewriteEquivalent | LIS4930-knuthbendix.py:112-116 | replacing a right-hand side by its normal form for the other rules keeps the Thue congruence |
| Normalize.RhsPass | LIS4930-knuthbendix.py:112-116 | the right-hand-side pass leaves a list with the Thue congruence of the list it was given |
| Normalize.LhsRewriteEquivalent | LIS4930-knuthbendix.py:117-123 | replacing the first copy of a rule by its reduced left-hand side and its right-hand side, in either orientation, keeps the Thue congruence |
| Normalize.LhsPass | LIS4930-knuthbendix.py:117-123 | without an alphabet order the pass cannot meet a `KeyError`; the list it leaves has the Thue congruence of the list it was given |
| Normalize.Round | LIS4930-knuthbendix.py:112-123 | one iteration of the `while` body keeps the Thue congruence |
| Normalize.NormalizeLoop | LIS4930-knuthbendix.py:111-124 | the loop exits only on a list that passes `testnormalized`, and that list has the Thue congruence of the list the loop started from |
| Normalize.Normalize | LIS4930-knuthbendix.py:108-124 | a returned list passes `testnormalized` and has the Thue congruence of the input; without an alphabet order it fails only by running out of fuel |
| Normalize.NormalizeSpec | LIS4930-knuthbendix.py:108-124 | a returned list is normalized, has no duplicate, no trivial rule and no empty left-hand side, and has the same Thue congruence as the input |
| Normalize.NormalizeFixesNormalized | LIS4930-knuthbendix.py:109-124 | a normalized list comes back unchanged |
| Normalize.NormalizeIdempotent | LIS4930-knuthbendix.py:109-124 | normalizing a result again changes nothing |
| Normalize.NormalizeDoesNotOrient | LIS4930-knuthbendix.py:109-124 | `[a -> bb]` comes back unchanged although its right-hand side is shortlex-larger |
| Completion.StageSortedSpec | LIS4930-knuthbendix.py:205-208 | from a sorted list of normal forms exactly the rules `k -> head` are staged, for each entry `k` other than the head, each oriented towards the shortlex-least word |
| Completion.StageWordSpec | LIS4930-knuthbendix.py:191-208 | each rule staged for a critical word has two distinct reduced sides, each the normal form of a one-step rewrite of that word, and the right side comes first in shortlex order |
| Completion.StageSpec | LIS4930-knuthbendix.py:183-208 | every staged rule comes from a critical word of some ordered pair of current rules, as above |
| Completion.StageDefaultOrder | LIS4930-knuthbendix.py:204-206 | without an alphabet order staging never meets a `KeyError` |
| Completion.StagedConverts | LIS4930-knuthbendix.py:191-208 | the two sides of a staged rule are congruent modulo the current rules: both are reached by rewriting from the same critical word |
| Completion.StageEntailed | LIS4930-knuthbendix.py:183-208 | every rule in `newrules` is a consequence of the current rules |
| Completion.AppendUnseenSpec | LIS4930-knuthbendix.py:209-211 | appending the unseen staged rules keeps the old list as a prefix, and the result holds exactly the old and the staged rules |
| Completion.AppendUnseenCounts | LIS4930-knuthbendix.py:209-211 | a rule already present keeps its count, and a new staged rule is appended once |
| Completion.MergeSpec | LIS4930-knuthbendix.py:209-212 | through the aliasing of `alreadyfound`, every new staged rule ends up in the list at least twice |
| Completion.MergeEquivalent | LIS4930-knuthbendix.py:209-212 | merging rules that are consequences of the list keeps its Thue congruence |
| Completion.Round | LIS4930-knuthbendix.py:181-212 | one iteration of the `while` body keeps the Thue congruence; without an alphabet order it cannot meet a `KeyError` |
| Completion.CompletionLoop | LIS4930-knuthbendix.py:179-212 | the loop exits only on a list that passes `testlocalconfluence`, and that list has the Thue congruence of the input |
| Completion.KnuthBendix | LIS4930-knuthbendix.py:174-217 | a returned list has the Thue congruence of the input; without an alphabet order it fails only by running out of fuel |
| Completion.KnuthBendixSpec | LIS4930-knuthbendix.py:174-217 | on return, every critical pair of the list the loop exits with joins, the result is the normalized form of that list, and it has the same Thue congruence as the input |
| Completion.KnuthBendixFixesComplete | LIS4930-knuthbendix.py:176-217 | a list that is normalized and passes the confluence test comes back unchanged |
| System.NewSystem | LIS4930-knuthbendix.py:228-233 | a new object holds the alphabet and rules, and nothing is cached yet, so its caches agree with its rules at every fuel |
| System.IsNoetherianSpec | LIS4930-knuthbendix.py:235-241 | on an object whose caches agree with its rules, the answer is whether no right-hand side is a left-hand side; it is cached, and nothing else changes |
| System.IsConfluentSpec | LIS4930-knuthbendix.py:243-249 | the same for local confluence: the answer is whether every critical pair joins |
| System.IsNormalizedSpec | LIS4930-knuthbendix.py:251-257 | the same for normalization |
| System.QueriesIdempotent | LIS4930-knuthbendix.py:235-257 | asking again gives the cached answer and changes nothing |
| System.MapAllSpec | LIS4930-knuthbendix.py:268-271 | the loop over the rules fails exactly when one step fails, and otherwise holds each rule's step result in place |
| System.ChangeAlphabetSpec | LIS4930-knuthbendix.py:259-271 | each rule keeps its place, with both sides replaced by their normal forms for `map`; alphabet and caches are untouched |
| System.ChangeAlphabetEmptyMap | LIS4930-knuthbendix.py:259-271 | the default empty `map` changes nothing |
| System.ChangeAlphabetKeepsStaleCache | LIS4930-knuthbendix.py:259-271 | renaming `b` to `a` in `[a -> b]` after the noetherian query leaves the cached answer true, although the new rules fail the test |
| System.MakeConfluentSpec | LIS4930-knuthbendix.py:273-275 | it succeeds whenever `knuthbendix` does; on success the rules become exactly what `knuthbendix` returns, normalized, and the object records that it is confluent; a complete normalized system keeps its rules |
| System.MakeConfluent | LIS4930-knuthbendix.py:273-275 | on success the new rules have the same Thue congruence as the old ones |
| System.ReduceWordSpec | LIS4930-knuthbendix.py:277-278 | the word comes back reduced, reached by rewriting with the object's rules |
| Hangman.Init | hangman.py:20-30 | a new game has `n == 1`, no misses, no hits, and a board of `len(target)` hidden entries |
| Hangman.GuessCounts | hangman.py:32-34 | every guess raises the guess counter by exactly one |
| Hangman.GuessRepeat | hangman.py:36-38 | a guess that occurs in the misses or the hits changes nothing but the counter |
| Hangman.GuessMiss | hangman.py:40-48 | a new guess absent from the target adds one miss and is appended to the misses; hits and board unchanged |
| Hangman.GuessHit | hangman.py:50-63 | a new guess present in the target is appended to the hits; the board shows it exactly where the target's symbol equals it and is unchanged elsewhere |
| Hangman.HitCount | hangman.py:56-60 | the announced count of a one-symbol hit is the number of its copies in the target, and is positive |
| Hangman.GuessKeepsWellFormed | hangman.py:20-63 | the board keeps one entry per target position, each hidden or showing the target's symbol |
| Hangman.GuessKeepsMissTally | hangman.py:41-47 | with one-symbol guesses the miss count equals the length of the misses |
| Hangman.MultiSymbolMiss | hangman.py:41-47 | a two-symbol miss counts once but adds two symbols to the misses |
| Hangman.EmptyGuessIsRepeat | hangman.py:37 | the empty guess is always a repeat |
| Hangman.LongHitRevealsNothing | hangman.py:51-63 | a multi-symbol hit leaves the board unchanged and counts zero positions |

## Left out

- Output is not modelled: the `print` calls of `guess`, and `knuthbendix` with `printrules`.
- hangman.py's `display`, `recordscore`, `printhighscores` and `initialize` are not part of this
  model. They use file I/O, `input`, `random`, `datetime` and the `wordfreq` package.
- `changealphabet` with `user=True` reads standard input and is not modelled. So is the growth of
  its mutable default `map=[]`, which only that branch appends to.
- The unused `order` parameter of `normalize`, and the unused `rules_sans` of `testnoetherian`,
  do not appear.
- The `count` counter of `knuthbendix` only feeds `printrules` output.
- Reduction.ReduceTerminates: covers rule lists where every rule shortens the word only. The
  comment at line 226 promises a normal form when every rule is shortlex-decreasing
  (RHS < LHS); that case is not proved. Termination of `normalize` and `knuthbendix` is not
  claimed either: every `while` loop runs at most `fuel` times.
- Completion.KnuthBendixSpec: does not claim that the returned list is locally confluent. Only the
  list the loop exits with passes the test; the final `normalize` may change it.
- System.MakeConfluentSpec: does not claim that the cached `confluent = True` agrees with the new
  rules, for the same reason. It also leaves the other two caches stale.
- System.IsConfluentSpec: the cached confluence answer is tied to the fuel of the query that
  computed it.
- Identity of individual rule objects is not modelled. `r[1] = ...` in `normalize` and
  `rules[i][0] = ...` in `changealphabet` mutate rule lists that may be shared with the caller, or
  appear twice in one list. The caller's own list object is mutated in place as well:
  `list.remove` in `remduplicates`/`remtrivial` (and so in `simplifyrules` and `normalize`), and
  `rules.append` and `alreadyfound.extend` in `knuthbendix`. Rules and lists here are values, so
  the caller's list is never changed; each function returns its new list.
- Hangman.Guess takes a board with one entry per target position. This is the class invariant set
  up by `__init__` and kept by every guess (`Hangman.GuessKeepsWellFormed`).
