# SynchroStats in Dafny

SynchroStats computes opening-hand statistics for card games. A deck is a list of card groups. Each
group has a name, a size (the number of copies in the deck) and a minimum and a maximum (how many
copies a hand may hold). The hand analyzer enumerates every hand shape the groups allow for a given
hand size. It attaches to each shape its hypergeometric probability. Then it answers queries over
the shapes: probabilities of filtered subsets, expected values, histograms, and assessments. Around
this core sit the card list (a deck keyed by name), the filters used in queries, the simplified
deck built for Pot of Prosperity, the card search graph, and the Small World bridge finder.

This project models that core as pure Dafny functions over immutable data and proves properties of
each operation:

- `Cards`, `KeyedDicts`, `HashSets` and `Wrappers` hold the shared data model. Card groups use
  integer names. A name-keyed dictionary (DictionaryWithGeneratedKeys) is a sequence with a key
  function. A hash set is a duplicate-free sequence in insertion order. Exceptions become
  `Failure` values of `Result`.
- `HandElements`, `HandCombinations` and `HandCombinationNameComparer` cover the elements of a hand
  and their equality and hash contracts.
- `HandCombinationFinder` is the recursive shape enumerator. The proofs show it yields exactly the
  shapes whose counts fit each group and add up to the hand size.
- `HandCounts` counts the ways each leaf of the enumeration can be drawn. With Vandermonde's
  identity it shows that, for groups drawn from zero up to their size, these counts add up to the
  binomial of the deck and the hand size, so the analyzer's total probability is exactly 1.
- `Binomials` and `Calculator` give the probability of a shape. The proofs cover the validation
  order, the factorial cache, the pruning, and the exact-shape value (a product of binomials over
  the binomial of the deck).
- `HandAnalyzers` and `Assessments` cover the analyzer and the assessment analyzer. The proofs show
  that the probabilities of complementary filters add up to the total, and that the expected value
  of an indicator is a probability.
- `Filters`, `LinqEx`, `Transform`, `CardLists` and `CardOps` cover the helpers in
  `src/Data/Operations` and the card list.
- `CardSearchNodes` and `CardSearchCollections` cover the search graph. The `src/` and `SynchroStats/`
  copies of these files differ only in the name of a type parameter. The proofs show that the
  breadth-first searches find exactly the cards reachable within the depth of the longest chain.
- `SmallWorldCollections` and `SmallWorldAnalyzers` cover the Small World indexes and the bridge
  search.

Two behaviours of the code are modelled as written:

- The probability recursion returns a product of binomials, not zero, when the groups run out below
  the hand size. `Calculator.ImplStops` states it and `Calculator.ImplShortHandExample` exhibits it.
- The Small World indexes compare types and attributes exactly, while the bridge test ignores case.
  So a bridge whose only shared trait with the revealed card differs from it in case is never
  returned. `SmallWorldAnalyzers.CaseOnlyMatchIsMissed` exhibits such a deck.

## Model

| member | source | states |
|---|---|---|
| HandElements.ElementEquals | src/Features/Combinations/HandElement.cs:10-16 | Two elements are equal exactly when name, minimum and maximum all agree |
| HandElements.ElementEqualsObject | src/Features/Combinations/HandElement.cs:18-21 | An object that is not an element is never equal; an element is equal exactly when it is the same element |
| HandElements.OperatorEquals | src/Features/Combinations/HandElement.cs:23-26 | `==` holds exactly for identical elements |
| HandElements.OperatorNotEquals | src/Features/Combinations/HandElement.cs:28-31 | `!=` holds exactly for different elements |
| HandElements.EqualElementsHashEqually | src/Features/Combinations/HandElement.cs:33-36 | Equal elements have equal hash codes, whatever the hash combiner |
| HandCombinationNameComparer.NameEquals | src/Features/Combinations/HandCombinationNameComparer.cs:12-15 | Two elements are name-equal exactly when they differ at most in their sizes |
| HandCombinationNameComparer.NameHashConsistent | src/Features/Combinations/HandCombinationNameComparer.cs:12-20 | Name-equal elements get the same hash code |
| HandCombinationNameComparer.NameEqualsIsEquivalence | src/Features/Combinations/HandCombinationNameComparer.cs:12-15 | Name equality is reflexive, symmetric and transitive |
| HandCombinations.InsertSpec | SynchroStats/Features/Combinations/HandCombination.cs:25-28 | Adding an element to the name-sorted set keeps it sorted; a known name leaves the set unchanged, and a new element is added once |
| HandCombinations.FromElements | SynchroStats/Features/Combinations/HandCombination.cs:25-28 | The built combination is sorted by name with distinct names |
| HandCombinations.FromElementsNames | SynchroStats/Features/Combinations/HandCombination.cs:25-28 | The combination holds exactly the names of its input |
| HandCombinations.FromElementsMembers | SynchroStats/Features/Combinations/HandCombination.cs:25-28 | Every element of the combination comes from the input |
| HandCombinations.FromElementsKeepsFirst | SynchroStats/Features/Combinations/HandCombination.cs:25-28 | Adding the elements one by one, the first element with a given name is the one kept |
| HandCombinations.FromElementsDistinct | SynchroStats/Features/Combinations/HandCombination.cs:25-28 | Input with distinct names is kept whole, as a permutation |
| HandCombinations.FromElementsIgnoresKnownNames | SynchroStats/Features/Combinations/HandCombination.cs:25-28 | Appending elements whose names are already present changes nothing |
| HandCombinations.EmptyCombination | SynchroStats/Features/Combinations/HandCombination.cs:20-23 | The default combination is well formed and holds no names |
| HandCombinations.CombinationEquals | SynchroStats/Features/Combinations/HandCombination.cs:30-33 | Combinations are equal exactly when they hold the same set of names, whatever the counts |
| HandCombinations.OperatorEquals | SynchroStats/Features/Combinations/HandCombination.cs:52-55 | `==` agrees with name-set equality |
| HandCombinations.OperatorNotEquals | SynchroStats/Features/Combinations/HandCombination.cs:57-60 | `!=` is the negation of name-set equality |
| HandCombinations.EqualCombinationsMayHashDifferently | SynchroStats/Features/Combinations/HandCombination.cs:30-50 | Two combinations that are equal by names can get different hash codes, because the hash also reads the counts |
| KeyedDicts.Lookup | SynchroStats/DictionaryWithGeneratedKeys.cs:67-75 | The indexer finds a value exactly when its key is present, and returns the first value with that key |
| KeyedDicts.TryAdd | SynchroStats/DictionaryWithGeneratedKeys.cs:37-41 | Adding succeeds exactly when the key is new; old lookups are unchanged and the new key finds the new value |
| KeyedDicts.FromSeq | SynchroStats/DictionaryWithGeneratedKeys.cs:18-24 | The built dictionary has unique keys, the input's key set and lookups, and only input values |
| KeyedDicts.FromSeqOfValid | SynchroStats/DictionaryWithGeneratedKeys.cs:18-24 | Input with unique keys is kept whole and in order |
| KeyedDicts.FromSeqKeepsFirst | SynchroStats/DictionaryWithGeneratedKeys.cs:18-24 | The first value with each key is the one kept |
| KeyedDicts.AddOrUpdate | SynchroStats/DictionaryWithGeneratedKeys.cs:31-35 | Afterwards the value's key finds the value and every other key finds what it found before |
| KeyedDicts.TryRemove | SynchroStats/DictionaryWithGeneratedKeys.cs:43-47 | Removal reports whether the key was present; afterwards the key is gone and the other keys are unchanged |
| KeyedDicts.TryGetValueOf | SynchroStats/DictionaryWithGeneratedKeys.cs:55-65 | A stored value with the same key is found exactly when such a key is present |
| KeyedDicts.ContainsKey | SynchroStats/DictionaryWithGeneratedKeys.cs:113-117 | True exactly when some stored value has the key |
| KeyedDicts.ContainsValue | SynchroStats/DictionaryWithGeneratedKeys.cs:119-123 | True exactly when some stored value has the key of the given value |
| KeyedDicts.Count | SynchroStats/DictionaryWithGeneratedKeys.cs:104-111 | For a dictionary with unique keys, the count is the number of distinct keys |
| HashSets.ToHashSet | src/Features/Combinations/HandCombinationFinder.cs:49 | The set holds each member of the input once, and input without duplicates is kept as is |
| LinqEx.WhereIsNotNull | src/Data/Operations/LinqEx.cs:5-14 | The result holds exactly the present values, one per present entry |
| LinqEx.WhereIsNotNullAppend | src/Data/Operations/LinqEx.cs:5-14 | Filtering distributes over concatenation, so order is kept |
| LinqEx.WhereIsNotNullOfPresent | src/Data/Operations/LinqEx.cs:5-14 | A sequence with no missing entries is returned unchanged |
| Transform.GetCardGroups | src/Data/Operations/Transform.cs:8-19 | Each held card of the hand with a known group is paired with that group, and no other pair appears; the pairs stay sorted by name |
| Transform.PairWithGroups | src/Data/Operations/Transform.cs:12-18 | Every element whose name is known is paired with its group, and every pair comes from a known element |
| Transform.PairWithGroupsSorted | src/Data/Operations/Transform.cs:12-18 | Pairing keeps the name order of the elements |
| HandCombinationFinder.Push | src/Features/Combinations/HandCombinationFinder.cs:31-35 | Pushing places the element on top and keeps the running card count consistent |
| HandCombinationFinder.Pop | src/Features/Combinations/HandCombinationFinder.cs:24-29 | Popping takes off the top element and keeps the running card count consistent |
| HandCombinationFinder.PopUndoesPush | src/Features/Combinations/HandCombinationFinder.cs:24-35 | Pop after push gives back the stack and the element |
| HandCombinationFinder.GetHandPermutations | src/Features/Combinations/HandCombinationFinder.cs:14-17 | The stack is listed from top to bottom |
| HandCombinationFinder.RecursiveSound | src/Features/Combinations/HandCombinationFinder.cs:63-93 | Every leaf of the recursion picks a count within each group's bounds, and the counts fill the hand |
| HandCombinationFinder.RecursiveComplete | src/Features/Combinations/HandCombinationFinder.cs:63-93 | Every choice of counts within bounds that fills the hand is a leaf of the recursion |
| HandCombinationFinder.LoopSound | src/Features/Combinations/HandCombinationFinder.cs:76-92 | Each leaf of the count loop of one group comes from a count between the loop start and the maximum |
| HandCombinationFinder.LoopComplete | src/Features/Combinations/HandCombinationFinder.cs:76-92 | Every count between the loop start and the maximum that can be completed yields its leaves |
| HandCombinationFinder.GroupElements | src/Features/Combinations/HandCombinationFinder.cs:42-49 | The element set holds one element per distinct group and keeps the group order when names are distinct |
| HandCombinationFinder.EmptyHand | src/Features/Combinations/HandCombinationFinder.cs:100-107 | The fill-in hand has every group name with count zero |
| HandCombinationFinder.ZeroFillIsNoOp | src/Features/Combinations/HandCombinationFinder.cs:100-117 | Merging a leaf with the zero fill-in keeps the leaf's counts, because the leaf already names every group |
| HandCombinationFinder.CombinationsCharacterized | src/Features/Combinations/HandCombinationFinder.cs:60-120 | A combination is produced exactly when it is the shape of counts that fit the groups and add up to the hand size |
| HandCombinationFinder.GetCombinations | src/Features/Combinations/HandCombinationFinder.cs:38-52 | The result is a set, with no duplicate combinations |
| HandCombinationFinder.GetCombinationsOfElements | src/Features/Combinations/HandCombinationFinder.cs:54-58 | The element overload also returns a set |
| HandCombinationFinder.ShapeInjective | src/Features/Combinations/HandCombinationFinder.cs:109-119 | Different counts give different combinations, so no shape is produced twice |
| HandCombinationFinder.EveryCombinationFillsTheHand | src/Features/Combinations/HandCombinationFinder.cs:63-120 | Each combination names every group once, holds counts within the group's bounds, and its counts add up to the hand size |
| HandCombinationFinder.NoCombinationWhenInfeasible | src/Features/Combinations/HandCombinationFinder.cs:63-93 | When the minima exceed the hand size, or some minimum exceeds its maximum, there is no combination |
| HandCombinationFinder.GetCombinationsCharacterized | src/Features/Combinations/HandCombinationFinder.cs:38-120 | For groups with distinct names, the public entry yields exactly the fitting shapes of the groups |
| CardLists.WithCards | src/CardList.cs:179 | Only groups with cards are kept, and a lookup finds the first such group of each name |
| CardLists.NewCardList | src/CardList.cs:177-181 | The list has unique names, keeps only input groups, and finds the first input group with cards for each name |
| CardLists.NewCardListKeepsCount | src/CardList.cs:177-181 | Dropping empty groups keeps the number of cards |
| CardLists.Names | src/CardList.cs:180 | The names are listed in order, distinct, and each finds its own group |
| CardLists.Count | src/CardList.cs:173 | The count of a valid list is its number of distinct names |
| CardLists.CheckSize | src/CardList.cs:25-35 | The list is accepted exactly when its number of cards equals the expected size, and then it is unchanged |
| CardLists.ChangeTo | src/CardList.cs:204-216 | The changed name finds the new group (absent if it has no cards), and every other name is unchanged |
| CardLists.ChangeWith | src/CardList.cs:183-202 | An unknown name leaves the list unchanged; a known one is replaced by the changed group |
| CardLists.WithoutName | src/CardList.cs:221 | The removed name finds nothing and every other lookup is unchanged |
| CardLists.Remove | src/CardList.cs:218-223 | The removed name is absent afterwards and the other names are unchanged |
| CardLists.Decrease | src/CardList.cs:66-79 | Taking copies of one name changes only that name's group, by the selector's new size, and takes exactly that many cards off the total when the name is present |
| CardLists.MinusLoop | src/CardList.cs:64-80 | The loop over the hand keeps the dictionary's keys unique |
| CardLists.MinusLoopLookup | src/CardList.cs:64-80 | After the loop, each name of the hand has lost its count of copies and every other name is unchanged |
| CardLists.Minus | src/CardList.cs:58-83 | The result is a valid card list |
| CardLists.MinusLookup | src/CardList.cs:58-83 | Each name of the hand loses its count of copies, other names keep their group, and groups left without cards disappear |
| CardLists.AddOrUpdateTotal | SynchroStats/DictionaryWithGeneratedKeys.cs:31-35 | Replacing a stored group changes the number of cards by the difference of the two sizes |
| CardLists.TryRemoveTotal | SynchroStats/DictionaryWithGeneratedKeys.cs:43-47 | Removing a stored group takes its size off the number of cards |
| CardLists.MinusLoopTotal | src/CardList.cs:64-80 | When every name of the hand is stored, the loop takes the hand's total count off the number of cards |
| CardLists.MinusTotal | src/CardList.cs:58-83 | On a deck with one group per name, when each element names a group with at least that many cards, the cards left are the deck's minus the hand's total count |
| CardLists.RemoveCardFromDeck | src/CardList.cs:85-105 | One copy of the drawn card is removed; every other group is kept when it has cards |
| Calculator.BuildFactorialCache | src/Features/Probability/Calculator.cs:190-200 | Entry i of the cache is i!, for every index of the cache |
| Calculator.Factorial | src/Features/Probability/Calculator.cs:212-216 | The factorial is returned exactly for arguments inside the cache; anything else is the out-of-range error |
| Calculator.ChanceOf | src/Features/Probability/Calculator.cs:205-210 | The number of ways to choose k of n is the binomial coefficient, or the error for the first factorial argument out of range |
| Binomials.BinomIsFactorialRatio | src/Features/Probability/Calculator.cs:205-210 | The factorial ratio n!/(k!(n-k)!) equals the binomial coefficient |
| Calculator.HandChance | src/Features/Probability/Calculator.cs:150-156 | The product of the chances succeeds exactly when every chance is in range, and is the product of binomials |
| Calculator.NeedsMoreIff | src/Features/Probability/Calculator.cs:137-143 | The "more cards needed" test holds exactly when some remaining group has a nonzero minimum |
| Calculator.Impl | src/Features/Probability/Calculator.cs:131-180 | A successful recursion value is never negative |
| Calculator.Branches | src/Features/Probability/Calculator.cs:159-179 | A successful value of the count loop is never negative |
| Calculator.ImplZeroWhenMinimaOverflow | src/Features/Probability/Calculator.cs:131-180 | When the remaining minima exceed the room left in the hand, the value is zero |
| Calculator.ImplExactShape | src/Features/Probability/Calculator.cs:131-180 | When the minima fill the hand exactly, the value is the product of the binomials of the chosen counts |
| Calculator.ImplStops | src/Features/Probability/Calculator.cs:133-156 | When the groups run out or the hand is full: an overfull hand, or a full hand with a group still needing cards, is worth 0; otherwise the value is the product of the chances drawn so far, even below the hand size |
| Calculator.ImplEmptyRange | src/Features/Probability/Calculator.cs:159-178 | A group whose minimum exceeds its maximum runs no iteration, so the value is 0 |
| Calculator.ImplShortHandExample | src/Features/Probability/Calculator.cs:131-178 | A single group of 3 cards drawn 0 or 1 times for a hand of 2 cannot fill the hand, yet both short hands are counted: the value is 1 + 3 = 4 |
| Calculator.SingleChance | src/Features/Probability/Calculator.cs:150-154 | A single in-range chance is its binomial |
| Calculator.GroupChecks | src/Features/Probability/Calculator.cs:111-124 | No error exactly when every group is valid; otherwise the error of the first invalid group |
| Calculator.Validation | src/Features/Probability/Calculator.cs:93-125 | The deck-size check comes first, then the hand-size check, then the group checks |
| Calculator.CalculateGroups | src/Features/Probability/Calculator.cs:76-91 | On valid input, the probability is the recursion value over the binomial of deck and hand, and is never negative |
| Calculator.CalculateExactShape | src/Features/Probability/Calculator.cs:76-91 | A shape whose minima fill the hand has probability equal to its product of binomials over the binomial of the deck |
| Calculator.Rebuild | src/Features/Probability/Calculator.cs:57-71 | Each element becomes its group's size with the element's counts, and an unknown name is an error |
| Calculator.CalculateProbability | src/Features/Probability/Calculator.cs:50-74 | A hand has a probability only when all its names are known groups, and that probability is never negative; a name with no group is the unknown-group error, naming a missing group |
| Calculator.ProbabilityOfKnownHand | src/Features/Probability/Calculator.cs:50-74 | A hand whose names are all known has the probability of the groups rebuilt from it: each element's name, count and maximum with the size of the deck's group of that name |
| Calculator.ProbabilityInNonNegative | src/Features/Probability/Calculator.cs:50-74 | Every successful single-hand probability is non-negative |
| Calculator.SumProbabilities | src/Features/Probability/Calculator.cs:21-47 | The sum succeeds exactly when every hand's probability does |
| Calculator.SumProbabilitiesFirstFailure | src/Features/Probability/Calculator.cs:23-45 | A failing sum reports the error of the first failing hand |
| Calculator.SumProbabilitiesAppend | src/Features/Probability/Calculator.cs:21-47 | The sum over two lists joined is the sum of the two sums |
| Calculator.CalculateProbabilityOfAll | src/Features/Probability/Calculator.cs:16-48 | The collection overload succeeds exactly when each of its hands succeeds |
| Calculator.ProbabilityOfAllFirstFailure | src/Features/Probability/Calculator.cs:16-48 | The collection overload fails with the first hand's failure |
| Calculator.ProbabilityOfAllNonNegative | src/Features/Probability/Calculator.cs:16-48 | The collection overload's total is never negative |
| Calculator.CalculateProbabilityOfEnumerable | src/Features/Probability/Calculator.cs:9-14 | The enumerable overload succeeds exactly when every hand it receives succeeds |
| Filters.HasCard | src/Data/Operations/Filters.cs:8-18 | True exactly when the named group is present and has cards |
| Filters.GetCardsInHand | src/Data/Operations/Filters.cs:20-32 | The held cards are exactly the elements with a nonzero count, kept in name order |
| Filters.CardsInHandSorted | src/Data/Operations/Filters.cs:20-32 | Filtering keeps the name order |
| Filters.GetCardGroupsInHand | src/Data/Operations/Filters.cs:34-52 | Each held card is mapped to its group, in order, and an unknown name is an error |
| Filters.OnlyHasSingles | src/Data/Operations/Filters.cs:60-66 | True exactly when no element has more than one copy |
| Filters.HasDuplicates | src/Data/Operations/Filters.cs:68-74 | True exactly when some element has more than one copy |
| Filters.OnlyHasDuplicates | src/Data/Operations/Filters.cs:76-83 | True exactly when every held element has at least two copies |
| Filters.SinglesAndDuplicatesAreComplementary | src/Data/Operations/Filters.cs:60-74 | A hand has only singles exactly when it has no duplicates |
| Filters.SinglesAndOnlyDuplicates | src/Data/Operations/Filters.cs:60-83 | Only a hand with no held card has both only singles and only duplicates |
| Filters.HasThisCard | src/Data/Operations/Filters.cs:85-97 | True exactly when the name is held with a nonzero count |
| Filters.HasAnyOfTheseCards | src/Data/Operations/Filters.cs:99-111 | True exactly when some held card has one of the names |
| Filters.HasAllOfTheseCards | src/Data/Operations/Filters.cs:113-119 | True exactly when every name is held and some held card lies outside the names |
| Filters.HasAllOfOwnNamesIsFalse | src/Data/Operations/Filters.cs:113-119 | A hand whose held names all lie among the given names never satisfies the test |
| Filters.CountCardNames | src/Data/Operations/Filters.cs:121-132 | The count of a well-formed hand is its number of distinct names |
| Filters.CountCopiesOfCardInHand | src/Data/Operations/Filters.cs:134-148 | An absent name counts zero; a present one counts its number of copies |
| Filters.CountCopiesAppend | src/Data/Operations/Filters.cs:150-161 | Counting over two name lists joined adds the two counts |
| Filters.CountCopiesOfAllNames | src/Data/Operations/Filters.cs:150-161 | Counting all of the hand's own names gives the total number of cards in the hand |
| Filters.CountCardNameInHand | src/Data/Operations/Filters.cs:163-178 | The count is 1 exactly when the name appears in the hand and 0 otherwise |
| Filters.CountCardNamesInHand | src/Data/Operations/Filters.cs:188-204 | At most the number of names in the hand, positive exactly when some held card has one of the names, and on a well-formed hand exactly the number of held elements whose name the dictionary holds as a key |
| Filters.HeldCount | src/Data/Operations/Filters.cs:188-204 | Over elements with distinct names, the count equals the number of held elements |
| Filters.FilterNamedByKey | src/Data/Operations/Filters.cs:206-217 | Keeps exactly the groups whose name is a key of the dictionary |
| Filters.FilterByName | src/Data/Operations/Filters.cs:219-228 | Holds exactly the groups that the given names find |
| HandAnalyzers.Create | src/Features/Analysis/HandAnalyzer.cs:199-211 | The built analyzer is well formed and keeps the groups; a deck size outside the allowed range is the only error, and it carries the summed size |
| HandAnalyzers.AnalyzerCombinations | src/Features/Analysis/HandAnalyzer.cs:199-211 | The analyzer's shapes are exactly the fitting shapes of its groups for its hand size |
| HandAnalyzers.AnalyzerElements | src/Features/Analysis/HandAnalyzer.cs:204-210 | The elements passed to the finder are the groups, one per name |
| HandAnalyzers.AnalyzerCombinationFillsTheHand | src/Features/Analysis/HandAnalyzer.cs:199-211 | Every shape names each group once, keeps within its bounds, and fills the hand |
| HandAnalyzers.Where | src/Features/Analysis/HandAnalyzer.cs:61-72 | The selected shapes are exactly those the filter accepts, with no duplicates |
| HandAnalyzers.ProbabilityWhereSplits | src/Features/Analysis/HandAnalyzer.cs:218-221 | The probabilities of a filter and of its negation add up to the total probability |
| HandAnalyzers.ProbabilityWhereEverything | src/Features/Analysis/HandAnalyzer.cs:213-221 | The filter that accepts everything gives the total probability |
| HandAnalyzers.TotalProbabilityIsOne | src/Features/Analysis/HandAnalyzer.cs:213-216 | For groups drawn from zero up to their size and a hand no larger than the deck, the probabilities of all shapes add up to exactly 1 |
| HandAnalyzers.ShapesAreDistinct | src/Features/Combinations/HandCombinationFinder.cs:109-119 | The analyzer's shapes are the completed leaves of the recursion in order, so building the set drops none |
| HandAnalyzers.LeafCounts | src/Features/Combinations/HandCombinationFinder.cs:63-93 | Each leaf of the recursion is the groups paired with counts that fit them and fill the hand |
| HandAnalyzers.LeafProbability | src/Features/Probability/Calculator.cs:50-91 | A completed leaf's probability is its number of draws over the binomial of deck and hand |
| HandAnalyzers.ShapeProbability | src/Features/Probability/Calculator.cs:50-91 | A shape's probability is the product of the binomials of its counts over the binomial of deck and hand |
| HandAnalyzers.RebuiltShape | src/Features/Probability/Calculator.cs:57-71 | Rebuilding a shape gives, per element, its group's size with the drawn count as both bounds |
| HandAnalyzers.RebuiltTotals | src/Features/Probability/Calculator.cs:57-91 | The rebuilt groups keep the deck size, their minima fill the hand, and their binomial product is the shape's number of draws |
| HandAnalyzers.SumOverShapes | src/Features/Probability/Calculator.cs:21-47 | Summing shares over a common denominator gives the total of the numerators over it |
| HandCounts.RecursiveWays | src/Features/Combinations/HandCombinationFinder.cs:63-93 | For groups drawn from zero up to their size, the draws of the leaves below a stack add up to the stack's draws times the ways to pick the rest of the hand from the remaining groups' cards |
| HandCounts.LoopWays | src/Features/Combinations/HandCombinationFinder.cs:76-92 | The leaves of one group's count loop from a start count add up to the stack's draws times the remaining terms of Vandermonde's sum |
| HandCounts.RecursiveDistinct | src/Features/Combinations/HandCombinationFinder.cs:63-93 | The recursion never yields the same leaf twice |
| HandCounts.LoopDistinct | src/Features/Combinations/HandCombinationFinder.cs:76-92 | The count loop never yields the same leaf twice |
| HandCounts.LoopCountsAbove | src/Features/Combinations/HandCombinationFinder.cs:76-92 | Every leaf of the loop holds, for its group, a count no lower than the loop start |
| HandCounts.HandWaysPermutation | src/Features/Probability/Calculator.cs:150-154 | The product of a hand's binomials does not depend on the order of its elements |
| Binomials.Vandermonde | src/Features/Analysis/HandAnalyzer.cs:213-216 | Summing, over one group's count, the ways to draw it times the ways to draw the rest of the hand from the other cards gives the ways to draw the hand from all of them |
| HandAnalyzers.SumSplits | src/Features/Analysis/HandAnalyzer.cs:218-221 | Splitting the shapes by a filter splits the sum of their probabilities |
| HandAnalyzers.ExpectedValue | src/Features/Analysis/HandAnalyzer.cs:124-140 | The expected value succeeds exactly when every shape with a positive value has a probability, and is never negative |
| HandAnalyzers.ExpectedOverSucceeds | src/Features/Analysis/HandAnalyzer.cs:128-139 | Shapes with a value of zero or less are skipped, so only their probabilities can fail the sum |
| HandAnalyzers.ExpectedValueOfIndicator | src/Features/Analysis/HandAnalyzer.cs:124-140 | The expected value of a 0/1 indicator is the probability of the filter |
| HandAnalyzers.AggregateValues | src/Features/Analysis/HandAnalyzer.cs:164-169 | Each shape is stored with its aggregated value, and other entries are unchanged |
| HandAnalyzers.CountHands | src/Features/Analysis/HandAnalyzer.cs:258-261 | The count is the number of shapes the filter selects |
| HandAnalyzers.CountHandsSplits | src/Features/Analysis/HandAnalyzer.cs:258-261 | A filter's count and its negation's count add up to the number of shapes |
| HandAnalyzers.Tally | src/Features/Analysis/HandAnalyzer.cs:265-271 | Each bucket grows by the number of shapes with that many names, and a name count beyond the histogram is the index error |
| HandAnalyzers.CountUniqueCardName | src/Features/Analysis/HandAnalyzer.cs:263-274 | The histogram has one bucket per possible name count, and its buckets add up to the number of shapes |
| HandAnalyzers.CountUniqueCardNameSucceeds | src/Features/Analysis/HandAnalyzer.cs:263-274 | For a well-formed analyzer with non-negative minima, the histogram never overflows |
| HandAnalyzers.Remove | src/Features/Analysis/HandAnalyzer.cs:52-59 | The reduced analyzer is well formed, keeps its name and hand size, and holds only groups with cards |
| HandAnalyzers.RemoveLookup | src/Features/Analysis/HandAnalyzer.cs:52-59 | Each group loses the copies the hand holds and the other groups are kept |
| HandAnalyzers.RemoveDeckSize | src/Features/Analysis/HandAnalyzer.cs:52-59 | When each element names a group with at least that many cards, the new deck size is the old one minus the hand's total count, and Remove fails with that size exactly when it leaves [1, 60] |
| Assessments.New | src/Features/Assessment/HandAssessmentAnalyzer.cs:17-24 | The stored assessments have distinct hands, each from the input, and the first assessment of each hand is kept |
| Assessments.NewKeepsDistinct | src/Features/Assessment/HandAssessmentAnalyzer.cs:17-24 | Assessments with distinct hands are stored whole and in order |
| Assessments.ProbabilityOfAssessment | src/Features/Assessment/HandAssessmentAnalyzer.cs:26-29 | The probability of an assessment is the analyzer's probability of its hand, never negative |
| Assessments.ProbabilityWhere | src/Features/Assessment/HandAssessmentAnalyzer.cs:31-44 | An accepted total lies in [0, 1] and every accepted hand has a probability |
| Assessments.Filter | src/Features/Assessment/HandAssessmentAnalyzer.cs:35 | Keeps exactly the assessments the filter accepts |
| Assessments.Hands | src/Features/Analysis/HandAnalyzer.cs:234 | Lists the hand of each assessment, in order |
| Assessments.ExpectedValue | src/Features/Assessment/HandAssessmentAnalyzer.cs:46-60 | Succeeds exactly when every assessment with a positive value has a probability, and is never negative |
| Assessments.ExpectedOverAssessments | src/Features/Assessment/HandAssessmentAnalyzer.cs:46-60 | Assessments with a value of zero or less are skipped |
| Assessments.ExpectedValueOfIndicator | src/Features/Assessment/HandAssessmentAnalyzer.cs:46-60 | The expected value of a 0/1 indicator is the summed probability of the accepted assessments |
| Assessments.ExpectedValueOfIndicatorAgrees | src/Features/Assessment/HandAssessmentAnalyzer.cs:31-60 | When the filtered probability is accepted, it equals the expected value of the filter's indicator |
| Assessments.Assess | src/Features/Analysis/HandAnalyzer.cs:231 | Each shape is assessed, in order |
| Assessments.AssessHands | src/Features/Analysis/HandAnalyzer.cs:228-238 | Succeeds exactly when every included hand has a probability; the stored probability is non-negative and each assessment comes from a shape |
| Assessments.AssessHandsWithAnalyzer | src/Features/Analysis/HandAnalyzer.cs:240-256 | The same, for assessment functions that also see the analyzer |
| Assessments.IncludedHandsSucceed | src/Features/Analysis/HandAnalyzer.cs:228-238 | The total over the included hands succeeds when each included hand does |
| Assessments.IncludedIsWhere | src/Features/Analysis/HandAnalyzer.cs:231-234 | The hands of the included assessments are the shapes the inclusion test selects |
| Assessments.AssessHandsMatchesAnalyzer | src/Features/Analysis/HandAnalyzer.cs:228-238 | The stored probability is the analyzer's probability for the inclusion filter |
| Assessments.AssessHandsKeepsEveryAssessment | src/Features/Analysis/HandAnalyzer.cs:228-238 | On a well-formed analyzer, every assessment is stored, in shape order |
| Assessments.StoredProbabilityAgrees | src/Features/Assessment/HandAssessmentAnalyzer.cs:31-44 | Asking the assessment analyzer for the included assessments gives back the stored probability, or rejects it for exceeding 1 |
| CardOps.DesiredGroups | src/Data/Operations/CardOps.cs:46-58 | Keeps exactly the desired names that are in the deck, each with its deck group |
| CardOps.DesiredGroupsDistinct | src/Data/Operations/CardOps.cs:46-58 | Distinct desired names give groups with distinct names |
| CardOps.Simplify | src/Data/Operations/CardOps.cs:24-72 | A missing Pot of Prosperity is an error, and so are chosen cards that exceed the deck; otherwise a valid list of the chosen groups plus a miscellaneous group |
| CardOps.Chosen | src/Data/Operations/CardOps.cs:31-58 | The chosen groups are the Pot of Prosperity group and the desired groups that are in the deck |
| CardOps.SimplifyKeepsDeckSize | src/Data/Operations/CardOps.cs:24-72 | The simplified deck has as many cards as the original deck |
| CardOps.CreateSimplifiedCardList | src/Data/Operations/CardOps.cs:8-14 | The card-list overload fails exactly when the Pot of Prosperity is missing from the list, and otherwise yields a valid list |
| CardOps.CreateSimplifiedCardListOfAnalyzer | src/Data/Operations/CardOps.cs:16-22 | The analyzer overload fails exactly when the Pot of Prosperity is not one of the analyzer's groups |
| CardOps.CreateSimplifiedCardListKeepsCount | src/Data/Operations/CardOps.cs:8-14 | The simplified list has as many cards as the original list |
| CardOps.CreateSimplifiedCardListOfAnalyzerKeepsDeckSize | src/Data/Operations/CardOps.cs:16-22 | The simplified list has as many cards as the analyzer's deck |
| CardSearchNodes.Walk | src/Data/CardSearch/CardSearchNode.cs:42-46 | A chain lists its names from the head, and is empty only for no node |
| CardSearchNodes.Length | src/Data/CardSearch/CardSearchNode.cs:42-46 | A node chain has at least one node |
| CardSearchNodes.CreateSearchGraph | src/Data/CardSearch/CardSearchNode.cs:7-21 | The graph built from a list of names walks back to exactly that list; the empty list gives no node |
| CardSearchNodes.CreateGraph | src/Data/CardSearch/CardSearchNode.cs:10-18 | The chain built from a position walks the names from that position on |
| CardSearchNodes.CreateSearchGraphOfWalk | src/Data/CardSearch/CardSearchNode.cs:7-21 | Building from a chain's walk gives back the chain |
| CardSearchNodes.WalkInjective | src/Data/CardSearch/CardSearchNode.cs:7-21 | Chains with the same walk are the same chain |
| CardSearchNodes.GetLastNode | src/Data/CardSearch/CardSearchNode.cs:23-32 | The last node has no successor and carries the last name of the walk |
| CardSearchCollections.Empty | src/Data/CardSearch/CardSearchNodeCollection.cs:98-101 | A new collection holds no node |
| CardSearchCollections.Chain | src/Data/CardSearch/CardSearchNodeCollection.cs:103-123 | Lists every node of a chain, each walking the rest of the chain |
| CardSearchCollections.Add | src/Data/CardSearch/CardSearchNodeCollection.cs:103-123 | Adds exactly the nodes of the chain that have a successor, and keeps the collection well formed |
| CardSearchCollections.AddNames | src/Data/CardSearch/CardSearchNodeCollection.cs:7-13 | Adds a node for every suffix of the names that has at least two names |
| CardSearchCollections.AddDirect | src/Data/CardSearch/CardSearchNodeCollection.cs:15-25 | Adds one two-node chain from the start to each direct target |
| CardSearchCollections.GetGraphsByName | src/Data/CardSearch/CardSearchNodeCollection.cs:27-39 | Exactly the stored nodes with the given name |
| CardSearchCollections.GetGraphsByEnd | src/Data/CardSearch/CardSearchNodeCollection.cs:41-55 | Exactly the stored nodes whose chain ends in the given name |
| CardSearchCollections.MaxDepth | src/Data/CardSearch/CardSearchNodeCollection.cs:246-264 | The length of the longest stored chain, or 0 for an empty collection |
| CardSearchCollections.MaxLength | src/Data/CardSearch/CardSearchNodeCollection.cs:246-264 | Some node reaches the maximum, and no node exceeds it |
| CardSearchCollections.StepIff | src/Data/CardSearch/CardSearchNodeCollection.cs:145-190 | One breadth-first step reaches exactly the successors of the current names |
| CardSearchCollections.Reached | src/Data/CardSearch/CardSearchNodeCollection.cs:145-190 | Every reached name is the successor of some stored node |
| CardSearchCollections.GetCardsAccessibleFromName | src/Data/CardSearch/CardSearchNodeCollection.cs:145-190 | Includes every direct successor of the start, and only successor names |
| CardSearchCollections.ReachedHasPath | src/Data/CardSearch/CardSearchNodeCollection.cs:145-190 | Each reached name ends an edge path from the start no longer than the depth |
| CardSearchCollections.PathIsReached | src/Data/CardSearch/CardSearchNodeCollection.cs:145-190 | The end of every such path is reached |
| CardSearchCollections.AccessibleIffPath | src/Data/CardSearch/CardSearchNodeCollection.cs:145-190 | A name is accessible exactly when an edge path of at most the longest chain's length leads to it |
| CardSearchCollections.Search | src/Data/CardSearch/CardSearchNodeCollection.cs:192-244 | A search with no depth left finds nothing |
| CardSearchCollections.HasPathBetweenNodes | src/Data/CardSearch/CardSearchNodeCollection.cs:140-143 | An empty collection has no path, and a stored chain from the start through the end is found |
| CardSearchCollections.SearchHasPath | src/Data/CardSearch/CardSearchNodeCollection.cs:192-244 | A successful search has an edge path from the start to a node whose chain passes the end |
| CardSearchCollections.PathMakesSearchSucceed | src/Data/CardSearch/CardSearchNodeCollection.cs:192-244 | Every such path within the depth makes the search succeed |
| CardSearchCollections.HasPathIffPath | src/Data/CardSearch/CardSearchNodeCollection.cs:140-244 | A path is reported exactly when such a path exists within the longest chain's length |
| SmallWorldCollections.Build | src/Features/SmallWorld/SmallWorldCollection.cs:12-39 | Each card with traits lands in the bucket of its value, buckets hold only input cards of their value once per name, and the only error is a duplicate |
| SmallWorldCollections.New | src/Features/SmallWorld/SmallWorldCollection.cs:12-39 | The collection keeps its selector, its buckets are well formed, and the only error is a duplicate |
| SmallWorldCollections.BuildFailsIffClash | src/Features/SmallWorld/SmallWorldCollection.cs:34-37 | Construction fails exactly when two cards with traits share a name and a selected value |
| SmallWorldCollections.CardsOfValue | src/Features/SmallWorld/SmallWorldCollection.cs:53-61 | An unknown value gives no cards; otherwise the cards of exactly that value, once per name |
| SmallWorldCollections.CardsLike | src/Features/SmallWorld/SmallWorldCollection.cs:41-51 | A card without traits gives no cards; otherwise the cards sharing its value |
| SmallWorldCollections.IsCardPresent | src/Features/SmallWorld/SmallWorldCollection.cs:63-74 | True exactly when the card has traits and its name is in the bucket of its value |
| SmallWorldCollections.NewHoldsInput | src/Features/SmallWorld/SmallWorldCollection.cs:17-38 | Every input card with traits is present, and nothing else is stored |
| SmallWorldAnalyzers.Matches | src/Features/SmallWorld/SmallWorldAnalyzer.cs:29-63 | The number of matching traits is at most five |
| SmallWorldAnalyzers.IsBridgeWith | src/Features/SmallWorld/SmallWorldAnalyzer.cs:29-63 | Two cards bridge exactly when they share exactly one of the five traits, types and attributes compared up to case |
| SmallWorldAnalyzers.IsBridgeWithSymmetric | src/Features/SmallWorld/SmallWorldAnalyzer.cs:29-63 | The bridge relation is symmetric |
| SmallWorldAnalyzers.IdenticalTraitsAreNoBridge | src/Features/SmallWorld/SmallWorldAnalyzer.cs:29-63 | A card shares all five traits with itself, so it never bridges to itself |
| SmallWorldAnalyzers.IsBridgeWithCard | src/Features/SmallWorld/SmallWorldAnalyzer.cs:13-27 | Cards bridge exactly when both have traits and those share exactly one trait |
| SmallWorldAnalyzers.Create | src/Features/SmallWorld/SmallWorldAnalyzer.cs:76-85 | The five indexes are well formed, the names find the input cards, and every card with traits is indexed |
| SmallWorldAnalyzers.CreateSucceedsIff | src/Features/SmallWorld/SmallWorldAnalyzer.cs:76-85 | Construction fails exactly when some index meets a duplicate name |
| SmallWorldAnalyzers.SearchForBridges | src/Features/SmallWorld/SmallWorldAnalyzer.cs:106-116 | Adds every bridging card of the bucket by name, keeps what was found, and adds nothing else |
| SmallWorldAnalyzers.FindBridges | src/Features/SmallWorld/SmallWorldAnalyzer.cs:102-125 | Every card returned bridges the revealed and the desired card, once per name |
| SmallWorldAnalyzers.FindBridgesSound | src/Features/SmallWorld/SmallWorldAnalyzer.cs:102-125 | Every card returned also shares some trait exactly with the revealed card |
| SmallWorldAnalyzers.FindBridgesComplete | src/Features/SmallWorld/SmallWorldAnalyzer.cs:106-122 | Every indexed bridge that shares a trait exactly with the revealed card is returned |
| SmallWorldAnalyzers.CaseOnlyMatchIsMissed | src/Features/SmallWorld/SmallWorldAnalyzer.cs:106-122 | A bridge matching the revealed card only up to case is indexed but not returned |
| SmallWorldAnalyzers.SearchForBridge | src/Features/SmallWorld/SmallWorldAnalyzer.cs:144-156 | True exactly when some card of the bucket bridges |
| SmallWorldAnalyzers.HasBridge | src/Features/SmallWorld/SmallWorldAnalyzer.cs:142-184 | True exactly when some card in the revealed card's buckets bridges |
| SmallWorldAnalyzers.HasBridgeIffFindBridges | src/Features/SmallWorld/SmallWorldAnalyzer.cs:102-184 | The yes/no query agrees with the list query being non-empty |
| SmallWorldAnalyzers.FindBridgesByName | src/Features/SmallWorld/SmallWorldAnalyzer.cs:87-100 | An unknown name gives no bridges; when both names are known, the result is FindBridges of the two stored cards, so every card in it bridges them |
| SmallWorldAnalyzers.FindBridgesByNameComplete | src/Features/SmallWorld/SmallWorldAnalyzer.cs:87-100 | Every indexed bridge that shares an exact trait with the stored revealed card is returned by name |
| SmallWorldAnalyzers.HasBridgeByNameComplete | src/Features/SmallWorld/SmallWorldAnalyzer.cs:127-140 | Such a bridge makes the by-name yes/no query answer true |
| SmallWorldAnalyzers.HasBridgeByName | src/Features/SmallWorld/SmallWorldAnalyzer.cs:127-140 | An unknown name gives false; when both names are known, the answer is HasBridge's for the two stored cards |
| SmallWorldAnalyzers.HasBridgeByNameIffFindBridges | src/Features/SmallWorld/SmallWorldAnalyzer.cs:87-140 | The by-name yes/no query agrees with the by-name list being non-empty |

## Left out

- CardSearchNodeCollection.FindNodes is not modelled. Its inner loop never advances `node` (src/Data/CardSearch/CardSearchNodeCollection.cs:129-136), so on any non-empty collection it either spins forever on the first node or yields that node forever. It has no total model.
- CardOps.PotOfProsperityHitProbability is not modelled. It composes the simplified deck with floating-point excavation arithmetic, and that arithmetic is not part of this model.
- HandAnalyzer creation in parallel, the assessment cache, the comparison and formatting code, the builder, the project handlers and the output streams are left out. They are concurrency and reporting around the core.
- StandardDeviation and the card source generator are left out. They are reporting and data import.
- Integers are unbounded. The source's 32-bit `int` overflow is not modelled.
- Probabilities are exact reals. Double rounding is not modelled.
- Hash codes are parameters, and distinct values are assumed to hash apart. Hash-set and dictionary iteration order is modelled as insertion order.
- SmallWorldAnalyzers.EqualsIgnoreCase folds ASCII letters only. It stands in for ordinal case-insensitive comparison of full Unicode strings.
- Calculator.Factorial: both of the source's failures (a negative argument and an argument past the cache) are one error kind.
- HandAnalyzers.AggregateValues: the aggregate dictionary is a sequence of entries keyed by hand.
- Assessments.Aggregate has no contract. It only applies the caller's function to the stored assessments.
- IFilter is modelled as a function from the shape list to a shape list.
- HandCombinations.FromElementsKeepsFirst: holds for the one-by-one insertion the model uses. The library's sorted-set construction sorts without stability (above 16 elements it is not an insertion sort), so for input that repeats a name it may keep a later element. The enumerator merges each leaf into a set by name before building the combination (src/Features/Combinations/HandCombinationFinder.cs:109-115), so its input never repeats a name.
- HandAnalyzers.RemoveDeckSize: stated for analyzers whose groups all have cards, and for hands whose every element names a group with at least that many cards.
- HandAnalyzers.TotalProbabilityIsOne: stated for groups whose bounds run from zero to their size. With other bounds the total is the probability of meeting them, which the model does not compute.
- CardSearchCollections.Reached: the queues of the breadth-first searches are modelled as sets of names per level. A name that is enqueued twice is visited once.
- Assessments.ProbabilityWhere: the two range guards on the sum are one error, and when some accepted hand fails, the contract says only that the result is an error.
- SmallWorldAnalyzers.FindBridgesComplete: holds only for bridges that share a trait exactly with the revealed card, because the indexes compare types and attributes with case.
- The data-only interfaces (ICardGroup, INamedCard, ISmallWorldCard, ISmallWorldTraits, IHandAssessment) appear only as the datatypes above.
