/** Card groups (CardGroup.cs, ICardGroup.cs) and the error taxonomy shared by the whole model. */
module Cards {

  /** Group names. The source only needs equality and a total order on names; integers supply both. */
  type Name = int

  /** A named partition of the deck: how many copies it has and the draw bounds a hand must respect. */
  datatype CardGroup = CardGroup(name: Name, size: int, minimum: int, maximum: int)

  /** Sum of the group sizes, in sequence order (`Sum(group => group.Size)`). */
  function TotalSize(groups: seq<CardGroup>): int
  {
    if |groups| == 0 then 0 else TotalSize(groups[..|groups| - 1]) + groups[|groups| - 1].size
  }

  /** The key a group is filed under: its name. */
  function NameOf(group: CardGroup): Name
  {
    group.name
  }

  /** The names of the groups, in order. */
  function GroupNames(groups: seq<CardGroup>): seq<Name>
  {
    seq(|groups|, i requires 0 <= i < |groups| => groups[i].name)
  }

  /** No two groups share a name. */
  predicate DistinctNames(groups: seq<CardGroup>)
  {
    forall i, j :: 0 <= i < j < |groups| ==> groups[i].name != groups[j].name
  }

  /** The exceptions the source raises, each carrying the offending values. */
  datatype Error =
    | AggregateSizeExceedsDeck(groupSize: int, deckSize: int)
    | HandSizeExceedsDeck(handSize: int, deckSize: int)
    | NegativeMinimum(group: Name, minimum: int)
    | MaximumExceedsSize(group: Name, maximum: int, size: int)
    | UnknownGroup(group: Name)
    | FactorialOutOfRange(index: int)
    | DeckSizeOutOfRange(deckSize: int)
    | NegativeArraySize(length: int)
    | HistogramIndexOutOfRange(index: int, length: int)
    | SizeMismatch(expected: int, actual: int)
    | CardNotInDeck(card: Name)
    | ChosenCardsExceedDeck(cardSize: int, deckSize: int)
    | ProbabilityOutOfRange(probability: real)
    | DuplicateCard

  lemma TotalSizeAppend(a: seq<CardGroup>, b: seq<CardGroup>)
    ensures TotalSize(a + b) == TotalSize(a) + TotalSize(b)
    decreases |b|
  {
    if |b| == 0 {
      assert a + b == a;
    } else {
      assert (a + b)[..|a + b| - 1] == a + b[..|b| - 1];
      TotalSizeAppend(a, b[..|b| - 1]);
    }
  }
}
