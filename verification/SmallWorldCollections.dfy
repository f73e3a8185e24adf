/**
 * Small World cards and the per-trait index (SmallWorldCollection): every card that has traits is
 * stored in the bucket of the value a selector reads from its traits, and each bucket is a
 * dictionary keyed by card name.
 */
module SmallWorldCollections {
  import opened Wrappers
  import opened Cards
  import KeyedDicts

  /** The five traits a Small World bridge is judged on. */
  datatype Traits = Traits(level: int, attackPoints: int, defensePoints: int, monsterType: string, monsterAttribute: string)

  /** A card with its name and its traits; `None` stands for a card that has no traits. */
  datatype Card<N> = Card(name: N, traits: Option<Traits>)

  function CardName<N>(c: Card<N>): N { c.name }

  /**
   * The index: `buckets[v]` holds the cards whose selected value is `v`, in insertion order, at
   * most one per name.
   */
  datatype Collection<V, N> = Collection(selector: Traits -> V, buckets: map<V, seq<Card<N>>>)

  /** Two cards that the constructor would put in the same bucket under the same name. */
  predicate SameBucket<V(==), N(==)>(selector: Traits -> V, a: Card<N>, b: Card<N>)
  {
    a.traits.Some? && b.traits.Some? && a.name == b.name && selector(a.traits.value) == selector(b.traits.value)
  }

  /** No two cards of `cards` clash in a bucket. */
  predicate NoClash<V(==), N(==)>(selector: Traits -> V, cards: seq<Card<N>>)
  {
    forall i, j :: 0 <= i < j < |cards| ==> !SameBucket(selector, cards[i], cards[j])
  }

  /** What the bucket map of a constructed collection keeps: each bucket holds only cards of its value, one per name. */
  predicate BucketsWellformed<V, N(==)>(selector: Traits -> V, m: map<V, seq<Card<N>>>)
  {
    forall v :: v in m ==>
      KeyedDicts.Valid(CardName, m[v]) &&
      forall i :: 0 <= i < |m[v]| ==> m[v][i].traits.Some? && selector(m[v][i].traits.value) == v
  }

  /**
   * The constructor's loop, over the cards in order: a card without traits is skipped; otherwise it
   * is added to the bucket of its value, created empty when missing, and a name already in that
   * bucket is the "Duplicate cards found." exception.
   */
  function Build<V(==,!new), N(==,!new)>(selector: Traits -> V, cards: seq<Card<N>>): (r: Result<map<V, seq<Card<N>>>, Error>)
    ensures r.Failure? ==> r.error == DuplicateCard
    ensures r.Success? ==> BucketsWellformed(selector, r.value)
    ensures r.Success? ==> forall v, i :: v in r.value && 0 <= i < |r.value[v]| ==> r.value[v][i] in cards
    ensures r.Success? ==>
      forall i :: 0 <= i < |cards| && cards[i].traits.Some? ==>
        selector(cards[i].traits.value) in r.value && cards[i] in r.value[selector(cards[i].traits.value)]
    decreases |cards|
  {
    if |cards| == 0 then Success(map[])
    else
      var prefix := cards[..|cards| - 1];
      var card := cards[|cards| - 1];
      var prev := Build(selector, prefix);
      if prev.Failure? then prev
      else if card.traits.None? then
        BuildSkips(selector, cards, prev.value);
        prev
      else
        var v := selector(card.traits.value);
        var bucket := if v in prev.value then prev.value[v] else [];
        var added := KeyedDicts.TryAdd(CardName, bucket, card);
        if !added.1 then Failure(DuplicateCard)
        else
          BuildAdds(selector, cards, prev.value);
          Success(prev.value[v := added.0])
  }

  /** A last card without traits leaves the buckets of the earlier cards as they are. */
  lemma BuildSkips<V, N>(selector: Traits -> V, cards: seq<Card<N>>, m: map<V, seq<Card<N>>>)
    requires |cards| > 0 && cards[|cards| - 1].traits.None?
    requires forall v, i :: v in m && 0 <= i < |m[v]| ==> m[v][i] in cards[..|cards| - 1]
    requires forall i :: 0 <= i < |cards| - 1 && cards[i].traits.Some? ==>
      selector(cards[i].traits.value) in m && cards[i] in m[selector(cards[i].traits.value)]
    ensures forall v, i :: v in m && 0 <= i < |m[v]| ==> m[v][i] in cards
    ensures forall i :: 0 <= i < |cards| && cards[i].traits.Some? ==>
      selector(cards[i].traits.value) in m && cards[i] in m[selector(cards[i].traits.value)]
  {
    forall v, i | v in m && 0 <= i < |m[v]| ensures m[v][i] in cards {
      PrefixMember(cards, m[v][i]);
    }
  }

  /** A last card with traits and a new name in its bucket is appended to that bucket. */
  lemma BuildAdds<V, N>(selector: Traits -> V, cards: seq<Card<N>>, m: map<V, seq<Card<N>>>)
    requires |cards| > 0 && cards[|cards| - 1].traits.Some?
    requires var card := cards[|cards| - 1];
      var v := selector(card.traits.value);
      card.name !in KeyedDicts.KeySet(CardName, if v in m then m[v] else [])
    requires BucketsWellformed(selector, m)
    requires forall v, i :: v in m && 0 <= i < |m[v]| ==> m[v][i] in cards[..|cards| - 1]
    requires forall i :: 0 <= i < |cards| - 1 && cards[i].traits.Some? ==>
      selector(cards[i].traits.value) in m && cards[i] in m[selector(cards[i].traits.value)]
    ensures var card := cards[|cards| - 1];
      var v := selector(card.traits.value);
      var r := m[v := (if v in m then m[v] else []) + [card]];
      && BucketsWellformed(selector, r)
      && (forall w, i :: w in r && 0 <= i < |r[w]| ==> r[w][i] in cards)
      && (forall i :: 0 <= i < |cards| && cards[i].traits.Some? ==>
            selector(cards[i].traits.value) in r && cards[i] in r[selector(cards[i].traits.value)])
  {
    var card := cards[|cards| - 1];
    var v := selector(card.traits.value);
    var bucket := if v in m then m[v] else [];
    var r := m[v := bucket + [card]];
    BucketAppend(selector, v, bucket, card);
    forall w, i | w in r && 0 <= i < |r[w]| ensures r[w][i] in cards {
      if w == v && i == |bucket| {
        assert r[w][i] == card;
      } else {
        assert r[w][i] in m[w];
        PrefixMember(cards, r[w][i]);
      }
    }
    forall i | 0 <= i < |cards| && cards[i].traits.Some?
      ensures selector(cards[i].traits.value) in r && cards[i] in r[selector(cards[i].traits.value)]
    {
      if i < |cards| - 1 {
        var w := selector(cards[i].traits.value);
        assert cards[i] in m[w];
        if w == v {
          assert cards[i] in bucket + [card];
        }
      } else {
        assert r[v][|bucket|] == card;
      }
    }
  }

  lemma BucketAppend<V, N>(selector: Traits -> V, v: V, bucket: seq<Card<N>>, card: Card<N>)
    requires KeyedDicts.Valid(CardName, bucket)
    requires forall i :: 0 <= i < |bucket| ==> bucket[i].traits.Some? && selector(bucket[i].traits.value) == v
    requires card.traits.Some? && selector(card.traits.value) == v
    requires card.name !in KeyedDicts.KeySet(CardName, bucket)
    ensures KeyedDicts.Valid(CardName, bucket + [card])
    ensures forall i :: 0 <= i < |bucket + [card]| ==>
      (bucket + [card])[i].traits.Some? && selector((bucket + [card])[i].traits.value) == v
  {
    var b := bucket + [card];
    forall i, j | 0 <= i < j < |b| ensures CardName(b[i]) != CardName(b[j]) {
      assert b[i] == bucket[i];
      if j < |bucket| {
        assert b[j] == bucket[j];
      }
    }
  }

  lemma PrefixMember<T>(xs: seq<T>, x: T)
    requires |xs| > 0 && x in xs[..|xs| - 1]
    ensures x in xs
  {
    var k :| 0 <= k < |xs| - 1 && xs[..|xs| - 1][k] == x;
    assert xs[k] == x;
  }

  /**
   * The constructor: a collection over `cards` with the given selector, or the duplicate-card
   * exception.
   */
  function New<V(==,!new), N(==,!new)>(selector: Traits -> V, cards: seq<Card<N>>): (r: Result<Collection<V, N>, Error>)
    ensures r.Success? ==> r.value.selector == selector && BucketsWellformed(selector, r.value.buckets)
    ensures r.Failure? ==> r.error == DuplicateCard
  {
    var b := Build(selector, cards);
    if b.Failure? then Failure(b.error) else Success(Collection(selector, b.value))
  }

  lemma ClashInPrefix<V(!new), N(!new)>(selector: Traits -> V, prefix: seq<Card<N>>, card: Card<N>)
    ensures NoClash(selector, prefix + [card]) <==>
      NoClash(selector, prefix) && !exists i :: 0 <= i < |prefix| && SameBucket(selector, prefix[i], card)
  {
    var cards := prefix + [card];
    if NoClash(selector, prefix) && !exists i :: 0 <= i < |prefix| && SameBucket(selector, prefix[i], card) {
      forall i, j | 0 <= i < j < |cards| ensures !SameBucket(selector, cards[i], cards[j]) {
        assert cards[i] == prefix[i];
        if j < |prefix| {
          assert cards[j] == prefix[j];
        }
      }
    }
    if NoClash(selector, cards) {
      forall i, j | 0 <= i < j < |prefix| ensures !SameBucket(selector, prefix[i], prefix[j]) {
        assert cards[i] == prefix[i] && cards[j] == prefix[j];
      }
      forall i | 0 <= i < |prefix| ensures !SameBucket(selector, prefix[i], card) {
        assert cards[i] == prefix[i] && cards[|prefix|] == card;
      }
    }
  }

  /** The name of a card is already in its bucket exactly when an earlier card clashes with it. */
  lemma BucketHasNameIffClash<V(!new), N(!new)>(selector: Traits -> V, prefix: seq<Card<N>>, card: Card<N>)
    requires Build(selector, prefix).Success? && card.traits.Some?
    ensures var m := Build(selector, prefix).value;
      var v := selector(card.traits.value);
      var bucket := if v in m then m[v] else [];
      card.name in KeyedDicts.KeySet(CardName, bucket) <==> exists i :: 0 <= i < |prefix| && SameBucket(selector, prefix[i], card)
  {
    var m := Build(selector, prefix).value;
    var v := selector(card.traits.value);
    var bucket := if v in m then m[v] else [];
    if card.name in KeyedDicts.KeySet(CardName, bucket) {
      NameInBucketClashes(selector, prefix, m, card);
    }
    if i :| 0 <= i < |prefix| && SameBucket(selector, prefix[i], card) {
      ClashInBucket(selector, prefix, m, card, i);
    }
  }

  /** A name found in the bucket of `card` belongs to an earlier card in the same bucket. */
  lemma NameInBucketClashes<V, N>(selector: Traits -> V, prefix: seq<Card<N>>, m: map<V, seq<Card<N>>>, card: Card<N>)
    requires BucketsWellformed(selector, m) && card.traits.Some?
    requires forall v, i :: v in m && 0 <= i < |m[v]| ==> m[v][i] in prefix
    requires var v := selector(card.traits.value);
      card.name in KeyedDicts.KeySet(CardName, if v in m then m[v] else [])
    ensures exists i :: 0 <= i < |prefix| && SameBucket(selector, prefix[i], card)
  {
    var v := selector(card.traits.value);
    var bucket := m[v];
    var k :| 0 <= k < |bucket| && bucket[k].name == card.name;
    var i :| 0 <= i < |prefix| && prefix[i] == bucket[k];
    assert SameBucket(selector, prefix[i], card);
  }

  /** An earlier card in the same bucket as `card`, with its name, puts that name in the bucket. */
  lemma ClashInBucket<V, N>(selector: Traits -> V, prefix: seq<Card<N>>, m: map<V, seq<Card<N>>>, card: Card<N>, i: int)
    requires forall i :: 0 <= i < |prefix| && prefix[i].traits.Some? ==>
      selector(prefix[i].traits.value) in m && prefix[i] in m[selector(prefix[i].traits.value)]
    requires 0 <= i < |prefix| && SameBucket(selector, prefix[i], card)
    ensures var v := selector(card.traits.value);
      card.name in KeyedDicts.KeySet(CardName, if v in m then m[v] else [])
  {
    var bucket := m[selector(card.traits.value)];
    assert prefix[i] in bucket;
    var k :| 0 <= k < |bucket| && bucket[k] == prefix[i];
    assert CardName(bucket[k]) == card.name;
  }

  /** The last card makes the constructor fail exactly when its name is already in its bucket. */
  lemma BuildStep<V(!new), N(!new)>(selector: Traits -> V, cards: seq<Card<N>>)
    requires |cards| > 0
    ensures var prefix := cards[..|cards| - 1];
      var card := cards[|cards| - 1];
      Build(selector, cards).Success? <==>
        && Build(selector, prefix).Success?
        && (card.traits.None? ||
            var m := Build(selector, prefix).value;
            var v := selector(card.traits.value);
            card.name !in KeyedDicts.KeySet(CardName, if v in m then m[v] else []))
  {
  }

  /**
   * The constructor throws exactly when two cards with traits share a name and a selected value,
   * that is when the second of them finds its name already in its bucket.
   */
  lemma {:induction false} BuildFailsIffClash<V(!new), N(!new)>(selector: Traits -> V, cards: seq<Card<N>>)
    ensures Build(selector, cards).Success? <==> NoClash(selector, cards)
    decreases |cards|
  {
    if |cards| > 0 {
      var prefix := cards[..|cards| - 1];
      var card := cards[|cards| - 1];
      assert cards == prefix + [card];
      BuildFailsIffClash(selector, prefix);
      ClashInPrefix(selector, prefix, card);
      BuildStep(selector, cards);
      if Build(selector, prefix).Success? && card.traits.Some? {
        BucketHasNameIffClash(selector, prefix, card);
      }
    }
  }

  /**
   * GetCardsBySmallWorldValue(value): the bucket for `value`, or an empty dictionary when no card had
   * that value.
   */
  function CardsOfValue<V, N>(c: Collection<V, N>, value: V): (r: seq<Card<N>>)
    ensures value !in c.buckets ==> r == []
    ensures BucketsWellformed(c.selector, c.buckets) ==>
      KeyedDicts.Valid(CardName, r) &&
      forall i :: 0 <= i < |r| ==> r[i].traits.Some? && c.selector(r[i].traits.value) == value
  {
    if value in c.buckets then c.buckets[value] else []
  }

  /**
   * GetCardsBySmallWorldValue(card): the bucket for the card's own selected value; empty for a card
   * without traits.
   */
  function CardsLike<V, N>(c: Collection<V, N>, card: Card<N>): (r: seq<Card<N>>)
    ensures card.traits.None? ==> r == []
    ensures BucketsWellformed(c.selector, c.buckets) ==>
      KeyedDicts.Valid(CardName, r) &&
      forall i :: 0 <= i < |r| ==> r[i].traits.Some? && c.selector(r[i].traits.value) == c.selector(card.traits.value)
  {
    match card.traits
    case None => []
    case Some(t) => CardsOfValue(c, c.selector(t))
  }

  /**
   * IsCardPresent: false for a card without traits; otherwise whether the bucket of the card's own
   * value holds a card of the same name.
   */
  function IsCardPresent<V, N(==)>(c: Collection<V, N>, card: Card<N>): (r: bool)
    ensures card.traits.None? ==> !r
    ensures r <==>
      card.traits.Some? && c.selector(card.traits.value) in c.buckets &&
      exists i :: 0 <= i < |c.buckets[c.selector(card.traits.value)]| && c.buckets[c.selector(card.traits.value)][i].name == card.name
  {
    match card.traits
    case None => false
    case Some(t) => card.name in KeyedDicts.KeySet(CardName, CardsOfValue(c, c.selector(t)))
  }

  /**
   * A successfully constructed collection holds exactly the input cards that have traits: each of
   * them is found by IsCardPresent and by the lookup of its own value, and nothing else is stored.
   */
  lemma NewHoldsInput<V(!new), N(!new)>(selector: Traits -> V, cards: seq<Card<N>>)
    requires New(selector, cards).Success?
    ensures forall card :: card in cards && card.traits.Some? ==>
      IsCardPresent(New(selector, cards).value, card) && card in CardsLike(New(selector, cards).value, card)
    ensures forall v, card :: card in CardsOfValue(New(selector, cards).value, v) ==> card in cards && card.traits.Some?
  {
    var c := New(selector, cards).value;
    forall card | card in cards && card.traits.Some?
      ensures IsCardPresent(c, card) && card in CardsLike(c, card)
    {
      var i :| 0 <= i < |cards| && cards[i] == card;
      var bucket := c.buckets[selector(card.traits.value)];
      var k :| 0 <= k < |bucket| && bucket[k] == card;
    }
  }
}
