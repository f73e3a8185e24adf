/**
 * HandAssessmentAnalyzer.cs and HandAnalyzer.AssessHands: every hand shape of an analyzer is judged by a
 * caller-supplied function; the judgements are kept one per hand, with the probability of the included
 * hands, and queried afterwards.
 */
module Assessments {
  import opened Wrappers
  import opened Cards
  import opened HandCombinations
  import opened HashSets
  import opened Calculator
  import HandAnalyzers
  import KeyedDicts

  /** IHandAssessment: whether the hand counts, the hand itself, and whatever else the caller records. */
  datatype HandAssessment<D> = HandAssessment(included: bool, hand: HandCombination, detail: D)

  /** The analyzer the assessments came from, the probability passed in, and the kept assessments. */
  datatype HandAssessmentAnalyzer<D> =
    HandAssessmentAnalyzer(analyzer: HandAnalyzers.HandAnalyzer, probability: real, assessments: seq<HandAssessment<D>>)

  /** The key an assessment is filed under: its hand. */
  function HandOf<D>(x: HandAssessment<D>): HandCombination
  {
    x.hand
  }

  function IsIncluded<D>(x: HandAssessment<D>): bool
  {
    x.included
  }

  /**
   * The constructor: the analyzer and the probability are stored as given; the assessments go through a
   * dictionary keyed by hand, so the first assessment of every hand is kept and later ones are dropped.
   */
  function New<D>(analyzer: HandAnalyzers.HandAnalyzer, prob: real, assessments: seq<HandAssessment<D>>)
    : (r: HandAssessmentAnalyzer<D>)
    ensures r.analyzer == analyzer && r.probability == prob
    ensures forall i, j :: 0 <= i < j < |r.assessments| ==> r.assessments[i].hand != r.assessments[j].hand
    ensures forall h :: KeyedDicts.Lookup(HandOf, r.assessments, h) == KeyedDicts.Lookup(HandOf, assessments, h)
    ensures forall i :: 0 <= i < |r.assessments| ==> r.assessments[i] in assessments
  {
    var kept := KeyedDicts.FromSeq(HandOf, assessments);
    assert forall i :: 0 <= i < |kept| ==> kept[i] in kept;
    HandAssessmentAnalyzer(analyzer, prob, kept)
  }

  /** Assessments whose hands are already distinct are all kept, in order. */
  lemma NewKeepsDistinct<D>(analyzer: HandAnalyzers.HandAnalyzer, prob: real, assessments: seq<HandAssessment<D>>)
    requires forall i, j :: 0 <= i < j < |assessments| ==> assessments[i].hand != assessments[j].hand
    ensures New(analyzer, prob, assessments).assessments == assessments
  {
    KeyedDicts.FromSeqOfValid(HandOf, assessments);
  }

  /** The hands of the assessments, in order. */
  function Hands<D>(xs: seq<HandAssessment<D>>): (r: seq<HandCombination>)
    ensures |r| == |xs| && forall i :: 0 <= i < |xs| ==> r[i] == xs[i].hand
  {
    seq(|xs|, i requires 0 <= i < |xs| => xs[i].hand)
  }

  /** `Where(filter)` over assessments, in order. */
  function Filter<D>(xs: seq<HandAssessment<D>>, filter: HandAssessment<D> -> bool): (r: seq<HandAssessment<D>>)
    ensures |r| <= |xs|
    ensures forall i :: 0 <= i < |r| ==> filter(r[i]) && r[i] in xs
    ensures forall i :: 0 <= i < |xs| && filter(xs[i]) ==> xs[i] in r
  {
    if |xs| == 0 then []
    else
      var rest := Filter(xs[1..], filter);
      assert forall i :: 1 <= i < |xs| ==> xs[i] == xs[1..][i - 1];
      if filter(xs[0]) then
        var r := [xs[0]] + rest;
        assert forall i :: 1 <= i < |r| ==> r[i] == rest[i - 1];
        r
      else rest
  }

  /** The analyzer's probability function for single hands. */
  function HandProbability<D>(x: HandAssessmentAnalyzer<D>): HandCombination -> Result<real, Error>
  {
    ProbabilityIn(x.analyzer.cardGroups, x.analyzer.deckSize, x.analyzer.handSize)
  }

  /** CalculateProbability(assessment): the analyzer's probability of the assessment's hand. */
  function ProbabilityOfAssessment<D>(x: HandAssessmentAnalyzer<D>, assessment: HandAssessment<D>): (r: Result<real, Error>)
    ensures r.Success? ==> r.value >= 0.0
    ensures r.Success? <==> HandAnalyzers.ProbabilityOf(x.analyzer, assessment.hand).Success?
  {
    HandAnalyzers.ProbabilityOf(x.analyzer, assessment.hand)
  }

  /**
   * CalculateProbability(filter): the probabilities of the hands of the accepted assessments, added in
   * order, and rejected unless the total lies in [0, 1]. Probabilities are never negative, so when every
   * accepted hand has a probability only a total above 1 is rejected.
   */
  function ProbabilityWhere<D>(x: HandAssessmentAnalyzer<D>, filter: HandAssessment<D> -> bool): (r: Result<real, Error>)
    ensures r.Success? ==> 0.0 <= r.value <= 1.0
    ensures r.Success? ==>
              forall i :: 0 <= i < |x.assessments| && filter(x.assessments[i]) ==>
                HandAnalyzers.ProbabilityOf(x.analyzer, x.assessments[i].hand).Success?
    ensures (forall i :: 0 <= i < |x.assessments| && filter(x.assessments[i]) ==>
               HandAnalyzers.ProbabilityOf(x.analyzer, x.assessments[i].hand).Success?) ==>
              r.Success? || (r.error.ProbabilityOutOfRange? && r.error.probability > 1.0)
  {
    var prob := HandProbability(x);
    var sum := SumProbabilities(prob, Hands(Filter(x.assessments, filter)));
    ProbabilityInNonNegative(x.analyzer.cardGroups, x.analyzer.deckSize, x.analyzer.handSize);
    SumProbabilitiesNonNegative(prob, Hands(Filter(x.assessments, filter)));
    FilteredSucceed(prob, x.assessments, filter);
    HandProbabilityIsProbabilityOf(x);
    if sum.Failure? then sum
    else if !(0.0 <= sum.value <= 1.0) then Failure(ProbabilityOutOfRange(sum.value))
    else sum
  }

  /** The analyzer's probability function gives, for every hand, the analyzer's probability of it. */
  lemma HandProbabilityIsProbabilityOf<D>(x: HandAssessmentAnalyzer<D>)
    ensures forall c :: HandProbability(x)(c) == HandAnalyzers.ProbabilityOf(x.analyzer, c)
  {
  }

  /** The sum over the accepted assessments succeeds exactly when every accepted hand's probability does. */
  lemma FilteredSucceed<D>(prob: HandCombination -> Result<real, Error>, xs: seq<HandAssessment<D>>, filter: HandAssessment<D> -> bool)
    ensures SumProbabilities(prob, Hands(Filter(xs, filter))).Success? <==>
            forall i :: 0 <= i < |xs| && filter(xs[i]) ==> prob(xs[i].hand).Success?
  {
    var accepted := Filter(xs, filter);
    if forall i :: 0 <= i < |accepted| ==> prob(accepted[i].hand).Success? {
      forall i | 0 <= i < |xs| && filter(xs[i]) ensures prob(xs[i].hand).Success? {
        var k :| 0 <= k < |accepted| && accepted[k] == xs[i];
      }
    }
    if forall i :: 0 <= i < |xs| && filter(xs[i]) ==> prob(xs[i].hand).Success? {
      forall i | 0 <= i < |accepted| ensures prob(accepted[i].hand).Success? {
        var k :| 0 <= k < |xs| && xs[k] == accepted[i];
      }
    }
  }

  /**
   * CalculateExpectedValue: every assessment with a positive value adds that value times its hand's
   * probability; assessments valued at zero or less are skipped.
   */
  function ExpectedValue<D>(x: HandAssessmentAnalyzer<D>, value: HandAssessment<D> -> real): (r: Result<real, Error>)
    ensures r.Success? ==> r.value >= 0.0
    ensures r.Success? <==> forall i :: 0 <= i < |x.assessments| && value(x.assessments[i]) > 0.0 ==>
                              HandAnalyzers.ProbabilityOf(x.analyzer, x.assessments[i].hand).Success?
  {
    ExpectedOverAssessments(HandProbability(x), x.assessments, value)
  }

  function ExpectedOverAssessments<D>(prob: HandCombination -> Result<real, Error>, xs: seq<HandAssessment<D>>,
                                      value: HandAssessment<D> -> real): (r: Result<real, Error>)
    requires forall c :: prob(c).Success? ==> prob(c).value >= 0.0
    ensures r.Success? ==> r.value >= 0.0
    ensures r.Success? <==> forall i :: 0 <= i < |xs| && value(xs[i]) > 0.0 ==> prob(xs[i].hand).Success?
  {
    if |xs| == 0 then Success(0.0)
    else
      var v := value(xs[0]);
      var rest := ExpectedOverAssessments(prob, xs[1..], value);
      assert forall i :: 1 <= i < |xs| ==> xs[i] == xs[1..][i - 1];
      if v <= 0.0 then rest
      else
        var p := prob(xs[0].hand);
        if p.Failure? then Failure(p.error)
        else if rest.Failure? then Failure(rest.error)
        else
          HandAnalyzers.ProductNonNegative(v, p.value);
          Success(v * p.value + rest.value)
  }

  /** The expected value of a filter's indicator is the unguarded probability of the filter. */
  lemma {:induction false} ExpectedValueOfIndicator<D>(prob: HandCombination -> Result<real, Error>, xs: seq<HandAssessment<D>>,
                                                        filter: HandAssessment<D> -> bool)
    requires forall c :: prob(c).Success? ==> prob(c).value >= 0.0
    ensures ExpectedOverAssessments(prob, xs, IndicatorOf(filter)) == SumProbabilities(prob, Hands(Filter(xs, filter)))
    decreases |xs|
  {
    if |xs| > 0 {
      ExpectedValueOfIndicator(prob, xs[1..], filter);
      if filter(xs[0]) {
        IndicatorAdds(prob, xs, filter);
        AcceptedHandsCons(xs, filter);
        SumCons(prob, xs[0].hand, Hands(Filter(xs[1..], filter)));
      } else {
        IndicatorSkips(prob, xs, filter);
      }
    }
  }

  /** The indicator of a filter: 1 for the accepted assessments and 0 for the others. */
  function IndicatorOf<D>(filter: HandAssessment<D> -> bool): HandAssessment<D> -> real
  {
    y => if filter(y) then 1.0 else 0.0
  }

  /** A rejected first assessment contributes to neither side. */
  lemma IndicatorSkips<D>(prob: HandCombination -> Result<real, Error>, xs: seq<HandAssessment<D>>, filter: HandAssessment<D> -> bool)
    requires forall c :: prob(c).Success? ==> prob(c).value >= 0.0
    requires |xs| > 0 && !filter(xs[0])
    ensures ExpectedOverAssessments(prob, xs, IndicatorOf(filter)) == ExpectedOverAssessments(prob, xs[1..], IndicatorOf(filter))
    ensures Hands(Filter(xs, filter)) == Hands(Filter(xs[1..], filter))
  {
  }

  /** An accepted first assessment adds its hand's probability to the expected value. */
  lemma IndicatorAdds<D>(prob: HandCombination -> Result<real, Error>, xs: seq<HandAssessment<D>>, filter: HandAssessment<D> -> bool)
    requires forall c :: prob(c).Success? ==> prob(c).value >= 0.0
    requires |xs| > 0 && filter(xs[0])
    ensures ExpectedOverAssessments(prob, xs, IndicatorOf(filter)) ==
            AddFirst(prob(xs[0].hand), ExpectedOverAssessments(prob, xs[1..], IndicatorOf(filter)))
  {
    var ind := IndicatorOf(filter);
    var p := prob(xs[0].hand);
    var rest := ExpectedOverAssessments(prob, xs[1..], ind);
    assert ind(xs[0]) == 1.0;
    assert ExpectedOverAssessments(prob, xs, ind) ==
           if p.Failure? then Failure(p.error) else if rest.Failure? then Failure(rest.error) else Success(1.0 * p.value + rest.value);
    if p.Success? {
      assert 1.0 * p.value == p.value;
    }
  }

  /** The hands of the accepted assessments start with the first hand when it is accepted. */
  lemma AcceptedHandsCons<D>(xs: seq<HandAssessment<D>>, filter: HandAssessment<D> -> bool)
    requires |xs| > 0 && filter(xs[0])
    ensures Hands(Filter(xs, filter)) == [xs[0].hand] + Hands(Filter(xs[1..], filter))
  {
    assert Filter(xs, filter) == [xs[0]] + Filter(xs[1..], filter);
    HandsCons(xs[0], Filter(xs[1..], filter));
  }

  /** Aggregate: the calculator applied to the kept assessments. */
  function Aggregate<D, A>(x: HandAssessmentAnalyzer<D>, calculator: seq<HandAssessment<D>> -> A): A
  {
    calculator(x.assessments)
  }

  /** `Combinations.Select(filter)`: one assessment per shape, in order. */
  function Assess<D>(cs: seq<HandCombination>, f: HandCombination -> HandAssessment<D>): (r: seq<HandAssessment<D>>)
    ensures |r| == |cs| && forall i :: 0 <= i < |cs| ==> r[i] == f(cs[i])
  {
    seq(|cs|, i requires 0 <= i < |cs| => f(cs[i]))
  }

  /**
   * AssessHands: every shape is assessed; the probability of the hands of the included assessments,
   * taken as a hash set, is computed and stored with the assessments.
   */
  function AssessHands<D>(a: HandAnalyzers.HandAnalyzer, f: HandCombination -> HandAssessment<D>)
    : (r: Result<HandAssessmentAnalyzer<D>, Error>)
    ensures r.Success? ==> r.value.analyzer == a && r.value.probability >= 0.0
    ensures r.Success? ==> forall i :: 0 <= i < |r.value.assessments| ==>
              exists c :: c in a.combinations && r.value.assessments[i] == f(c)
    ensures r.Success? <==> forall c :: c in a.combinations && f(c).included ==>
              HandAnalyzers.ProbabilityOf(a, f(c).hand).Success?
  {
    var included := Hands(Filter(Assess(a.combinations, f), IsIncluded));
    var prob := CalculateProbabilityOfEnumerable(a.cardGroups, included, a.deckSize, a.handSize);
    IncludedHandsSucceed(a, f);
    if prob.Failure? then Failure(prob.error)
    else
      ProbabilityOfAllNonNegative(a.cardGroups, ToHashSet(included), a.deckSize, a.handSize);
      var r := New(a, prob.value, Assess(a.combinations, f));
      forall i | 0 <= i < |r.assessments| ensures exists c :: c in a.combinations && r.assessments[i] == f(c) {
        DrawnFromShapes(a.combinations, f, r.assessments[i]);
      }
      Success(r)
  }

  /** A hand is among the included hands exactly when the included assessment of some shape carries it. */
  lemma IncludedHandsMembers<D>(cs: seq<HandCombination>, f: HandCombination -> HandAssessment<D>, h: HandCombination)
    ensures h in Hands(Filter(Assess(cs, f), IsIncluded)) <==> exists c :: c in cs && f(c).included && h == f(c).hand
  {
    var assessments := Assess(cs, f);
    var accepted := Filter(assessments, IsIncluded);
    var included := Hands(accepted);
    if h in included {
      var k :| 0 <= k < |included| && included[k] == h;
      var m :| 0 <= m < |assessments| && assessments[m] == accepted[k];
      assert cs[m] in cs && f(cs[m]) == accepted[k];
    }
    if c :| c in cs && f(c).included && h == f(c).hand {
      var m :| 0 <= m < |cs| && cs[m] == c;
      assert assessments[m] == f(c) && IsIncluded(assessments[m]);
      var k :| 0 <= k < |accepted| && accepted[k] == f(c);
      assert included[k] == h;
    }
  }

  lemma IncludedHandsSucceed<D>(a: HandAnalyzers.HandAnalyzer, f: HandCombination -> HandAssessment<D>)
    ensures CalculateProbabilityOfEnumerable(a.cardGroups, Hands(Filter(Assess(a.combinations, f), IsIncluded)), a.deckSize, a.handSize).Success?
            <==> forall c :: c in a.combinations && f(c).included ==> HandAnalyzers.ProbabilityOf(a, f(c).hand).Success?
  {
    var included := Hands(Filter(Assess(a.combinations, f), IsIncluded));
    forall h ensures h in included <==> exists c :: c in a.combinations && f(c).included && h == f(c).hand {
      IncludedHandsMembers(a.combinations, f, h);
    }
  }

  /** An assessment drawn from the assessed shapes is the assessment of some shape. */
  lemma DrawnFromShapes<D>(cs: seq<HandCombination>, f: HandCombination -> HandAssessment<D>, x: HandAssessment<D>)
    requires x in Assess(cs, f)
    ensures exists c :: c in cs && x == f(c)
  {
    var assessments := Assess(cs, f);
    var k :| 0 <= k < |assessments| && assessments[k] == x;
    assert cs[k] in cs && x == f(cs[k]);
  }

  /** The overload whose assessment function also sees the analyzer. */
  function AssessHandsWithAnalyzer<D>(a: HandAnalyzers.HandAnalyzer, f: (HandCombination, HandAnalyzers.HandAnalyzer) -> HandAssessment<D>)
    : (r: Result<HandAssessmentAnalyzer<D>, Error>)
    ensures r.Success? ==> r.value.analyzer == a && r.value.probability >= 0.0
    ensures r.Success? ==> forall i :: 0 <= i < |r.value.assessments| ==>
              exists c :: c in a.combinations && r.value.assessments[i] == f(c, a)
    ensures r.Success? <==> forall c :: c in a.combinations && f(c, a).included ==>
              HandAnalyzers.ProbabilityOf(a, f(c, a).hand).Success?
  {
    AssessHands(a, c => f(c, a))
  }

  /** The included hands of shapes assessed by a hand-keeping function are the shapes the inclusion test accepts. */
  lemma {:induction false} IncludedIsWhere<D>(cs: seq<HandCombination>, f: HandCombination -> HandAssessment<D>,
                                               g: HandCombination -> bool)
    requires forall c :: c in cs ==> f(c).hand == c
    requires forall c :: g(c) == f(c).included
    ensures Hands(Filter(Assess(cs, f), IsIncluded)) == HandAnalyzers.Where(cs, g)
    decreases |cs|
  {
    if |cs| > 0 {
      var xs := Assess(cs, f);
      var rest := Assess(cs[1..], f);
      assert xs[1..] == rest && xs[0] == f(cs[0]) && xs[0].hand == cs[0];
      assert forall c :: c in cs[1..] ==> f(c).hand == c by {
        forall c | c in cs[1..] ensures f(c).hand == c {
          var k :| 0 <= k < |cs[1..]| && cs[1..][k] == c;
          assert cs[k + 1] == c;
        }
      }
      IncludedIsWhere(cs[1..], f, g);
      var tail := Filter(rest, IsIncluded);
      if g(cs[0]) {
        assert Filter(xs, IsIncluded) == [xs[0]] + tail;
        assert HandAnalyzers.Where(cs, g) == [cs[0]] + HandAnalyzers.Where(cs[1..], g);
        HandsCons(xs[0], tail);
      } else {
        assert Filter(xs, IsIncluded) == tail;
        assert HandAnalyzers.Where(cs, g) == HandAnalyzers.Where(cs[1..], g);
      }
    }
  }

  lemma HandsCons<D>(x: HandAssessment<D>, xs: seq<HandAssessment<D>>)
    ensures Hands([x] + xs) == [x.hand] + Hands(xs)
  {
  }

  /**
   * When every assessment keeps its shape as its hand, AssessHands succeeds exactly when the analyzer's
   * probability of the included shapes does, and stores that probability.
   */
  lemma AssessHandsMatchesAnalyzer<D>(a: HandAnalyzers.HandAnalyzer, f: HandCombination -> HandAssessment<D>,
                                      g: HandCombination -> bool)
    requires forall c :: c in a.combinations ==> f(c).hand == c
    requires forall c :: g(c) == f(c).included
    ensures AssessHands(a, f).Success? <==> HandAnalyzers.ProbabilityWhere(a, g).Success?
    ensures AssessHands(a, f).Success? ==> AssessHands(a, f).value.probability == HandAnalyzers.ProbabilityWhere(a, g).value
  {
    IncludedIsWhere(a.combinations, f, g);
  }

  /**
   * On a constructed analyzer the shapes are distinct, so no assessment of a hand-keeping function is
   * dropped: the stored assessments are the shapes' assessments, in order.
   */
  lemma AssessHandsKeepsEveryAssessment<D>(a: HandAnalyzers.HandAnalyzer, f: HandCombination -> HandAssessment<D>)
    requires HandAnalyzers.Wellformed(a)
    requires forall c :: c in a.combinations ==> f(c).hand == c
    ensures AssessHands(a, f).Success? ==> AssessHands(a, f).value.assessments == Assess(a.combinations, f)
  {
    var xs := Assess(a.combinations, f);
    forall i, j | 0 <= i < j < |xs| ensures xs[i].hand != xs[j].hand {
      assert xs[i].hand == a.combinations[i] && xs[j].hand == a.combinations[j];
    }
    if AssessHands(a, f).Success? {
      NewKeepsDistinct(a, AssessHands(a, f).value.probability, xs);
    }
  }

  /**
   * The stored probability is what CalculateProbability(assessment => assessment.Included) recomputes
   * from the stored assessments, or that query rejects it for exceeding 1.
   */
  lemma StoredProbabilityAgrees<D>(a: HandAnalyzers.HandAnalyzer, f: HandCombination -> HandAssessment<D>)
    requires HandAnalyzers.Wellformed(a)
    requires forall c :: c in a.combinations ==> f(c).hand == c
    ensures AssessHands(a, f).Success? ==>
              var x := AssessHands(a, f).value;
              ProbabilityWhere(x, IsIncluded) ==
                if x.probability <= 1.0 then Success(x.probability) else Failure(ProbabilityOutOfRange(x.probability))
  {
    if AssessHands(a, f).Success? {
      var x := AssessHands(a, f).value;
      var g := c => f(c).included;
      AssessHandsKeepsEveryAssessment(a, f);
      IncludedIsWhere(a.combinations, f, g);
      var w := HandAnalyzers.Where(a.combinations, g);
      assert ToHashSet(w) == w;
      assert Hands(Filter(x.assessments, IsIncluded)) == w;
      assert HandProbability(x) == ProbabilityIn(a.cardGroups, a.deckSize, a.handSize);
    }
  }

  /** The expected value of an indicator is the guarded probability of the same filter, when that is accepted. */
  lemma ExpectedValueOfIndicatorAgrees<D>(x: HandAssessmentAnalyzer<D>, filter: HandAssessment<D> -> bool)
    ensures ProbabilityWhere(x, filter).Success? ==>
              ExpectedValue(x, IndicatorOf(filter)) == ProbabilityWhere(x, filter)
  {
    ProbabilityInNonNegative(x.analyzer.cardGroups, x.analyzer.deckSize, x.analyzer.handSize);
    ExpectedValueOfIndicator(HandProbability(x), x.assessments, filter);
  }
}
