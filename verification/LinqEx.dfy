/** LinqEx.cs: dropping the missing values from a sequence. */
module LinqEx {
  import opened Wrappers

  /** The number of present values. */
  function CountPresent<T>(source: seq<Option<T>>): nat
  {
    if |source| == 0 then 0 else (if source[0].Some? then 1 else 0) + CountPresent(source[1..])
  }

  /** WhereIsNotNull: the present values, in their order. */
  function WhereIsNotNull<T(==,!new)>(source: seq<Option<T>>): (r: seq<T>)
    ensures |r| == CountPresent(source)
    ensures forall x :: x in r <==> Some(x) in source
  {
    if |source| == 0 then []
    else
      var rest := WhereIsNotNull(source[1..]);
      assert forall o :: o in source <==> o == source[0] || o in source[1..];
      match source[0]
      case None => rest
      case Some(x) => [x] + rest
  }

  /** Order is kept: the present values of a concatenation are those of each part, one after the other. */
  lemma {:induction false} WhereIsNotNullAppend<T(!new)>(a: seq<Option<T>>, b: seq<Option<T>>)
    ensures WhereIsNotNull(a + b) == WhereIsNotNull(a) + WhereIsNotNull(b)
    decreases |a|
  {
    if |a| == 0 {
      assert a + b == b;
    } else {
      assert (a + b)[0] == a[0];
      assert (a + b)[1..] == a[1..] + b;
      WhereIsNotNullAppend(a[1..], b);
    }
  }

  /** A sequence with nothing missing comes back whole. */
  lemma {:induction false} WhereIsNotNullOfPresent<T(!new)>(xs: seq<T>)
    ensures WhereIsNotNull(seq(|xs|, i requires 0 <= i < |xs| => Some(xs[i]))) == xs
    decreases |xs|
  {
    if |xs| > 0 {
      var s := seq(|xs|, i requires 0 <= i < |xs| => Some(xs[i]));
      WhereIsNotNullOfPresent(xs[1..]);
      assert s[1..] == seq(|xs[1..]|, i requires 0 <= i < |xs[1..]| => Some(xs[1..][i]));
      assert xs == [xs[0]] + xs[1..];
    }
  }
}
