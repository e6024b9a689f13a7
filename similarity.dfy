/**
 * Token-set (Jaccard) similarity, used both on rule bodies (duplicate
 * detection) and on rule names (conflict detection).
 */
module Similarity {
  import opened Text

  /** A similarity |A ∩ B| / |A ∪ B| kept as a pair of naturals. */
  datatype Ratio = Ratio(num: nat, den: nat)

  /** The duplicate threshold 0.8 as the fraction 4/5. */
  const ThresholdNum: nat := 4
  const ThresholdDen: nat := 5

  /** `set(re.findall(r'\w+', s.lower()))`. */
  function TokenSet(s: string): set<string> {
    set w | w in Words(Lower(s))
  }

  lemma SubsetCardinality(a: set<string>, b: set<string>)
    requires a <= b
    ensures |a| <= |b|
  {
    assert b == a + (b - a);
  }

  /** Jaccard index of the two token sets; 0 (as 0/1) when either set is empty. */
  function Jaccard(a: string, b: string): (r: Ratio)
    ensures r.den > 0 && r.num <= r.den
    ensures TokenSet(a) == {} || TokenSet(b) == {} ==> r.num == 0
    ensures TokenSet(a) != {} && TokenSet(b) != {} ==>
              r.num == |TokenSet(a) * TokenSet(b)| && r.den == |TokenSet(a) + TokenSet(b)|
  {
    var wa, wb := TokenSet(a), TokenSet(b);
    if wa == {} || wb == {} then Ratio(0, 1)
    else
      SubsetCardinality(wa * wb, wa + wb);
      SubsetCardinality(wa, wa + wb);
      Ratio(|wa * wb|, |wa + wb|)
  }

  /** `similarity > 0.8`, without floating point. */
  predicate Exceeds(r: Ratio) {
    r.num * ThresholdDen > r.den * ThresholdNum
  }

  /** The integer test is the real-valued comparison with 0.8. */
  lemma ExceedsIsAboveThreshold(r: Ratio)
    requires r.den > 0
    ensures Exceeds(r) <==> (r.num as real) / (r.den as real) > 0.8
  {
    var n, d := r.num as real, r.den as real;
    assert (r.num * ThresholdDen) as real == n * 5.0;
    assert (r.den * ThresholdNum) as real == d * 4.0;
    QuotientAbove(n, d, 0.8);
    assert n > 0.8 * d <==> n * 5.0 > d * 4.0;
  }

  lemma QuotientAbove(n: real, d: real, c: real)
    requires d > 0.0
    ensures n / d > c <==> n > c * d
  {
    var q := n / d;
    assert q * d == n;
    assert q > c ==> q * d > c * d;
    assert q <= c ==> q * d <= c * d;
  }

  /** Similarity does not depend on the order of its arguments. */
  lemma JaccardSymmetric(a: string, b: string)
    ensures Jaccard(a, b) == Jaccard(b, a)
  {
    assert TokenSet(a) * TokenSet(b) == TokenSet(b) * TokenSet(a);
    assert TokenSet(a) + TokenSet(b) == TokenSet(b) + TokenSet(a);
  }

  /** A text with at least one token is fully similar to itself, hence above the threshold. */
  lemma JaccardIdentical(a: string)
    requires TokenSet(a) != {}
    ensures Jaccard(a, a).num == Jaccard(a, a).den
    ensures Exceeds(Jaccard(a, a))
  {
    assert TokenSet(a) * TokenSet(a) == TokenSet(a) + TokenSet(a);
  }

  /** Being above the threshold needs a shared token. */
  lemma ExceedsNeedsSharedToken(a: string, b: string)
    requires Exceeds(Jaccard(a, b))
    ensures TokenSet(a) * TokenSet(b) != {}
  {
  }
}
