/** The composite fingerprint and the similarity score between two fingerprints. */
module Scoring {
  import opened Optional
  import opened Text

  /** The character that separates the hash components of a fingerprint. */
  const Separator: char := '_'

  function Min(a: int, b: int): int
  {
    if a <= b then a else b
  }

  function Max(a: int, b: int): int
  {
    if a >= b then a else b
  }

  /** The fingerprint text: the average, perceptual and difference hashes, joined by the separator. */
  function Compose(ahash: string, phash: string, dhash: string): string
  {
    ahash + [Separator] + phash + [Separator] + dhash
  }

  /** The components of a fingerprint, as `split('_')` returns them. */
  function Components(fp: string): seq<string>
  {
    Split(fp, Separator)
  }

  /** A composed fingerprint splits back into its three hashes when none of them holds the separator. */
  lemma ComposeComponents(ahash: string, phash: string, dhash: string)
    requires Separator !in ahash && Separator !in phash && Separator !in dhash
    ensures Components(Compose(ahash, phash, dhash)) == [ahash, phash, dhash]
  {
    var parts := [ahash, phash, dhash];
    assert Join(parts[2..], Separator) == dhash;
    assert Join(parts[1..], Separator) == phash + [Separator] + dhash;
    assert Join(parts, Separator) == ahash + [Separator] + (phash + [Separator] + dhash);
    assert Compose(ahash, phash, dhash) == Join(parts, Separator);
    SplitJoin(parts, Separator);
  }

  /** The positions below `n` at which `a` and `b` differ. */
  ghost function DiffPositions(a: string, b: string, n: nat): set<nat>
    requires n <= |a| && n <= |b|
  {
    set i: nat | i < n && a[i] != b[i]
  }

  /** The number of differing positions below `n`, counted one pair at a time. */
  function MismatchesBelow(a: string, b: string, n: nat): (d: nat)
    requires n <= |a| && n <= |b|
    ensures d == |DiffPositions(a, b, n)|
    ensures d <= n
  {
    if n == 0 then 0
    else
      assert DiffPositions(a, b, n) == DiffPositions(a, b, n - 1) + (if a[n - 1] != b[n - 1] then {n - 1} else {});
      MismatchesBelow(a, b, n - 1) + (if a[n - 1] != b[n - 1] then 1 else 0)
  }

  /** `sum(c1 != c2 for c1, c2 in zip(a, b))`: the Hamming distance over the shorter length. */
  function Mismatches(a: string, b: string): (d: nat)
    ensures d == |DiffPositions(a, b, Min(|a|, |b|))|
    ensures d <= Min(|a|, |b|)
  {
    MismatchesBelow(a, b, Min(|a|, |b|))
  }

  /** `a` and `b` agree on every position both of them have: one is a prefix of the other. */
  predicate AgreeOnOverlap(a: string, b: string)
  {
    a[..Min(|a|, |b|)] == b[..Min(|a|, |b|)]
  }

  /** No mismatches exactly when the two strings agree on their overlap. */
  lemma MismatchesZero(a: string, b: string)
    ensures Mismatches(a, b) == 0 <==> AgreeOnOverlap(a, b)
  {
    var n := Min(|a|, |b|);
    if Mismatches(a, b) == 0 {
      assert DiffPositions(a, b, n) == {};
      forall i | 0 <= i < n
        ensures a[i] == b[i]
      {
        assert i !in DiffPositions(a, b, n);
      }
      assert a[..n] == b[..n];
    } else {
      var i :| i in DiffPositions(a, b, n);
      assert a[..n][i] != b[..n][i];
    }
  }

  /** Mismatch counting does not depend on the order of its arguments. */
  lemma MismatchesSymmetric(a: string, b: string)
    ensures Mismatches(a, b) == Mismatches(b, a)
  {
    assert DiffPositions(a, b, Min(|a|, |b|)) == DiffPositions(b, a, Min(|b|, |a|));
  }

  /** A ratio of a count to a larger positive total lies in [0, 1], and is 0 only for a zero count. */
  lemma RatioInUnit(d: nat, m: nat)
    requires d <= m && 0 < m
    ensures 0.0 <= (d as real) / (m as real) <= 1.0
    ensures (d as real) / (m as real) == 0.0 <==> d == 0
  {
    var q := (d as real) / (m as real);
    assert q * (m as real) == d as real;
  }

  /** The similarity percentage of one aligned component pair: `(1 - distance / max_len) * 100`.
      None where both are empty, because the division by `max_len` fails. */
  function PairScore(a: string, b: string): (r: Option<real>)
    ensures r.None? <==> a == [] && b == []
    ensures r.Some? ==> 0.0 <= r.value <= 100.0
    ensures r.Some? ==> (r.value == 100.0 <==> AgreeOnOverlap(a, b))
  {
    var maxLen := Max(|a|, |b|);
    if maxLen == 0 then None
    else
      RatioInUnit(Mismatches(a, b), maxLen);
      MismatchesZero(a, b);
      Some((1.0 - (Mismatches(a, b) as real) / (maxLen as real)) * 100.0)
  }

  lemma PairScoreSymmetric(a: string, b: string)
    ensures PairScore(a, b) == PairScore(b, a)
  {
    MismatchesSymmetric(a, b);
  }

  /** Some pair that `zip` lines up has both components empty. */
  ghost predicate EmptyAlignedPair(p1: seq<string>, p2: seq<string>)
  {
    exists i :: 0 <= i < |p1| && i < |p2| && p1[i] == [] && p2[i] == []
  }

  /** The per-pair scores over `zip(p1, p2)`, in order; None as soon as one pair fails. */
  function PairScores(p1: seq<string>, p2: seq<string>): (r: Option<seq<real>>)
    ensures r.None? <==> EmptyAlignedPair(p1, p2)
    ensures r.Some? ==> |r.value| == Min(|p1|, |p2|)
    ensures r.Some? ==> forall i :: 0 <= i < |r.value| ==> PairScore(p1[i], p2[i]) == Some(r.value[i])
    decreases |p1|
  {
    if |p1| == 0 || |p2| == 0 then Some([])
    else
      assert EmptyAlignedPair(p1[1..], p2[1..]) ==> EmptyAlignedPair(p1, p2) by {
        if EmptyAlignedPair(p1[1..], p2[1..]) {
          var i :| 0 <= i < |p1[1..]| && i < |p2[1..]| && p1[1..][i] == [] && p2[1..][i] == [];
          assert p1[i + 1] == [] && p2[i + 1] == [];
        }
      }
      assert EmptyAlignedPair(p1, p2) && (p1[0] != [] || p2[0] != []) ==> EmptyAlignedPair(p1[1..], p2[1..]) by {
        if EmptyAlignedPair(p1, p2) && (p1[0] != [] || p2[0] != []) {
          var i :| 0 <= i < |p1| && i < |p2| && p1[i] == [] && p2[i] == [];
          assert p1[1..][i - 1] == [] && p2[1..][i - 1] == [];
        }
      }
      match PairScore(p1[0], p2[0])
      case None => None
      case Some(s) =>
        match PairScores(p1[1..], p2[1..])
        case None => None
        case Some(rest) => Some([s] + rest)
  }

  function Sum(xs: seq<real>): real
  {
    if |xs| == 0 then 0.0 else xs[0] + Sum(xs[1..])
  }

  /** Percentages sum to at most 100 each, and reach that only when every one is 100. */
  lemma {:induction false} SumBounds(xs: seq<real>)
    requires forall i :: 0 <= i < |xs| ==> 0.0 <= xs[i] <= 100.0
    ensures 0.0 <= Sum(xs) <= 100.0 * (|xs| as real)
    ensures Sum(xs) == 100.0 * (|xs| as real) <==> forall i :: 0 <= i < |xs| ==> xs[i] == 100.0
  {
    if |xs| > 0 {
      SumBounds(xs[1..]);
      assert forall i :: 1 <= i < |xs| ==> xs[i] == xs[1..][i - 1];
    }
  }

  /** The mean of `n` percentages lies in [0, 100] and is 100 exactly when their sum is `100 * n`. */
  lemma MeanBounds(s: real, n: nat)
    requires 0 < n && 0.0 <= s <= 100.0 * (n as real)
    ensures 0.0 <= s / (n as real) <= 100.0
    ensures s / (n as real) == 100.0 <==> s == 100.0 * (n as real)
  {
    var q := s / (n as real);
    assert q * (n as real) == s;
  }

  /** The score of two component lists: the mean of the per-pair scores, or 0 when a pair fails
      or (which `split` rules out) there is no pair at all. */
  function PartsSimilarity(p1: seq<string>, p2: seq<string>): (r: real)
    ensures 0.0 <= r <= 100.0
    ensures EmptyAlignedPair(p1, p2) ==> r == 0.0
  {
    match PairScores(p1, p2)
    case None => 0.0
    case Some(ss) =>
      if |ss| == 0 then 0.0
      else
        SumBounds(ss);
        MeanBounds(Sum(ss), |ss|);
        Sum(ss) / (|ss| as real)
  }

  /** `calculate_fingerprint_similarity`: the score of two fingerprints, always in [0, 100]. */
  function Similarity(fp1: string, fp2: string): (r: real)
    ensures 0.0 <= r <= 100.0
    ensures EmptyAlignedPair(Components(fp1), Components(fp2)) ==> r == 0.0
  {
    PartsSimilarity(Components(fp1), Components(fp2))
  }

  /** Scoring is symmetric pair by pair. */
  lemma {:induction false} PairScoresSymmetric(p1: seq<string>, p2: seq<string>)
    ensures PairScores(p1, p2) == PairScores(p2, p1)
  {
    var r1 := PairScores(p1, p2);
    var r2 := PairScores(p2, p1);
    if EmptyAlignedPair(p1, p2) {
      var i :| 0 <= i < |p1| && i < |p2| && p1[i] == [] && p2[i] == [];
      assert EmptyAlignedPair(p2, p1);
    } else {
      forall i | 0 <= i < |r1.value|
        ensures r1.value[i] == r2.value[i]
      {
        PairScoreSymmetric(p1[i], p2[i]);
      }
      assert r1.value == r2.value;
    }
  }

  /** The score does not depend on the order of the two fingerprints. */
  lemma SimilaritySymmetric(fp1: string, fp2: string)
    ensures Similarity(fp1, fp2) == Similarity(fp2, fp1)
  {
    PairScoresSymmetric(Components(fp1), Components(fp2));
  }

  /** Every component is non-empty. */
  ghost predicate NoEmptyComponent(parts: seq<string>)
  {
    forall k :: 0 <= k < |parts| ==> parts[k] != []
  }

  /** A fingerprint scores 100 against itself when all its components are non-empty, and 0
      (through the failed division) when one of them is empty. */
  lemma SimilarityReflexive(fp: string)
    ensures Similarity(fp, fp) == (if NoEmptyComponent(Components(fp)) then 100.0 else 0.0)
  {
    var c := Components(fp);
    if NoEmptyComponent(c) {
      assert !EmptyAlignedPair(c, c);
      var ss := PairScores(c, c).value;
      forall i | 0 <= i < |ss|
        ensures ss[i] == 100.0
      {
        assert PairScore(c[i], c[i]) == Some(ss[i]);
        assert AgreeOnOverlap(c[i], c[i]);
      }
      SumBounds(ss);
      MeanBounds(Sum(ss), |ss|);
    } else {
      var k :| 0 <= k < |c| && c[k] == [];
      assert EmptyAlignedPair(c, c);
    }
  }

  /** Two fingerprints score 100 exactly when no aligned pair is empty on both sides and, in every
      aligned pair, one component is a prefix of the other. Length differences go unseen. */
  lemma FullScore(fp1: string, fp2: string)
    ensures Similarity(fp1, fp2) == 100.0 <==>
      && !EmptyAlignedPair(Components(fp1), Components(fp2))
      && forall i :: 0 <= i < |Components(fp1)| && i < |Components(fp2)| ==>
           AgreeOnOverlap(Components(fp1)[i], Components(fp2)[i])
  {
    var c1 := Components(fp1);
    var c2 := Components(fp2);
    if !EmptyAlignedPair(c1, c2) {
      var ss := PairScores(c1, c2).value;
      forall i | 0 <= i < |ss|
        ensures ss[i] == 100.0 <==> AgreeOnOverlap(c1[i], c2[i])
      {
        assert PairScore(c1[i], c2[i]) == Some(ss[i]);
      }
      SumBounds(ss);
      MeanBounds(Sum(ss), |ss|);
    }
  }

  /** Components past the end of the shorter list are never compared. */
  lemma {:induction false} ExtraComponentsIgnored(p1: seq<string>, p2: seq<string>)
    ensures PartsSimilarity(p1, p2) == PartsSimilarity(p1[..Min(|p1|, |p2|)], p2[..Min(|p1|, |p2|)])
  {
    var n := Min(|p1|, |p2|);
    var q1, q2 := p1[..n], p2[..n];
    if EmptyAlignedPair(p1, p2) {
      var i :| 0 <= i < |p1| && i < |p2| && p1[i] == [] && p2[i] == [];
      assert q1[i] == [] && q2[i] == [];
    } else {
      var r1 := PairScores(p1, p2).value;
      var r2 := PairScores(q1, q2).value;
      forall i | 0 <= i < |r1|
        ensures r1[i] == r2[i]
      {
        assert PairScore(p1[i], p2[i]) == Some(r1[i]);
        assert PairScore(q1[i], q2[i]) == Some(r2[i]);
      }
      assert r1 == r2;
    }
  }

  /** For three-hash fingerprints the score is the plain mean of the three per-hash scores. */
  lemma ComposedSimilarity(a1: string, p1: string, d1: string, a2: string, p2: string, d2: string)
    requires Separator !in a1 && Separator !in p1 && Separator !in d1
    requires Separator !in a2 && Separator !in p2 && Separator !in d2
    requires a1 != [] || a2 != []
    requires p1 != [] || p2 != []
    requires d1 != [] || d2 != []
    ensures Similarity(Compose(a1, p1, d1), Compose(a2, p2, d2))
         == (PairScore(a1, a2).value + PairScore(p1, p2).value + PairScore(d1, d2).value) / 3.0
  {
    ComposeComponents(a1, p1, d1);
    ComposeComponents(a2, p2, d2);
    var c1, c2 := [a1, p1, d1], [a2, p2, d2];
    assert !EmptyAlignedPair(c1, c2);
    var ss := PairScores(c1, c2).value;
    assert PairScore(c1[0], c2[0]) == Some(ss[0]);
    assert PairScore(c1[1], c2[1]) == Some(ss[1]);
    assert PairScore(c1[2], c2[2]) == Some(ss[2]);
    assert |ss| == 3;
    assert ss[1..][1..][1..] == [];
    assert Sum(ss[1..][1..]) == ss[2];
    assert Sum(ss[1..]) == ss[1] + ss[2];
    assert Sum(ss) == ss[0] + ss[1] + ss[2];
  }

  /** Two different fingerprints can score a full 100: a component that is a prefix of its
      partner, and a component with no partner, both go unnoticed. */
  lemma PrefixScoresFull()
    ensures "a_b_c" != "ab_b_c_d"
    ensures Similarity("a_b_c", "ab_b_c_d") == 100.0
  {
    var c1: seq<string> := ["a", "b", "c"];
    var c2: seq<string> := ["ab", "b", "c", "d"];
    assert Join(c1, Separator) == "a_b_c";
    assert Join(c2, Separator) == "ab_b_c_d";
    SplitJoin(c1, Separator);
    SplitJoin(c2, Separator);
    assert AgreeOnOverlap(c1[0], c2[0]);
    assert AgreeOnOverlap(c1[1], c2[1]);
    assert AgreeOnOverlap(c1[2], c2[2]);
    assert !EmptyAlignedPair(c1, c2);
    FullScore("a_b_c", "ab_b_c_d");
  }
}
