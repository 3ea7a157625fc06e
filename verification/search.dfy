/** `find_similar_images`: a linear scan of the database for entries whose score reaches the
    threshold, then a stable sort by descending score. */
module Search {
  import opened Scoring
  import opened Store

  /** One hit: the record id, its score against the query, and the record itself. */
  datatype Match = Match(id: string, similarity: real, record: Record)

  /** The hit the scan builds for the entry at index `j`. */
  function MatchAt(db: Db, fp: string, j: nat): Match
    requires j < |db|
  {
    Match(db[j].id, Similarity(fp, db[j].record.fingerprint), db[j].record)
  }

  /** The scan from index `k` on: the hits that reach the threshold, in database order. */
  function Scan(db: Db, fp: string, threshold: real, k: nat): (s: seq<Match>)
    requires k <= |db|
    ensures forall m :: m in s ==>
      && k <= Rank(db, m.id) < |db|
      && m == MatchAt(db, fp, Rank(db, m.id))
      && m.similarity >= threshold
    ensures forall j :: k <= j < |db| && MatchAt(db, fp, j).similarity >= threshold ==> MatchAt(db, fp, j) in s
    ensures forall i, i' :: 0 <= i < i' < |s| ==> Rank(db, s[i].id) < Rank(db, s[i'].id)
    decreases |db| - k
  {
    if k == |db| then []
    else
      var m := MatchAt(db, fp, k);
      RankOfEntry(db, k);
      (if m.similarity >= threshold then [m] else []) + Scan(db, fp, threshold, k + 1)
  }

  predicate NonIncreasing(s: seq<Match>)
  {
    forall i, j :: 0 <= i < j < |s| ==> s[i].similarity >= s[j].similarity
  }

  /** A non-increasing list stays so with an element in front that is at least all of it. */
  lemma ConsNonIncreasing(x: Match, t: seq<Match>)
    requires NonIncreasing(t)
    requires forall y :: y in t ==> y.similarity <= x.similarity
    ensures NonIncreasing([x] + t)
  {
    forall i, j | 0 <= i < j < |[x] + t|
      ensures ([x] + t)[i].similarity >= ([x] + t)[j].similarity
    {
      assert ([x] + t)[j] == t[j - 1];
      if i > 0 {
        assert ([x] + t)[i] == t[i - 1];
      } else {
        assert t[j - 1] in t;
      }
    }
  }

  /** Put `m` in front of the first element that does not score above it. */
  function Insert(m: Match, s: seq<Match>): (r: seq<Match>)
    ensures multiset(r) == multiset(s) + multiset{m}
    ensures NonIncreasing(s) ==> NonIncreasing(r)
  {
    if |s| == 0 || s[0].similarity <= m.similarity then
      assert NonIncreasing(s) ==> NonIncreasing([m] + s) by {
        if NonIncreasing(s) {
          forall y | y in s
            ensures y.similarity <= m.similarity
          {
            var j :| 0 <= j < |s| && s[j] == y;
            assert s[0].similarity >= s[j].similarity;
          }
          ConsNonIncreasing(m, s);
        }
      }
      [m] + s
    else
      var rest := Insert(m, s[1..]);
      assert s == [s[0]] + s[1..];
      assert NonIncreasing(s) ==> NonIncreasing([s[0]] + rest) by {
        if NonIncreasing(s) {
          assert NonIncreasing(s[1..]);
          forall y | y in rest
            ensures y.similarity <= s[0].similarity
          {
            assert y in multiset(rest);
            if y != m {
              var j :| 0 <= j < |s[1..]| && s[1..][j] == y;
              assert s[0].similarity >= s[j + 1].similarity;
            }
          }
          ConsNonIncreasing(s[0], rest);
        }
      }
      [s[0]] + rest
  }

  /** `sort(key=lambda x: x['similarity'], reverse=True)`: a stable sort into non-increasing
      order, written as an insertion sort. */
  function SortDescending(s: seq<Match>): (r: seq<Match>)
    ensures multiset(r) == multiset(s)
    ensures NonIncreasing(r)
  {
    if |s| == 0 then []
    else
      assert s == [s[0]] + s[1..];
      Insert(s[0], SortDescending(s[1..]))
  }

  /** `a` comes before `b` in a query result: it scores higher, or it scores the same and comes
      earlier in the database. */
  predicate Precedes(db: Db, a: Match, b: Match)
  {
    a.similarity > b.similarity || (a.similarity == b.similarity && Rank(db, a.id) < Rank(db, b.id))
  }

  predicate Ordered(db: Db, s: seq<Match>)
  {
    forall i, j :: 0 <= i < j < |s| ==> Precedes(db, s[i], s[j])
  }

  lemma {:induction false} InsertOrdered(db: Db, m: Match, s: seq<Match>)
    requires Ordered(db, s)
    requires forall x :: x in s ==> Rank(db, m.id) < Rank(db, x.id)
    ensures Ordered(db, Insert(m, s))
    decreases |s|
  {
    if |s| == 0 || s[0].similarity <= m.similarity {
      assert forall x :: x in s ==> x.similarity <= m.similarity by {
        forall x | x in s
          ensures x.similarity <= m.similarity
        {
          var j :| 0 <= j < |s| && s[j] == x;
          if j > 0 {
            assert Precedes(db, s[0], s[j]);
          }
        }
      }
    } else {
      var rest := Insert(m, s[1..]);
      InsertOrdered(db, m, s[1..]);
      forall x | x in rest
        ensures Precedes(db, s[0], x)
      {
        assert x in multiset(rest);
        if x != m {
          var j :| 0 <= j < |s[1..]| && s[1..][j] == x;
          assert s[j + 1] == x;
        }
      }
    }
  }

  /** A list in database order sorts into the query order: score first, database order on ties. */
  lemma {:induction false} SortOrdered(db: Db, s: seq<Match>)
    requires forall i, j :: 0 <= i < j < |s| ==> Rank(db, s[i].id) < Rank(db, s[j].id)
    ensures Ordered(db, SortDescending(s))
    decreases |s|
  {
    if |s| > 0 {
      var sorted := SortDescending(s[1..]);
      SortOrdered(db, s[1..]);
      forall x | x in sorted
        ensures Rank(db, s[0].id) < Rank(db, x.id)
      {
        assert x in multiset(sorted);
        var j :| 0 <= j < |s[1..]| && s[1..][j] == x;
        assert s[j + 1] == x;
      }
      InsertOrdered(db, s[0], sorted);
    }
  }

  /** What a query must return: exactly the entries scoring at least the threshold, each as
      its match, best score first and database order among equal scores. */
  ghost predicate IsQueryResult(db: Db, fp: string, threshold: real, r: seq<Match>)
  {
    && (forall m :: m in r ==>
          && Rank(db, m.id) < |db|
          && m == MatchAt(db, fp, Rank(db, m.id))
          && m.similarity >= threshold)
    && (forall j :: 0 <= j < |db| && MatchAt(db, fp, j).similarity >= threshold ==> MatchAt(db, fp, j) in r)
    && Ordered(db, r)
  }

  /** `find_similar_images`. */
  function FindSimilar(db: Db, fp: string, threshold: real): (r: seq<Match>)
    ensures IsQueryResult(db, fp, threshold, r)
  {
    var found := Scan(db, fp, threshold, 0);
    SortOrdered(db, found);
    var r := SortDescending(found);
    assert forall m :: m in r <==> m in found by {
      forall m
        ensures m in r <==> m in found
      {
        assert m in r <==> m in multiset(r);
      }
    }
    r
  }

  /** No match precedes itself, and no two matches precede each other. */
  lemma PrecedesAsymmetric(db: Db, a: Match, b: Match)
    ensures !(Precedes(db, a, b) && Precedes(db, b, a))
  {
  }

  lemma HeadIsElement(s: seq<Match>)
    requires |s| > 0
    ensures s[0] in s
  {
  }

  /** Two lists strictly ordered by `Precedes` that hold the same elements are equal. */
  lemma {:induction false} OrderedUnique(db: Db, a: seq<Match>, b: seq<Match>)
    requires Ordered(db, a) && Ordered(db, b)
    requires forall m :: m in a <==> m in b
    ensures a == b
    decreases |a|
  {
    if |a| == 0 || |b| == 0 {
      if |a| > 0 {
        HeadIsElement(a);
      }
      if |b| > 0 {
        HeadIsElement(b);
      }
    } else {
      assert a[0] in a && b[0] in b;
      var k :| 0 <= k < |b| && b[k] == a[0];
      var n :| 0 <= n < |a| && a[n] == b[0];
      if a[0] != b[0] {
        PrecedesAsymmetric(db, a[0], b[0]);
        assert false;
      }
      forall m
        ensures m in a[1..] <==> m in b[1..]
      {
        if m in a[1..] {
          var i :| 0 <= i < |a[1..]| && a[1..][i] == m;
          assert Precedes(db, a[0], a[i + 1]);
          PrecedesAsymmetric(db, m, m);
          assert m in a;
          var j :| 0 <= j < |b| && b[j] == m;
          assert j != 0;
          assert b[1..][j - 1] == m;
        }
        if m in b[1..] {
          var i :| 0 <= i < |b[1..]| && b[1..][i] == m;
          assert Precedes(db, b[0], b[i + 1]);
          PrecedesAsymmetric(db, m, m);
          assert m in b;
          var j :| 0 <= j < |a| && a[j] == m;
          assert j != 0;
          assert a[1..][j - 1] == m;
        }
      }
      OrderedUnique(db, a[1..], b[1..]);
      assert a == [a[0]] + a[1..] && b == [b[0]] + b[1..];
    }
  }

  /** The query result is pinned down by what it must contain and its order: any list that
      meets `IsQueryResult` is the one `FindSimilar` returns. */
  lemma OnlyQueryResult(db: Db, fp: string, threshold: real, r: seq<Match>)
    requires IsQueryResult(db, fp, threshold, r)
    ensures r == FindSimilar(db, fp, threshold)
  {
    var f := FindSimilar(db, fp, threshold);
    forall m
      ensures m in r <==> m in f
    {
      if m in r {
        assert MatchAt(db, fp, Rank(db, m.id)) in f;
      }
      if m in f {
        assert MatchAt(db, fp, Rank(db, m.id)) in r;
      }
    }
    OrderedUnique(db, r, f);
  }

  /** Each database id appears at most once in a query result. */
  lemma QueryIdsDistinct(db: Db, fp: string, threshold: real)
    ensures var r := FindSimilar(db, fp, threshold);
      forall i, j :: 0 <= i < j < |r| ==> r[i].id != r[j].id
  {
  }

  /** When every entry passes, the scan keeps them all. */
  lemma {:induction false} ScanKeepsAll(db: Db, fp: string, threshold: real, k: nat)
    requires k <= |db|
    requires forall j :: k <= j < |db| ==> MatchAt(db, fp, j).similarity >= threshold
    ensures |Scan(db, fp, threshold, k)| == |db| - k
    decreases |db| - k
  {
    if k < |db| {
      ScanKeepsAll(db, fp, threshold, k + 1);
    }
  }

  /** A threshold of 0 or below returns every entry, since no score is negative. */
  lemma NonPositiveThresholdKeepsAll(db: Db, fp: string, threshold: real)
    requires threshold <= 0.0
    ensures |FindSimilar(db, fp, threshold)| == |db|
    ensures forall j :: 0 <= j < |db| ==> MatchAt(db, fp, j) in FindSimilar(db, fp, threshold)
  {
    ScanKeepsAll(db, fp, threshold, 0);
    var found := Scan(db, fp, threshold, 0);
    assert |multiset(SortDescending(found))| == |multiset(found)|;
  }

  /** A threshold above 100 returns nothing, since no score exceeds 100. */
  lemma ThresholdAboveHundredFindsNothing(db: Db, fp: string, threshold: real)
    requires threshold > 100.0
    ensures FindSimilar(db, fp, threshold) == []
  {
  }

  /** At threshold 100 the hits are exactly the entries whose fingerprints have no both-empty
      aligned pair and agree on the overlap of every aligned pair. */
  lemma PerfectThreshold(db: Db, fp: string, j: nat)
    requires j < |db|
    ensures var c1 := Components(fp);
      var c2 := Components(db[j].record.fingerprint);
      MatchAt(db, fp, j) in FindSimilar(db, fp, 100.0) <==>
        && !EmptyAlignedPair(c1, c2)
        && forall i :: 0 <= i < |c1| && i < |c2| ==> AgreeOnOverlap(c1[i], c2[i])
  {
    FullScore(fp, db[j].record.fingerprint);
    RankOfEntry(db, j);
  }

  /** An empty database finds nothing. */
  lemma EmptyDatabaseFindsNothing(fp: string, threshold: real)
    ensures FindSimilar([], fp, threshold) == []
  {
  }

  /** After clearing, no query finds anything, and the next sighting starts a record afresh. */
  lemma ClearForgets(db: Db, fp: string, threshold: real, hexDigest: string -> string, info: ImageInfo,
                     firstSeen: string, stamp: string)
    ensures FindSimilar(Clear(db), fp, threshold) == []
    ensures AddFingerprint(Clear(db), hexDigest, fp, info, firstSeen, stamp)
         == [Entry(FpId(hexDigest, fp), Record(fp, info.filename, firstSeen, [NewLocation(info, stamp)], 1))]
  {
  }

  /** Look up before recording: the first sighting of a fingerprint does not find its own record;
      a second sighting finds it with score 100, after which the record counts two sightings at
      the two locations in order. The fingerprint's components must be non-empty. */
  lemma RepeatedSighting(db0: Db, hexDigest: string -> string, fp: string, threshold: real,
                         info1: ImageInfo, seen1: string, stamp1: string,
                         info2: ImageInfo, seen2: string, stamp2: string)
    requires FpId(hexDigest, fp) !in Ids(db0)
    requires NoEmptyComponent(Components(fp))
    requires threshold <= 100.0
    ensures var id := FpId(hexDigest, fp);
      var db1 := AddFingerprint(db0, hexDigest, fp, info1, seen1, stamp1);
      var db2 := AddFingerprint(db1, hexDigest, fp, info2, seen2, stamp2);
      && (forall m :: m in FindSimilar(db0, fp, threshold) ==> m.id != id)
      && Match(id, 100.0, db1[|db0|].record) in FindSimilar(db1, fp, threshold)
      && db1[|db0|].record.count == 1
      && db2[|db0|].record.count == 2
      && db2[|db0|].record.locations == [NewLocation(info1, stamp1), NewLocation(info2, stamp2)]
  {
    var id := FpId(hexDigest, fp);
    var db1 := AddFingerprint(db0, hexDigest, fp, info1, seen1, stamp1);
    SimilarityReflexive(fp);
    assert MatchAt(db1, fp, |db0|) == Match(id, 100.0, db1[|db0|].record);
    RankOfEntry(db1, |db0|);
    assert Rank(db1, id) == |db0|;
  }
}
