/**
  One term's statistics: how often it occurs in each document, how often in
  total (total term frequency) and in how many documents (total document frequency).
 */
module Postings {

  /**
    The value held by a Posting object: `docs` is its individual postings map
    (document ID to occurrence count), `ttf` its total term frequency and `tdf`
    its total document frequency.
   */
  datatype PostingValue = PostingValue(docs: map<string, int>, ttf: int, tdf: int)

  /** The sum of the counts of a per-document map. */
  ghost function SumOfCounts(m: map<string, int>): int
    decreases |m|
  {
    if m == map[] then 0
    else
      var k :| k in m;
      m[k] + SumOfCounts(m - {k})
  }

  /** Taking out any one document leaves the sum of the others. */
  lemma {:induction false} SumOfCountsRemove(m: map<string, int>, k: string)
    requires k in m
    ensures SumOfCounts(m) == m[k] + SumOfCounts(m - {k})
    decreases |m|
  {
    var j :| j in m && SumOfCounts(m) == m[j] + SumOfCounts(m - {j});
    if j != k {
      SumOfCountsRemove(m - {j}, k);
      SumOfCountsRemove(m - {k}, j);
      assert m - {j} - {k} == m - {k} - {j};
    }
  }

  /** Setting one document's count changes the sum by the difference. */
  lemma SumOfCountsUpdate(m: map<string, int>, k: string, v: int)
    ensures SumOfCounts(m[k := v]) == SumOfCounts(m) - (if k in m then m[k] else 0) + v
  {
    SumOfCountsRemove(m[k := v], k);
    if k in m {
      SumOfCountsRemove(m, k);
      assert m[k := v] - {k} == m - {k};
    } else {
      assert m[k := v] - {k} == m;
    }
  }

  /** With every count at least one, the sum is at least the number of documents. */
  lemma {:induction false} SumOfCountsAtLeastSize(m: map<string, int>)
    requires forall d :: d in m ==> m[d] >= 1
    ensures SumOfCounts(m) >= |m|
    decreases |m|
  {
    if m != map[] {
      var k :| k in m;
      SumOfCountsRemove(m, k);
      SumOfCountsAtLeastSize(m - {k});
    }
  }

  /**
    The invariant the writer keeps for every term: at least one document, every count
    positive, tdf the number of documents and ttf the sum of the counts.
   */
  ghost predicate WellFormed(p: PostingValue) {
    && |p.docs| > 0
    && (forall d :: d in p.docs ==> p.docs[d] >= 1)
    && p.tdf == |p.docs|
    && p.ttf == SumOfCounts(p.docs)
  }

  /** A well-formed posting has ttf >= tdf >= 1. */
  lemma WellFormedBounds(p: PostingValue)
    requires WellFormed(p)
    ensures p.ttf >= p.tdf >= 1
  {
    SumOfCountsAtLeastSize(p.docs);
  }

  /** A term's posting: three fields with a setter each, ordered by total term frequency. */
  class Posting {
    var individualPostingsMap: map<string, int>
    var totalTermFreq: int
    var totalDocumentFreq: int

    /** A fresh posting: no documents, both counters zero. */
    constructor ()
      ensures Value() == PostingValue(map[], 0, 0)
    {
      individualPostingsMap := map[];
      totalTermFreq := 0;
      totalDocumentFreq := 0;
    }

    function Value(): PostingValue
      reads this
    {
      PostingValue(individualPostingsMap, totalTermFreq, totalDocumentFreq)
    }

    /**
      compareTo: the other posting's total term frequency minus this one's, so that
      the posting with the higher total term frequency sorts first.
     */
    function CompareTo(other: Posting): (r: int)
      reads this, other
      ensures r < 0 <==> totalTermFreq > other.totalTermFreq
      ensures r == 0 <==> totalTermFreq == other.totalTermFreq
      ensures r > 0 <==> totalTermFreq < other.totalTermFreq
    {
      other.totalTermFreq - totalTermFreq
    }

    method SetIndividualPostingsMap(individualPostings: map<string, int>)
      modifies this
      ensures Value() == old(Value()).(docs := individualPostings)
    {
      individualPostingsMap := individualPostings;
    }

    method SetTotalTermFreq(totalTermFreq: int)
      modifies this
      ensures Value() == old(Value()).(ttf := totalTermFreq)
    {
      this.totalTermFreq := totalTermFreq;
    }

    method SetTotalDocumentFreq(totalDocumentFreq: int)
      modifies this
      ensures Value() == old(Value()).(tdf := totalDocumentFreq)
    {
      this.totalDocumentFreq := totalDocumentFreq;
    }
  }

  /** The ordering is antisymmetric: swapping the operands negates the comparison. */
  lemma CompareToAntisymmetric(a: Posting, b: Posting)
    ensures a.CompareTo(b) == -b.CompareTo(a)
  {
  }

  /** Every posting compares equal to itself. */
  lemma CompareToReflexive(a: Posting)
    ensures a.CompareTo(a) == 0
  {
  }

  /** Sorting first is transitive, and so is comparing equal. */
  lemma CompareToTransitive(a: Posting, b: Posting, c: Posting)
    ensures a.CompareTo(b) < 0 && b.CompareTo(c) < 0 ==> a.CompareTo(c) < 0
    ensures a.CompareTo(b) == 0 && b.CompareTo(c) == 0 ==> a.CompareTo(c) == 0
  {
  }

  /** Equality under the ordering depends only on the total term frequencies. */
  lemma CompareToIgnoresDocuments(a: Posting, b: Posting)
    ensures a.CompareTo(b) == 0 <==> a.Value().ttf == b.Value().ttf
  {
  }
}
