/**
  What the reader's queries compute, stated over the abstract index: the distinct
  document IDs, the top-K terms by total term frequency, and the conjunctive query.
 */
module Queries {
  import opened JavaStrings
  import opened Postings
  import opened Indexing

  // ---------------------------------------------------------------------------
  // Distinct document IDs
  // ---------------------------------------------------------------------------

  /** Every document ID that occurs in some term's postings. */
  ghost function AllDocIds(idx: Index): set<string> {
    set t, d | t in idx && d in idx[t].docs :: d
  }

  /** The document IDs that occur in the postings of the terms of `ts`. */
  ghost function DocIdsOf(idx: Index, ts: set<string>): set<string> {
    set t, d | t in ts && t in idx && d in idx[t].docs :: d
  }

  /** Taking in one more term adds exactly that term's document IDs. */
  lemma DocIdsOfAdd(idx: Index, ts: set<string>, t: string)
    requires t in idx
    ensures DocIdsOf(idx, ts + {t}) == DocIdsOf(idx, ts) + idx[t].docs.Keys
  {
    forall d | d in DocIdsOf(idx, ts + {t})
      ensures d in DocIdsOf(idx, ts) + idx[t].docs.Keys
    {
      var u :| u in ts + {t} && u in idx && d in idx[u].docs;
      if u != t {
        assert d in DocIdsOf(idx, ts);
      }
    }
  }

  /** With every term taken in, the union is the set of all document IDs. */
  lemma DocIdsOfAll(idx: Index, ts: set<string>)
    requires ts == idx.Keys
    ensures DocIdsOf(idx, ts) == AllDocIds(idx)
  {
  }

  // ---------------------------------------------------------------------------
  // Top-K by total term frequency
  // ---------------------------------------------------------------------------

  function Min(a: int, b: int): int {
    if a <= b then a else b
  }

  /** A set of numbers is empty or has a member. */
  lemma Member(s: set<int>)
    ensures s == {} || exists v :: v in s
  {
    if !exists v :: v in s {
      assert s == {};
    }
  }

  /** A non-empty set of numbers has a largest element. */
  lemma {:induction false} Largest(s: set<int>) returns (m: int)
    requires s != {}
    ensures m in s && forall v :: v in s ==> v <= m
    decreases |s|
  {
    Member(s);
    var a :| a in s;
    if s == {a} {
      m := a;
    } else {
      var rest := Largest(s - {a});
      assert forall v :: v in s ==> v == a || v in s - {a};
      m := if a > rest then a else rest;
    }
  }

  /** The distinct total term frequencies of the index. */
  ghost function TtfValues(idx: Index): set<int> {
    set t | t in idx :: idx[t].ttf
  }

  /**
    `t` is the first term, in String.compareTo order, among the terms that share its
    total term frequency. Only such terms survive the frequency-keyed sorted set.
   */
  ghost predicate FirstOfItsFrequency(idx: Index, t: string) {
    t in idx && forall u :: u in idx && u != t && idx[u].ttf == idx[t].ttf ==> LexLess(t, u)
  }

  /** Every entry of `r` is the first term of its total term frequency. */
  ghost predicate Survivors(idx: Index, r: seq<string>) {
    forall i :: 0 <= i < |r| ==> FirstOfItsFrequency(idx, r[i])
  }

  /** The entries of `r` are terms of the index in strictly decreasing total term frequency. */
  ghost predicate Decreasing(idx: Index, r: seq<string>) {
    && (forall i :: 0 <= i < |r| ==> r[i] in idx)
    && (forall i, j :: 0 <= i < j < |r| ==> idx[r[i]].ttf > idx[r[j]].ttf)
  }

  /** No total term frequency above that of the last entry is missing from `r`. */
  ghost predicate NoneSkipped(idx: Index, r: seq<string>)
    requires forall i :: 0 <= i < |r| ==> r[i] in idx
  {
    forall u :: u in idx && |r| > 0 && idx[u].ttf > idx[r[|r| - 1]].ttf ==>
      exists i :: 0 <= i < |r| && idx[r[i]].ttf == idx[u].ttf
  }

  /**
    The list getTopK(k) returns when it returns one: as many entries as there are
    distinct total term frequencies, but at most k; strictly decreasing total term
    frequency; each entry the first term of its frequency; and no frequency above the
    last entry's left out. Terms that tie on frequency with an earlier term are lost.
   */
  ghost predicate IsTopK(idx: Index, k: int, r: seq<string>) {
    && |r| == Min(k, |TtfValues(idx)|)
    && Survivors(idx, r)
    && Decreasing(idx, r)
    && NoneSkipped(idx, r)
  }

  /**
    The frequency-keyed sorted set getTopK fills, as a map from total term frequency to
    the one term kept for it: every frequency of the index, each with its first term.
   */
  ghost predicate FrequencyTable(idx: Index, table: map<int, string>) {
    && table.Keys == TtfValues(idx)
    && forall v :: v in table ==> FirstOfItsFrequency(idx, table[v]) && idx[table[v]].ttf == v
  }

  /** The index determines its frequency table. */
  lemma FrequencyTableUnique(idx: Index, t1: map<int, string>, t2: map<int, string>)
    requires FrequencyTable(idx, t1) && FrequencyTable(idx, t2)
    ensures t1 == t2
  {
    forall v | v in t1
      ensures t1[v] == t2[v]
    {
      FirstOfItsFrequencyUnique(idx, t1[v], t2[v]);
    }
  }

  /** In a list meeting IsTopK, no two positions share a total term frequency. */
  lemma TopKFrequenciesDistinct(idx: Index, r: seq<string>, i: nat)
    requires Decreasing(idx, r) && i < |r|
    ensures forall j :: 0 <= j < |r| && j != i ==> idx[r[j]].ttf != idx[r[i]].ttf
  {
    forall j | 0 <= j < |r| && j != i
      ensures idx[r[j]].ttf != idx[r[i]].ttf
    {
      if j < i {
        assert idx[r[j]].ttf > idx[r[i]].ttf;
      } else {
        assert idx[r[i]].ttf > idx[r[j]].ttf;
      }
    }
  }

  /** Of two different terms with the same total term frequency, at most one is listed. */
  lemma TopKDropsTies(idx: Index, k: int, r: seq<string>, t: string, u: string)
    requires IsTopK(idx, k, r)
    requires t in idx && u in idx && t != u && idx[t].ttf == idx[u].ttf
    ensures !(t in r && u in r)
  {
    if t in r {
      var i :| 0 <= i < |r| && r[i] == t;
      TopKFrequenciesDistinct(idx, r, i);
    }
  }

  /** A term is the first of its frequency for at most one term per frequency. */
  lemma FirstOfItsFrequencyUnique(idx: Index, t: string, u: string)
    requires FirstOfItsFrequency(idx, t) && FirstOfItsFrequency(idx, u)
    requires idx[t].ttf == idx[u].ttf
    ensures t == u
  {
    if t != u {
      LexLessAsymmetric(t, u);
    }
  }

  /**
    If two lists meeting IsTopK agree on frequencies before position i, then at i the
    second cannot list a higher frequency than the first: that frequency would have to
    appear earlier in the first list, where the second list has it too.
   */
  lemma TopKFrequencyAtMost(idx: Index, lo: seq<string>, hi: seq<string>, i: nat)
    requires Decreasing(idx, lo) && NoneSkipped(idx, lo) && Decreasing(idx, hi)
    requires i < |lo| && i < |hi|
    requires forall j :: 0 <= j < i ==> idx[lo[j]].ttf == idx[hi[j]].ttf
    ensures idx[hi[i]].ttf <= idx[lo[i]].ttf
  {
    var v := idx[hi[i]].ttf;
    if v > idx[lo[i]].ttf {
      assert false;
    }
  }

  /** Agreement on the first m frequencies extends to the first m + 1. */
  lemma TopKAgreeStep(idx: Index, r1: seq<string>, r2: seq<string>, m: nat)
    requires Decreasing(idx, r1) && NoneSkipped(idx, r1)
    requires Decreasing(idx, r2) && NoneSkipped(idx, r2)
    requires m < |r1| && m < |r2|
    requires forall j :: 0 <= j < m ==> idx[r1[j]].ttf == idx[r2[j]].ttf
    ensures forall j :: 0 <= j <= m ==> idx[r1[j]].ttf == idx[r2[j]].ttf
  {
    TopKFrequencyAtMost(idx, r1, r2, m);
    TopKFrequencyAtMost(idx, r2, r1, m);
  }

  /** Two lists that both meet IsTopK agree at every position on total term frequency. */
  lemma {:induction false} TopKFrequenciesAgree(idx: Index, r1: seq<string>, r2: seq<string>, n: nat)
    requires Decreasing(idx, r1) && NoneSkipped(idx, r1)
    requires Decreasing(idx, r2) && NoneSkipped(idx, r2)
    requires n <= |r1| && n <= |r2|
    ensures forall i :: 0 <= i < n ==> idx[r1[i]].ttf == idx[r2[i]].ttf
    decreases n
  {
    if n > 0 {
      TopKFrequenciesAgree(idx, r1, r2, n - 1);
      TopKAgreeStep(idx, r1, r2, n - 1);
    }
  }

  /** IsTopK determines the list: any two lists that meet it are equal. */
  lemma TopKUnique(idx: Index, k: int, r1: seq<string>, r2: seq<string>)
    requires IsTopK(idx, k, r1) && IsTopK(idx, k, r2)
    ensures r1 == r2
  {
    TopKFrequenciesAgree(idx, r1, r2, |r1|);
    forall i | 0 <= i < |r1|
      ensures r1[i] == r2[i]
    {
      FirstOfItsFrequencyUnique(idx, r1[i], r2[i]);
    }
  }

  // ---------------------------------------------------------------------------
  // Conjunctive query
  // ---------------------------------------------------------------------------

  /** Every term of `ts` is in the index. */
  ghost predicate AllPresent(idx: Index, ts: seq<string>) {
    forall i :: 0 <= i < |ts| ==> ts[i] in idx
  }

  /** The documents in which every term of `ts` occurs. */
  ghost function CommonDocs(idx: Index, ts: seq<string>): set<string>
    requires |ts| > 0 && AllPresent(idx, ts)
  {
    set d | d in idx[ts[0]].docs && forall i :: 0 <= i < |ts| ==> d in idx[ts[i]].docs
  }

  /** The sum, over the terms of `ts` with repetitions, of each term's count in `d`. */
  ghost function SumCounts(idx: Index, ts: seq<string>, d: string): int
    requires AllPresent(idx, ts)
    requires forall i :: 0 <= i < |ts| ==> d in idx[ts[i]].docs
    decreases |ts|
  {
    if ts == [] then 0
    else SumCounts(idx, ts[..|ts| - 1], d) + idx[ts[|ts| - 1]].docs[d]
  }

  /** A query for one term finds that term's postings, counts unchanged. */
  lemma QueryOfOneTerm(idx: Index, t: string)
    requires t in idx
    ensures CommonDocs(idx, [t]) == idx[t].docs.Keys
    ensures forall d :: d in idx[t].docs ==> SumCounts(idx, [t], d) == idx[t].docs[d]
  {
    forall d | d in idx[t].docs
      ensures SumCounts(idx, [t], d) == idx[t].docs[d]
    {
      assert [t][..0] == [];
    }
  }

  /** Repeating a term of the query doubles its contribution to every count. */
  lemma QueryCountsRepeats(idx: Index, ts: seq<string>, t: string, d: string)
    requires AllPresent(idx, ts) && t in idx
    requires forall i :: 0 <= i < |ts| ==> d in idx[ts[i]].docs
    requires d in idx[t].docs
    ensures SumCounts(idx, ts + [t, t], d) == SumCounts(idx, ts, d) + 2 * idx[t].docs[d]
  {
    var once := ts + [t];
    assert (ts + [t, t])[..|ts| + 1] == once;
    assert once[..|ts|] == ts;
  }

  /** Every document a query can return is one of the index's document IDs. */
  lemma CommonDocsAreDocIds(idx: Index, ts: seq<string>)
    requires |ts| > 0 && AllPresent(idx, ts)
    ensures CommonDocs(idx, ts) <= AllDocIds(idx)
  {
    forall d | d in CommonDocs(idx, ts)
      ensures d in AllDocIds(idx)
    {
      assert ts[0] in idx && d in idx[ts[0]].docs;
    }
  }

  // ---------------------------------------------------------------------------
  // Top-K with ties broken by term
  // ---------------------------------------------------------------------------

  /**
    Term `a` with total term frequency `fa` ranks before term `b` with frequency `fb`:
    a higher frequency first, and on equal frequency the term first in String.compareTo
    order.
   */
  predicate Outranks(fa: int, a: string, fb: int, b: string) {
    fa > fb || (fa == fb && LexLess(a, b))
  }

  lemma OutranksTransitive(fa: int, a: string, fb: int, b: string, fc: int, c: string)
    requires Outranks(fa, a, fb, b) && Outranks(fb, b, fc, c)
    ensures Outranks(fa, a, fc, c)
  {
    if fa == fb && fb == fc {
      LexLessTransitive(a, b, c);
    }
  }

  lemma OutranksTotal(fa: int, a: string, fb: int, b: string)
    requires a != b
    ensures Outranks(fa, a, fb, b) || Outranks(fb, b, fa, a)
  {
    if fa == fb {
      LexLessTotal(a, b);
    }
  }

  lemma OutranksAsymmetric(fa: int, a: string, fb: int, b: string)
    requires Outranks(fa, a, fb, b)
    ensures !Outranks(fb, b, fa, a)
  {
    if fa == fb {
      LexLessAsymmetric(a, b);
    }
  }

  /** Term `a` ranks before term `b` of the index. */
  ghost predicate RanksBefore(idx: Index, a: string, b: string)
    requires a in idx && b in idx
  {
    Outranks(idx[a].ttf, a, idx[b].ttf, b)
  }

  /**
    The list a top-K that breaks ties by term returns: the first min(k, number of terms)
    terms of the index in ranking order, with no term outside the list ranking before
    its last entry.
   */
  ghost predicate IsTopKTerms(idx: Index, k: int, r: seq<string>) {
    && |r| == Min(k, |idx|)
    && (forall i :: 0 <= i < |r| ==> r[i] in idx)
    && (forall i, j :: 0 <= i < j < |r| ==> RanksBefore(idx, r[i], r[j]))
    && (forall u :: u in idx && u !in r && |r| > 0 ==> RanksBefore(idx, r[|r| - 1], u))
  }

  /** Such a list holds no term twice. */
  lemma TopKTermsDistinct(idx: Index, k: int, r: seq<string>)
    requires IsTopKTerms(idx, k, r)
    ensures forall i, j :: 0 <= i < j < |r| ==> r[i] != r[j]
  {
    forall i, j | 0 <= i < j < |r|
      ensures r[i] != r[j]
    {
      assert RanksBefore(idx, r[i], r[j]);
      if r[i] == r[j] {
        OutranksAsymmetric(idx[r[i]].ttf, r[i], idx[r[j]].ttf, r[j]);
      }
    }
  }

  /** `x` is the term of the index that ranks first among those not in `prefix`. */
  ghost predicate RankedFirstAfter(idx: Index, prefix: seq<string>, x: string) {
    x in idx && x !in prefix && forall u :: u in idx && u !in prefix && u != x ==> RanksBefore(idx, x, u)
  }

  /** Each entry of such a list is the best-ranked term not listed before it. */
  lemma TopKTermsEntry(idx: Index, k: int, r: seq<string>, i: int)
    requires IsTopKTerms(idx, k, r) && 0 <= i < |r|
    ensures RankedFirstAfter(idx, r[..i], r[i])
  {
    TopKTermsDistinct(idx, k, r);
    var last := r[|r| - 1];
    assert forall j :: 0 <= j < i ==> r[..i][j] == r[j];
    forall u | u in idx && u !in r[..i] && u != r[i]
      ensures RanksBefore(idx, r[i], u)
    {
      if u in r {
        var j :| 0 <= j < |r| && r[j] == u;
        assert i < j;
      } else if i < |r| - 1 {
        OutranksTransitive(idx[r[i]].ttf, r[i], idx[last].ttf, last, idx[u].ttf, u);
      }
    }
  }

  /** IsTopKTerms determines the list: any two lists that meet it are equal. */
  lemma {:induction false} TopKTermsUnique(idx: Index, k: int, r1: seq<string>, r2: seq<string>)
    requires IsTopKTerms(idx, k, r1) && IsTopKTerms(idx, k, r2)
    ensures r1 == r2
  {
    var i := 0;
    while i < |r1|
      invariant 0 <= i <= |r1| && r1[..i] == r2[..i]
    {
      TopKTermsEntry(idx, k, r1, i);
      TopKTermsEntry(idx, k, r2, i);
      if r1[i] != r2[i] {
        OutranksAsymmetric(idx[r1[i]].ttf, r1[i], idx[r2[i]].ttf, r2[i]);
        assert false;
      }
      assert r1[..i + 1] == r1[..i] + [r1[i]] && r2[..i + 1] == r2[..i] + [r2[i]];
      i := i + 1;
    }
    assert r1 == r1[..i] && r2 == r2[..i];
  }

  /** `freqs` gives each term of the index its total term frequency. */
  ghost predicate FrequenciesOf(idx: Index, freqs: map<string, int>) {
    freqs.Keys == idx.Keys && forall t :: t in idx ==> freqs[t] == idx[t].ttf
  }

  /** `t` ranks before every other term of `rest`. */
  predicate TopAmong(freqs: map<string, int>, rest: set<string>, t: string)
    requires rest <= freqs.Keys
  {
    t in rest && forall u :: u in rest && u != t ==> Outranks(freqs[t], t, freqs[u], u)
  }

  /** Every non-empty set of terms has a term that ranks before all the others. */
  lemma {:induction false} TopAmongOf(freqs: map<string, int>, rest: set<string>) returns (t: string)
    requires rest <= freqs.Keys && rest != {}
    ensures TopAmong(freqs, rest, t)
    decreases |rest|
  {
    var a :| a in rest;
    if rest == {a} {
      t := a;
    } else {
      var b := TopAmongOf(freqs, rest - {a});
      if Outranks(freqs[a], a, freqs[b], b) {
        forall u | u in rest && u != a
          ensures Outranks(freqs[a], a, freqs[u], u)
        {
          if u != b {
            OutranksTransitive(freqs[a], a, freqs[b], b, freqs[u], u);
          }
        }
        t := a;
      } else {
        OutranksTotal(freqs[a], a, freqs[b], b);
        t := b;
      }
    }
  }

  // ---------------------------------------------------------------------------
  // Two terms tied on total term frequency
  // ---------------------------------------------------------------------------

  /** An index of two terms, "a" and "b", each seen once in the same document. */
  function TiedIndex(): (idx: Index)
    ensures idx.Keys == {"a", "b"} && |idx| == 2
  {
    map["a" := PostingValue(map["d" := 1], 1, 1), "b" := PostingValue(map["d" := 1], 1, 1)]
  }

  /** Both terms of the tied index have total term frequency 1, and "a" sorts before "b". */
  lemma TiedIndexFacts()
    ensures TtfValues(TiedIndex()) == {1}
    ensures LexLess("a", "b") && !LexLess("b", "a")
  {
    var idx := TiedIndex();
    assert idx["a"].ttf == 1;
  }

  /**
    getTopK(2) on the tied index can only return ["a"]: "b" compares equal to "a" in
    the frequency-keyed set and is lost, although the index has two terms.
   */
  lemma TopKDropsTiedTerm(r: seq<string>)
    requires IsTopK(TiedIndex(), 2, r)
    ensures r == ["a"] && |r| < Min(2, |TiedIndex()|)
  {
    TiedIndexFacts();
    assert |r| == 1;
    assert FirstOfItsFrequency(TiedIndex(), r[0]);
    assert r[0] == "a";
    assert r == [r[0]];
  }

  /** Broken by term, the tie keeps both terms: the only such list is "a" then "b". */
  lemma TopKTermsKeepsTiedTerm(r: seq<string>)
    requires IsTopKTerms(TiedIndex(), 2, r)
    ensures r == ["a", "b"] && |r| == Min(2, |TiedIndex()|)
  {
    TiedIndexFacts();
    assert IsTopKTerms(TiedIndex(), 2, ["a", "b"]);
    TopKTermsUnique(TiedIndex(), 2, r, ["a", "b"]);
  }
}
