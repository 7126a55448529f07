/**
  What the writer does to its term-to-posting map: one token occurrence at a time,
  one token stream at a time, and one document's streams in field order.
 */
module Indexing {
  import opened Wrappers
  import opened Postings

  /** The index's abstract state: each term's posting value. */
  type Index = map<string, PostingValue>

  ghost predicate IndexWellFormed(idx: Index) {
    forall t :: t in idx ==> WellFormed(idx[t])
  }

  /** Total term frequency of `t`, zero for a term not in the index. */
  function TtfIn(idx: Index, t: string): int {
    if t in idx then idx[t].ttf else 0
  }

  /** How often `t` occurs in document `d`, zero when it does not. */
  function CountIn(idx: Index, t: string, d: string): int {
    if t in idx && d in idx[t].docs then idx[t].docs[d] else 0
  }

  // ---------------------------------------------------------------------------
  // One occurrence, one stream
  // ---------------------------------------------------------------------------

  /** The index after one occurrence of term `t` in document `d`. */
  function AddOccurrence(idx: Index, t: string, d: string): (r: Index)
    ensures t in r && r[t].ttf == (if t in idx then idx[t].ttf else 0) + 1
    ensures CountIn(r, t, d) == CountIn(idx, t, d) + 1
  {
    if t !in idx then
      idx[t := PostingValue(map[d := 1], 1, 1)]
    else
      var p := idx[t];
      var count := if d in p.docs then p.docs[d] + 1 else 1;
      var docs := p.docs[d := count];
      idx[t := PostingValue(docs, p.ttf + 1, |docs|)]
  }

  /** A new term gets the posting {d: 1} with both counters 1. */
  lemma AddOccurrenceNewTerm(idx: Index, t: string, d: string)
    requires t !in idx
    ensures AddOccurrence(idx, t, d)[t] == PostingValue(map[d := 1], 1, 1)
  {
  }

  /**
    For a known term, the count for `d` goes up by one (from zero when absent), the
    other documents keep their counts, ttf goes up by one and tdf is the new number
    of documents.
   */
  lemma AddOccurrenceKnownTerm(idx: Index, t: string, d: string)
    requires t in idx
    ensures var q := AddOccurrence(idx, t, d)[t];
      && q.docs.Keys == idx[t].docs.Keys + {d}
      && q.docs[d] == CountIn(idx, t, d) + 1
      && (forall e :: e in q.docs && e != d ==> q.docs[e] == idx[t].docs[e])
      && q.ttf == idx[t].ttf + 1
      && q.tdf == |q.docs|
  {
  }

  /** Only the entry of `t` changes, and the terms grow by `t` at most. */
  lemma AddOccurrenceFrame(idx: Index, t: string, d: string)
    ensures AddOccurrence(idx, t, d).Keys == idx.Keys + {t}
    ensures forall u :: u in idx && u != t ==> AddOccurrence(idx, t, d)[u] == idx[u]
  {
  }

  lemma AddOccurrencePreservesWellFormed(idx: Index, t: string, d: string)
    requires IndexWellFormed(idx)
    ensures IndexWellFormed(AddOccurrence(idx, t, d))
  {
    var r := AddOccurrence(idx, t, d);
    if t !in idx {
      var m := map[d := 1];
      SumOfCountsRemove(m, d);
      assert m - {d} == map[];
      assert WellFormed(r[t]);
    } else {
      var p := idx[t];
      var count := if d in p.docs then p.docs[d] + 1 else 1;
      SumOfCountsUpdate(p.docs, d, count);
      assert WellFormed(r[t]);
    }
  }

  /** The index after the token stream `ts` of document `d`, folded in order. */
  function FoldTokens(idx: Index, ts: seq<string>, d: string): (r: Index)
    ensures idx.Keys <= r.Keys
    decreases |ts|
  {
    if ts == [] then idx
    else AddOccurrence(FoldTokens(idx, ts[..|ts| - 1], d), ts[|ts| - 1], d)
  }

  lemma {:induction false} FoldTokensPreservesWellFormed(idx: Index, ts: seq<string>, d: string)
    requires IndexWellFormed(idx)
    ensures IndexWellFormed(FoldTokens(idx, ts, d))
    decreases |ts|
  {
    if ts != [] {
      FoldTokensPreservesWellFormed(idx, ts[..|ts| - 1], d);
      AddOccurrencePreservesWellFormed(FoldTokens(idx, ts[..|ts| - 1], d), ts[|ts| - 1], d);
    }
  }

  /** Folding a stream adds exactly the stream's terms to the index. */
  lemma {:induction false} FoldTokensKeys(idx: Index, ts: seq<string>, d: string)
    ensures forall u :: u in FoldTokens(idx, ts, d) <==> u in idx || u in ts
    decreases |ts|
  {
    if ts != [] {
      var front := ts[..|ts| - 1];
      assert ts == front + [ts[|ts| - 1]];
      FoldTokensKeys(idx, front, d);
    }
  }

  /**
    Folding a stream for `d` raises each term's ttf and its count for `d` by exactly
    its number of occurrences in the stream, and leaves the counts of other documents.
   */
  lemma {:induction false} FoldTokensCounts(idx: Index, ts: seq<string>, d: string, u: string)
    ensures TtfIn(FoldTokens(idx, ts, d), u) == TtfIn(idx, u) + multiset(ts)[u]
    ensures CountIn(FoldTokens(idx, ts, d), u, d) == CountIn(idx, u, d) + multiset(ts)[u]
    ensures forall e :: e != d ==> CountIn(FoldTokens(idx, ts, d), u, e) == CountIn(idx, u, e)
    decreases |ts|
  {
    if ts != [] {
      var front, t := ts[..|ts| - 1], ts[|ts| - 1];
      assert ts == front + [t];
      assert multiset(ts) == multiset(front) + multiset{t};
      FoldTokensCounts(idx, front, d, u);
    }
  }

  /** A term that does not occur in the stream keeps its posting. */
  lemma {:induction false} FoldTokensUntouched(idx: Index, ts: seq<string>, d: string, u: string)
    requires u in idx && u !in ts
    ensures u in FoldTokens(idx, ts, d) && FoldTokens(idx, ts, d)[u] == idx[u]
    decreases |ts|
  {
    if ts != [] {
      var front := ts[..|ts| - 1];
      assert ts == front + [ts[|ts| - 1]];
      FoldTokensUntouched(idx, front, d, u);
    }
  }

  /** Folding two streams one after the other is folding their concatenation. */
  lemma {:induction false} FoldTokensAppend(idx: Index, a: seq<string>, b: seq<string>, d: string)
    ensures FoldTokens(idx, a + b, d) == FoldTokens(FoldTokens(idx, a, d), b, d)
    decreases |b|
  {
    if b == [] {
      assert a + b == a;
    } else {
      assert (a + b)[..|a + b| - 1] == a + b[..|b| - 1];
      FoldTokensAppend(idx, a, b[..|b| - 1], d);
    }
  }

  // ---------------------------------------------------------------------------
  // Documents and the token streams they yield
  // ---------------------------------------------------------------------------

  datatype FieldName = Title | Author | AuthorOrg | Category | Content | NewsDate | Place | FileId

  /** A document: the values of each field it has; a field it lacks is not a key. */
  type Document = map<FieldName, seq<string>>

  /**
    The tokenizer and the field's analyzer chain, run to completion on one raw value:
    the normalized token strings, or None for a tokenizer error.
   */
  type Analyzer = (FieldName, string) -> Option<seq<string>>

  /** The fields indexed after the title, in the order they are indexed. */
  const IndexedFields: seq<FieldName> := [Author, AuthorOrg, Category, Content, NewsDate, Place]

  /** The tokens of the values `vs` of field `f`; a value that fails to tokenize contributes none. */
  function ValueTokens(analyze: Analyzer, f: FieldName, vs: seq<string>): (r: seq<string>)
    ensures forall j :: 0 <= j < |vs| && analyze(f, vs[j]).Some? ==> multiset(analyze(f, vs[j]).value) <= multiset(r)
    decreases |vs|
  {
    if vs == [] then []
    else
      ValueTokens(analyze, f, vs[..|vs| - 1])
      + (match analyze(f, vs[|vs| - 1]) case Some(ts) => ts case None => [])
  }

  /** The tokens of the fields `fs` of `doc` in that order; absent fields are skipped. */
  function FieldTokens(analyze: Analyzer, doc: Document, fs: seq<FieldName>): (r: seq<string>)
    ensures forall i :: 0 <= i < |fs| && fs[i] in doc ==> multiset(ValueTokens(analyze, fs[i], doc[fs[i]])) <= multiset(r)
    decreases |fs|
  {
    if fs == [] then []
    else
      var f := fs[|fs| - 1];
      FieldTokens(analyze, doc, fs[..|fs| - 1])
      + (if f in doc then ValueTokens(analyze, f, doc[f]) else [])
  }

  /** A document whose title is present has at least one title value. */
  predicate HasUsableTitle(doc: Document) {
    Title in doc ==> |doc[Title]| > 0
  }

  /**
    All tokens that adding `doc` folds in, in order: the first title value's tokens,
    then the indexed fields; None when the title fails to tokenize.
   */
  function DocumentTokens(analyze: Analyzer, doc: Document): (r: Option<seq<string>>)
    requires HasUsableTitle(doc)
    ensures r.None? <==> Title in doc && analyze(Title, doc[Title][0]).None?
    ensures r.Some? ==> var rest := FieldTokens(analyze, doc, IndexedFields);
      |rest| <= |r.value| && r.value[|r.value| - |rest|..] == rest
    ensures r.Some? && Title in doc ==> analyze(Title, doc[Title][0]).value <= r.value
    ensures r.Some? ==> |r.value| == (if Title in doc then |analyze(Title, doc[Title][0]).value| else 0) + |FieldTokens(analyze, doc, IndexedFields)|
  {
    var rest := FieldTokens(analyze, doc, IndexedFields);
    if Title !in doc then Some(rest)
    else match analyze(Title, doc[Title][0])
      case None => None
      case Some(ts) => Some(ts + rest)
  }

  lemma {:induction false} ValueTokensSameOutcome(analyze: Analyzer, analyze2: Analyzer, f: FieldName, v: string, g: FieldName, vs: seq<string>)
    requires analyze(f, v).None? && analyze2(f, v) == Some([])
    requires forall h, w :: h != f || w != v ==> analyze2(h, w) == analyze(h, w)
    ensures ValueTokens(analyze, g, vs) == ValueTokens(analyze2, g, vs)
    decreases |vs|
  {
    if vs != [] {
      ValueTokensSameOutcome(analyze, analyze2, f, v, g, vs[..|vs| - 1]);
      if g != f || vs[|vs| - 1] != v {
        assert analyze2(g, vs[|vs| - 1]) == analyze(g, vs[|vs| - 1]);
      }
    }
  }

  lemma {:induction false} FieldTokensSameOutcome(analyze: Analyzer, analyze2: Analyzer, f: FieldName, v: string, doc: Document, fs: seq<FieldName>)
    requires analyze(f, v).None? && analyze2(f, v) == Some([])
    requires forall h, w :: h != f || w != v ==> analyze2(h, w) == analyze(h, w)
    ensures FieldTokens(analyze, doc, fs) == FieldTokens(analyze2, doc, fs)
    decreases |fs|
  {
    if fs != [] {
      FieldTokensSameOutcome(analyze, analyze2, f, v, doc, fs[..|fs| - 1]);
      var g := fs[|fs| - 1];
      if g in doc {
        ValueTokensSameOutcome(analyze, analyze2, f, v, g, doc[g]);
      }
    }
  }

  /**
    A tokenizer error on a value of a field other than the title has the same effect
    as that value yielding no tokens: the value is dropped and the rest goes on.
   */
  lemma TokenizerErrorDropsOnlyThatValue(analyze: Analyzer, analyze2: Analyzer, f: FieldName, v: string, doc: Document)
    requires HasUsableTitle(doc)
    requires f != Title
    requires analyze(f, v).None? && analyze2(f, v) == Some([])
    requires forall h, w :: h != f || w != v ==> analyze2(h, w) == analyze(h, w)
    ensures DocumentTokens(analyze, doc) == DocumentTokens(analyze2, doc)
  {
    FieldTokensSameOutcome(analyze, analyze2, f, v, doc, IndexedFields);
    if Title in doc {
      assert analyze2(Title, doc[Title][0]) == analyze(Title, doc[Title][0]);
    }
  }

  /** A well-formed posting that holds `d1` and `d2` and no other document has tdf 2. */
  lemma TwoDocumentPosting(p: PostingValue, d1: string, d2: string)
    requires WellFormed(p) && d1 != d2 && d1 in p.docs && d2 in p.docs
    requires forall e :: e != d1 && e != d2 ==> e !in p.docs
    ensures p.docs.Keys == {d1, d2} && p.tdf == 2
  {
    assert p.docs.Keys == {d1, d2};
  }

  /**
    Indexing the same token stream for two different documents into an index that
    lacks a term of the stream leaves that term with exactly those two documents.
   */
  lemma SameStreamTwoDocuments(idx: Index, ts: seq<string>, d1: string, d2: string, t: string)
    requires IndexWellFormed(idx)
    requires d1 != d2 && t in ts && t !in idx
    ensures var r := FoldTokens(FoldTokens(idx, ts, d1), ts, d2);
      t in r && r[t].docs.Keys == {d1, d2} && r[t].tdf == 2
  {
    var mid := FoldTokens(idx, ts, d1);
    var r := FoldTokens(mid, ts, d2);
    FoldTokensPreservesWellFormed(idx, ts, d1);
    FoldTokensPreservesWellFormed(mid, ts, d2);
    FoldTokensKeys(mid, ts, d2);
    FoldTokensCounts(idx, ts, d1, t);
    FoldTokensCounts(mid, ts, d2, t);
    assert multiset(ts)[t] > 0;
    var p := r[t];
    assert WellFormed(p);
    assert CountIn(r, t, d1) > 0 && CountIn(r, t, d2) > 0;
    forall e | e != d1 && e != d2
      ensures e !in p.docs
    {
      assert CountIn(r, t, e) == CountIn(mid, t, e) == CountIn(idx, t, e) == 0;
    }
    TwoDocumentPosting(p, d1, d2);
  }

  /** Moving one pending term into an index keeps the split of `all` into indexed and pending terms. */
  lemma MoveOne(done: Index, rest: set<string>, all: set<string>, x: string, p: PostingValue)
    requires done.Keys !! rest && done.Keys + rest == all && x in rest
    ensures done[x := p].Keys !! (rest - {x}) && done[x := p].Keys + (rest - {x}) == all
  {
    assert done[x := p].Keys == done.Keys + {x};
  }

  /** Two indexes with the same terms and the same posting for each term are equal. */
  lemma SameIndex(a: Index, b: Index)
    requires a.Keys == b.Keys
    requires forall t :: t in a ==> a[t] == b[t]
    ensures a == b
  {
  }

  /** For a known term, one more occurrence replaces its posting by the updated one. */
  lemma AddOccurrenceUpdate(idx: Index, t: string, d: string, docs: map<string, int>)
    requires t in idx
    requires docs == idx[t].docs[d := if d in idx[t].docs then idx[t].docs[d] + 1 else 1]
    ensures AddOccurrence(idx, t, d) == idx[t := PostingValue(docs, idx[t].ttf + 1, |docs|)]
  {
  }

  /** Folding one more token of a stream is one more occurrence. */
  lemma FoldTokensStep(idx: Index, ts: seq<string>, i: nat, d: string)
    requires i < |ts|
    ensures FoldTokens(idx, ts[..i + 1], d) == AddOccurrence(FoldTokens(idx, ts[..i], d), ts[i], d)
  {
    assert ts[..i + 1][..i] == ts[..i];
  }

  /** Folding the tokens of one more value: its tokens when it tokenizes, nothing otherwise. */
  lemma FoldValueStep(idx: Index, analyze: Analyzer, f: FieldName, vs: seq<string>, j: nat, d: string)
    requires j < |vs|
    ensures var before := FoldTokens(idx, ValueTokens(analyze, f, vs[..j]), d);
      && (analyze(f, vs[j]).Some? ==> FoldTokens(idx, ValueTokens(analyze, f, vs[..j + 1]), d) == FoldTokens(before, analyze(f, vs[j]).value, d))
      && (analyze(f, vs[j]).None? ==> FoldTokens(idx, ValueTokens(analyze, f, vs[..j + 1]), d) == before)
  {
    assert vs[..j + 1][..j] == vs[..j];
    var done := ValueTokens(analyze, f, vs[..j]);
    if analyze(f, vs[j]).Some? {
      FoldTokensAppend(idx, done, analyze(f, vs[j]).value, d);
    } else {
      assert done + [] == done;
    }
  }

  /** Folding the tokens of one more field: its values' tokens when present, nothing otherwise. */
  lemma FoldFieldStep(idx: Index, analyze: Analyzer, doc: Document, fs: seq<FieldName>, i: nat, d: string)
    requires i < |fs|
    ensures var before := FoldTokens(idx, FieldTokens(analyze, doc, fs[..i]), d);
      && (fs[i] in doc ==> FoldTokens(idx, FieldTokens(analyze, doc, fs[..i + 1]), d) == FoldTokens(before, ValueTokens(analyze, fs[i], doc[fs[i]]), d))
      && (fs[i] !in doc ==> FoldTokens(idx, FieldTokens(analyze, doc, fs[..i + 1]), d) == before)
  {
    assert fs[..i + 1][..i] == fs[..i];
    var done := FieldTokens(analyze, doc, fs[..i]);
    if fs[i] in doc {
      FoldTokensAppend(idx, done, ValueTokens(analyze, fs[i], doc[fs[i]]), d);
    } else {
      assert done + [] == done;
    }
  }
}
