/**
  The index writer: an in-memory map from term to a mutable Posting, filled document by
  document and written out on close as one text value per term.
 */
module Writer {
  import opened Wrappers
  import opened JavaStrings
  import opened Postings
  import opened Indexing
  import opened IndexFormat

  /** The checked exception addDocument and close may throw. */
  datatype IndexerException = IndexerException

  class IndexWriter {
    var inMemIndex: map<string, Posting>
    /** The value of every term's posting. */
    ghost var index: Index
    /** The Posting objects the map refers to. */
    ghost var Repr: set<Posting>

    /**
      The map holds, for each term of `index`, a Posting of that value, and no Posting
      object is shared between two terms, so updating one term's posting leaves every
      other term alone.
     */
    ghost predicate Sound()
      reads this, Repr
    {
      && inMemIndex.Keys == index.Keys
      && (forall t :: t in inMemIndex ==> inMemIndex[t] in Repr && inMemIndex[t].Value() == index[t])
      && (forall t, u :: t in inMemIndex && u in inMemIndex && t != u ==> inMemIndex[t] != inMemIndex[u])
    }

    /** The writer's invariant: sound, and every posting well formed. */
    ghost predicate Valid()
      reads this, Repr
    {
      Sound() && IndexWellFormed(index)
    }

    /** A writer starts with an empty index. */
    constructor ()
      ensures Valid() && index == map[]
    {
      inMemIndex := map[];
      index := map[];
      Repr := {};
    }

    /**
      addDocument: index the first title value (a tokenizer error there aborts with
      IndexerException before anything is indexed), then every value of the indexed
      fields in order, skipping a value the tokenizer rejects. On success the index is
      the old one with all of the document's tokens folded in under its file ID.
     */
    method AddDocument(doc: Document, analyze: Analyzer) returns (r: Outcome<IndexerException>)
      requires Valid()
      requires FileId in doc && |doc[FileId]| > 0
      requires HasUsableTitle(doc)
      modifies this, Repr
      ensures Valid() && fresh(Repr - old(Repr))
      ensures r.Fail? <==> DocumentTokens(analyze, doc).None?
      ensures r.Fail? ==> index == old(index)
      ensures r.Pass? ==> index == FoldTokens(old(index), DocumentTokens(analyze, doc).value, doc[FileId][0])
    {
      var docID := doc[FileId][0];
      ghost var titleTokens: seq<string> := [];
      if Title in doc {
        r := AddTitleToIndex(doc[Title][0], docID, analyze);
        if r.Fail? {
          return;
        }
        titleTokens := analyze(Title, doc[Title][0]).value;
      }
      IndexFields(doc, docID, analyze);
      FoldTokensAppend(old(index), titleTokens, FieldTokens(analyze, doc, IndexedFields), docID);
      assert DocumentTokens(analyze, doc).value == titleTokens + FieldTokens(analyze, doc, IndexedFields);
      r := Pass;
    }

    /** The loop of addDocument over the indexed fields, in order; absent fields are skipped. */
    method IndexFields(doc: Document, docID: string, analyze: Analyzer)
      requires Valid()
      modifies this, Repr
      ensures Valid() && fresh(Repr - old(Repr))
      ensures index == FoldTokens(old(index), FieldTokens(analyze, doc, IndexedFields), docID)
    {
      var i := 0;
      while i < |IndexedFields|
        invariant 0 <= i <= |IndexedFields|
        invariant Valid() && fresh(Repr - old(Repr))
        invariant index == FoldTokens(old(index), FieldTokens(analyze, doc, IndexedFields[..i]), docID)
      {
        var fieldName := IndexedFields[i];
        FoldFieldStep(old(index), analyze, doc, IndexedFields, i, docID);
        IndexFieldValues(fieldName, doc, docID, analyze);
        i := i + 1;
      }
      assert IndexedFields[..|IndexedFields|] == IndexedFields;
    }

    /**
      The inner loop of addDocument over the values of one field: each value's tokens
      are indexed in turn; a value the tokenizer rejects is skipped.
     */
    method IndexFieldValues(fieldName: FieldName, doc: Document, docID: string, analyze: Analyzer)
      requires Valid()
      modifies this, Repr
      ensures Valid() && fresh(Repr - old(Repr))
      ensures fieldName in doc ==> index == FoldTokens(old(index), ValueTokens(analyze, fieldName, doc[fieldName]), docID)
      ensures fieldName !in doc ==> index == old(index)
    {
      if fieldName !in doc {
        return;
      }
      var fieldContent := doc[fieldName];
      var j := 0;
      while j < |fieldContent|
        invariant 0 <= j <= |fieldContent|
        invariant Valid() && fresh(Repr - old(Repr))
        invariant index == FoldTokens(old(index), ValueTokens(analyze, fieldName, fieldContent[..j]), docID)
      {
        FoldValueStep(old(index), analyze, fieldName, fieldContent, j, docID);
        IndexFieldValue(fieldName, fieldContent[j], docID, analyze);
        j := j + 1;
      }
      assert fieldContent[..|fieldContent|] == fieldContent;
    }

    /**
      The try block of that loop: the value's tokens are indexed; a TokenizerException
      is caught and the value is skipped.
     */
    method IndexFieldValue(fieldName: FieldName, line: string, docID: string, analyze: Analyzer)
      requires Valid()
      modifies this, Repr
      ensures Valid() && fresh(Repr - old(Repr))
      ensures analyze(fieldName, line).Some? ==> index == FoldTokens(old(index), analyze(fieldName, line).value, docID)
      ensures analyze(fieldName, line).None? ==> index == old(index)
    {
      var stream := analyze(fieldName, line);
      if stream.Some? {
        AddStreamToIndex(stream.value, docID);
      }
    }

    /**
      addTitleToIndex: the title's tokens are indexed like any stream; a tokenizer
      error becomes IndexerException and leaves the index as it was.
     */
    method AddTitleToIndex(title: string, docID: string, analyze: Analyzer) returns (r: Outcome<IndexerException>)
      requires Valid()
      modifies this, Repr
      ensures Valid() && fresh(Repr - old(Repr))
      ensures r.Fail? <==> analyze(Title, title).None?
      ensures r.Fail? ==> index == old(index)
      ensures r.Pass? ==> index == FoldTokens(old(index), analyze(Title, title).value, docID)
    {
      match analyze(Title, title) {
        case None =>
          r := Fail(IndexerException);
        case Some(stream) =>
          AddStreamToIndex(stream, docID);
          r := Pass;
      }
    }

    /** addStreamToIndex: every token of the stream, in order, is one occurrence in docID. */
    method AddStreamToIndex(tokens: seq<string>, docID: string)
      requires Valid()
      modifies this, Repr
      ensures Valid() && fresh(Repr - old(Repr))
      ensures index == FoldTokens(old(index), tokens, docID)
    {
      var i := 0;
      while i < |tokens|
        invariant 0 <= i <= |tokens|
        invariant Valid() && fresh(Repr - old(Repr))
        invariant index == FoldTokens(old(index), tokens[..i], docID)
      {
        FoldTokensStep(old(index), tokens, i, docID);
        IndexToken(tokens[i], docID);
        i := i + 1;
      }
      assert tokens[..|tokens|] == tokens;
    }

    /**
      close: every term is stored under the text of its posting. The file the
      properties are written to is the returned map.
     */
    method Close() returns (file: map<string, string>)
      requires Valid()
      ensures file == EncodeIndex(index)
    {
      file := EncodeAll(inMemIndex, index);
    }

    /** close's loop over the terms: each term is stored under the text of its posting. */
    static method EncodeAll(postings: map<string, Posting>, ghost idx: Index) returns (file: map<string, string>)
      requires postings.Keys == idx.Keys
      requires forall t :: t in postings ==> postings[t].Value() == idx[t] && |idx[t].docs| > 0
      ensures file == EncodeIndex(idx)
    {
      file := map[];
      var terms := postings.Keys;
      ghost var written: Index := map[];
      while terms != {}
        invariant written.Keys !! terms && written.Keys + terms == idx.Keys
        invariant forall t :: t in written ==> written[t] == idx[t]
        invariant file == EncodeIndex(written)
        decreases terms
      {
        var term :| term in terms;
        var value := EncodePosting(postings[term]);
        EncodeIndexPut(written, term, idx[term], value);
        MoveOne(written, terms, idx.Keys, term, idx[term]);
        file := file[term := value];
        written := written[term := idx[term]];
        terms := terms - {term};
      }
      SameIndex(written, idx);
    }

    /**
      The text close stores for one posting: the document IDs in ascending order, each
      followed by '|', and their counts likewise; the last '|' of each list is cut off
      and the two lists and both counters are joined with '@'.
     */
    static method EncodePosting(posting: Posting) returns (text: string)
      requires |posting.individualPostingsMap| > 0
      ensures text == Encode(posting.Value())
    {
      var termMap := posting.individualPostingsMap;
      var docIDs: string := "";
      var freqs: string := "";
      ghost var done: seq<string> := [];
      var remaining := termMap.Keys;
      while remaining != {}
        invariant Listed(termMap, done, remaining, docIDs, freqs)
        decreases |remaining|
      {
        LexMinExists(remaining);
        var keyDocID :| keyDocID in remaining && IsLexMin(keyDocID, remaining);
        var valueFreq := termMap[keyDocID];
        ListedStep(termMap, done, remaining, docIDs, freqs, keyDocID);
        docIDs := docIDs + keyDocID + "|";
        freqs := freqs + IntToString(valueFreq) + "|";
        done := done + [keyDocID];
        remaining := remaining - {keyDocID};
      }
      ListedAll(termMap, done, docIDs, freqs);
      var docIDString := docIDs[..|docIDs| - 1];
      var freqString := freqs[..|freqs| - 1];
      text := docIDString + "@" + freqString + "@" + IntToString(posting.totalTermFreq) + "@" + IntToString(posting.totalDocumentFreq);
    }

    /**
      The state of close's inner loop: `done` are the document IDs already appended, the
      first ones in ascending order, `remaining` the rest; each buffer holds its joined
      list followed by '|'.
     */
    static ghost predicate Listed(m: map<string, int>, done: seq<string>, remaining: set<string>, docIDs: string, freqs: string) {
      && remaining <= m.Keys
      && done + SortedKeys(remaining) == SortedKeys(m.Keys)
      && (forall i :: 0 <= i < |done| ==> done[i] in m)
      && Buffered(m, done, docIDs, freqs)
    }

    /** Each buffer holds its joined list followed by '|', or nothing before the first ID. */
    static ghost predicate Buffered(m: map<string, int>, done: seq<string>, docIDs: string, freqs: string)
      requires forall i :: 0 <= i < |done| ==> done[i] in m
    {
      && (done == [] ==> docIDs == [] && freqs == [])
      && (done != [] ==> docIDs == Join(done, '|') + "|" && freqs == Join(CountStrings(done, m), '|') + "|")
    }

    /** Appending one ID and its count to the buffers keeps them joined lists. */
    static lemma BufferStep(m: map<string, int>, done: seq<string>, docIDs: string, freqs: string, k: string)
      requires forall i :: 0 <= i < |done| ==> done[i] in m
      requires k in m
      requires Buffered(m, done, docIDs, freqs)
      ensures forall i :: 0 <= i < |done + [k]| ==> (done + [k])[i] in m
      ensures Buffered(m, done + [k], docIDs + k + "|", freqs + IntToString(m[k]) + "|")
    {
      AppendStep(done, k, m);
    }

    /** Appending the first remaining document ID keeps the loop state. */
    static lemma ListedStep(m: map<string, int>, done: seq<string>, remaining: set<string>, docIDs: string, freqs: string, k: string)
      requires Listed(m, done, remaining, docIDs, freqs)
      requires k in remaining && IsLexMin(k, remaining)
      ensures Listed(m, done + [k], remaining - {k}, docIDs + k + "|", freqs + IntToString(m[k]) + "|")
    {
      OrderStep(done, remaining, k, SortedKeys(m.Keys));
      BufferStep(m, done, docIDs, freqs, k);
    }

    /** Moving the first remaining ID to the end of `done` keeps the sorted order. */
    static lemma OrderStep(done: seq<string>, remaining: set<string>, k: string, sorted: seq<string>)
      requires done + SortedKeys(remaining) == sorted
      requires IsLexMin(k, remaining)
      ensures (done + [k]) + SortedKeys(remaining - {k}) == sorted
    {
      SortedKeysFirst(k, remaining);
      assert (done + [k]) + SortedKeys(remaining - {k}) == done + ([k] + SortedKeys(remaining - {k}));
    }

    /** When nothing remains, the buffers hold the whole lists, each with one '|' too many. */
    static lemma ListedAll(m: map<string, int>, done: seq<string>, docIDs: string, freqs: string)
      requires Listed(m, done, {}, docIDs, freqs) && |m| > 0
      ensures |docIDs| > 0 && |freqs| > 0
      ensures docIDs[..|docIDs| - 1] == Join(SortedKeys(m.Keys), '|')
      ensures freqs[..|freqs| - 1] == Join(CountStrings(SortedKeys(m.Keys), m), '|')
    {
      assert SortedKeys({}) == [];
      assert done + [] == done;
      SortedKeysLength(m.Keys);
      assert |done| == |m.Keys|;
    }

    /** Appending one more document ID extends both joined lists by one entry. */
    static lemma AppendStep(done: seq<string>, k: string, m: map<string, int>)
      requires forall i :: 0 <= i < |done| ==> done[i] in m
      requires k in m
      ensures done != [] ==> Join(done + [k], '|') == Join(done, '|') + "|" + k
      ensures done != [] ==> Join(CountStrings(done + [k], m), '|') == Join(CountStrings(done, m), '|') + "|" + IntToString(m[k])
      ensures done == [] ==> Join(done + [k], '|') == k && Join(CountStrings(done + [k], m), '|') == IntToString(m[k])
    {
      assert (done + [k])[..|done|] == done;
      assert CountStrings(done + [k], m) == CountStrings(done, m) + [IntToString(m[k])];
      assert (CountStrings(done, m) + [IntToString(m[k])])[..|done|] == CountStrings(done, m);
    }

    /** One pass of addStreamToIndex's loop: record one occurrence of `term` in `docID`. */
    method IndexToken(term: string, docID: string)
      requires Valid()
      modifies this, Repr
      ensures Valid()
      ensures index == AddOccurrence(old(index), term, docID)
      ensures fresh(Repr - old(Repr))
    {
      AddOccurrencePreservesWellFormed(index, term, docID);
      if term !in inMemIndex {
        AddPosting(term, docID);
      } else {
        UpdatePosting(term, docID);
      }
    }

    /** A term seen for the first time gets a new Posting {docID: 1} with both counters 1. */
    method AddPosting(term: string, docID: string)
      requires Sound() && term !in inMemIndex
      modifies this
      ensures Sound()
      ensures index == AddOccurrence(old(index), term, docID)
      ensures fresh(Repr - old(Repr))
    {
      var posting := FirstPosting(docID);
      ghost var next := AddOccurrence(index, term, docID);
      assert posting.Value() == next[term];
      inMemIndex := inMemIndex[term := posting];
      Repr := Repr + {posting};
      index := next;
      forall t | t in inMemIndex && t != term
        ensures inMemIndex[t].Value() == index[t]
      {
        assert inMemIndex[t] != posting;
      }
    }

    /** The Posting of a term's first occurrence: {docID: 1}, with both counters 1. */
    static method FirstPosting(docID: string) returns (posting: Posting)
      ensures fresh(posting)
      ensures posting.Value() == PostingValue(map[docID := 1], 1, 1)
    {
      posting := new Posting();
      posting.SetTotalTermFreq(1);
      posting.SetTotalDocumentFreq(1);
      posting.SetIndividualPostingsMap(map[docID := 1]);
    }

    /**
      A known term's Posting is updated in place: the count for docID goes up by one
      (from nothing to 1), ttf by one, and tdf becomes the number of documents.
     */
    method UpdatePosting(term: string, docID: string)
      requires Sound() && term in inMemIndex
      modifies inMemIndex[term], this
      ensures Sound()
      ensures index == AddOccurrence(old(index), term, docID)
      ensures inMemIndex == old(inMemIndex) && Repr == old(Repr)
    {
      var posting := inMemIndex[term];
      ghost var p := index[term];
      var currentFreq := if docID in posting.individualPostingsMap then posting.individualPostingsMap[docID] + 1 else 1;
      var postingMap := posting.individualPostingsMap[docID := currentFreq];
      ghost var next := AddOccurrence(index, term, docID);
      AddOccurrenceUpdate(index, term, docID, postingMap);
      posting.SetTotalTermFreq(posting.totalTermFreq + 1);
      posting.SetTotalDocumentFreq(|postingMap|);
      posting.SetIndividualPostingsMap(postingMap);
      assert posting.Value() == next[term];
      index := next;
      forall t | t in inMemIndex && t != term
        ensures inMemIndex[t].Value() == index[t]
      {
        assert inMemIndex[t] != posting;
      }
    }
  }
}
