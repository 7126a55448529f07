/**
  The index reader: loads the stored file back into a map from term to Posting and
  answers the five queries over it: the number of terms, the number of distinct
  document IDs, one term's postings, the top-K terms and the conjunctive query.
 */
module Reader {
  import opened Wrappers
  import opened JavaStrings
  import opened Postings
  import opened Indexing
  import opened IndexFormat
  import opened Queries

  /**
    What query returns: it throws a NullPointerException (an unknown term, or no term
    at all), returns null (no document holds every term), or returns the documents
    with their summed counts.
   */
  datatype QueryOutcome = NullPointer | NoResult | Results(docs: map<string, int>)

  class IndexReader {
    var inMemIndex: map<string, Posting>
    /** The value of every term's posting. */
    ghost var index: Index
    /** The Posting objects the map refers to. */
    ghost var Repr: set<Posting>

    /** The map holds, for each term of `index`, a Posting of that value. */
    ghost predicate Valid()
      reads this, Repr
    {
      && inMemIndex.Keys == index.Keys
      && (forall t :: t in inMemIndex ==> inMemIndex[t] in Repr && inMemIndex[t].Value() == index[t])
    }

    /** The reader's map before the file is read: empty. */
    constructor ()
      ensures Valid() && index == map[]
    {
      inMemIndex := map[];
      index := map[];
      Repr := {};
    }

    /**
      The constructor: read the stored file and decode every value into the map. A
      missing file (None) is reported and leaves the map empty; a value that does not
      decode makes the constructor throw, and no reader is obtained (None).
     */
    static method Open(file: Option<map<string, string>>) returns (r: Option<IndexReader>)
      ensures r.None? <==> file.Some? && !Decodable(file.value)
      ensures r.Some? ==> fresh(r.value) && r.value.Valid()
      ensures r.Some? && file.None? ==> r.value.index == map[]
      ensures r.Some? && file.Some? ==> Decodable(file.value) && r.value.index == DecodeIndex(file.value)
    {
      var reader := new IndexReader();
      if file.Some? {
        var ok := reader.Load(file.value);
        if !ok {
          return None;
        }
      }
      r := Some(reader);
    }

    /**
      The constructor's loop over the stored terms: each value is decoded and put under
      its term; the first value that does not decode stops the loop with false.
     */
    method Load(file: map<string, string>) returns (ok: bool)
      requires Valid() && index == map[]
      modifies this
      ensures Valid()
      ensures ok <==> Decodable(file)
      ensures ok ==> index == DecodeIndex(file)
    {
      var terms := file.Keys;
      while terms != {}
        invariant Valid()
        invariant index.Keys !! terms && index.Keys + terms == file.Keys
        invariant forall t :: t in index ==> Decode(file[t]) == Some(index[t])
        decreases terms
      {
        var term :| term in terms;
        var posting := DecodeValue(file[term]);
        if posting.None? {
          return false;
        }
        MoveOne(index, terms, file.Keys, term, posting.value);
        Put(term, posting.value);
        terms := terms - {term};
      }
      LoadsAs(file, index);
      ok := true;
    }

    /** A new Posting with the decoded map and counters, put under its term. */
    method Put(term: string, p: PostingValue)
      requires Valid() && term !in index
      modifies this
      ensures Valid() && index == old(index)[term := p]
    {
      var posting := new Posting();
      posting.SetIndividualPostingsMap(p.docs);
      posting.SetTotalTermFreq(p.ttf);
      posting.SetTotalDocumentFreq(p.tdf);
      inMemIndex := inMemIndex[term := posting];
      Repr := Repr + {posting};
      index := index[term := p];
    }

    /**
      Decoding one stored value as the constructor does: split on '@', split the ID and
      count segments on '|', parse both counters, then pair the IDs with the parsed
      counts one by one. None stands for the exception malformed text raises.
     */
    static method DecodeValue(value: string) returns (r: Option<PostingValue>)
      ensures r == Decode(value)
    {
      var split := JavaSplit(value, '@');
      if |split| < 4 {
        return None;
      }
      var documentIDs := JavaSplit(split[0], '|');
      var frequencies := JavaSplit(split[1], '|');
      var totalTermFreq := ParseInt(split[2]);
      var totalDocumentFreq := ParseInt(split[3]);
      if totalTermFreq.None? || totalDocumentFreq.None? {
        return None;
      }
      var individualPostingsMap: map<string, int> := map[];
      var i := 0;
      while i < |documentIDs|
        invariant 0 <= i <= |documentIDs|
        invariant Zip(documentIDs[..i], frequencies) == Some(individualPostingsMap)
      {
        assert documentIDs[..i + 1][..i] == documentIDs[..i];
        if i >= |frequencies| {
          ZipNoneExtends(documentIDs, frequencies, i + 1);
          return None;
        }
        var frequency := ParseInt(frequencies[i]);
        if frequency.None? {
          ZipNoneExtends(documentIDs, frequencies, i + 1);
          return None;
        }
        individualPostingsMap := individualPostingsMap[documentIDs[i] := frequency.value];
        i := i + 1;
      }
      assert documentIDs[..|documentIDs|] == documentIDs;
      r := Some(PostingValue(individualPostingsMap, totalTermFreq.value, totalDocumentFreq.value));
    }

    /** getTotalKeyTerms: the number of terms; the map is never null, so never -1. */
    function TotalKeyTerms(): (r: int)
      reads this, Repr
      requires Valid()
      ensures r == |index.Keys|
    {
      |inMemIndex|
    }

    /** getTotalValueTerms: the number of distinct document IDs over all postings. */
    method TotalValueTerms() returns (r: int)
      requires Valid()
      ensures r == |AllDocIds(index)|
    {
      var ids: set<string> := {};
      var keys := inMemIndex.Keys;
      ghost var done: set<string> := {};
      while keys != {}
        invariant done !! keys && done + keys == index.Keys
        invariant ids == DocIdsOf(index, done)
        decreases keys
      {
        var key :| key in keys;
        ids := AddKeys(ids, inMemIndex[key].individualPostingsMap);
        DocIdsOfAdd(index, done, key);
        keys := keys - {key};
        done := done + {key};
      }
      DocIdsOfAll(index, done);
      r := |ids|;
    }

    /** The inner loop of getTotalValueTerms: every document ID of one posting is added. */
    static method AddKeys(ids: set<string>, individualPostingsMap: map<string, int>) returns (r: set<string>)
      ensures r == ids + individualPostingsMap.Keys
    {
      r := ids;
      var keys := individualPostingsMap.Keys;
      while keys != {}
        invariant keys <= individualPostingsMap.Keys
        invariant r + keys == ids + individualPostingsMap.Keys
        decreases keys
      {
        var innerKey :| innerKey in keys;
        r := r + {innerKey};
        keys := keys - {innerKey};
      }
    }

    /** getPostings: the term's map from document ID to count, or null for an unknown term. */
    function GetPostings(term: string): (r: Option<map<string, int>>)
      reads this, Repr
      requires Valid()
      ensures r.Some? <==> term in index
      ensures r.Some? ==> r.value == index[term].docs
    {
      if term in inMemIndex then Some(inMemIndex[term].individualPostingsMap) else None
    }
  
    /**
      getTopK: the postings go into a sorted set ordered by total term frequency,
      highest first, which keeps one term per frequency; the first k entries are
      returned, or null when there are none (k <= 0 or an empty index).
     */
    method GetTopK(k: int) returns (r: Option<seq<string>>)
      requires Valid()
      ensures r.None? <==> k <= 0 || index == map[]
      ensures r.Some? ==> IsTopK(index, k, r.value)
    {
      var table := FrequencyFirsts();
      var list := TakeHighest(table, k, index);
      FrequencyTableEmpty(index, table);
      if list == [] {
        return None;
      }
      r := Some(list);
    }

    /**
      The top-K the ranking evidently intends: every term competes, a tie on total term
      frequency is broken by term order, and min(k, number of terms) terms come back;
      null, as in getTopK, when k <= 0 or the index is empty.
     */
    method GetTopKWithTies(k: int) returns (r: Option<seq<string>>)
      requires Valid()
      ensures r.None? <==> k <= 0 || index == map[]
      ensures r.Some? ==> IsTopKTerms(index, k, r.value)
    {
      if k <= 0 || inMemIndex == map[] {
        assert inMemIndex.Keys == index.Keys;
        return None;
      }
      var freqs := map t | t in inMemIndex :: inMemIndex[t].totalTermFreq;
      assert FrequenciesOf(index, freqs) by {
        forall t | t in index
          ensures freqs[t] == index[t].ttf
        {
          assert inMemIndex[t].Value() == index[t];
        }
      }
      var list: seq<string> := [];
      var remaining := inMemIndex.Keys;
      while remaining != {} && |list| < k
        invariant |list| <= k
        invariant Picked(index, remaining, list)
        decreases remaining
      {
        ghost var w := TopAmongOf(freqs, remaining);
        var best :| TopAmong(freqs, remaining, best);
        PickStep(index, freqs, remaining, list, best);
        list := list + [best];
        remaining := remaining - {best};
      }
      PickAll(index, remaining, list, k);
      r := Some(list);
    }

    /**
      addAll of the entries, in ascending term order: an entry whose total term
      frequency is already in the set compares equal to the one there and is not added.
      The set is modelled as a map from frequency to the term kept.
     */
    method FrequencyFirsts() returns (table: map<int, string>)
      requires Valid()
      ensures FrequencyTable(index, table)
    {
      table := map[];
      var remaining := inMemIndex.Keys;
      ghost var done: set<string> := {};
      while remaining != {}
        invariant done !! remaining && done + remaining == index.Keys
        invariant AllBefore(done, remaining)
        invariant TableOf(index, done, table)
        decreases remaining
      {
        LexMinExists(remaining);
        var term :| term in remaining && IsLexMin(term, remaining);
        var totalTermFreq := inMemIndex[term].totalTermFreq;
        TableStep(index, done, remaining, table, term);
        if totalTermFreq !in table {
          table := table[totalTermFreq := term];
        }
        remaining := remaining - {term};
        done := done + {term};
      }
      TableAll(index, done, table);
    }

    /**
      The iteration over the sorted set: while entries remain and fewer than k are
      taken, take the entry of the highest remaining frequency.
     */
    static method TakeHighest(table: map<int, string>, k: int, ghost idx: Index) returns (list: seq<string>)
      requires FrequencyTable(idx, table)
      ensures list == [] <==> k <= 0 || table == map[]
      ensures list != [] ==> IsTopK(idx, k, list)
    {
      list := [];
      var rest := table.Keys;
      var counter := 1;
      while rest != {} && counter <= k
        invariant counter == |list| + 1
        invariant list == [] || |list| <= k
        invariant list == [] ==> rest == table.Keys
        invariant Taken(idx, table, rest, list)
        decreases rest
      {
        ghost var highest := Largest(rest);
        var top :| top in rest && forall v :: v in rest ==> v <= top;
        assert FirstOfItsFrequency(idx, table[top]) && idx[table[top]].ttf == top;
        TakeStep(idx, table, rest, list, top, table[top]);
        list := list + [table[top]];
        rest := rest - {top};
        counter := counter + 1;
      }
      if list != [] {
        TakeAll(idx, table, rest, list, k);
      }
    }

    /**
      query: each term's postings map is fetched (an unknown term throws), the
      intersection of their document IDs is taken, and each remaining document gets the
      sum of its counts over the terms; null when no document is left. With no term at
      all the result is never created and the final emptiness test throws.
     */
    method Query(terms: seq<string>) returns (r: QueryOutcome)
      requires Valid()
      ensures r.NullPointer? <==> |terms| == 0 || !AllPresent(index, terms)
      ensures r.NoResult? <==> |terms| > 0 && AllPresent(index, terms) && CommonDocs(index, terms) == {}
      ensures r.Results? ==>
        && |terms| > 0 && AllPresent(index, terms)
        && r.docs.Keys == CommonDocs(index, terms)
        && forall d :: d in r.docs ==> r.docs[d] == SumCounts(index, terms, d)
    {
      var mapList: seq<map<string, int>> := [];
      var i := 0;
      while i < |terms|
        invariant 0 <= i <= |terms|
        invariant AllPresent(index, terms[..i])
        invariant |mapList| == i && forall j :: 0 <= j < i ==> mapList[j] == index[terms[j]].docs
      {
        if terms[i] !in inMemIndex {
          return NullPointer;
        }
        mapList := mapList + [inMemIndex[terms[i]].individualPostingsMap];
        i := i + 1;
      }
      if mapList == [] {
        return NullPointer;
      }
      assert terms[..i] == terms;
      var resultMap := Intersect(mapList);
      assert resultMap.Keys == CommonDocs(index, terms);
      resultMap := SumFrequencies(resultMap, mapList, index, terms);
      if resultMap == map[] {
        return NoResult;
      }
      r := Results(resultMap);
    }

    /**
      The result starts as a copy of the first term's map and keeps, term by term, only
      the document IDs that term's map holds too.
     */
    static method Intersect(mapList: seq<map<string, int>>) returns (resultMap: map<string, int>)
      requires |mapList| > 0
      ensures forall d :: d in resultMap <==> d in mapList[0] && forall j :: 0 <= j < |mapList| ==> d in mapList[j]
      ensures forall d :: d in resultMap ==> resultMap[d] == mapList[0][d]
    {
      resultMap := mapList[0];
      var i := 0;
      while i < |mapList|
        invariant 0 <= i <= |mapList|
        invariant forall d :: d in resultMap <==> d in mapList[0] && forall j :: 0 <= j < i ==> d in mapList[j]
        invariant forall d :: d in resultMap ==> resultMap[d] == mapList[0][d]
      {
        var m := mapList[i];
        resultMap := map d | d in resultMap && d in m :: resultMap[d];
        i := i + 1;
      }
    }

    /** Every document of the intersection is given its counts summed over the terms. */
    static method SumFrequencies(resultMap: map<string, int>, mapList: seq<map<string, int>>, ghost idx: Index, ghost terms: seq<string>)
      returns (r: map<string, int>)
      requires AllPresent(idx, terms) && |mapList| == |terms|
      requires forall j :: 0 <= j < |terms| ==> mapList[j] == idx[terms[j]].docs
      requires forall d :: d in resultMap ==> forall j :: 0 <= j < |terms| ==> d in idx[terms[j]].docs
      ensures r.Keys == resultMap.Keys
      ensures forall d :: d in r ==> r[d] == SumCounts(idx, terms, d)
    {
      r := resultMap;
      var keys := resultMap.Keys;
      while keys != {}
        invariant keys <= resultMap.Keys && r.Keys == resultMap.Keys
        invariant forall d :: d in r && d !in keys ==> r[d] == SumCounts(idx, terms, d)
        decreases keys
      {
        var docID :| docID in keys;
        var freqSum := SumOver(mapList, docID, idx, terms);
        r := r[docID := freqSum];
        keys := keys - {docID};
      }
    }

    /** The sum of one document's counts over the maps of the terms, in term order. */
    static method SumOver(mapList: seq<map<string, int>>, docID: string, ghost idx: Index, ghost terms: seq<string>)
      returns (freqSum: int)
      requires AllPresent(idx, terms) && |mapList| == |terms|
      requires forall j :: 0 <= j < |terms| ==> mapList[j] == idx[terms[j]].docs
      requires forall j :: 0 <= j < |terms| ==> docID in idx[terms[j]].docs
      ensures freqSum == SumCounts(idx, terms, docID)
    {
      freqSum := 0;
      var j := 0;
      while j < |mapList|
        invariant 0 <= j <= |mapList|
        invariant freqSum == SumCounts(idx, terms[..j], docID)
      {
        assert terms[..j + 1][..j] == terms[..j];
        freqSum := freqSum + mapList[j][docID];
        j := j + 1;
      }
      assert terms[..j] == terms;
    }
  }

  // ---------------------------------------------------------------------------
  // The state of getTopK's two loops
  // ---------------------------------------------------------------------------

  /** Every term of `done` sorts before every term of `rest`. */
  ghost predicate AllBefore(done: set<string>, rest: set<string>) {
    forall a, b :: a in done && b in rest ==> LexLess(a, b)
  }

  /** `t` is the first term of its frequency among the terms of `done`. */
  ghost predicate FirstAmong(idx: Index, done: set<string>, t: string)
    requires done <= idx.Keys
  {
    t in done && forall u :: u in done && u != t && idx[u].ttf == idx[t].ttf ==> LexLess(t, u)
  }

  /** The sorted set once the terms of `done` have been offered to it. */
  ghost predicate TableOf(idx: Index, done: set<string>, table: map<int, string>)
    requires done <= idx.Keys
  {
    && (forall t :: t in done ==> idx[t].ttf in table)
    && (forall v :: v in table ==> FirstAmong(idx, done, table[v]) && idx[table[v]].ttf == v)
  }

  /** Offering the first remaining term keeps the sorted set's state. */
  lemma TableStep(idx: Index, done: set<string>, rest: set<string>, table: map<int, string>, t: string)
    requires done !! rest && done + rest == idx.Keys
    requires AllBefore(done, rest) && TableOf(idx, done, table)
    requires IsLexMin(t, rest)
    ensures AllBefore(done + {t}, rest - {t})
    ensures TableOf(idx, done + {t}, if idx[t].ttf in table then table else table[idx[t].ttf := t])
  {
    var done' := done + {t};
    var table' := if idx[t].ttf in table then table else table[idx[t].ttf := t];
    forall a, b | a in done' && b in rest - {t}
      ensures LexLess(a, b)
    {
      if a == t {
        assert b in rest && b != t;
      } else {
        assert a in done && b in rest;
      }
    }
    forall v | v in table'
      ensures FirstAmong(idx, done', table'[v]) && idx[table'[v]].ttf == v
    {
      if v in table {
        assert table'[v] == table[v];
        var f := table[v];
        assert FirstAmong(idx, done, f);
        assert t != f ==> LexLess(f, t);
      } else {
        assert table'[v] == t;
        assert forall u :: u in done ==> idx[u].ttf != v;
      }
    }
  }

  /** Once every term has been offered, the sorted set is the frequency table. */
  lemma TableAll(idx: Index, done: set<string>, table: map<int, string>)
    requires done == idx.Keys && TableOf(idx, done, table)
    ensures FrequencyTable(idx, table)
  {
    forall v | v in TtfValues(idx)
      ensures v in table
    {
      var t :| t in idx && idx[t].ttf == v;
    }
    forall v | v in table
      ensures v in TtfValues(idx)
    {
      assert table[v] in idx && idx[table[v]].ttf == v;
    }
  }

  /** The total term frequencies of the entries of `list`. */
  ghost function Frequencies(idx: Index, list: seq<string>): set<int>
    requires forall i :: 0 <= i < |list| ==> list[i] in idx
  {
    set i | 0 <= i < |list| :: idx[list[i]].ttf
  }

  /**
    The iteration so far: `rest` holds the frequencies not yet visited, all below the
    last one taken; the entries taken are survivors in strictly decreasing frequency;
    and every frequency of the table is either taken or remaining.
   */
  ghost predicate Taken(idx: Index, table: map<int, string>, rest: set<int>, list: seq<string>) {
    && Survivors(idx, list) && Decreasing(idx, list)
    && rest <= table.Keys
    && table.Keys == rest + Frequencies(idx, list)
    && |list| + |rest| == |table.Keys|
    && (forall v :: v in rest && |list| > 0 ==> v < idx[list[|list| - 1]].ttf)
  }

  /** Taking the entry of the highest remaining frequency keeps the iteration's state. */
  lemma TakeStep(idx: Index, table: map<int, string>, rest: set<int>, list: seq<string>, top: int, x: string)
    requires Taken(idx, table, rest, list)
    requires FirstOfItsFrequency(idx, x) && idx[x].ttf == top
    requires top in rest && forall v :: v in rest ==> v <= top
    ensures Taken(idx, table, rest - {top}, list + [x])
  {
    SurvivorsAppend(idx, list, x);
    DecreasingAppend(idx, list, x);
    TakeStepCover(idx, table, rest, list, top, x);
  }

  /** The taken frequency moves from the remaining ones to those visited. */
  lemma TakeStepCover(idx: Index, table: map<int, string>, rest: set<int>, list: seq<string>, top: int, x: string)
    requires (forall i :: 0 <= i < |list| ==> list[i] in idx) && x in idx && idx[x].ttf == top
    requires rest <= table.Keys && table.Keys == rest + Frequencies(idx, list)
    requires |list| + |rest| == |table.Keys| && top in rest
    ensures rest - {top} <= table.Keys
    ensures table.Keys == (rest - {top}) + Frequencies(idx, list + [x])
    ensures |list + [x]| + |rest - {top}| == |table.Keys|
  {
    FrequenciesAppend(idx, list, x);
  }

  lemma SurvivorsAppend(idx: Index, list: seq<string>, x: string)
    requires Survivors(idx, list) && FirstOfItsFrequency(idx, x)
    ensures Survivors(idx, list + [x])
  {
    forall i | 0 <= i < |list| + 1
      ensures FirstOfItsFrequency(idx, (list + [x])[i])
    {
      if i < |list| {
        assert (list + [x])[i] == list[i];
      }
    }
  }

  lemma DecreasingAppend(idx: Index, list: seq<string>, x: string)
    requires Decreasing(idx, list) && x in idx
    requires |list| > 0 ==> idx[x].ttf < idx[list[|list| - 1]].ttf
    ensures Decreasing(idx, list + [x])
  {
    var list' := list + [x];
    forall i, j | 0 <= i < j < |list'|
      ensures idx[list'[i]].ttf > idx[list'[j]].ttf
    {
      assert list'[i] == list[i];
      if j < |list| {
        assert list'[j] == list[j];
      } else if i < |list| - 1 {
        assert idx[list[i]].ttf > idx[list[|list| - 1]].ttf;
      }
    }
  }

  lemma FrequenciesAppend(idx: Index, list: seq<string>, x: string)
    requires (forall i :: 0 <= i < |list| ==> list[i] in idx) && x in idx
    ensures Frequencies(idx, list + [x]) == Frequencies(idx, list) + {idx[x].ttf}
  {
    var list' := list + [x];
    assert idx[list'[|list|]].ttf == idx[x].ttf;
    forall v | v in Frequencies(idx, list)
      ensures v in Frequencies(idx, list')
    {
      var i :| 0 <= i < |list| && idx[list[i]].ttf == v;
      assert list'[i] == list[i];
    }
  }

  /** When the iteration stops, the entries taken are the top k of the index. */
  lemma TakeAll(idx: Index, table: map<int, string>, rest: set<int>, list: seq<string>, k: int)
    requires FrequencyTable(idx, table) && Taken(idx, table, rest, list)
    requires list != [] && |list| <= k
    requires rest == {} || |list| + 1 > k
    ensures IsTopK(idx, k, list)
  {
    forall u | u in idx && idx[u].ttf > idx[list[|list| - 1]].ttf
      ensures exists i :: 0 <= i < |list| && idx[list[i]].ttf == idx[u].ttf
    {
      assert idx[u].ttf in TtfValues(idx);
      assert idx[u].ttf in Frequencies(idx, list);
    }
  }

  /** The frequency table is empty exactly when the index is. */
  lemma FrequencyTableEmpty(idx: Index, table: map<int, string>)
    requires FrequencyTable(idx, table)
    ensures table == map[] <==> idx == map[]
  {
    if idx != map[] {
      var t :| t in idx;
      assert idx[t].ttf in TtfValues(idx);
    }
  }

  // ---------------------------------------------------------------------------
  // The state of the tie-breaking top-K's loop
  // ---------------------------------------------------------------------------

  /**
    The selection so far: `list` holds the terms taken, in ranking order, each ranking
    before every term still in `rest`; every term of the index is taken or remains.
   */
  ghost predicate Picked(idx: Index, rest: set<string>, list: seq<string>) {
    && rest <= idx.Keys
    && (forall i :: 0 <= i < |list| ==> list[i] in idx && list[i] !in rest)
    && (forall i, j :: 0 <= i < j < |list| ==> RanksBefore(idx, list[i], list[j]))
    && (forall i, u :: 0 <= i < |list| && u in rest ==> RanksBefore(idx, list[i], u))
    && (forall u :: u in idx && u !in rest ==> u in list)
    && |list| + |rest| == |idx|
  }

  /** Taking the term that ranks first among the remaining ones keeps the selection's state. */
  lemma PickStep(idx: Index, freqs: map<string, int>, rest: set<string>, list: seq<string>, best: string)
    requires FrequenciesOf(idx, freqs) && Picked(idx, rest, list)
    requires TopAmong(freqs, rest, best)
    ensures Picked(idx, rest - {best}, list + [best])
  {
    var list' := list + [best];
    forall i, j | 0 <= i < j < |list'|
      ensures RanksBefore(idx, list'[i], list'[j])
    {
      assert list'[i] == list[i];
      if j < |list| {
        assert list'[j] == list[j];
      }
    }
    forall i, u | 0 <= i < |list'| && u in rest - {best}
      ensures RanksBefore(idx, list'[i], u)
    {
      if i < |list| {
        assert list'[i] == list[i];
      }
    }
    forall u | u in idx && u !in rest - {best}
      ensures u in list'
    {
      if u != best {
        assert u in list;
      }
    }
    assert |rest - {best}| == |rest| - 1;
  }

  /** When the selection stops, the terms taken are the tie-breaking top k. */
  lemma PickAll(idx: Index, rest: set<string>, list: seq<string>, k: int)
    requires Picked(idx, rest, list) && |list| <= k
    requires rest == {} || |list| >= k
    ensures IsTopKTerms(idx, k, list)
  {
    forall u | u in idx && u !in list && |list| > 0
      ensures RanksBefore(idx, list[|list| - 1], u)
    {
      assert u in rest;
    }
  }
}
