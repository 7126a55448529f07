/**
  The text value under which a term's posting is persisted:
    <docID_1>|...|<docID_n>@<count_1>|...|<count_n>@<ttf>@<tdf>
  with the document IDs in ascending order and the counts aligned with them.
  The persisted file itself is modelled as a map from term to this text.
 */
module IndexFormat {
  import opened Wrappers
  import opened JavaStrings
  import opened Postings
  import opened Indexing

  /** The decimal text of each document's count, in the order of `ids`. */
  function CountStrings(ids: seq<string>, docs: map<string, int>): (r: seq<string>)
    requires forall i :: 0 <= i < |ids| ==> ids[i] in docs
    ensures |r| == |ids|
    ensures forall i :: 0 <= i < |ids| ==> r[i] == IntToString(docs[ids[i]])
    decreases |ids|
  {
    if ids == [] then []
    else CountStrings(ids[..|ids| - 1], docs) + [IntToString(docs[ids[|ids| - 1]])]
  }

  /**
    The text the writer stores for a posting. The map must not be empty: the writer
    strips the trailing '|' of the ID and count lists, which fails on an empty list.
   */
  ghost function Encode(p: PostingValue): (r: string)
    requires |p.docs| > 0
    ensures Join(SortedKeys(p.docs.Keys), '|') + ['@'] <= r
  {
    var ids := SortedKeys(p.docs.Keys);
    Join(ids, '|') + ['@'] + Join(CountStrings(ids, p.docs), '|') + ['@'] + IntToString(p.ttf) + ['@'] + IntToString(p.tdf)
  }

  /**
    The reader's loop over the document IDs: `ids[i]` is mapped to the parsed `counts[i]`,
    a later ID overwriting an earlier equal one; None when a count is missing or is not a
    number. Counts beyond the last ID are ignored.
   */
  function Zip(ids: seq<string>, counts: seq<string>): (r: Option<map<string, int>>)
    ensures |counts| < |ids| ==> r.None?
    ensures r.Some? ==> forall x :: x in r.value <==> x in ids
    decreases |ids|
  {
    if ids == [] then Some(map[])
    else match Zip(ids[..|ids| - 1], counts)
      case None => None
      case Some(m) =>
        var i := |ids| - 1;
        if i < |counts| then
          match ParseInt(counts[i])
            case None => None
            case Some(c) => Some(m[ids[i] := c])
        else None
  }

  /** Once pairing a prefix of the IDs fails, pairing all of them fails too. */
  lemma {:induction false} ZipNoneExtends(ids: seq<string>, counts: seq<string>, n: nat)
    requires n <= |ids| && Zip(ids[..n], counts).None?
    ensures Zip(ids, counts).None?
    decreases |ids|
  {
    if n < |ids| {
      var front := ids[..|ids| - 1];
      assert front[..n] == ids[..n];
      ZipNoneExtends(front, counts, n);
    } else {
      assert ids[..n] == ids;
    }
  }

  /**
    The reader's decoding of a stored value: split on '@', split the first two segments
    on '|', pair IDs with counts by position, and take ttf and tdf as written.
    None stands for the exceptions malformed text raises (a missing segment or count,
    a segment that is not a number).
   */
  function Decode(value: string): (r: Option<PostingValue>)
    ensures |JavaSplit(value, '@')| < 4 ==> r.None?
    ensures r.Some? ==> ParseInt(JavaSplit(value, '@')[2]) == Some(r.value.ttf) && ParseInt(JavaSplit(value, '@')[3]) == Some(r.value.tdf)
  {
    var segments := JavaSplit(value, '@');
    if |segments| < 4 then None
    else
      match (ParseInt(segments[2]), ParseInt(segments[3]), Zip(JavaSplit(segments[0], '|'), JavaSplit(segments[1], '|')))
        case (Some(ttf), Some(tdf), Some(docs)) => Some(PostingValue(docs, ttf, tdf))
        case _ => None
  }

  /** A document ID the format can carry: non-empty and free of both separators. */
  predicate SafeDocId(d: string) {
    d != [] && '@' !in d && '|' !in d
  }

  ghost predicate Encodable(p: PostingValue) {
    |p.docs| > 0 && forall d :: d in p.docs ==> SafeDocId(d)
  }

  /** Pairing IDs with the decimal text of their counts maps each ID to its count. */
  lemma {:induction false} ZipCountTexts(ids: seq<string>, counts: seq<string>, docs: map<string, int>)
    requires |ids| <= |counts|
    requires forall i :: 0 <= i < |ids| ==> ids[i] in docs && counts[i] == IntToString(docs[ids[i]])
    ensures var z := Zip(ids, counts);
      && z.Some?
      && (forall k :: k in z.value <==> k in ids)
      && (forall k :: k in z.value ==> z.value[k] == docs[k])
    decreases |ids|
  {
    if ids != [] {
      var front := ids[..|ids| - 1];
      assert ids == front + [ids[|ids| - 1]];
      ZipCountTexts(front, counts, docs);
      ParseIntToString(docs[ids[|ids| - 1]]);
    }
  }

  /** The decimal text of a number holds neither separator and is never empty. */
  lemma IntTextSafe(n: int)
    ensures ParseInt(IntToString(n)) == Some(n)
    ensures IntToString(n) != [] && '@' !in IntToString(n) && '|' !in IntToString(n)
  {
    ParseIntToString(n);
  }

  /** The ID list and the count list of an encodable posting, as the writer lays them out. */
  ghost function IdList(p: PostingValue): seq<string> {
    SortedKeys(p.docs.Keys)
  }

  ghost function CountList(p: PostingValue): seq<string> {
    CountStrings(IdList(p), p.docs)
  }

  /** The ID list joined with '|' splits back into itself and is a safe '@' segment. */
  lemma IdListSplit(p: PostingValue)
    requires Encodable(p)
    ensures var text := Join(IdList(p), '|');
      JavaSplit(text, '|') == IdList(p) && text != [] && '@' !in text
  {
    var ids := IdList(p);
    assert forall i :: 0 <= i < |ids| ==> ids[i] in p.docs;
    JavaSplitJoin(ids, '|');
    JoinNonEmpty(ids, '|');
    JoinExcludes(ids, '|', '@');
  }

  /** The count list joined with '|' splits back into itself and is a safe '@' segment. */
  lemma CountListSplit(p: PostingValue)
    requires |p.docs| > 0
    ensures var text := Join(CountList(p), '|');
      JavaSplit(text, '|') == CountList(p) && text != [] && '@' !in text
  {
    var ids, counts := IdList(p), CountList(p);
    forall i | 0 <= i < |counts|
      ensures counts[i] != [] && '|' !in counts[i] && '@' !in counts[i]
    {
      IntTextSafe(p.docs[ids[i]]);
    }
    JavaSplitJoin(counts, '|');
    JoinNonEmpty(counts, '|');
    JoinExcludes(counts, '|', '@');
  }

  /** Splitting the stored text gives back its four segments and both lists. */
  lemma SplitEncoded(p: PostingValue)
    requires Encodable(p)
    ensures var segments := JavaSplit(Encode(p), '@');
      && |segments| == 4
      && JavaSplit(segments[0], '|') == IdList(p)
      && JavaSplit(segments[1], '|') == CountList(p)
      && ParseInt(segments[2]) == Some(p.ttf)
      && ParseInt(segments[3]) == Some(p.tdf)
  {
    IdListSplit(p);
    CountListSplit(p);
    IntTextSafe(p.ttf);
    IntTextSafe(p.tdf);
    var idText, countText := Join(IdList(p), '|'), Join(CountList(p), '|');
    var ttfText, tdfText := IntToString(p.ttf), IntToString(p.tdf);
    var segments := [idText, countText, ttfText, tdfText];
    forall i | 0 <= i < 4
      ensures segments[i] != [] && '@' !in segments[i]
    {
      if i == 0 {
        assert segments[i] == idText;
      } else if i == 1 {
        assert segments[i] == countText;
      } else if i == 2 {
        assert segments[i] == ttfText;
      } else {
        assert segments[i] == tdfText;
      }
    }
    JavaSplitJoin(segments, '@');
    JoinFour(idText, countText, ttfText, tdfText, '@');
  }

  /** Pairing a list of every document ID with its counts gives back the map. */
  lemma ZipAllIds(ids: seq<string>, docs: map<string, int>)
    requires forall i :: 0 <= i < |ids| ==> ids[i] in docs
    requires forall k :: k in docs ==> k in ids
    ensures Zip(ids, CountStrings(ids, docs)) == Some(docs)
  {
    var counts := CountStrings(ids, docs);
    ZipCountTexts(ids, counts, docs);
    var z := Zip(ids, counts).value;
    assert forall k :: k in z <==> k in docs;
    assert forall k :: k in z ==> z[k] == docs[k];
    assert z == docs;
  }

  /** Pairing the IDs with the counts gives back the map. */
  lemma ZipEncoded(p: PostingValue)
    requires |p.docs| > 0
    ensures Zip(IdList(p), CountList(p)) == Some(p.docs)
  {
    ZipAllIds(IdList(p), p.docs);
  }

  /** Decoding what the writer encodes gives back the same map, ttf and tdf. */
  lemma DecodeEncode(p: PostingValue)
    requires Encodable(p)
    ensures Decode(Encode(p)) == Some(p)
  {
    SplitEncoded(p);
    ZipEncoded(p);
  }

  /** The persisted file: each term mapped to its posting's text. */
  ghost function EncodeIndex(idx: Index): map<string, string>
    requires forall t :: t in idx ==> |idx[t].docs| > 0
  {
    map t | t in idx :: Encode(idx[t])
  }

  /** Storing one more term adds its posting's text to the file. */
  lemma EncodeIndexPut(idx: Index, t: string, p: PostingValue, value: string)
    requires forall u :: u in idx ==> |idx[u].docs| > 0
    requires |p.docs| > 0 && value == Encode(p)
    ensures EncodeIndex(idx[t := p]) == EncodeIndex(idx)[t := value]
  {
  }

  /** Every stored value decodes; otherwise loading throws. */
  predicate Decodable(file: map<string, string>) {
    forall t :: t in file ==> Decode(file[t]).Some?
  }

  /** The index the reader loads from a file whose every value decodes. */
  function DecodeIndex(file: map<string, string>): Index
    requires Decodable(file)
  {
    map t | t in file :: Decode(file[t]).value
  }

  /** Every stored value decodes to the posting it was written from. */
  lemma StoredValuesDecode(idx: Index)
    requires IndexWellFormed(idx)
    requires forall t, d :: t in idx && d in idx[t].docs ==> SafeDocId(d)
    ensures EncodeIndex(idx).Keys == idx.Keys
    ensures forall t :: t in idx ==> Decode(EncodeIndex(idx)[t]) == Some(idx[t])
  {
    forall t | t in idx
      ensures Decode(EncodeIndex(idx)[t]) == Some(idx[t])
    {
      assert Encodable(idx[t]) by {
        assert WellFormed(idx[t]);
      }
      DecodeEncode(idx[t]);
    }
  }

  /** A file whose every value decodes to the posting of `idx` loads as `idx`. */
  lemma LoadsAs(file: map<string, string>, idx: Index)
    requires file.Keys == idx.Keys
    requires forall t :: t in file ==> Decode(file[t]) == Some(idx[t])
    ensures Decodable(file) && DecodeIndex(file) == idx
  {
    var loaded := DecodeIndex(file);
    assert loaded.Keys == idx.Keys;
  }

  /**
    Writing a well-formed index whose document IDs are safe and loading it back gives
    the same index: same terms, same per-document counts, same ttf and tdf.
   */
  lemma ReloadRoundTrip(idx: Index)
    requires IndexWellFormed(idx)
    requires forall t, d :: t in idx && d in idx[t].docs ==> SafeDocId(d)
    ensures Decodable(EncodeIndex(idx)) && DecodeIndex(EncodeIndex(idx)) == idx
  {
    StoredValuesDecode(idx);
    LoadsAs(EncodeIndex(idx), idx);
  }
}
