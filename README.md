# Inverted index of the news indexer, in Dafny

This project models the in-memory inverted index of a Java news indexer, which
maps each term to a `Posting`, and proves properties of that model.

- **Posting.** A posting records three things for one term:
  - how often the term occurs in each document (the individual postings map);
  - its total term frequency (ttf);
  - its total document frequency (tdf).
- **IndexWriter.** The writer adds documents to the index:
  1. it folds the tokens of each document into the index, title first and then the indexed fields in a fixed order;
  2. it updates the postings in place;
  3. on close, it writes one text value per term:
     `<docID>|...|<docID>@<count>|...|<count>@<ttf>@<tdf>`, with the document IDs in ascending order.
- **IndexReader.** The reader parses the stored values back into postings and answers five queries:
  - the number of terms;
  - the number of distinct document IDs;
  - one term's postings;
  - the top k terms by total term frequency;
  - a conjunctive (AND) query that sums each document's counts.

The modules follow the program's structure:

- `Postings` (posting.dfy): the `Posting` class and its abstract value `PostingValue(docs, ttf, tdf)`.
- `Indexing` (indexing.dfy): the index as a map from term to `PostingValue`, and how documents fold into it (`AddOccurrence`, `FoldTokens`, `DocumentTokens`).
- `IndexFormat` (index_format.dfy): the stored text (`Encode`, `Decode`, `EncodeIndex`, `DecodeIndex`) and the write-then-read round trip.
- `Queries` (queries.dfy): what the reader's queries return, stated over the abstract index.
- `Writer` (index_writer.dfy): the `IndexWriter` class.
- `Reader` (index_reader.dfy): the `IndexReader` class.
- `JavaStrings` (java_strings.dfy): the parts of `String` and `Integer` the code relies on:
  - `compareTo` order;
  - `split`, which drops trailing empty strings;
  - `toString` and `parseInt`.
- `Wrappers` (wrappers.dfy): `Option` and `Outcome`.

How the classes are modelled:

- Both classes keep their `Map<String, Posting>` as a field of type `map<string, Posting>`.
- Each class also has a ghost field `index`, the value of every posting, and a `Repr` footprint of the Posting objects.
- The writer's invariant says two things:
  - no Posting object is shared between two terms;
  - every posting is well formed: at least one document, every count at least one, tdf equal to the number of documents, and ttf equal to the sum of the counts.
- The tokenizer and the analyzer chain are a function parameter, `(FieldName, string) -> Option<seq<string>>`, where None stands for a TokenizerException.
- The properties file is a `map<string, string>`.

## Model

| member | source | states |
|---|---|---|
| Postings.Posting.constructor | src/edu/buffalo/cse/irf14/index/Posting.java:5-8 | a new Posting has both counters 0 and an empty map, which stands for the source's null map that is always set before it is read |
| Postings.Posting.CompareTo | src/edu/buffalo/cse/irf14/index/Posting.java:11-14 | negative exactly when this posting's ttf is larger, zero exactly when the two ttf are equal, positive exactly when it is smaller: higher frequency sorts first |
| Postings.CompareToAntisymmetric | src/edu/buffalo/cse/irf14/index/Posting.java:11-14 | swapping the operands negates the comparison |
| Postings.CompareToReflexive | src/edu/buffalo/cse/irf14/index/Posting.java:11-14 | a posting compares equal to itself |
| Postings.CompareToTransitive | src/edu/buffalo/cse/irf14/index/Posting.java:11-14 | "sorts before" and "compares equal" are both transitive |
| Postings.CompareToIgnoresDocuments | src/edu/buffalo/cse/irf14/index/Posting.java:11-14 | two postings compare equal exactly when their ttf agree, whatever their documents |
| Postings.Posting.SetIndividualPostingsMap | src/edu/buffalo/cse/irf14/index/Posting.java:20-22 | the map is replaced; both counters are kept |
| Postings.Posting.SetTotalTermFreq | src/edu/buffalo/cse/irf14/index/Posting.java:28-30 | ttf is replaced; map and tdf are kept |
| Postings.Posting.SetTotalDocumentFreq | src/edu/buffalo/cse/irf14/index/Posting.java:36-38 | tdf is replaced; map and ttf are kept |
| Postings.WellFormedBounds | src/edu/buffalo/cse/irf14/index/IndexWriter.java:128-147 | a posting the writer builds has ttf >= tdf >= 1 |
| Postings.SumOfCountsUpdate | src/edu/buffalo/cse/irf14/index/IndexWriter.java:136-144 | setting one document's count changes the sum of counts by the difference, which keeps ttf equal to that sum |
| Indexing.AddOccurrence | src/edu/buffalo/cse/irf14/index/IndexWriter.java:125-149 | one occurrence of a term in a document: the term is in the index afterwards, its ttf is one more than before (from 0 for a new term), and its count for that document is one more than before (from 0) |
| Indexing.AddOccurrenceNewTerm | src/edu/buffalo/cse/irf14/index/IndexWriter.java:128-134 | a term seen for the first time gets {docID: 1} with ttf 1 and tdf 1 |
| Indexing.AddOccurrenceKnownTerm | src/edu/buffalo/cse/irf14/index/IndexWriter.java:135-147 | for a known term, the count for docID rises by one (from 0 when absent), the other documents keep their counts, ttf rises by one, and tdf is the new number of documents |
| Indexing.AddOccurrenceFrame | src/edu/buffalo/cse/irf14/index/IndexWriter.java:125-149 | one occurrence adds its term to the keys and leaves every other term's posting unchanged |
| Indexing.AddOccurrencePreservesWellFormed | src/edu/buffalo/cse/irf14/index/IndexWriter.java:125-149 | one occurrence keeps every posting well formed |
| Indexing.FoldTokens | src/edu/buffalo/cse/irf14/index/IndexWriter.java:120-151 | a token stream of one document is folded in token by token, one AddOccurrence each; no term is ever removed |
| Indexing.FoldTokensPreservesWellFormed | src/edu/buffalo/cse/irf14/index/IndexWriter.java:120-151 | indexing a whole stream keeps every posting well formed |
| Indexing.FoldTokensKeys | src/edu/buffalo/cse/irf14/index/IndexWriter.java:120-151 | after a stream, the terms are exactly the old terms plus the stream's tokens |
| Indexing.FoldTokensCounts | src/edu/buffalo/cse/irf14/index/IndexWriter.java:120-151 | a stream for docID raises each term's ttf, and its count for docID, by exactly its number of occurrences in the stream; counts for other documents are kept |
| Indexing.FoldTokensUntouched | src/edu/buffalo/cse/irf14/index/IndexWriter.java:120-151 | a term that is not in the stream keeps its posting |
| Indexing.FoldTokensAppend | src/edu/buffalo/cse/irf14/index/IndexWriter.java:68-93 | indexing two streams one after the other is the same as indexing their concatenation |
| Indexing.ValueTokens | src/edu/buffalo/cse/irf14/index/IndexWriter.java:73-91 | the tokens of a field's values, value after value; every value that tokenizes contributes all its tokens (as a multiset), and a value that fails contributes none |
| Indexing.FieldTokens | src/edu/buffalo/cse/irf14/index/IndexWriter.java:68-93 | the tokens of the indexed fields in field order; every field the document has contributes all its values' tokens (as a multiset), and an absent field contributes none |
| Indexing.DocumentTokens | src/edu/buffalo/cse/irf14/index/IndexWriter.java:58-95 | None exactly when the title fails to tokenize; otherwise the title's tokens, when there is a title, come first and the indexed fields' tokens come last, and the list holds exactly those tokens and no others |
| Indexing.TokenizerErrorDropsOnlyThatValue | src/edu/buffalo/cse/irf14/index/IndexWriter.java:86-89 | outside the title, a tokenizer error on one value has the same effect as that value producing no tokens |
| Indexing.SameStreamTwoDocuments | src/edu/buffalo/cse/irf14/index/IndexWriter.java:120-151 | indexing the same stream for two documents leaves a new term with exactly those two documents and tdf 2 |
| Indexing.FoldValueStep | src/edu/buffalo/cse/irf14/index/IndexWriter.java:73-91 | one more field value adds its tokens when it tokenizes, and nothing otherwise |
| Indexing.FoldFieldStep | src/edu/buffalo/cse/irf14/index/IndexWriter.java:68-93 | one more field adds its values' tokens when the document has the field, and nothing otherwise |
| Writer.IndexWriter.constructor | src/edu/buffalo/cse/irf14/index/IndexWriter.java:28-45 | a writer starts with an empty index and its invariant |
| Writer.IndexWriter.AddDocument | src/edu/buffalo/cse/irf14/index/IndexWriter.java:58-95 | IndexerException exactly when the title fails to tokenize, with the index unchanged; otherwise the index is the old one with all of the document's tokens folded in under its file ID; the invariant holds either way |
| Writer.IndexWriter.IndexFields | src/edu/buffalo/cse/irf14/index/IndexWriter.java:68-93 | the fields' tokens are folded in, in field order; absent fields are skipped |
| Writer.IndexWriter.IndexFieldValues | src/edu/buffalo/cse/irf14/index/IndexWriter.java:70-91 | an absent field changes nothing; otherwise each value's tokens are folded in, in order, and a value that fails to tokenize is skipped |
| Writer.IndexWriter.IndexFieldValue | src/edu/buffalo/cse/irf14/index/IndexWriter.java:74-89 | a value that tokenizes has its tokens folded in; a TokenizerException is caught and leaves the index as it was |
| Writer.IndexWriter.AddTitleToIndex | src/edu/buffalo/cse/irf14/index/IndexWriter.java:97-118 | failure exactly when the title fails to tokenize, with the index unchanged; otherwise the title's tokens are folded in |
| Writer.IndexWriter.AddStreamToIndex | src/edu/buffalo/cse/irf14/index/IndexWriter.java:120-151 | the index is the old one with the stream's tokens folded in, in order, and the invariant is kept |
| Writer.IndexWriter.IndexToken | src/edu/buffalo/cse/irf14/index/IndexWriter.java:122-149 | one token is one AddOccurrence, and the invariant is kept |
| Writer.IndexWriter.AddPosting | src/edu/buffalo/cse/irf14/index/IndexWriter.java:128-134 | a new term's posting is AddOccurrence's new posting; no other term's Posting object is touched |
| Writer.IndexWriter.FirstPosting | src/edu/buffalo/cse/irf14/index/IndexWriter.java:129-134 | the new Posting is fresh and holds {docID: 1}, ttf 1 and tdf 1 |
| Writer.IndexWriter.UpdatePosting | src/edu/buffalo/cse/irf14/index/IndexWriter.java:135-147 | the term keeps the same Posting object, which is updated in place to AddOccurrence's result; the map from terms to Posting objects is unchanged, so every other term keeps its posting |
| Writer.IndexWriter.Close | src/edu/buffalo/cse/irf14/index/IndexWriter.java:160-187 | the file written maps every term to the text of its posting (EncodeIndex) |
| Writer.IndexWriter.EncodeAll | src/edu/buffalo/cse/irf14/index/IndexWriter.java:163-187 | the loop over the terms produces exactly EncodeIndex of the index |
| Writer.IndexWriter.EncodePosting | src/edu/buffalo/cse/irf14/index/IndexWriter.java:165-185 | the text of one posting is Encode of its value: the IDs in ascending order and the counts aligned with them, ttf and tdf, joined as the format says |
| Writer.IndexWriter.ListedAll | src/edu/buffalo/cse/irf14/index/IndexWriter.java:177-183 | cutting the last character off each buffer gives exactly the joined ID list and count list |
| JavaStrings.Utf16Rank | src/edu/buffalo/cse/irf14/index/IndexWriter.java:169 | the position of a character in UTF-16 code-unit order: characters below U+D800 keep their value, supplementary characters come next, then U+E000..U+FFFF |
| JavaStrings.SupplementaryBeforeHighBmp | src/edu/buffalo/cse/irf14/index/IndexWriter.java:169 | String.compareTo puts "\U{10000}" before "\U{FFFF}", unlike code-point order |
| JavaStrings.SortedKeysAscending | src/edu/buffalo/cse/irf14/index/IndexWriter.java:169 | the document IDs are visited in strictly ascending String.compareTo order (UTF-16 code units) |
| JavaStrings.JavaSplit | src/edu/buffalo/cse/irf14/index/IndexReader.java:51-53 | String.split on one character: the string itself when the separator does not occur; otherwise pieces that hold no separator, with no empty piece at the end |
| JavaStrings.JavaSplitJoin | src/edu/buffalo/cse/irf14/index/IndexReader.java:51-53 | splitting the joined list of non-empty, separator-free parts gives the parts back |
| JavaStrings.ParseInt | src/edu/buffalo/cse/irf14/index/IndexReader.java:54-59 | Integer.parseInt: every non-empty string of digits parses to a non-negative number; the empty string fails, and only a leading '-' gives a negative number |
| JavaStrings.IntToString | src/edu/buffalo/cse/irf14/index/IndexWriter.java:173-185 | Integer.toString: a non-empty text that starts with '-' exactly for negative numbers, the rest decimal digits |
| JavaStrings.ParseIntToString | src/edu/buffalo/cse/irf14/index/IndexReader.java:54-59 | parseInt reads back the decimal text of every number |
| IndexFormat.Encode | src/edu/buffalo/cse/irf14/index/IndexWriter.java:165-185 | the text of a posting starts with its document IDs in ascending order, joined by '\|', followed by '@' |
| IndexFormat.Zip | src/edu/buffalo/cse/irf14/index/IndexReader.java:56-60 | pairing the document IDs with the counts by position fails when a count is missing; when it succeeds, the map's keys are exactly the listed IDs |
| IndexFormat.Decode | src/edu/buffalo/cse/irf14/index/IndexReader.java:50-64 | a value with fewer than four '@'-segments fails; a value that decodes has as ttf and tdf the numbers written in its third and fourth segments |
| IndexFormat.DecodeEncode | src/edu/buffalo/cse/irf14/index/IndexReader.java:50-64 | decoding the stored text of a posting whose document IDs are non-empty and contain neither '@' nor '\|' gives back the same map, ttf and tdf |
| IndexFormat.SplitEncoded | src/edu/buffalo/cse/irf14/index/IndexReader.java:51-55 | splitting the stored text on '@' gives four segments: the ID list, the count list, ttf and tdf |
| IndexFormat.ZipEncoded | src/edu/buffalo/cse/irf14/index/IndexReader.java:56-60 | pairing the IDs with the counts by position gives back the per-document map |
| IndexFormat.ZipNoneExtends | src/edu/buffalo/cse/irf14/index/IndexReader.java:57-60 | once a missing or malformed count makes the pairing loop throw, the whole loop throws |
| IndexFormat.ReloadRoundTrip | src/edu/buffalo/cse/irf14/index/IndexReader.java:39-73 | writing a well-formed index with safe document IDs and reading it back gives the same index |
| Reader.IndexReader.constructor | src/edu/buffalo/cse/irf14/index/IndexReader.java:26 | the reader's map starts empty |
| Reader.IndexReader.Open | src/edu/buffalo/cse/irf14/index/IndexReader.java:39-73 | no reader exactly when a stored value does not decode, so the constructor throws; a missing file gives an empty index; otherwise the index is DecodeIndex of the file |
| Reader.IndexReader.Load | src/edu/buffalo/cse/irf14/index/IndexReader.java:49-67 | succeeds exactly when every value decodes, and then the index is DecodeIndex of the file |
| Reader.IndexReader.Put | src/edu/buffalo/cse/irf14/index/IndexReader.java:61-66 | a fresh Posting with the decoded value is put under its term, and the other terms are kept |
| Reader.IndexReader.DecodeValue | src/edu/buffalo/cse/irf14/index/IndexReader.java:50-64 | the loop-based parse of one value yields exactly Decode of it, None for every input that throws |
| Reader.IndexReader.TotalKeyTerms | src/edu/buffalo/cse/irf14/index/IndexReader.java:81-83 | the number of terms of the index; never -1 |
| Reader.IndexReader.TotalValueTerms | src/edu/buffalo/cse/irf14/index/IndexReader.java:91-104 | the number of distinct document IDs over all postings |
| Reader.IndexReader.AddKeys | src/edu/buffalo/cse/irf14/index/IndexReader.java:99-101 | the set grows by exactly the posting's document IDs |
| Queries.DocIdsOfAdd | src/edu/buffalo/cse/irf14/index/IndexReader.java:93-102 | taking in one more term adds exactly its document IDs to the union |
| Reader.IndexReader.GetPostings | src/edu/buffalo/cse/irf14/index/IndexReader.java:117-124 | null exactly for an unknown term; otherwise the term's map from document ID to count |
| Reader.IndexReader.GetTopK | src/edu/buffalo/cse/irf14/index/IndexReader.java:135-157 | null exactly when k <= 0 or the index is empty; otherwise a list meeting IsTopK: min(k, number of distinct ttf) entries in strictly decreasing ttf, each the first term of its ttf in term order, and no ttf above the last entry's missing |
| Reader.IndexReader.FrequencyFirsts | src/edu/buffalo/cse/irf14/index/IndexReader.java:136-145 | the sorted set holds one entry per distinct ttf: the first term of that ttf in term order |
| Reader.IndexReader.TakeHighest | src/edu/buffalo/cse/irf14/index/IndexReader.java:147-156 | iterating the set from the highest ttf and taking at most k entries gives a list meeting IsTopK; empty exactly when k <= 0 or the set is empty |
| Reader.TakeStep | src/edu/buffalo/cse/irf14/index/IndexReader.java:150-154 | taking the entry of the highest remaining ttf keeps the list strictly decreasing, made of survivors, and accounting for every ttf |
| Reader.TakeAll | src/edu/buffalo/cse/irf14/index/IndexReader.java:150-156 | when the iteration stops, the list meets IsTopK |
| Queries.FrequencyTableUnique | src/edu/buffalo/cse/irf14/index/IndexReader.java:136-145 | the index determines the content of the sorted set |
| Queries.TopKUnique | src/edu/buffalo/cse/irf14/index/IndexReader.java:135-157 | IsTopK determines the list: getTopK's answer is a function of the index and k |
| Queries.TopKDropsTies | src/edu/buffalo/cse/irf14/index/IndexReader.java:137-145 | of two terms with equal ttf, at most one is ever listed |
| Queries.TopKDropsTiedTerm | src/edu/buffalo/cse/irf14/index/IndexReader.java:135-157 | on an index of two terms with equal ttf, getTopK(2) returns only ["a"], fewer than min(2, number of terms) |
| Queries.TopKTermsKeepsTiedTerm | src/edu/buffalo/cse/irf14/index/IndexReader.java:126-134 | on the same index, the only list the tie-breaking top-2 can return is ["a", "b"], of length min(2, number of terms) |
| Queries.TopAmongOf | src/edu/buffalo/cse/irf14/index/IndexReader.java:126-134 | every non-empty set of terms has a term that ranks before all the others |
| Queries.TopKTermsDistinct | src/edu/buffalo/cse/irf14/index/IndexReader.java:126-134 | the tie-breaking top-k lists no term twice |
| Queries.TopKTermsUnique | src/edu/buffalo/cse/irf14/index/IndexReader.java:126-134 | IsTopKTerms determines the list: the corrected top-k is a function of the index and k |
| Reader.IndexReader.GetTopKWithTies | src/edu/buffalo/cse/irf14/index/IndexReader.java:126-157 | null exactly when k <= 0 or the index is empty; otherwise min(k, number of terms) terms in ranking order (higher ttf first, ties in term order), with no term left out that ranks before the last one |
| Reader.PickAll | src/edu/buffalo/cse/irf14/index/IndexReader.java:150-156 | when the selection stops, the list meets IsTopKTerms |
| Reader.IndexReader.Query | src/edu/buffalo/cse/irf14/index/IndexReader.java:170-198 | NullPointerException exactly when there are no terms or some term is unknown; null exactly when no document holds every term; otherwise exactly the documents holding every term, each with the sum of its counts over the terms, repetitions included |
| Reader.IndexReader.Intersect | src/edu/buffalo/cse/irf14/index/IndexReader.java:181-185 | the result keeps exactly the documents of the first map that are in every map, with the first map's counts |
| Reader.IndexReader.SumFrequencies | src/edu/buffalo/cse/irf14/index/IndexReader.java:187-195 | every remaining document's count becomes the sum of its counts over the query's terms |
| Reader.IndexReader.SumOver | src/edu/buffalo/cse/irf14/index/IndexReader.java:190-192 | the inner loop computes that sum for one document |
| Queries.QueryOfOneTerm | src/edu/buffalo/cse/irf14/index/IndexReader.java:170-198 | a one-term query returns the term's postings, counts unchanged |
| Queries.QueryCountsRepeats | src/edu/buffalo/cse/irf14/index/IndexReader.java:189-192 | a term repeated in the query counts once per repetition |
| Queries.CommonDocsAreDocIds | src/edu/buffalo/cse/irf14/index/IndexReader.java:181-185 | every document a query returns is one of the index's document IDs |

## Left out

- File I/O is not modelled: the writer returns the properties as a map and the reader takes one. The escaping that `Properties.store` applies is not modelled either, nor the missing directory. An IOException on writing is not modelled.
- A missing or unreadable file on reading is the `None` input of `Open`. The source only prints the stack trace, and the reader is left empty.
- The tokenizer and the analyzers are not part of this model. They are the `Analyzer` parameter, and the token type and `markAsTitleWord` are not modelled.
- The analyzer factory, the `IndexType` parameter and the index folder are not modelled: they have no effect on the index.
- Java `int` arithmetic is modelled with unbounded integers. That covers `compareTo`'s subtraction, the counters, `freqSum`, and `parseInt`'s 32-bit range. Near 2^31 the source overflows and the model does not.
- Postings.Posting.CompareTo: stated without the overflow of the source's subtraction. For ttf values far apart, the Java result can have the wrong sign.
- `parseInt` accepts only ASCII digits with an optional sign. Non-ASCII digits are not modelled.
- String order is `String.compareTo`'s: the first differing character decides by its UTF-16 code units (`Utf16Rank`), and a proper prefix sorts first. Strings are sequences of Unicode scalar values, so unpaired surrogates cannot be expressed.
- The getters of `Posting` are field reads in the model.
- `getPostings` returns the live map in the source. The model returns its value, so aliasing through the returned map is not captured.
- The order in which `close` and the reader's loop visit the terms does not matter here, since each term is stored once. The model visits them in an unspecified order.
- On a malformed value, the source's constructor throws (ArrayIndexOutOfBounds or NumberFormatException) and no reader is obtained. `Open` models this with `None`: no partially loaded reader is ever used.
- `query` with an unknown term, or with no term at all, throws a NullPointerException in the source. It is modelled as the `NullPointer` outcome, not as an empty or "not found" answer. An empty intersection returns null: `NoResult`.
- `addDocument` with a missing FILEID, or with a TITLE field that has no value, fails with a Java runtime exception. The model requires the document to have both.
- The `inMemIndex.put` that re-inserts an updated Posting under its own term is a no-op and is not modelled.
- Writer.IndexWriter.Close: the returned map is what would be stored. No IndexerException is modelled.

## Findings

| source | as written | input that shows it | evidently intended | confidence | as-written member | corrected member |
|---|---|---|---|---|---|---|
| src/edu/buffalo/cse/irf14/index/IndexReader.java:136-145 | the sorted set's comparator compares ttf only, so an entry that ties on ttf with one already in the set is not added; getTopK returns at most one term per distinct ttf | an index of the terms "a" and "b", each occurring once in one document: getTopK(2) returns ["a"] | the top k terms: min(k, number of terms) terms by decreasing ttf, with ties broken, here in term order | not executed | Reader.IndexReader.GetTopK, Queries.TopKDropsTiedTerm | Reader.IndexReader.GetTopKWithTies, Queries.TopKTermsKeepsTiedTerm |
