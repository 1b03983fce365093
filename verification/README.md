# Search server: a verified Dafny model

This project models the core of an in-process document search server. The core has five parts:

- a tokenizer;
- an index store that keeps an inverted index (word → document → term frequency) and its mirror (document → word → term frequency);
- a query parser with plus-words and minus-words;
- a TF-IDF relevance engine with sequential and parallel forms;
- the sharded accumulator map that the parallel form writes into.

`ProcessQueries` and `ProcessQueriesJoined` run a batch of queries on top of this core.

Every operation is a pure function over immutable datatypes. A call that throws in the source returns `Err(InvalidArgument)` or `Err(OutOfRange)` here (module `Errors`). A call that mutates the server and can throw returns a `Mutation`: the state after the call plus the exception it raised, if any. The `Mutation` exists because `AddDocument` changes the state before it throws.

Modules, one per file:

| module | file | models |
|---|---|---|
| `Tokenizer` | tokenizer.dfy | `SplitIntoWords`, `SplitIntoWordsView` |
| `Index` | index.dfy | the server state, its mirror invariant, the constructors, `AddDocument`, `RemoveDocument` (both policies), `GetWordFrequencies`, `GetDocumentCount`, `ComputeAverageRating`, `IsValidWord`, `IsStopWord`, `SplitIntoWordsNoStop` |
| `WordOrder` | word_order.dfy | `std::string` ordering, and `sort` + `unique` on word lists |
| `Query` | query.dfy | `ParseQueryWord`, `ParseQuery` |
| `Matching` | matching.dfy | `MatchDocument` (both policies) |
| `Sharded` | concurrent_map.dfy | `ConcurrentMap` with its sequential semantics |
| `Relevance` | relevance.dfy | `ComputeWordInverseDocumentFreq`, `FindAllDocuments` (both policies) |
| `Ranking` | ranking.dfy | every `FindTopDocuments` overload |
| `Batch` | process_queries.dfy | `ProcessQueries`, `ProcessQueriesJoined` |
| `MapSum` | map_sum.dfy | the sum of a map's values (proof helper) |

The model reproduces four quirks of the code and proves each as a lemma:

1. `AddDocument` stores the document record before it tokenizes the text. An invalid word therefore leaves the record counted, but the id is never made live.
2. A document made only of stop words gets no reverse entry. `RemoveDocument` on it throws `out_of_range`.
3. The parallel `FindAllDocuments` runs its minus-word removals on the still-empty accumulator. It therefore ignores minus-words.
4. The parallel `MatchDocument` calls `.at` on every query word it reaches. It throws on a word that is not in the index, where the sequential form skips that word.

Consequences of the code as written, which the model follows:

- `AddDocument` can leave a partial mutation behind: the record is stored before the text is tokenized (quirk 1).
- `RemoveDocument` can fail on a live document (quirk 2).
- The sequential and parallel searches return the same list only when no minus-word hits a document a plus-word finds (`Relevance.SeqEqualsParWithoutMinusHits`); otherwise the parallel list also holds the minus-hit documents (quirk 3).
- The parallel `MatchDocument` can fail where the sequential one succeeds (quirk 4).
- The stop-word constructor that takes one string splits it on the space character only. A tab stays inside a stop word and makes that word invalid.

## Model

| member | source | states |
|---|---|---|
| Tokenizer.SplitIntoWords | search_server/string_processing.cpp:5-22 | every token is non-empty and space-free, and the tokens joined in order give the input with its spaces deleted |
| Tokenizer.SplitAtSpace | search_server/string_processing.cpp:5-37 | a space always ends a token: splitting a, a space and b gives the tokens of a followed by the tokens of b, in both implementations |
| Tokenizer.JoinSplit | search_server/string_processing.cpp:5-37 | splitting tokens joined by single spaces gives the same tokens back, in both implementations |
| Tokenizer.ViewTokens | search_server/string_processing.cpp:23-37 | the string_view splitter's tokens are non-empty and space-free, and joined in order they give the input with its spaces deleted |
| Tokenizer.SplittersAgree | search_server/string_processing.cpp:5-37 | the string_view splitter returns exactly the tokens of the character-loop splitter, for every text |
| Tokenizer.EmptyOrAllSpaces | search_server/string_processing.cpp:5-37 | an empty or all-space text yields no tokens from either splitter |
| Tokenizer.NoSpaceIsOneToken | search_server/string_processing.cpp:5-37 | a non-empty text without the space character is one token, even if it contains tabs or newlines |
| Tokenizer.ViewLoopAgrees | search_server/string_processing.cpp:25-35 | the find/remove_prefix loop produces what the character loop produces, starting from a text that does not begin with a space |
| Index.IsValidWord | search_server/search_server.cpp:135-139 | a word is valid exactly when none of its characters lies in [0, 32) |
| Index.GetDocumentCount | search_server/search_server.cpp:35-37 | counts every stored record, including those a failed add leaves behind, so under the invariant never fewer than the live ids |
| Index.KeepNonStop | search_server/search_server.cpp:140-151 | fails with invalid_argument exactly when some token is invalid; otherwise each word is kept as often as it occurs among the tokens, and stop words not at all |
| Index.SplitIntoWordsNoStop | search_server/search_server.cpp:140-151 | the same in terms of the text's tokens |
| Index.NewServer | search_server/search_server.h:95-102 | throws invalid_argument exactly when some non-empty stop word is invalid; otherwise a server that satisfies the invariant, with no documents, no live ids, an empty inverted index and an empty reverse map, whose stop words are the distinct non-empty inputs |
| Index.NewServerFromText | search_server/search_server.h:19-22 | the text constructor accepts exactly when every token is valid, and its stop words are the text's tokens |
| Index.ComputeAverageRating | search_server/search_server.cpp:152-158 | 0 for no ratings; otherwise the quotient truncated toward zero, given by its bounds against the sum for either sign |
| Index.AddDocument | search_server/search_server.cpp:8-25 | a negative or taken id throws invalid_argument and changes nothing; otherwise the record is stored, and the call succeeds exactly when every token is valid; a success makes the id live, a failure leaves both index maps untouched; the invariant is preserved |
| Index.AddWordsValues | search_server/search_server.cpp:20-23 | the indexing loop adds 1/n to a word's entry once per occurrence |
| Index.IndexWords | search_server/search_server.cpp:20-23 | the indexing loop touches only the two index maps and keeps them mirror images |
| Index.AddDocumentFrequencies | search_server/search_server.cpp:18-23 | after a successful add, the document's frequencies hold exactly its non-stop words, each with count/n; the inverted index holds the same value; they sum to 1 when some word is kept, and with no kept word the document gets no reverse entry |
| Index.AddDocumentPartial | search_server/search_server.cpp:16-24 | an invalid word throws after the record is stored: the document count grows, the id is not live, RemoveDocument ignores it and a re-add is refused |
| Index.StopWordsOnlyDocument | search_server/search_server.cpp:102-113 | a document made only of stop words is added and made live, has empty frequencies, and removing it throws out_of_range and changes nothing |
| Index.GetWordFrequencies | search_server/search_server.cpp:44-52 | the empty map for an id without a reverse entry; under the invariant, exactly the words whose posting lists hold the id, with the same values |
| Index.EraseFromPostings | search_server/search_server.cpp:107-109 | the listed words lose the id; other entries and other words are unchanged, and every key stays (listed words become keys) |
| Index.RemoveDocument | search_server/search_server.cpp:102-113 | a no-op for an id that is not live; out_of_range for a live id without a reverse entry; otherwise the id is dropped from documents, live ids and the reverse map; the invariant is preserved |
| Index.RemoveDocumentClears | search_server/search_server.cpp:106-112 | after a removal the id is in no posting list, its frequencies are empty, it is not stored, and the count drops by one |
| Index.RemoveDocumentKeepsOthers | search_server/search_server.cpp:106-112 | a removal keeps every index key (emptied posting lists stay), and other documents' frequencies and postings are unchanged |
| Index.AddThenRemove | search_server/search_server.cpp:102-113 | adding a document with some kept word and then removing it restores documents, live ids, the reverse map and every posting list |
| Index.RemoveDocumentPar | search_server/search_server.cpp:117-131 | the parallel removal throws out_of_range, changing nothing, exactly when the id is live and has no reverse entry or a reverse word is not an index key |
| Index.RemoveDocumentParAgrees | search_server/search_server.cpp:114-131 | under the invariant the parallel removal equals the sequential one |
| WordOrder.SortUnique | search_server/search_server.cpp:187-195 | sort followed by unique gives a strictly increasing list with the same members |
| WordOrder.Less | search_server/search_server.cpp:187-195 | the string order used by sort and unique: a word never goes before itself, and a proper prefix goes before the longer word |
| WordOrder.SortedUnique | search_server/search_server.cpp:187-195 | two strictly increasing lists with the same members are equal, so the sorted, deduplicated list is determined by its member set |
| WordOrder.Filter | search_server/search_server.cpp:68-75 | keeps exactly the members that pass the test and preserves strict order |
| Query.ParseQueryWord | search_server/search_server.cpp:159-173 | errors are invalid_argument; an accepted word renders back to its token, has non-empty data without a leading '-' or control characters, and is marked stop exactly when it is a stop word |
| Query.ParseRender | search_server/search_server.cpp:159-173 | every well-formed query word is parsed back from its rendering |
| Query.ParseAccepts | search_server/search_server.cpp:159-173 | a token is accepted exactly when it renders some well-formed query word |
| Query.Classify | search_server/search_server.cpp:176-186 | the token loop succeeds exactly when every token parses |
| Query.ClassifyCounts | search_server/search_server.cpp:176-186 | the plus list holds each non-stop plus token as often as it occurs, and the minus list each non-stop -w token under w |
| Query.ClassifyConcat | search_server/search_server.cpp:176-186 | classifying two runs of tokens one after the other concatenates their plus and minus lists, so token order is kept |
| Query.ParseQuery | search_server/search_server.cpp:174-197 | fails with invalid_argument exactly when some token does not parse; unless is_sorted is set, both lists are strictly increasing |
| Query.ParseQueryWords | search_server/search_server.cpp:174-197 | w is a plus-word exactly when token w occurs, is not a stop word and has no leading '-'; w is a minus-word exactly when token -w occurs and w is not a stop word |
| Matching.AnyContains | search_server/search_server.cpp:60-67 | the minus-word loop answers true exactly when some minus-word's posting list holds the document |
| Matching.Matched | search_server/search_server.cpp:68-75 | the plus-word loop keeps exactly the words whose posting lists hold the document, in sorted order when the words were sorted |
| Matching.MatchDocument | search_server/search_server.cpp:53-77 | fails exactly for a negative or unknown id (out_of_range) or a malformed query (invalid_argument); otherwise returns the stored status and a strictly increasing word list |
| Matching.MatchDocumentWords | search_server/search_server.cpp:53-77 | in terms of the query text: nothing when some -w token names a word of the document, otherwise exactly the non-stop plus tokens the document contains |
| Matching.AnyContainsAt | search_server/search_server.cpp:88-92 | the .at lookup answers true exactly when some minus-word holds the document and every earlier one is an index key; with every word a key it agrees with the checked loop |
| Matching.MatchedAt | search_server/search_server.cpp:93-96 | the .at filter succeeds exactly when every plus-word is an index key, and then equals the checked filter |
| Matching.MatchDocumentPar | search_server/search_server.cpp:82-101 | out_of_range for a negative or unknown id; for a known id, invalid_argument when the query is malformed; any other failure is the out_of_range of a `.at` on a query word outside the index (see Matching.MatchDocumentParThrows); a success carries the stored status and a strictly increasing word list |
| Matching.MatchDocumentParAgrees | search_server/search_server.cpp:78-101 | when every query word is an index key, the parallel match equals the sequential one |
| Matching.MatchDocumentParThrows | search_server/search_server.cpp:82-101 | when no minus-word hits and some query word is not an index key, the parallel match throws out_of_range while the sequential one succeeds |
| Sharded.ShardOf | search_server/concurrent_map.h:31-34 | the shard of a key is below the shard count |
| Sharded.ShardOfNonNegative | search_server/concurrent_map.h:45-49 | for a non-negative 64-bit key the shard is key mod N, the same index that operator[] and Remove use |
| Sharded.New | search_server/concurrent_map.h:26-29 | the constructed map has the requested number of shards, is well sharded and builds the empty map |
| Sharded.BuildOrdinaryMap | search_server/concurrent_map.h:36-43 | the keys are the union of the shards' keys; in a well-sharded map each value comes from the key's own shard |
| Sharded.Merge | search_server/concurrent_map.h:36-43 | the merged map's keys are exactly the keys of some shard |
| Sharded.ShardsDisjoint | search_server/concurrent_map.h:36-43 | in a well-sharded map no key lives in two shards |
| Sharded.Access | search_server/concurrent_map.h:15-34 | operator[] on a present key hands back its value and leaves the built map as it was; on an absent key it hands back 0 and the built map gains that key with value 0, nothing else changing |
| Sharded.AddTo | search_server/concurrent_map.h:15-34 | `map[key].ref_to_value += delta` adds delta to the key's built value, starting from 0, and keeps the map well sharded |
| Sharded.Remove | search_server/concurrent_map.h:45-49 | the built map loses exactly the key, and removing an absent key changes nothing |
| Relevance.ValidPostingsKnown | search_server/search_server.h:143-145 | under the invariant every document in a posting list is stored, so the documents_.at lookups in the ranking loops cannot throw |
| Relevance.SortedIds | search_server/search_server.h:159-163 | a map's keys in increasing order, once each, as a range for visits them |
| Relevance.ComputeWordInverseDocumentFreq | search_server/search_server.cpp:198-200 | idf(document count, posting-list size) for an index word, out_of_range otherwise |
| Relevance.Output | search_server/search_server.h:159-164 | a document is emitted exactly when its id was accumulated, with the accumulated relevance and the stored rating |
| Relevance.OutputOrdered | search_server/search_server.h:159-164 | the emitted documents come in strictly increasing id order |
| Relevance.RemoveMinus | search_server/search_server.h:150-157 | the minus-word loop erases exactly the documents some minus-word's posting list holds, whatever the predicate, and leaves the other values alone |
| Relevance.AddPostingsValues | search_server/search_server.h:143-148 | one pass over a posting list adds each accepted document's share exactly once and creates entries for accepted documents only |
| Relevance.AddWordValues | search_server/search_server.h:138-148 | one plus-word adds its reference contribution (term frequency times idf, for documents it hits that the predicate accepts) and skips words outside the index |
| Relevance.AccumulatePlusValues | search_server/search_server.h:138-149 | after the plus-word loop, exactly the documents some plus-word hits are present, each with its reference relevance: the sum of its contributions |
| Relevance.FindAllDocumentsFinds | search_server/search_server.h:134-165 | a document is found exactly when the predicate accepts it, a plus-word hits it and no minus-word holds it; it carries its reference relevance and stored rating |
| Relevance.FindAllDocuments | search_server/search_server.h:134-165 | every result is a stored document with its stored rating, in strictly increasing id order |
| Relevance.FindAllDocumentsPar | search_server/search_server.h:166-195 | the parallel results are stored documents with their stored ratings, in strictly increasing id order, as BuildOrdinaryMap's std::map iterates |
| Relevance.FindAllDocumentsOrdered | search_server/search_server.h:159-164 | the sequential results come in increasing id order |
| Relevance.ParRemoveMinus | search_server/search_server.h:171-177 | on the still-empty accumulator the parallel removal phase changes nothing |
| Relevance.ParAddPostingsBuild | search_server/search_server.h:181-186 | the sharded pass over one posting list builds the same map as the plain pass, and keeps the map well sharded |
| Relevance.ParAccumulateBuild | search_server/search_server.h:178-188 | the sharded plus-word phase builds the same map as the sequential plus-word loop |
| Relevance.ParIgnoresMinus | search_server/search_server.h:166-195 | the parallel search answers as the sequential search does for the query with its minus-words dropped |
| Relevance.SeqWithinPar | search_server/search_server.h:134-195 | every document the sequential search finds, the parallel search finds too, with the same relevance and rating |
| Relevance.MinusWithoutHits | search_server/search_server.h:150-157 | when no minus-word holds any document a plus-word hits, the sequential search answers as if there were no minus-words |
| Relevance.SeqEqualsParWithoutMinusHits | search_server/search_server.h:134-195 | under that condition the sequential and parallel searches return the same list |
| Ranking.Insert | search_server/search_server.h:112-116 | inserting into a list ordered by the comparator keeps it ordered and adds exactly the one document |
| Ranking.Before | search_server/search_server.h:112-116 | the comparator: a document goes before another only when it is at least as relevant, and never when both relevance and rating tie |
| Ranking.SortDocuments | search_server/search_server.h:112-116 | the sort returns a permutation of its input in which no document comes after one it goes before (higher relevance, then higher rating) |
| Ranking.Top | search_server/search_server.h:112-120 | sort then truncate: min(5, n) documents, ordered, drawn from the input (all of it when n ≤ 5), and no document left out beats one that was kept |
| Ranking.FindTopDocuments | search_server/search_server.h:107-122 | fails with invalid_argument exactly when the query is malformed; otherwise the top of FindAllDocuments under the chosen policy, with the guarantees of Top |
| Ranking.TopDocumentsFound | search_server/search_server.h:107-122 | every returned document is stored, accepted by the predicate and hit by a plus-word, with its reference relevance and stored rating; under the sequential policy no minus-word holds it |
| Ranking.TopDocumentsPass | search_server/search_server.h:107-122 | every returned document passes the predicate |
| Ranking.FindTopDocumentsByStatus | search_server/search_server.h:123-129 | fails exactly when the query is malformed; otherwise the top of FindAllDocuments filtered to that status: min(5, n) documents, ordered, drawn from the n found, with no found document left out going before a kept one, and every one with exactly the requested status |
| Ranking.FindTopDocumentsActual | search_server/search_server.h:130-133 | the overloads without a status: the same guarantees for ACTUAL documents only |
| Batch.Collect | search_server/process_queries.cpp:5-10 | the gathered answers fail exactly when some answer failed; otherwise there is one list per answer, in order |
| Batch.ProcessQueries | search_server/process_queries.cpp:5-10 | one list per query; the i-th is FindTopDocuments(queries[i], ACTUAL) under the sequential policy; the batch fails exactly when some query does |
| Batch.ProcessQueriesAnswers | search_server/process_queries.cpp:5-10 | the batch fails exactly when some query is malformed; every list has at most 5 documents, all ACTUAL |
| Batch.FlattenContents | search_server/process_queries.cpp:11-18 | a flattened document comes from some list and every list's documents appear; with lists of at most 5 the total is at most 5 per list |
| Batch.FlattenSegment | search_server/process_queries.cpp:11-18 | in the flattened list the i-th answer sits unchanged right after the documents of the answers before it |
| Batch.Join | search_server/process_queries.cpp:11-18 | the joined list is the answers in order, and its length is their total |
| Batch.ProcessQueriesJoined | search_server/process_queries.cpp:11-18 | fails exactly when the batch does; otherwise the per-query lists written one after the other, duplicates kept: the length is the sum of their lengths, the i-th list sits unchanged right after the lists before it, and there are at most 5 × the number of queries |
| Batch.CollectConcat | search_server/process_queries.cpp:5-10 | gathering two runs of answers one after the other concatenates their lists |
| Batch.FlattenConcat | search_server/process_queries.cpp:11-18 | flattening distributes over concatenation |
| Batch.JoinedConcat | search_server/process_queries.cpp:11-18 | the joined answer to two batches in a row is the joined answer to the first followed by that to the second, so query order is kept |

## Left out

- Threads, mutexes, `lock_guard` and `std::execution::par` are not modelled. Each parallel variant is its sequential meaning, in the order the code writes the loops. Claims about scheduling or lost updates are not modelled.
- An exception that escapes an element function of a parallel algorithm calls `std::terminate`. The model returns that exception instead, and takes the words of `any_of` and `copy_if` left to right.
- Floating point is not modelled. Term frequencies and relevances are `real`, so repeated additions of 1/n are exact.
- `log` is not modelled: the inverse document frequency is a parameter `idf`, applied to (document count, posting-list size).
- Ranking.Before: the comparator drops the `numeric_limits::epsilon` tolerance on relevance. With that tolerance the comparator is not a strict weak order; the model uses exact (relevance, rating) order.
- Ranking.SortDocuments: `std::sort` may order documents tied on both relevance and rating in any way. The model fixes one such order, and the contracts promise only the sortedness and the permutation.
- Index.InvWordCount: for a document without kept words the source computes 1.0/0. That value is never used, and the model puts 0 there.
- Index.ComputeAverageRating: does not model overflow of the `int` accumulation in `accumulate`, because integers are unbounded here.
- Document ids and ratings are unbounded integers. Ids are converted to 64-bit unsigned only for shard selection, as the source does.
- Words are owned strings. The `string_view` lifetimes of the source are not modelled, including views into the text of a removed document.
- `GetWordFrequencies` returns an empty map value, not a reference to a shared static map.
- `begin`/`end` are not modelled. The live ids are the set `documentIds`.
- `document.h`, `paginator.h` and `string_processing.h` are not part of this model. `MakeUniqueNonEmptyStrings` is modelled as the set of distinct non-empty strings, and `Document` as (id, relevance, rating).
- The callers' predicate is a total function of (id, status, rating). A predicate that throws or has side effects is not modelled.
- Relevance.FindAllDocuments: requires that every document in a posting list is stored. Every reachable state satisfies this (Relevance.ValidPostingsKnown). Other states, where `documents_.at` would throw, are not modelled.
- The parallel search sizes its sharded map by the number of index words, which is 0 for an empty index. The modulo by zero that would follow is never reached, because with no index words no query word is a key. The model requires a positive shard count wherever a shard is computed.
