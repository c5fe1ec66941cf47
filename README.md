# search-engine in Dafny

A verified model of the core of a small in-memory full-text search engine (a
C++ `SearchServer`). Documents are added under an integer id with a status
and ratings. Their words (minus stop words) go into an inverted index that
maps word -> document id -> term frequency. A query of plus-words and
`-`minus-words returns at most five documents, ranked by TF-IDF relevance
and then by rating. Around the index sit:
- a tokenizer and a stop-word normaliser;
- a duplicate remover, which drops every document whose word set an earlier
  document already has;
- a request window, which counts the searches that found nothing;
- a sharded map.

Files, one module each:
- `common.dfy` (`Common`): the error kinds (`invalid_argument`, `out_of_range`), `Result`, `Document`, `DocumentStatus` and `MaxResultDocumentCount` (5).
- `ordered_set.dfy` (`OrderedSet`): `std::set<std::string>` as a strictly sorted sequence under `std::string`'s `<`, and ascending iteration over a `std::set<int>`.
- `string_processing.dfy` (`StringProcessing`): `SplitIntoWords` and `MakeUniqueNonEmptyStrings`.
- `search_server.dfy` (`Server`): the class `SearchServer`.
  - Its four containers are the fields `words`, `wordToDocumentFreqs`, `documents` and `documentIds`.
  - `Valid()` is their forward and inverse consistency:
    - a posting entry exists exactly when the document holds the word, with the same frequency;
    - `documentIds` is the key set of `documents`;
    - `words` is a subset of the indexed words.
  - Every mutating method preserves `Valid()`.
  - Searches are stated against ghost specification functions (`Candidates`, `Relevance`, `AllDocuments`, `TopDocuments`, `MatchResult`), and the methods are proved equal to them.
- `remove_duplicates.dfy` (`Dedup`): `RemoveDuplicates` over a `SearchServer`.
- `request_queue.dfy` (`Requests`): the class `RequestQueue`. A ghost `history` of every recorded result ties the deque and the counter to functions of that history.
- `concurrent_map.dfy` (`Concurrent`): the class `ConcurrentMap`, whose shards are an `array` of maps.

Exceptions are `Result` failures: `invalid_argument` becomes `InvalidArgument`, and `std::out_of_range` from `documents_.at` becomes `OutOfRange`. The natural logarithm used by the inverse document frequency is a parameter `ln: real -> real`. Term frequencies and relevances are `real`.

## Model

| member | source | states |
|---|---|---|
| StringProcessing.SplitIntoWords | src/string_processing.cpp:6-24 | the scan with a word buffer flushed at each space and at the end returns exactly `Words(text)`, the maximal runs of non-space characters in order |
| StringProcessing.WordsAreNonEmpty | src/string_processing.cpp:9-21 | every word is non-empty and holds no space |
| StringProcessing.ConcatWords | src/string_processing.cpp:6-24 | writing the words one after another gives the text with its spaces removed |
| StringProcessing.BlankHasNoWords | src/string_processing.cpp:6-24 | empty text, or text of spaces only, has no words |
| StringProcessing.WordCountIsRunCount | src/string_processing.cpp:9-21 | the number of words equals the number of positions where a run of non-space characters starts |
| StringProcessing.CString | src/string_processing.h:21 | `str.data()` read back as a C string is a NUL-free prefix of the string that stops only at its end or at a NUL, so it is the prefix before the first NUL |
| StringProcessing.CStringOfPlain | src/string_processing.h:21 | a string without NUL survives `str.data()` unchanged |
| StringProcessing.MakeUniqueNonEmptyStrings | src/string_processing.h:16-25 | the result is the set of the non-empty inputs cut at NUL; duplicates collapse; every non-empty NUL-free input is in it; the empty string is in it exactly when some input starts with NUL |
| OrderedSet.Insert | src/search_server.cpp:127-129 | inserting into an ordered string set keeps it strictly sorted, adds exactly the new element, and grows it only when the element is new |
| OrderedSet.Ascending | src/search_server.cpp:54-60 | the ascending listing of an int set is increasing, has the same elements and the same size |
| OrderedSet.AscendingIds | src/search_server.cpp:54-60 | iterating a `std::set<int>` from `begin` to `end` yields its ascending listing |
| Server.TruncDivBounds | src/search_server.cpp:101 | C++ `int` division truncates toward zero: the quotient has the sign of the dividend and is less than one divisor from it |
| Server.AverageRatingBounds | src/search_server.cpp:93-102 | the stored rating of a non-empty rating list lies between its least and greatest rating |
| Server.SearchServer.ComputeAverageRating | src/search_server.cpp:93-102 | the loop's sum divided with truncation gives `AverageRating`: 0 for no ratings, else the truncated mean |
| Server.AccumulatedCounts | src/search_server.cpp:30-34 | adding `step` per occurrence gives each word of the document `step` times its number of occurrences, and no other word |
| Server.AccumulatedIsFrequency | src/search_server.cpp:29-34 | adding `1/n` per occurrence gives each distinct word its occurrences over `n`, the term frequency |
| Server.SumOfValuesRemove | src/search_server.cpp:29-34 | the sum of a frequency map can be split off at any of its words |
| Server.SumOfAccumulated | src/search_server.cpp:29-34 | after `n` words, each adding `step` to its entry, the entries sum to `n` steps |
| Server.FrequenciesSumToOne | src/search_server.cpp:25-34 | the term frequencies stored for a document with at least one non-stop word sum to 1 |
| Server.AddKeepsConsistent | src/search_server.cpp:27-35 | adding a new non-negative id with its frequencies to the four containers keeps them consistent |
| Server.RemovedEverywhere | src/search_server.h:187-194 | removing the id from the postings of its own words removes it from every posting |
| Server.StatusIs | src/search_server.h:57-62 | the status overload's predicate admits a document exactly when its status is the given one |
| Server.RanksBefore | src/search_server.h:37-43 | a document at least 1e-6 more relevant always ranks first; a document ranked first is never 1e-6 or more less relevant; one ranked first without being more relevant has the higher rating |
| Server.RanksBeforeAsymmetric | src/search_server.h:37-43 | the ranking comparator never puts two documents each before the other |
| Server.SortByRank | src/search_server.h:37-43 | the sort is a permutation of its input |
| Server.SortByRankSorted | src/search_server.h:37-43 | after the sort no neighbouring pair is out of rank order |
| Server.SortByRankDistinct | src/search_server.h:37-43 | the sort keeps the ids distinct |
| Server.Top | src/search_server.h:45-47 | the cut keeps the first `min(n, 5)` entries |
| Server.RankedTop | src/search_server.h:37-47 | the first five entries of a ranking keep distinct ids and local order, come from the input, and are all of it when it has at most five entries |
| Server.SearchServer.constructor | src/search_server.h:164-171 | an empty index over a set of valid stop words |
| Server.SearchServer.Create | src/search_server.h:164-171 | the stop words are the unique non-empty inputs cut at NUL; construction fails with `InvalidArgument` exactly when one of them holds a control character; otherwise the index is empty and consistent |
| Server.SearchServer.CreateFromText | src/search_server.cpp:11-18 | the text constructor keeps the stop words of the text's words, with the same failure condition |
| Server.SearchServer.NonStopWords | src/search_server.cpp:80-91 | the kept tokens are exactly those that are not stop words |
| Server.SearchServer.SplitIntoWordsNoStop | src/search_server.cpp:80-91 | fails with `InvalidArgument` exactly when some token holds a control character; otherwise returns the non-stop tokens in order |
| Server.SearchServer.AddDocument | src/search_server.cpp:21-36 | fails with `InvalidArgument` and changes nothing exactly when the id is negative or used, or a token is invalid; otherwise stores the document with its truncated average rating, status and term frequencies, posts each of its non-stop words with its frequency, adds them to the word set, adds the id, and keeps the index consistent |
| Server.SearchServer.Store | src/search_server.cpp:27-35 | the state update after the checks: document, postings, words and ids as above, with consistency kept |
| Server.SearchServer.IndexWords | src/search_server.cpp:29-34 | the indexing loop leaves the document's frequencies equal to the per-occurrence accumulation, and each posting extended by the id with that frequency |
| Server.SearchServer.UnindexWords | src/search_server.h:187-194 | the removal loop takes each of the document's words out of the word set and the id out of their postings, leaving every other posting as it was |
| Server.SearchServer.RemoveDocument | src/search_server.h:173-198 | an unknown id changes nothing; otherwise the id leaves `documents`, `documentIds` and every posting (other entries unchanged), each of its words leaves the word set even when another document holds it, and consistency is kept |
| Server.IsValidWord | src/search_server.cpp:74-78 | a word is valid exactly when each of its characters is at least a space; a valid word holds no NUL |
| Server.SearchServer.IsStopWord | src/search_server.cpp:70-72 | every stop word is a valid word, because the constructors reject any other |
| Server.SearchServer.ParseQueryWord | src/search_server.cpp:104-119 | fails with `InvalidArgument` exactly on an empty token, a lone `-`, a leading `--` or a control character; otherwise strips exactly one leading `-` into `isMinus` (the token is rebuilt from the result), and `isStop` is stop-list membership |
| Server.SearchServer.ParseTokens | src/search_server.cpp:121-134 | a query fails exactly when one of its tokens is malformed; otherwise the plus-words are exactly the non-stop tokens without a minus, and the minus-words are exactly the non-stop words written with one, each an ordered set |
| Server.SearchServer.ParseQuery | src/search_server.cpp:121-134 | the tokenize-and-insert loop yields `ParsedQuery(text)` |
| Server.SearchServer.InverseDocumentFreq | src/search_server.cpp:136-138 | on a consistent index, with a logarithm that is non-negative from 1 up, the IDF is never negative, since no posting is longer than the collection |
| Server.SearchServer.PostingWithinDocuments | src/search_server.cpp:136-138 | on a consistent index a posting has no more entries than there are documents |
| Server.SearchServer.AccumulateDocument | src/search_server.h:131-136 | one visit of the posting loop: the visited document gains its tf times IDF when the predicate admits it, and every other entry keeps its value |
| Server.SearchServer.AccumulateWord | src/search_server.h:130-136 | every document of the word's posting that the predicate admits gains tf times IDF and enters the map; every other entry keeps its value |
| Server.SearchServer.ExcludeWord | src/search_server.h:143-145 | every document of the minus-word's posting leaves the map; the rest keep their relevance |
| Server.SearchServer.ScorePlusWords | src/search_server.h:125-137 | the plus-word loop yields exactly the admitted documents holding some plus-word, each with its TF-IDF relevance over all plus-words |
| Server.SearchServer.DropMinusWords | src/search_server.h:139-146 | the minus-word loop removes exactly the documents holding some minus-word |
| Server.SearchServer.FindAllDocuments | src/search_server.h:124-153 | the result is `AllDocuments`: the candidates in ascending id order, each with its relevance and stored rating |
| Server.SearchServer.DocumentsFor | src/search_server.h:148-151 | entry `k` of the result list is document `ids[k]` with its relevance and stored rating |
| Server.SearchServer.DocumentsForDistinct | src/search_server.h:148-151 | listing ascending ids gives distinct ids |
| Server.SearchServer.DocumentsForEntries | src/search_server.h:148-151 | every listed entry is for one of the ids, with its stored rating and relevance |
| Server.SearchServer.DocumentsForCovers | src/search_server.h:148-151 | every id gets an entry |
| Server.SearchServer.AllDocumentsSpec | src/search_server.h:124-153 | each candidate appears exactly once, and every entry is a candidate with its stored rating and relevance |
| Server.SearchServer.TopDocumentsSpec | src/search_server.h:32-50 | fails with `InvalidArgument` exactly when a query token is malformed; otherwise returns `min(candidates, 5)` documents with distinct ids and no neighbouring pair out of rank order; each passes the predicate, holds a plus-word and holds no minus-word, whatever its relevance, and carries its stored rating and relevance; every candidate is returned when there are at most five |
| Server.SearchServer.FindTopDocuments | src/search_server.h:32-55 | parse, find, sort and cut yield `TopDocuments` |
| Server.SearchServer.FindTopDocumentsWithStatus | src/search_server.h:57-62 | the status overload is the search whose predicate admits exactly that status |
| Server.SearchServer.FindTopDocumentsActual | src/search_server.h:63-66 | the query-only overload is the status search for `ACTUAL` |
| Server.SearchServer.MatchedPlusSpec | src/search_server.h:207-219 | the matched plus-words are exactly the query's plus-words that are in the word set and whose posting holds the id, and they stay in ascending order |
| Server.SearchServer.MatchPlusWords | src/search_server.h:207-219 | the plus-word loop pushes exactly `MatchedPlus` |
| Server.SearchServer.FindMinusHit | src/search_server.h:221-234 | the minus-word loop clears the list exactly when some minus-word in the word set has the id in its posting |
| Server.SearchServer.MatchResultSpec | src/search_server.h:200-237 | a parse error is `InvalidArgument`; after a good parse an unknown id is `OutOfRange`; otherwise it returns the document's status and the plus-words found in it in ascending order, all of them when no minus-word is found in it and none when one is |
| Server.SearchServer.MatchDocument | src/search_server.h:200-237 | the method yields `MatchResult` |
| Server.SearchServer.GetWordFrequencies | src/search_server.cpp:62-68 | an unknown id gets the empty map; otherwise the words are exactly the postings that hold the id, each with the posted frequency |
| Server.SearchServer.GetDocumentCount | src/search_server.cpp:46-48 | the number of stored documents equals the number of live ids |
| Server.SearchServer.DocumentIdsInOrder | src/search_server.cpp:54-60 | `begin`/`end` visit exactly the stored ids, ascending, `GetDocumentCount()` of them |
| Dedup.DuplicatesSpec | src/remove_duplicates.cpp:10-38 | no two kept documents have the same word set, and every duplicate's word set is held by a kept document with a smaller id |
| Dedup.SubsetOfSameSize | src/remove_duplicates.cpp:23-33 | equal sizes plus inclusion means equal word sets, so the size test and the lookup loop decide equality |
| Dedup.SameWordSet | src/remove_duplicates.cpp:20-33 | the size check and the lookup loop with `break` answer exactly whether the two word sets are equal, frequencies ignored |
| Dedup.MarkedSkip | src/remove_duplicates.cpp:11-13 | skipping an id that is already marked loses nothing: whatever it would mark is already marked |
| Dedup.MarkSameWords | src/remove_duplicates.cpp:15-37 | the inner loop marks exactly the larger ids whose word set equals the outer id's |
| Dedup.FindDuplicates | src/remove_duplicates.cpp:8-38 | the nested scan marks exactly the ids whose word set a smaller id has |
| Dedup.RemoveAll | src/remove_duplicates.cpp:40-43 | removing the listed ids one by one takes exactly them out of documents, ids and postings, and their words out of the word set |
| Dedup.RemoveDuplicates | src/remove_duplicates.cpp:7-44 | the duplicates are removed in ascending order and nothing else is: documents, ids, postings and words are those of the old index minus the duplicates; consistency is kept |
| Requests.WindowStep | src/request_queue.cpp:25-35 | recording a result grows the window by it until 1440 records, then leaves the window as it was |
| Requests.NoResultCountStep | src/request_queue.cpp:25-35 | recording a result adds one for an empty result and, on overflow, subtracts one when the front record is empty |
| Requests.CountBeforeOverflow | src/request_queue.cpp:26-29 | before the first overflow the counter equals the number of empty records held |
| Requests.CounterOutgrowsWindow | src/request_queue.cpp:30-35 | after a search that found something and `n` empty ones, the counter is `n`, while the window holds at most 1440 records and 1439 empty ones |
| Requests.CounterGoesNegative | src/request_queue.cpp:30-35 | after a search that found nothing and `n` that found something, the counter is 1 until the window fills and `1440 - n` after, so it is negative once `n` passes 1440 |
| Requests.RequestQueue.constructor | src/request_queue.cpp:5-7 | the queue starts empty with a zero counter and keeps the server it was given |
| Requests.RequestQueue.GetNoResultRequests | src/request_queue.cpp:21-23 | the counter is `NoResultCount` of the history |
| Requests.RequestQueue.UpdateRequests | src/request_queue.cpp:25-35 | push at the back; count an empty result; on overflow uncount an empty front and pop the back; the window stays at most 1440 records |
| Requests.RequestQueue.AddFindRequest | src/request_queue.h:34-39 | returns the server's search result unchanged and records it; a rejected query records nothing |
| Requests.RequestQueue.AddFindRequestWithStatus | src/request_queue.cpp:9-13 | the same for the status search |
| Requests.RequestQueue.AddFindRequestActual | src/request_queue.cpp:15-19 | the same for the `ACTUAL` search |
| Concurrent.ShardOf | src/concurrent_map.h:21 | the shard index is below the shard count, and is `key % N` for keys within `size_t` range |
| Concurrent.MergedSpec | src/concurrent_map.h:26-35 | the folded map holds exactly the keys of all shards, each with the sum of its values across shards |
| Concurrent.MergedSharded | src/concurrent_map.h:20-35 | with every key in its own shard, each folded value equals the key's value in that shard |
| Concurrent.ConcurrentMap.constructor | src/concurrent_map.h:17-18 | `bucket_count` empty shards |
| Concurrent.ConcurrentMap.Access | src/concurrent_map.h:20-24 | `operator[]` touches only the key's shard, default-inserting `0` when the key is absent, and keeps every key in its own shard |
| Concurrent.ConcurrentMap.Assign | src/concurrent_map.h:20-24 | writing through `operator[]` sets the key in its shard only, keeping the sharding |
| Concurrent.ConcurrentMap.BuildOrdinaryMap | src/concurrent_map.h:26-35 | the result is the fold of all shards by `result[key] += value` |
| Concurrent.ConcurrentMap.AddShard | src/concurrent_map.h:30-32 | the inner loop adds every entry of one shard into the result |

## Left out

- I/O is not modelled: console output, `PrintMatchDocumentResult`, and the free wrappers `AddDocument`, `FindTopDocuments` and `MatchDocuments` that catch and print (src/search_server.cpp:141-184). `LOG_DURATION_STREAM` and the `cout` in `RemoveDuplicates` are left out too. `Dedup.RemoveDuplicates` instead returns the ids it reports, in the order it reports them.
- `src/main.cpp` and `src/process_queries.cpp` are not part of this model. The first is a standalone prototype; the second is a parallel fan-out over `FindTopDocuments`.
- Execution policies: only the sequential path of `FindTopDocuments`, `RemoveDocument` and `MatchDocument` is modelled. The parallel `for_each` races on shared containers.
- Floating point: frequencies and relevances are exact `real`s, and `log` is the parameter `ln`.
- `Server.SearchServer.InverseDocumentFreq` gives an empty posting (left by `RemoveDocument`) an IDF of 0. The C++ code computes `log(n/0)` there, but loops over the empty posting and never uses the value.
- `Server.SearchServer.Store`: for a document with no non-stop words, the model uses a step of 0 where C++ computes `1.0/0`. The C++ value is never used, because the loop has no words.
- `Server.SortByRank` stands in for `std::sort` with the 1e-6 comparator. That comparator is not a strict weak ordering, so `std::sort` may produce any order, or worse. The model inserts in the comparator's order. It promises a permutation with no neighbouring pair out of order, and not a globally sorted result.
- `Server.SearchServer.ComputeAverageRating`: does not model 32-bit overflow of `rating_sum`, because integers are unbounded.
- `IsValidWord` compares `char` codes with `'\0'` and `' '`. On a platform with signed `char`, bytes of 128 and above are negative and count as valid. The model's characters above 127 are valid too, so the outcome agrees.
- `string_view` lifetimes, including the views that dangle once `RemoveDocument` erases from `words_`, are not modelled: words are value strings. `SplitIntoWordsView` is not part of this model.
- `document.h` is not part of this model. `Document(id, relevance, rating)` is declared here, and so is `DocumentStatus`. Besides `ACTUAL`, its members `IRRELEVANT`, `BANNED` and `REMOVED` are assumed.
- Template parameters are fixed:
  - a `StringContainer` is a sequence of strings;
  - a `DocumentPredicate` is a function value;
  - `ConcurrentMap<K, V>` has integer keys and `real` values.
- The `ConcurrentMap` mutexes and `lock_guard`s are not modelled. `operator[]`'s returned reference is split into a read (`Access`) and a write (`Assign`). The static check for integral key types has no counterpart.
- `Server.SearchServer.MatchDocument` returns owned strings rather than views into `words_`.
- Kept as the code behaves, where the intended behaviour may differ:
  - `MakeUniqueNonEmptyStrings` inserts `str.data()`, so a non-empty string that starts with NUL enters the set as the empty string.
  - `UpdateRequests` checks the front record but pops the back one, so the window keeps the first 1440 results. The counter can exceed the window's empty records, as `Requests.CounterOutgrowsWindow` shows. It can also go negative: one empty result followed by 1441 that found something leaves it at -1, as `Requests.CounterGoesNegative` shows.
