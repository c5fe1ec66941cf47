/** The in-memory search index: a class holding the stored words, the
    inverted index (word -> document id -> term frequency), the per-document
    data and the set of live document ids, with the operations that add,
    remove, search and match documents. */
module Server {
  import opened Common
  import opened OrderedSet
  import opened StringProcessing

  /** What the index keeps per document. */
  datatype DocumentData = DocumentData(rating: int, status: DocumentStatus, wordFreqs: map<string, real>)

  /** One parsed query word: the word without its minus sign, whether it had
      one, and whether it is a stop word. */
  datatype QueryWord = QueryWord(data: string, isMinus: bool, isStop: bool)

  /** A parsed query: its plus-words and its minus-words, each an ordered set. */
  datatype Query = Query(plusWords: seq<string>, minusWords: seq<string>)

  /** The filter a search applies to (document id, status, rating). */
  type DocumentPredicate = (int, DocumentStatus, int) -> bool

  /** A stop-word set: the constructors reject any invalid word. */
  type StopWords = s: set<string> | forall w :: w in s ==> IsValidWord(w) witness {}

  /** The inverted index: word -> document id -> term frequency. */
  type Postings = map<string, map<int, real>>

  /** `IsValidWord`: the word holds no character with code 0 to 31. */
  predicate IsValidWord(word: string): (b: bool)
    ensures b <==> forall k :: 0 <= k < |word| ==> ' ' <= word[k]
    ensures b ==> '\0' !in word
  {
    forall k :: 0 <= k < |word| ==> !('\0' <= word[k] < ' ')
  }

  /** Sum of a sequence of ratings, accumulated from the front. */
  function Sum(s: seq<int>): int
  {
    if s == [] then 0 else Sum(s[..|s| - 1]) + s[|s| - 1]
  }

  /** C++ `int` division: the quotient truncated toward zero. */
  function TruncDiv(a: int, b: int): int
    requires b > 0
  {
    if a >= 0 then a / b else -((-a) / b)
  }

  /** The quotient truncated toward zero: never further from zero than the
      exact quotient, and less than one away from it. */
  lemma TruncDivBounds(a: int, b: int)
    requires b > 0
    ensures a >= 0 ==> 0 <= TruncDiv(a, b) && TruncDiv(a, b) * b <= a < TruncDiv(a, b) * b + b
    ensures a < 0 ==> TruncDiv(a, b) <= 0 && TruncDiv(a, b) * b - b < a <= TruncDiv(a, b) * b
  {
    if a < 0 {
      EuclidBounds(-a, b);
      Negate((-a) / b, b);
    } else {
      EuclidBounds(a, b);
    }
  }

  lemma EuclidBounds(a: int, b: int)
    requires a >= 0 && b > 0
    ensures 0 <= a / b && (a / b) * b <= a < (a / b) * b + b
  {
  }

  lemma Negate(q: int, b: int)
    ensures (-q) * b == -(q * b)
  {
  }

  lemma MulMonotone(x: int, y: int, n: int)
    requires x <= y && n >= 0
    ensures x * n <= y * n
  {
    assert y * n - x * n == (y - x) * n;
  }

  lemma MulStep(x: int, y: int, n: int)
    requires n > 0
    ensures x < y ==> x * n + n <= y * n
  {
    if x < y {
      MulMonotone(x + 1, y, n);
      assert (x + 1) * n == x * n + n;
    }
  }

  /** The rating a document is stored with: the mean of its ratings, truncated
      toward zero, or 0 when there are none. */
  function AverageRating(ratings: seq<int>): int
  {
    if ratings == [] then 0 else TruncDiv(Sum(ratings), |ratings|)
  }

  lemma {:induction false} SumBounds(s: seq<int>, lo: int, hi: int)
    requires forall k :: 0 <= k < |s| ==> lo <= s[k] <= hi
    ensures |s| * lo <= Sum(s) <= |s| * hi
    decreases |s|
  {
    if s != [] {
      SumBounds(s[..|s| - 1], lo, hi);
      assert |s| * lo == (|s| - 1) * lo + lo;
      assert |s| * hi == (|s| - 1) * hi + hi;
    }
  }

  /** The stored rating lies between the least and the greatest rating given. */
  lemma AverageRatingBounds(ratings: seq<int>, lo: int, hi: int)
    requires ratings != []
    requires forall k :: 0 <= k < |ratings| ==> lo <= ratings[k] <= hi
    ensures lo <= AverageRating(ratings) <= hi
  {
    var n, s := |ratings|, Sum(ratings);
    SumBounds(ratings, lo, hi);
    TruncDivBounds(s, n);
    var q := TruncDiv(s, n);
    MulStep(hi, q, n);
    MulStep(q, lo, n);
  }

  /** Term frequency of each distinct word: its occurrences over the number of words. */
  function TermFrequencies(ws: seq<string>): map<string, real>
  {
    map w | w in ws :: Frequency(multiset(ws)[w], |ws|)
  }

  /** `count` occurrences among `total` words. */
  function Frequency(count: nat, total: nat): real
    requires total > 0
  {
    (count as real) / (total as real)
  }

  /** The frequencies `AddDocument` has accumulated after the words `ws`,
      each occurrence adding `step` to its word's entry. */
  function Accumulated(ws: seq<string>, n: nat, step: real): map<string, real>
    requires n <= |ws|
  {
    if n == 0 then map[]
    else
      var m := Accumulated(ws, n - 1, step);
      var w := ws[n - 1];
      m[w := (if w in m then m[w] else 0.0) + step]
  }

  /** The posting of `w`, empty when the word is not indexed. */
  function PostingOf(postings: Postings, w: string): map<int, real>
  {
    if w in postings then postings[w] else map[]
  }

  /** The inverted index after document `id` with frequencies `tf` is added. */
  function AddPostings(postings: Postings, id: int, tf: map<string, real>): Postings
  {
    map w | w in postings.Keys + tf.Keys :: if w in tf then PostingOf(postings, w)[id := tf[w]] else postings[w]
  }

  /** The inverted index after document `id` is removed from every posting. */
  function RemovePostings(postings: Postings, ids: set<int>): Postings
  {
    map w | w in postings :: postings[w] - ids
  }

  /** Forward and inverse consistency of the four containers. */
  ghost predicate Consistent(words: set<string>, postings: Postings, documents: map<int, DocumentData>, ids: set<int>)
  {
    && ids == documents.Keys
    && words <= postings.Keys
    && (forall id :: id in documents ==> id >= 0)
    && (forall w, id :: w in postings && id in postings[w] ==>
          id in documents && w in documents[id].wordFreqs && documents[id].wordFreqs[w] == postings[w][id])
    && (forall id, w :: id in documents && w in documents[id].wordFreqs ==>
          w in postings && id in postings[w])
  }

  /** Adding a new non-negative id with its frequencies keeps the containers consistent. */
  lemma AddKeepsConsistent(words: set<string>, postings: Postings, documents: map<int, DocumentData>, ids: set<int>,
                           id: int, data: DocumentData)
    requires Consistent(words, postings, documents, ids)
    requires id >= 0 && id !in documents
    ensures Consistent(words + data.wordFreqs.Keys, AddPostings(postings, id, data.wordFreqs),
                       documents[id := data], ids + {id})
  {
    var p := AddPostings(postings, id, data.wordFreqs);
    var d := documents[id := data];
    forall w, j | w in p && j in p[w]
      ensures j in d && w in d[j].wordFreqs && d[j].wordFreqs[w] == p[w][j]
    {
      if j != id {
        assert w in postings && j in postings[w];
      }
    }
  }

  /** Removing document `id` everywhere keeps the containers consistent. */
  lemma RemoveKeepsConsistent(words: set<string>, postings: Postings, documents: map<int, DocumentData>, ids: set<int>,
                              id: int)
    requires Consistent(words, postings, documents, ids)
    requires id in documents
    ensures Consistent(words - documents[id].wordFreqs.Keys, RemovePostings(postings, {id}),
                       documents - {id}, ids - {id})
  {
  }

  /** Taking `id` out of the postings of its own words takes it out of every
      posting. */
  lemma RemovedEverywhere(p: Postings, q: Postings, documents: map<int, DocumentData>, id: int)
    requires id in documents
    requires forall w, j :: w in p && j in p[w] ==> j in documents && w in documents[j].wordFreqs
    requires q.Keys == p.Keys
    requires forall w :: w in q ==> q[w] == if w in documents[id].wordFreqs then p[w] - {id} else p[w]
    ensures q == RemovePostings(p, {id})
  {
    forall w | w in q
      ensures q[w] == p[w] - {id}
    {
      if w !in documents[id].wordFreqs {
        assert id !in p[w];
      }
    }
  }

  /** A predicate that admits exactly the documents with the given status. */
  function StatusIs(status: DocumentStatus): (p: DocumentPredicate)
    ensures forall id, s, rating :: p(id, s, rating) <==> s == status
  {
    (id: int, s: DocumentStatus, rating: int) => s == status
  }

  /** `step` added `c` times. */
  function Times(c: nat, step: real): real
  {
    if c == 0 then 0.0 else Times(c - 1, step) + step
  }

  lemma {:induction false} TimesIsProduct(c: nat, step: real)
    ensures Times(c, step) == (c as real) * step
  {
    if c > 0 {
      TimesIsProduct(c - 1, step);
      RealDistribute((c - 1) as real, step);
    }
  }

  lemma RealDistribute(c: real, step: real)
    ensures (c + 1.0) * step == c * step + step
  {
  }

  lemma RealScale(c: real, n: real)
    requires n > 0.0
    ensures c * (1.0 / n) == c / n
  {
  }

  lemma TimesIsFrequency(c: nat, total: nat)
    requires total > 0
    ensures Times(c, 1.0 / (total as real)) == Frequency(c, total)
  {
    TimesIsProduct(c, 1.0 / (total as real));
    RealScale(c as real, total as real);
  }

  /** Accumulating `step` per occurrence gives each word `step` once per
      occurrence. */
  lemma {:induction false} AccumulatedCounts(ws: seq<string>, n: nat, step: real)
    requires n <= |ws|
    ensures forall w :: w in Accumulated(ws, n, step) <==> w in ws[..n]
    ensures forall w :: w in ws[..n] ==> Accumulated(ws, n, step)[w] == Times(multiset(ws[..n])[w], step)
  {
    if n > 0 {
      AccumulatedCounts(ws, n - 1, step);
      assert ws[..n] == ws[..n - 1] + [ws[n - 1]];
      assert multiset(ws[..n]) == multiset(ws[..n - 1]) + multiset{ws[n - 1]};
    }
  }

  /** Adding `1 / |ws|` per occurrence yields the term frequencies. */
  lemma AccumulatedIsFrequency(ws: seq<string>)
    requires ws != []
    ensures Accumulated(ws, |ws|, 1.0 / (|ws| as real)) == TermFrequencies(ws)
  {
    var n := |ws| as real;
    var acc, tf := Accumulated(ws, |ws|, 1.0 / n), TermFrequencies(ws);
    AccumulatedCounts(ws, |ws|, 1.0 / n);
    assert ws[..|ws|] == ws;
    assert acc.Keys == tf.Keys;
    forall w | w in acc
      ensures acc[w] == tf[w]
    {
      assert w in ws;
      var c := multiset(ws)[w];
      assert acc[w] == Times(c, 1.0 / n);
      TimesIsFrequency(c, |ws|);
      assert tf[w] == Frequency(c, |ws|);
    }
  }

  /** Some word of a non-empty frequency map. */
  ghost function AnyWord(m: map<string, real>): (w: string)
    requires exists w :: w in m
    ensures w in m
  {
    var w :| w in m; w
  }

  /** The sum of the values of a frequency map. */
  ghost function SumOfValues(m: map<string, real>): real
    decreases m.Keys
  {
    if exists w :: w in m then
      var w := AnyWord(m);
      m[w] + SumOfValues(m - {w})
    else 0.0
  }

  /** The sum can be split off at any word, not only the one it picks. */
  lemma {:induction false} SumOfValuesRemove(m: map<string, real>, w: string)
    requires w in m
    ensures SumOfValues(m) == m[w] + SumOfValues(m - {w})
    decreases m.Keys
  {
    var v := AnyWord(m);
    if v != w {
      SumOfValuesRemove(m - {v}, w);
      SumOfValuesRemove(m - {w}, v);
      assert m - {v} - {w} == m - {w} - {v};
    }
  }

  /** Setting one word's value moves the sum by the difference. */
  lemma SumOfValuesUpdate(m: map<string, real>, w: string, v: real)
    ensures SumOfValues(m[w := v]) == SumOfValues(m) - (if w in m then m[w] else 0.0) + v
  {
    SumOfValuesRemove(m[w := v], w);
    assert m[w := v] - {w} == m - {w};
    if w in m {
      SumOfValuesRemove(m, w);
    } else {
      assert m - {w} == m;
    }
  }

  /** Accumulating `step` per word adds `step` to the sum once per word. */
  lemma {:induction false} SumOfAccumulated(ws: seq<string>, n: nat, step: real)
    requires n <= |ws|
    ensures SumOfValues(Accumulated(ws, n, step)) == Times(n, step)
  {
    if n > 0 {
      var m := Accumulated(ws, n - 1, step);
      var w := ws[n - 1];
      SumOfAccumulated(ws, n - 1, step);
      SumOfValuesUpdate(m, w, (if w in m then m[w] else 0.0) + step);
    }
  }

  /** The term frequencies of a non-empty document sum to 1. */
  lemma FrequenciesSumToOne(ws: seq<string>)
    requires ws != []
    ensures SumOfValues(TermFrequencies(ws)) == 1.0
  {
    AccumulatedIsFrequency(ws);
    AccumulatedSumsToOne(ws);
  }

  /** `|ws|` steps of `1 / |ws|` add up to 1. */
  lemma AccumulatedSumsToOne(ws: seq<string>)
    requires ws != []
    ensures SumOfValues(Accumulated(ws, |ws|, 1.0 / (|ws| as real))) == 1.0
  {
    var n := |ws|;
    SumOfAccumulated(ws, n, 1.0 / (n as real));
    TimesIsFrequency(n, n);
    WholeFrequency(n);
  }

  lemma WholeFrequency(n: nat)
    requires n > 0
    ensures Frequency(n, n) == 1.0
  {
  }

  /** `q` is `p` after document `id` gained the frequencies `tf`, described
      word by word. */
  ghost predicate AddedWordwise(p: Postings, id: int, tf: map<string, real>, q: Postings)
  {
    && q.Keys == p.Keys + tf.Keys
    && forall x :: x in q ==> q[x] == if x in tf then PostingOf(p, x)[id := tf[x]] else p[x]
  }

  /** One more frequency update keeps the word-by-word description. */
  lemma AddedWordwiseStep(p: Postings, id: int, tf: map<string, real>, q: Postings, w: string, v: real)
    requires AddedWordwise(p, id, tf, q)
    ensures AddedWordwise(p, id, tf[w := v], q[w := PostingOf(q, w)[id := v]])
  {
  }

  /** Where `id` is new, its entry in a posting is the frequency it has gained. */
  lemma AddedPrior(p: Postings, id: int, tf: map<string, real>, q: Postings, w: string)
    requires AddedWordwise(p, id, tf, q)
    requires forall x :: x in p ==> id !in p[x]
    ensures id in PostingOf(q, w) <==> w in tf
    ensures w in tf ==> PostingOf(q, w)[id] == tf[w]
  {
  }

  lemma AddedPointwise(p: Postings, id: int, tf: map<string, real>, q: Postings)
    requires AddedWordwise(p, id, tf, q)
    ensures q == AddPostings(p, id, tf)
  {
  }

  /** A token `ParseQueryWord` rejects: empty, a lone minus, a double minus,
      or one holding a control character. */
  predicate MalformedQueryWord(t: string)
  {
    t == [] || t == "-" || (|t| >= 2 && t[0] == '-' && t[1] == '-') || !IsValidWord(t)
  }

  /** What one word adds to a document's relevance: term frequency times
      inverse document frequency. */
  function Weight(termFreq: real, idf: real): real
  {
    termFreq * idf
  }

  lemma {:induction false} SubsetNoLarger(a: set<int>, b: set<int>)
    requires a <= b
    ensures |a| <= |b|
    decreases a
  {
    if exists x :: x in a {
      var x :| x in a;
      SubsetNoLarger(a - {x}, b - {x});
    }
  }

  lemma RatioAtLeastOne(a: nat, b: nat)
    ensures 0 < b <= a ==> 1.0 <= (a as real) / (b as real)
  {
  }

  /** The order `FindTopDocuments` sorts by: relevance descending, and rating
      descending among relevances less than 1e-6 apart. */
  predicate RanksBefore(a: Document, b: Document): (r: bool)
    ensures a.relevance >= b.relevance + 0.000001 ==> r
    ensures r ==> a.relevance > b.relevance - 0.000001
    ensures r && a.relevance <= b.relevance ==> a.rating > b.rating
  {
    var diff := a.relevance - b.relevance;
    if (if diff < 0.0 then -diff else diff) < 0.000001 then a.rating > b.rating else a.relevance > b.relevance
  }

  lemma RanksBeforeAsymmetric(a: Document, b: Document)
    ensures RanksBefore(a, b) ==> !RanksBefore(b, a)
  {
  }

  /** No neighbouring pair is out of order. */
  predicate LocallySorted(s: seq<Document>)
  {
    forall k :: 0 < k < |s| ==> !RanksBefore(s[k], s[k - 1])
  }

  /** No id occurs twice. */
  predicate DistinctIds(s: seq<Document>)
  {
    forall i, j :: 0 <= i < j < |s| ==> s[i].id != s[j].id
  }

  /** One step of the sort: `d` goes before the first entry it ranks before. */
  function InsertByRank(d: Document, s: seq<Document>): (r: seq<Document>)
    ensures |r| == |s| + 1
    ensures multiset(r) == multiset(s) + multiset{d}
  {
    if s == [] then [d]
    else if RanksBefore(d, s[0]) then [d] + s
    else
      assert s == [s[0]] + s[1..];
      [s[0]] + InsertByRank(d, s[1..])
  }

  lemma {:induction false} InsertByRankSorted(d: Document, s: seq<Document>)
    requires LocallySorted(s)
    ensures LocallySorted(InsertByRank(d, s))
    ensures InsertByRank(d, s)[0] == d || InsertByRank(d, s)[0] == s[0]
  {
    if s != [] {
      if RanksBefore(d, s[0]) {
        RanksBeforeAsymmetric(d, s[0]);
      } else {
        InsertByRankSorted(d, s[1..]);
        var rest := InsertByRank(d, s[1..]);
        assert InsertByRank(d, s) == [s[0]] + rest;
        if rest[0] == d {
        } else {
          assert rest[0] == s[1];
        }
      }
    }
  }

  lemma {:induction false} InsertByRankDistinct(d: Document, s: seq<Document>)
    requires DistinctIds(s)
    requires forall x :: x in s ==> x.id != d.id
    ensures DistinctIds(InsertByRank(d, s))
  {
    if s != [] && !RanksBefore(d, s[0]) {
      assert s == [s[0]] + s[1..];
      InsertByRankDistinct(d, s[1..]);
      var rest := InsertByRank(d, s[1..]);
      forall x | x in rest
        ensures x.id != s[0].id
      {
        assert x in multiset(rest);
      }
      assert InsertByRank(d, s) == [s[0]] + rest;
    }
  }

  /** `std::sort` with the ranking comparator, as an insertion sort. */
  function SortByRank(docs: seq<Document>): (r: seq<Document>)
    ensures |r| == |docs|
    ensures multiset(r) == multiset(docs)
  {
    if docs == [] then []
    else
      assert docs == [docs[0]] + docs[1..];
      InsertByRank(docs[0], SortByRank(docs[1..]))
  }

  /** The sort leaves no neighbouring pair out of order. */
  lemma {:induction false} SortByRankSorted(docs: seq<Document>)
    ensures LocallySorted(SortByRank(docs))
  {
    if docs != [] {
      SortByRankSorted(docs[1..]);
      InsertByRankSorted(docs[0], SortByRank(docs[1..]));
    }
  }

  /** The sort keeps ids distinct. */
  lemma {:induction false} SortByRankDistinct(docs: seq<Document>)
    requires DistinctIds(docs)
    ensures DistinctIds(SortByRank(docs))
  {
    if docs != [] {
      assert docs == [docs[0]] + docs[1..];
      SortByRankDistinct(docs[1..]);
      var rest := SortByRank(docs[1..]);
      forall x | x in rest
        ensures x.id != docs[0].id
      {
        assert x in multiset(rest);
        assert x in docs[1..];
      }
      InsertByRankDistinct(docs[0], rest);
    }
  }

  /** The first `MaxResultDocumentCount` entries. */
  function Top(docs: seq<Document>): (r: seq<Document>)
    ensures |r| == if |docs| < MaxResultDocumentCount then |docs| else MaxResultDocumentCount
    ensures r == docs[..|r|]
  {
    if |docs| > MaxResultDocumentCount then docs[..MaxResultDocumentCount] else docs
  }

  /** Appending the word at position `n - 1` of an ordered word set to
      words taken from before it keeps them ordered. */
  lemma SortedAppend(plus: seq<string>, n: nat, init: seq<string>)
    requires 0 < n <= |plus|
    requires StrictlySorted(init)
    requires forall x :: x in init ==> x in plus[..n - 1]
    ensures StrictlySorted(plus) ==> StrictlySorted(init + [plus[n - 1]])
  {
    if StrictlySorted(plus) {
      var r := init + [plus[n - 1]];
      forall i, j | 0 <= i < j < |r|
        ensures Less(r[i], r[j])
      {
        if j == |init| {
          assert r[i] == init[i] && init[i] in init;
          var k :| 0 <= k < n - 1 && plus[k] == r[i];
        }
      }
    }
  }

  /** The first entries of a ranking of `all` keep its distinct ids and
      local order, come from `all`, and are all of it when it is short. */
  lemma RankedTop(all: seq<Document>, sorted: seq<Document>, top: seq<Document>)
    requires multiset(sorted) == multiset(all)
    requires DistinctIds(sorted) && LocallySorted(sorted)
    requires top == Top(sorted)
    ensures DistinctIds(top) && LocallySorted(top)
    ensures forall d :: d in top ==> d in all
    ensures |all| <= MaxResultDocumentCount ==> forall d :: d in all ==> d in top
  {
    forall d | d in top
      ensures d in all
    {
      assert d in multiset(sorted);
    }
    if |all| <= MaxResultDocumentCount {
      forall d | d in all
        ensures d in top
      {
        assert d in multiset(sorted);
      }
    }
  }

  /** The index and its containers. */
  class SearchServer {
    var words: set<string>
    const stopWords: StopWords
    var wordToDocumentFreqs: Postings
    var documents: map<int, DocumentData>
    var documentIds: set<int>

    ghost predicate Valid()
      reads this
    {
      Consistent(words, wordToDocumentFreqs, documents, documentIds)
    }

    /** An empty index over stop words the factories have already checked. */
    constructor(stopWords: set<string>)
      requires forall w :: w in stopWords ==> IsValidWord(w)
      ensures Valid()
      ensures this.stopWords == stopWords
      ensures words == {} && wordToDocumentFreqs == map[] && documents == map[] && documentIds == {}
    {
      this.stopWords := stopWords;
      words := {};
      wordToDocumentFreqs := map[];
      documents := map[];
      documentIds := {};
    }

    predicate IsStopWord(word: string): (b: bool)
      ensures b ==> IsValidWord(word)
    {
      word in stopWords
    }

    /** The tokens of a document that are not stop words, in order. */
    ghost function NonStopWords(tokens: seq<string>): (r: seq<string>)
      ensures forall w :: w in r <==> w in tokens && !IsStopWord(w)
      ensures |r| <= |tokens|
    {
      if tokens == [] then []
      else NonStopWords(tokens[..|tokens| - 1]) + (if IsStopWord(tokens[|tokens| - 1]) then [] else [tokens[|tokens| - 1]])
    }

    lemma NonStopWordsStep(ts: seq<string>, i: nat)
      requires i < |ts|
      ensures NonStopWords(ts[..i + 1]) == NonStopWords(ts[..i]) + (if IsStopWord(ts[i]) then [] else [ts[i]])
    {
      assert ts[..i + 1][..i] == ts[..i];
    }

    /** `SplitIntoWordsNoStop`: every token must be a valid word; the stop
        words are dropped. */
    method SplitIntoWordsNoStop(text: string) returns (r: Result<seq<string>>)
      ensures r.Failure? <==> exists t :: t in Words(text) && !IsValidWord(t)
      ensures r.Failure? ==> r.error == InvalidArgument
      ensures r.Ok? ==> r.value == NonStopWords(Words(text))
    {
      var tokens := SplitIntoWords(text);
      var kept: seq<string> := [];
      var i := 0;
      while i < |tokens|
        invariant 0 <= i <= |tokens|
        invariant forall k :: 0 <= k < i ==> IsValidWord(tokens[k])
        invariant kept == NonStopWords(tokens[..i])
      {
        if !IsValidWord(tokens[i]) {
          return Failure(InvalidArgument);
        }
        assert forall k :: 0 <= k < i + 1 ==> IsValidWord(tokens[k]);
        NonStopWordsStep(tokens, i);
        if !IsStopWord(tokens[i]) {
          kept := kept + [tokens[i]];
        }
        i := i + 1;
      }
      assert tokens[..i] == tokens;
      return Ok(kept);
    }

    /** `ComputeAverageRating`: the sum accumulated over the ratings, divided
        by their count with truncation toward zero. */
    static method ComputeAverageRating(ratings: seq<int>) returns (r: int)
      ensures r == AverageRating(ratings)
    {
      if ratings == [] {
        return 0;
      }
      var sum := 0;
      var i := 0;
      while i < |ratings|
        invariant 0 <= i <= |ratings|
        invariant sum == Sum(ratings[..i])
      {
        assert ratings[..i + 1][..i] == ratings[..i];
        sum := sum + ratings[i];
        i := i + 1;
      }
      assert ratings[..i] == ratings;
      r := TruncDiv(sum, |ratings|);
    }

    /** `AddDocument`: rejects a negative or already used id and a text with an
        invalid word; otherwise stores the document and indexes each of its
        non-stop words with its term frequency. */
    method AddDocument(documentId: int, document: string, status: DocumentStatus, ratings: seq<int>) returns (r: Outcome)
      requires Valid()
      modifies this
      ensures Valid()
      ensures r.Fail? <==> documentId < 0 || documentId in old(documents) || exists t :: t in Words(document) && !IsValidWord(t)
      ensures r.Fail? ==> r.error == InvalidArgument && unchanged(this)
      ensures r.Pass? ==>
        var tf := TermFrequencies(NonStopWords(Words(document)));
        && documents == old(documents)[documentId := DocumentData(AverageRating(ratings), status, tf)]
        && wordToDocumentFreqs == AddPostings(old(wordToDocumentFreqs), documentId, tf)
        && words == old(words) + tf.Keys
        && documentIds == old(documentIds) + {documentId}
    {
      if documentId < 0 || documentId in documents {
        return Fail(InvalidArgument);
      }
      var split := SplitIntoWordsNoStop(document);
      if split.Failure? {
        return Fail(InvalidArgument);
      }
      var rating := ComputeAverageRating(ratings);
      Store(documentId, split.value, status, rating);
      return Pass;
    }

    /** The part of `AddDocument` after its checks: the document is stored
        with its rating, status and term frequencies, and its words are indexed. */
    method Store(documentId: int, ws: seq<string>, status: DocumentStatus, rating: int)
      requires Valid()
      requires documentId >= 0 && documentId !in documents
      modifies this
      ensures Valid()
      ensures documents == old(documents)[documentId := DocumentData(rating, status, TermFrequencies(ws))]
      ensures wordToDocumentFreqs == AddPostings(old(wordToDocumentFreqs), documentId, TermFrequencies(ws))
      ensures words == old(words) + TermFrequencies(ws).Keys
      ensures documentIds == old(documentIds) + {documentId}
    {
      // With no words the C++ code divides by zero, but never uses the quotient.
      var step := if ws == [] then 0.0 else 1.0 / (|ws| as real);
      var indexed, postings, freqs := IndexWords(words, wordToDocumentFreqs, documentId, ws, step);
      if ws != [] {
        AccumulatedIsFrequency(ws);
      } else {
        assert TermFrequencies(ws) == map[];
      }
      var data := DocumentData(rating, status, freqs);
      words, wordToDocumentFreqs := indexed, postings;
      documents := documents[documentId := data];
      documentIds := documentIds + {documentId};
      AddKeepsConsistent(old(words), old(wordToDocumentFreqs), old(documents), old(documentIds), documentId, data);
    }

    /** The indexing loop of `AddDocument`: each word of `ws` enters the word
        set, and `step` is added to its entry in the posting and in the
        document's own frequencies. */
    static method IndexWords(words: set<string>, base: Postings, documentId: int, ws: seq<string>, step: real)
      returns (indexed: set<string>, postings: Postings, freqs: map<string, real>)
      requires forall w :: w in base ==> documentId !in base[w]
      ensures indexed == words + Accumulated(ws, |ws|, step).Keys
      ensures postings == AddPostings(base, documentId, Accumulated(ws, |ws|, step))
      ensures freqs == Accumulated(ws, |ws|, step)
    {
      indexed, postings, freqs := words, base, map[];
      var i := 0;
      while i < |ws|
        invariant 0 <= i <= |ws|
        invariant freqs == Accumulated(ws, i, step)
        invariant indexed == words + freqs.Keys
        invariant AddedWordwise(base, documentId, freqs, postings)
      {
        var w := ws[i];
        var freqPrior := if w in freqs then freqs[w] else 0.0;
        indexed := indexed + {w};
        var posting := PostingOf(postings, w);
        var prior := if documentId in posting then posting[documentId] else 0.0;
        AddedPrior(base, documentId, freqs, postings, w);
        var v := prior + step;
        AddedWordwiseStep(base, documentId, freqs, postings, w, v);
        postings := postings[w := posting[documentId := v]];
        freqs := freqs[w := freqPrior + step];
        i := i + 1;
      }
      AddedPointwise(base, documentId, freqs, postings);
    }

    /** The loop of `RemoveDocument` over the document's words: each leaves
        the word set, and the id leaves its posting. */
    static method UnindexWords(words: set<string>, base: Postings, docWords: set<string>, documentId: int)
      returns (remaining: set<string>, postings: Postings)
      requires docWords <= base.Keys
      ensures remaining == words - docWords
      ensures postings.Keys == base.Keys
      ensures forall w :: w in postings ==> postings[w] == if w in docWords then base[w] - {documentId} else base[w]
    {
      remaining, postings := words, base;
      var rest := docWords;
      while exists w :: w in rest
        invariant rest <= docWords
        invariant remaining == words - (docWords - rest)
        invariant postings.Keys == base.Keys
        invariant forall w :: w in postings ==>
          postings[w] == if w in docWords - rest then base[w] - {documentId} else base[w]
        decreases rest
      {
        var w :| w in rest;
        postings := postings[w := PostingOf(postings, w) - {documentId}];
        remaining := remaining - {w};
        rest := rest - {w};
      }
      assert rest == {};
    }

    /** `RemoveDocument`: an unknown id is ignored; otherwise the id leaves every
        posting and the document store, and each of its words leaves the word
        set, even when another document still holds that word. */
    method RemoveDocument(documentId: int)
      requires Valid()
      modifies this
      ensures Valid()
      ensures old(documentId !in documents) ==> unchanged(this)
      ensures old(documentId in documents) ==>
        && documents == old(documents) - {documentId}
        && documentIds == old(documentIds) - {documentId}
        && wordToDocumentFreqs == RemovePostings(old(wordToDocumentFreqs), {documentId})
        && words == old(words) - old(documents[documentId].wordFreqs.Keys)
    {
      if documentId !in documents {
        return;
      }
      var docWords := documents[documentId].wordFreqs.Keys;
      var remaining, postings := UnindexWords(words, wordToDocumentFreqs, docWords, documentId);
      words, wordToDocumentFreqs := remaining, postings;
      RemovedEverywhere(old(wordToDocumentFreqs), wordToDocumentFreqs, old(documents), documentId);
      documentIds := documentIds - {documentId};
      documents := documents - {documentId};
      RemoveKeepsConsistent(old(words), old(wordToDocumentFreqs), old(documents), old(documentIds), documentId);
    }
  
    /** `ParseQueryWord`: one leading minus marks a minus-word; the rest must
        be non-empty, must not start with another minus and must be valid. */
    function ParseQueryWord(text: string): (r: Result<QueryWord>)
      ensures r.Failure? <==> MalformedQueryWord(text)
      ensures r.Failure? ==> r.error == InvalidArgument
      ensures r.Ok? ==> (if r.value.isMinus then ['-'] + r.value.data else r.value.data) == text
      ensures r.Ok? ==> r.value.data != [] && r.value.data[0] != '-' && IsValidWord(r.value.data)
      ensures r.Ok? ==> r.value.isStop == IsStopWord(r.value.data)
    {
      if text == [] then Failure(InvalidArgument)
      else
        var isMinus := text[0] == '-';
        var word := if isMinus then text[1..] else text;
        assert isMinus ==> text == ['-'] + word;
        if word == [] || word[0] == '-' || !IsValidWord(word) then Failure(InvalidArgument)
        else Ok(QueryWord(word, isMinus, IsStopWord(word)))
    }

    /** `ParseQuery` over a sequence of tokens: the first malformed token
        fails the whole query; stop words are dropped; the others land in the
        plus- or minus-word set. */
    ghost function ParseTokens(ts: seq<string>): (r: Result<Query>)
      ensures r.Failure? <==> exists t :: t in ts && MalformedQueryWord(t)
      ensures r.Failure? ==> r.error == InvalidArgument
      ensures r.Ok? ==> StrictlySorted(r.value.plusWords) && StrictlySorted(r.value.minusWords)
      ensures r.Ok? ==> forall w :: w in r.value.plusWords <==> w in ts && w != [] && w[0] != '-' && !IsStopWord(w)
      ensures r.Ok? ==> forall w :: w in r.value.minusWords <==> ['-'] + w in ts && !IsStopWord(w)
    {
      if ts == [] then Ok(Query([], []))
      else
        var init, last := ts[..|ts| - 1], ts[|ts| - 1];
        assert ts == init + [last];
        var prior := ParseTokens(init);
        if prior.Failure? then Failure(InvalidArgument)
        else
          var parsed := ParseQueryWord(last);
          if parsed.Failure? then Failure(InvalidArgument)
          else
            var qw := parsed.value;
            if qw.isStop then prior
            else if qw.isMinus then Ok(Query(prior.value.plusWords, Insert(prior.value.minusWords, qw.data)))
            else Ok(Query(Insert(prior.value.plusWords, qw.data), prior.value.minusWords))
    }

    /** Parsing one more well-formed token: a stop word leaves the query as
        it was; any other word is inserted into its set. */
    lemma ParseTokensStep(ts: seq<string>, i: nat)
      requires i < |ts| && ParseTokens(ts[..i]).Ok? && ParseQueryWord(ts[i]).Ok?
      ensures var q, qw := ParseTokens(ts[..i]).value, ParseQueryWord(ts[i]).value;
        ParseTokens(ts[..i + 1]) ==
          if qw.isStop then Ok(q)
          else if qw.isMinus then Ok(Query(q.plusWords, Insert(q.minusWords, qw.data)))
          else Ok(Query(Insert(q.plusWords, qw.data), q.minusWords))
    {
      assert ts[..i + 1][..i] == ts[..i];
    }

    /** The query a raw text parses to. */
    ghost function ParsedQuery(rawQuery: string): Result<Query>
    {
      ParseTokens(Words(rawQuery))
    }

    /** `ParseQuery`: tokenizes and parses each token in turn. */
    method ParseQuery(text: string) returns (r: Result<Query>)
      ensures r == ParsedQuery(text)
    {
      var tokens := SplitIntoWords(text);
      var plus: seq<string>, minus: seq<string> := [], [];
      var i := 0;
      while i < |tokens|
        invariant 0 <= i <= |tokens|
        invariant ParseTokens(tokens[..i]) == Ok(Query(plus, minus))
      {
        var parsed := ParseQueryWord(tokens[i]);
        if parsed.Failure? {
          assert tokens[i] in tokens;
          return Failure(InvalidArgument);
        }
        ParseTokensStep(tokens, i);
        var qw := parsed.value;
        if !qw.isStop {
          if qw.isMinus {
            minus := Insert(minus, qw.data);
          } else {
            plus := Insert(plus, qw.data);
          }
        }
        i := i + 1;
      }
      assert tokens[..i] == tokens;
      return Ok(Query(plus, minus));
    }
  
    /** Document `id` is in the posting of `w`. */
    predicate Occurs(w: string, id: int)
      reads this
    {
      w in wordToDocumentFreqs && id in wordToDocumentFreqs[w]
    }

    /** The search filter accepts stored document `id`. */
    predicate Admits(pred: DocumentPredicate, id: int)
      reads this
      requires id in documents
    {
      pred(id, documents[id].status, documents[id].rating)
    }

    /** `ComputeWordInverseDocumentFreq`: the logarithm (supplied as `ln`) of
        the number of documents over the number holding `w`. */
    function InverseDocumentFreq(w: string, ln: real -> real): (idf: real)
      reads this
      requires w in wordToDocumentFreqs
      ensures Valid() && (forall x: real :: 1.0 <= x ==> 0.0 <= ln(x)) ==> 0.0 <= idf
    {
      if |wordToDocumentFreqs[w]| == 0 then 0.0
      else
        PostingWithinDocuments(w);
        RatioAtLeastOne(|documents|, |wordToDocumentFreqs[w]|);
        ln((|documents| as real) / (|wordToDocumentFreqs[w]| as real))
    }

    /** A posting names stored documents only, so it is no longer than the
        collection. */
    lemma PostingWithinDocuments(w: string)
      requires w in wordToDocumentFreqs
      ensures Valid() ==> |wordToDocumentFreqs[w]| <= |documents|
    {
      if Valid() {
        forall id | id in wordToDocumentFreqs[w]
          ensures id in documents
        {
        }
        SubsetNoLarger(wordToDocumentFreqs[w].Keys, documents.Keys);
      }
    }

    /** What plus-word `w` adds to the relevance of document `id`. */
    function Contribution(w: string, id: int, ln: real -> real): real
      reads this
    {
      if Occurs(w, id) then Weight(wordToDocumentFreqs[w][id], InverseDocumentFreq(w, ln)) else 0.0
    }

    /** TF-IDF relevance of `id` over the first `n` plus-words. */
    ghost function Relevance(plus: seq<string>, n: nat, id: int, ln: real -> real): real
      reads this
      requires n <= |plus|
    {
      if n == 0 then 0.0 else Relevance(plus, n - 1, id, ln) + Contribution(plus[n - 1], id, ln)
    }

    /** Admitted documents holding one of the first `n` plus-words. */
    ghost function Reached(plus: seq<string>, n: nat, pred: DocumentPredicate): set<int>
      reads this
      requires n <= |plus|
    {
      set id | id in documents && Admits(pred, id) && exists k :: 0 <= k < n && Occurs(plus[k], id)
    }

    /** Documents holding one of the first `n` minus-words. */
    ghost function Excluded(minus: seq<string>, n: nat): set<int>
      reads this
      requires n <= |minus|
    {
      set id | id in documents && exists k :: 0 <= k < n && Occurs(minus[k], id)
    }

    /** The documents a query finds: admitted, holding a plus-word, and
        holding no minus-word. */
    ghost function Candidates(q: Query, pred: DocumentPredicate): set<int>
      reads this
    {
      Reached(q.plusWords, |q.plusWords|, pred) - Excluded(q.minusWords, |q.minusWords|)
    }

    /** Result entries for the first `n` of `ids`. */
    ghost function DocumentsFor(ids: seq<int>, n: nat, plus: seq<string>, ln: real -> real): (r: seq<Document>)
      reads this
      requires n <= |ids|
      requires forall id :: id in ids ==> id in documents
      ensures |r| == n
      ensures forall k :: 0 <= k < n ==>
        r[k] == Document(ids[k], Relevance(plus, |plus|, ids[k], ln), documents[ids[k]].rating)
    {
      if n == 0 then []
      else DocumentsFor(ids, n - 1, plus, ln) + [Document(ids[n - 1], Relevance(plus, |plus|, ids[n - 1], ln), documents[ids[n - 1]].rating)]
    }

    /** `FindAllDocuments`: one entry per candidate, in ascending id order. */
    ghost function AllDocuments(q: Query, pred: DocumentPredicate, ln: real -> real): seq<Document>
      reads this
    {
      var ids := Ascending(Candidates(q, pred));
      DocumentsFor(ids, |ids|, q.plusWords, ln)
    }

    /** `FindTopDocuments`: the parse error, or the candidates ranked and cut
        to `MaxResultDocumentCount`. */
    ghost function TopDocuments(rawQuery: string, pred: DocumentPredicate, ln: real -> real): Result<seq<Document>>
      reads this
    {
      match ParsedQuery(rawQuery)
      case Failure(e) => Failure(e)
      case Ok(q) => Ok(Top(SortByRank(AllDocuments(q, pred, ln))))
    }

    /** The ids of `ids` that are stored and admitted. */
    ghost function Admitted(pred: DocumentPredicate, ids: set<int>): set<int>
      reads this
    {
      set id | id in ids && id in documents && Admits(pred, id)
    }

    lemma AdmittedStep(pred: DocumentPredicate, ids: set<int>, id: int)
      requires id in documents
      ensures Admitted(pred, ids + {id}) == Admitted(pred, ids) + (if Admits(pred, id) then {id} else {})
    {
    }

    lemma ReachedStep(plus: seq<string>, n: nat, pred: DocumentPredicate)
      requires n < |plus|
      ensures Reached(plus, n + 1, pred) ==
              Reached(plus, n, pred) + (if plus[n] in wordToDocumentFreqs then Admitted(pred, wordToDocumentFreqs[plus[n]].Keys) else {})
    {
    }

    lemma ExcludedStep(minus: seq<string>, n: nat)
      requires n < |minus|
      requires forall w :: w in wordToDocumentFreqs ==> wordToDocumentFreqs[w].Keys <= documents.Keys
      ensures Excluded(minus, n + 1) ==
              Excluded(minus, n) + (if minus[n] in wordToDocumentFreqs then wordToDocumentFreqs[minus[n]].Keys else {})
    {
    }

    /** `r` is `relevance` after the ids `done` of the posting of `w` have
        been visited. */
    ghost predicate PartlyAccumulated(r: map<int, real>, relevance: map<int, real>, w: string,
                                      pred: DocumentPredicate, ln: real -> real, done: set<int>)
      reads this
    {
      && r.Keys == relevance.Keys + Admitted(pred, done)
      && (forall id :: id in documents && Admits(pred, id) ==>
            Lookup(r, id) == Lookup(relevance, id) + (if id in done then Contribution(w, id, ln) else 0.0))
      && (forall id :: id in relevance && !(id in documents && Admits(pred, id)) ==> r[id] == relevance[id])
    }

    lemma AccumulationStep(r: map<int, real>, relevance: map<int, real>, w: string,
                           pred: DocumentPredicate, ln: real -> real, done: set<int>, id: int)
      requires PartlyAccumulated(r, relevance, w, pred, ln, done)
      requires w in wordToDocumentFreqs && id in wordToDocumentFreqs[w] && id in documents && id !in done
      ensures PartlyAccumulated(
                if Admits(pred, id) then r[id := Lookup(r, id) + Weight(wordToDocumentFreqs[w][id], InverseDocumentFreq(w, ln))] else r,
                relevance, w, pred, ln, done + {id})
    {
      AdmittedStep(pred, done, id);
    }

    /** One visit of the inner loop of `FindAllDocuments`: document `id` of
        the posting of `w` gains term frequency times IDF when admitted. */
    method AccumulateDocument(r: map<int, real>, ghost relevance: map<int, real>, w: string,
                              pred: DocumentPredicate, ln: real -> real, ghost done: set<int>, id: int)
      returns (next: map<int, real>)
      requires PartlyAccumulated(r, relevance, w, pred, ln, done)
      requires w in wordToDocumentFreqs && id in wordToDocumentFreqs[w] && id in documents && id !in done
      ensures PartlyAccumulated(next, relevance, w, pred, ln, done + {id})
    {
      AccumulationStep(r, relevance, w, pred, ln, done, id);
      var data := documents[id];
      next := r;
      if pred(id, data.status, data.rating) {
        next := r[id := Lookup(r, id) + Weight(wordToDocumentFreqs[w][id], InverseDocumentFreq(w, ln))];
      }
    }

    /** The inner loop of `FindAllDocuments` for plus-word `w`: every admitted
        document of its posting gains term frequency times IDF. */
    method AccumulateWord(relevance: map<int, real>, w: string, pred: DocumentPredicate, ln: real -> real)
      returns (r: map<int, real>)
      requires w in wordToDocumentFreqs
      requires wordToDocumentFreqs[w].Keys <= documents.Keys
      ensures r.Keys == relevance.Keys + Admitted(pred, wordToDocumentFreqs[w].Keys)
      ensures forall id :: id in documents && Admits(pred, id) ==> Lookup(r, id) == Lookup(relevance, id) + Contribution(w, id, ln)
      ensures forall id :: id in relevance && !(id in documents && Admits(pred, id)) ==> r[id] == relevance[id]
    {
      var posting := wordToDocumentFreqs[w];
      r := relevance;
      var rest := posting.Keys;
      ghost var done: set<int> := {};
      while exists id :: id in rest
        invariant rest <= posting.Keys && done == posting.Keys - rest
        invariant PartlyAccumulated(r, relevance, w, pred, ln, done)
        decreases rest
      {
        var id :| id in rest;
        r := AccumulateDocument(r, relevance, w, pred, ln, done, id);
        done := done + {id};
        rest := rest - {id};
      }
      assert rest == {} && done == posting.Keys;
    }

    /** The second loop of `FindAllDocuments` for minus-word `w`: every
        document of its posting is erased. */
    method ExcludeWord(relevance: map<int, real>, w: string) returns (r: map<int, real>)
      requires w in wordToDocumentFreqs
      ensures r.Keys == relevance.Keys - wordToDocumentFreqs[w].Keys
      ensures forall id :: id in r ==> r[id] == relevance[id]
    {
      var posting := wordToDocumentFreqs[w];
      r := relevance;
      var rest := posting.Keys;
      while exists id :: id in rest
        invariant rest <= posting.Keys
        invariant r.Keys == relevance.Keys - (posting.Keys - rest)
        invariant forall id :: id in r ==> r[id] == relevance[id]
        decreases rest
      {
        var id :| id in rest;
        r := r - {id};
        rest := rest - {id};
      }
      assert rest == {};
    }

    /** Every posting lists stored documents only. */
    lemma PostingsStored()
      requires Valid()
      ensures forall w :: w in wordToDocumentFreqs ==> wordToDocumentFreqs[w].Keys <= documents.Keys
    {
      forall w | w in wordToDocumentFreqs
        ensures wordToDocumentFreqs[w].Keys <= documents.Keys
      {
        forall id | id in wordToDocumentFreqs[w]
          ensures id in documents
        {
        }
      }
    }

    /** `relevance` holds the admitted documents reached by the first `n`
        plus-words, each with its relevance over those words. */
    ghost predicate ScoredUpTo(relevance: map<int, real>, plus: seq<string>, n: nat, pred: DocumentPredicate, ln: real -> real)
      reads this
      requires n <= |plus|
    {
      && relevance.Keys == Reached(plus, n, pred)
      && forall id :: id in documents && Admits(pred, id) ==> Lookup(relevance, id) == Relevance(plus, n, id, ln)
    }

    lemma ScoreStep(relevance: map<int, real>, next: map<int, real>, plus: seq<string>, n: nat,
                    pred: DocumentPredicate, ln: real -> real)
      requires n < |plus|
      requires ScoredUpTo(relevance, plus, n, pred, ln)
      requires plus[n] !in wordToDocumentFreqs ==> next == relevance
      requires plus[n] in wordToDocumentFreqs ==>
        && next.Keys == relevance.Keys + Admitted(pred, wordToDocumentFreqs[plus[n]].Keys)
        && forall id :: id in documents && Admits(pred, id) ==> Lookup(next, id) == Lookup(relevance, id) + Contribution(plus[n], id, ln)
      ensures ScoredUpTo(next, plus, n + 1, pred, ln)
    {
      ReachedStep(plus, n, pred);
    }

    /** The first loop of `FindAllDocuments`: the admitted documents holding
        a plus-word, with their relevance. */
    method ScorePlusWords(q: Query, pred: DocumentPredicate, ln: real -> real) returns (relevance: map<int, real>)
      requires Valid()
      ensures relevance.Keys == Reached(q.plusWords, |q.plusWords|, pred)
      ensures forall id :: id in relevance ==> relevance[id] == Relevance(q.plusWords, |q.plusWords|, id, ln)
    {
      PostingsStored();
      relevance := map[];
      var i := 0;
      while i < |q.plusWords|
        invariant 0 <= i <= |q.plusWords|
        invariant ScoredUpTo(relevance, q.plusWords, i, pred, ln)
      {
        var w := q.plusWords[i];
        var next := relevance;
        if w in wordToDocumentFreqs {
          next := AccumulateWord(relevance, w, pred, ln);
        }
        ScoreStep(relevance, next, q.plusWords, i, pred, ln);
        relevance := next;
        i := i + 1;
      }
    }

    /** The second loop of `FindAllDocuments`: documents holding a
        minus-word are erased. */
    method DropMinusWords(relevance: map<int, real>, q: Query) returns (r: map<int, real>)
      requires Valid()
      requires relevance.Keys <= documents.Keys
      ensures r.Keys == relevance.Keys - Excluded(q.minusWords, |q.minusWords|)
      ensures forall id :: id in r ==> r[id] == relevance[id]
    {
      PostingsStored();
      r := relevance;
      var j := 0;
      while j < |q.minusWords|
        invariant 0 <= j <= |q.minusWords|
        invariant r.Keys == relevance.Keys - Excluded(q.minusWords, j)
        invariant forall id :: id in r ==> r[id] == relevance[id]
      {
        var w := q.minusWords[j];
        ExcludedStep(q.minusWords, j);
        if w in wordToDocumentFreqs {
          r := ExcludeWord(r, w);
        }
        j := j + 1;
      }
    }

    /** `FindAllDocuments`: plus-words score, minus-words erase, and the
        survivors are listed in ascending id order. */
    method FindAllDocuments(q: Query, pred: DocumentPredicate, ln: real -> real) returns (matched: seq<Document>)
      requires Valid()
      ensures matched == AllDocuments(q, pred, ln)
    {
      var relevance := ScorePlusWords(q, pred, ln);
      relevance := DropMinusWords(relevance, q);
      assert relevance.Keys == Candidates(q, pred);
      var ids := AscendingIds(relevance.Keys);
      matched := [];
      var k := 0;
      while k < |ids|
        invariant 0 <= k <= |ids|
        invariant matched == DocumentsFor(ids, k, q.plusWords, ln)
      {
        matched := matched + [Document(ids[k], relevance[ids[k]], documents[ids[k]].rating)];
        k := k + 1;
      }
    }
  
    /** The entries for ascending ids carry distinct ids. */
    lemma DocumentsForDistinct(ids: seq<int>, plus: seq<string>, ln: real -> real)
      requires Increasing(ids)
      requires forall id :: id in ids ==> id in documents
      ensures DistinctIds(DocumentsFor(ids, |ids|, plus, ln))
    {
      var all := DocumentsFor(ids, |ids|, plus, ln);
      forall i, j | 0 <= i < j < |all|
        ensures all[i].id != all[j].id
      {
        assert all[i].id == ids[i] && all[j].id == ids[j];
      }
    }

    /** Each entry is for one of the ids, with its stored rating and its
        relevance. */
    lemma DocumentsForEntries(ids: seq<int>, plus: seq<string>, ln: real -> real)
      requires forall id :: id in ids ==> id in documents
      ensures forall d :: d in DocumentsFor(ids, |ids|, plus, ln) ==>
        && d.id in ids
        && d.rating == documents[d.id].rating
        && d.relevance == Relevance(plus, |plus|, d.id, ln)
    {
      var all := DocumentsFor(ids, |ids|, plus, ln);
      forall d | d in all
        ensures d.id in ids
        ensures d.rating == documents[d.id].rating
        ensures d.relevance == Relevance(plus, |plus|, d.id, ln)
      {
        var k :| 0 <= k < |all| && all[k] == d;
        assert d == Document(ids[k], Relevance(plus, |plus|, ids[k], ln), documents[ids[k]].rating);
        assert ids[k] in ids;
      }
    }

    /** Every id has an entry. */
    lemma DocumentsForCovers(ids: seq<int>, plus: seq<string>, ln: real -> real)
      requires forall id :: id in ids ==> id in documents
      ensures forall id :: id in ids ==> exists d :: d in DocumentsFor(ids, |ids|, plus, ln) && d.id == id
    {
      var all := DocumentsFor(ids, |ids|, plus, ln);
      forall id | id in ids
        ensures exists d :: d in all && d.id == id
      {
        var k :| 0 <= k < |ids| && ids[k] == id;
        assert all[k].id == id;
      }
    }

    /** Every candidate once, with its stored rating and its relevance. */
    lemma AllDocumentsSpec(q: Query, pred: DocumentPredicate, ln: real -> real)
      requires Valid()
      ensures var all := AllDocuments(q, pred, ln);
        && DistinctIds(all)
        && (forall d :: d in all ==>
              && d.id in Candidates(q, pred)
              && d.rating == documents[d.id].rating
              && d.relevance == Relevance(q.plusWords, |q.plusWords|, d.id, ln))
        && (forall id :: id in Candidates(q, pred) ==> exists d :: d in all && d.id == id)
    {
      var ids := Ascending(Candidates(q, pred));
      DocumentsForDistinct(ids, q.plusWords, ln);
      DocumentsForEntries(ids, q.plusWords, ln);
      DocumentsForCovers(ids, q.plusWords, ln);
    }

    /** What a search promises: a malformed query word fails it with
        `InvalidArgument`; otherwise it returns up to `MaxResultDocumentCount`
        distinct candidates, each with its stored rating and its TF-IDF
        relevance, no neighbouring pair out of rank order, and every candidate
        when there are few enough. */
    lemma TopDocumentsSpec(rawQuery: string, pred: DocumentPredicate, ln: real -> real)
      requires Valid()
      ensures var r := TopDocuments(rawQuery, pred, ln);
        && (r.Failure? <==> exists t :: t in Words(rawQuery) && MalformedQueryWord(t))
        && (r.Failure? ==> r.error == InvalidArgument)
        && (r.Ok? ==>
              var q := ParsedQuery(rawQuery).value;
              var c := Candidates(q, pred);
              && |r.value| == (if |c| < MaxResultDocumentCount then |c| else MaxResultDocumentCount)
              && DistinctIds(r.value)
              && LocallySorted(r.value)
              && (forall d :: d in r.value ==>
                    && d.id in c
                    && d.rating == documents[d.id].rating
                    && d.relevance == Relevance(q.plusWords, |q.plusWords|, d.id, ln))
              && (forall d :: d in r.value ==>
                    && d.id in documents && Admits(pred, d.id)
                    && (exists w :: w in q.plusWords && Occurs(w, d.id))
                    && (forall w :: w in q.minusWords ==> !Occurs(w, d.id)))
              && (|c| <= MaxResultDocumentCount ==> forall id :: id in c ==> exists d :: d in r.value && d.id == id))
    {
      if ParsedQuery(rawQuery).Ok? {
        var q := ParsedQuery(rawQuery).value;
        var all := AllDocuments(q, pred, ln);
        var sorted := SortByRank(all);
        var top := Top(sorted);
        AllDocumentsSpec(q, pred, ln);
        SortByRankDistinct(all);
        SortByRankSorted(all);
        RankedTop(all, sorted, top);
      }
    }

    /** `FindTopDocuments` with a document predicate. */
    method FindTopDocuments(rawQuery: string, pred: DocumentPredicate, ln: real -> real) returns (r: Result<seq<Document>>)
      requires Valid()
      ensures r == TopDocuments(rawQuery, pred, ln)
    {
      var parsed := ParseQuery(rawQuery);
      if parsed.Failure? {
        return Failure(parsed.error);
      }
      var matched := FindAllDocuments(parsed.value, pred, ln);
      matched := SortByRank(matched);
      if |matched| > MaxResultDocumentCount {
        matched := matched[..MaxResultDocumentCount];
      }
      return Ok(matched);
    }

    /** `FindTopDocuments` with a status: the documents with that status. */
    method FindTopDocumentsWithStatus(rawQuery: string, status: DocumentStatus, ln: real -> real) returns (r: Result<seq<Document>>)
      requires Valid()
      ensures r == TopDocuments(rawQuery, StatusIs(status), ln)
    {
      r := FindTopDocuments(rawQuery, StatusIs(status), ln);
    }

    /** `FindTopDocuments` with the query alone: the `ACTUAL` documents. */
    method FindTopDocumentsActual(rawQuery: string, ln: real -> real) returns (r: Result<seq<Document>>)
      requires Valid()
      ensures r == TopDocuments(rawQuery, StatusIs(ACTUAL), ln)
    {
      r := FindTopDocumentsWithStatus(rawQuery, ACTUAL, ln);
    }

    /** The plus-words among the first `n` that are in the word set and whose
        posting holds `id`, in query order. */
    ghost function MatchedPlus(plus: seq<string>, n: nat, id: int): seq<string>
      reads this
      requires n <= |plus|
    {
      if n == 0 then []
      else if plus[n - 1] in words && Occurs(plus[n - 1], id) then MatchedPlus(plus, n - 1, id) + [plus[n - 1]]
      else MatchedPlus(plus, n - 1, id)
    }

    /** The matched plus-words are exactly those of the first `n` found in the
        word set and in the document, and keep the word set's order. */
    lemma {:induction false} MatchedPlusSpec(plus: seq<string>, n: nat, id: int)
      requires n <= |plus|
      ensures forall w :: w in MatchedPlus(plus, n, id) <==> w in plus[..n] && w in words && Occurs(w, id)
      ensures StrictlySorted(plus) ==> StrictlySorted(MatchedPlus(plus, n, id))
    {
      if n > 0 {
        MatchedPlusSpec(plus, n - 1, id);
        var init := MatchedPlus(plus, n - 1, id);
        assert plus[..n] == plus[..n - 1] + [plus[n - 1]];
        if plus[n - 1] in words && Occurs(plus[n - 1], id) && StrictlySorted(plus) {
          SortedAppend(plus, n, init);
        }
      }
    }

    /** One of the first `n` minus-words is in the word set and its posting
        holds `id`. */
    ghost predicate MinusHit(minus: seq<string>, n: nat, id: int)
      reads this
      requires n <= |minus|
    {
      exists k :: 0 <= k < n && minus[k] in words && Occurs(minus[k], id)
    }

    /** `MatchDocument`: the parse error; else `OutOfRange` for an unknown id;
        else the query's plus-words found in the document, none at all when a
        minus-word is found in it, and the document's status. */
    ghost function MatchResult(rawQuery: string, documentId: int): Result<(seq<string>, DocumentStatus)>
      reads this
    {
      match ParsedQuery(rawQuery)
      case Failure(e) => Failure(e)
      case Ok(q) =>
        if documentId !in documents then Failure(OutOfRange)
        else
          var matched := if MinusHit(q.minusWords, |q.minusWords|, documentId) then []
                         else MatchedPlus(q.plusWords, |q.plusWords|, documentId);
          Ok((matched, documents[documentId].status))
    }

    /** What matching promises: the parse error is `InvalidArgument`, an
        unknown id is `OutOfRange`; otherwise the status, and the plus-words
        found in the document in word order, all of them unless a minus-word is
        found in it, none if one is. */
    lemma MatchResultSpec(rawQuery: string, documentId: int)
      requires Valid()
      ensures var r := MatchResult(rawQuery, documentId);
        && (r.Failure? && r.error == InvalidArgument <==> exists t :: t in Words(rawQuery) && MalformedQueryWord(t))
        && (r.Failure? && r.error == OutOfRange <==> ParsedQuery(rawQuery).Ok? && documentId !in documents)
        && (r.Ok? ==>
              var q := ParsedQuery(rawQuery).value;
              && r.value.1 == documents[documentId].status
              && StrictlySorted(r.value.0)
              && (forall w :: w in r.value.0 ==> w in q.plusWords && w in words && w in documents[documentId].wordFreqs)
              && (MinusHit(q.minusWords, |q.minusWords|, documentId) ==> r.value.0 == [])
              && (!MinusHit(q.minusWords, |q.minusWords|, documentId) ==>
                    forall w :: w in q.plusWords && w in words && w in documents[documentId].wordFreqs ==> w in r.value.0))
    {
      if ParsedQuery(rawQuery).Ok? && documentId in documents {
        var q := ParsedQuery(rawQuery).value;
        MatchedPlusSpec(q.plusWords, |q.plusWords|, documentId);
        assert q.plusWords[..|q.plusWords|] == q.plusWords;
      }
    }

    /** The plus-words whose posting holds `documentId`, in query order. */
    method MatchPlusWords(plus: seq<string>, documentId: int) returns (matched: seq<string>)
      requires words <= wordToDocumentFreqs.Keys
      ensures matched == MatchedPlus(plus, |plus|, documentId)
    {
      matched := [];
      var i := 0;
      while i < |plus|
        invariant 0 <= i <= |plus|
        invariant matched == MatchedPlus(plus, i, documentId)
      {
        var w := plus[i];
        if w in words {
          if documentId in wordToDocumentFreqs[w] {
            matched := matched + [w];
          }
        }
        i := i + 1;
      }
    }

    /** Whether some minus-word's posting holds `documentId`. */
    method FindMinusHit(minus: seq<string>, documentId: int) returns (hit: bool)
      requires words <= wordToDocumentFreqs.Keys
      ensures hit == MinusHit(minus, |minus|, documentId)
    {
      hit := false;
      var j := 0;
      while j < |minus|
        invariant 0 <= j <= |minus|
        invariant hit == MinusHit(minus, j, documentId)
      {
        var w := minus[j];
        if w in words {
          if documentId in wordToDocumentFreqs[w] {
            hit := true;
          }
        }
        j := j + 1;
      }
    }

    /** `MatchDocument`. A word is looked up in the word set first, so a word
        that `RemoveDocument` took out of it no longer matches any document. */
    method MatchDocument(rawQuery: string, documentId: int) returns (r: Result<(seq<string>, DocumentStatus)>)
      requires Valid()
      ensures r == MatchResult(rawQuery, documentId)
    {
      var parsed := ParseQuery(rawQuery);
      if parsed.Failure? {
        return Failure(parsed.error);
      }
      var q := parsed.value;
      var matched := MatchPlusWords(q.plusWords, documentId);
      var hit := FindMinusHit(q.minusWords, documentId);
      if hit {
        matched := [];
      }
      if documentId !in documents {
        return Failure(OutOfRange);
      }
      return Ok((matched, documents[documentId].status));
    }

    /** `GetWordFrequencies`: the words of the document with their term
        frequencies, empty for an unknown id; these are exactly the postings
        that hold the id. */
    function GetWordFrequencies(documentId: int): (r: map<string, real>)
      reads this
      requires Valid()
      ensures documentId !in documents ==> r == map[]
      ensures forall w :: w in r <==> Occurs(w, documentId)
      ensures forall w :: w in r ==> Occurs(w, documentId) && r[w] == wordToDocumentFreqs[w][documentId]
    {
      if documentId in documents then documents[documentId].wordFreqs else map[]
    }

    /** `GetDocumentCount`: the number of stored documents, which is the
        number of ids the iteration visits. */
    function GetDocumentCount(): (n: nat)
      reads this
      requires Valid()
      ensures n == |documentIds|
    {
      |documents|
    }

    /** `begin`/`end`: the stored ids in ascending order. */
    method DocumentIdsInOrder() returns (ids: seq<int>)
      requires Valid()
      ensures Increasing(ids)
      ensures forall id :: id in ids <==> id in documents
      ensures |ids| == GetDocumentCount()
    {
      ids := AscendingIds(documentIds);
    }

    /** The stop-word set the constructor keeps: every non-empty entry, cut
        at its first NUL character. */
    static ghost function StopWordSet(stopWords: seq<string>): set<string>
    {
      set s | s in stopWords && s != [] :: CString(s)
    }

    /** The constructor from a container of stop words: fails with
        `InvalidArgument` when a kept stop word is invalid. */
    static method Create(stopWords: seq<string>) returns (r: Result<SearchServer>)
      ensures r.Failure? <==> exists w :: w in StopWordSet(stopWords) && !IsValidWord(w)
      ensures r.Failure? ==> r.error == InvalidArgument
      ensures r.Ok? ==> fresh(r.value) && r.value.Valid() && r.value.stopWords == StopWordSet(stopWords)
      ensures r.Ok? ==> r.value.documents == map[] && r.value.words == {} && r.value.wordToDocumentFreqs == map[]
    {
      var kept := MakeUniqueNonEmptyStrings(stopWords);
      var rest := kept;
      while exists w :: w in rest
        invariant rest <= kept
        invariant forall w :: w in kept - rest ==> IsValidWord(w)
        decreases rest
      {
        var w :| w in rest;
        if !IsValidWord(w) {
          return Failure(InvalidArgument);
        }
        rest := rest - {w};
      }
      assert rest == {};
      var server := new SearchServer(kept);
      return Ok(server);
    }

    /** The constructor from a text of stop words: its space-separated words. */
    static method CreateFromText(stopWordsText: string) returns (r: Result<SearchServer>)
      ensures r.Failure? <==> exists w :: w in StopWordSet(Words(stopWordsText)) && !IsValidWord(w)
      ensures r.Failure? ==> r.error == InvalidArgument
      ensures r.Ok? ==> fresh(r.value) && r.value.Valid() && r.value.stopWords == StopWordSet(Words(stopWordsText))
      ensures r.Ok? ==> r.value.documents == map[] && r.value.words == {} && r.value.wordToDocumentFreqs == map[]
    {
      var tokens := SplitIntoWords(stopWordsText);
      r := Create(tokens);
    }
  }
}
