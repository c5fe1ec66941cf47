/** `RemoveDuplicates`: drops every document whose set of words (ignoring
    frequencies) equals that of a document with a smaller id, so the first
    document of each word set is the one kept. */
module Dedup {
  import opened Common
  import opened OrderedSet
  import opened Server

  /** Both ids are stored and their documents have the same words. */
  ghost predicate SameWords(docs: map<int, DocumentData>, a: int, b: int)
  {
    a in docs && b in docs && docs[a].wordFreqs.Keys == docs[b].wordFreqs.Keys
  }

  /** The ids whose words a document with a smaller id already has. */
  ghost function Duplicates(docs: map<int, DocumentData>): set<int>
  {
    set d | d in docs && exists e :: e in docs && e < d && SameWords(docs, e, d)
  }

  /** The words of the documents `ids`. */
  ghost function WordsOf(docs: map<int, DocumentData>, ids: set<int>): set<string>
  {
    set id, w | id in ids && id in docs && w in docs[id].wordFreqs :: w
  }

  /** Removing duplicates leaves no two documents with the same words, and
      each removed document's words are still held by a kept document with a
      smaller id. */
  lemma DuplicatesSpec(docs: map<int, DocumentData>)
    ensures Duplicates(docs) <= docs.Keys
    ensures forall a, b :: a in docs && b in docs && a !in Duplicates(docs) && b !in Duplicates(docs) && a != b ==>
      docs[a].wordFreqs.Keys != docs[b].wordFreqs.Keys
    ensures forall d :: d in Duplicates(docs) ==>
      exists e :: e in docs && e !in Duplicates(docs) && e < d && SameWords(docs, e, d)
  {
    var dups := Duplicates(docs);
    forall a, b | a in docs && b in docs && a !in dups && b !in dups && a != b
      ensures docs[a].wordFreqs.Keys != docs[b].wordFreqs.Keys
    {
      if a < b {
        assert !SameWords(docs, a, b);
      } else {
        assert !SameWords(docs, b, a);
      }
    }
    forall d | d in dups
      ensures exists e :: e in docs && e !in dups && e < d && SameWords(docs, e, d)
    {
      var e0 :| e0 in docs && e0 < d && SameWords(docs, e0, d);
      var same := set e | e in docs && SameWords(docs, e, d);
      assert e0 in same;
      var m := Least(same, e0);
      forall e | e in docs
        ensures SameWords(docs, e, m) ==> m <= e
      {
        if SameWords(docs, e, m) {
          assert e in same;
        }
      }
      assert m !in dups;
      assert m <= e0 < d;
    }
  }

  /** Some of the first `n` ids is smaller than `d` and has its words. */
  ghost predicate MarkedBy(docs: map<int, DocumentData>, ids: seq<int>, n: nat, d: int)
    requires n <= |ids|
  {
    exists k :: 0 <= k < n && ids[k] < d && SameWords(docs, ids[k], d)
  }

  lemma MarkedStep(docs: map<int, DocumentData>, ids: seq<int>, i: nat)
    requires i < |ids|
    ensures forall d :: MarkedBy(docs, ids, i + 1, d) <==>
      MarkedBy(docs, ids, i, d) || (ids[i] < d && SameWords(docs, ids[i], d))
  {
  }

  /** An id that is itself marked marks nothing new. */
  lemma MarkedSkip(docs: map<int, DocumentData>, ids: seq<int>, i: nat)
    requires i < |ids|
    requires MarkedBy(docs, ids, i, ids[i])
    ensures forall d :: MarkedBy(docs, ids, i + 1, d) <==> MarkedBy(docs, ids, i, d)
  {
    var k :| 0 <= k < i && ids[k] < ids[i] && SameWords(docs, ids[k], ids[i]);
    forall d | ids[i] < d && SameWords(docs, ids[i], d)
      ensures MarkedBy(docs, ids, i, d)
    {
      assert ids[k] < d && SameWords(docs, ids[k], d);
    }
    MarkedStep(docs, ids, i);
  }

  lemma MarkedAll(docs: map<int, DocumentData>, ids: seq<int>)
    requires forall x :: x in ids <==> x in docs
    ensures forall d :: d in docs ==> (MarkedBy(docs, ids, |ids|, d) <==> d in Duplicates(docs))
  {
    forall d | d in docs && d in Duplicates(docs)
      ensures MarkedBy(docs, ids, |ids|, d)
    {
      var e :| e in docs && e < d && SameWords(docs, e, d);
      var k :| 0 <= k < |ids| && ids[k] == e;
    }
  }

  /** The two word-frequency maps have the same words: equal sizes, and every
      word of the first in the second. */
  method SameWordSet(words: map<string, real>, innerWords: map<string, real>) returns (equal: bool)
    ensures equal <==> words.Keys == innerWords.Keys
  {
    if |words| != |innerWords| {
      return false;
    }
    var rest := words.Keys;
    while exists w :: w in rest
      invariant rest <= words.Keys
      invariant forall w :: w in words.Keys - rest ==> w in innerWords
      decreases rest
    {
      var w :| w in rest;
      if w !in innerWords {
        return false;
      }
      rest := rest - {w};
    }
    assert rest == {};
    SubsetOfSameSize(words.Keys, innerWords.Keys);
    return true;
  }

  lemma SubsetOfSameSize<T>(a: set<T>, b: set<T>)
    requires a <= b && |a| == |b|
    ensures a == b
  {
    assert b * a == a;
    assert |b - a| == 0;
    assert b - a == {};
  }

  /** One pass of the inner loop: marks the later ids whose documents have
      the words of `ids[i]`. */
  method MarkSameWords(server: SearchServer, ids: seq<int>, i: nat, dups: set<int>) returns (r: set<int>)
    requires server.Valid()
    requires i < |ids|
    requires forall x :: x in ids <==> x in server.documents
    ensures forall d :: d in r <==> d in dups || (d in server.documents && ids[i] < d && SameWords(server.documents, ids[i], d))
  {
    var docs := server.documents;
    var documentId := ids[i];
    r := dups;
    var j := 0;
    while j < |ids|
      invariant 0 <= j <= |ids|
      invariant forall d :: d in r <==> (d in dups ||
        exists k :: 0 <= k < j && ids[k] == d && documentId < d && SameWords(docs, documentId, d))
    {
      var innerId := ids[j];
      if documentId < innerId && innerId !in r {
        var equal := SameWordSet(server.GetWordFrequencies(documentId), server.GetWordFrequencies(innerId));
        if equal {
          r := r + {innerId};
        }
      }
      j := j + 1;
    }
    forall d | d in docs && documentId < d && SameWords(docs, documentId, d)
      ensures d in r
    {
      var k :| 0 <= k < |ids| && ids[k] == d;
    }
  }

  /** The two nested passes over the ids that collect the duplicates. */
  method FindDuplicates(server: SearchServer) returns (dups: set<int>)
    requires server.Valid()
    ensures dups == Duplicates(server.documents)
  {
    var docs := server.documents;
    var ids := server.DocumentIdsInOrder();
    dups := {};
    var i := 0;
    while i < |ids|
      invariant 0 <= i <= |ids|
      invariant forall d :: d in dups <==> d in docs && MarkedBy(docs, ids, i, d)
    {
      var documentId := ids[i];
      if documentId in dups {
        MarkedSkip(docs, ids, i);
      } else {
        dups := MarkSameWords(server, ids, i, dups);
        MarkedStep(docs, ids, i);
      }
      i := i + 1;
    }
    MarkedAll(docs, ids);
    forall d
      ensures d in dups <==> d in Duplicates(docs)
    {
    }
  }

  lemma RemovePostingsNone(postings: Postings)
    ensures RemovePostings(postings, {}) == postings
  {
    forall w | w in postings
      ensures postings[w] - {} == postings[w]
    {
    }
  }

  lemma RemovePostingsTwice(postings: Postings, gone: set<int>, id: int)
    ensures RemovePostings(RemovePostings(postings, gone), {id}) == RemovePostings(postings, gone + {id})
  {
    forall w | w in postings
      ensures postings[w] - gone - {id} == postings[w] - (gone + {id})
    {
    }
  }

  lemma WordsOfStep(docs: map<int, DocumentData>, gone: set<int>, id: int)
    requires id in docs
    ensures WordsOf(docs, gone + {id}) == WordsOf(docs, gone) + docs[id].wordFreqs.Keys
  {
  }

  /** Removes the documents `removed`, in order, from the server. */
  method RemoveAll(server: SearchServer, removed: seq<int>)
    requires server.Valid()
    requires Increasing(removed)
    requires forall id :: id in removed ==> id in server.documents
    modifies server
    ensures server.Valid()
    ensures var gone := set id | id in removed;
      && server.documents == old(server.documents) - gone
      && server.documentIds == old(server.documentIds) - gone
      && server.wordToDocumentFreqs == RemovePostings(old(server.wordToDocumentFreqs), gone)
      && server.words == old(server.words) - WordsOf(old(server.documents), gone)
  {
    ghost var docs0, ids0, postings0, words0 := server.documents, server.documentIds, server.wordToDocumentFreqs, server.words;
    ghost var gone: set<int> := {};
    RemovePostingsNone(postings0);
    var k := 0;
    while k < |removed|
      invariant 0 <= k <= |removed|
      invariant server.Valid()
      invariant gone == set i | 0 <= i < k :: removed[i]
      invariant server.documents == docs0 - gone
      invariant server.documentIds == ids0 - gone
      invariant server.wordToDocumentFreqs == RemovePostings(postings0, gone)
      invariant server.words == words0 - WordsOf(docs0, gone)
    {
      var id := removed[k];
      assert id !in gone;
      server.RemoveDocument(id);
      RemovePostingsTwice(postings0, gone, id);
      WordsOfStep(docs0, gone, id);
      gone := gone + {id};
      k := k + 1;
    }
    assert gone == set id | id in removed;
  }

  /** `RemoveDuplicates`: removes the duplicates in ascending id order and
      returns them in that order. */
  method RemoveDuplicates(server: SearchServer) returns (removed: seq<int>)
    requires server.Valid()
    modifies server
    ensures server.Valid()
    ensures removed == Ascending(Duplicates(old(server.documents)))
    ensures server.documents == old(server.documents) - Duplicates(old(server.documents))
    ensures server.documentIds == old(server.documentIds) - Duplicates(old(server.documents))
    ensures server.wordToDocumentFreqs == RemovePostings(old(server.wordToDocumentFreqs), Duplicates(old(server.documents)))
    ensures server.words == old(server.words) - WordsOf(old(server.documents), Duplicates(old(server.documents)))
  {
    var dups := FindDuplicates(server);
    removed := AscendingIds(dups);
    RemoveAll(server, removed);
    assert (set id | id in removed) == dups;
  }
}
