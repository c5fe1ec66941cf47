/** `RequestQueue`: a window over the results of past searches and a count
    of the searches that found nothing. */
module Requests {
  import opened Common
  import opened Server

  /** `sec_in_day_`: the capacity of the window. */
  const SecInDay: nat := 1440

  /** The number of empty results. */
  function EmptyCount(results: seq<seq<Document>>): (n: nat)
    ensures n <= |results|
  {
    if results == [] then 0
    else EmptyCount(results[..|results| - 1]) + (if results[|results| - 1] == [] then 1 else 0)
  }

  /** The records held after recording `history`: once the window is full a
      push is undone by `pop_back`, so it keeps the first `SecInDay`. */
  function Window(history: seq<seq<Document>>): seq<seq<Document>>
  {
    if |history| <= SecInDay then history else history[..SecInDay]
  }

  /** The counter after recording `history`: one per empty result, minus one
      per overflowing push that found the front record empty. Once full the
      front is always the first result. */
  function NoResultCount(history: seq<seq<Document>>): int
  {
    EmptyCount(history) - (if |history| > SecInDay && history[0] == [] then |history| - SecInDay else 0)
  }

  /** Recording one more result: the window grows by it until it is full,
      and is then left as it was. */
  lemma WindowStep(history: seq<seq<Document>>, documents: seq<Document>)
    ensures |Window(history + [documents])| <= SecInDay
    ensures Window(history + [documents]) ==
      if |Window(history)| + 1 > SecInDay then Window(history) else Window(history) + [documents]
  {
    if |history| + 1 > SecInDay {
      assert (history + [documents])[..SecInDay] == history[..SecInDay];
    }
  }

  /** Recording one more result moves the counter as `UpdateRequests` does:
      up for an empty result, down when the push overflows and the front
      record is empty. */
  lemma NoResultCountStep(history: seq<seq<Document>>, documents: seq<Document>)
    ensures NoResultCount(history + [documents]) ==
      NoResultCount(history) + (if documents == [] then 1 else 0)
        - (if |Window(history)| + 1 > SecInDay && (Window(history) + [documents])[0] == [] then 1 else 0)
  {
    var h := history + [documents];
    assert h[..|h| - 1] == history;
  }

  /** Until the window first overflows, the counter is the number of empty
      records in it. */
  lemma CountBeforeOverflow(history: seq<seq<Document>>)
    requires |history| <= SecInDay
    ensures NoResultCount(history) == EmptyCount(Window(history))
  {
  }

  /** `n` searches that all returned `result`. */
  function Repeated(result: seq<Document>, n: nat): (r: seq<seq<Document>>)
    ensures |r| == n && forall i :: 0 <= i < n ==> r[i] == result
  {
    if n == 0 then [] else Repeated(result, n - 1) + [result]
  }

  lemma {:induction false} EmptyCountOfRepeated(prefix: seq<seq<Document>>, result: seq<Document>, n: nat)
    ensures EmptyCount(prefix + Repeated(result, n)) == EmptyCount(prefix) + (if result == [] then n else 0)
  {
    var s := prefix + Repeated(result, n);
    if n == 0 {
      assert s == prefix;
    } else {
      EmptyCountOfRepeated(prefix, result, n - 1);
      assert s[..|s| - 1] == prefix + Repeated(result, n - 1);
      assert s[|s| - 1] == Repeated(result, n)[n - 1] == result;
    }
  }

  lemma RepeatedPrefix(result: seq<Document>, n: nat, k: nat)
    requires k <= n
    ensures Repeated(result, n)[..k] == Repeated(result, k)
  {
  }

  /** The window after a search that found `d` and `n` that found nothing:
      the first search and the first empty results that fit. */
  lemma WindowAfterEmpties(d: Document, n: nat)
    ensures Window([[d]] + Repeated([], n)) == [[d]] + Repeated([], if n < SecInDay then n else SecInDay - 1)
  {
    var h := [[d]] + Repeated([], n);
    if n >= SecInDay {
      RepeatedPrefix([], n, SecInDay - 1);
      assert h[..SecInDay] == [[d]] + Repeated([], n)[..SecInDay - 1];
    }
  }

  /** After the eviction: a search that found `d` followed by `n` searches
      that found nothing leaves a counter of `n`, which past the window's
      capacity exceeds both the window and its empty records. */
  lemma CounterOutgrowsWindow(d: Document, n: nat)
    ensures var h := [[d]] + Repeated([], n);
      && NoResultCount(h) == n
      && |Window(h)| <= SecInDay
      && EmptyCount(Window(h)) == if n < SecInDay then n else SecInDay - 1
  {
    EmptyCountOfRepeated([[d]], [], n);
    WindowAfterEmpties(d, n);
    EmptyCountOfRepeated([[d]], [], if n < SecInDay then n else SecInDay - 1);
  }

  /** A search that found nothing followed by `n` that found `d`: once the
      window is full, every push finds the empty record at the front and
      takes one off the counter, which goes below zero past `SecInDay`. */
  lemma CounterGoesNegative(d: Document, n: nat)
    ensures NoResultCount([[]] + Repeated([d], n)) == if n < SecInDay then 1 else SecInDay - n
  {
    var first: seq<seq<Document>> := [[]];
    EmptyCountOfRepeated(first, [d], n);
    assert first[..0] == [];
  }

  class RequestQueue {
    /** `search_server_`: a const reference, never used to modify the index. */
    const server: SearchServer
    /** `requests_`, each record's documents. */
    var requests: seq<seq<Document>>
    /** `not_found_count_`. */
    var notFoundCount: int
    /** Every result recorded so far, oldest first. */
    ghost var history: seq<seq<Document>>

    ghost predicate Valid()
      reads this
    {
      && requests == Window(history)
      && notFoundCount == NoResultCount(history)
    }

    constructor(server: SearchServer)
      ensures Valid()
      ensures this.server == server
      ensures requests == [] && notFoundCount == 0 && history == []
    {
      this.server := server;
      requests := [];
      notFoundCount := 0;
      history := [];
    }

    /** `GetNoResultRequests`. */
    function GetNoResultRequests(): (n: int)
      reads this
      requires Valid()
      ensures n == NoResultCount(history)
    {
      notFoundCount
    }

    /** `UpdateRequests`: pushes the record at the back and counts it if it
        is empty; on overflow, uncounts the front record if it is empty and
        pops the back one, which is the record just pushed. */
    method UpdateRequests(documents: seq<Document>)
      requires Valid()
      modifies this
      ensures Valid()
      ensures history == old(history) + [documents]
      ensures |requests| <= SecInDay
      ensures requests == if |old(requests)| + 1 > SecInDay then old(requests) else old(requests) + [documents]
      ensures notFoundCount == old(notFoundCount) + (if documents == [] then 1 else 0)
        - (if |old(requests)| + 1 > SecInDay && (old(requests) + [documents])[0] == [] then 1 else 0)
    {
      WindowStep(history, documents);
      NoResultCountStep(history, documents);
      requests := requests + [documents];
      if documents == [] {
        notFoundCount := notFoundCount + 1;
      }
      if |requests| > SecInDay {
        if requests[0] == [] {
          notFoundCount := notFoundCount - 1;
        }
        requests := requests[..|requests| - 1];
      }
      history := history + [documents];
    }

    /** `AddFindRequest` with a predicate: the server's result, recorded; a
        query the server rejects records nothing. */
    method AddFindRequest(rawQuery: string, pred: DocumentPredicate, ln: real -> real) returns (r: Result<seq<Document>>)
      requires Valid() && server.Valid()
      modifies this
      ensures Valid()
      ensures r == server.TopDocuments(rawQuery, pred, ln)
      ensures r.Ok? ==> history == old(history) + [r.value]
      ensures r.Failure? ==> unchanged(this)
    {
      r := server.FindTopDocuments(rawQuery, pred, ln);
      if r.Ok? {
        UpdateRequests(r.value);
      }
    }

    /** `AddFindRequest` with a status. */
    method AddFindRequestWithStatus(rawQuery: string, status: DocumentStatus, ln: real -> real) returns (r: Result<seq<Document>>)
      requires Valid() && server.Valid()
      modifies this
      ensures Valid()
      ensures r == server.TopDocuments(rawQuery, StatusIs(status), ln)
      ensures r.Ok? ==> history == old(history) + [r.value]
      ensures r.Failure? ==> unchanged(this)
    {
      r := server.FindTopDocumentsWithStatus(rawQuery, status, ln);
      if r.Ok? {
        UpdateRequests(r.value);
      }
    }

    /** `AddFindRequest` with the query alone. */
    method AddFindRequestActual(rawQuery: string, ln: real -> real) returns (r: Result<seq<Document>>)
      requires Valid() && server.Valid()
      modifies this
      ensures Valid()
      ensures r == server.TopDocuments(rawQuery, StatusIs(ACTUAL), ln)
      ensures r.Ok? ==> history == old(history) + [r.value]
      ensures r.Failure? ==> unchanged(this)
    {
      r := server.FindTopDocumentsActual(rawQuery, ln);
      if r.Ok? {
        UpdateRequests(r.value);
      }
    }
  }
}
