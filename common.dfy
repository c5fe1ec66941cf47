/** Types shared by every part of the search engine: the error kinds the
    index raises, the result wrapper that stands for a throwing call, and the
    document status and result entry declared in the engine's document header. */
module Common {

  /** `InvalidArgument` is `std::invalid_argument`, the one exception the
      index throws on bad input; `OutOfRange` is the `std::out_of_range` that
      `std::map::at` throws on a missing key. */
  datatype Error = InvalidArgument | OutOfRange

  /** The value a call returns, or the exception it throws. */
  datatype Result<T> = Ok(value: T) | Failure(error: Error)

  /** Completion of a call that returns nothing, or the exception it throws. */
  datatype Outcome = Pass | Fail(error: Error)

  /** Lifecycle tag of a stored document. */
  datatype DocumentStatus = ACTUAL | IRRELEVANT | BANNED | REMOVED

  /** One entry of a search result. */
  datatype Document = Document(id: int, relevance: real, rating: int)

  /** The value of `key` in `m`, 0 when absent: what `operator[]` on a map
      of numbers reads after default-inserting. */
  function Lookup(m: map<int, real>, key: int): real
  {
    if key in m then m[key] else 0.0
  }

  /** `MAX_RESULT_DOCUMENT_COUNT`: the most entries a search returns. */
  const MaxResultDocumentCount: nat := 5
}
