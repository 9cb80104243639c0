/** Optional values, results and the exceptions that can escape the research
    pipeline, plus the JSON values that the pipeline's dictionaries hold. */
module Wrappers {

  datatype Option<+T> = None | Some(value: T)

  /** A Python exception that leaves a function, or a value. The `:-` operator
      propagates the exception, as an uncaught `raise` does. */
  datatype Result<+T> = Ok(value: T) | Err(error: Exception) {
    predicate IsFailure() { Err? }

    function PropagateFailure<U>(): Result<U>
      requires Err?
    {
      Err(error)
    }

    function Extract(): T
      requires Ok?
    {
      value
    }
  }

  /** The exceptions that the core lets escape. */
  datatype Exception =
    | ValueError(message: string)       // raised for a blank company name
    | KeyError(key: string)             // `item["title"]` on a news item without a title
    | ProviderError(message: string)    // raised by a collaborator (LLM set-up, news search)
    | TimestampOutOfRange(ts: int)      // `datetime.fromtimestamp` beyond year 9999

  /** A JSON value, as the dictionaries built by the core hold them. Prices are
      reals: floating point is not modelled. */
  datatype Json =
    | JNull
    | JStr(str: string)
    | JNum(num: real)
    | JArr(items: seq<Json>)
    | JObj(fields: map<string, Json>)

  /** `None` becomes JSON `null`. */
  function OptionalString(o: Option<string>): (j: Json)
    ensures o.None? <==> j == JNull
    ensures o.Some? ==> j == JStr(o.value)
  {
    match o
    case None => JNull
    case Some(s) => JStr(s)
  }
}
