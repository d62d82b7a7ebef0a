/**
 The "cities" index of the search engine, as the request handlers of the city
 service see it: one record per city name, holding a population. The index is
 abstracted to a finite map; what a single client call does to it is stated
 here, including the exceptions the client can raise. Whether a call raises is
 decided by the environment (network, server state), so every call takes the
 failure it raises, if any, as a parameter.
 */
module CityStore {

  datatype Option<+T> = None | Some(value: T)

  /** The exception classes of the search-engine client that the handlers tell apart. */
  datatype Failure = NotFoundError | RequestError | OtherError

  /** What a client call returns: a value, or the exception it raised. */
  datatype StoreResult<+T> = Ok(value: T) | Raised(failure: Failure)

  /** The contents of the index: city name -> stored population. */
  type Docs = map<string, int>

  /** Reading the record stored under `city` (a get by id). */
  function Fetch(docs: Docs, city: string, fault: Option<Failure>): (r: StoreResult<int>)
    ensures r.Ok? <==> fault.None? && city in docs
    ensures r.Ok? ==> r.value == docs[city]
    // a failure the environment imposes is the one raised
    ensures fault.Some? ==> r == Raised(fault.value)
    ensures r == Raised(NotFoundError) <==> fault == Some(NotFoundError) || (fault.None? && city !in docs)
  {
    match fault
    case Some(f) => Raised(f)
    case None => if city in docs then Ok(docs[city]) else Raised(NotFoundError)
  }

  /** The index after writing `city -> population` (an index-by-id call, which replaces the whole record). */
  function Written(docs: Docs, city: string, population: int, fault: Option<Failure>): (r: Docs)
    ensures fault.None? ==> city in r && r[city] == population && r.Keys == docs.Keys + {city}
    ensures fault.Some? ==> r == docs
    ensures forall k :: k in docs && k != city ==> k in r && r[k] == docs[k]
  {
    if fault.None? then docs[city := population] else docs
  }

  /** A handle on the index; the handlers read and write it through its two calls. */
  class CityIndex {
    var docs: Docs

    constructor (docs: Docs)
      ensures this.docs == docs
    {
      this.docs := docs;
    }

    /** Get by id: the stored population, or the exception the call raises. */
    method Get(city: string, fault: Option<Failure>) returns (r: StoreResult<int>)
      ensures r == Fetch(docs, city, fault)
    {
      r := Fetch(docs, city, fault);
    }

    /** Index by id: store `city -> population`, replacing any record under that key. */
    method Index(city: string, population: int, fault: Option<Failure>) returns (raised: Option<Failure>)
      modifies this
      ensures raised == fault
      ensures docs == Written(old(docs), city, population, fault)
    {
      raised := fault;
      if fault.None? {
        docs := docs[city := population];
      }
    }
  }
}
