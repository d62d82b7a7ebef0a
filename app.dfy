/**
 The request handlers of the city service: the health check, the upsert of a
 city's population and the lookup of a city's population. Routing and JSON
 parsing are left to the web framework; a handler here receives the values it
 would have extracted from the request and returns the response it would have
 built. A payload field that is absent is `None`.
 */
module App {
  import opened CityStore

  /** The JSON (or text) body of a response. */
  datatype Body =
    | Message(message: string, operation: string)
    | Population(city: string, population: int)
    | Error(error: string)
    | Text(text: string)

  /**
   A response: a status and a body, or an exception that escaped the handler
   (the framework then answers with its own internal-server-error page).
   */
  datatype Response = Reply(status: int, body: Body) | Escaped(failure: Failure)

  /** What an upsert returns and what it leaves in the index. */
  datatype Step = Step(response: Response, docs: Docs)

  /** The failure (if any) raised by each of the up to three index calls an upsert makes, in order. */
  datatype Faults = Faults(get: Option<Failure>, firstWrite: Option<Failure>, secondWrite: Option<Failure>)

  const NoFaults := Faults(None, None, None)

  const InvalidData := "Invalid data. 'city' and 'population' are required."
  const CityParamMissing := "Invalid request. 'city' parameter is missing."
  const CityNotFound := "City not found"
  const RequestErrorMessage := "Elasticsearch request error"
  const GenericErrorMessage := "An error occurred"
  const Inserted := "City inserted successfully"
  const Updated := "Population updated successfully"
  const Unchanged := "Population unchanged"

  predicate IsSuccess(r: Response) {
    r.Reply? && r.status == 200
  }

  /**
   The payload check of the upsert handler: both fields must be truthy, so a
   missing field, an empty city and a population of 0 are refused. Nothing
   else is checked: a negative population passes.
   */
  predicate Accepts(city: Option<string>, population: Option<int>)
    ensures !Accepts(city, population) <==> city == None || city == Some("") || population == None || population == Some(0)
    ensures city.Some? && city.value != "" && population.Some? && population.value < 0 ==> Accepts(city, population)
  {
    city.Some? && city.value != "" && population.Some? && population.value != 0
  }

  /** The two trailing exception clauses shared by both handlers. */
  function FailureResponse(f: Failure): (r: Response)
    ensures r.Reply? && r.status == 500 && r.body.Error?
    ensures r.body.error == RequestErrorMessage <==> f == RequestError
    ensures r.body.error == GenericErrorMessage <==> f != RequestError
  {
    if f == RequestError then Reply(500, Error(RequestErrorMessage))
    else Reply(500, Error(GenericErrorMessage))
  }

  /** The health endpoint: a constant answer that consults nothing. */
  function HealthCheck(): (r: Response)
    ensures IsSuccess(r) && r.body == Text("OK")
  {
    Reply(200, Text("OK"))
  }

  /** The lookup handler, on the index as it stands when it is called. */
  function GetPopulation(docs: Docs, city: string, fault: Option<Failure>): (r: Response)
    // every failure of the get is caught
    ensures r.Reply?
    ensures r.status == 400 <==> city == ""
    ensures city == "" ==> r == Reply(400, Error(CityParamMissing))
    ensures IsSuccess(r) <==> city != "" && fault.None? && city in docs
    ensures IsSuccess(r) ==> r.body == Population(city, docs[city])
    ensures r.status == 404 <==> city != "" && (fault == Some(NotFoundError) || (fault.None? && city !in docs))
    ensures r.status == 404 ==> r.body == Error(CityNotFound)
    ensures r.status == 500 <==> city != "" && fault.Some? && fault.value != NotFoundError
    // the same two trailing exception clauses as the upsert handler
    ensures city != "" && fault.Some? && fault.value != NotFoundError ==> r == FailureResponse(fault.value)
  {
    if city == "" then Reply(400, Error(CityParamMissing))
    else
      match Fetch(docs, city, fault)
      case Ok(p) => Reply(200, Population(city, p))
      case Raised(NotFoundError) => Reply(404, Error(CityNotFound))
      case Raised(f) => FailureResponse(f)
  }

  /**
   The insert branch of the upsert. It runs inside the not-found exception
   clause, so a failure of its write is caught by nothing and escapes.
   */
  function InsertBranch(docs: Docs, city: string, population: int, fault: Option<Failure>): (r: Step)
    ensures r.docs == Written(docs, city, population, fault)
    ensures fault.None? ==> r.response == Reply(200, Message(Inserted, "insert"))
    ensures fault.Some? ==> r.response == Escaped(fault.value)
  {
    if fault.None? then Step(Reply(200, Message(Inserted, "insert")), docs[city := population])
    else Step(Escaped(fault.value), docs)
  }

  /**
   The upsert handler as a function of the index before the call: check the
   payload, read the record, then insert, replace or leave it.
   A NotFoundError raised by the replacing write lands in the same not-found
   clause as one raised by the read, and leads to an insert.
   */
  function Upsert(docs: Docs, city: Option<string>, population: Option<int>, faults: Faults): (r: Step)
    // the only entry ever written is city -> population
    ensures r.docs == docs || (city.Some? && population.Some? && r.docs == docs[city.value := population.value])
    // a 200 means the index now holds the payload's population; anything else leaves the index as it was
    ensures IsSuccess(r.response) ==> city.Some? && population.Some? && city.value in r.docs && r.docs[city.value] == population.value
    ensures !IsSuccess(r.response) ==> r.docs == docs
    ensures !Accepts(city, population) <==> r.response == Reply(400, Error(InvalidData))
  {
    if !Accepts(city, population) then Step(Reply(400, Error(InvalidData)), docs)
    else
      var c, p := city.value, population.value;
      match Fetch(docs, c, faults.get)
      case Ok(existing) =>
        if existing == p then Step(Reply(200, Message(Unchanged, "update")), docs)
        else if faults.firstWrite.None? then Step(Reply(200, Message(Updated, "update")), docs[c := p])
        else if faults.firstWrite.value == NotFoundError then InsertBranch(docs, c, p, faults.secondWrite)
        else Step(FailureResponse(faults.firstWrite.value), docs)
      case Raised(NotFoundError) => InsertBranch(docs, c, p, faults.firstWrite)
      case Raised(f) => Step(FailureResponse(f), docs)
  }

  /** The upsert handler, reading and writing the index through its client calls. */
  method InsertOrUpdateCity(es: CityIndex, city: Option<string>, population: Option<int>, faults: Faults)
    returns (response: Response)
    modifies es
    ensures Step(response, es.docs) == Upsert(old(es.docs), city, population, faults)
    ensures forall k :: k in old(es.docs) && Some(k) != city ==> k in es.docs && es.docs[k] == old(es.docs)[k]
    ensures forall k :: k in es.docs && Some(k) != city ==> k in old(es.docs)
  {
    if !Accepts(city, population) {
      return Reply(400, Error(InvalidData));
    }
    var c, p := city.value, population.value;
    var operation, message := "", "";
    // the exception raised inside the try block, if any
    var caught: Option<Failure> := None;
    var got := es.Get(c, faults.get);
    match got {
      case Ok(existing) =>
        operation := "update";
        if existing != p {
          var raised := es.Index(c, p, faults.firstWrite);
          if raised.Some? {
            caught := raised;
          } else {
            message := Updated;
          }
        } else {
          message := Unchanged;
        }
      case Raised(f) =>
        caught := Some(f);
    }
    if caught.Some? {
      if caught.value == NotFoundError {
        operation := "insert";
        var raised := es.Index(c, p, if got.Ok? then faults.secondWrite else faults.firstWrite);
        if raised.Some? {
          return Escaped(raised.value);
        }
        message := Inserted;
      } else {
        return FailureResponse(caught.value);
      }
    }
    return Reply(200, Message(message, operation));
  }
}
