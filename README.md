# City population service — a Dafny model of its request handlers

The service keeps one record per city, holding the city's population, in a
search-engine index named "cities". It answers three HTTP endpoints: a health
check, `POST /city` (insert or update a city's population) and
`GET /population/<city>` (look a population up). Its logic is the layer
between the web framework and the index client: a payload check, a
read-compare-write upsert, and the mapping of the client's exceptions to HTTP
statuses and messages. This project models that layer.

- `store.dfy`, module `CityStore`: the index abstracted as a finite map
  `Docs = map<string, int>` from city name to population; the client's three
  exception classes as `Failure` (`NotFoundError`, `RequestError`,
  `OtherError`); call outcomes as `StoreResult` (`Ok` or `Raised`); and the
  class `CityIndex`, whose `Get` and `Index` methods are the two client calls
  the handlers make. Whether a call raises is up to the environment, so each
  call takes the failure it raises (`None` for a call that succeeds).
- `app.dfy`, module `App`: the response datatypes, the payload check
  `Accepts`, the shared exception mapping `FailureResponse`, `HealthCheck`,
  the lookup handler `GetPopulation` as a function of the index, the upsert
  as a function `Upsert` of the index before the call, and the upsert handler
  `InsertOrUpdateCity` as a method that reads and writes a `CityIndex` and is
  proved to do what `Upsert` says. An upsert makes up to three index calls: the
  read, a first write and a second write. `Faults` says which of them raise.
- `properties.dfy`, module `AppProperties`: what each branch of the upsert does,
  how failures are reported, idempotence of repeated upserts, and what a
  sequence of upserts leaves in the index.

Behaviour of the code that the model keeps, where a reader might expect
otherwise:

- The payload check is a truthiness test (app.py:32). A missing field, an
  empty city and a population of `0` get 400. A negative population is
  accepted and stored. A reader might expect type checks and a range check
  `population >= 0`; the code has neither, so `0` is refused and negatives
  are stored.
- The replacing write of the update branch runs inside the `try` block
  (app.py:45). A not-found failure of that write is caught by the not-found
  clause, which then inserts the record (a second write).
- The inserting write runs inside the not-found clause (app.py:54). Its
  failure is caught by no clause of the handler and escapes (`Escaped`); the
  framework then answers with its generic internal-server-error page.
- Every failure of the lookup's read is caught (404 or 500).

## Model

| member | source | states |
|---|---|---|
| `App.Upsert` | app.py:24-61 | the only entry an upsert can write is `city -> population`, so every other city keeps its entry; a 200 answer means the index now holds the sent population; any other answer leaves the index exactly as it was; the payload is refused with 400 exactly when `Accepts` fails |
| `App.InsertOrUpdateCity` | app.py:24-61 | the handler's reads and writes of the index produce exactly the response and new index contents that `Upsert` gives for the old contents; no city other than the payload's gains, loses or changes an entry |
| `App.InsertBranch` | app.py:49-55 | the insert branch writes `city -> population` and answers 200 "City inserted successfully" with operation "insert"; if its write fails, the failure escapes and the index is unchanged |
| `App.FailureResponse` | app.py:56-59 | a request error becomes 500 "Elasticsearch request error"; every other failure becomes 500 "An error occurred" |
| `App.HealthCheck` | app.py:17-22 | the health endpoint always answers 200 "OK" and takes no input, so it does not depend on the index |
| `App.GetPopulation` | app.py:63-81 | a function of the index contents, so a lookup never changes the index; every failure is caught; 400 exactly when the city is empty; 200 exactly when the read succeeds on a stored city, with that city and its stored population; 400 "Invalid request. 'city' parameter is missing." for an empty city; 404 "City not found" exactly when the read reports not-found; 500 exactly for the other failures, with the same messages as the upsert handler ("Elasticsearch request error" for a request error, "An error occurred" otherwise) |
| `App.Accepts` | app.py:32 | the payload is refused exactly when a field is missing, the city is "", or the population is 0; a negative population passes |
| `CityStore.Fetch` | app.py:37 | the read by id, made by the upsert and by the lookup (line 73), succeeds exactly when no failure is imposed and the city is stored, and then returns the stored population; an imposed failure is the one raised; not-found is raised exactly when it is imposed or when no failure is imposed and the city is absent |
| `CityStore.CityIndex.Get` | app.py:37 | a get by id returns the stored population, or raises not-found for an absent city, or raises the failure the environment imposes |
| `CityStore.CityIndex.Index` | app.py:45 | an index-by-id call replaces the record under `city` with the new population and leaves every other record; if it raises, nothing is written |
| `CityStore.Written` | app.py:54 | a successful write adds or replaces exactly the entry `city -> population`; a failed one changes nothing |
| `AppProperties.RefusedPayloadTouchesNothing` | app.py:29-33 | a missing or empty city, or a missing or zero population, gets 400 "Invalid data. 'city' and 'population' are required."; the index is unchanged, and the answer does not depend on the index contents or on its failures, so the index is neither read nor written |
| `AppProperties.NegativePopulationAccepted` | app.py:32 | a negative population passes the payload check and is stored |
| `AppProperties.InsertWhenAbsent` | app.py:49-55 | for an absent city, the upsert adds exactly `city -> population` (one more city) and answers "City inserted successfully" with operation "insert"; if the inserting write fails, the failure escapes and the index is unchanged |
| `AppProperties.UnchangedWhenEqual` | app.py:41-48 | for a stored population equal to the sent one, the upsert leaves the index identical and answers "Population unchanged" with operation "update", whatever a write would have done, so no write happens |
| `AppProperties.UpdateWhenDifferent` | app.py:41-46 | for a different stored population, the upsert replaces the entry and answers "Population updated successfully" with operation "update"; the set of cities stays the same |
| `AppProperties.ReadFailureReported` | app.py:37 | a read that fails with a request error gives 500 "Elasticsearch request error", any other non-not-found failure gives 500 "An error occurred"; nothing is written |
| `AppProperties.UpdateWriteFailure` | app.py:42-59 | a replacing write that fails with a request error or another failure gives the matching 500 and changes nothing; one that fails with not-found leads to the insert branch |
| `AppProperties.UpsertTwice` | app.py:37-48 | after a first send of an accepted payload in which no index call fails, a second identical send whose read succeeds writes nothing, leaves the index identical and answers "Population unchanged" |
| `AppProperties.SuccessfulSendIsStable` | app.py:37-55 | after one successful send (200), whatever failures it met, a repeat of the same payload leaves the index as it is, whatever failures the repeat meets |
| `AppProperties.RepeatIsOnce` | app.py:37-55 | when no index call fails, sending the same payload any positive number of times leaves the index as sending it once |
| `AppProperties.CitiesNeverRemoved` | app.py:24-61 | no sequence of upserts, with any failures, removes a city from the index |
| `AppProperties.LastWriteWins` | app.py:37-55 | when no index call fails, after a sequence of upserts each city holds the population of its last accepted request, or what it held before if it had none |
| `AppProperties.StoredValuesComeFromRequests` | app.py:44-54 | even with failures, every stored population was there before or was sent for that city by some request |
| `AppProperties.LookupFailureReported` | app.py:68-81 | an empty city gives 400 "Invalid request. 'city' parameter is missing."; a read that fails with a request error gives 500 "Elasticsearch request error", with another failure 500 "An error occurred" |
| `AppProperties.InsertWhenReadSaysNotFound` | app.py:49-55 | when the read answers not-found for a city that is in fact stored, the insert branch overwrites its record and answers "City inserted successfully" with operation "insert" |
| `AppProperties.LookupAbsent` | app.py:76-77 | looking up a city that is not stored gives 404 "City not found" |
| `AppProperties.LookupAfterUpsert` | app.py:61-75 | after a successful upsert, a lookup of that city returns 200 with the city and the population just sent |

## Left out

- Routing, JSON parsing of the request, building the JSON body and the server
  start (app.py:1-4, app.py:83-84): framework I/O. A handler takes the already
  extracted fields and returns a `Response` value.
- Creating the client and the start-up bootstrap that creates the index if it
  is missing (app.py:5-15): network I/O against a client library that is not
  part of this model. The index is the map held by a `CityIndex`.
- Dynamic typing of the payload: the code performs no type check, so a string,
  float or boolean population, or a non-string city, would be passed on to the
  index. The model restricts the fields to `string` and `int`.
- A stored record without a `population` field (it would raise a key error,
  reported as 500 "An error occurred"): the map always holds a population.
- A write that fails after the index applied it (a timeout, say): a failed
  write is modelled as changing nothing.
- Concurrency: the read and the write of an upsert are separate calls, and
  concurrent requests for one city can interleave between them. The model is
  sequential (`Replay` handles one request after another) and claims no
  atomicity across requests.
- What the framework's generic error page contains when a failure escapes the
  upsert handler: the model stops at `Escaped`.
