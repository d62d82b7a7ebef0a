/**
 Properties of the upsert and lookup handlers: what each branch of the upsert
 does to the index and answers, how store failures are reported, idempotence,
 and what a sequence of upserts leaves in the index.
 */
module AppProperties {
  import opened CityStore
  import opened App

  /** A refused payload gets 400 whatever the index holds and whatever the index would do: it is neither read nor written. */
  lemma RefusedPayloadTouchesNothing(docs: Docs, other: Docs, city: Option<string>, population: Option<int>, faults: Faults, otherFaults: Faults)
    requires city == None || city == Some("") || population == None || population == Some(0)
    ensures Upsert(docs, city, population, faults) == Step(Reply(400, Error(InvalidData)), docs)
    ensures Upsert(other, city, population, otherFaults).response == Upsert(docs, city, population, faults).response
  {
  }

  /** No range check exists: a negative population is stored like any other. */
  lemma NegativePopulationAccepted(docs: Docs, city: string, population: int)
    requires city != "" && population < 0
    ensures IsSuccess(Upsert(docs, Some(city), Some(population), NoFaults).response)
    ensures Upsert(docs, Some(city), Some(population), NoFaults).docs == docs[city := population]
  {
  }

  /** An absent city is inserted, adding exactly that one entry; a failure of the inserting write escapes the handler. */
  lemma InsertWhenAbsent(docs: Docs, city: string, population: int, faults: Faults)
    requires city != "" && population != 0 && city !in docs
    requires faults.get.None? || faults.get == Some(NotFoundError)
    ensures faults.firstWrite.None? ==>
      Upsert(docs, Some(city), Some(population), faults) == Step(Reply(200, Message(Inserted, "insert")), docs[city := population])
    ensures faults.firstWrite.None? ==>
      var after := Upsert(docs, Some(city), Some(population), faults).docs;
      after.Keys == docs.Keys + {city} && |after| == |docs| + 1
    ensures faults.firstWrite.Some? ==>
      Upsert(docs, Some(city), Some(population), faults) == Step(Escaped(faults.firstWrite.value), docs)
  {
    if faults.firstWrite.None? {
      var after := docs[city := population];
      assert after.Keys == docs.Keys + {city};
      assert |after.Keys| == |docs.Keys| + 1;
    }
  }

  /**
   The read reports not-found although the city is stored (the index as a
   whole answered not-found): the insert branch overwrites the stored record.
   */
  lemma InsertWhenReadSaysNotFound(docs: Docs, city: string, population: int, faults: Faults)
    requires city != "" && population != 0 && city in docs
    requires faults.get == Some(NotFoundError) && faults.firstWrite.None?
    ensures Upsert(docs, Some(city), Some(population), faults) == Step(Reply(200, Message(Inserted, "insert")), docs[city := population])
    ensures Upsert(docs, Some(city), Some(population), faults).docs.Keys == docs.Keys
  {
  }

  /** An equal stored population means no write: the answer and the index do not depend on what a write would do. */
  lemma UnchangedWhenEqual(docs: Docs, city: string, population: int, faults: Faults)
    requires city != "" && population != 0 && city in docs && docs[city] == population
    requires faults.get.None?
    ensures Upsert(docs, Some(city), Some(population), faults) == Step(Reply(200, Message(Unchanged, "update")), docs)
  {
  }

  /** A different stored population is replaced; the set of cities stays the same. */
  lemma UpdateWhenDifferent(docs: Docs, city: string, population: int, faults: Faults)
    requires city != "" && population != 0 && city in docs && docs[city] != population
    requires faults.get.None? && faults.firstWrite.None?
    ensures Upsert(docs, Some(city), Some(population), faults) == Step(Reply(200, Message(Updated, "update")), docs[city := population])
    ensures Upsert(docs, Some(city), Some(population), faults).docs.Keys == docs.Keys
  {
  }

  /** The read fails with something other than not-found: 500, nothing written. */
  lemma ReadFailureReported(docs: Docs, city: string, population: int, faults: Faults)
    requires city != "" && population != 0
    requires faults.get == Some(RequestError) || faults.get == Some(OtherError)
    ensures Upsert(docs, Some(city), Some(population), faults).docs == docs
    ensures faults.get == Some(RequestError) ==>
      Upsert(docs, Some(city), Some(population), faults).response == Reply(500, Error(RequestErrorMessage))
    ensures faults.get == Some(OtherError) ==>
      Upsert(docs, Some(city), Some(population), faults).response == Reply(500, Error(GenericErrorMessage))
  {
  }

  /**
   The replacing write fails: a request error or other failure is reported as
   500; a not-found failure falls through to the insert branch.
   */
  lemma UpdateWriteFailure(docs: Docs, city: string, population: int, faults: Faults)
    requires city != "" && population != 0 && city in docs && docs[city] != population
    requires faults.get.None? && faults.firstWrite.Some?
    ensures faults.firstWrite == Some(RequestError) ==>
      Upsert(docs, Some(city), Some(population), faults) == Step(Reply(500, Error(RequestErrorMessage)), docs)
    ensures faults.firstWrite == Some(OtherError) ==>
      Upsert(docs, Some(city), Some(population), faults) == Step(Reply(500, Error(GenericErrorMessage)), docs)
    ensures faults.firstWrite == Some(NotFoundError) && faults.secondWrite.None? ==>
      Upsert(docs, Some(city), Some(population), faults) == Step(Reply(200, Message(Inserted, "insert")), docs[city := population])
    ensures faults.firstWrite == Some(NotFoundError) && faults.secondWrite.Some? ==>
      Upsert(docs, Some(city), Some(population), faults) == Step(Escaped(faults.secondWrite.value), docs)
  {
  }

  /** A second identical upsert writes nothing and reports the population unchanged. */
  lemma UpsertTwice(docs: Docs, city: string, population: int, faults: Faults)
    requires city != "" && population != 0
    requires faults.get.None?
    ensures var once := Upsert(docs, Some(city), Some(population), NoFaults).docs;
      Upsert(once, Some(city), Some(population), faults) == Step(Reply(200, Message(Unchanged, "update")), once)
  {
    var once := Upsert(docs, Some(city), Some(population), NoFaults).docs;
    assert once == docs[city := population];
    UnchangedWhenEqual(once, city, population, faults);
  }

  /**
   Once a send has succeeded, whatever failures it met on the way, sending the
   same payload again leaves the index as it is, whatever failures that send meets.
   */
  lemma SuccessfulSendIsStable(docs: Docs, city: string, population: int, first: Faults, again: Faults)
    requires IsSuccess(Upsert(docs, Some(city), Some(population), first).response)
    ensures var once := Upsert(docs, Some(city), Some(population), first).docs;
      Upsert(once, Some(city), Some(population), again).docs == once
  {
  }

  /** The index after the same upsert payload is sent `n` times, each call succeeding. */
  function Repeat(docs: Docs, city: Option<string>, population: Option<int>, n: nat): Docs
  {
    if n == 0 then docs else Upsert(Repeat(docs, city, population, n - 1), city, population, NoFaults).docs
  }

  /** Sending the same payload any positive number of times leaves the index as sending it once. */
  lemma {:induction false} RepeatIsOnce(docs: Docs, city: Option<string>, population: Option<int>, n: nat)
    requires n >= 1
    ensures Repeat(docs, city, population, n) == Upsert(docs, city, population, NoFaults).docs
  {
    if n > 1 {
      RepeatIsOnce(docs, city, population, n - 1);
      if Accepts(city, population) {
        UpsertTwice(docs, city.value, population.value, NoFaults);
      }
    }
  }

  /** One upsert request: its payload and the failures its index calls meet. */
  datatype Request = Request(city: Option<string>, population: Option<int>, faults: Faults)

  /** The index after handling `reqs` one after another, starting from `docs`. */
  function Replay(docs: Docs, reqs: seq<Request>): Docs
  {
    if reqs == [] then docs
    else
      var last := reqs[|reqs| - 1];
      Upsert(Replay(docs, reqs[..|reqs| - 1]), last.city, last.population, last.faults).docs
  }

  /** The population of the last accepted request for `city` in `reqs`, if there is one. */
  function LastAccepted(reqs: seq<Request>, city: string): Option<int>
  {
    if reqs == [] then None
    else
      var last := reqs[|reqs| - 1];
      if Accepts(last.city, last.population) && last.city.value == city then Some(last.population.value)
      else LastAccepted(reqs[..|reqs| - 1], city)
  }

  /** Nothing ever deletes: every city in the index stays there, whatever the requests and failures. */
  lemma {:induction false} CitiesNeverRemoved(docs: Docs, reqs: seq<Request>)
    ensures docs.Keys <= Replay(docs, reqs).Keys
  {
    if reqs != [] {
      CitiesNeverRemoved(docs, reqs[..|reqs| - 1]);
    }
  }

  /** When no index call fails, a city holds the population of its last accepted request, or what it held before if there was none. */
  lemma {:induction false} LastWriteWins(docs: Docs, reqs: seq<Request>, city: string)
    requires forall i :: 0 <= i < |reqs| ==> reqs[i].faults == NoFaults
    ensures LastAccepted(reqs, city).Some? ==>
      city in Replay(docs, reqs) && Replay(docs, reqs)[city] == LastAccepted(reqs, city).value
    ensures LastAccepted(reqs, city).None? ==>
      (city in Replay(docs, reqs) <==> city in docs) &&
      (city in docs ==> Replay(docs, reqs)[city] == docs[city])
  {
    if reqs != [] {
      var init := reqs[..|reqs| - 1];
      LastWriteWins(docs, init, city);
      var last := reqs[|reqs| - 1];
      var before := Replay(docs, init);
      if Accepts(last.city, last.population) {
        var c, p := last.city.value, last.population.value;
        if c in before && before[c] == p {
          UnchangedWhenEqual(before, c, p, NoFaults);
        } else if c in before {
          UpdateWhenDifferent(before, c, p, NoFaults);
        } else {
          InsertWhenAbsent(before, c, p, NoFaults);
        }
      }
    }
  }

  /** Even with failures, every stored population was held before or was sent for that city by some request. */
  lemma {:induction false} StoredValuesComeFromRequests(docs: Docs, reqs: seq<Request>, city: string)
    requires city in Replay(docs, reqs)
    ensures (city in docs && Replay(docs, reqs)[city] == docs[city]) ||
      exists i :: 0 <= i < |reqs| && reqs[i].city == Some(city) && reqs[i].population == Some(Replay(docs, reqs)[city])
  {
    if reqs != [] {
      var init := reqs[..|reqs| - 1];
      var last := reqs[|reqs| - 1];
      var before := Replay(docs, init);
      var after := Replay(docs, reqs);
      if after == before {
        StoredValuesComeFromRequests(docs, init, city);
        if !(city in docs && after[city] == docs[city]) {
          var i :| 0 <= i < |init| && init[i].city == Some(city) && init[i].population == Some(after[city]);
          assert reqs[i] == init[i];
        }
      } else if last.city == Some(city) {
        assert after[city] == last.population.value;
        assert reqs[|reqs| - 1] == last;
      } else {
        assert after[city] == before[city];
        StoredValuesComeFromRequests(docs, init, city);
        if !(city in docs && after[city] == docs[city]) {
          var i :| 0 <= i < |init| && init[i].city == Some(city) && init[i].population == Some(after[city]);
          assert reqs[i] == init[i];
        }
      }
    }
  }

  /** An empty city gives the lookup's 400; a read that fails with a request error or another failure gives the matching 500. */
  lemma LookupFailureReported(docs: Docs, city: string, fault: Option<Failure>)
    ensures GetPopulation(docs, "", fault) == Reply(400, Error(CityParamMissing))
    ensures city != "" && fault == Some(RequestError) ==>
      GetPopulation(docs, city, fault) == Reply(500, Error(RequestErrorMessage))
    ensures city != "" && fault == Some(OtherError) ==>
      GetPopulation(docs, city, fault) == Reply(500, Error(GenericErrorMessage))
  {
  }

  /** A missing city gives 404 "City not found". */
  lemma LookupAbsent(docs: Docs, city: string)
    requires city != "" && city !in docs
    ensures GetPopulation(docs, city, None) == Reply(404, Error(CityNotFound))
  {
  }

  /** After a successful upsert, a lookup of that city returns the population just sent. */
  lemma LookupAfterUpsert(docs: Docs, city: string, population: int, faults: Faults)
    requires IsSuccess(Upsert(docs, Some(city), Some(population), faults).response)
    ensures GetPopulation(Upsert(docs, Some(city), Some(population), faults).docs, city, None) == Reply(200, Population(city, population))
  {
  }
}
