/** `loadFromServer` and `loadDataFromStore` (assets/js/main.js:165-202): read the object
    store; return what it holds unless it is empty; otherwise fetch, normalise, hand the
    result to `storeDataInDB` without waiting for it, and return the result. The network
    is reduced to its outcome: the parsed record list, or `None` when the fetch or the
    JSON parse rejected. */
module CacheAside {
  import opened Wrappers
  import opened Domain
  import Normalizer
  import RecordStore

  /** `loadFromServer`: a failed fetch rejects; otherwise both normalisation stages run. */
  method LoadFromServer(key: DataKey, fetched: Option<seq<Normalizer.RawRecord>>)
    returns (r: Result<Matrix, LoadError>)
    requires fetched.Some? ==> Normalizer.AllInRange(fetched.value)
    ensures fetched.None? ==> r == Err(FetchFailed)
    ensures fetched.Some? ==> r == Normalizer.Normalized(key, fetched.value)
  {
    if fetched.None? {
      return Err(FetchFailed);
    }
    r := Normalizer.Normalize(key, fetched.value);
  }

  /** `loadDataFromStore`. `queried` tells whether the server was asked. A cursor error is
      not caught, so the load rejects. A write-back failure does not change the result. */
  method LoadFromStore(db: RecordStore.Database, key: DataKey, readFault: Option<nat>,
                       fetched: Option<seq<Normalizer.RawRecord>>, putFault: Option<nat>)
    returns (r: Result<Matrix, LoadError>, queried: bool)
    requires db.Valid()
    requires fetched.Some? ==> Normalizer.AllInRange(fetched.value)
    modifies db
    ensures db.Valid()
    ensures queried <==> !RecordStore.ReadFails(|old(db.stores[key])|, readFault) && old(db.stores[key]) == []
    ensures RecordStore.ReadFails(|old(db.stores[key])|, readFault) ==>
      r == Err(StoreReadFailed) && db.stores == old(db.stores)
    ensures !RecordStore.ReadFails(|old(db.stores[key])|, readFault) && old(db.stores[key]) != [] ==>
      r == Ok(old(db.stores[key])) && db.stores == old(db.stores)
    ensures queried && fetched.None? ==> r == Err(FetchFailed) && db.stores == old(db.stores)
    ensures queried && fetched.Some? ==> r == Normalizer.Normalized(key, fetched.value)
    ensures queried && r.Err? ==> db.stores == old(db.stores)
    ensures queried && r.Ok? ==>
      db.stores == old(db.stores)[key := r.value[..RecordStore.PutCount(|r.value|, putFault)]]
  {
    var read := db.ReadAll(key, readFault);
    if read.Err? {
      return Err(StoreReadFailed), false;
    }
    if |read.value| > 0 {
      return Ok(read.value), false;
    }
    queried := true;
    r := LoadFromServer(key, fetched);
    if r.Ok? {
      var _ := db.PutAll(key, r.value, putFault);
      assert old(db.stores[key]) + r.value[..RecordStore.PutCount(|r.value|, putFault)]
          == r.value[..RecordStore.PutCount(|r.value|, putFault)];
    }
  }

  /** Cache-aside end to end: on a fresh database the first load asks the server and
      stores the complete matrix; a second load is then served from the store, without the
      server, and returns the same matrix. */
  method ColdThenWarm(key: DataKey, records: seq<Normalizer.RawRecord>)
    returns (first: Result<Matrix, LoadError>, second: Result<Matrix, LoadError>,
             firstQueried: bool, secondQueried: bool)
    requires Normalizer.AllInRange(records)
    requires forall y :: 0 <= y < YearCount ==> Normalizer.HasYear(records, y)
    ensures firstQueried && !secondQueried
    ensures first.Ok? && first == Normalizer.Normalized(key, records) && second == first
  {
    Normalizer.NormalizedShape(key, records);
    var db := new RecordStore.Database();
    first, firstQueried := LoadFromStore(db, key, None, Some(records), None);
    assert first.value[..|first.value|] == first.value;
    assert db.stores[key] == first.value && |first.value| == YearCount;
    second, secondQueried := LoadFromStore(db, key, None, None, None);
  }
}
