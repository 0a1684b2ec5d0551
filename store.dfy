/** The IndexedDB side (assets/js/main.js:21-88), with each object store reduced to the
    sequence of values it holds in key order. Both stores are `autoIncrement`, so `put` of a
    new value appends it, and a cursor visits the values front to back. A failing request is
    given as the index of the request that errs. */
module RecordStore {
  import opened Wrappers
  import opened Domain

  datatype StoreError = CursorError

  /** A read with `fault` fails when the faulty request is one the cursor issues: the
      opening request or one of the `continue` calls, `|rows| + 1` requests in all. */
  predicate ReadFails(rowCount: nat, fault: Option<nat>)
  {
    fault.Some? && fault.value <= rowCount
  }

  /** How many of `n` puts succeed when the put with index `fault` errs. */
  function PutCount(n: nat, fault: Option<nat>): (c: nat)
    ensures c <= n
    ensures c < n <==> fault.Some? && fault.value < n
    ensures fault.Some? && fault.value < n ==> c == fault.value
  {
    if fault.Some? && fault.value < n then fault.value else n
  }

  class Database {
    /** The `temperature` and `precipitation` object stores. */
    var stores: map<DataKey, seq<Row>>

    /** Both object stores exist, as the upgrade handler of `connectDB` creates them. */
    ghost predicate Valid()
      reads this
    {
      Temperature in stores && Precipitation in stores
    }

    /** A database opened for the first time: both stores created and empty. */
    constructor ()
      ensures Valid()
      ensures stores == map[Temperature := [], Precipitation := []]
    {
      stores := map[Temperature := [], Precipitation := []];
    }

    /** `loadDataFromDB`: the cursor loop pushes every value, in key order, and resolves
        with them; an erring cursor request rejects. */
    method ReadAll(key: DataKey, fault: Option<nat>) returns (r: Result<seq<Row>, StoreError>)
      requires Valid()
      ensures ReadFails(|stores[key]|, fault) ==> r == Err(CursorError)
      ensures !ReadFails(|stores[key]|, fault) ==> r == Ok(stores[key])
    {
      var rows := stores[key];
      var data: seq<Row> := [];
      var request := 0;
      while true
        invariant 0 <= request <= |rows|
        invariant data == rows[..request]
        invariant fault.Some? ==> fault.value >= request
        decreases |rows| - request
      {
        if fault == Some(request) {
          return Err(CursorError);
        }
        if request == |rows| {
          assert data == rows;
          return Ok(data);
        }
        assert rows[..request + 1] == rows[..request] + [rows[request]];
        data := data + [rows[request]];
        request := request + 1;
      }
    }

    /** `storeDataInDB`: `putNext` puts `data[0]`, `data[1]`, ... one after the other, each
        only after the previous one succeeded, and resolves after the last; an erring put
        rejects with only the earlier values stored. The other store is not touched. */
    method PutAll(key: DataKey, data: seq<Row>, fault: Option<nat>) returns (ok: bool)
      requires Valid()
      modifies this
      ensures Valid()
      ensures ok <==> PutCount(|data|, fault) == |data|
      ensures stores == old(stores)[key := old(stores[key]) + data[..PutCount(|data|, fault)]]
    {
      var i := 0;
      assert old(stores[key]) + data[..0] == old(stores[key]);
      assert old(stores)[key := old(stores[key])] == old(stores);
      while i < |data|
        invariant 0 <= i <= |data|
        invariant fault.Some? ==> fault.value >= i
        invariant Valid()
        invariant stores == old(stores)[key := old(stores[key]) + data[..i]]
      {
        if fault == Some(i) {
          return false;
        }
        assert data[..i + 1] == data[..i] + [data[i]];
        assert old(stores[key]) + data[..i + 1] == (old(stores[key]) + data[..i]) + [data[i]];
        stores := stores[key := stores[key] + [data[i]]];
        i := i + 1;
      }
      assert data[..i] == data;
      return true;
    }
  }

  /** Writing rows into a freshly created database and reading them back gives exactly
      those rows, in the same order. */
  method WriteThenRead(key: DataKey, data: seq<Row>) returns (ok: bool, r: Result<seq<Row>, StoreError>)
    ensures ok && r == Ok(data)
  {
    var db := new Database();
    ok := db.PutAll(key, data, None);
    assert [] + data[..|data|] == data;
    r := db.ReadAll(key, None);
  }
}
