/** `dataMainCache` and `getCachedData` (assets/js/main.js:90, 139-145): a map from data
    key to the promise of its matrix, filled on first request and never emptied. */
module DataCache {
  import opened Domain

  /** The promise one call of `loadDataFromStore` returns, known only by which call it was. */
  datatype Handle = Handle(call: nat)

  class Memo {
    /** `dataMainCache`. */
    var entries: map<DataKey, Handle>
    /** How many times the loader has been invoked. */
    var loaderCalls: nat
    /** The key each loader invocation was for, in order. */
    ghost var loadedKeys: seq<DataKey>

    /** Each key was loaded at most once, each entry holds the handle its own load created,
        and every load left an entry behind. */
    ghost predicate Valid()
      reads this
    {
      && |loadedKeys| == loaderCalls
      && |entries| == loaderCalls
      && (forall i, j :: 0 <= i < j < |loadedKeys| ==> loadedKeys[i] != loadedKeys[j])
      && (forall k :: k in entries <==> k in loadedKeys)
      && (forall k :: k in entries ==> entries[k].call < loaderCalls && loadedKeys[entries[k].call] == k)
    }

    constructor ()
      ensures Valid()
      ensures entries == map[] && loaderCalls == 0
    {
      entries := map[];
      loaderCalls := 0;
      loadedKeys := [];
    }

    /** `getCachedData(key)`: a missing key invokes the loader once and stores its handle;
        a present key returns its stored handle and invokes nothing. */
    method Get(key: DataKey) returns (h: Handle)
      requires Valid()
      modifies this
      ensures Valid()
      ensures key in entries && entries[key] == h
      ensures key in old(entries) ==>
        h == old(entries)[key] && entries == old(entries) && loaderCalls == old(loaderCalls)
      ensures key !in old(entries) ==>
        h == Handle(old(loaderCalls)) && entries == old(entries)[key := h] &&
        loaderCalls == old(loaderCalls) + 1 && loadedKeys == old(loadedKeys) + [key]
    {
      if key !in entries {
        entries := entries[key := Handle(loaderCalls)];
        loadedKeys := loadedKeys + [key];
        loaderCalls := loaderCalls + 1;
      }
      h := entries[key];
    }
  }

  /** A run of `getCachedData` calls on a fresh cache: calls for the same key share one
      handle, calls for different keys get different handles, and the loader runs once per
      distinct key. */
  method GetAll(keys: seq<DataKey>) returns (handles: seq<Handle>, loaderCalls: nat)
    ensures |handles| == |keys|
    ensures forall i, j :: 0 <= i < |keys| && 0 <= j < |keys| ==>
      (handles[i] == handles[j] <==> keys[i] == keys[j])
    ensures loaderCalls == |set k | k in keys|
  {
    var memo := new Memo();
    handles := [];
    var i := 0;
    while i < |keys|
      invariant 0 <= i <= |keys|
      invariant memo.Valid()
      invariant |handles| == i
      invariant IndexedBy(memo.entries, keys[..i], handles)
    {
      ghost var before := memo.entries;
      var h := memo.Get(keys[i]);
      IndexedByStep(before, memo.entries, keys[..i], handles, keys[i], h);
      assert keys[..i + 1] == keys[..i] + [keys[i]];
      handles := handles + [h];
      i := i + 1;
    }
    assert keys[..i] == keys;
    HandlesIdentifyKeys(memo, keys, handles);
    loaderCalls := memo.loaderCalls;
  }

  /** The entries hold exactly the keys requested so far, and the `j`-th request got the
      entry of its key. */
  ghost predicate IndexedBy(entries: map<DataKey, Handle>, keys: seq<DataKey>, handles: seq<Handle>)
  {
    && |handles| == |keys|
    && (forall k :: k in entries <==> k in keys)
    && (forall j :: 0 <= j < |keys| ==> keys[j] in entries && entries[keys[j]] == handles[j])
  }

  lemma IndexedByStep(before: map<DataKey, Handle>, after: map<DataKey, Handle>,
                      keys: seq<DataKey>, handles: seq<Handle>, key: DataKey, h: Handle)
    requires IndexedBy(before, keys, handles)
    requires after == (if key in before then before else before[key := h])
    requires key in after && after[key] == h
    ensures IndexedBy(after, keys + [key], handles + [h])
  {
  }

  /** Once every key of `keys` has been requested, the handles tell the keys apart and the
      loader has run once per distinct key. */
  lemma HandlesIdentifyKeys(memo: Memo, keys: seq<DataKey>, handles: seq<Handle>)
    requires memo.Valid() && IndexedBy(memo.entries, keys, handles)
    ensures forall i, j :: 0 <= i < |keys| && 0 <= j < |keys| ==>
      (handles[i] == handles[j] <==> keys[i] == keys[j])
    ensures memo.loaderCalls == |set k | k in keys|
  {
    forall i, j | 0 <= i < |keys| && 0 <= j < |keys| && handles[i] == handles[j]
      ensures keys[i] == keys[j]
    {
      assert memo.loadedKeys[handles[i].call] == keys[i];
    }
    assert memo.entries.Keys == set k | k in keys;
    assert |memo.entries| == |memo.entries.Keys|;
  }
}
