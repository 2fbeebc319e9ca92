/** `InMemoryPersistence` (xmtp/src/persistence/in_memory_persistence.rs):
    the key/value store used for small bootstrap blobs. Its error type is
    `()`, modelled as `Unit`. */
module Persistence {
  import opened Basics

  /** The value `HashMap::get(key).cloned()` yields. */
  function Lookup(data: map<string, Bytes>, key: string): (r: Option<Bytes>)
    ensures r.Some? <==> key in data
    ensures r.Some? ==> r.value == data[key]
  {
    if key in data then Some(data[key]) else None
  }

  /** A fresh store knows no key. */
  lemma EmptyStoreReadsNone(key: string)
    ensures Lookup(map[], key) == None
  {
  }

  /** Read after write returns the written value. */
  lemma ReadAfterWrite(data: map<string, Bytes>, key: string, value: Bytes)
    ensures Lookup(data[key := value], key) == Some(value)
  {
  }

  /** Writing one key leaves every other key as it was. */
  lemma WriteLeavesOtherKeys(data: map<string, Bytes>, key: string, value: Bytes, other: string)
    requires other != key
    ensures Lookup(data[key := value], other) == Lookup(data, other)
  {
  }

  /** Of two writes to one key, the second wins. */
  lemma LastWriteWins(data: map<string, Bytes>, key: string, v1: Bytes, v2: Bytes)
    ensures data[key := v1][key := v2] == data[key := v2]
    ensures Lookup(data[key := v1][key := v2], key) == Some(v2)
  {
  }

  class InMemoryPersistence {
    var data: map<string, Bytes>

    /** `InMemoryPersistence::new` */
    constructor ()
      ensures data == map[]
    {
      data := map[];
    }

    /** `Default for InMemoryPersistence`, which delegates to `new`. */
    constructor Default()
      ensures data == map[]
    {
      data := map[];
    }

    /** `write`: inserts or replaces the entry for `key`; never fails. */
    method Write(key: string, value: Bytes) returns (r: Result<Unit, Unit>)
      modifies this
      ensures r == Ok(Unit)
      ensures data == old(data)[key := value]
    {
      data := data[key := value];
      r := Ok(Unit);
    }

    /** `read`: looks the key up without changing the store; never fails. */
    method Read(key: string) returns (r: Result<Option<Bytes>, Unit>)
      ensures r.Ok?
      ensures r.value.Some? <==> key in data
      ensures r.value.Some? ==> r.value.value == data[key]
    {
      r := Ok(Lookup(data, key));
    }
  }

  /** The promised sequence of calls, on one object: a fresh store reads
      `None`, a write is read back, a second write to the same key wins, and
      a write to another key is invisible. */
  method WriteReadScenario(k: string, other: string, v1: Bytes, v2: Bytes, v3: Bytes)
    returns (fresh0: Option<Bytes>, first: Option<Bytes>, last: Option<Bytes>)
    requires other != k
    ensures fresh0 == None && first == Some(v1) && last == Some(v2)
  {
    var store := new InMemoryPersistence();
    var r := store.Read(k);
    fresh0 := r.value;
    var w := store.Write(k, v1);
    r := store.Read(k);
    first := r.value;
    w := store.Write(k, v2);
    w := store.Write(other, v3);
    r := store.Read(k);
    last := r.value;
  }
}
