/**
  A model of the MemcachedSharp client as the adapter sees it: an opaque capability
  whose replies may be anything. Every call is recorded, with the reply it got, in `log`,
  so that what the adapter sent and what it made of the answer can be stated about any client.
 */
module Memcached {
  import opened CacheTypes

  /** One request to the client, with its arguments and the reply it produced. */
  datatype Call =
    | SetCall(key: string, data: Bytes, options: Option<StorageOptions>)
    | GetCall(key: string, item: Option<Item>)
    | GetsCall(key: string, item: Option<Item>)
    | CasCall(key: string, casUnique: int, data: Bytes, options: Option<StorageOptions>, outcome: CasResult)
    | DeleteCall(key: string, existed: bool)

  class MemcachedClient {
    /** Every keyed request this client has served, oldest first. */
    var log: seq<Call>
    /** How many times Dispose has been called on this client. */
    var disposeCalls: nat

    constructor ()
      ensures log == [] && disposeCalls == 0
    {
      log := [];
      disposeCalls := 0;
    }

    method Set(key: string, data: Bytes, options: Option<StorageOptions>)
      modifies this
      ensures log == old(log) + [SetCall(key, data, options)]
      ensures disposeCalls == old(disposeCalls)
    {
      log := log + [SetCall(key, data, options)];
    }

    /** Reads an entry; None stands for the null a miss returns. */
    method Get(key: string) returns (item: Option<Item>)
      modifies this
      ensures log == old(log) + [GetCall(key, item)]
      ensures disposeCalls == old(disposeCalls)
    {
      item := *;
      log := log + [GetCall(key, item)];
    }

    /** Reads an entry together with its CAS token. */
    method Gets(key: string) returns (item: Option<Item>)
      modifies this
      ensures log == old(log) + [GetsCall(key, item)]
      ensures disposeCalls == old(disposeCalls)
    {
      item := *;
      log := log + [GetsCall(key, item)];
    }

    method Cas(key: string, casUnique: int, data: Bytes, options: Option<StorageOptions>) returns (outcome: CasResult)
      modifies this
      ensures log == old(log) + [CasCall(key, casUnique, data, options, outcome)]
      ensures disposeCalls == old(disposeCalls)
    {
      outcome := *;
      log := log + [CasCall(key, casUnique, data, options, outcome)];
    }

    method Delete(key: string) returns (existed: bool)
      modifies this
      ensures log == old(log) + [DeleteCall(key, existed)]
      ensures disposeCalls == old(disposeCalls)
    {
      existed := *;
      log := log + [DeleteCall(key, existed)];
    }

    method Dispose()
      modifies this
      ensures log == old(log)
      ensures disposeCalls == old(disposeCalls) + 1
    {
      disposeCalls := disposeCalls + 1;
    }
  }
}
