/**
  MemcachedStore: the cache-store adapter. It owns a namespace prefix fixed at construction
  and a lazily created client handle (Lazy<MemcachedClient>); every operation fetches the
  handle, sends the prefixed key to the client and shapes the reply.
 */
module TruffleCache {
  import opened CacheTypes
  import opened Memcached
  import opened StoreLogic

  /** What a client has recorded so far: its requests and its Dispose calls. */
  datatype ClientView = ClientView(log: seq<Call>, disposeCalls: nat)

  class MemcachedStore {
    /** The namespace prefix, fixed at construction. */
    const prefix: string
    /** The client given to the injecting constructor; null when the store builds its own. */
    const injected: MemcachedClient?
    /** Lazy.IsValueCreated */
    var created: bool
    /** Lazy.Value once it has been created. */
    var handle: MemcachedClient?
    ghost var Repr: set<object>

    ghost predicate Valid()
      reads this
    {
      && this in Repr
      && (injected != null ==> injected in Repr)
      && (created <==> handle != null)
      && (created ==> handle in Repr)
      && (created && injected != null ==> handle == injected)
    }

    /** The state of the client that `.Value` hands out (or would hand out): a client built
        on first use starts with nothing recorded. */
    ghost function Pending(): ClientView
      reads this, Repr
      requires Valid()
    {
      if created then ClientView(handle.log, handle.disposeCalls)
      else if injected != null then ClientView(injected.log, injected.disposeCalls)
      else ClientView([], 0)
    }

    /** The handle has recorded exactly `calls` beyond `before`, and no Dispose. */
    ghost predicate Sent(before: ClientView, calls: seq<Call>)
      reads this, Repr
      requires Valid()
    {
      created && handle.log == before.log + calls && handle.disposeCalls == before.disposeCalls
    }

    /** The store that builds its own client on first use. */
    constructor (setting: Option<string>)
      ensures Valid() && fresh(Repr) && Repr == {this}
      ensures setting.None? ==> prefix == "_"
      ensures setting.Some? ==> prefix == setting.value
      ensures injected == null && !created
    {
      prefix := PrefixFrom(setting);
      injected := null;
      created := false;
      handle := null;
      Repr := {this};
    }

    /** The store over a given client, which it does not touch until first use. */
    constructor WithClient(client: MemcachedClient, setting: Option<string>)
      ensures Valid() && Repr == {this, client}
      ensures setting.None? ==> prefix == "_"
      ensures setting.Some? ==> prefix == setting.value
      ensures injected == client && !created
    {
      prefix := PrefixFrom(setting);
      injected := client;
      created := false;
      handle := null;
      Repr := {this, client};
    }

    /** Lazy.Value: creates the handle on first access only, and returns the same one ever after. */
    method ClientValue() returns (c: MemcachedClient)
      requires Valid()
      modifies this
      ensures Valid() && created && c == handle && fresh(Repr - old(Repr))
      ensures old(created) ==> c == old(handle)
      ensures !old(created) && injected != null ==> c == injected
      ensures !old(created) && injected == null ==> fresh(c)
      ensures ClientView(c.log, c.disposeCalls) == old(Pending())
    {
      if !created {
        if injected != null {
          handle := injected;
        } else {
          handle := new MemcachedClient();
          Repr := Repr + {handle};
        }
        created := true;
      }
      c := handle;
    }

    /** SetAsync(key, value, expiresIn): one Set of the prefixed key. */
    method Set<V>(key: string, value: V, encode: V -> Bytes, expiresIn: TimeSpan)
      requires Valid()
      modifies this, Repr
      ensures Valid() && fresh(Repr - old(Repr))
      ensures old(created) ==> handle == old(handle)
      ensures Sent(old(Pending()), [SetCall(PrefixKey(prefix, key), encode(value), CreateOptions(expiresIn))])
    {
      var c := ClientValue();
      c.Set(PrefixKey(prefix, key), encode(value), CreateOptions(expiresIn));
    }

    /** GetAsync(key): default(T) on a miss, the decoded payload on a hit. */
    method Get<T>(key: string, decode: Bytes -> T, zero: T) returns (r: T, ghost item: Option<Item>)
      requires Valid()
      modifies this, Repr
      ensures Valid() && fresh(Repr - old(Repr))
      ensures old(created) ==> handle == old(handle)
      ensures Sent(old(Pending()), [GetCall(PrefixKey(prefix, key), item)])
      ensures item.None? ==> r == zero
      ensures item.Some? ==> r == decode(item.value.data)
    {
      var c := ClientValue();
      var reply := c.Get(PrefixKey(prefix, key));
      item := reply;
      if reply == None {
        return zero, item;
      }
      r := decode(reply.value.data);
    }

    /** GetAsync(params keys): one read per key, then the dictionary from each key to its value.
        A repeated key makes the dictionary construction fail once that key's read is issued. */
    method GetMany<T>(keys: seq<string>, decode: Bytes -> T, zero: T)
      returns (r: Result<map<string, T>, StoreError>, ghost items: seq<Option<Item>>)
      requires Valid()
      modifies this, Repr
      ensures Valid() && fresh(Repr - old(Repr))
      ensures created == (old(created) || keys != [])
      ensures old(created) ==> handle == old(handle)
      ensures |items| == CallsIssued(keys)
      ensures r == ManyResult(keys, items, decode, zero)
      ensures keys != [] ==> Sent(old(Pending()), GetCalls(prefix, keys[..|items|], items))
      ensures keys == [] ==> unchanged(old(Repr))
    {
      if keys == [] {
        return Success(map[]), [];
      }
      var c := ClientValue();
      var lookup;
      lookup, items := ReadEach(c, prefix, keys);
      match lookup
      case Failure(e) =>
        r := Failure(e);
      case Success(m) =>
        r := Success(ShapeMany(m, decode, zero));
    }

    /** RemoveAsync(key): the client's answer to deleting the prefixed key. */
    method Remove(key: string) returns (removed: bool)
      requires Valid()
      modifies this, Repr
      ensures Valid() && fresh(Repr - old(Repr))
      ensures old(created) ==> handle == old(handle)
      ensures Sent(old(Pending()), [DeleteCall(PrefixKey(prefix, key), removed)])
    {
      var c := ClientValue();
      removed := c.Delete(PrefixKey(prefix, key));
    }

    /** SetAsync(key, checkValue, value, expiresIn): true exactly when the CAS write was stored. */
    method SetWithCheck<V>(key: string, checkValue: int, value: V, encode: V -> Bytes, expiresIn: TimeSpan)
      returns (ok: bool, ghost outcome: CasResult)
      requires Valid()
      modifies this, Repr
      ensures Valid() && fresh(Repr - old(Repr))
      ensures old(created) ==> handle == old(handle)
      ensures Sent(old(Pending()),
                   [CasCall(PrefixKey(prefix, key), checkValue, encode(value), CreateOptions(expiresIn), outcome)])
      ensures ok <==> outcome == Stored
    {
      var c := ClientValue();
      var result := c.Cas(PrefixKey(prefix, key), checkValue, encode(value), CreateOptions(expiresIn));
      outcome := result;
      ok := result == Stored;
    }

    /** GetWithCheckAsync(key): the value with its CAS token, or default(T) and no token on a miss. */
    method GetWithCheck<T>(key: string, decode: Bytes -> T, zero: T)
      returns (r: Result<CheckResult<T>, StoreError>, ghost item: Option<Item>)
      requires Valid()
      modifies this, Repr
      ensures Valid() && fresh(Repr - old(Repr))
      ensures old(created) ==> handle == old(handle)
      ensures Sent(old(Pending()), [GetsCall(PrefixKey(prefix, key), item)])
      ensures r == CheckRead(item, decode, zero)
    {
      var c := ClientValue();
      var reply := c.Gets(PrefixKey(prefix, key));
      item := reply;
      if reply == None {
        return Success(CheckResult(zero, None)), item;
      }
      if reply.value.casUnique == None {
        return Failure(MissingCasToken), item;
      }
      r := Success(CheckResult(decode(reply.value.data), Some(reply.value.casUnique.value)));
    }

    /** Dispose: releases the client only if it was created, and never creates it. */
    method Dispose()
      requires Valid()
      modifies Repr
      ensures Valid() && Repr == old(Repr)
      ensures created == old(created) && handle == old(handle)
      ensures created ==> handle.log == old(handle.log) && handle.disposeCalls == old(handle.disposeCalls) + 1
      ensures !created ==> unchanged(Repr)
    {
      if created {
        handle.Dispose();
      }
    }
  }

  /** A store that never performed an operation releases nothing when disposed. */
  method NeverUsedStoreReleasesNothing(setting: Option<string>) returns (releases: nat)
    ensures releases == 0
  {
    var client := new MemcachedClient();
    var store := new MemcachedStore.WithClient(client, setting);
    store.Dispose();
    releases := client.disposeCalls;
  }

  /** A store that performed an operation releases its client when disposed, once per Dispose
      call: a second Dispose releases it again. */
  method UsedStoreReleasesPerDispose(setting: Option<string>, key: string) returns (first: nat, second: nat)
    ensures first == 1 && second == 2
  {
    var client := new MemcachedClient();
    var store := new MemcachedStore.WithClient(client, setting);
    var _ := store.Remove(key);
    store.Dispose();
    first := client.disposeCalls;
    store.Dispose();
    second := client.disposeCalls;
  }

  /** The first ToDictionary of a multi-get: one Get of the prefixed key per input key, in order,
      each pending reply stored under its key; a repeated key fails the construction after its
      own Get has been issued. */
  method ReadEach(c: MemcachedClient, prefix: string, keys: seq<string>)
    returns (r: Result<map<string, Option<Item>>, StoreError>, ghost items: seq<Option<Item>>)
    modifies c
    ensures |items| == CallsIssued(keys)
    ensures r == TaskLookup(keys, items)
    ensures c.log == old(c.log) + GetCalls(prefix, keys[..|items|], items)
    ensures c.disposeCalls == old(c.disposeCalls)
  {
    var lookup: map<string, Option<Item>> := map[];
    items := [];
    var i := 0;
    while i < |keys|
      invariant 0 <= i <= |keys|
      invariant |items| == i && Distinct(keys[..i])
      invariant lookup == LookupOf(keys[..i], items)
      invariant c.log == old(c.log) + GetCalls(prefix, keys[..i], items)
      invariant c.disposeCalls == old(c.disposeCalls)
    {
      ghost var sent := c.log;
      var item := c.Get(PrefixKey(prefix, keys[i]));
      ReadStep(prefix, keys, i, items, item);
      assert c.log == old(c.log) + GetCalls(prefix, keys[..i + 1], items + [item]) by {
        assert c.log == sent + [GetCall(PrefixKey(prefix, keys[i]), item)];
      }
      items := items + [item];
      if keys[i] in lookup {
        FirstRepeatAt(keys, i);
        return Failure(DuplicateKey(keys[i])), items;
      }
      lookup := lookup[keys[i] := item];
      i := i + 1;
    }
    assert keys[..i] == keys;
    r := Success(lookup);
  }
}
