/**
  The adapter logic of MemcachedStore that does not touch the client: how keys are
  namespaced, how a lifetime becomes storage options, and how the client's replies
  become the values handed back to the caller.
 */
module StoreLogic {
  import opened CacheTypes
  import opened Memcached

  /** The prefix used when the "TruffleCache.CachePrefix" setting is absent. */
  const DefaultPrefix: string := "_"

  /** The prefix a store takes from its configuration setting (`setting ?? "_"`). */
  function PrefixFrom(setting: Option<string>): (r: string)
    ensures setting.None? ==> r == DefaultPrefix
    ensures setting.Some? ==> r == setting.value
  {
    match setting
    case None => DefaultPrefix
    case Some(p) => p
  }

  /** The key sent to the server for the caller's key: the prefix, then the key itself. */
  function PrefixKey(prefix: string, key: string): (r: string)
    ensures |r| == |prefix| + |key|
    ensures r[..|prefix|] == prefix && r[|prefix|..] == key
  {
    prefix + key
  }

  /** Under one prefix, two different keys never reach the server as the same key. */
  lemma PrefixKeyInjective(prefix: string, k1: string, k2: string)
    ensures PrefixKey(prefix, k1) == PrefixKey(prefix, k2) <==> k1 == k2
  {
    if PrefixKey(prefix, k1) == PrefixKey(prefix, k2) {
      assert k1 == PrefixKey(prefix, k1)[|prefix|..];
    }
  }

  /** Storage options for a lifetime: none at all (unlimited) for a zero lifetime. */
  function CreateOptions(expiresIn: TimeSpan): (r: Option<StorageOptions>)
    ensures r.None? <==> expiresIn == Zero
    ensures r.Some? ==> r.value.expirationTime == expiresIn
    ensures r != Some(StorageOptions(Zero))
  {
    if expiresIn == Zero then None else Some(StorageOptions(expiresIn))
  }

  /** The typed value a read reply stands for: `zero` (default(T)) on a miss. */
  function ReadResult<T>(item: Option<Item>, decode: Bytes -> T, zero: T): (r: T)
    ensures item.None? ==> r == zero
    ensures item.Some? ==> r == decode(item.value.data)
  {
    match item
    case None => zero
    case Some(it) => decode(it.data)
  }

  /** The CheckResult a GetWithCheck reply becomes. */
  function CheckRead<T>(item: Option<Item>, decode: Bytes -> T, zero: T): (r: Result<CheckResult<T>, StoreError>)
    ensures item.None? ==> r == Success(CheckResult(zero, None))
    ensures item.Some? && item.value.casUnique.Some? ==>
              r == Success(CheckResult(decode(item.value.data), item.value.casUnique))
    ensures item.Some? && item.value.casUnique.None? ==> r == Failure(MissingCasToken)
  {
    match item
    case None => Success(CheckResult(zero, None))
    case Some(it) =>
      match it.casUnique
      case None => Failure(MissingCasToken)
      case Some(token) => Success(CheckResult(decode(it.data), Some(token)))
  }

  /** The value half of a CAS read is what a plain read of the same reply gives,
      and the token half is present exactly on a hit. */
  lemma CheckReadAgreesWithRead<T>(item: Option<Item>, decode: Bytes -> T, zero: T)
    requires CheckRead(item, decode, zero).Success?
    ensures CheckRead(item, decode, zero).value.result == ReadResult(item, decode, zero)
    ensures CheckRead(item, decode, zero).value.checkValue.Some? <==> item.Some?
  {
  }

  predicate Distinct(keys: seq<string>)
  {
    forall i, j :: 0 <= i < j < |keys| ==> keys[i] != keys[j]
  }

  /** The position of the first key that repeats an earlier one, if any. */
  function FirstRepeat(keys: seq<string>): (r: Option<nat>)
    ensures r.None? <==> Distinct(keys)
    ensures r.Some? ==> r.value < |keys| && keys[r.value] in keys[..r.value] && Distinct(keys[..r.value])
  {
    if keys == [] then None
    else
      var init := keys[..|keys| - 1];
      assert forall j :: 0 <= j < |init| ==> init[..j] == keys[..j];
      match FirstRepeat(init)
      case Some(i) => Some(i)
      case None => if keys[|keys| - 1] in init then Some(|keys| - 1) else None
  }

  /** A first repeat is unique: whatever position has a repeat after a distinct run is it. */
  lemma {:induction false} FirstRepeatAt(keys: seq<string>, i: nat)
    requires i < |keys| && Distinct(keys[..i]) && keys[i] in keys[..i]
    ensures FirstRepeat(keys) == Some(i)
  {
    var init := keys[..|keys| - 1];
    if |keys| > i + 1 {
      assert init[..i] == keys[..i];
      FirstRepeatAt(init, i);
    } else {
      assert init == keys[..i];
    }
  }

  /** How many reads a multi-get issues: all of them, or up to and including the first repeat. */
  function CallsIssued(keys: seq<string>): (n: nat)
    ensures n <= |keys|
    ensures n == |keys| <== Distinct(keys)
  {
    match FirstRepeat(keys)
    case None => |keys|
    case Some(i) => i + 1
  }

  /** The dictionary from each key to its pending read, later keys overriding earlier ones. */
  function LookupOf(keys: seq<string>, items: seq<Option<Item>>): (m: map<string, Option<Item>>)
    requires |keys| == |items|
    ensures m.Keys == set k | k in keys
  {
    if keys == [] then map[]
    else
      var n := |keys| - 1;
      assert keys == keys[..n] + [keys[n]];
      LookupOf(keys[..n], items[..n])[keys[n] := items[n]]
  }

  /** With distinct keys, each key's entry is the reply its own read got. */
  lemma {:induction false} LookupAt(keys: seq<string>, items: seq<Option<Item>>, i: nat)
    requires |keys| == |items| && Distinct(keys) && i < |keys|
    ensures LookupOf(keys, items)[keys[i]] == items[i]
  {
    var n := |keys| - 1;
    if i < n {
      assert Distinct(keys[..n]);
      LookupAt(keys[..n], items[..n], i);
    }
  }

  /** The dictionary handed back: each key of the lookup, mapped to what its reply stands for. */
  function ShapeMany<T>(lookup: map<string, Option<Item>>, decode: Bytes -> T, zero: T): (r: map<string, T>)
    ensures r.Keys == lookup.Keys
    ensures forall k :: k in lookup && lookup[k].None? ==> r[k] == zero
    ensures forall k :: k in lookup && lookup[k].Some? ==> r[k] == decode(lookup[k].value.data)
  {
    map k | k in lookup :: ReadResult(lookup[k], decode, zero)
  }

  /** The first dictionary a multi-get builds, from each key to its read's reply; building it
      fails on the first repeated key. */
  function TaskLookup(keys: seq<string>, items: seq<Option<Item>>): (r: Result<map<string, Option<Item>>, StoreError>)
    requires |items| == CallsIssued(keys)
    ensures r.Success? <==> Distinct(keys)
    ensures r.Success? ==> r.value.Keys == set k | k in keys
    ensures r.Failure? ==> r.error.DuplicateKey?
    ensures r.Failure? ==> exists i, j :: 0 <= i < j < |keys| && keys[i] == r.error.key && keys[j] == r.error.key
  {
    match FirstRepeat(keys)
    case Some(i) => Failure(DuplicateKey(keys[i]))
    case None => Success(LookupOf(keys, items))
  }

  /** The outcome of a multi-get, given the replies to the reads it issued. */
  function ManyResult<T>(keys: seq<string>, items: seq<Option<Item>>, decode: Bytes -> T, zero: T)
    : (r: Result<map<string, T>, StoreError>)
    requires |items| == CallsIssued(keys)
    ensures r.Success? <==> Distinct(keys)
    ensures r.Success? ==> r.value.Keys == set k | k in keys
    ensures r.Failure? ==> r == Failure(TaskLookup(keys, items).error)
  {
    match TaskLookup(keys, items)
    case Failure(e) => Failure(e)
    case Success(lookup) => Success(ShapeMany(lookup, decode, zero))
  }

  /** A multi-get succeeds exactly when its keys are distinct. It then maps every input key,
      and only those, to default(T) when that key's read missed and to the decoded payload
      when it hit; otherwise it fails on the first repeated key. */
  lemma ManyResultShape<T>(keys: seq<string>, items: seq<Option<Item>>, decode: Bytes -> T, zero: T)
    requires |items| == CallsIssued(keys)
    ensures ManyResult(keys, items, decode, zero).Success? <==> Distinct(keys)
    ensures Distinct(keys) ==>
              var m := ManyResult(keys, items, decode, zero).value;
              && m.Keys == set k | k in keys
              && (forall i :: 0 <= i < |keys| && items[i].None? ==> m[keys[i]] == zero)
              && (forall i :: 0 <= i < |keys| && items[i].Some? ==> m[keys[i]] == decode(items[i].value.data))
    ensures !Distinct(keys) ==>
              exists i, j :: 0 <= i < j < |keys| && keys[i] == keys[j] &&
                ManyResult(keys, items, decode, zero) == Failure(DuplicateKey(keys[j]))
  {
    if Distinct(keys) {
      forall i | 0 <= i < |keys|
        ensures LookupOf(keys, items)[keys[i]] == items[i]
      {
        LookupAt(keys, items, i);
      }
    } else {
      var j := FirstRepeat(keys).value;
      var i :| 0 <= i < j && keys[i] == keys[j];
    }
  }

  /** The Get requests a batch of reads sends: one per key, in order, each with its reply. */
  function GetCalls(prefix: string, keys: seq<string>, items: seq<Option<Item>>): (calls: seq<Call>)
    requires |keys| == |items|
    ensures |calls| == |keys|
    ensures forall j :: 0 <= j < |keys| ==> calls[j] == GetCall(PrefixKey(prefix, keys[j]), items[j])
  {
    if keys == [] then []
    else GetCalls(prefix, keys[..|keys| - 1], items[..|keys| - 1]) + [GetCall(PrefixKey(prefix, keys[|keys| - 1]), items[|keys| - 1])]
  }

  /** What one more read adds to a batch: one more request, one more lookup entry, and a
      distinct prefix stays distinct when the new key is new. */
  lemma ReadStep(prefix: string, keys: seq<string>, i: nat, items: seq<Option<Item>>, item: Option<Item>)
    requires i < |keys| && |items| == i
    ensures GetCalls(prefix, keys[..i + 1], items + [item]) ==
              GetCalls(prefix, keys[..i], items) + [GetCall(PrefixKey(prefix, keys[i]), item)]
    ensures LookupOf(keys[..i + 1], items + [item]) == LookupOf(keys[..i], items)[keys[i] := item]
    ensures Distinct(keys[..i]) && keys[i] !in keys[..i] ==> Distinct(keys[..i + 1])
  {
    assert keys[..i + 1][..i] == keys[..i];
    assert (items + [item])[..i] == items;
  }
}
