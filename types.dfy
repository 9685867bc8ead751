/** Value types shared by the client model, the adapter logic and the store. */
module CacheTypes {

  datatype Option<+T> = None | Some(value: T)

  datatype Result<+R, +E> = Success(value: R) | Failure(error: E)

  newtype byte = x: int | 0 <= x < 256

  /** An opaque serialized payload: the adapter only forwards it. */
  type Bytes = seq<byte>

  /** A .NET TimeSpan, as its signed count of 100-nanosecond ticks. */
  datatype TimeSpan = TimeSpan(ticks: int)

  const Zero: TimeSpan := TimeSpan(0)

  /** MemcachedStorageOptions: the only setting the adapter fills in is the expiration. */
  datatype StorageOptions = StorageOptions(expirationTime: TimeSpan)

  /** A cached entry as the client returns it: the payload and, optionally, its CAS token. */
  datatype Item = Item(data: Bytes, casUnique: Option<int>)

  /** The outcome of a compare-and-swap write as the client reports it. */
  datatype CasResult = Stored | Exists | NotFound

  /** CheckResult<T>: a value read together with the CAS token it had (None: token left unset). */
  datatype CheckResult<T> = CheckResult(result: T, checkValue: Option<int>)

  /** The exceptions the adapter itself can raise (the client's and the serializer's are not modelled). */
  datatype StoreError =
    | DuplicateKey(key: string)   // ToDictionary meets the same key twice
    | MissingCasToken             // Nullable.Value on an item without a CAS token
}
