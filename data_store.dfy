/** The instance's keyed store: three dictionaries (`wait`, `data`, `req`)
    written and deleted in place. */
module DataStore {
  import opened Common

  datatype Bucket = WaitBucket | DataBucket | ReqBucket

  /** An entry of the `wait` dictionary: the data delivered, the nodes
      waiting for it, and its read-once flag (absent when the entry was
      not created by `$wait.set`). */
  datatype WaitEntry = WaitEntry(data: Value, nodes: seq<Node>, once: Option<bool>)

  /** What a bucket holds under a key. */
  datatype Entry = Plain(value: Value) | Waiting(entry: WaitEntry)

  class DataStore {
    var wait: map<string, WaitEntry>
    var data: map<string, Value>
    var req: map<string, Value>

    constructor ()
      ensures wait == map[] && data == map[] && req == map[]
    {
      wait := map[];
      data := map[];
      req := map[];
    }

    /** The dictionary the bucket names, as entries. */
    function Contents(b: Bucket): map<string, Entry>
      reads this
    {
      match b
      case WaitBucket => map k | k in wait :: Waiting(wait[k])
      case DataBucket => map k | k in data :: Plain(data[k])
      case ReqBucket => map k | k in req :: Plain(req[k])
    }

    /** `set`: the `wait` bucket is refused with a warning (it is read-only
        through the store); any other bucket maps the key to the value,
        overwriting what was there. */
    method Set(b: Bucket, key: string, value: Value) returns (log: seq<Log>)
      modifies this
      ensures b == WaitBucket ==> log == [Log(WarnLevel, "wait")] && unchanged(this)
      ensures b == DataBucket ==> log == [] && data == old(data)[key := value] && wait == old(wait) && req == old(req)
      ensures b == ReqBucket ==> log == [] && req == old(req)[key := value] && wait == old(wait) && data == old(data)
      ensures b != WaitBucket ==> Contents(b) == old(Contents(b))[key := Plain(value)]
    {
      if b == WaitBucket {
        return [Log(WarnLevel, "wait")];
      }
      log := [];
      if b == DataBucket {
        data := data[key := value];
      } else {
        req := req[key := value];
      }
    }

    /** `unset`: removes only `key` of bucket `b`. */
    method Unset(b: Bucket, key: string)
      modifies this
      ensures b == WaitBucket ==> wait == old(wait) - {key} && data == old(data) && req == old(req)
      ensures b == DataBucket ==> data == old(data) - {key} && wait == old(wait) && req == old(req)
      ensures b == ReqBucket ==> req == old(req) - {key} && wait == old(wait) && data == old(data)
      ensures Contents(b) == old(Contents(b)) - {key}
    {
      match b
      case WaitBucket => wait := wait - {key};
      case DataBucket => data := data - {key};
      case ReqBucket => req := req - {key};
    }

    /** `get`: what the bucket holds under `key` (none for a missing key);
        with `once === true` the key is removed after reading, otherwise
        nothing changes. */
    method Get(b: Bucket, key: string, once: Option<bool>) returns (r: Option<Entry>)
      modifies this
      ensures r == if key in old(Contents(b)) then Some(old(Contents(b))[key]) else None
      ensures once == Some(true) ==> Contents(b) == old(Contents(b)) - {key}
      ensures once == Some(true) ==>
                (b == WaitBucket ==> wait == old(wait) - {key} && data == old(data) && req == old(req))
                && (b == DataBucket ==> data == old(data) - {key} && wait == old(wait) && req == old(req))
                && (b == ReqBucket ==> req == old(req) - {key} && wait == old(wait) && data == old(data))
      ensures once != Some(true) ==> unchanged(this)
    {
      var contents := Contents(b);
      r := if key in contents then Some(contents[key]) else None;
      if once == Some(true) {
        Unset(b, key);
      }
    }

    /** A value stored with `set` in `data` or `req` is what `get` returns
        for that key, whatever was there before. */
    method SetThenGet(b: Bucket, key: string, value: Value, once: Option<bool>) returns (r: Option<Entry>)
      requires b != WaitBucket
      modifies this
      ensures r == Some(Plain(value))
      ensures once == Some(true) ==> Contents(b) == old(Contents(b)) - {key}
      ensures once != Some(true) ==> Contents(b) == old(Contents(b))[key := Plain(value)]
    {
      var _ := Set(b, key, value);
      r := Get(b, key, once);
    }
  }
}
