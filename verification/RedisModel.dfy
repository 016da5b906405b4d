/** Redis as its callers here use it: string keys, values with an expiry time, and a clock
    that only moves forward.  An entry is visible before its deadline and not afterwards.
 */
module RedisModel {
  import opened Prelude

  type Time = real

  datatype Entry<+V> = Entry(value: V, deadline: Time)

  type Entries<V> = map<string, Entry<V>>

  function Visible<V>(entries: Entries<V>, key: string, now: Time): Option<V> {
    if key in entries && now < entries[key].deadline then Some(entries[key].value) else None
  }

  class Redis<V> {
    var entries: Entries<V>

    constructor ()
      ensures entries == map[]
    {
      entries := map[];
    }

    method Get(key: string, now: Time) returns (value: Option<V>)
      ensures value == Visible(entries, key, now)
    {
      if key in entries && now < entries[key].deadline {
        return Some(entries[key].value);
      }
      return None;
    }

    method SetEx(key: string, ttl: Time, value: V, now: Time)
      modifies this
      ensures entries == old(entries)[key := Entry(value, now + ttl)]
    {
      entries := entries[key := Entry(value, now + ttl)];
    }

    method Delete(keys: seq<string>)
      modifies this
      ensures entries == map k | k in old(entries) && k !in keys :: old(entries)[k]
    {
      entries := map k | k in entries && k !in keys :: entries[k];
    }
  }
}
