/**
 * `TTLDict`: a dictionary whose keys expire `ttl` time units after they were
 * last set. Every public operation first drops the expired entries, so an
 * expired entry is never observed. The monotonic clock is the `now` argument
 * of each operation.
 */
module Expiring {
  import opened Wrappers

  /** The `KeyError` raised for a missing or expired key. */
  datatype KeyError = KeyError

  /** A stored value with the clock reading taken when it was set. */
  datatype Entry<V> = Entry(stamp: int, value: V)

  /** An entry is expired once its stamp plus the time-to-live has been reached. */
  predicate Expired<V>(e: Entry<V>, ttl: int, now: int)
  {
    e.stamp + ttl <= now
  }

  /** The table left by the cleanup pass at time `now`. */
  function Cleaned<K, V>(data: map<K, Entry<V>>, ttl: int, now: int): map<K, Entry<V>>
  {
    map k | k in data && !Expired(data[k], ttl, now) :: data[k]
  }

  /** `__getitem__`: the value of a live key, or KeyError. */
  function Lookup<K, V>(data: map<K, Entry<V>>, ttl: int, now: int, key: K): Result<V, KeyError>
  {
    var live := Cleaned(data, ttl, now);
    if key in live then Success(live[key].value) else Failure(KeyError)
  }

  /** `__setitem__`: the table after cleanup, with `key` stamped `now`. */
  function Stored<K, V>(data: map<K, Entry<V>>, ttl: int, now: int, key: K, value: V): map<K, Entry<V>>
  {
    Cleaned(data, ttl, now)[key := Entry(now, value)]
  }

  /** `__delitem__`: the table after cleanup without `key`, or KeyError when `key` is not live. */
  function Deleted<K, V>(data: map<K, Entry<V>>, ttl: int, now: int, key: K): Result<map<K, Entry<V>>, KeyError>
  {
    var live := Cleaned(data, ttl, now);
    if key in live then Success(live - {key}) else Failure(KeyError)
  }

  /** Cleanup keeps exactly the entries that have not expired, each unchanged. */
  lemma CleanedExactly<K, V>(data: map<K, Entry<V>>, ttl: int, now: int, key: K)
    ensures key in Cleaned(data, ttl, now) <==> key in data && now < data[key].stamp + ttl
    ensures key in Cleaned(data, ttl, now) ==> Cleaned(data, ttl, now)[key] == data[key]
  {
  }

  /** A second cleanup at the same or a later time only removes what expired since. */
  lemma CleanedLater<K, V>(data: map<K, Entry<V>>, ttl: int, now: int, later: int)
    requires now <= later
    ensures Cleaned(Cleaned(data, ttl, now), ttl, later) == Cleaned(data, ttl, later)
  {
    var a := Cleaned(Cleaned(data, ttl, now), ttl, later);
    var b := Cleaned(data, ttl, later);
    forall k | k in b
      ensures k in a && a[k] == b[k]
    {
      assert data[k].stamp + ttl > later >= now;
    }
  }

  /** Cleanup never grows the table. */
  lemma {:induction false} CleanedShrinks<K, V>(data: map<K, Entry<V>>, ttl: int, now: int)
    ensures |Cleaned(data, ttl, now)| <= |data|
  {
    SubsetCard(Cleaned(data, ttl, now).Keys, data.Keys);
  }

  lemma {:induction false} SubsetCard<K>(a: set<K>, b: set<K>)
    requires a <= b
    ensures |a| <= |b|
    decreases |b|
  {
    if a != {} {
      var x :| x in a;
      SubsetCard(a - {x}, b - {x});
    }
  }

  /**
   * A value set at `now` is read back until its time-to-live elapses and
   * raises KeyError from then on; setting refreshes the expiry.
   */
  lemma StoredThenLookup<K, V>(data: map<K, Entry<V>>, ttl: int, now: int, key: K, value: V, later: int)
    requires now <= later
    ensures later < now + ttl ==> Lookup(Stored(data, ttl, now, key, value), ttl, later, key) == Success(value)
    ensures now + ttl <= later ==> Lookup(Stored(data, ttl, now, key, value), ttl, later, key) == Failure(KeyError)
  {
    var s := Stored(data, ttl, now, key, value);
    assert key in s && s[key] == Entry(now, value);
  }

  /** Deleting a live key removes that key only; any other live key keeps its value. */
  lemma DeletedOnly<K, V>(data: map<K, Entry<V>>, ttl: int, now: int, key: K, other: K)
    requires Deleted(data, ttl, now, key).Success?
    ensures key !in Deleted(data, ttl, now, key).value
    ensures other != key ==> Lookup(Deleted(data, ttl, now, key).value, ttl, now, other) == Lookup(data, ttl, now, other)
  {
    var d := Deleted(data, ttl, now, key).value;
    if other != key && other in Cleaned(data, ttl, now) {
      assert other in d && d[other] == data[other];
    }
  }

  class TtlDict<K(==), V> {
    /** `__data`: each key with the time it was set and its value. */
    var data: map<K, Entry<V>>
    /** `__ttl`. */
    const ttl: int

    /** The empty constructor `TTLDict(ttl=...)`. */
    constructor(ttl: int)
      ensures data == map[] && this.ttl == ttl
    {
      data := map[];
      this.ttl := ttl;
    }

    /** `__cleanup`: visits a snapshot of the keys and deletes each expired one. */
    method Cleanup(now: int)
      modifies this`data
      ensures data == Cleaned(old(data), ttl, now)
    {
      var pending := data.Keys;
      while pending != {}
        invariant pending <= old(data).Keys
        invariant forall k :: k in data <==> k in old(data) && (k in pending || !Expired(old(data)[k], ttl, now))
        invariant forall k :: k in data ==> data[k] == old(data)[k]
        decreases pending
      {
        var k :| k in pending;
        if data[k].stamp + ttl <= now {
          data := data - {k};
        }
        pending := pending - {k};
      }
    }

    /** `__getitem__`. */
    method Get(key: K, now: int) returns (r: Result<V, KeyError>)
      modifies this`data
      ensures data == Cleaned(old(data), ttl, now)
      ensures r == Lookup(old(data), ttl, now, key)
    {
      Cleanup(now);
      if key in data {
        r := Success(data[key].value);
      } else {
        r := Failure(KeyError);
      }
    }

    /** `__setitem__`. */
    method Set(key: K, value: V, now: int)
      modifies this`data
      ensures data == Stored(old(data), ttl, now, key, value)
    {
      Cleanup(now);
      data := data[key := Entry(now, value)];
    }

    /** `__delitem__`: a failure leaves the cleaned table. */
    method Delete(key: K, now: int) returns (r: Outcome<KeyError>)
      modifies this`data
      ensures var d := Deleted(old(data), ttl, now, key);
        && (r.Pass? <==> d.Success?)
        && (d.Success? ==> data == d.value)
        && (d.Failure? ==> data == Cleaned(old(data), ttl, now))
    {
      Cleanup(now);
      if key in data {
        data := data - {key};
        r := Pass;
      } else {
        r := Fail(KeyError);
      }
    }

    /** `__iter__`: the live keys. */
    method Keys(now: int) returns (keys: set<K>)
      modifies this`data
      ensures data == Cleaned(old(data), ttl, now)
      ensures forall k :: k in keys <==> Lookup(old(data), ttl, now, k).Success?
    {
      Cleanup(now);
      keys := data.Keys;
    }

    /** `__len__`: the number of live keys. */
    method Len(now: int) returns (n: nat)
      modifies this`data
      ensures data == Cleaned(old(data), ttl, now)
      ensures n == |Cleaned(old(data), ttl, now)| <= |old(data)|
    {
      Cleanup(now);
      CleanedShrinks(old(data), ttl, now);
      n := |data|;
    }
  }
}
