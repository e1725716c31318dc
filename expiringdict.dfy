/**
 `ExpiringDict`: a mapping whose entries can be given a time-to-live. Every
 write that carries a TTL starts a timer for its key; when that timer fires,
 it deletes the key, swallowing the `KeyError` if the key is already gone.

 The dictionary keeps two dicts: `store` (key to value, in insertion order)
 and `expirations` (key to the last timer started for it). Timers are
 abstract: a timer is a `Handle`, `pending` holds every timer that has been
 started and has neither been cancelled nor fired, together with the key it
 was started for and its interval, and `Fire` is the step in which a timer
 runs. When timers fire is left to the caller of `Fire`; wall-clock time is
 not modelled, so any pending timer may fire at any point between two
 operations.

 Re-setting a key with a TTL replaces its `expirations` record without
 cancelling the earlier timer. That earlier timer stays pending, and when it
 fires it deletes the key, newer value and all, and cancels the newer timer
 through the same delete.
 */
module ExpiringDicts {
  import opened Wrappers
  import PyDict

  /** A timer object, identified by the order in which it was created. */
  type Handle = nat

  /** What a started timer remembers: the key its callback deletes and the
      delay it was started with, in seconds. */
  datatype Timer<K> = Timer(key: K, interval: real)

  /** Python truthiness of the instance TTL: `None` and zero are false. */
  predicate Truthy(ttl: Option<real>) {
    ttl.Some? && ttl.value != 0.0
  }

  class ExpiringDict<K(==, !new), V> {
    var store: PyDict.Dict<K, V>
    var expirations: map<K, Handle>
    var pending: map<Handle, Timer<K>>
    var nextHandle: Handle
    /** The TTL every `d[key] = value` applies; `None` when not given. */
    const ttl: Option<real>

    /** The store is a well-formed dict; every key with an expiration record
        is stored, and its record names a pending timer started for that same
        key; every handle in use was handed out before. */
    ghost predicate Valid()
      reads this
    {
      && PyDict.Valid(store)
      && expirations.Keys <= store.entries.Keys
      && (forall k :: k in expirations ==>
            expirations[k] in pending && pending[expirations[k]].key == k)
      && (forall h :: h in pending ==> h < nextHandle)
    }

    /** `ExpiringDict(ttl)`: empty, with no expiration records and no timers. */
    constructor (ttl: Option<real>)
      ensures Valid()
      ensures store == PyDict.Empty() && expirations == map[] && pending == map[]
      ensures this.ttl == ttl
    {
      store := PyDict.Empty();
      expirations := map[];
      pending := map[];
      nextHandle := 0;
      this.ttl := ttl;
    }

    /** `del d[key]`: raises `KeyError` and changes nothing when `key` is
        absent; otherwise removes `key` from the store and, when it has an
        expiration record, cancels that timer and drops the record. */
    method DelItem(key: K) returns (outcome: Outcome)
      requires Valid()
      modifies this
      ensures Valid()
      ensures outcome == (if key in old(store.entries) then Pass else Fail(KeyError))
      ensures key !in old(store.entries) ==>
        store == old(store) && expirations == old(expirations) && pending == old(pending)
      ensures key in old(store.entries) ==>
        && store == PyDict.Delete(old(store), key).value
        && expirations == old(expirations) - {key}
        && pending == (if key in old(expirations)
                       then old(pending) - {old(expirations)[key]} else old(pending))
      ensures nextHandle == old(nextHandle)
    {
      var removed := PyDict.Delete(store, key);
      if removed.None? {
        return Fail(KeyError);
      }
      store := removed.value;
      if key in expirations {
        pending := pending - {expirations[key]};
        expirations := expirations - {key};
      }
      outcome := Pass;
    }

    /** `d[key]`: the stored value, or `KeyError` for a key that is not
        iterated. */
    function GetItem(key: K): (r: Result<V>)
      reads this
      requires Valid()
      ensures r.Ok? <==> key in store.keys
      ensures r.Ok? ==> key in store.entries && r.value == store.entries[key]
    {
      if key in store.entries then Ok(store.entries[key]) else Err(KeyError)
    }

    /** `d.get(key, default)`: what `d[key]` returns, and `default` exactly
        where `d[key]` raises. */
    function Get(key: K, default: V): (v: V)
      reads this
      requires Valid()
      ensures v == match GetItem(key) case Ok(x) => x case Err(_) => default
    {
      PyDict.Get(store, key, default)
    }

    /** `key in d`, which the mapping protocol answers through `d[key]`. */
    function Contains(key: K): (b: bool)
      reads this
      requires Valid()
      ensures b <==> GetItem(key).Ok?
    {
      key in store.entries
    }

    /** `len(d)`: the number of stored keys, and as many as iteration
        yields. */
    function Len(): (n: nat)
      reads this
      requires Valid()
      ensures n == |store.entries| && n == |Keys()|
    {
      PyDict.Len(store)
    }

    /** `list(d)` and `list(d.keys())`: the stored keys, each once, in the
        store's insertion order (see `PyDict.Set` and
        `PyDict.DeleteShiftsLaterKeys` for how writes change it). */
    function Keys(): (ks: seq<K>)
      reads this
      requires Valid()
      ensures PyDict.Distinct(ks)
      ensures forall i :: 0 <= i < |ks| ==> GetItem(ks[i]).Ok?
      ensures forall k :: k in store.entries ==> k in ks
      ensures ks == store.keys
    {
      store.keys
    }

    /** `list(d.values())`: the value of each key, in key order. */
    function Values(): (vs: seq<V>)
      reads this
      requires Valid()
      ensures |vs| == |Keys()|
      ensures forall i :: 0 <= i < |vs| ==> GetItem(Keys()[i]) == Ok(vs[i])
    {
      PyDict.Values(store)
    }

    /** `list(d.items())`: each key with its value, in key order. */
    function Items(): (ps: seq<(K, V)>)
      reads this
      requires Valid()
      ensures |ps| == |Keys()|
      ensures forall i :: 0 <= i < |ps| ==> ps[i] == (Keys()[i], Values()[i])
    {
      PyDict.Items(store)
    }

    /** The effect of `__set_with_expire(key, value, interval)`: the value is
        stored and a newly started timer becomes `key`'s expiration record;
        every timer pending before, including an earlier one for `key`,
        stays pending. */
    twostate predicate ScheduledSet(key: K, value: V, interval: real)
      reads this
      requires old(Valid())
    {
      && store == PyDict.Set(old(store), key, value)
      && expirations == old(expirations)[key := old(nextHandle)]
      && pending == old(pending)[old(nextHandle) := Timer(key, interval)]
      && nextHandle == old(nextHandle) + 1
    }

    /** `__set_with_expire`: starts a timer for `key`, records it, then stores
        the value. An earlier timer for `key` is not cancelled. */
    method SetWithExpire(key: K, value: V, interval: real)
      requires Valid()
      modifies this
      ensures Valid()
      ensures ScheduledSet(key, value, interval)
      ensures old(nextHandle) !in old(pending)
      ensures key in old(expirations) ==>
        old(expirations)[key] in pending && old(expirations)[key] != expirations[key]
      ensures GetItem(key) == Ok(value)
      ensures forall k :: k != key ==> GetItem(k) == old(GetItem(k))
    {
      var timer := nextHandle;
      nextHandle := nextHandle + 1;
      pending := pending[timer := Timer(key, interval)];
      expirations := expirations[key := timer];
      store := PyDict.Set(store, key, value);
      forall k | k != key ensures GetItem(k) == old(GetItem(k)) {
        PyDict.SetLookup(old(store), key, value, k);
      }
    }

    /** `d.ttl(key, value, ttl)`: always schedules, whatever the instance
        TTL. */
    method Ttl(key: K, value: V, ttl: real)
      requires Valid()
      modifies this
      ensures Valid()
      ensures ScheduledSet(key, value, ttl)
      ensures GetItem(key) == Ok(value)
      ensures forall k :: k != key ==> GetItem(k) == old(GetItem(k))
    {
      SetWithExpire(key, value, ttl);
    }

    /** `d[key] = value`: with a truthy instance TTL, the same as
        `d.ttl(key, value, ttl)`; otherwise a plain store that starts no timer
        and leaves the expiration records alone. */
    method SetItem(key: K, value: V)
      requires Valid()
      modifies this
      ensures Valid()
      ensures Truthy(ttl) ==> ScheduledSet(key, value, ttl.value)
      ensures !Truthy(ttl) ==>
        && store == PyDict.Set(old(store), key, value)
        && expirations == old(expirations) && pending == old(pending)
        && nextHandle == old(nextHandle)
      ensures GetItem(key) == Ok(value)
      ensures forall k :: k != key ==> GetItem(k) == old(GetItem(k))
    {
      if Truthy(ttl) {
        SetWithExpire(key, value, ttl.value);
      } else {
        store := PyDict.Set(store, key, value);
        forall k | k != key ensures GetItem(k) == old(GetItem(k)) {
          PyDict.SetLookup(old(store), key, value, k);
        }
      }
    }

    /** Timer `h` fires. A timer that was cancelled or has already fired does
        nothing. Otherwise its callback `expire` runs `del d[key]` for the key
        the timer was started for, swallowing the `KeyError` if that key is
        gone, and then the timer is finished. The delete removes the key even
        when `h` is a stale timer that a later write replaced, and then also
        cancels that later timer. */
    method Fire(h: Handle)
      requires Valid()
      modifies this
      ensures Valid()
      ensures h !in old(pending) ==>
        store == old(store) && expirations == old(expirations) && pending == old(pending)
      ensures h in old(pending) && old(pending)[h].key !in old(store.entries) ==>
        store == old(store) && expirations == old(expirations) && pending == old(pending) - {h}
      ensures h in old(pending) && old(pending)[h].key in old(store.entries) ==>
        var key := old(pending)[h].key;
        && store == PyDict.Delete(old(store), key).value
        && expirations == old(expirations) - {key}
        && pending == (if key in old(expirations)
                       then old(pending) - {h, old(expirations)[key]} else old(pending) - {h})
      ensures nextHandle == old(nextHandle)
    {
      if h in pending {
        var key := pending[h].key;
        var _ := DelItem(key);
        pending := pending - {h};
      }
    }
  }
}
