# ExpiringDict, modelled in Dafny

`ExpiringDict` is a Python mapping whose entries may carry a time-to-live.
The dictionary has an instance TTL, given at construction. An assignment
`d[key] = value` under a truthy instance TTL, and every explicit call
`d.ttl(key, value, seconds)`, starts a timer for the key. When that timer
runs, its callback deletes the key and ignores the `KeyError` if the key is
already gone. The object keeps two dicts:

- `store`: key to value, in insertion order;
- `expirations`: key to the last timer started for it.

An explicit `del d[key]` raises `KeyError` on a missing key. Otherwise it
removes the key, cancels the key's recorded timer and drops the record.

The model (Dafny 4.11) has four modules:

- `Wrappers` (`wrappers.dfy`): `Option`, `Result` and `Outcome`, and `KeyError`.
- `PyDict` (`pydict.dfy`): Python's built-in insertion-ordered `dict` as a value. It holds the iteration order `keys` beside the mapping `entries`. Assignment, deletion, `get`, `len`, `values()` and `items()` are functions over it. Lemmas cover length, lookups after assignment, the order after a deletion and the order after a run of assignments.
- `ExpiringDicts` (`expiringdict.dfy`): the class `ExpiringDict`. Its `store` is a `PyDict.Dict`, and `expirations` is a map from key to timer handle. `pending` maps every timer that was started and has been neither cancelled nor fired to the key it deletes and its interval. An object invariant `Valid()` holds for every object. It requires that a key with an expiration record is stored and that its record names a pending timer started for that same key. Every method keeps `Valid()`. Each method states its whole new state in terms of the old one.
- `Scenarios` (`scenarios.dfy`): the repository's tests and the re-set behaviour, written as client code. Where a test sleeps until a timer has run, the scenario calls `Fire` for that timer.

Timers are abstract. A timer is a `Handle` (a number). Starting one adds it to `pending`. `cancel()` removes it. `Fire(h)` is the step in which timer `h` runs `expire()` and then finishes. Firing a timer that is no longer pending does nothing, as a cancelled `threading.Timer` never calls its function. The model has no clock: any pending timer may fire between any two operations, whatever its interval.

The code starts one `threading.Timer` per TTL-bearing write. Re-setting a key with a TTL replaces its expiration record without cancelling the earlier timer (`expiring_dict/expiringdict.py:103-105`). When that earlier timer fires, `del self[key]` deletes the newer value and cancels the newer timer. `Scenarios.RefreshKeepsEarlierTimer` and `Scenarios.StaleTimerAfterDelete` show this.

## Model

| member | source | states |
|---|---|---|
| `ExpiringDicts.ExpiringDict.constructor` | expiring_dict/expiringdict.py:6-16 | a new dict has an empty store, no expiration records and no timers; its instance TTL is the argument |
| `ExpiringDicts.ExpiringDict.DelItem` | expiring_dict/expiringdict.py:18-31 | on a missing key: `KeyError` and nothing changes; otherwise the key leaves the store, its recorded timer (if any) is cancelled and its record dropped, and a missing record is tolerated; the invariant is kept |
| `ExpiringDicts.ExpiringDict.GetItem` | expiring_dict/expiringdict.py:33-41 | `d[key]` succeeds exactly for the iterated keys, with the stored value, and raises `KeyError` otherwise |
| `ExpiringDicts.ExpiringDict.Get` | expiring_dict/expiringdict.py:43-47 | `get(key, default)` returns what `d[key]` returns, and `default` exactly where `d[key]` raises |
| `ExpiringDicts.ExpiringDict.Contains` | tests/test_expiringdict.py:44 | `key in d` holds exactly when `d[key]` does not raise |
| `ExpiringDicts.ExpiringDict.Keys` | expiring_dict/expiringdict.py:49-65 | iteration and `keys()` yield every stored key once, and only stored keys, in insertion order: the order of the store, which assignment and deletion update as a plain dict does |
| `ExpiringDicts.ExpiringDict.Len` | expiring_dict/expiringdict.py:55-59 | `len(d)` is the number of stored keys and the number of keys iteration yields |
| `ExpiringDicts.ExpiringDict.Values` | expiring_dict/expiringdict.py:67-71 | `values()` gives, position by position, the value `d[k]` returns for the key iteration yields there |
| `ExpiringDicts.ExpiringDict.Items` | expiring_dict/expiringdict.py:73-77 | `items()` pairs each key of the iteration order with the value `values()` gives at the same position |
| `ExpiringDicts.ExpiringDict.SetItem` | expiring_dict/expiringdict.py:79-87 | with a truthy instance TTL, the same effect as `ttl(key, value, instance_ttl)`; with `None` or zero, the value is stored and no timer or record is created; afterwards `d[key]` is the new value and every other key reads as before |
| `ExpiringDicts.ExpiringDict.Ttl` | expiring_dict/expiringdict.py:89-94 | always schedules, whatever the instance TTL: the value is stored and a new timer becomes the key's record; `d[key]` is the new value and every other key reads as before |
| `ExpiringDicts.ExpiringDict.SetWithExpire` | expiring_dict/expiringdict.py:96-107 | a fresh timer is started for the key and replaces its record; the store is assigned; every previously pending timer, including an earlier one for the same key, stays pending |
| `ExpiringDicts.ExpiringDict.Fire` | expiring_dict/expiringdict.py:97-101 | a timer that is not pending does nothing; a pending timer whose key is gone finishes and changes nothing else, raising nothing; one whose key is stored deletes it as `del d[key]` does, even if a later write replaced its record, and finishes |
| `PyDict.Set` | expiring_dict/expiringdict.py:87 | assignment keeps the dict well formed, maps the key to the value, keeps the position of every key already present and appends a new key last |
| `PyDict.Delete` | expiring_dict/expiringdict.py:23-26 | deletion fails exactly on a missing key; otherwise it keeps the dict well formed, removes just that key and shortens the order by one |
| `PyDict.Get` | expiring_dict/expiringdict.py:47 | the value of an iterated key, the default for any other |
| `PyDict.Len` | expiring_dict/expiringdict.py:59 | the length counted on the iteration order equals the number of mapped keys |
| `PyDict.Values` | expiring_dict/expiringdict.py:71 | one value per key, in key order |
| `PyDict.Items` | expiring_dict/expiringdict.py:77 | one pair per key, in key order, holding the key and its value |
| `PyDict.LenIsSize` | expiring_dict/expiringdict.py:59 | a well-formed dict has as many positions in its iteration order as mapped keys |
| `PyDict.SetLookup` | expiring_dict/expiringdict.py:87 | after assignment the key reads as the new value, and every other key is present and reads exactly as before |
| `PyDict.DeleteShiftsLaterKeys` | expiring_dict/expiringdict.py:24 | after a deletion, keys before the deleted one keep their positions and keys after it move up by one |
| `PyDict.DeleteKeepsOrder` | expiring_dict/expiringdict.py:24 | a deletion keeps the relative order of all remaining keys |
| `PyDict.DeleteThenSetMovesLast` | expiring_dict/expiringdict.py:24 | deleting a key and assigning it again moves it to the end of the iteration order |
| `PyDict.AssignmentOrder` | tests/test_expiringdict.py:31-43 | assigning pairs with distinct keys to an empty dict iterates keys, values and items in assignment order |
| `Scenarios.Init` | tests/test_expiringdict.py:5-6 | a new dict has length zero and no expiration records |
| `Scenarios.NoTtl` | tests/test_expiringdict.py:9-12 | without an instance TTL an assignment records no expiration |
| `Scenarios.ClassTtl` | tests/test_expiringdict.py:15-20 | with `ttl=1` the length is 1 after assignment and 0 once the key's timer has fired |
| `Scenarios.SetTtl` | tests/test_expiringdict.py:23-28 | after `ttl(...)` the length is 1, and 0 once the timer has fired |
| `Scenarios.DictOps` | tests/test_expiringdict.py:31-44 | without TTLs, iteration, `keys()`, `values()` and `items()` equal those of a plain dict given the same assignments, and `"one" in ed` |
| `Scenarios.RefreshKeepsEarlierTimer` | expiring_dict/expiringdict.py:103-105 | re-setting with `ttl` leaves the first timer pending; when it fires, the key is gone and the second timer is cancelled |
| `Scenarios.DeleteThenReinsert` | expiring_dict/expiringdict.py:27-29 | a delete cancels the key's timer, so a value written again with `ttl` survives the first timer's firing and keeps its own timer |
| `Scenarios.StaleTimerAfterDelete` | expiring_dict/expiringdict.py:97-105 | a timer left pending by a re-set still deletes the key after a delete and a plain re-assignment |
| `Scenarios.MissingKey` | expiring_dict/expiringdict.py:18-47 | on a missing key, `del` and `d[key]` raise `KeyError` and `get` returns the default |

## Left out

- Wall-clock time and the `threading.Timer` thread. A timer is a handle, and firing is a step a caller takes; the interval is recorded but does not order firings. The tests' `sleep` calls become explicit `Fire` calls.
- Concurrency between a timer's callback and caller threads. The class takes no locks. The model runs every operation, and every firing, atomically. It also does not model the window in `SetWithExpire` between `timer.start()` and the store assignment.
- `MutableMapping` mixin methods the class does not define (`pop`, `popitem`, `update`, `setdefault`, `clear`, `__eq__`, ...). `in` is modelled as `Contains`, which answers through `d[key]` as the mixin does.
- `keys()`, `values()` and `items()` return live views in Python. The model returns the sequence they yield at the time of the call.
- `get`'s default of `None`. The caller passes the default, because the value type is generic.
- The instance TTL is `None` or a number (`Option<real>`), and `ttl(...)` takes a number. Python truthiness of other objects, and a `Timer` given `None` as its interval, are not modelled.
- Keys that are objects, and `TypeError` for unhashable keys. Keys are value types (`K(==, !new)`).
- "A refresh resets the expiry". The code does not deliver it, and `Scenarios.RefreshKeepsEarlierTimer` shows what happens instead.
- `setup.py`, `publish.py` and `example.py`: packaging, shell commands, and a demo script that prints and sleeps. The `blist` dependency is never used.
