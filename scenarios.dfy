/**
 The repository's tests and the re-set behaviour of `ttl`, written as client
 code of `ExpiringDict`. Where a test sleeps until a timer has run, the
 scenario fires that timer explicitly.
 */
module Scenarios {
  import opened Wrappers
  import PyDict
  import opened ExpiringDicts

  /** A new dict is empty and has no expiration records. */
  method Init() returns (len: nat, records: nat)
    ensures len == 0 && records == 0
  {
    var d := new ExpiringDict<string, string>(None);
    len := d.Len();
    records := |d.expirations|;
  }

  /** Without an instance TTL, `d["key"] = "value"` records no expiration. */
  method NoTtl() returns (records: nat, len: nat)
    ensures records == 0 && len == 1
  {
    var d := new ExpiringDict<string, string>(None);
    d.SetItem("key", "value");
    records := |d.expirations|;
    len := d.Len();
  }

  /** With `ttl=1`, a plain assignment expires once its timer has run. */
  method ClassTtl() returns (before: nat, after: nat)
    ensures before == 1 && after == 0
  {
    var d := new ExpiringDict<string, string>(Some(1.0));
    var timer := d.nextHandle;
    d.SetItem("key", "should be gone");
    before := d.Len();
    d.Fire(timer);
    after := d.Len();
  }

  /** `d.ttl("key", "expire", 1)` on a dict without instance TTL expires the
      key once its timer has run. */
  method SetTtl() returns (before: nat, after: nat)
    ensures before == 1 && after == 0
  {
    var d := new ExpiringDict<string, string>(None);
    var timer := d.nextHandle;
    d.Ttl("key", "expire", 1.0);
    before := d.Len();
    d.Fire(timer);
    after := d.Len();
  }

  /** Without TTLs, iteration, `keys()`, `values()` and `items()` agree with a
      plain dict built by the same assignments, and `"one" in ed` holds. */
  method DictOps() returns (edKeys: seq<string>, dKeys: seq<string>,
                            edValues: seq<int>, dValues: seq<int>,
                            edItems: seq<(string, int)>, dItems: seq<(string, int)>,
                            hasOne: bool)
    ensures edKeys == dKeys == ["one", "two", "three"]
    ensures edValues == dValues == [1, 2, 3]
    ensures edItems == dItems
    ensures hasOne
  {
    var ed := new ExpiringDict<string, int>(None);
    ed.SetItem("one", 1);
    ed.SetItem("two", 2);
    ed.SetItem("three", 3);
    var d := PyDict.Set(PyDict.Set(PyDict.Set(PyDict.Empty(), "one", 1), "two", 2), "three", 3);
    assert ed.store == d;
    assert d.keys == ["one", "two", "three"];
    edKeys, dKeys := ed.Keys(), d.keys;
    edValues, dValues := ed.Values(), PyDict.Values(d);
    edItems, dItems := ed.Items(), PyDict.Items(d);
    hasOne := ed.Contains("one");
  }

  /** Re-setting a key with `ttl` does not cancel the earlier timer: when that
      timer fires, it deletes the newer value and cancels the newer timer. */
  method RefreshKeepsEarlierTimer() returns (present: bool, newerPending: bool)
    ensures !present && !newerPending
  {
    var d := new ExpiringDict<string, string>(None);
    var first := d.nextHandle;
    d.Ttl("key", "old", 1.0);
    var second := d.nextHandle;
    d.Ttl("key", "new", 1.0);
    d.Fire(first);
    present := d.Contains("key");
    newerPending := second in d.pending;
  }

  /** An explicit delete cancels the key's timer, so a value written again
      afterwards keeps its own timer and is left alone by the first one. */
  method DeleteThenReinsert() returns (value: Result<string>, newerPending: bool)
    ensures value == Ok("new") && newerPending
  {
    var d := new ExpiringDict<string, string>(None);
    var first := d.nextHandle;
    d.Ttl("key", "old", 1.0);
    var outcome := d.DelItem("key");
    var second := d.nextHandle;
    d.Ttl("key", "new", 1.0);
    d.Fire(first);
    value := d.GetItem("key");
    newerPending := second in d.pending;
  }

  /** A timer whose key has already been deleted and written again without
      a TTL still deletes it when it fires, if an intervening re-set had left
      it pending. */
  method StaleTimerAfterDelete() returns (present: bool)
    ensures !present
  {
    var d := new ExpiringDict<string, string>(None);
    var first := d.nextHandle;
    d.Ttl("key", "a", 1.0);
    d.Ttl("key", "b", 1.0);
    var outcome := d.DelItem("key");
    d.SetItem("key", "c");
    d.Fire(first);
    present := d.Contains("key");
  }

  /** Deleting a missing key raises `KeyError`; reading it with `d[key]`
      raises too, and `get` returns the default. */
  method MissingKey() returns (deleted: Outcome, read: Result<string>, got: string)
    ensures deleted == Fail(KeyError) && read == Err(KeyError) && got == "default"
  {
    var d := new ExpiringDict<string, string>(None);
    deleted := d.DelItem("key");
    read := d.GetItem("key");
    got := d.Get("key", "default");
  }
}
