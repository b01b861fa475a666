/** `comms_core/data_interface.py`: a container of named values, each
    stamped with the time it was written and an optional timeout after which
    reads return None. The clock is the parameter `now`; Python's None is
    `None` of `Option`. */
module DataInterface {
  import opened Wrappers

  /** What a `DataObject` holds, as a value. */
  datatype Entry<V> = Entry(data: Option<V>, timestamp: int, timeout: Option<int>) {
    /** The timeout has passed: more than `timeout` time units since the write. */
    predicate Expired(now: int) {
      timeout.Some? && now - timestamp > timeout.value
    }

    /** `get_data()` at time `now`. */
    function Read(now: int): (r: Option<V>)
      ensures r == data || r == None
      ensures !Expired(now) ==> r == data
      ensures Expired(now) ==> r == None
    {
      if Expired(now) then None else data
    }
  }

  /** Once an entry has expired it stays expired: reads never come back. */
  lemma ExpiryIsPermanent<V>(e: Entry<V>, now: int, later: int)
    requires e.Expired(now) && now <= later
    ensures e.Read(later) == None
  {
  }

  /** An entry read at the instant it was written returns its data, unless
      its timeout is negative. */
  lemma ReadAtWriteTime<V>(e: Entry<V>)
    requires e.timeout.None? || e.timeout.value >= 0
    ensures e.Read(e.timestamp) == e.data
  {
  }

  /** Assigning a key grows a map by one exactly when the key is new. */
  lemma MapUpdateSize<K, E>(m: map<K, E>, k: K, e: E)
    ensures |m[k := e]| == |m| + (if k in m then 0 else 1)
  {
    if k in m {
      assert m[k := e].Keys == m.Keys;
    } else {
      assert m[k := e].Keys == m.Keys + {k};
    }
  }

  /** `set_data`'s rule for the timestamp: the one given, or the clock. */
  function StampOr(timestamp: Option<int>, now: int): int {
    if timestamp.Some? then timestamp.value else now
  }

  /** `DataObject`: a value with the time it was written and an optional timeout. */
  class DataObject<V(==)> {
    var data: Option<V>
    var timestamp: int
    var timeout: Option<int>

    function View(): Entry<V>
      reads this
    {
      Entry(data, timestamp, timeout)
    }

    /** `DataObject(data, timeout=..., timestamp=...)`, which runs `set_data`. */
    constructor (data: Option<V>, timeout: Option<int>, timestamp: Option<int>, now: int)
      ensures View() == Entry(data, StampOr(timestamp, now), timeout)
    {
      this.data := data;
      this.timestamp := StampOr(timestamp, now);
      this.timeout := timeout;
    }

    /** `set_data`: overwrites all three fields; the timeout is the one given. */
    method SetData(data: Option<V>, timeout: Option<int>, timestamp: Option<int>, now: int)
      modifies this
      ensures View() == Entry(data, StampOr(timestamp, now), timeout)
    {
      this.data := data;
      this.timestamp := StampOr(timestamp, now);
      this.timeout := timeout;
    }

    /** `self // data`: `set_data(data)` with the default arguments, so the
        write is stamped now and the timeout is dropped; returns the object
        itself. */
    method FloorDiv(data: Option<V>, now: int) returns (self: DataObject<V>)
      modifies this
      ensures self == this
      ensures View() == Entry(data, now, None)
    {
      SetData(data, None, None, now);
      self := this;
    }

    /** `get_data()`: the data, or None once more than `timeout` has
        passed since the write. */
    function GetData(now: int): (r: Option<V>)
      reads this
      ensures r == data || r == None
      ensures timeout.None? ==> r == data
      ensures timeout.Some? && now - timestamp > timeout.value ==> r == None
      ensures timeout.Some? && now - timestamp <= timeout.value ==> r == data
    {
      View().Read(now)
    }

    /** `==`: two objects are equal when their data are; timestamps and
        timeouts play no part, so equal objects read alike only while
        neither has expired. */
    predicate Equals(other: DataObject<V>): (r: bool)
      reads this, other
      ensures r <==> View().data == other.View().data
      ensures r ==> forall now | !View().Expired(now) && !other.View().Expired(now) :: GetData(now) == other.GetData(now)
    {
      data == other.data
    }
  }

  /** What `+` accepts: a dict, another `Interface`, or anything else, which
      it ignores. */
  datatype Addend<V(==)> =
    | DictAddend(values: map<string, Option<V>>)
    | InterfaceAddend(other: Interface<V>)
    | OtherAddend

  /** `Interface`: named entries, a default timeout for new names and the
      time of the last assignment. */
  class Interface<V(==)> {
    var defaultRemoveTime: Option<int>
    var localData: map<string, DataObject<V>>
    var localTimestamp: int

    /** No two names share one `DataObject`. */
    ghost predicate Valid()
      reads this`localData
    {
      forall a, b | a in localData && b in localData && a != b :: localData[a] != localData[b]
    }

    /** The entries as values. */
    ghost function Contents(): map<string, Entry<V>>
      reads this`localData, localData.Values
    {
      map k | k in localData :: localData[k].View()
    }

    constructor (defaultRemoveTime: Option<int>, now: int)
      ensures Valid() && Contents() == map[]
      ensures this.defaultRemoveTime == defaultRemoveTime && localTimestamp == now
    {
      this.defaultRemoveTime := defaultRemoveTime;
      localData := map[];
      localTimestamp := now;
    }

    /** `interface.name = value` / `interface[name] = value`: an existing
        name is overwritten through `//`, which stamps it now and drops its
        timeout; a new name gets a fresh entry with the default timeout.
        Either way the container is stamped now and the value reads back at
        once. */
    method Set(name: string, value: Option<V>, now: int)
      requires Valid()
      modifies this, localData.Values
      ensures Valid()
      ensures name in old(localData) ==> Contents() == old(Contents())[name := Entry(value, now, None)]
      ensures name !in old(localData) ==>
        Contents() == old(Contents())[name := Entry(value, now, defaultRemoveTime)]
      ensures localTimestamp == now && defaultRemoveTime == old(defaultRemoveTime)
      ensures defaultRemoveTime.None? || defaultRemoveTime.value >= 0 ==> Get(name, now) == value
      ensures Length() == old(Length()) + (if name in old(localData) then 0 else 1)
    {
      localTimestamp := now;
      if name in localData {
        Overwrite(name, value, now);
      } else {
        Insert(name, value, now);
      }
      MapUpdateSize(old(Contents()), name, Contents()[name]);
      if defaultRemoveTime.None? || defaultRemoveTime.value >= 0 {
        ReadAtWriteTime(Contents()[name]);
      }
    }

    /** The branch of `__setattr__` for a name already present. */
    method Overwrite(name: string, value: Option<V>, now: int)
      requires Valid() && name in localData
      modifies localData[name]
      ensures Contents() == old(Contents())[name := Entry(value, now, None)]
    {
      var o := localData[name];
      ghost var before := Contents();
      var _ := o.FloorDiv(value, now);
      assert forall k | k in localData && k != name :: localData[k] != o;
    }

    /** The branch of `__setattr__` for a new name: a fresh entry with the
        default timeout. */
    method Insert(name: string, value: Option<V>, now: int)
      requires Valid() && name !in localData
      modifies this
      ensures Valid() && defaultRemoveTime == old(defaultRemoveTime) && localTimestamp == old(localTimestamp)
      ensures Contents() == old(Contents())[name := Entry(value, now, defaultRemoveTime)]
    {
      var o := new DataObject(value, defaultRemoveTime, None, now);
      assert o.View() == Entry(value, now, defaultRemoveTime);
      Store(name, o);
    }

    /** `interface.name` / `interface[name]`: None for a missing name, and
        None for an expired entry, which nonetheless stays. */
    function Get(name: string, now: int): (r: Option<V>)
      reads this`localData, localData.Values
      ensures name !in localData ==> r == None
      ensures name in localData && localData[name].View().Expired(now) ==> r == None
      ensures name in localData && !localData[name].View().Expired(now) ==> r == localData[name].data
      ensures r == if name in Contents() then Contents()[name].Read(now) else None
    {
      if name !in localData then None else localData[name].GetData(now)
    }

    /** `del interface.name`: removes that name only; a missing name is
        ignored; the container stamp is left alone. */
    method Delete(name: string)
      modifies this
      ensures Contents() == old(Contents()) - {name}
      ensures localData.Values <= old(localData.Values)
      ensures localTimestamp == old(localTimestamp) && defaultRemoveTime == old(defaultRemoveTime)
      ensures old(Valid()) ==> Valid()
      ensures forall now :: Get(name, now) == None
      ensures !Contains(name)
    {
      if name in localData {
        localData := localData - {name};
      }
    }

    /** `name in interface`: expired entries count. */
    function Contains(name: string): (r: bool)
      reads this`localData, localData.Values
      ensures r <==> name in Contents()
    {
      name in localData
    }

    /** `len(interface)`: expired entries count. */
    function Length(): (r: nat)
      reads this`localData, localData.Values
      ensures r == |Contents()|
    {
      assert Contents().Keys == localData.Keys;
      |localData|
    }

    /** `set_remove_time(key, t)`: sets that entry's timeout; a missing key
        raises KeyError, reported here as `found == false` with nothing
        changed. */
    method SetRemoveTime(key: string, removeTime: Option<int>) returns (found: bool)
      requires Valid()
      modifies localData.Values
      ensures found == (key in localData)
      ensures found ==> Contents() == old(Contents())[key := old(Contents())[key].(timeout := removeTime)]
      ensures !found ==> Contents() == old(Contents())
    {
      found := key in localData;
      if found {
        var o := localData[key];
        ghost var before := Contents();
        o.timeout := removeTime;
        assert forall k | k in localData && k != key :: localData[k] != o;
        assert Contents() == before[key := before[key].(timeout := removeTime)];
      }
    }

    /** `change_default_remove_time(t)`: the new default, applied as well
        to the timeout of every existing entry. */
    method ChangeDefaultRemoveTime(removeTime: Option<int>)
      requires Valid()
      modifies this, localData.Values
      ensures Valid() && localData.Keys == old(localData.Keys)
      ensures defaultRemoveTime == removeTime && localTimestamp == old(localTimestamp)
      ensures Contents() == WithTimeout(old(Contents()), old(localData.Keys), removeTime)
    {
      defaultRemoveTime := removeTime;
      var keys := localData.Keys;
      ghost var done: set<string> := {};
      while keys != {}
        invariant keys <= localData.Keys && done == localData.Keys - keys
        invariant localData == old(localData) && defaultRemoveTime == removeTime
        invariant localTimestamp == old(localTimestamp)
        invariant Contents() == WithTimeout(old(Contents()), done, removeTime)
        decreases keys
      {
        var key :| key in keys;
        var _ := SetRemoveTime(key, removeTime);
        WithTimeoutStep(old(Contents()), done, key, removeTime);
        keys := keys - {key};
        done := done + {key};
      }
      assert done == localData.Keys;
    }

    /** `to_dict()`: every name, with what a read at `now` returns. */
    function ToDict(now: int): (r: map<string, Option<V>>)
      reads this`localData, localData.Values
      ensures r.Keys == localData.Keys
      ensures forall k | k in r :: r[k] == Get(k, now)
    {
      map k | k in localData :: localData[k].GetData(now)
    }

    /** `to_dict_with_timestamps()`: every name, with what a read at `now`
        returns and the entry's write time. */
    function ToDictWithTimestamps(now: int): (r: map<string, (Option<V>, int)>)
      reads this`localData, localData.Values
      ensures r.Keys == localData.Keys
      ensures forall k | k in r :: r[k] == (Get(k, now), localData[k].timestamp)
    {
      map k | k in localData :: (localData[k].GetData(now), localData[k].timestamp)
    }

    /** `from_dict(d)`: each given name gets a fresh entry stamped now with
        the default timeout; other names are untouched; the container is
        stamped now. */
    method FromDict(values: map<string, Option<V>>, now: int)
      requires Valid()
      modifies this
      ensures Valid() && defaultRemoveTime == old(defaultRemoveTime) && localTimestamp == now
      ensures Contents() == old(Contents()) + map k | k in values :: Entry(values[k], now, defaultRemoveTime)
    {
      var stamped := map k | k in values :: (values[k], None);
      FromDictWithTimestamps(stamped, now);
      assert Incoming(stamped, stamped.Keys, now, defaultRemoveTime)
          == map k | k in values :: Entry(values[k], now, defaultRemoveTime);
    }

    /** `from_dict_with_timestamps(d)`: like `from_dict`, but each entry
        keeps the timestamp it is given (the clock when that is None). */
    method FromDictWithTimestamps(values: map<string, (Option<V>, Option<int>)>, now: int)
      requires Valid()
      modifies this
      ensures Valid() && defaultRemoveTime == old(defaultRemoveTime) && localTimestamp == now
      ensures Contents() == old(Contents()) + Incoming(values, values.Keys, now, defaultRemoveTime)
    {
      var keys := values.Keys;
      ghost var done: set<string> := {};
      while keys != {}
        invariant keys <= values.Keys && done == values.Keys - keys
        invariant Valid() && defaultRemoveTime == old(defaultRemoveTime)
        invariant Contents() == old(Contents()) + Incoming(values, done, now, defaultRemoveTime)
        decreases keys
      {
        var key :| key in keys;
        var o := new DataObject(values[key].0, defaultRemoveTime, values[key].1, now);
        ghost var before := Incoming(values, done, now, defaultRemoveTime);
        Store(key, o);
        IncomingStep(values, done, key, now, defaultRemoveTime);
        MapUnionUpdate(old(Contents()), before, key, o.View());
        keys := keys - {key};
        done := done + {key};
      }
      assert done == values.Keys;
      localTimestamp := now;
    }

    /** `interface_local_data[key] = o` for an object no name holds yet. */
    method Store(key: string, o: DataObject<V>)
      requires Valid() && o !in localData.Values
      modifies this
      ensures Valid() && localData == old(localData)[key := o]
      ensures Contents() == old(Contents())[key := o.View()]
      ensures defaultRemoveTime == old(defaultRemoveTime) && localTimestamp == old(localTimestamp)
    {
      localData := localData[key := o];
    }

    /** `from_interface(other)`: copies every entry of `other` as read at
        `now`, so expired values arrive as None, keeping the donor's
        timestamps and taking this container's default timeout. */
    method FromInterface(other: Interface<V>, now: int)
      requires Valid()
      modifies this
      ensures Valid() && defaultRemoveTime == old(defaultRemoveTime) && localTimestamp == now
      ensures Contents() == old(Contents()) +
        map k | k in old(other.localData) ::
          Entry(old(other.Get(k, now)), old(other.localData[k].timestamp), defaultRemoveTime)
    {
      var copied := other.ToDictWithTimestamps(now);
      var stamped := map k | k in copied :: (copied[k].0, Some(copied[k].1));
      ghost var expected := map k | k in other.localData ::
        Entry(other.Get(k, now), other.localData[k].timestamp, defaultRemoveTime);
      assert Incoming(stamped, stamped.Keys, now, defaultRemoveTime) == expected;
      FromDictWithTimestamps(stamped, now);
    }

    /** `self + other`: merges a dict or an `Interface` into this one,
        ignores anything else, and returns this one. */
    method Add(addend: Addend<V>, now: int) returns (self: Interface<V>)
      requires Valid()
      modifies this
      ensures self == this && Valid()
      ensures defaultRemoveTime == old(defaultRemoveTime)
      ensures !addend.OtherAddend? ==> localTimestamp == now
      ensures addend.DictAddend? ==>
        Contents() == old(Contents()) +
          map k | k in addend.values :: Entry(addend.values[k], now, defaultRemoveTime)
      ensures addend.InterfaceAddend? ==>
        Contents() == old(Contents()) +
          map k | k in old(addend.other.localData) ::
            Entry(old(addend.other.Get(k, now)), old(addend.other.localData[k].timestamp), defaultRemoveTime)
      ensures addend.OtherAddend? ==> Contents() == old(Contents()) && localTimestamp == old(localTimestamp)
    {
      if addend.DictAddend? {
        FromDict(addend.values, now);
      } else if addend.InterfaceAddend? {
        FromInterface(addend.other, now);
      }
      self := this;
    }
  }

  /** The entries `from_dict_with_timestamps` writes for the names in `keys`. */
  ghost function Incoming<V>(values: map<string, (Option<V>, Option<int>)>, keys: set<string>, now: int, timeout: Option<int>): map<string, Entry<V>> {
    map k | k in values && k in keys :: Entry(values[k].0, StampOr(values[k].1, now), timeout)
  }

  lemma IncomingStep<V>(values: map<string, (Option<V>, Option<int>)>, done: set<string>, key: string, now: int, timeout: Option<int>)
    requires key in values
    ensures Incoming(values, done + {key}, now, timeout)
         == Incoming(values, done, now, timeout)[key := Entry(values[key].0, StampOr(values[key].1, now), timeout)]
  {
  }

  /** `entries` with the timeout of the names in `keys` set to `t`. */
  ghost function WithTimeout<V>(entries: map<string, Entry<V>>, keys: set<string>, t: Option<int>): map<string, Entry<V>> {
    map k | k in entries :: if k in keys then entries[k].(timeout := t) else entries[k]
  }

  lemma WithTimeoutStep<V>(entries: map<string, Entry<V>>, done: set<string>, key: string, t: Option<int>)
    requires key in entries
    ensures WithTimeout(entries, done + {key}, t)
         == WithTimeout(entries, done, t)[key := entries[key].(timeout := t)]
  {
  }

  /** Expiry is decided at read time, so clearing the timeouts, as
      `change_default_remove_time(None)` does, makes an expired entry read
      back its data again. */
  lemma ClearedTimeoutRevives<V>(entries: map<string, Entry<V>>, keys: set<string>, name: string, now: int)
    requires name in entries && name in keys
    ensures WithTimeout(entries, keys, None)[name].Read(now) == entries[name].data
  {
  }

  lemma MapUnionUpdate<K, T>(a: map<K, T>, b: map<K, T>, key: K, e: T)
    ensures (a + b)[key := e] == a + b[key := e]
  {
  }

  /** An expired entry reads as None yet is still counted by `in` and `len`. */
  lemma ExpiredStillCounted<V>(i: Interface<V>, name: string, now: int)
    requires name in i.Contents() && i.Contents()[name].Expired(now)
    ensures i.Get(name, now) == None && i.Contains(name) && i.Length() >= 1
  {
    assert name in i.Contents().Keys;
  }

  /** Equality of objects ignores when they were written and their
      timeouts: an expired object equals a live one holding the same data,
      although the two read differently. */
  lemma EqualsIgnoresExpiry<V>(a: DataObject<V>, b: DataObject<V>, now: int)
    requires a.data == b.data && a.data.Some?
    requires a.View().Expired(now) && !b.View().Expired(now)
    ensures a.Equals(b) && a.GetData(now) != b.GetData(now)
  {
  }
}
