/** The connection table of `comms_core/server.py`, with sockets, threads,
    locks and logging stripped away. The table is a dict keyed by the peer's
    `(ip, port)`; it is modelled as a sequence of connections with distinct
    addresses, in insertion order, so that "the first connection" means what
    the dict's iteration order makes it mean. */
module Server {
  import opened Wrappers
  import opened Text

  /** A peer's `(ip, port)`, the key of the table. */
  datatype Addr = Addr(ip: string, port: int)

  /** One record of `connections`, without its socket, thread and locks.
      Callbacks are opaque values of type `C`; a missing one is `None`. */
  datatype Connection<C> = Connection(
    addr: Addr,
    ip: string,
    callback: Option<C>,
    data: Option<string>,
    sendQueue: seq<string>)

  /** One invocation `callback(data, addr)`. */
  datatype Call<C> = Call(callback: C, data: string, addr: Addr)

  /** The `addr` argument of `send`: an address tuple, an ip string, or None. */
  datatype Target = ToAddr(addr: Addr) | ToIp(ip: string) | ToFirst

  /** Received text containing this is a client's handshake, not data. */
  const Handshake := "Client: "

  // ---------------------------------------------------------------------------
  // The table as a value
  // ---------------------------------------------------------------------------

  /** Where `addr` sits in the table: the first index holding it, or None
      when `addr in connections` is false. */
  function IndexOf<C>(cs: seq<Connection<C>>, addr: Addr): (r: Option<nat>)
    ensures r.Some? ==> r.value < |cs| && cs[r.value].addr == addr
    ensures r.Some? ==> forall j | 0 <= j < r.value :: cs[j].addr != addr
    ensures r.None? <==> forall j | 0 <= j < |cs| :: cs[j].addr != addr
  {
    if cs == [] then None
    else if cs[0].addr == addr then Some(0)
    else
      match IndexOf(cs[1..], addr)
      case Some(i) => Some(i + 1)
      case None => None
  }

  /** `connections.get(addr)`. */
  function Lookup<C>(cs: seq<Connection<C>>, addr: Addr): Option<Connection<C>> {
    match IndexOf(cs, addr)
    case Some(i) => Some(cs[i])
    case None => None
  }

  /** The keys of the table, in insertion order. */
  function Keys<C>(cs: seq<Connection<C>>): seq<Addr> {
    seq(|cs|, i requires 0 <= i < |cs| => cs[i].addr)
  }

  predicate Distinct<C>(cs: seq<Connection<C>>) {
    forall i, j | 0 <= i < j < |cs| :: cs[i].addr != cs[j].addr
  }

  /** A table the server can build: one record per address, each holding
      the ip of its own address. */
  predicate WellFormed<C>(cs: seq<Connection<C>>) {
    Distinct(cs) && forall i | 0 <= i < |cs| :: cs[i].ip == cs[i].addr.ip
  }

  /** `connections[c.addr] = c`: an existing key keeps its place and gets
      the new record, a new key goes at the end. */
  function Put<C>(cs: seq<Connection<C>>, c: Connection<C>): (r: seq<Connection<C>>)
    ensures c in r
    ensures |r| == if IndexOf(cs, c.addr).Some? then |cs| else |cs| + 1
    ensures forall k | 0 <= k < |cs| && cs[k].addr != c.addr :: r[k] == cs[k]
    ensures forall x | x in r :: x == c || x in cs
  {
    match IndexOf(cs, c.addr)
    case Some(i) => assert cs[i := c][i] == c; cs[i := c]
    case None => assert (cs + [c])[|cs|] == c; cs + [c]
  }

  /** `del connections[addr]` for a present key. */
  function Remove<C>(cs: seq<Connection<C>>, addr: Addr): (r: seq<Connection<C>>)
    ensures |r| == if IndexOf(cs, addr).Some? then |cs| - 1 else |cs|
    ensures IndexOf(cs, addr).None? ==> r == cs
  {
    match IndexOf(cs, addr)
    case Some(i) => cs[..i] + cs[i + 1..]
    case None => cs
  }

  /** The record `_accept_connections` stores for a new peer. */
  function Fresh<C>(addr: Addr, callback: Option<C>): Connection<C> {
    Connection(addr, addr.ip, callback, None, [])
  }

  function Enqueue<C>(c: Connection<C>, data: string): Connection<C> {
    c.(sendQueue := c.sendQueue + [data])
  }

  /** `send(data, addr)` with an address tuple. */
  function EnqueueAt<C>(cs: seq<Connection<C>>, addr: Addr, data: string): seq<Connection<C>> {
    match Lookup(cs, addr)
    case Some(c) => Put(cs, Enqueue(c, data))
    case None => cs
  }

  /** `send(data, ip)` with an ip string: every record whose ip matches
      gets `data` at the end of its queue, and no other. */
  function EnqueueIp<C>(cs: seq<Connection<C>>, ip: string, data: string): (r: seq<Connection<C>>)
    ensures |r| == |cs|
    ensures forall i | 0 <= i < |cs| :: r[i] == if cs[i].ip == ip then Enqueue(cs[i], data) else cs[i]
  {
    if cs == [] then []
    else [if cs[0].ip == ip then Enqueue(cs[0], data) else cs[0]] + EnqueueIp(cs[1..], ip, data)
  }

  /** The table after `send(data, target)`. */
  function Routed<C>(cs: seq<Connection<C>>, target: Target, data: string): (r: seq<Connection<C>>)
    ensures |r| == |cs|
    ensures forall i | 0 <= i < |cs| :: r[i] == cs[i] || r[i] == Enqueue(cs[i], data)
  {
    match target
    case ToAddr(a) => EnqueueAt(cs, a, data)
    case ToIp(ip) => EnqueueIp(cs, ip, data)
    case ToFirst => if cs == [] then cs else EnqueueAt(cs, cs[0].addr, data)
  }

  /** What `get_data(ip)` returns: the data of the first record, in
      insertion order, whose ip matches; None when there is none or when
      that record has not received anything yet. */
  function FirstData<C>(cs: seq<Connection<C>>, ip: string): (r: Option<string>)
    ensures (forall i | 0 <= i < |cs| :: cs[i].ip != ip) ==> r == None
    ensures forall i | 0 <= i < |cs| && cs[i].ip == ip && (forall j | 0 <= j < i :: cs[j].ip != ip) :: r == cs[i].data
  {
    if cs == [] then None
    else if cs[0].ip == ip then cs[0].data
    else FirstData(cs[1..], ip)
  }

  /** Text `_handle_client` stores: non-empty and not a handshake. */
  predicate Accepted(text: Option<string>) {
    text.Some? && text.value != "" && !Contains(text.value, Handshake)
  }

  // ---------------------------------------------------------------------------
  // Lemmas about the table
  // ---------------------------------------------------------------------------

  /** IndexOf is pinned down by its first match. */
  lemma IndexOfIs<C>(cs: seq<Connection<C>>, addr: Addr, i: nat)
    requires i < |cs| && cs[i].addr == addr
    requires forall j | 0 <= j < i :: cs[j].addr != addr
    ensures IndexOf(cs, addr) == Some(i)
  {
  }

  /** After `connections[c.addr] = c` the key maps to `c` and every other
      key to what it mapped to before. */
  lemma PutLookup<C>(cs: seq<Connection<C>>, c: Connection<C>, b: Addr)
    ensures Lookup(Put(cs, c), b) == if b == c.addr then Some(c) else Lookup(cs, b)
  {
    var r := Put(cs, c);
    match IndexOf(cs, c.addr)
    case Some(i) =>
      if b == c.addr {
        IndexOfIs(r, b, i);
      } else {
        match IndexOf(cs, b)
        case Some(k) =>
          IndexOfIs(r, b, k);
        case None =>
          assert forall j | 0 <= j < |r| :: r[j].addr != b;
      }
    case None =>
      if b == c.addr {
        IndexOfIs(r, b, |cs|);
      } else {
        match IndexOf(cs, b)
        case Some(k) =>
          IndexOfIs(r, b, k);
        case None =>
          assert forall j | 0 <= j < |r| :: r[j].addr != b;
      }
  }

  /** Assignment keeps the keys in insertion order: a new key is appended,
      an existing one stays where it is. */
  lemma PutKeys<C>(cs: seq<Connection<C>>, c: Connection<C>)
    ensures Keys(Put(cs, c)) == if IndexOf(cs, c.addr).Some? then Keys(cs) else Keys(cs) + [c.addr]
  {
    var r := Put(cs, c);
    if IndexOf(cs, c.addr).Some? {
      assert forall i | 0 <= i < |r| :: Keys(r)[i] == Keys(cs)[i];
    } else {
      assert forall i | 0 <= i < |r| :: Keys(r)[i] == (Keys(cs) + [c.addr])[i];
    }
  }

  /** Assigning a record that holds its own ip keeps the table well formed. */
  lemma PutWellFormed<C>(cs: seq<Connection<C>>, c: Connection<C>)
    requires WellFormed(cs) && c.ip == c.addr.ip
    ensures WellFormed(Put(cs, c))
  {
    var r := Put(cs, c);
    match IndexOf(cs, c.addr)
    case Some(i) =>
      forall p, q | 0 <= p < q < |r|
        ensures r[p].addr != r[q].addr
      {
        assert r[p].addr == cs[p].addr && r[q].addr == cs[q].addr;
      }
    case None =>
      forall p, q | 0 <= p < q < |r|
        ensures r[p].addr != r[q].addr
      {
        if q == |cs| {
          assert cs[p].addr != c.addr;
        }
      }
  }

  /** After `del connections[a]` the key is gone and every other key maps to
      what it mapped to before. */
  lemma RemoveLookup<C>(cs: seq<Connection<C>>, a: Addr, b: Addr)
    requires Distinct(cs)
    ensures Lookup(Remove(cs, a), b) == if b == a then None else Lookup(cs, b)
  {
    var r := Remove(cs, a);
    match IndexOf(cs, a)
    case None =>
    case Some(i) =>
      assert |r| == |cs| - 1;
      assert forall j | 0 <= j < i :: r[j] == cs[j];
      assert forall j | i <= j < |r| :: r[j] == cs[j + 1];
      if b == a {
        assert forall j | 0 <= j < |r| :: r[j].addr != b;
      } else {
        match IndexOf(cs, b)
        case Some(k) =>
          if k < i {
            IndexOfIs(r, b, k);
          } else {
            IndexOfIs(r, b, k - 1);
          }
        case None =>
          assert forall j | 0 <= j < |r| :: r[j].addr != b;
      }
  }

  /** Removing a key keeps the table well formed and the other keys in order. */
  lemma RemoveWellFormed<C>(cs: seq<Connection<C>>, a: Addr)
    requires WellFormed(cs)
    ensures WellFormed(Remove(cs, a))
  {
    var r := Remove(cs, a);
    match IndexOf(cs, a)
    case None =>
    case Some(i) =>
      forall p, q | 0 <= p < q < |r|
        ensures r[p].addr != r[q].addr
      {
        var p' := if p < i then p else p + 1;
        var q' := if q < i then q else q + 1;
        assert r[p] == cs[p'] && r[q] == cs[q'];
      }
      forall k | 0 <= k < |r|
        ensures r[k].ip == r[k].addr.ip
      {
        var k' := if k < i then k else k + 1;
        assert r[k] == cs[k'];
      }
  }

  /** Removing a present key drops exactly one record, that key's; the
      others stay. */
  lemma RemoveShape<C>(cs: seq<Connection<C>>, a: Addr)
    requires Distinct(cs)
    ensures |Remove(cs, a)| == if IndexOf(cs, a).Some? then |cs| - 1 else |cs|
    ensures forall k | 0 <= k < |Remove(cs, a)| :: Remove(cs, a)[k] in cs && Remove(cs, a)[k].addr != a
    ensures forall c | c in cs && c.addr != a :: c in Remove(cs, a)
  {
    var r := Remove(cs, a);
    match IndexOf(cs, a)
    case None =>
    case Some(i) =>
      forall k | 0 <= k < |r|
        ensures r[k] in cs && r[k].addr != a
      {
        var k' := if k < i then k else k + 1;
        assert r[k] == cs[k'];
      }
  }

  /** `send` changes nothing but send queues: every record keeps its
      address, ip, callback and data, and the order is unchanged. */
  lemma RoutedOnlyQueues<C>(cs: seq<Connection<C>>, target: Target, data: string)
    ensures var r := Routed(cs, target, data);
      |r| == |cs| &&
      forall i | 0 <= i < |cs| ::
        r[i].addr == cs[i].addr && r[i].ip == cs[i].ip &&
        r[i].callback == cs[i].callback && r[i].data == cs[i].data
  {
    var a := match target case ToAddr(a) => a case _ => if cs == [] then Addr("", 0) else cs[0].addr;
    if !target.ToIp? && Lookup(cs, a).Some? {
      var c := Lookup(cs, a).value;
      assert IndexOf(cs, Enqueue(c, data).addr) == IndexOf(cs, a);
    }
  }

  /** Every queue after `send` is the old queue, possibly with `data`
      appended once. */
  lemma RoutedQueues<C>(cs: seq<Connection<C>>, target: Target, data: string)
    ensures var r := Routed(cs, target, data);
      |r| == |cs| &&
      forall i | 0 <= i < |cs| :: r[i].sendQueue in {cs[i].sendQueue, cs[i].sendQueue + [data]}
  {
    var a := match target case ToAddr(a) => a case _ => if cs == [] then Addr("", 0) else cs[0].addr;
    if !target.ToIp? && Lookup(cs, a).Some? {
      var c := Lookup(cs, a).value;
      assert IndexOf(cs, Enqueue(c, data).addr) == IndexOf(cs, a);
    }
  }

  /** `send(data, addr)` with an address tuple appends `data` to exactly that
      connection's queue, and changes nothing when the address is absent. */
  lemma RoutedToAddr<C>(cs: seq<Connection<C>>, a: Addr, data: string, b: Addr)
    ensures Lookup(Routed(cs, ToAddr(a), data), b) ==
      match Lookup(cs, b)
      case Some(c) => Some(if b == a then Enqueue(c, data) else c)
      case None => None
  {
    match Lookup(cs, a)
    case Some(c) =>
      assert c.addr == a;
      PutLookup(cs, Enqueue(c, data), b);
    case None =>
  }

  /** `send(data)` with no address goes to the first-inserted connection;
      with distinct addresses no other queue changes. */
  lemma RoutedToFirst<C>(cs: seq<Connection<C>>, data: string)
    requires Distinct(cs)
    ensures cs == [] ==> Routed(cs, ToFirst, data) == []
    ensures cs != [] ==> Routed(cs, ToFirst, data) == cs[0 := Enqueue(cs[0], data)]
  {
    if cs != [] {
      IndexOfIs(cs, cs[0].addr, 0);
    }
  }

  /** Data stored by `_handle_client` is what `get_data` returns for the
      connection's ip, unless an earlier connection shares that ip. */
  lemma ReceiveThenGetData<C>(cs: seq<Connection<C>>, addr: Addr, text: string)
    requires WellFormed(cs) && Lookup(cs, addr).Some?
    requires forall j | 0 <= j < IndexOf(cs, addr).value :: cs[j].ip != addr.ip
    ensures FirstData(Put(cs, Lookup(cs, addr).value.(data := Some(text))), addr.ip) == Some(text)
  {
    var i := IndexOf(cs, addr).value;
    var c := cs[i].(data := Some(text));
    assert IndexOf(cs, c.addr) == Some(i);
    var r := Put(cs, c);
    assert r == cs[i := c];
    assert r[i].ip == addr.ip;
  }

  /** A handshake is never stored, whatever else the text holds. */
  lemma HandshakeIgnored(prefix: string, suffix: string)
    ensures !Accepted(Some(prefix + Handshake + suffix))
  {
    var s := prefix + Handshake + suffix;
    assert s[|prefix|..|prefix| + |Handshake|] == Handshake;
    assert OccursAt(s, Handshake, |prefix|);
  }

  // ---------------------------------------------------------------------------
  // The server object
  // ---------------------------------------------------------------------------

  /** `Server`: the default callback for new connections, the table, the
      `active` flag, and the log of callback invocations. */
  class Server<C> {
    var defaultCallback: Option<C>
    var connections: seq<Connection<C>>
    var active: bool
    var callbackLog: seq<Call<C>>

    predicate Valid()
      reads this
    {
      WellFormed(connections)
    }

    /** `__init__`: an empty table, not yet active. */
    constructor(defaultCallback: Option<C>)
      ensures Valid()
      ensures this.defaultCallback == defaultCallback
      ensures connections == [] && !active && callbackLog == []
    {
      this.defaultCallback := defaultCallback;
      connections := [];
      active := false;
      callbackLog := [];
    }

    /** `start`. */
    method Start()
      modifies this
      ensures active
      ensures connections == old(connections) && defaultCallback == old(defaultCallback)
      ensures callbackLog == old(callbackLog)
    {
      active := true;
    }

    /** The admission step of `_accept_connections`: the peer gets a fresh
      record with its ip, the default callback, no data and an empty queue. */
    method Admit(addr: Addr)
      requires Valid()
      modifies this
      ensures Valid()
      ensures connections == Put(old(connections), Fresh(addr, defaultCallback))
      ensures Lookup(connections, addr) == Some(Fresh(addr, defaultCallback))
      ensures defaultCallback == old(defaultCallback) && active == old(active)
      ensures callbackLog == old(callbackLog)
    {
      var c := Fresh(addr, defaultCallback);
      PutWellFormed(connections, c);
      PutLookup(connections, c, addr);
      connections := Put(connections, c);
    }

    /** The received-data branch of `_handle_client`: accepted text becomes
      the connection's data and is handed to its callback, if it has one.
      A connection killed meanwhile is not in the table, and nothing
      happens. */
    method Receive(addr: Addr, text: Option<string>)
      requires Valid()
      modifies this
      ensures Valid()
      ensures !Accepted(text) || Lookup(old(connections), addr).None? ==>
        connections == old(connections) && callbackLog == old(callbackLog)
      ensures Accepted(text) && Lookup(old(connections), addr).Some? ==>
        var c := Lookup(old(connections), addr).value;
        connections == Put(old(connections), c.(data := text)) &&
        callbackLog == old(callbackLog) + (if c.callback.Some? then [Call(c.callback.value, text.value, addr)] else [])
      ensures defaultCallback == old(defaultCallback) && active == old(active)
    {
      if text.None? || text.value == "" {
        return;
      }
      if Contains(text.value, Handshake) {
        return;
      }
      var i := IndexOf(connections, addr);
      if i.None? {
        return;
      }
      var c := connections[i.value];
      assert IndexOf(connections, c.(data := text).addr) == i;
      PutWellFormed(connections, c.(data := text));
      connections := connections[i.value := c.(data := text)];
      if c.callback.Some? {
        callbackLog := callbackLog + [Call(c.callback.value, text.value, addr)];
      }
    }

    /** `_send_data`: every queued item is sent, in order, and the queue is
      emptied; nothing happens when the address has gone. */
    method DrainQueue(addr: Addr) returns (sent: seq<string>)
      requires Valid()
      modifies this
      ensures Valid()
      ensures Lookup(old(connections), addr).None? ==> sent == [] && connections == old(connections)
      ensures Lookup(old(connections), addr).Some? ==>
        var c := Lookup(old(connections), addr).value;
        sent == c.sendQueue && connections == Put(old(connections), c.(sendQueue := []))
      ensures Lookup(connections, addr).Some? ==> Lookup(connections, addr).value.sendQueue == []
      ensures defaultCallback == old(defaultCallback) && active == old(active)
      ensures callbackLog == old(callbackLog)
    {
      var i := IndexOf(connections, addr);
      if i.None? {
        return [];
      }
      var queue := connections[i.value].sendQueue;
      sent := [];
      for k := 0 to |queue|
        invariant sent == queue[..k]
      {
        sent := sent + [queue[k]];
      }
      assert queue[..|queue|] == queue;
      var c := connections[i.value].(sendQueue := []);
      assert IndexOf(connections, c.addr) == i;
      PutWellFormed(connections, c);
      PutLookup(connections, c, addr);
      connections := connections[i.value := c];
    }

    /** `_kill_client`: the address leaves the table. `del` raises KeyError
      on an absent address; `found` is false then and nothing changes. */
    method KillClient(addr: Addr) returns (found: bool)
      requires Valid()
      modifies this
      ensures Valid()
      ensures found == Lookup(old(connections), addr).Some?
      ensures connections == Remove(old(connections), addr)
      ensures Lookup(connections, addr).None?
      ensures defaultCallback == old(defaultCallback) && active == old(active)
      ensures callbackLog == old(callbackLog)
    {
      var i := IndexOf(connections, addr);
      RemoveWellFormed(connections, addr);
      RemoveLookup(connections, addr, addr);
      found := i.Some?;
      if found {
        connections := connections[..i.value] + connections[i.value + 1..];
      }
    }

    /** `stop`: the server goes inactive and the table is cleared. */
    method Stop()
      modifies this
      ensures !active && connections == []
      ensures Valid()
      ensures defaultCallback == old(defaultCallback) && callbackLog == old(callbackLog)
    {
      active := false;
      connections := [];
    }

    /** `send`: None routes to the first connection, an address tuple to
      that connection if present, an ip string to every connection with
      that ip. */
    method Send(data: string, target: Target)
      requires Valid()
      modifies this
      ensures Valid()
      ensures connections == Routed(old(connections), target, data)
      ensures defaultCallback == old(defaultCallback) && active == old(active)
      ensures callbackLog == old(callbackLog)
    {
      match target
      case ToAddr(a) =>
        SendToAddr(data, a);
      case ToIp(ip) =>
        SendToIp(data, ip);
      case ToFirst =>
        if |connections| != 0 {
          SendToAddr(data, connections[0].addr);
        }
    }

    /** The tuple branch of `send`. */
    method SendToAddr(data: string, addr: Addr)
      requires Valid()
      modifies this
      ensures Valid()
      ensures connections == EnqueueAt(old(connections), addr, data)
      ensures defaultCallback == old(defaultCallback) && active == old(active)
      ensures callbackLog == old(callbackLog)
    {
      var i := IndexOf(connections, addr);
      if i.Some? {
        var c := Enqueue(connections[i.value], data);
        assert IndexOf(connections, c.addr) == i;
        PutWellFormed(connections, c);
        connections := connections[i.value := c];
      }
    }

    /** The ip-string branch of `send`: one pass over the table. */
    method SendToIp(data: string, ip: string)
      requires Valid()
      modifies this
      ensures Valid()
      ensures connections == EnqueueIp(old(connections), ip, data)
      ensures defaultCallback == old(defaultCallback) && active == old(active)
      ensures callbackLog == old(callbackLog)
    {
      ghost var before := connections;
      for k := 0 to |connections|
        invariant |connections| == |before|
        invariant forall j | 0 <= j < k :: connections[j] == if before[j].ip == ip then Enqueue(before[j], data) else before[j]
        invariant forall j | k <= j < |before| :: connections[j] == before[j]
        invariant defaultCallback == old(defaultCallback) && active == old(active)
        invariant callbackLog == old(callbackLog)
      {
        if connections[k].ip == ip {
          connections := connections[k := Enqueue(connections[k], data)];
        }
      }
      assert connections == EnqueueIp(before, ip, data);
      RoutedOnlyQueues(before, ToIp(ip), data);
    }

    /** `set_callback`: only that connection's callback changes; an absent
      address changes nothing. */
    method SetCallback(addr: Addr, callback: Option<C>)
      requires Valid()
      modifies this
      ensures Valid()
      ensures Lookup(old(connections), addr).None? ==> connections == old(connections)
      ensures Lookup(old(connections), addr).Some? ==>
        connections == Put(old(connections), Lookup(old(connections), addr).value.(callback := callback))
      ensures defaultCallback == old(defaultCallback) && active == old(active)
      ensures callbackLog == old(callbackLog)
    {
      var i := IndexOf(connections, addr);
      if i.Some? {
        var c := connections[i.value].(callback := callback);
        assert IndexOf(connections, c.addr) == i;
        PutWellFormed(connections, c);
        connections := connections[i.value := c];
      }
    }

    /** `get_data`: the first connection, in insertion order, with that ip. */
    method GetData(ip: string) returns (r: Option<string>)
      ensures r == FirstData(connections, ip)
    {
      for k := 0 to |connections|
        invariant forall j | 0 <= j < k :: connections[j].ip != ip
      {
        if connections[k].ip == ip {
          return connections[k].data;
        }
      }
      return None;
    }
  }
}
