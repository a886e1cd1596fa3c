/** The connection pool: who owns a connection, how many there are, and who is woken when one is given back. Every method
    is one stretch between two suspensions of the event loop. */
module Connector {
  import opened Bytes

  type Key = nat
  type Proto = nat        // a connection, or the placeholder of one being created
  type Waiter = nat

  datatype Idle = Idle(proto: Proto, since: int)

  /** Where a connection is kept. */
  datatype Place = IdleAt(key: Key) | Held(key: Key)

  /** A queue of idle connections of host `k`, none of them twice. */
  ghost predicate QueueOf(q: seq<Idle>, k: Key, place: map<Proto, Place>) {
    && (forall i | 0 <= i < |q| :: q[i].proto in place && place[q[i].proto] == IdleAt(k))
    && (forall i, j | 0 <= i < j < |q| :: q[i].proto != q[j].proto)
  }

  /** Every connection is in one place: in the queue of one host, or acquired for one host. */
  ghost predicate Owned(conns: map<Key, seq<Idle>>, acquired: set<Proto>, place: map<Proto, Place>) {
    && (forall k | k in conns :: conns[k] != [] && QueueOf(conns[k], k, place))
    && (forall p | p in place && place[p].IdleAt? :: place[p].key in conns && InQueue(conns[place[p].key], p))
    && (forall p :: p in acquired <==> p in place && place[p].Held?)
  }

  predicate InQueue(q: seq<Idle>, p: Proto) { exists i | 0 <= i < |q| :: q[i].proto == p }

  /** The sets per host divide up what is acquired. */
  ghost predicate Divided(perHost: map<Key, set<Proto>>, place: map<Proto, Place>) {
    forall k, p :: (k in perHost && p in perHost[k]) <==> (p in place && place[p] == Held(k))
  }

  function CountIn(perHost: map<Key, set<Proto>>, k: Key): nat {
    if k in perHost then |perHost[k]| else 0
  }

  function AddTo(perHost: map<Key, set<Proto>>, key: Key, p: Proto): map<Key, set<Proto>> {
    perHost[key := (if key in perHost then perHost[key] else {}) + {p}]
  }

  /** An empty set is dropped. */
  function RemoveFrom(perHost: map<Key, set<Proto>>, key: Key, p: Proto): map<Key, set<Proto>> {
    if key !in perHost then perHost
    else if perHost[key] - {p} == {} then perHost - {key}
    else perHost[key := perHost[key] - {p}]
  }

  lemma AddDivided(perHost: map<Key, set<Proto>>, place: map<Proto, Place>, key: Key, p: Proto)
    requires Divided(perHost, place) && p !in place
    ensures Divided(AddTo(perHost, key, p), place[p := Held(key)])
    ensures forall k :: CountIn(AddTo(perHost, key, p), k) == CountIn(perHost, k) + if k == key then 1 else 0
  {
    var s := if key in perHost then perHost[key] else {};
    assert p !in s;
    assert |s + {p}| == |s| + 1;
  }

  lemma RemoveDivided(perHost: map<Key, set<Proto>>, place: map<Proto, Place>, key: Key, p: Proto)
    requires Divided(perHost, place) && p in place && place[p] == Held(key)
    ensures Divided(RemoveFrom(perHost, key, p), place - {p})
    ensures forall k :: CountIn(RemoveFrom(perHost, key, p), k) == CountIn(perHost, k) - if k == key then 1 else 0
  {
    assert key in perHost && p in perHost[key];
    var s := perHost[key];
    assert |s - {p}| == |s| - 1;
    if s - {p} == {} { assert |s| == 1; }
  }

  lemma SameHeld(perHost: map<Key, set<Proto>>, place: map<Proto, Place>, place1: map<Proto, Place>)
    requires forall p :: (p in place && place[p].Held?) <==> (p in place1 && place1[p].Held?)
    requires forall p | p in place && place[p].Held? :: place[p] == place1[p]
    ensures Divided(perHost, place) ==> Divided(perHost, place1)
  {
    assert forall k, p :: (p in place && place[p] == Held(k)) <==> (p in place1 && place1[p] == Held(k));
  }

  /** A change of place of something that is in no queue does not disturb the queues. */
  lemma QueuesKept(conns: map<Key, seq<Idle>>, place: map<Proto, Place>, place1: map<Proto, Place>, p: Proto)
    requires forall k | k in conns :: QueueOf(conns[k], k, place)
    requires p in place ==> place[p].Held?
    requires p in place1 ==> place1[p].Held?
    requires place - {p} == place1 - {p}
    ensures forall k | k in conns :: QueueOf(conns[k], k, place1)
  {
    forall k | k in conns ensures QueueOf(conns[k], k, place1) {
      forall i | 0 <= i < |conns[k]| ensures conns[k][i].proto in place1 && place1[conns[k][i].proto] == IdleAt(k) {
        var c := conns[k][i].proto;
        assert c in place - {p} && (place - {p})[c] == place[c];
        assert (place1 - {p})[c] == place1[c];
      }
    }
  }

  function IdleCount(conns: map<Key, seq<Idle>>, k: Key): nat {
    if k in conns then |conns[k]| else 0
  }

  /** What is acquired, being created, and idle for each host stays within its limit. */
  ghost predicate Within(limit: nat, conns: map<Key, seq<Idle>>, perHost: map<Key, set<Proto>>) {
    forall k: Key :: CountIn(perHost, k) + IdleCount(conns, k) <= limit
  }

  /** The invariant of an open pool; a `limit` of 0 means that hosts are not limited. */
  ghost predicate PoolOk(limit: nat, conns: map<Key, seq<Idle>>, acquired: set<Proto>, perHost: map<Key, set<Proto>>,
                         place: map<Proto, Place>) {
    && Owned(conns, acquired, place)
    && if limit == 0 then perHost == map[] else Divided(perHost, place) && Within(limit, conns, perHost)
  }

  function AddFor(limit: nat, perHost: map<Key, set<Proto>>, key: Key, p: Proto): map<Key, set<Proto>> {
    if limit == 0 then perHost else AddTo(perHost, key, p)
  }

  function RemoveFor(limit: nat, perHost: map<Key, set<Proto>>, key: Key, p: Proto): map<Key, set<Proto>> {
    if limit == 0 then perHost else RemoveFrom(perHost, key, p)
  }

  lemma HoldOwned(conns: map<Key, seq<Idle>>, acquired: set<Proto>, place: map<Proto, Place>, key: Key, p: Proto)
    requires Owned(conns, acquired, place) && p !in place
    ensures Owned(conns, acquired + {p}, place[p := Held(key)])
  {
    hide InQueue;
    assert place - {p} == place[p := Held(key)] - {p};
    QueuesKept(conns, place, place[p := Held(key)], p);
  }

  /** Something new is acquired, where the host has room. */
  lemma AcquireOk(limit: nat, conns: map<Key, seq<Idle>>, acquired: set<Proto>, perHost: map<Key, set<Proto>>,
                  place: map<Proto, Place>, key: Key, p: Proto)
    requires PoolOk(limit, conns, acquired, perHost, place) && p !in place
    requires limit > 0 ==> CountIn(perHost, key) + IdleCount(conns, key) < limit
    ensures PoolOk(limit, conns, acquired + {p}, AddFor(limit, perHost, key, p), place[p := Held(key)])
  {
    HoldOwned(conns, acquired, place, key, p);
    hide Owned, Divided;
    if limit > 0 { AddDivided(perHost, place, key, p); }
  }

  /** Something acquired is given up. */
  lemma ReleaseOk(limit: nat, conns: map<Key, seq<Idle>>, acquired: set<Proto>, perHost: map<Key, set<Proto>>,
                  place: map<Proto, Place>, key: Key, p: Proto)
    requires PoolOk(limit, conns, acquired, perHost, place) && p in place && place[p] == Held(key)
    ensures PoolOk(limit, conns, acquired - {p}, RemoveFor(limit, perHost, key, p), place - {p})
    ensures limit > 0 ==> CountIn(RemoveFor(limit, perHost, key, p), key) + IdleCount(conns, key) < limit
  {
    assert (place - {p}) - {p} == place - {p};
    QueuesKept(conns, place, place - {p}, p);
    if limit > 0 { RemoveDivided(perHost, place, key, p); }
  }

  /** A connection that is nowhere goes to the end of its queue. */
  lemma EnqueueOk(limit: nat, conns: map<Key, seq<Idle>>, acquired: set<Proto>, perHost: map<Key, set<Proto>>,
                  place: map<Proto, Place>, key: Key, c: Idle)
    requires PoolOk(limit, conns, acquired, perHost, place) && c.proto !in place
    requires limit > 0 ==> CountIn(perHost, key) + IdleCount(conns, key) < limit
    ensures var q := if key in conns then conns[key] else [];
            PoolOk(limit, conns[key := q + [c]], acquired, perHost, place[c.proto := IdleAt(key)])
  {
    hide Owned, Divided;
    EnqueueOwned(conns, acquired, place, key, c);
    SameHeld(perHost, place, place[c.proto := IdleAt(key)]);
  }

  lemma EnqueueOwned(conns: map<Key, seq<Idle>>, acquired: set<Proto>, place: map<Proto, Place>, key: Key, c: Idle)
    requires Owned(conns, acquired, place) && c.proto !in place
    ensures var q := if key in conns then conns[key] else [];
            Owned(conns[key := q + [c]], acquired, place[c.proto := IdleAt(key)])
  {
    hide QueueOf, InQueue;
    var q := if key in conns then conns[key] else [];
    var place1 := place[c.proto := IdleAt(key)];
    var conns1 := conns[key := q + [c]];
    forall k | k in conns ensures QueueOf(conns[k], k, place1) {
      QueueLater(conns[k], k, place, c.proto, key);
    }
    EmptyQueue(key, place1);
    QueueSnoc(q, key, place, c);
    forall p | p in place1 && place1[p].IdleAt? ensures place1[p].key in conns1 && InQueue(conns1[place1[p].key], p) {
      if place1[p].key == key {
        InConcat(q, [c], p);
        InOne(c);
      }
    }
  }

  lemma EmptyQueue(k: Key, place: map<Proto, Place>)
    ensures QueueOf([], k, place)
  {
  }

  lemma InOne(c: Idle)
    ensures InQueue([c], c.proto)
  {
    assert [c][0] == c;
  }

  lemma QueueLater(q: seq<Idle>, k: Key, place: map<Proto, Place>, p: Proto, key: Key)
    requires QueueOf(q, k, place) && p !in place
    ensures QueueOf(q, k, place[p := IdleAt(key)])
  {
  }

  lemma QueueSnoc(q: seq<Idle>, k: Key, place: map<Proto, Place>, c: Idle)
    requires (q == [] || QueueOf(q, k, place)) && c.proto !in place
    ensures QueueOf(q + [c], k, place[c.proto := IdleAt(k)])
  {
  }

  lemma InConcat(q: seq<Idle>, r: seq<Idle>, p: Proto)
    ensures InQueue(q + r, p) <==> InQueue(q, p) || InQueue(r, p)
  {
    if InQueue(q, p) {
      var i :| 0 <= i < |q| && q[i].proto == p;
      assert (q + r)[i].proto == p;
    }
    if InQueue(r, p) {
      var i :| 0 <= i < |r| && r[i].proto == p;
      assert (q + r)[|q| + i].proto == p;
    }
  }

  lemma FrontSnoc(q: seq<Idle>, m: nat)
    requires m < |q|
    ensures forall p :: InQueue(q[..m + 1], p) <==> InQueue(q[..m], p) || q[m].proto == p
  {
    assert q[..m + 1] == q[..m] + [q[m]];
    forall p ensures InQueue(q[..m + 1], p) <==> InQueue(q[..m], p) || q[m].proto == p {
      InConcat(q[..m], [q[m]], p);
      assert [q[m]][0] == q[m];
    }
  }

  /** The places after the connections of a queue were taken out of it. */
  ghost function Without(place: map<Proto, Place>, q: seq<Idle>): map<Proto, Place> {
    map p | p in place && !InQueue(q, p) :: place[p]
  }

  lemma WithoutNone(place: map<Proto, Place>)
    ensures Without(place, []) == place
  {
  }

  /** A queue gives up its front. */
  lemma DequeueQueues(conns: map<Key, seq<Idle>>, acquired: set<Proto>, place: map<Proto, Place>, key: Key, n: nat)
    requires Owned(conns, acquired, place) && key in conns && n <= |conns[key]|
    ensures var q := conns[key];
            Owned(if n < |q| then conns[key := q[n..]] else conns - {key}, acquired, Without(place, q[..n]))
  {
    var q := conns[key];
    var conns1 := if n < |q| then conns[key := q[n..]] else conns - {key};
    var place1 := Without(place, q[..n]);
    forall k | k in conns1 ensures QueueOf(conns1[k], k, place1) {
      assert QueueOf(conns[k], k, place);
      if k == key {
        assert forall i | 0 <= i < |q| - n :: conns1[k][i] == q[n + i];
      } else {
        assert QueueOf(q, key, place);
      }
    }
    forall p | p in place1 && place1[p].IdleAt? ensures place1[p].key in conns1 && InQueue(conns1[place1[p].key], p) {
      if place1[p].key == key {
        assert q[..n] + q[n..] == q;
        InConcat(q[..n], q[n..], p);
      }
    }
  }

  lemma DequeueOk(limit: nat, conns: map<Key, seq<Idle>>, acquired: set<Proto>, perHost: map<Key, set<Proto>>,
                  place: map<Proto, Place>, key: Key, n: nat)
    requires PoolOk(limit, conns, acquired, perHost, place) && key in conns && n <= |conns[key]|
    ensures var q := conns[key];
            var conns1 := if n < |q| then conns[key := q[n..]] else conns - {key};
            var place1 := Without(place, q[..n]);
            && PoolOk(limit, conns1, acquired, perHost, place1)
            && IdleCount(conns1, key) + n == IdleCount(conns, key)
            && (forall p | InQueue(q[..n], p) :: p in place && p !in place1)
  {
    var q := conns[key];
    var place1 := Without(place, q[..n]);
    DequeueQueues(conns, acquired, place, key, n);
    assert QueueOf(q, key, place);
    SameHeld(perHost, place, place1);
  }

  /** A queue gives up its front, and the last of what it gives up is acquired. */
  lemma TakeOk(limit: nat, conns: map<Key, seq<Idle>>, acquired: set<Proto>, perHost: map<Key, set<Proto>>,
               place: map<Proto, Place>, key: Key, m: nat)
    requires PoolOk(limit, conns, acquired, perHost, place) && key in conns && m < |conns[key]|
    ensures var q := conns[key];
            var conns1 := if m + 1 < |q| then conns[key := q[m + 1..]] else conns - {key};
            var place1 := Without(place, q[..m + 1])[q[m].proto := Held(key)];
            && PoolOk(limit, conns1, acquired + {q[m].proto}, AddFor(limit, perHost, key, q[m].proto), place1)
            && q[m].proto !in acquired
            && (forall p | p in place && p !in place1 :: InQueue(q[..m], p))
  {
    hide Owned, Divided, Within, InQueue, QueueOf;
    var q := conns[key];
    IdleNotHeld(conns, acquired, place, key, m);
    RoomOf(limit, conns, perHost, key);
    FrontSnoc(q, m);
    LastOfFront(q, m);
    DequeueOk(limit, conns, acquired, perHost, place, key, m + 1);
    var conns1 := if m + 1 < |q| then conns[key := q[m + 1..]] else conns - {key};
    AcquireOk(limit, conns1, acquired, perHost, Without(place, q[..m + 1]), key, q[m].proto);
  }

  lemma LastOfFront(q: seq<Idle>, m: nat)
    requires m < |q|
    ensures InQueue(q[..m + 1], q[m].proto)
  {
    assert q[..m + 1][m] == q[m];
  }

  lemma IdleNotHeld(conns: map<Key, seq<Idle>>, acquired: set<Proto>, place: map<Proto, Place>, key: Key, m: nat)
    requires Owned(conns, acquired, place) && key in conns && m < |conns[key]|
    ensures conns[key][m].proto !in acquired
  {
    hide InQueue;
    assert QueueOf(conns[key], key, place);
  }

  lemma RoomOf(limit: nat, conns: map<Key, seq<Idle>>, perHost: map<Key, set<Proto>>, key: Key)
    requires key in conns
    ensures Within(limit, conns, perHost) ==> CountIn(perHost, key) + |conns[key]| <= limit
  {
    assert |conns[key]| == IdleCount(conns, key);
  }

  /** How many of the front of the queue cannot be reused. */
  function Unusable(q: seq<Idle>, now: int, keepalive: int, connected: set<Proto>): (m: nat)
    ensures m <= |q|
    ensures forall i | 0 <= i < m :: q[i].proto !in connected || now - q[i].since > keepalive
    ensures m < |q| ==> q[m].proto in connected && now - q[m].since <= keepalive
  {
    if q == [] || Usable(q[0], now, keepalive, connected) then 0
    else 1 + Unusable(q[1..], now, keepalive, connected)
  }

  predicate Usable(c: Idle, now: int, keepalive: int, connected: set<Proto>) {
    c.proto in connected && now - c.since <= keepalive
  }

  /** The queue without the connections that are to be closed. */
  function Alive(q: seq<Idle>, deadline: int, connected: set<Proto>): seq<Idle> {
    if q == [] then []
    else (if q[0].proto in connected && q[0].since - deadline >= 0 then [q[0]] else []) + Alive(q[1..], deadline, connected)
  }

  lemma {:induction false} AliveSub(q: seq<Idle>, deadline: int, connected: set<Proto>, k: Key, place: map<Proto, Place>)
    requires QueueOf(q, k, place)
    ensures var a := Alive(q, deadline, connected);
            && QueueOf(a, k, place) && |a| <= |q|
            && (forall c :: c in a <==> c in q && c.proto in connected && c.since >= deadline)
  {
    if q != [] {
      AliveSub(q[1..], deadline, connected, k, place);
      var a := Alive(q[1..], deadline, connected);
      assert q == [q[0]] + q[1..];
      forall i | 0 <= i < |a| ensures a[i].proto != q[0].proto {
        assert a[i] in q[1..];
      }
    }
  }

  /** The connections that a cleanup closes. */
  function Dead(q: seq<Idle>, deadline: int, connected: set<Proto>): set<Proto> {
    set i | 0 <= i < |q| && !(q[i].proto in connected && q[i].since - deadline >= 0) :: q[i].proto
  }

  lemma {:induction false} AliveSnoc(q: seq<Idle>, c: Idle, deadline: int, connected: set<Proto>)
    ensures Alive(q + [c], deadline, connected)
         == Alive(q, deadline, connected) + if c.proto in connected && c.since - deadline >= 0 then [c] else []
  {
    if q != [] {
      AliveSnoc(q[1..], c, deadline, connected);
      assert (q + [c])[1..] == q[1..] + [c];
    }
  }

  lemma DeadSnoc(q: seq<Idle>, c: Idle, deadline: int, connected: set<Proto>)
    ensures Dead(q + [c], deadline, connected)
         == Dead(q, deadline, connected) + if c.proto in connected && c.since - deadline >= 0 then {} else {c.proto}
  {
    var r := q + [c];
    forall p | p in Dead(q, deadline, connected) ensures p in Dead(r, deadline, connected) {
      var i :| 0 <= i < |q| && q[i].proto == p && !(q[i].proto in connected && q[i].since - deadline >= 0);
      assert r[i] == q[i];
    }
    assert r[|q|] == c;
  }

  /** The connections of some of the hosts that a cleanup closes. */
  function DeadIn(conns: map<Key, seq<Idle>>, keys: set<Key>, deadline: int, connected: set<Proto>): set<Proto>
    requires keys <= conns.Keys
  {
    set k, p | k in keys && p in Dead(conns[k], deadline, connected) :: p
  }

  /** The places of what is acquired and of what is still in a queue. */
  ghost function Surviving(place: map<Proto, Place>, conns: map<Key, seq<Idle>>): map<Proto, Place> {
    map p | p in place && (place[p].Held? || (place[p].key in conns && InQueue(conns[place[p].key], p))) :: place[p]
  }

  /** The queues that remain after a cleanup. */
  function Swept(conns: map<Key, seq<Idle>>, deadline: int, connected: set<Proto>): map<Key, seq<Idle>> {
    map k | k in conns && Alive(conns[k], deadline, connected) != [] :: Alive(conns[k], deadline, connected)
  }

  /** A connection of a queue survives a cleanup exactly if it is not among those that are closed. */
  lemma AliveOrDead(q: seq<Idle>, deadline: int, connected: set<Proto>, p: Proto, k: Key, place: map<Proto, Place>)
    requires QueueOf(q, k, place) && InQueue(q, p)
    ensures InQueue(Alive(q, deadline, connected), p) <==> p !in Dead(q, deadline, connected)
  {
    AliveSub(q, deadline, connected, k, place);
    var i :| 0 <= i < |q| && q[i].proto == p;
    assert q[i] in q;
  }

  lemma DeadThere(conns: map<Key, seq<Idle>>, acquired: set<Proto>, place: map<Proto, Place>,
                  deadline: int, connected: set<Proto>, p: Proto)
    requires Owned(conns, acquired, place) && p in place
    ensures p in DeadIn(conns, conns.Keys, deadline, connected)
       <==> place[p].IdleAt? && p in Dead(conns[place[p].key], deadline, connected)
  {
    forall k | k in conns && p in Dead(conns[k], deadline, connected) ensures place[p] == IdleAt(k) {
      assert QueueOf(conns[k], k, place);
    }
  }

  /** What a cleanup takes out of the pool, it closes. */
  lemma SurvivingOrDead(conns: map<Key, seq<Idle>>, acquired: set<Proto>, place: map<Proto, Place>,
                        deadline: int, connected: set<Proto>)
    requires Owned(conns, acquired, place)
    ensures var place1 := Surviving(place, Swept(conns, deadline, connected));
            forall p | p in place :: p in place1 <==> p !in DeadIn(conns, conns.Keys, deadline, connected)
  {
    var place1 := Surviving(place, Swept(conns, deadline, connected));
    forall p | p in place ensures p in place1 <==> p !in DeadIn(conns, conns.Keys, deadline, connected) {
      DeadThere(conns, acquired, place, deadline, connected, p);
      if place[p].IdleAt? {
        AliveOrDead(conns[place[p].key], deadline, connected, p, place[p].key, place);
      }
    }
  }

  lemma CleanupOk(limit: nat, conns: map<Key, seq<Idle>>, acquired: set<Proto>, perHost: map<Key, set<Proto>>,
                  place: map<Proto, Place>, deadline: int, connected: set<Proto>)
    requires PoolOk(limit, conns, acquired, perHost, place)
    ensures var conns1 := Swept(conns, deadline, connected);
            PoolOk(limit, conns1, acquired, perHost, Surviving(place, conns1))
  {
    var conns1 := Swept(conns, deadline, connected);
    var place1 := Surviving(place, conns1);
    forall k | k in conns1 ensures QueueOf(conns1[k], k, place1) && |conns1[k]| <= |conns[k]| {
      AliveSub(conns[k], deadline, connected, k, place);
      assert forall i | 0 <= i < |conns1[k]| :: InQueue(conns1[k], conns1[k][i].proto);
    }
    SameHeld(perHost, place, place1);
  }

  function AllIdle(conns: map<Key, seq<Idle>>): set<Proto> {
    set k, i | k in conns && 0 <= i < |conns[k]| :: conns[k][i].proto
  }

  function AllWaiters(waiters: map<Key, seq<Waiter>>): set<Waiter> {
    set k, w | k in waiters && w in waiters[k] :: w
  }

  /** What the pool holds is what is idle and what is acquired. */
  lemma HeldAnywhere(limit: nat, conns: map<Key, seq<Idle>>, acquired: set<Proto>, perHost: map<Key, set<Proto>>,
                     place: map<Proto, Place>)
    requires PoolOk(limit, conns, acquired, perHost, place)
    ensures forall p :: p in place <==> p in acquired || p in AllIdle(conns)
  {
    forall p | p in place && place[p].IdleAt? ensures p in AllIdle(conns) {
      assert InQueue(conns[place[p].key], p);
    }
    forall k, i | k in conns && 0 <= i < |conns[k]| ensures conns[k][i].proto in place {
      assert QueueOf(conns[k], k, place);
    }
  }

  class BaseConnector {
    const limit: nat            // 0: none
    const limitPerHost: nat     // 0: none
    const keepaliveTimeout: int
    const forceClose: bool
    var conns: map<Key, seq<Idle>>
    var acquired: set<Proto>
    var acquiredPerHost: map<Key, set<Proto>>
    var waiters: map<Key, seq<Waiter>>
    var doneWaiters: set<Waiter>
    var closed: bool
    var shut: set<Proto>        // the connections that were closed

    ghost var place: map<Proto, Place>  // where each live connection or placeholder is kept

    ghost predicate Valid()
      reads this
    {
      !closed ==> PoolOk(limitPerHost, conns, acquired, acquiredPerHost, place)
    }

    function HostCount(k: Key): nat
      reads this`acquiredPerHost
    {
      CountIn(acquiredPerHost, k)
    }

    /** How many more connections to this host may be opened; not positive if none. */
    function AvailableConnections(key: Key): (r: int)
      reads this`acquired, this`acquiredPerHost
      ensures r > 0 <==> (limit == 0 || |acquired| < limit) && (limitPerHost == 0 || HostCount(key) < limitPerHost)
    {
      var totalRemain := if limit > 0 then limit - |acquired| else 1;
      if limit > 0 && totalRemain <= 0 then totalRemain
      else if limitPerHost > 0 && totalRemain > limitPerHost - HostCount(key) then limitPerHost - HostCount(key)
      else totalRemain
    }

    constructor (limit: nat, limitPerHost: nat, keepaliveTimeout: int, forceClose: bool)
      ensures Valid() && !closed && conns == map[] && acquired == {} && waiters == map[] && shut == {} && place == map[]
      ensures this.limit == limit && this.limitPerHost == limitPerHost
      ensures this.keepaliveTimeout == keepaliveTimeout && this.forceClose == forceClose && doneWaiters == {}
    {
      this.limit, this.limitPerHost := limit, limitPerHost;
      this.keepaliveTimeout, this.forceClose := keepaliveTimeout, forceClose;
      conns, acquired, acquiredPerHost, place := map[], {}, map[], map[];
      waiters, doneWaiters, closed, shut := map[], {}, false, {};
    }

    // ---- taking connections ----

    /** The next reusable connection of the host, oldest first; the ones in front of it are closed. */
    method Get(key: Key, now: int, connected: set<Proto>) returns (r: Option<Proto>)
      requires Valid() && !closed
      modifies this`conns, this`acquired, this`acquiredPerHost, this`place, this`shut
      ensures Valid() && (r.None? ==> key !in conns && acquired == old(acquired) && acquiredPerHost == old(acquiredPerHost))
      ensures r.None? ==> forall p | p !in old(place) :: p !in place
      ensures key !in old(conns) ==> r.None? && conns == old(conns) && place == old(place)
      ensures forall p | p in old(place) :: p in place || p in shut
      ensures var q := if key in old(conns) then old(conns)[key] else [];
              var m := Unusable(q, now, keepaliveTimeout, connected);
              && (forall p :: p in shut <==> p in old(shut) || InQueue(q[..m], p))
              && r == (if m < |q| then Some(q[m].proto) else None)
              && (r.Some? ==> r.value !in old(acquired))
              && (r.Some? ==> place == Without(old(place), q[..m + 1])[r.value := Held(key)] && acquired == old(acquired) + {r.value})
              && (r.None? ==> place == Without(old(place), q))
              && conns == if m + 1 < |q| then old(conns)[key := q[m + 1..]] else old(conns) - {key}
    {
      if key !in conns {
        WithoutNone(place);
        return None;
      }
      var q := conns[key];
      var m := CloseUnusable(q, now, connected);
      if m == |q| {
        DropQueue(key);
        assert q[..m] == q;
        return None;
      }
      TakeIdle(key, m);
      return Some(q[m].proto);
    }

    /** The queue of the host has lost what is reused, and what was in front of that, which is closed; the rest of the pool is
        as it was. */
    ghost predicate Picked(key: Key, now: int, connected: set<Proto>, before: map<Key, seq<Idle>>, shutBefore: set<Proto>,
                           placeBefore: map<Proto, Place>, r: ConnectStep, placeholder: Proto)
      reads this`conns, this`shut, this`place
    {
      var q := if key in before then before[key] else [];
      var m := Unusable(q, now, keepaliveTimeout, connected);
      && conns == (if m + 1 < |q| then before[key := q[m + 1..]] else before - {key})
      && (forall p :: p in shut <==> p in shutBefore || InQueue(q[..m], p))
      && place == match r
                  case Reuse(p) => Without(placeBefore, q[..if m < |q| then m + 1 else m])[p := Held(key)]
                  case Create => Without(placeBefore, q)[placeholder := Held(key)]
                  case Wait => Without(placeBefore, q)
    }

    /** Nothing in the queue can be reused. */
    method DropQueue(key: Key)
      requires Valid() && !closed && key in conns
      modifies this`conns, this`place
      ensures Valid() && conns == old(conns) - {key} && place == Without(old(place), old(conns)[key])
    {
      var q := conns[key];
      DequeueOk(limitPerHost, conns, acquired, acquiredPerHost, place, key, |q|);
      assert q[..|q|] == q;
      place := Without(place, q);
      conns := conns - {key};
    }

    /** The idle connection at position `m` is acquired; the ones in front of it leave the queue. */
    method TakeIdle(key: Key, m: nat)
      requires Valid() && !closed && key in conns && m < |conns[key]|
      modifies this`conns, this`acquired, this`acquiredPerHost, this`place
      ensures Valid()
      ensures var q := old(conns)[key];
              && (forall p | p in old(place) && p !in place :: InQueue(q[..m], p))
              && acquired == old(acquired) + {q[m].proto} && q[m].proto !in old(acquired)
              && place == Without(old(place), q[..m + 1])[q[m].proto := Held(key)]
              && conns == if m + 1 < |q| then old(conns)[key := q[m + 1..]] else old(conns) - {key}
    {
      var q := conns[key];
      var p := q[m].proto;
      hide PoolOk, Without, InQueue;
      TakeOk(limitPerHost, conns, acquired, acquiredPerHost, place, key, m);
      place := Without(place, q[..m + 1])[p := Held(key)];
      conns := if m + 1 < |q| then conns[key := q[m + 1..]] else conns - {key};
      acquired := acquired + {p};
      acquiredPerHost := AddFor(limitPerHost, acquiredPerHost, key, p);
    }

    /** The connections in front of the first reusable one are closed. */
    method CloseUnusable(q: seq<Idle>, now: int, connected: set<Proto>) returns (m: nat)
      modifies this`shut
      ensures m == Unusable(q, now, keepaliveTimeout, connected)
      ensures forall p :: p in shut <==> p in old(shut) || InQueue(q[..m], p)
    {
      m := 0;
      while m < |q| && !Usable(q[m], now, keepaliveTimeout, connected)
        invariant m <= |q| && Unusable(q, now, keepaliveTimeout, connected) == m + Unusable(q[m..], now, keepaliveTimeout, connected)
        invariant forall p :: p in shut <==> p in old(shut) || InQueue(q[..m], p)
      {
        assert q[m..][1..] == q[m + 1..];
        FrontSnoc(q, m);
        shut := shut + {q[m].proto};
        m := m + 1;
      }
    }

    /** A placeholder holds the slot of a connection that is about to be created. Only a host without idle connections and
        with a free slot gets one. */
    method Reserve(key: Key, placeholder: Proto)
      requires Valid() && !closed && placeholder !in place && key !in conns && AvailableConnections(key) > 0
      modifies this`acquired, this`acquiredPerHost, this`place
      ensures Valid() && acquired == old(acquired) + {placeholder} && place == old(place)[placeholder := Held(key)]
      ensures placeholder !in old(acquired)
      ensures limit > 0 ==> |acquired| <= limit
      ensures limitPerHost > 0 ==> HostCount(key) <= limitPerHost
    {
      AcquireOk(limitPerHost, conns, acquired, acquiredPerHost, place, key, placeholder);
      assert placeholder !in acquired && |acquired + {placeholder}| == |acquired| + 1;
      acquired := acquired + {placeholder};
      acquiredPerHost := AddFor(limitPerHost, acquiredPerHost, key, placeholder);
      place := place[placeholder := Held(key)];
    }

    /** An idle connection, or else a slot to create one where there is a free one. */
    method GetOrReserve(key: Key, now: int, connected: set<Proto>, placeholder: Proto) returns (r: ConnectStep)
      requires Valid() && !closed && placeholder !in place
      modifies this`conns, this`acquired, this`acquiredPerHost, this`place, this`shut
      ensures Valid() && r == Outcome(old(conns), key, old(AvailableConnections(key)), now, connected)
      ensures forall p | p in old(place) :: p in place || p in shut
      ensures Granted(key, r, placeholder, old(acquired)) && (r.Wait? ==> key !in conns)
      ensures Picked(key, now, connected, old(conns), old(shut), old(place), r, placeholder)
      ensures key !in old(conns) && r.Create? ==> conns == old(conns) && place == old(place)[placeholder := Held(key)]
    {
      hide PoolOk;
      var got := Get(key, now, connected);
      if got.Some? { return Reuse(got.value); }
      if AvailableConnections(key) <= 0 { return Wait; }
      Reserve(key, placeholder);
      return Create;
    }

    /** An idle connection of this host can be reused. */
    ghost predicate CanReuse(key: Key, now: int, connected: set<Proto>)
      reads this
    {
      key in conns && Unusable(conns[key], now, keepaliveTimeout, connected) < |conns[key]|
    }

    /** A request asks for a connection: it gets an idle one, or a slot to create one, or it joins the waiters at the end. The
        limit on all connections is kept, exactly unless it was used up and an idle connection could be reused. */
    method Connect(key: Key, now: int, connected: set<Proto>, placeholder: Proto, w: Waiter) returns (r: ConnectStep)
      requires Valid() && !closed && placeholder !in place
      modifies this`conns, this`acquired, this`acquiredPerHost, this`place, this`shut, this`waiters
      ensures Valid() && r == Outcome(old(conns), key, old(AvailableConnections(key)), now, connected)
      ensures forall p | p in old(place) :: p in place || p in shut
      ensures Granted(key, r, placeholder, old(acquired))
      ensures Picked(key, now, connected, old(conns), old(shut), old(place), r, placeholder)
      ensures r.Wait? ==> key !in conns && waiters == old(waiters)[key := old(Queue(waiters, key)) + [w]]
      ensures !r.Wait? ==> waiters == old(waiters)
      ensures key !in old(conns) && r.Create? ==> conns == old(conns) && place == old(place)[placeholder := Held(key)]
      ensures limit > 0 && |old(acquired)| <= limit ==>
                (|acquired| <= limit <==> !(|old(acquired)| == limit && old(CanReuse(key, now, connected))))
    {
      hide PoolOk, Unusable, BaseConnector.Picked;
      r := GetOrReserve(key, now, connected, placeholder);
      if r.Wait? { waiters := waiters[key := Queue(waiters, key) + [w]]; }
    }

    /** What a request got: one thing more is acquired, for the host; a new one only within the limits. */
    ghost predicate Granted(key: Key, r: ConnectStep, placeholder: Proto, before: set<Proto>)
      reads this
    {
      match r
      case Reuse(p) => p in place && place[p] == Held(key) && acquired == before + {p} && p !in before
      case Create =>
        && placeholder in place && place[placeholder] == Held(key) && acquired == before + {placeholder}
        && placeholder !in before && (limit > 0 ==> |acquired| <= limit)
        && (limitPerHost > 0 ==> HostCount(key) <= limitPerHost)
      case Wait => acquired == before
    }

    /** What a request gets: the first idle connection that can be reused, whatever the limits are. */
    function Outcome(conns: map<Key, seq<Idle>>, key: Key, available: int, now: int, connected: set<Proto>): ConnectStep {
      var q := if key in conns then conns[key] else [];
      var m := Unusable(q, now, keepaliveTimeout, connected);
      if m < |q| then Reuse(q[m].proto) else if available > 0 then Create else Wait
    }

    /** The connection was created: it takes the place of its placeholder, unless the pool was closed meanwhile. */
    method Created(key: Key, placeholder: Proto, p: Proto) returns (ok: bool)
      requires Valid() && p !in place
      requires !closed ==> placeholder in place && place[placeholder] == Held(key)
      modifies this`acquired, this`acquiredPerHost, this`place, this`shut
      ensures Valid() && ok == !closed
      ensures ok ==> acquired == old(acquired) - {placeholder} + {p} && place == (old(place) - {placeholder})[p := Held(key)]
      ensures ok ==> |acquired| == |old(acquired)| && shut == old(shut)
      ensures !ok ==> shut == old(shut) + {p}
    {
      if closed {
        shut := shut + {p};
        return false;
      }
      ReleaseOk(limitPerHost, conns, acquired, acquiredPerHost, place, key, placeholder);
      ghost var perHost1 := RemoveFor(limitPerHost, acquiredPerHost, key, placeholder);
      AcquireOk(limitPerHost, conns, acquired - {placeholder}, perHost1, place - {placeholder}, key, p);
      assert |acquired - {placeholder} + {p}| == |acquired|;
      if limitPerHost > 0 {
        SwapHost(acquiredPerHost, key, placeholder, p);
        acquiredPerHost := acquiredPerHost[key := acquiredPerHost[key] - {placeholder} + {p}];
      }
      acquired := acquired - {placeholder} + {p};
      place := (place - {placeholder})[p := Held(key)];
      return true;
    }

    // ---- giving connections back ----

    /** A connection, or the placeholder of one that could not be created, is no longer acquired; a waiter may be woken. */
    method ReleaseAcquired(key: Key, p: Proto) returns (woken: Option<Waiter>)
      requires Valid() && (!closed ==> p in place && place[p] == Held(key))
      modifies this`acquired, this`acquiredPerHost, this`place, this`waiters, this`doneWaiters
      ensures Valid()
      ensures closed ==> woken.None? && acquired == old(acquired) && waiters == old(waiters)
      ensures !closed ==> acquired == old(acquired) - {p} && place == old(place) - {p}
      ensures !closed && limitPerHost > 0 ==> HostCount(key) + IdleCount(conns, key) < limitPerHost
      ensures !closed ==> Woke(old(waiters), old(doneWaiters), woken)
    {
      if closed { return None; }
      ReleaseOk(limitPerHost, conns, acquired, acquiredPerHost, place, key, p);
      acquired := acquired - {p};
      acquiredPerHost := RemoveFor(limitPerHost, acquiredPerHost, key, p);
      place := place - {p};
      woken := ReleaseWaiter();
    }

    /** A connection is given back: it is closed, or it becomes the last of the idle ones of its host. */
    method Release(key: Key, p: Proto, shouldClose: bool, now: int) returns (woken: Option<Waiter>)
      requires Valid() && (!closed ==> p in place && place[p] == Held(key))
      modifies this`acquired, this`acquiredPerHost, this`place, this`waiters, this`doneWaiters, this`conns, this`shut
      ensures Valid()
      ensures closed ==> woken.None? && acquired == old(acquired) && conns == old(conns) && shut == old(shut)
      ensures !closed ==> acquired == old(acquired) - {p} && Woke(old(waiters), old(doneWaiters), woken)
      ensures !closed && (forceClose || shouldClose) ==> shut == old(shut) + {p} && conns == old(conns) && place == old(place) - {p}
      ensures !closed && !(forceClose || shouldClose) ==>
                && shut == old(shut) && place == old(place)[p := IdleAt(key)]
                && conns == old(conns)[key := (if key in old(conns) then old(conns)[key] else []) + [Idle(p, now)]]
    {
      hide PoolOk, Woke, Owned;
      if closed { return None; }
      woken := ReleaseAcquired(key, p);
      if forceClose || shouldClose {
        shut := shut + {p};
        return;
      }
      EnqueueOk(limitPerHost, conns, acquired, acquiredPerHost, place, key, Idle(p, now));
      conns := conns[key := (if key in conns then conns[key] else []) + [Idle(p, now)]];
      place := place[p := IdleAt(key)];
      assert place == old(place)[p := IdleAt(key)];
    }

    // ---- waiting ----

    /** A request whose waiter was woken leaves the queue and tries again; if it lost the race, it waits again, now in front. */
    method Woken(key: Key, w: Waiter, now: int, connected: set<Proto>, placeholder: Proto, again: Waiter)
      returns (r: ConnectStep)
      requires Valid() && !closed && placeholder !in place
      modifies this`conns, this`acquired, this`acquiredPerHost, this`place, this`shut, this`waiters
      ensures Valid() && Granted(key, r, placeholder, old(acquired))
      ensures r == if old(AvailableConnections(key)) <= 0 then Wait
                   else Outcome(old(conns), key, old(AvailableConnections(key)), now, connected)
      ensures if old(AvailableConnections(key)) <= 0 then conns == old(conns) && shut == old(shut) && place == old(place)
              else Picked(key, now, connected, old(conns), old(shut), old(place), r, placeholder)
      ensures forall p | p in old(place) :: p in place || p in shut
      ensures Queue(waiters, key) == (if r.Wait? then [again] else []) + RemoveFirst(old(Queue(waiters, key)), w)
      ensures waiters - {key} == old(waiters) - {key}
    {
      hide PoolOk, RemoveFirst, Unusable, BaseConnector.HostCount, BaseConnector.Picked, Without;
      var q := RemoveFirst(Queue(waiters, key), w);
      waiters := if q == [] then waiters - {key} else waiters[key := q];
      if AvailableConnections(key) <= 0 {
        waiters := waiters[key := [again] + q];
        return Wait;
      }
      r := GetOrReserve(key, now, connected, placeholder);
    }

    // ---- housekeeping ----

    /** Idle connections that are dead or too old are closed, and no others. */
    method Cleanup(now: int, connected: set<Proto>)
      requires Valid() && !closed
      modifies this`conns, this`place, this`shut
      ensures Valid()
      ensures conns == Swept(old(conns), now - keepaliveTimeout, connected)
      ensures shut == old(shut) + DeadIn(old(conns), old(conns).Keys, now - keepaliveTimeout, connected)
      ensures forall p | p in old(place) :: p in place <==> p !in DeadIn(old(conns), old(conns).Keys, now - keepaliveTimeout, connected)
    {
      hide Owned, Swept, Surviving;
      CleanupOk(limitPerHost, conns, acquired, acquiredPerHost, place, now - keepaliveTimeout, connected);
      SurvivingOrDead(conns, acquired, place, now - keepaliveTimeout, connected);
      Sweep(now - keepaliveTimeout, connected);
    }

    method Sweep(deadline: int, connected: set<Proto>)
      modifies this`conns, this`place, this`shut
      ensures conns == Swept(old(conns), deadline, connected) && place == Surviving(old(place), conns)
      ensures shut == old(shut) + DeadIn(old(conns), old(conns).Keys, deadline, connected)
    {
      var connections: map<Key, seq<Idle>> := map[];
      var rest := conns.Keys;
      while rest != {}
        invariant rest <= conns.Keys
        invariant forall k :: k in connections <==> k in conns && k !in rest && Alive(conns[k], deadline, connected) != []
        invariant forall k | k in connections :: connections[k] == Alive(conns[k], deadline, connected)
        invariant shut == old(shut) + DeadIn(conns, conns.Keys - rest, deadline, connected)
        modifies this`shut
        decreases rest
      {
        var key :| key in rest;
        var alive := SweepQueue(conns[key], deadline, connected);
        if alive != [] { connections := connections[key := alive]; }
        assert conns.Keys - (rest - {key}) == (conns.Keys - rest) + {key};
        rest := rest - {key};
      }
      assert conns.Keys - {} == conns.Keys;
      place := Surviving(place, connections);
      conns := connections;
    }

    method SweepQueue(q: seq<Idle>, deadline: int, connected: set<Proto>) returns (alive: seq<Idle>)
      modifies this`shut
      ensures alive == Alive(q, deadline, connected)
      ensures shut == old(shut) + Dead(q, deadline, connected)
    {
      alive := [];
      assert Dead(q[..0], deadline, connected) == {};
      assert Alive(q[..0], deadline, connected) == [];
      hide Dead, Alive;
      for n := 0 to |q|
        invariant alive == Alive(q[..n], deadline, connected)
        invariant shut == old(shut) + Dead(q[..n], deadline, connected)
      {
        assert q[..n + 1] == q[..n] + [q[n]];
        DeadSnoc(q[..n], q[n], deadline, connected);
        AliveSnoc(q[..n], q[n], deadline, connected);
        if q[n].proto in connected && q[n].since - deadline >= 0 {
          alive := alive + [q[n]];
        } else {
          shut := shut + {q[n].proto};
        }
      }
      assert q[..|q|] == q;
    }

    /** The pool is closed: everything it holds is closed, and all waiters are cancelled. */
    method Close()
      requires Valid()
      modifies this`conns, this`acquired, this`place, this`waiters, this`doneWaiters, this`shut, this`closed
      ensures Valid() && closed
      ensures old(closed) ==> shut == old(shut) && conns == old(conns) && acquired == old(acquired)
      ensures !old(closed) ==> conns == map[] && acquired == {} && waiters == map[]
      ensures !old(closed) ==> forall p :: p in shut <==> p in old(shut) || p in old(place)
      ensures !old(closed) ==> forall k, w | k in old(waiters) && w in old(waiters)[k] :: w in doneWaiters
    {
      hide PoolOk, AllIdle;
      if closed { return; }
      HeldAnywhere(limitPerHost, conns, acquired, acquiredPerHost, place);
      closed := true;
      shut := shut + AllIdle(conns) + acquired;
      doneWaiters := doneWaiters + AllWaiters(waiters);
      conns, acquired, waiters, place := map[], {}, map[], map[];
    }

    /** A waiter is done for another reason: it was cancelled. */
    method CancelWaiter(w: Waiter)
      requires Valid()
      modifies this`doneWaiters
      ensures Valid() && doneWaiters == old(doneWaiters) + {w}
    {
      doneWaiters := doneWaiters + {w};
    }

    /** The outcome of waking: one pending waiter, the first of its host, where the host has a free slot; or there is none.
        Everybody else who is pending still waits, in the same order. */
    ghost predicate Woke(before: map<Key, seq<Waiter>>, done: set<Waiter>, woken: Option<Waiter>)
      reads this`acquired, this`acquiredPerHost, this`doneWaiters, this`waiters
    {
      && AllWaiting(before, waiters, doneWaiters)
      && match woken
      case Some(w) =>
        && w !in done && doneWaiters == done + {w}
        && exists k | k in before && AvailableConnections(k) > 0 :: FirstPending(before[k], done) == Some(w)
      case None =>
        && doneWaiters == done
        && forall k | k in before && AvailableConnections(k) > 0 :: FirstPending(before[k], done) == None
    }

    /** Where only one host is waited for, its first pending waiter is woken. */
    lemma WokeOnly(before: map<Key, seq<Waiter>>, done: set<Waiter>, woken: Option<Waiter>, key: Key)
      requires Woke(before, done, woken) && before.Keys == {key} && AvailableConnections(key) > 0
      ensures woken == FirstPending(before[key], done) && waiters.Keys == {key}
      ensures StillWaiting(before[key], waiters[key], doneWaiters)
      ensures doneWaiters == if woken.Some? then done + {woken.value} else done
    {
    }

    /** Those in front who are done leave a queue. */
    method SkipDone(all: seq<Waiter>) returns (q: seq<Waiter>)
      ensures StillWaiting(all, q, doneWaiters) && FirstPending(all, doneWaiters) == (if q == [] then None else Some(q[0]))
      ensures q != [] ==> q[0] !in doneWaiters
    {
      q := all;
      while q != [] && q[0] in doneWaiters
        invariant FirstPending(q, doneWaiters) == FirstPending(all, doneWaiters) && StillWaiting(all, q, doneWaiters)
        decreases |q|
      {
        q := q[1..];
      }
    }

    /** Wakes the first pending waiter of some host that has a free slot; the hosts are tried in any order. */
    method ReleaseWaiter() returns (woken: Option<Waiter>)
      requires Valid()
      modifies this`waiters, this`doneWaiters
      ensures Valid() && Woke(old(waiters), old(doneWaiters), woken)
    {
      hide StillWaiting, FirstPending, PoolOk;
      var rest := waiters.Keys;
      AllWait(waiters, doneWaiters);
      while rest != {}
        invariant rest <= waiters.Keys && doneWaiters == old(doneWaiters)
        invariant AllWaiting(old(waiters), waiters, doneWaiters)
        invariant forall k | k in rest :: waiters[k] == old(waiters)[k]
        invariant forall k | k in old(waiters) && k !in rest && AvailableConnections(k) > 0 ::
                    FirstPending(old(waiters)[k], doneWaiters) == None
        modifies this`waiters, this`doneWaiters
        decreases rest
      {
        var key :| key in rest;
        rest := rest - {key};
        if AvailableConnections(key) >= 1 {
          var q := SkipDone(waiters[key]);
          waiters := waiters[key := if q == [] then [] else q[1..]];
          if q != [] {
            doneWaiters := doneWaiters + {q[0]};
            WaitOn(old(waiters), waiters, key, q, old(doneWaiters));
            return Some(q[0]);
          }
        }
      }
      return None;
    }
  }

  function Queue(waiters: map<Key, seq<Waiter>>, key: Key): seq<Waiter> {
    if key in waiters then waiters[key] else []
  }

  /** `r` is what is left of the queue `q` after some waiters in front, all of them done, left it. */
  ghost predicate StillWaiting(q: seq<Waiter>, r: seq<Waiter>, done: set<Waiter>) {
    && |r| <= |q| && r == q[|q| - |r|..]
    && forall i | 0 <= i < |q| - |r| :: q[i] in done
  }

  ghost predicate AllWaiting(before: map<Key, seq<Waiter>>, after: map<Key, seq<Waiter>>, done: set<Waiter>) {
    after.Keys == before.Keys && forall k | k in before :: StillWaiting(before[k], after[k], done)
  }

  lemma AllWait(waiters: map<Key, seq<Waiter>>, done: set<Waiter>)
    ensures AllWaiting(waiters, waiters, done)
  {
  }

  /** The first pending waiter of one queue is done, and leaves it. */
  lemma WaitOn(before: map<Key, seq<Waiter>>, after: map<Key, seq<Waiter>>, key: Key, q: seq<Waiter>, done: set<Waiter>)
    requires key in before && after.Keys == before.Keys && q != [] && after[key] == q[1..]
    requires StillWaiting(before[key], q, done) && forall k | k in before && k != key :: StillWaiting(before[k], after[k], done)
    ensures AllWaiting(before, after, done + {q[0]})
  {
    forall k | k in before && k != key ensures StillWaiting(before[k], after[k], done + {q[0]}) {
      MoreDone(before[k], after[k], done, q[0]);
    }
    MoreDone(before[key], q, done, q[0]);
    assert StillWaiting(before[key], q[1..], done + {q[0]});
  }

  lemma MoreDone(q: seq<Waiter>, r: seq<Waiter>, done: set<Waiter>, w: Waiter)
    requires StillWaiting(q, r, done)
    ensures StillWaiting(q, r, done + {w})
  {
  }

  /** Nobody who is pending is forgotten. */
  lemma NobodyForgotten(q: seq<Waiter>, r: seq<Waiter>, done: set<Waiter>, w: Waiter)
    requires StillWaiting(q, r, done) && w in q && w !in done
    ensures w in r
  {
    var i :| 0 <= i < |q| && q[i] == w;
    assert r[i - (|q| - |r|)] == w;
  }

  datatype ConnectStep = Reuse(proto: Proto) | Create | Wait

  /** The first waiter of a queue that is not done. */
  function FirstPending(q: seq<Waiter>, done: set<Waiter>): Option<Waiter> {
    if q == [] then None else if q[0] !in done then Some(q[0]) else FirstPending(q[1..], done)
  }

  /** A pool of at most one connection, which is in use. */
  method OneHeld() returns (c: BaseConnector)
    ensures fresh(c) && c.Valid() && !c.closed && c.limit == 1 && c.limitPerHost == 0 && c.keepaliveTimeout == 10
    ensures !c.forceClose && c.acquired == {1} && c.conns == map[] && c.place == map[1 := Held(0)]
    ensures c.waiters == map[] && c.doneWaiters == {}
  {
    hide PoolOk, InQueue, Without, Unusable, BaseConnector.Woke;
    c := new BaseConnector(1, 0, 10, false);
    var step := c.Connect(0, 0, {}, 100, 7);
    var ok := c.Created(0, 100, 1);
    assert {100} - {100} + {1} == {1};
  }

  /** A pool of at most one connection, which is idle. */
  method OneIdle() returns (c: BaseConnector)
    ensures fresh(c) && c.Valid() && !c.closed && c.limit == 1 && c.limitPerHost == 0 && c.keepaliveTimeout == 10
    ensures c.acquired == {} && c.conns == map[0 := [Idle(1, 0)]] && c.place == map[1 := IdleAt(0)]
  {
    hide PoolOk, InQueue, Without, Unusable, BaseConnector.Woke;
    c := OneHeld();
    var woken := c.Release(0, 1, false, 0);
    assert [] + [Idle(1, 0)] == [Idle(1, 0)];
  }

  /** The limit on all connections guards only the opening of new ones: reusing an idle connection may exceed it. */
  method ReuseExceedsLimit() returns (c: BaseConnector)
    ensures fresh(c) && c.Valid() && c.limit == 1 && |c.acquired| == 2
  {
    hide PoolOk, InQueue, Without;
    c := OneIdle();
    var step := c.Connect(1, 0, {}, 101, 8);
    var ok := c.Created(1, 101, 2);
    assert Usable(c.conns[0][0], 0, 10, {1, 2});
    step := c.Connect(0, 0, {1, 2}, 102, 9);
    assert step == Reuse(1);
  }

  /** Two requests wait for the one slot. */
  method TwoQueued() returns (c: BaseConnector)
    ensures fresh(c) && c.Valid() && !c.closed && c.limit == 1 && c.limitPerHost == 0 && !c.forceClose
    ensures c.acquired == {1} && c.conns == map[] && c.place == map[1 := Held(0)]
    ensures c.waiters == map[0 := [7, 8]] && c.doneWaiters == {}
  {
    hide PoolOk, InQueue, Without, BaseConnector.Woke, StillWaiting;
    c := OneHeld();
    WithoutNone(c.place);
    assert c.AvailableConnections(0) <= 0;
    var step := c.Connect(0, 0, {1}, 100, 7);
    assert step == Wait && c.waiters == map[][0 := [] + [7]] && [] + [7] == [7];
    assert c.acquired == {1} && c.AvailableConnections(0) <= 0 && c.conns == map[];
    step := c.Connect(0, 0, {1}, 101, 8);
    assert step == Wait && c.waiters == map[0 := [7]][0 := [7] + [8]] && [7] + [8] == [7, 8];
  }

  /** The first is woken when the slot is free, takes it and gives it back: then the second one is woken. */
  method ServedInTurn() returns (first: Option<Waiter>, second: Option<Waiter>)
    ensures first == Some(7) && second == Some(8)
  {
    hide PoolOk, InQueue, Without, BaseConnector.Woke, StillWaiting, RemoveFirst;
    var c := TwoQueued();
    first := c.Release(0, 1, true, 0);
    assert c.acquired == {} && |c.acquired| == 0 && c.AvailableConnections(0) > 0;
    c.WokeOnly(map[0 := [7, 8]], {}, first, 0);
    Queued(c.waiters, {7});
    assert c.conns == map[] && c.place == map[];
    second := ServedNext(c);
  }

  /** The request that was woken takes its turn. */
  method ServedNext(c: BaseConnector) returns (second: Option<Waiter>)
    requires c.Valid() && !c.closed && c.limit == 1 && c.limitPerHost == 0
    requires c.acquired == {} && c.conns == map[] && c.place == map[]
    requires c.waiters.Keys == {0} && RemoveFirst(c.waiters[0], 7) == [8] && c.doneWaiters == {7}
    modifies c
    ensures second == Some(8)
  {
    hide PoolOk, InQueue, Without, BaseConnector.Woke, StillWaiting, RemoveFirst;
    WithoutNone(c.place);
    assert |c.acquired| == 0 && c.AvailableConnections(0) > 0;
    var step := c.Woken(0, 7, 0, {}, 102, 9);
    assert step == Create && c.place == map[102 := Held(0)] && c.acquired == {102};
    assert [] + [8] == [8] && Queue(c.waiters, 0) == [8] && c.waiters - {0} == map[];
    assert forall k | k in c.waiters && k != 0 :: k in c.waiters - {0};
    assert c.waiters == map[0 := [8]];
    var ok := c.Created(0, 102, 2);
    assert c.acquired == {2} && c.place == map[2 := Held(0)];
    second := ReleaseLast(c);
  }

  method ReleaseLast(c: BaseConnector) returns (second: Option<Waiter>)
    requires c.Valid() && !c.closed && c.limit == 1 && c.limitPerHost == 0 && c.acquired == {2} && c.place == map[2 := Held(0)]
    requires c.waiters == map[0 := [8]] && c.doneWaiters == {7}
    modifies c
    ensures second == Some(8)
  {
    hide PoolOk, BaseConnector.Woke, StillWaiting;
    second := c.Release(0, 2, true, 0);
    assert c.acquired == {} && |c.acquired| == 0 && c.AvailableConnections(0) > 0;
    c.WokeOnly(map[0 := [8]], {7}, second, 0);
  }

  /** However far the queue was cleared, the second one is the only other. */
  lemma Queued(waiters: map<Key, seq<Waiter>>, done: set<Waiter>)
    requires waiters.Keys == {0} && StillWaiting([7, 8], waiters[0], done) && done == {7}
    ensures RemoveFirst(waiters[0], 7) == [8]
  {
    var r := waiters[0];
    assert forall i | 0 <= i < 2 - |r| :: [7, 8][i] in done;
    assert [7, 8][1] == 8;
    if |r| == 2 {
      assert r == [7, 8] && r[1..] == [8];
    } else {
      assert r == [8] && r[1..] == [] && RemoveFirst([], 7) == [];
    }
  }

  lemma SwapHost(perHost: map<Key, set<Proto>>, key: Key, a: Proto, b: Proto)
    requires key in perHost && a in perHost[key]
    ensures AddTo(RemoveFrom(perHost, key, a), key, b) == perHost[key := perHost[key] - {a} + {b}]
  {
    var s := perHost[key] - {a};
    if s == {} {
      assert s + {b} == {b} && {} + {b} == {b};
    }
  }
}
