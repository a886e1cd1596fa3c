/** Resolved hosts: a table of bounded size that hands out each host's addresses in rotation, and the protocol that lets
    one resolution serve everybody who asks for the same host. */
module DnsCache {
  import opened Bytes

  type Host = nat
  type Addr = nat
  type Waiter = nat

  // ---- rotation ----

  function Rotate(l: seq<Addr>): seq<Addr> { if l == [] then [] else l[1..] + [l[0]] }

  function Rotations(l: seq<Addr>, n: nat): (r: seq<Addr>)
    ensures |r| == |l|
  {
    if n == 0 then l else Rotate(Rotations(l, n - 1))
  }

  /** The n-th answer begins with the n-th address, counted around, and goes on in the same order. */
  lemma {:induction false} RotationsAre(l: seq<Addr>, n: nat)
    requires l != []
    ensures Rotations(l, n) == l[n % |l|..] + l[..n % |l|]
  {
    hide Rotate;
    if n == 0 {
      assert l[0..] + l[..0] == l;
      Remainder(0, 0, 0, |l|);
    } else {
      RotationsAre(l, n - 1);
      Next(n - 1, |l|);
      RotateOnce(l, (n - 1) % |l|);
    }
  }

  lemma RotateOnce(l: seq<Addr>, m: nat)
    requires m < |l|
    ensures Rotate(l[m..] + l[..m]) == if m + 1 < |l| then l[m + 1..] + l[..m + 1] else l[0..] + l[..0]
  {
    var r := l[m..] + l[..m];
    assert r[0] == l[m] && r[1..] == l[m + 1..] + l[..m];
    assert l[..m + 1] == l[..m] + [l[m]];
    if m + 1 == |l| { assert l[m + 1..] == [] && l[..m + 1] == l; }
  }

  lemma Next(n: nat, d: nat)
    requires d > 0
    ensures (n + 1) % d == if n % d + 1 < d then n % d + 1 else 0
  {
    var q, m := n / d, n % d;
    if m + 1 < d {
      Remainder(n + 1, q, m + 1, d);
    } else {
      assert (q + 1) * d == q * d + d;
      Remainder(n + 1, q + 1, 0, d);
    }
  }

  lemma Remainder(n: nat, q: int, m: nat, d: nat)
    requires n == q * d + m && m < d
    ensures n % d == m
  {
    var p, r := n / d, n % d;
    Quotients(p, r, q, m, d);
  }

  lemma Quotients(p: int, r: nat, q: int, m: nat, d: nat)
    requires p * d + r == q * d + m && r < d && m < d
    ensures r == m
  {
    AtLeast(p - q, d);
    AtLeast(q - p, d);
    assert (p - q) * d == p * d - q * d && (q - p) * d == q * d - p * d;
  }

  lemma AtLeast(e: int, d: nat)
    ensures e > 0 ==> e * d >= d
  {
    if e > 0 {
      assert e * d == (e - 1) * d + d;
    }
  }

  /** A list that is gone through around and around, and how many of its addresses were taken. */
  datatype Loop = Loop(items: seq<Addr>, pos: nat)

  /** The next addresses of a loop, as many as it has. */
  function Turn(c: Loop): (r: seq<Addr>)
    ensures |r| == |c.items|
  {
    seq(|c.items|, i requires 0 <= i < |c.items| => c.items[(c.pos + i) % |c.items|])
  }

  /** One answer takes one address more than it gives. */
  function Taken(answers: nat, length: nat): nat { answers * (length + 1) }

  lemma TakenNext(answers: nat, length: nat)
    ensures Taken(answers + 1, length) == Taken(answers, length) + length + 1
  {
  }

  /** Thus each answer is the one before, rotated by one. */
  lemma TurnsRotate(l: seq<Addr>, n: nat)
    ensures Turn(Loop(l, Taken(n, |l|))) == Rotations(l, n)
  {
    hide Rotations;
    if l != [] {
      RotationsAre(l, n);
      forall i | 0 <= i < |l| ensures Turn(Loop(l, Taken(n, |l|)))[i] == Rotations(l, n)[i] {
        TurnAt(n, i, |l|);
      }
    }
  }

  lemma FirstTurn(l: seq<Addr>)
    ensures Turn(Loop(l, 0)) == l
  {
    TurnsRotate(l, 0);
    assert Taken(0, |l|) == 0;
  }

  lemma TurnAt(n: nat, i: nat, d: nat)
    requires i < d
    ensures (Taken(n, d) + i) % d == if n % d + i < d then n % d + i else n % d + i - d
  {
    hide Taken;
    var q, m := n / d, n % d;
    TakenAt(n, i, d, q, m);
    if m + i < d { Remainder(Taken(n, d) + i, n + q, m + i, d); } else { Remainder(Taken(n, d) + i, n + q + 1, m + i - d, d); }
  }

  lemma TakenAt(n: nat, i: nat, d: nat, q: nat, m: nat)
    requires n == q * d + m
    ensures Taken(n, d) + i == (n + q) * d + (m + i) == (n + q + 1) * d + (m + i - d)
  {
    assert (n + q) * d == n * d + q * d;
    assert (n + q + 1) * d == (n + q) * d + d;
    assert n * (d + 1) == n * d + n;
  }

  /** Takes the next `n` addresses of a loop. */
  method Take(c: Loop, n: nat) returns (r: seq<Addr>, rest: Loop)
    requires c.items != []
    ensures rest == Loop(c.items, c.pos + n) && |r| == n && (n == |c.items| ==> r == Turn(c))
  {
    r, rest := [], c;
    while |r| < n
      invariant |r| <= n && rest == Loop(c.items, c.pos + |r|)
      invariant forall i | 0 <= i < |r| :: r[i] == c.items[(c.pos + i) % |c.items|]
      decreases n - |r|
    {
      r := r + [c.items[rest.pos % |c.items|]];
      rest := rest.(pos := rest.pos + 1);
    }
  }

  // ---- the table ----

  /** The hosts of the table, each once. */
  ghost predicate Lists(order: seq<Host>, hosts: set<Host>) {
    && (forall i, j | 0 <= i < j < |order| :: order[i] != order[j])
    && (forall h :: h in order <==> h in hosts)
  }

  /** The hosts are in the order in which they were used, the least recently used one first. */
  ghost predicate ByUse(order: seq<Host>, lastUse: map<Host, nat>, clock: nat) {
    && (forall h | h in order :: h in lastUse && lastUse[h] < clock)
    && (forall i, j | 0 <= i < j < |order| :: lastUse[order[i]] < lastUse[order[j]])
  }

  ghost predicate InRotation(addrs: map<Host, Loop>, added: map<Host, seq<Addr>>, answers: map<Host, nat>) {
    forall h | h in addrs :: h in added && h in answers && addrs[h] == Loop(added[h], Taken(answers[h], |added[h]|))
  }

  lemma {:induction false} DropLists(order: seq<Host>, hosts: set<Host>, h: Host)
    requires Lists(order, hosts)
    ensures Lists(RemoveFirst(order, h), hosts - {h}) && |RemoveFirst(order, h)| == |order| - if h in hosts then 1 else 0
  {
    if order != [] {
      assert order == [order[0]] + order[1..];
      assert order[0] in order;
      DropLists(order[1..], hosts - {order[0]}, h);
      if order[0] != h { assert hosts - {h} == (hosts - {order[0]} - {h}) + {order[0]}; }
    }
  }

  lemma {:induction false} DropByUse(order: seq<Host>, lastUse: map<Host, nat>, clock: nat, h: Host)
    requires ByUse(order, lastUse, clock)
    ensures ByUse(RemoveFirst(order, h), lastUse, clock) && forall x | x in RemoveFirst(order, h) :: x in order
  {
    hide ByUse;
    if order != [] {
      assert order == [order[0]] + order[1..];
      ByUseCons(order[0], order[1..], lastUse, clock);
      DropByUse(order[1..], lastUse, clock, h);
      ByUseCons(order[0], RemoveFirst(order[1..], h), lastUse, clock);
    }
  }

  lemma ByUseCons(x: Host, rest: seq<Host>, lastUse: map<Host, nat>, clock: nat)
    ensures ByUse([x] + rest, lastUse, clock) <==>
              && ByUse(rest, lastUse, clock) && x in lastUse && lastUse[x] < clock
              && forall y | y in rest :: y in lastUse && lastUse[x] < lastUse[y]
  {
    var all := [x] + rest;
    if ByUse(all, lastUse, clock) {
      assert all[0] in all && forall y | y in rest :: y in all;
      forall y | y in rest ensures lastUse[x] < lastUse[y] {
        var j :| 0 <= j < |rest| && rest[j] == y;
        assert all[j + 1] == y;
      }
      forall i, j | 0 <= i < j < |rest| ensures lastUse[rest[i]] < lastUse[rest[j]] {
        assert all[i + 1] == rest[i] && all[j + 1] == rest[j];
      }
    }
  }

  /** What was used just now goes to the end. */
  lemma UseNow(order: seq<Host>, hosts: set<Host>, lastUse: map<Host, nat>, clock: nat, h: Host)
    requires Lists(order, hosts) && ByUse(order, lastUse, clock)
    ensures Lists(RemoveFirst(order, h) + [h], hosts + {h}) && ByUse(RemoveFirst(order, h) + [h], lastUse[h := clock], clock + 1)
    ensures |RemoveFirst(order, h) + [h]| == |order| + if h in hosts then 0 else 1
  {
    DropLists(order, hosts, h);
    DropByUse(order, lastUse, clock, h);
  }

  /** The one that is evicted was used before all that stay. */
  lemma Evict(order: seq<Host>, hosts: set<Host>, lastUse: map<Host, nat>, clock: nat)
    requires order != [] && Lists(order, hosts) && ByUse(order, lastUse, clock)
    ensures Lists(order[1..], hosts - {order[0]}) && ByUse(order[1..], lastUse, clock)
    ensures order[0] in lastUse && forall x | x in order[1..] :: x in lastUse && lastUse[order[0]] < lastUse[x]
  {
    assert order == [order[0]] + order[1..];
  }

  /** What happened to the table: the lists that were added, and when, how many answers each host gave since, when it was used. */
  datatype Log = Log(added: map<Host, seq<Addr>>, since: map<Host, int>, answers: map<Host, nat>, lastUse: map<Host, nat>, clock: nat)

  ghost function Added(g: Log, h: Host, l: seq<Addr>, now: int): Log {
    Log(g.added[h := l], g.since[h := now], g.answers[h := 0], g.lastUse[h := g.clock], g.clock + 1)
  }

  ghost function Answered(g: Log, h: Host): Log
    requires h in g.answers
  {
    g.(answers := g.answers[h := g.answers[h] + 1], lastUse := g.lastUse[h := g.clock], clock := g.clock + 1)
  }

  ghost predicate TableOk(order: seq<Host>, addrs: map<Host, Loop>, g: Log) {
    && Lists(order, addrs.Keys)
    && ByUse(order, g.lastUse, g.clock)
    && InRotation(addrs, g.added, g.answers)
  }

  /** Exactly these hosts have a time, the one at which they were added. */
  ghost predicate Stamped(timestamps: map<Host, int>, hosts: set<Host>, since: map<Host, int>) {
    timestamps.Keys == hosts && forall h | h in timestamps :: h in since && timestamps[h] == since[h]
  }

  lemma StampAdded(timestamps: map<Host, int>, hosts: set<Host>, since: map<Host, int>, h: Host, now: int)
    requires Stamped(timestamps, hosts, since)
    ensures Stamped(timestamps[h := now], hosts + {h}, since[h := now])
    ensures h !in timestamps ==> Stamped(timestamps, hosts, since[h := now])
  {
  }

  lemma NoneStamped(timestamps: map<Host, int>, since: map<Host, int>, h: Host)
    requires Stamped(timestamps, {}, since)
    ensures h !in timestamps
  {
  }

  lemma StampRemoved(timestamps: map<Host, int>, hosts: set<Host>, since: map<Host, int>, h: Host)
    requires Stamped(timestamps, hosts, since)
    ensures Stamped(timestamps - {h}, hosts - {h}, since)
  {
  }

  lemma AddOk(order: seq<Host>, addrs: map<Host, Loop>, g: Log, h: Host, l: seq<Addr>, now: int)
    requires TableOk(order, addrs, g)
    ensures TableOk(RemoveFirst(order, h) + [h], addrs[h := Loop(l, 0)], Added(g, h, l, now))
    ensures |RemoveFirst(order, h) + [h]| == |order| + if h in addrs then 0 else 1
  {
    hide RemoveFirst, Lists, ByUse;
    UseNow(order, addrs.Keys, g.lastUse, g.clock, h);
    assert addrs[h := Loop(l, 0)].Keys == addrs.Keys + {h};
  }

  lemma EvictOk(order: seq<Host>, addrs: map<Host, Loop>, g: Log)
    requires TableOk(order, addrs, g) && order != []
    ensures TableOk(order[1..], addrs - {order[0]}, g)
    ensures order[0] in g.lastUse && forall x | x in order[1..] :: x in g.lastUse && g.lastUse[order[0]] < g.lastUse[x]
  {
    hide Lists, ByUse;
    Evict(order, addrs.Keys, g.lastUse, g.clock);
    assert (addrs - {order[0]}).Keys == addrs.Keys - {order[0]};
  }

  lemma AnswerOk(order: seq<Host>, addrs: map<Host, Loop>, g: Log, h: Host, rest: Loop)
    requires TableOk(order, addrs, g) && h in addrs && rest == Loop(addrs[h].items, addrs[h].pos + |addrs[h].items| + 1)
    ensures h in g.answers && h in g.added && Turn(addrs[h]) == Rotations(g.added[h], g.answers[h])
    ensures TableOk(RemoveFirst(order, h) + [h], addrs[h := rest], Answered(g, h))
    ensures |RemoveFirst(order, h) + [h]| == |order|
  {
    hide RemoveFirst, Lists, ByUse, Taken, Turn, Rotations;
    TurnsRotate(g.added[h], g.answers[h]);
    TakenNext(g.answers[h], |g.added[h]|);
    UseNow(order, addrs.Keys, g.lastUse, g.clock, h);
    assert addrs[h := rest].Keys == addrs.Keys == addrs.Keys + {h};
  }

  lemma RemoveOk(order: seq<Host>, addrs: map<Host, Loop>, g: Log, h: Host)
    requires TableOk(order, addrs, g)
    ensures TableOk(RemoveFirst(order, h), addrs - {h}, g) && |RemoveFirst(order, h)| <= |order|
  {
    hide RemoveFirst, Lists, ByUse;
    DropLists(order, addrs.Keys, h);
    DropByUse(order, g.lastUse, g.clock, h);
    assert (addrs - {h}).Keys == addrs.Keys - {h};
  }

  class DNSCacheTable {
    const ttl: Option<int>
    const maxSize: nat
    var order: seq<Host>
    var addrs: map<Host, Loop>
    var timestamps: map<Host, int>
    ghost var log: Log

    ghost predicate Valid()
      reads this
    {
      && TableOk(order, addrs, log) && |order| <= maxSize
      && Stamped(timestamps, if ttl.Some? then addrs.Keys else {}, log.since)
    }

    /** What the table would answer. */
    function Answer(h: Host): Option<seq<Addr>>
      reads this`addrs
    {
      if h in addrs && addrs[h].items != [] then Some(Turn(addrs[h])) else None
    }

    constructor (ttl: Option<int>, maxSize: nat)
      ensures Valid() && order == [] && addrs == map[] && this.ttl == ttl && this.maxSize == maxSize
    {
      this.ttl, this.maxSize := ttl, maxSize;
      order, addrs, timestamps := [], map[], map[];
      log := Log(map[], map[], map[], map[], 0);
    }

    /** The host is the last to go; if there are too many then, the least recently used one goes. */
    method Add(h: Host, l: seq<Addr>, now: int)
      requires Valid()
      modifies this
      ensures Valid() && log == Added(old(log), h, l, now)
      ensures var all := RemoveFirst(old(order), h) + [h];
              if |all| > maxSize then
                && order == all[1..] && addrs == old(addrs)[h := Loop(l, 0)] - {all[0]}
                && all[0] in log.lastUse && forall x | x in order :: x in log.lastUse && log.lastUse[all[0]] < log.lastUse[x]
              else order == all && addrs == old(addrs)[h := Loop(l, 0)]
      ensures ttl.Some? && h in addrs ==> h in timestamps && timestamps[h] == now
    {
      hide RemoveFirst, TableOk, Stamped;
      AddOk(order, addrs, log, h, l, now);
      StampAdded(timestamps, if ttl.Some? then addrs.Keys else {}, log.since, h, now);
      if ttl.Some? { timestamps := timestamps[h := now]; } else { NoneStamped(timestamps, log.since, h); }
      order := RemoveFirst(order, h) + [h];
      assert addrs[h := Loop(l, 0)].Keys == addrs.Keys + {h};
      addrs := addrs[h := Loop(l, 0)];
      log := Added(log, h, l, now);
      if |order| > maxSize {
        EvictOk(order, addrs, log);
        StampRemoved(timestamps, if ttl.Some? then addrs.Keys else {}, log.since, order[0]);
        assert (addrs - {order[0]}).Keys == addrs.Keys - {order[0]} && {} - {order[0]} == {};
        addrs := addrs - {order[0]};
        timestamps := timestamps - {order[0]};
        order := order[1..];
      }
    }

    method Remove(h: Host)
      requires Valid()
      modifies this`order, this`addrs, this`timestamps
      ensures Valid() && order == RemoveFirst(old(order), h) && addrs == old(addrs) - {h}
    {
      hide RemoveFirst, TableOk;
      RemoveOk(order, addrs, log, h);
      order := RemoveFirst(order, h);
      addrs := addrs - {h};
      timestamps := timestamps - {h};
    }

    /** The addresses, rotated by one more than the last time; it is an error if there are none. */
    method NextAddrs(h: Host) returns (r: Option<seq<Addr>>)
      requires Valid()
      modifies this`order, this`addrs, this`log
      ensures Valid() && addrs.Keys == old(addrs).Keys && r == old(Answer(h))
      ensures if r.Some? then
                && h in log.added && h in old(log).answers && log == Answered(old(log), h)
                && r.value == Rotations(log.added[h], old(log).answers[h])
                && order == RemoveFirst(old(order), h) + [h]
              else unchanged(this)
    {
      hide RemoveFirst, Rotations, TableOk, Turn;
      if h !in addrs { return None; }
      var length := |addrs[h].items|;
      if length == 0 { return None; }
      var l, rest := Take(addrs[h], length);
      rest := rest.(pos := rest.pos + 1);
      AnswerOk(order, addrs, log, h, rest);
      order := RemoveFirst(order, h) + [h];
      addrs := addrs[h := rest];
      log := Answered(log, h);
      return Some(l);
    }

    predicate Expired(h: Host, now: int)
      requires ttl.Some? ==> h in timestamps
      reads this
    {
      ttl.Some? && timestamps[h] + ttl.value < now
    }
  }

  // ---- one resolution for all who ask ----

  datatype Answer = Hit(addrs: Option<seq<Addr>>) | Waits | Resolves

  datatype Outcome = Resolved(addrs: seq<Addr>) | Failed(error: nat)

  /** At most one resolution of each host is under way, and whoever waits for a host waits for one that is, or was told. */
  ghost predicate Served(futures: map<Host, set<Waiter>>, done: map<Waiter, Option<nat>>, running: multiset<Host>,
                         asked: map<Waiter, Host>) {
    && (forall h :: running[h] == if h in futures then 1 else 0)
    && (forall h, w | h in futures && w in futures[h] :: w !in done && w in asked && asked[w] == h)
    && (forall w | w in asked :: w in done || (asked[w] in futures && w in futures[asked[w]]))
  }

  class Throttle {
    const table: DNSCacheTable
    var futures: map<Host, set<Waiter>>     // who waits for a resolution that is under way
    var done: map<Waiter, Option<nat>>      // who was told: that it succeeded, or the error

    ghost var running: multiset<Host>       // the resolutions that are under way
    ghost var asked: map<Waiter, Host>      // everybody who was made to wait and has not left

    ghost predicate Valid()
      reads this, table
    {
      table.Valid() && Served(futures, done, running, asked)
    }

    constructor (ttl: Option<int>, maxSize: nat)
      ensures Valid() && futures == map[] && fresh(table)
    {
      table := new DNSCacheTable(ttl, maxSize);
      futures, done, running, asked := map[], map[], multiset{}, map[];
    }

    /** Somebody asks: the table answers, or a resolution that is under way will, or a new one is begun. */
    method ResolveHost(h: Host, now: int, w: Waiter) returns (r: Answer)
      requires Valid() && w !in asked && w !in done
      modifies this, table
      ensures Valid() && done == old(done)
      ensures r.Hit? <==> h in old(table.addrs) && (table.ttl.Some? ==> now <= old(table.log.since)[h] + table.ttl.value)
      ensures match r
              case Hit(l) =>
                && futures == old(futures) && running == old(running) && asked == old(asked)
                && l == old(table.Answer(h))
              case Waits =>
                && h in old(futures) && futures == old(futures)[h := old(futures)[h] + {w}]
                && running == old(running) && asked == old(asked)[w := h]
              case Resolves =>
                && h !in old(futures) && futures == old(futures)[h := {}]
                && running == old(running) + multiset{h} && asked == old(asked)
    {
      hide Served, TableOk, RemoveFirst, Rotations;
      if h in table.addrs && !table.Expired(h, now) {
        var l := table.NextAddrs(h);
        return Hit(l);
      }
      if h in futures {
        Join(h, w);
        return Waits;
      }
      Begin(h);
      return Resolves;
    }

    method Join(h: Host, w: Waiter)
      requires Served(futures, done, running, asked) && h in futures && w !in asked && w !in done
      modifies this`futures, this`asked
      ensures Served(futures, done, running, asked)
      ensures futures == old(futures)[h := old(futures)[h] + {w}] && asked == old(asked)[w := h]
    {
      futures := futures[h := futures[h] + {w}];
      asked := asked[w := h];
    }

    method Begin(h: Host)
      requires Served(futures, done, running, asked) && h !in futures
      modifies this`futures, this`running
      ensures Served(futures, done, running, asked)
      ensures futures == old(futures)[h := {}] && running == old(running) + multiset{h}
    {
      futures := futures[h := {}];
      running := running + multiset{h};
    }

    /** The resolution ends: everybody who waits for it is told the same, and the next to ask may begin another. */
    method Finish(h: Host, outcome: Outcome, now: int) returns (r: Option<seq<Addr>>)
      requires Valid() && h in futures
      modifies this, table
      ensures Valid() && running == old(running) - multiset{h} && futures == old(futures) - {h} && asked == old(asked)
      ensures forall w | w in old(futures)[h] :: w in done && done[w] == if outcome.Failed? then Some(outcome.error) else None
      ensures forall w | w !in old(futures)[h] :: w in done <==> w in old(done)
      ensures forall w | w in old(done) && w !in old(futures)[h] :: done[w] == old(done)[w]
      ensures r == if outcome.Resolved? && table.maxSize > 0 && outcome.addrs != [] then Some(outcome.addrs) else None
      ensures outcome.Failed? ==> table.addrs == old(table.addrs)
    {
      hide Served, TableOk, Rotations, Told;
      ToldAre(done, futures[h], outcome);
      if outcome.Resolved? {
        AddAddrs(h, outcome.addrs, now);
        FirstTurn(outcome.addrs);
      }
      Tell(h, outcome);
      if outcome.Resolved? { r := table.NextAddrs(h); } else { r := None; }
    }

    method AddAddrs(h: Host, l: seq<Addr>, now: int)
      requires table.Valid()
      modifies table
      ensures table.Valid() && (h in table.addrs <==> table.maxSize > 0) && (h in table.addrs ==> table.addrs[h] == Loop(l, 0))
    {
      hide ByUse, InRotation;
      DropLists(table.order, table.addrs.Keys, h);
      ghost var all := RemoveFirst(table.order, h) + [h];
      assert |all| == |table.order| + if h in table.addrs then 0 else 1;
      assert table.maxSize > 0 ==> |all| > 1 || |all| <= table.maxSize;
      assert |all| > 1 ==> all[0] in RemoveFirst(table.order, h);
      table.Add(h, l, now);
    }

    method Tell(h: Host, outcome: Outcome)
      requires Served(futures, done, running, asked) && h in futures
      modifies this`futures, this`done, this`running
      ensures Served(futures, done, running, asked)
      ensures running == old(running) - multiset{h} && futures == old(futures) - {h}
      ensures done == old(done) + Told(old(futures)[h], outcome)
    {
      done := done + Told(futures[h], outcome);
      futures := futures - {h};
      running := running - multiset{h};
    }

    /** Somebody who waited goes on, and takes an answer from the table if the host is still there; or gives up. */
    method Resume(h: Host, w: Waiter) returns (r: Option<seq<Addr>>)
      requires Valid() && w in asked && asked[w] == h
      modifies this, table
      ensures Valid() && asked == old(asked) - {w} && running == old(running) && done == old(done)
      ensures r == if w in done && done[w] == None then old(table.Answer(h)) else None
      ensures r.Some? ==> h in old(table.log).answers && table.log == Answered(old(table.log), h)
      ensures r.None? ==> unchanged(table)
      ensures futures == if h in old(futures) then old(futures)[h := old(futures)[h] - {w}] else old(futures)
    {
      hide Served, TableOk, RemoveFirst, Rotations;
      Leave(h, w);
      if w !in done || done[w] != None { return None; }
      r := table.NextAddrs(h);
    }

    method Leave(h: Host, w: Waiter)
      requires Served(futures, done, running, asked) && w in asked && asked[w] == h
      modifies this`futures, this`asked
      ensures Served(futures, done, running, asked) && asked == old(asked) - {w}
      ensures futures == if h in old(futures) then old(futures)[h := old(futures)[h] - {w}] else old(futures)
    {
      asked := asked - {w};
      if h in futures { futures := futures[h := futures[h] - {w}]; }
    }
  }

  /** Everybody who waits is told that it succeeded, or the one error. */
  function Told(ws: set<Waiter>, outcome: Outcome): map<Waiter, Option<nat>> {
    map w | w in ws :: match outcome case Resolved(_) => None case Failed(e) => Some(e)
  }

  lemma ToldAre(done: map<Waiter, Option<nat>>, ws: set<Waiter>, outcome: Outcome)
    ensures var after := done + Told(ws, outcome);
            && (forall w | w in ws :: w in after && after[w] == if outcome.Failed? then Some(outcome.error) else None)
            && (forall w | w !in ws :: w in after <==> w in done)
            && (forall w | w in done && w !in ws :: after[w] == done[w])
  {
  }
}
