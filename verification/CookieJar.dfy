/** The cookie jar, with its cache of built cookies and its lazily cleaned heap of deadlines. */
module CookieJar {
  import opened Bytes
  import opened CookieMatching
  import opened CookieLookup
  import opened CookieStore

  const MIN_SCHEDULED_COOKIE_EXPIRATION: nat := 100

  /** A scheduled deadline; stale if the cookie has another deadline by now. */
  datatype Entry = Entry(when: int, key: CookieStore.Key)

  type Cache = map<Where, map<Text, Sent>>

  /** What is cached is what would be built; for the shared cookies only as long as they are stored under their own names. */
  ghost predicate Coherent(cache: Cache, cookies: Jar, style: Style, renamed: bool) {
    && (forall w, n | w in cache && n in cache[w] && (w == SHARED ==> !renamed) ::
          w in cookies && n in cookies[w] && cache[w][n] == Build(style, cookies[w][n]))
    && (!renamed ==> forall n | n in CookiesAt(cookies, SHARED) :: cookies[SHARED][n].key == n)
  }

  /** Every deadline is scheduled. */
  ghost predicate Scheduled(expirations: map<CookieStore.Key, int>, heap: multiset<Entry>) {
    forall k | k in expirations :: Entry(expirations[k], k) in heap
  }

  predicate Matches(expirations: map<CookieStore.Key, int>, e: Entry) {
    e.key in expirations && expirations[e.key] == e.when
  }

  lemma NoneScheduled(expirations: map<CookieStore.Key, int>, heap: multiset<Entry>, now: int)
    requires |heap| == 0 && Scheduled(expirations, heap)
    ensures Due(expirations, now) == {}
  {
  }

  /** Without its stale entries the heap still has every deadline. */
  lemma MatchingStay(expirations: map<CookieStore.Key, int>, heap: multiset<Entry>)
    requires Scheduled(expirations, heap)
    ensures forall kept: multiset<Entry> :: (forall e :: kept[e] == if Matches(expirations, e) then heap[e] else 0) ==>
              Scheduled(expirations, kept) && forall e | e in kept :: Matches(expirations, e)
  {
  }

  /** Entries that are not due match the deadlines that are left, if they matched before. */
  lemma StillMatch(expirations: map<CookieStore.Key, int>, heap: multiset<Entry>, now: int)
    requires forall e | e in heap :: e.when > now
    ensures var left := Delete(State(map[], {}, expirations), Due(expirations, now)).expirations;
            (forall e | e in heap :: Matches(expirations, e)) ==> forall e | e in heap :: Matches(left, e)
  {
  }

  lemma {:induction false} EarliestExists(heap: multiset<Entry>)
    requires |heap| > 0
    ensures exists e :: e in heap && forall f | f in heap :: e.when <= f.when
    decreases |heap|
  {
    var e :| e in heap;
    var rest := heap - multiset{e};
    if |rest| > 0 {
      EarliestExists(rest);
      var d :| d in rest && forall f | f in rest :: d.when <= f.when;
      var m := if d.when <= e.when then d else e;
      assert m in heap && forall f | f in heap :: m.when <= f.when;
    } else {
      assert rest == multiset{} && heap == rest + multiset{e};
    }
  }

  lemma DeleteCoherent(cache: Cache, s: State, style: Style, renamed: bool, ks: set<CookieStore.Key>)
    requires Coherent(cache, s.cookies, style, renamed)
    ensures Coherent(Without(cache, ks), Delete(s, ks).cookies, style, renamed)
  {
  }

  function CachedAt(cache: Cache, w: Where): map<Text, Sent> {
    if w in cache then cache[w] else map[]
  }

  /** The cache after one cookie was set: the cookie is dropped from it unless the same one was stored. */
  function Refresh(cache: Cache, cookies: Jar, w: Where, name: Text, c: Morsel): Cache {
    if w in cache && !(w in cookies && name in cookies[w] && cookies[w][name] == c) then cache[w := cache[w] - {name}]
    else cache
  }

  lemma RefreshCoherent(cache: Cache, cookies: Jar, style: Style, renamed: bool, w: Where, name: Text, c: Morsel)
    requires Coherent(cache, cookies, style, renamed)
    ensures Coherent(Refresh(cache, cookies, w, name, c), Put(cookies, w, name, c), style,
                     renamed || (w == SHARED && c.key != name))
  {
    hide Build;
    if w in cookies && name in cookies[w] && cookies[w][name] == c {
      assert cookies[w][name := c] == cookies[w] && cookies[w := cookies[w]] == cookies;
    } else {
      var cache1, cookies1 := Refresh(cache, cookies, w, name, c), Put(cookies, w, name, c);
      forall v, n | v in cache1 && n in cache1[v]
        ensures v in cache && n in cache[v] && cache1[v][n] == cache[v][n] && (v != w || n != name) {
      }
      assert forall v, n | v in cookies && n in cookies[v] && (v != w || n != name) ::
          v in cookies1 && n in cookies1[v] && cookies1[v][n] == cookies[v][n];
    }
  }

  function RefreshAll(cache: Cache, s: State, cs: seq<(Text, Morsel)>, from: Origin, now: int): Cache {
    if cs == [] then cache else
    var front, (name, c) := cs[..|cs| - 1], cs[|cs| - 1];
    var before := RefreshAll(cache, s, front, from, now);
    if Rejected(c, from) then before
    else Refresh(before, StoreAll(s, front, from, now).cookies, PlaceOf(c, from), name, Normal(c, from))
  }

  /** A shared cookie is stored under a name that is not its own. */
  predicate Renames(name: Text, c: Morsel, from: Origin) {
    !Rejected(c, from) && PlaceOf(c, from) == SHARED && c.key != name
  }

  /** A shared cookie, stored under the name `n`, whose own key no other shared cookie has. */
  ghost predicate Alone(cookies: Jar, n: Text) {
    var here := CookiesAt(cookies, SHARED);
    n in here && forall o | o in here && o != n :: here[o].key != here[n].key
  }

  /** What is sent of a shared cookie: whatever is cached under its own key. */
  function SharedSent(at: map<Text, Sent>, style: Style, c: Morsel): Sent {
    if c.key in at then at[c.key] else Build(style, c)
  }

  /** What is sent of each shared cookie, given the cache beforehand, unless a cookie of a host goes by its key. */
  ghost predicate SharedGo(cookies: Jar, style: Style, cache: Cache, found: map<Text, Sent>, filtered: map<Text, Sent>) {
    forall n | Alone(cookies, n) ::
      var c := cookies[SHARED][n];
      c.key !in found ==> c.key in filtered && filtered[c.key] == SharedSent(CachedAt(cache, SHARED), style, c)
  }

  /** What was sent of each shared cookie is cached. */
  ghost predicate SharedCached(cookies: Jar, style: Style, cache: Cache, after: Cache) {
    forall n | Alone(cookies, n) ::
      var c := cookies[SHARED][n];
      c.key in CachedAt(after, SHARED) && CachedAt(after, SHARED)[c.key] == SharedSent(CachedAt(cache, SHARED), style, c)
  }

  /** The shared cookies but for those in `rest` are cached and chosen. */
  ghost predicate Sharing(cookies: Jar, style: Style, rest: set<Text>, at0: map<Text, Sent>, at: map<Text, Sent>,
                          filtered: map<Text, Sent>) {
    forall n | Alone(cookies, n) ::
      var c := cookies[SHARED][n];
      if n in rest then SharedSent(at, style, c) == SharedSent(at0, style, c)
      else c.key in filtered && c.key in at && filtered[c.key] == at[c.key] == SharedSent(at0, style, c)
  }

  lemma SharingNext(cookies: Jar, style: Style, rest: set<Text>, n: Text, at0: map<Text, Sent>, at: map<Text, Sent>, m: Sent,
                    filtered: map<Text, Sent>)
    requires Sharing(cookies, style, rest, at0, at, filtered) && n in rest && n in CookiesAt(cookies, SHARED)
    requires m == SharedSent(at, style, cookies[SHARED][n])
    ensures var k := cookies[SHARED][n].key;
            Sharing(cookies, style, rest - {n}, at0, at[k := m], filtered[k := m])
  {
    hide Build;
  }

  lemma SharingNothing(cookies: Jar, style: Style, at0: map<Text, Sent>)
    ensures Sharing(cookies, style, CookiesAt(cookies, SHARED).Keys, at0, at0, map[])
  {
  }

  lemma SharingDone(cookies: Jar, style: Style, cache: Cache, after: Cache, filtered: map<Text, Sent>)
    requires Sharing(cookies, style, {}, CachedAt(cache, SHARED), CachedAt(after, SHARED), filtered)
    ensures SharedGo(cookies, style, cache, map[], filtered) && SharedCached(cookies, style, cache, after)
  {
  }

  lemma OwnNames(cache: Cache, cookies: Jar, style: Style, renamed: bool)
    requires Coherent(cache, cookies, style, renamed)
    ensures !renamed ==> forall n | n in CookiesAt(cookies, SHARED) :: CookiesAt(cookies, SHARED)[n].key == n
  {
  }

  lemma CachedCoherent(cache: Cache, cookies: Jar, style: Style, renamed: bool, w: Where, n: Text, c: Morsel, name: Text)
    requires Coherent(cache, cookies, style, renamed)
    requires w in cookies && name in cookies[w] && cookies[w][name] == c && n in {name, if w == SHARED then c.key else name}
    ensures w in cache && n in cache[w] && (!renamed || w != SHARED) ==> cache[w][n] == Build(style, c)
    ensures Coherent(Put(cache, w, n, Build(style, c)), cookies, style, renamed)
  {
    hide Build;
  }

  function KeySet(ks: seq<CookieStore.Key>): set<CookieStore.Key> { set k | k in ks }

  class CookieJar {
    const unsafe: bool
    const style: Style
    var cookies: Jar
    var hostOnlyCookies: set<(Text, Text)>
    var expirations: map<CookieStore.Key, int>
    var morselCache: Cache
    var expireHeap: multiset<Entry>

    ghost var renamed: bool   // a shared cookie was stored under a name that is not its own

    ghost function Contents(): State
      reads this
    {
      State(cookies, hostOnlyCookies, expirations)
    }

    ghost predicate Valid()
      reads this
    {
      && WellKept(cookies)
      && Scheduled(expirations, expireHeap)
      && Coherent(morselCache, cookies, style, renamed)
    }

    constructor (unsafe: bool, style: Style)
      ensures Valid() && Contents() == State(map[], {}, map[]) && !renamed
      ensures this.unsafe == unsafe && this.style == style && morselCache == map[]
    {
      this.unsafe, this.style := unsafe, style;
      cookies, hostOnlyCookies, expirations := map[], {}, map[];
      morselCache, expireHeap, renamed := map[], multiset{}, false;
    }

    // ---- expiry ----

    /** The heap gives the same as a scan of all deadlines: exactly the cookies whose deadline has come are removed. */
    method DoExpiration(now: int)
      requires Valid()
      modifies this
      ensures Valid() && Contents() == Expire(old(Contents()), now) && renamed == old(renamed)
      ensures morselCache == Without(old(morselCache), Due(old(expirations), now))
      ensures old(|expireHeap| > 100 && |expireHeap| > 2 * |expirations|) ==> forall e | e in expireHeap :: Matches(expirations, e)
    {
      hide Coherent, WellKept, Without, Matches, Scheduled;
      ghost var s := Contents();
      DeleteNothing(s);
      WithoutNothing(morselCache);
      if |expireHeap| == 0 {
        NoneScheduled(s.expirations, expireHeap, now);
        return;
      }
      if |expireHeap| > MIN_SCHEDULED_COOKIE_EXPIRATION && |expireHeap| > |expirations| * 2 {
        MatchingStay(expirations, expireHeap);
        Compact();
      }
      var toDel := PopDue(now);
      assert Contents() == s && Due(s.expirations, now) == KeySet(toDel);
      if toDel == [] {
        assert KeySet(toDel) == {};
        return;
      }
      StillMatch(expirations, expireHeap, now);
      DeleteCookies(toDel);
    }

    /** Stale entries leave the heap. */
    method Compact()
      modifies this`expireHeap
      ensures forall e :: expireHeap[e] == if Matches(expirations, e) then old(expireHeap)[e] else 0
    {
      var kept: multiset<Entry> := multiset{};
      var rest := expireHeap;
      while |rest| > 0
        invariant forall e :: rest[e] <= expireHeap[e]
        invariant forall e :: kept[e] == if Matches(expirations, e) then expireHeap[e] - rest[e] else 0
        decreases |rest|
      {
        var e :| e in rest;
        rest := rest - multiset{e};
        if Matches(expirations, e) { kept := kept + multiset{e}; }
      }
      expireHeap := kept;
    }

    /** The entries that are due leave the heap; those that are not stale name the cookies to delete. */
    method PopDue(now: int) returns (toDel: seq<CookieStore.Key>)
      requires Scheduled(expirations, expireHeap)
      modifies this`expireHeap
      ensures forall k :: k in toDel <==> k in Due(expirations, now)
      ensures forall k | k in expirations && k !in toDel :: Entry(expirations[k], k) in expireHeap
      ensures forall e | e in expireHeap :: e in old(expireHeap) && e.when > now
      ensures toDel == [] ==> Scheduled(expirations, expireHeap)
    {
      toDel := [];
      while |expireHeap| > 0
        invariant forall k | k in toDel :: k in Due(expirations, now)
        invariant forall e | e in expireHeap :: e in old(expireHeap)
        invariant forall k | k in expirations && k !in toDel :: Entry(expirations[k], k) in expireHeap
        decreases |expireHeap|
      {
        EarliestExists(expireHeap);
        var e :| e in expireHeap && forall f | f in expireHeap :: e.when <= f.when;
        if e.when > now { break; }
        expireHeap := expireHeap - multiset{e};
        if Matches(expirations, e) { toDel := toDel + [e.key]; }
      }
    }

    method DeleteCookies(toDel: seq<CookieStore.Key>)
      requires WellKept(cookies) && Coherent(morselCache, cookies, style, renamed)
      requires forall k | k in expirations && k !in toDel :: Entry(expirations[k], k) in expireHeap
      modifies this`cookies, this`hostOnlyCookies, this`expirations, this`morselCache
      ensures Valid() && Contents() == Delete(old(Contents()), KeySet(toDel))
      ensures morselCache == Without(old(morselCache), KeySet(toDel))
    {
      ghost var keys := KeySet(toDel);
      DeleteCoherent(morselCache, Contents(), style, renamed, keys);
      DeleteKeeps(Contents(), keys);
      DeleteEach(toDel);
    }

    method DeleteEach(toDel: seq<CookieStore.Key>)
      modifies this`cookies, this`hostOnlyCookies, this`expirations, this`morselCache
      ensures Contents() == Delete(old(Contents()), KeySet(toDel))
      ensures morselCache == Without(old(morselCache), KeySet(toDel))
    {
      hide Without;
      ghost var done: set<CookieStore.Key> := {};
      DeleteNothing(Contents());
      WithoutNothing(morselCache);
      for i := 0 to |toDel|
        invariant done == KeySet(toDel[..i])
        invariant Contents() == Delete(old(Contents()), done)
        invariant morselCache == Without(old(morselCache), done)
      {
        var k := toDel[i];
        DeleteMore(old(Contents()), done, k);
        WithoutMore(old(morselCache), done, k);
        DeleteCookie(k);
        assert toDel[..i + 1] == toDel[..i] + [k];
        done := done + {k};
      }
      assert toDel[..|toDel|] == toDel;
    }

    method DeleteCookie(k: CookieStore.Key)
      modifies this`cookies, this`hostOnlyCookies, this`expirations, this`morselCache
      ensures Contents() == Delete(old(Contents()), {k}) && morselCache == Without(old(morselCache), {k})
    {
      hostOnlyCookies := hostOnlyCookies - {(k.domain, k.name)};
      cookies := Without(cookies, {k});
      morselCache := Without(morselCache, {k});
      expirations := expirations - {k};
    }

    /** A deadline is scheduled, unless it is the one the cookie has already. */
    method ExpireCookie(when: int, k: CookieStore.Key)
      requires Scheduled(expirations, expireHeap)
      modifies this`expireHeap, this`expirations
      ensures Scheduled(expirations, expireHeap) && expirations == old(expirations)[k := when]
    {
      if k in expirations && expirations[k] == when { return; }
      expireHeap := expireHeap + multiset{Entry(when, k)};
      expirations := expirations[k := when];
    }

    // ---- setting cookies ----

    /** The cookies of a response are stored, and what is due then is removed. */
    method UpdateCookies(cs: seq<(Text, Morsel)>, from: Origin, now: int, later: int)
      requires Valid()
      modifies this
      ensures Valid()
      ensures if !unsafe && from.ip then Contents() == old(Contents())
              else Contents() == Expire(StoreAll(old(Contents()), cs, from, now), later)
      ensures if !unsafe && from.ip then morselCache == old(morselCache)
              else morselCache == Without(RefreshAll(old(morselCache), old(Contents()), cs, from, now),
                                          Due(StoreAll(old(Contents()), cs, from, now).expirations, later))
      ensures renamed == (old(renamed) || ((from.ip ==> unsafe) && exists i | 0 <= i < |cs| :: Renames(cs[i].0, cs[i].1, from)))
    {
      hide Renames, Without, Coherent, Store, Refresh, Rejected, Normal, PlaceOf, WellKept, Scheduled;
      if !unsafe && from.ip { return; }
      for i := 0 to |cs|
        invariant Valid() && Contents() == StoreAll(old(Contents()), cs[..i], from, now)
        invariant morselCache == RefreshAll(old(morselCache), old(Contents()), cs[..i], from, now)
        invariant renamed == (old(renamed) || exists j | 0 <= j < i :: Renames(cs[j].0, cs[j].1, from))
      {
        assert cs[..i + 1][..i] == cs[..i];
        UpdateCookie(cs[i].0, cs[i].1, from, now);
      }
      assert cs[..|cs|] == cs;
      DoExpiration(later);
    }

    method UpdateCookie(name: Text, given: Morsel, from: Origin, now: int)
      requires Valid()
      modifies this
      ensures Valid() && Contents() == Store(old(Contents()), name, given, from, now)
      ensures renamed == (old(renamed) || Renames(name, given, from))
      ensures morselCache == if Rejected(given, from) then old(morselCache)
                             else Refresh(old(morselCache), old(cookies), PlaceOf(given, from), name, Normal(given, from))
    {
      hide Coherent, Scheduled, WellKept, Rejected, Normal, PlaceOf, Deadline, Put;
      StoreKeeps(Contents(), name, given, from, now);
      if TakesHost(given, from) { hostOnlyCookies := hostOnlyCookies + {(from.host.value, name)}; }
      if Rejected(given, from) { return; }
      var w := PlaceOf(given, from);
      var d := Deadline(given, now);
      if d.Some? { ExpireCookie(d.value, KeyOf(w, name)); }
      SetCookie(w, name, Normal(given, from));
    }

    /** The cookie is put in its place; if that changes something, the cached one is dropped. */
    method SetCookie(w: Where, name: Text, c: Morsel)
      requires Coherent(morselCache, cookies, style, renamed)
      modifies this`cookies, this`morselCache, this`renamed
      ensures Coherent(morselCache, cookies, style, renamed) && cookies == Put(old(cookies), w, name, c)
      ensures renamed == (old(renamed) || (w == SHARED && c.key != name))
      ensures morselCache == Refresh(old(morselCache), old(cookies), w, name, c)
    {
      hide Coherent;
      RefreshCoherent(morselCache, cookies, style, renamed, w, name, c);
      renamed := renamed || (w == SHARED && c.key != name);
      if w in cookies && name in cookies[w] && cookies[w][name] == c {
        assert cookies[w][name := c] == cookies[w] && cookies[w := cookies[w]] == cookies;
        return;
      }
      cookies := Put(cookies, w, name, c);
      if w in morselCache { morselCache := morselCache[w := morselCache[w] - {name}]; }
    }
 
    // ---- choosing the cookies of a request ----

    /** The cookies for a request, after what is due was removed. */
    method FilterCookies(req: Request, now: int) returns (filtered: map<Text, Sent>)
      requires Valid()
      modifies this
      ensures Valid() && renamed == old(renamed)
      ensures Contents() == if old(cookies) == map[] then old(Contents()) else Expire(old(Contents()), now)
      ensures var found := Overlay(cookies, hostOnlyCookies, req, style, Places(req, unsafe));
              && FindsBest(cookies, hostOnlyCookies, req, style, unsafe, found)
              && (!renamed ==> filtered == Shared(cookies, style) + found)
              && (SHARED !in Places(req, unsafe) ==>
                    var cache := Without(old(morselCache), Due(old(expirations), now));
                    && (forall n | n in found :: n in filtered && filtered[n] == found[n])
                    && SharedGo(cookies, style, cache, found, filtered) && SharedCached(cookies, style, cache, morselCache))
    {
      hide Coherent, Scheduled, Expire, WellKept, Places, Overlay, Hits, Shared, Without, SharedSent, Alone, FindsBest;
      OverlayFindsBest(cookies, hostOnlyCookies, req, style, unsafe);
      if cookies == map[] { NothingFound(cookies, hostOnlyCookies, req, style, Places(req, unsafe)); return map[]; }
      DoExpiration(now);
      OverlayFindsBest(cookies, hostOnlyCookies, req, style, unsafe);
      if cookies == map[] { NothingFound(cookies, hostOnlyCookies, req, style, Places(req, unsafe)); return map[]; }
      ghost var cache := morselCache;
      filtered := FilterShared();
      ghost var shared := filtered;
      OverlayNone(cookies, hostOnlyCookies, req, style, shared);
      var places := Places(req, unsafe);
      for i := 0 to |places|
        modifies this`morselCache
        invariant Coherent(morselCache, cookies, style, renamed)
        invariant !renamed || SHARED !in places ==>
                    filtered == shared + Overlay(cookies, hostOnlyCookies, req, style, places[..i])
        invariant SHARED !in places ==> SharedCached(cookies, style, cache, morselCache)
      {
        var hits := FilterPlace(req, places[i]);
        OverlayNext(cookies, hostOnlyCookies, req, style, shared, places, i);
        filtered := filtered + hits;
      }
      assert places[..|places|] == places;
    }

    /** The cookies that go with every request, under the names they have themselves. */
    method FilterShared() returns (filtered: map<Text, Sent>)
      requires Coherent(morselCache, cookies, style, renamed)
      modifies this`morselCache
      ensures Coherent(morselCache, cookies, style, renamed)
      ensures !renamed ==> filtered == Shared(cookies, style)
      ensures SharedGo(cookies, style, old(morselCache), map[], filtered)
      ensures SharedCached(cookies, style, old(morselCache), morselCache)
    {
      hide Coherent, Build, CachedAt, Alone, Sharing;
      filtered := map[];
      var here := CookiesAt(cookies, SHARED);
      var rest := here.Keys;
      OwnNames(morselCache, cookies, style, renamed);
      SharingNothing(cookies, style, CachedAt(morselCache, SHARED));
      while rest != {}
        modifies this`morselCache
        invariant rest <= here.Keys && Coherent(morselCache, cookies, style, renamed)
        invariant !renamed ==> filtered == map n | n in here && n !in rest :: Build(style, here[n])
        invariant Sharing(cookies, style, rest, CachedAt(old(morselCache), SHARED), CachedAt(morselCache, SHARED), filtered)
        decreases rest
      {
        var n :| n in rest;
        ghost var was, at := rest, CachedAt(morselCache, SHARED);
        rest := rest - {n};
        var m := Cached(SHARED, here[n].key, here[n], n);
        SharingNext(cookies, style, was, n, CachedAt(old(morselCache), SHARED), at, m, filtered);
        filtered := filtered[here[n].key := m];
      }
      SharingDone(cookies, style, old(morselCache), morselCache, filtered);
    }

    /** The cookies of one place that pass the tests. */
    method FilterPlace(req: Request, w: Where) returns (hits: map<Text, Sent>)
      requires Coherent(morselCache, cookies, style, renamed)
      modifies this`morselCache
      ensures Coherent(morselCache, cookies, style, renamed) && (!renamed || w != SHARED ==> hits == Hits(cookies, hostOnlyCookies, req, style, w))
      ensures w != SHARED ==> CachedAt(morselCache, SHARED) == CachedAt(old(morselCache), SHARED)
    {
      hide Coherent, Build, CachedAt;
      hits := map[];
      var here := CookiesAt(cookies, w);
      var rest := here.Keys;
      while rest != {}
        modifies this`morselCache
        invariant rest <= here.Keys && Coherent(morselCache, cookies, style, renamed)
        invariant w != SHARED ==> CachedAt(morselCache, SHARED) == CachedAt(old(morselCache), SHARED)
        invariant !renamed || w != SHARED ==>
                    hits == map n | n in here && n !in rest && Passes(hostOnlyCookies, req, here[n], n) :: Build(style, here[n])
        decreases rest
      {
        var n :| n in rest;
        rest := rest - {n};
        if Passes(hostOnlyCookies, req, here[n], n) {
          var m := Cached(w, n, here[n], n);
          hits := hits[n := m];
        }
      }
    }

    /** The cookie as it is sent, from the cache or else built and cached. */
    method Cached(w: Where, n: Text, c: Morsel, ghost name: Text) returns (m: Sent)
      requires Coherent(morselCache, cookies, style, renamed)
      requires w in cookies && name in cookies[w] && cookies[w][name] == c && n in {name, if w == SHARED then c.key else name}
      modifies this`morselCache
      ensures Coherent(morselCache, cookies, style, renamed)
      ensures !renamed || w != SHARED ==> m == Build(style, c)
      ensures m == var at := CachedAt(old(morselCache), w); if n in at then at[n] else Build(style, c)
      ensures CachedAt(morselCache, w) == CachedAt(old(morselCache), w)[n := m]
      ensures forall v | v != w :: CachedAt(morselCache, v) == CachedAt(old(morselCache), v)
    {
      hide Coherent, Build;
      CachedCoherent(morselCache, cookies, style, renamed, w, n, c, name);
      if w in morselCache && n in morselCache[w] {
        m := morselCache[w][n];
        assert CachedAt(morselCache, w)[n := m] == CachedAt(morselCache, w);
        return;
      }
      m := Build(style, c);
      morselCache := Put(morselCache, w, n, m);
    }
  }

  /** A shared cookie is stored, sent, replaced and sent again. The second time the old one is sent, if and only if its own
      key differs from the name it was stored under. */
  method ReplaceShared(unsafe: bool, style: Style, name: Text, c1: Morsel, c2: Morsel, from: Origin, req: Request, now: int)
    returns (first: map<Text, Sent>, second: map<Text, Sent>)
    requires from.host.None? && !from.ip && !DomainTest("", req.host, req.ip)
    requires PlaceOf(c1, from) == PlaceOf(c2, from) == SHARED && c1.key == c2.key
    requires Deadline(c1, now).None? && Deadline(c2, now).None?
    ensures c1.key in first && first[c1.key] == Build(style, c1)
    ensures c1.key in second && second[c1.key] == Build(style, if c1.key == name then c2 else c1)
  {
    hide PlaceOf, DomainTest, CookieJar.Valid, Deadline;
    var jar := new CookieJar(unsafe, style);
    first := StoreAndSend(jar, name, c1, from, req, now);
    second := StoreAndSend(jar, name, c2, from, req, now);
  }

  /** A shared cookie is stored, in a jar that has no other cookie, and sent. */
  method StoreAndSend(jar: CookieJar, name: Text, c: Morsel, from: Origin, req: Request, now: int)
    returns (sent: map<Text, Sent>)
    requires from.host.None? && !from.ip && !DomainTest("", req.host, req.ip)
    requires PlaceOf(c, from) == SHARED && Deadline(c, now).None?
    requires jar.Valid() && jar.expirations == map[] && jar.hostOnlyCookies == {} && jar.cookies.Keys <= {SHARED}
    requires CookiesAt(jar.cookies, SHARED).Keys <= {name}
    modifies jar
    ensures jar.Valid() && jar.Contents() == OneShared(name, Normal(c, from)) && c.key in sent
    ensures var at := CachedAt(Refresh(old(jar.morselCache), old(jar.cookies), SHARED, name, Normal(c, from)), SHARED);
            sent[c.key] == if c.key in at then at[c.key] else Build(jar.style, c)
    ensures c.key in CachedAt(jar.morselCache, SHARED) && CachedAt(jar.morselCache, SHARED)[c.key] == sent[c.key]
  {
    hide PlaceOf, DomainTest, CookieJar.Valid, Normal, Coherent, Places, Overlay, Deadline, StoreAll, RefreshAll, Expire, Without,
      Refresh, CachedAt, Renames;
    ghost var d := Normal(c, from);
    Updated(jar.Contents(), jar.morselCache, name, c, from, now);
    jar.UpdateCookies([(name, c)], from, now, now);
    NothingDue(OneShared(name, d), jar.morselCache, now);
    NotShared(req, jar.unsafe);
    OnlyShared(name, d, req, jar.unsafe, jar.style);
    PutShared(old(jar.cookies), name, d);
    assert jar.Contents() == OneShared(name, d);
    sent := jar.FilterCookies(req, now);
    assert Alone(jar.cookies, name);
  }

  /** A host sets two cookies of the same name for itself, one of them on another path and for ten seconds. When that one
      has expired, the other one is sent to a subdomain. */
  method ReachSubdomain(style: Style) returns (before: map<Text, Sent>, after: map<Text, Sent>)
    ensures "n" !in before && "n" in after
  {
    hide CookieJar.Valid, Places, Overlay, Expire, StoreAll, RefreshAll, Without, SharedGo, SharedCached, FindsBest, Normal, PlaceOf,
      Rejected, TakesHost;
    var jar := new CookieJar(false, style);
    var from, req := Origin(Some("a"), false, "/"), Request("b.a", false, "/", false);
    var c1 := Morsel("n", "1", "1", "", "", false, Absent, Absent);
    var c2 := c1.(path := "/x", maxAge := At(10));
    StoredAt(c1, from, "");
    StoredAt(c2, from, "/x");
    TwoForHost(c1, c2, from, 0);
    TwoBefore(Normal(c1, from), Normal(c2, from), req, style);
    TwoAfter(Normal(c1, from), Normal(c2, from), req, style);
    ghost var s := TwoCookies(Normal(c1, from), Normal(c2, from));
    jar.UpdateCookies([("n", c1), ("n", c2)], from, 0, 0);
    assert jar.Contents() == s && !jar.renamed;
    before := jar.FilterCookies(req, 9);
    assert jar.Contents() == s && OWN in jar.cookies;
    after := jar.FilterCookies(req, 10);
    assert jar.Contents() == Expire(s, 10);
    assert "n" in Overlay(jar.cookies, jar.hostOnlyCookies, req, style, Places(req, false));
  }

  const OWN := Where("a", "")
  const OTHER := Where("a", "/x")

  /** A jar with two cookies of a host for itself, of which one has a deadline. */
  function TwoCookies(c1: Morsel, c2: Morsel): State {
    State(map[OWN := map["n" := c1], OTHER := map["n" := c2]], {("a", "n")}, map[Key("a", "/x", "n") := 10])
  }

  lemma TwoForHost(c1: Morsel, c2: Morsel, from: Origin, now: int)
    requires c1.domain == c2.domain == "" && c1.path == "" && c2.path == "/x" && from.host == Some("a") && from.path == "/"
    requires c1.maxAge == c1.expires == Absent && c2.maxAge == At(10) && now == 0
    ensures StoreAll(State(map[], {}, map[]), [("n", c1), ("n", c2)], from, now)
         == TwoCookies(Normal(c1, from), Normal(c2, from))
  {
    hide Put, Rejected, Normal;
    var none := State(map[], {}, map[]);
    var cs := [("n", c1), ("n", c2)];
    assert cs[..1] == [("n", c1)] && cs[..1][..0] == [];
    StoredAt(c1, from, "");
    StoredAt(c2, from, "/x");
    var s1 := Store(none, "n", c1, from, now);
    assert StoreAll(none, cs[..1][..0], from, now) == none && StoreAll(none, cs[..1], from, now) == s1;
    assert StoreAll(none, cs, from, now) == Store(s1, "n", c2, from, now);
    PutTwo(Normal(c1, from), Normal(c2, from));
  }

  lemma PutTwo(c1: Morsel, c2: Morsel)
    ensures Put(Put(map[], OWN, "n", c1), OTHER, "n", c2) == map[OWN := map["n" := c1], OTHER := map["n" := c2]]
  {
  }

  /** The host's cookies are stored under its name. */
  lemma StoredAt(c: Morsel, from: Origin, path: Text)
    requires c.domain == "" && from.host == Some("a") && from.path == "/" && path in {"", "/x"} && c.path == path
    ensures !Rejected(c, from) && TakesHost(c, from) && PlaceOf(c, from) == Where("a", path)
    ensures Normal(c, from).path == (if path == "" then "/" else path) && Normal(c, from).domain == "a"
    ensures Normal(c, from).secure == c.secure
  {
    assert LastSlash("/") == 0;
    Stripped();
  }

  ghost predicate Two(c1: Morsel, c2: Morsel) {
    c1.domain == c2.domain == "a" && c1.path == "/" && c2.path == "/x" && !c1.secure
  }

  /** Until the deadline the flag keeps both cookies from a subdomain. */
  lemma TwoBefore(c1: Morsel, c2: Morsel, req: Request, style: Style)
    requires Two(c1, c2) && req == Request("b.a", false, "/", false)
    ensures var s := TwoCookies(c1, c2);
            && WellKept(s.cookies) && Expire(s, 0) == Expire(s, 9) == s
            && "n" !in Overlay(s.cookies, s.hostOnly, req, style, Places(req, false))
  {
    hide Overlay, Places, StripSlashes, DomainTest, PathTest, Delete, Best;
    var s := TwoCookies(c1, c2);
    assert Due(s.expirations, 0) == Due(s.expirations, 9) == {};
    DeleteNothing(s);
    Stripped();
    LookupIsScan(s.cookies, s.hostOnly, req, style, false, "n");
  }

  /** Then it goes with one of them. */
  lemma TwoAfter(c1: Morsel, c2: Morsel, req: Request, style: Style)
    requires Two(c1, c2) && req == Request("b.a", false, "/", false)
    requires WellKept(TwoCookies(c1, c2).cookies)
    ensures var s := Expire(TwoCookies(c1, c2), 10);
            SHARED !in s.cookies && "n" in Overlay(s.cookies, s.hostOnly, req, style, Places(req, false))
  {
    hide Overlay, Places, StripSlashes, DomainTest, PathTest, WellKept, Best;
    var s := TwoCookies(c1, c2);
    Subdomain();
    var k := Key("a", "/x", "n");
    assert Due(s.expirations, 10) == {k};
    ReachesOthersIff(s, 10, req, false, OWN, "n");
    DeleteKeeps(s, {k});
    LookupIsScan(Expire(s, 10).cookies, Expire(s, 10).hostOnly, req, style, false, "n");
  }

  /** A cookie is set for ten seconds and after five seconds once more, without a limit: after ten seconds it is gone. */
  lemma GoneAfterTen(c1: Morsel, c2: Morsel, from: Origin)
    requires c1 == Morsel("n", "1", "1", "", "", false, At(10), Absent) && c2 == c1.(value := "2", maxAge := Absent)
    requires from == Origin(Some("a"), false, "/")
    ensures var s := Expire(Store(State(map[], {}, map[]), "n", c1, from, 0), 0);
            var s1 := Expire(Store(s, "n", c2, from, 5), 5);
            && Has(s1, OWN, "n") && s1.cookies[OWN]["n"].value == "2" && !Has(Expire(s1, 10), OWN, "n")
  {
    StoredAt(c1, from, "");
    StoredAt(c2, from, "");
    hide PlaceOf, Normal, Rejected, StripSlashes;
    var s := Expire(Store(State(map[], {}, map[]), "n", c1, from, 0), 0);
    SetAgain(State(map[], {}, map[]), "n", c1, c2, from, 0, 5, 5);
    SetAgain(State(map[], {}, map[]), "n", c1, c2, from, 0, 5, 10);
  }

  lemma Stripped()
    ensures StripSlashes("/") == StripSlashes("") == "" && StripSlashes("/x") == "/x"
  {
  }

  lemma Subdomain()
    ensures DomainTest("a", "b.a", false) && PathTest("/", "/") && !DomainTest("", "b.a", false)
  {
    Stripped();
    assert "b.a"[2..] == "a" && "b.a"[..2] == "b." && "b."[1..] == ".";
  }

  /** A jar with one shared cookie. */
  function OneShared(name: Text, c: Morsel): State { State(map[SHARED := map[name := c]], {}, map[]) }

  lemma PutShared(cookies: Jar, name: Text, c: Morsel)
    requires cookies.Keys <= {SHARED} && CookiesAt(cookies, SHARED).Keys <= {name}
    ensures Put(cookies, SHARED, name, c) == map[SHARED := map[name := c]]
  {
    assert CookiesAt(cookies, SHARED)[name := c] == map[name := c];
  }

  lemma NothingDue(s: State, cache: Cache, now: int)
    requires s.expirations == map[]
    ensures Expire(s, now) == s && Without(cache, Due(s.expirations, now)) == cache
  {
    assert Due(s.expirations, now) == {};
    DeleteNothing(s);
    WithoutNothing(cache);
  }

  lemma Updated(s: State, cache: Cache, name: Text, c: Morsel, from: Origin, now: int)
    requires s.expirations == map[] && from.host.None? && PlaceOf(c, from) == SHARED && Deadline(c, now).None?
    ensures var s1 := StoreAll(s, [(name, c)], from, now);
            && Expire(s1, now) == State(Put(s.cookies, SHARED, name, Normal(c, from)), s.hostOnly, map[])
            && Without(RefreshAll(cache, s, [(name, c)], from, now), Due(s1.expirations, now))
            == Refresh(cache, s.cookies, SHARED, name, Normal(c, from))
  {
    hide PlaceOf, Deadline, Normal, Refresh, Expire, Without;
    var cs := [(name, c)];
    assert cs[..0] == [] && StoreAll(s, [], from, now) == s && RefreshAll(cache, s, [], from, now) == cache;
    var s1 := StoreAll(s, cs, from, now);
    assert s1 == Store(s, name, c, from, now);
    NothingDue(s1, RefreshAll(cache, s, cs, from, now), now);
  }

  lemma NotShared(req: Request, unsafe: bool)
    requires !DomainTest("", req.host, req.ip)
    ensures SHARED !in Places(req, unsafe)
  {
    PlacesAre(req, unsafe);
  }

  /** In such a jar nothing belongs to a host. */
  lemma OnlyShared(name: Text, c: Morsel, req: Request, unsafe: bool, style: Style)
    requires !DomainTest("", req.host, req.ip)
    ensures c.key !in Overlay(OneShared(name, c).cookies, {}, req, style, Places(req, unsafe))
  {
    hide Overlay, Places;
    NotShared(req, unsafe);
    OverlayLast(OneShared(name, c).cookies, {}, req, style, Places(req, unsafe), c.key);
  }

  /** The cookies that belong to no host. */
  function Shared(cookies: Jar, style: Style): map<Text, Sent> {
    map n | n in CookiesAt(cookies, SHARED) :: Build(style, CookiesAt(cookies, SHARED)[n])
  }

  lemma OverlayNone(jar: Jar, hostOnly: set<(Text, Text)>, req: Request, style: Style, shared: map<Text, Sent>)
    ensures shared + Overlay(jar, hostOnly, req, style, []) == shared
  {
  }

  lemma OverlayNext(jar: Jar, hostOnly: set<(Text, Text)>, req: Request, style: Style, shared: map<Text, Sent>,
                    ws: seq<Where>, i: nat)
    requires i < |ws|
    ensures shared + Overlay(jar, hostOnly, req, style, ws[..i + 1])
         == (shared + Overlay(jar, hostOnly, req, style, ws[..i])) + Hits(jar, hostOnly, req, style, ws[i])
  {
    hide Hits;
    assert ws[..i + 1][..i] == ws[..i];
  }

  lemma NothingFound(cookies: Jar, hostOnly: set<(Text, Text)>, req: Request, style: Style, ws: seq<Where>)
    requires cookies == map[]
    ensures Overlay(cookies, hostOnly, req, style, ws) == map[] == Shared(cookies, style)
    ensures forall n :: !Alone(cookies, n)
  {
  }
}
