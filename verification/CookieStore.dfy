/** What a cookie jar holds, and how setting cookies and the passing of time change it. */
module CookieStore {
  import opened Bytes
  import opened CookieMatching
  import opened CookieLookup

  datatype Key = Key(domain: Text, path: Text, name: Text)

  datatype State = State(cookies: Jar, hostOnly: set<(Text, Text)>, expirations: map<Key, int>)

  /** The response that sets cookies: its host if there is one, whether that is an address, and its path. */
  datatype Origin = Origin(host: Option<Text>, ip: bool, path: Text)

  const MAX_TIME: int := 253402300799

  // ---- accepting a cookie ----

  predicate StartsWith(s: Text, c: char) { s != "" && s[0] == c }

  /** The position of the last slash, or -1. */
  function LastSlash(s: Text): int { AfterLast(s, '/') - 1 }

  /** The directory of the response. */
  function DefaultPath(path: Text): (r: Text)
    ensures StartsWith(r, '/')
  {
    if !StartsWith(path, '/') then "/" else "/" + if LastSlash(path) <= 1 then "" else path[1..LastSlash(path)]
  }

  /** A domain with a dot at its end counts as none. */
  function StatedDomain(c: Morsel): Text { if EndsWith(c.domain, ".") then "" else c.domain }

  predicate TakesHost(c: Morsel, from: Origin) { StatedDomain(c) == "" && from.host.Some? }

  function StripDot(d: Text): Text { if StartsWith(d, '.') then d[1..] else d }

  function DomainOf(c: Morsel, from: Origin): Text {
    StripDot(if TakesHost(c, from) then from.host.value else StatedDomain(c))
  }

  predicate Rejected(c: Morsel, from: Origin) {
    from.host.Some? && from.host.value != "" && !IsDomainMatch(DomainOf(c, from), from.host.value, from.ip)
  }

  /** When the cookie expires, if it says so in a readable way; a maximal age comes before a date. */
  function Deadline(c: Morsel, now: int): Option<int> {
    match c.maxAge
    case At(delta) => Some(if now + delta < MAX_TIME then now + delta else MAX_TIME)
    case Unreadable => None
    case Absent => if c.expires.At? && c.expires.value != 0 then Some(c.expires.value) else None
  }

  /** The cookie as it is stored. */
  function Normal(c: Morsel, from: Origin): (r: Morsel)
    ensures r.key == c.key && r.value == c.value && r.codedValue == c.codedValue && StartsWith(r.path, '/')
  {
    c.(domain := DomainOf(c, from),
       path := if StartsWith(c.path, '/') then c.path else DefaultPath(from.path),
       maxAge := if c.maxAge.Unreadable? then Absent else c.maxAge,
       expires := if c.maxAge.Absent? && !(c.expires.At? && c.expires.value != 0) then Absent else c.expires)
  }

  function PlaceOf(c: Morsel, from: Origin): Where { Where(DomainOf(c, from), StripSlashes(Normal(c, from).path)) }

  function KeyOf(w: Where, n: Text): Key { Key(w.domain, w.path, n) }

  function Put<T>(m: map<Where, map<Text, T>>, w: Where, n: Text, c: T): map<Where, map<Text, T>> {
    m[w := (if w in m then m[w] else map[])[n := c]]
  }

  /** One cookie of a response. */
  function Store(s: State, name: Text, c: Morsel, from: Origin, now: int): State {
    var hostOnly := if TakesHost(c, from) then s.hostOnly + {(from.host.value, name)} else s.hostOnly;
    if Rejected(c, from) then s.(hostOnly := hostOnly) else
    var w := PlaceOf(c, from);
    var d := Deadline(c, now);
    State(Put(s.cookies, w, name, Normal(c, from)), hostOnly,
          if d.Some? then s.expirations[KeyOf(w, name) := d.value] else s.expirations)
  }

  function StoreAll(s: State, cs: seq<(Text, Morsel)>, from: Origin, now: int): State {
    if cs == [] then s
    else Store(StoreAll(s, cs[..|cs| - 1], from, now), cs[|cs| - 1].0, cs[|cs| - 1].1, from, now)
  }

  // ---- expiry: a scan of all deadlines ----

  function Due(expirations: map<Key, int>, now: int): set<Key> {
    set k | k in expirations && expirations[k] <= now
  }

  function Without<T>(m: map<Where, map<Text, T>>, ks: set<Key>): map<Where, map<Text, T>> {
    map w | w in m :: map n | n in m[w] && KeyOf(w, n) !in ks :: m[w][n]
  }

  /** Cookies are taken out, with the flags of their domain and name. */
  function Delete(s: State, ks: set<Key>): State {
    State(Without(s.cookies, ks),
          set h | h in s.hostOnly && forall k | k in ks :: (k.domain, k.name) != h,
          map k | k in s.expirations && k !in ks :: s.expirations[k])
  }

  function Expire(s: State, now: int): State { Delete(s, Due(s.expirations, now)) }

  lemma DeleteNothing(s: State)
    ensures Delete(s, {}) == s
  {
    WithoutNothing(s.cookies);
  }

  lemma WithoutNothing<T>(m: map<Where, map<Text, T>>)
    ensures Without(m, {}) == m
  {
    assert forall w | w in m :: Without(m, {})[w] == m[w];
  }

  lemma DeleteMore(s: State, ks: set<Key>, k: Key)
    ensures Delete(Delete(s, ks), {k}) == Delete(s, ks + {k})
  {
    WithoutMore(s.cookies, ks, k);
    var a, b := Delete(Delete(s, ks), {k}), Delete(s, ks + {k});
    forall h ensures h in a.hostOnly <==> h in b.hostOnly {
      assert k in ks + {k};
    }
    assert a.expirations == b.expirations;
  }

  lemma WithoutMore<T>(m: map<Where, map<Text, T>>, ks: set<Key>, k: Key)
    ensures Without(Without(m, ks), {k}) == Without(m, ks + {k})
  {
    forall w | w in m ensures Without(Without(m, ks), {k})[w] == Without(m, ks + {k})[w] {
    }
  }

  // ---- properties ----

  lemma StoreKeeps(s: State, name: Text, c: Morsel, from: Origin, now: int)
    requires WellKept(s.cookies)
    ensures WellKept(Store(s, name, c, from, now).cookies)
  {
  }

  lemma DeleteKeeps(s: State, ks: set<Key>)
    requires WellKept(s.cookies)
    ensures WellKept(Delete(s, ks).cookies)
  {
  }

  predicate Has(s: State, w: Where, n: Text) { w in s.cookies && n in s.cookies[w] }

  /** A cookie is set with a deadline that has passed: that removes it. */
  lemma PastDeadlineRemoves(s: State, name: Text, c: Morsel, from: Origin, now: int, later: int)
    requires !Rejected(c, from)
    ensures var d := Deadline(c, now);
            d.Some? && d.value <= later ==> !Has(Expire(Store(s, name, c, from, now), later), PlaceOf(c, from), name)
  {
    var w := PlaceOf(c, from);
    var s1 := Store(s, name, c, from, now);
    if Deadline(c, now).Some? && Deadline(c, now).value <= later {
      assert KeyOf(w, name) in Due(s1.expirations, later);
    }
  }

  /** A cookie is set with a date that has passed. That removes it unless the date is the epoch itself: such a date is
      not taken for one. Then the cookie stays, as long as no deadline of its predecessor has passed. */
  lemma PastDateIff(s: State, name: Text, c: Morsel, from: Origin, now: int)
    requires !Rejected(c, from) && c.maxAge.Absent? && c.expires.At? && c.expires.value <= now
    ensures Has(Expire(Store(s, name, c, from, now), now), PlaceOf(c, from), name)
       <==> c.expires.value == 0 && KeyOf(PlaceOf(c, from), name) !in Due(s.expirations, now)
  {
    var w := PlaceOf(c, from);
    var s1 := Store(s, name, c, from, now);
    var k := KeyOf(w, name);
    assert k in Due(s1.expirations, now) <==> !(c.expires.value == 0 && k !in Due(s.expirations, now));
  }

  /** A cookie is sent back to the host that set it, on its path, unless an earlier cookie of the same name was set by the
      cookie's domain itself, for itself only. */
  lemma SentBackIff(s: State, name: Text, c: Morsel, from: Origin, now: int, path: Text, insecure: bool, unsafe: bool)
    requires from.host.Some? && from.host.value != "" && !Rejected(c, from)
    requires from.ip ==> unsafe
    requires PathTest(Normal(c, from).path, path) && !(insecure && c.secure)
    ensures Belongs(Store(s, name, c, from, now).cookies, Store(s, name, c, from, now).hostOnly,
                    Request(from.host.value, from.ip, path, insecure), unsafe, PlaceOf(c, from), name)
       <==> !((DomainOf(c, from), name) in s.hostOnly && DomainOf(c, from) != from.host.value)
  {
  }

  /** A cookie is set again without a deadline. The deadline it had stays: it goes when that comes. */
  lemma OldDeadlineIff(s: State, name: Text, c: Morsel, from: Origin, now: int, later: int)
    requires !Rejected(c, from) && Deadline(c, now).None?
    ensures Has(Expire(Store(s, name, c, from, now), later), PlaceOf(c, from), name)
       <==> KeyOf(PlaceOf(c, from), name) !in Due(s.expirations, later)
  {
    var s1 := Store(s, name, c, from, now);
    assert s1.expirations == s.expirations;
    assert Due(s1.expirations, later) == Due(s.expirations, later);
  }

  /** A cookie whose deadline is ahead is set again without one: it is still removed at the old deadline. */
  lemma SetAgain(s: State, name: Text, c1: Morsel, c2: Morsel, from: Origin, t1: int, t2: int, later: int)
    requires !Rejected(c1, from) && !Rejected(c2, from) && PlaceOf(c1, from) == PlaceOf(c2, from)
    requires Deadline(c1, t1).Some? && t1 < Deadline(c1, t1).value && Deadline(c2, t2).None?
    ensures var s1 := Expire(Store(s, name, c1, from, t1), t1);
            Has(Expire(Store(s1, name, c2, from, t2), later), PlaceOf(c1, from), name) <==> later < Deadline(c1, t1).value
  {
    hide PlaceOf, Normal, Rejected, Has;
    var k := KeyOf(PlaceOf(c1, from), name);
    var s1 := Expire(Store(s, name, c1, from, t1), t1);
    assert k in s1.expirations && s1.expirations[k] == Deadline(c1, t1).value;
    OldDeadlineIff(s1, name, c2, from, t2, later);
  }

  ghost predicate DueNamesake(s: State, now: int, d: Text, n: Text) {
    exists k | k in Due(s.expirations, now) :: k.domain == d && k.name == n
  }

  /** A host-only flag stays exactly until a cookie of its domain and name expires, on whatever path. */
  lemma FlagStaysIff(s: State, now: int, d: Text, n: Text)
    ensures (d, n) in Expire(s, now).hostOnly <==> (d, n) in s.hostOnly && !DueNamesake(s, now, d, n)
  {
  }

  /** A cookie that was meant for its own host only is sent to another host, if all else allows it, exactly if it stays
      while a cookie of its domain and name on another path expires. */
  lemma ReachesOthersIff(s: State, now: int, req: Request, unsafe: bool, w: Where, n: Text)
    requires WellKept(s.cookies) && Has(s, w, n)
    requires (w.domain, n) in s.hostOnly && w.domain != req.host && Belongs(s.cookies, {}, req, unsafe, w, n)
    ensures Belongs(Expire(s, now).cookies, Expire(s, now).hostOnly, req, unsafe, w, n)
       <==> KeyOf(w, n) !in Due(s.expirations, now) && DueNamesake(s, now, w.domain, n)
  {
    FlagStaysIff(s, now, w.domain, n);
  }

  // ---- what a cookie becomes, in the words of the RFC ----

  /** Domain matching, section 5.1.3 of RFC 6265: the same, or a name below the domain. */
  lemma DomainMatchIff(domain: Text, host: Text, ip: bool)
    ensures IsDomainMatch(domain, host, ip)
       <==> host == domain || (!ip && domain != "" && exists name :: host == name + "." + domain)
  {
    if IsDomainMatch(domain, host, ip) && host != domain {
      var front := host[..|host| - |domain|];
      assert host == front + domain && front == front[..|front| - 1] + ".";
      assert host == front[..|front| - 1] + "." + domain;
    }
    forall name | host == name + "." + domain && !ip && domain != "" ensures IsDomainMatch(domain, host, ip) {
      assert host[|host| - |domain|..] == domain;
      assert host[..|host| - |domain|] == name + ".";
      assert (name + ".")[|name|..] == ".";
    }
  }

  /** The default path, section 5.1.4 of RFC 6265: up to the last slash, without it, unless it is the first character. */
  lemma DefaultPathIs(path: Text, i: nat)
    requires i < |path| && path[0] == '/' && path[i] == '/' && forall j | i < j < |path| :: path[j] != '/'
    ensures DefaultPath(path) == if i == 0 then "/" else path[..i]
  {
    var k := LastSlash(path);
    assert k == i by {
      assert path[k] == '/' by { assert AfterLast(path, '/') > 0; }
    }
    if i > 0 { assert "/" + path[1..i] == path[..i]; }
  }

  lemma DefaultPathOtherwise(path: Text)
    requires path == "" || path[0] != '/'
    ensures DefaultPath(path) == "/"
  {
  }

  /** Where a cookie without a domain goes: to the host, for itself only; and one with a domain to that domain. */
  lemma DomainIs(s: State, name: Text, c: Morsel, host: Text, ip: bool, path: Text, now: int)
    requires host != "" && host[0] != '.'
    ensures var s1 := Store(s, name, c, Origin(Some(host), ip, path), now);
            if c.domain == "" || c.domain[|c.domain| - 1] == '.' then
              && DomainOf(c, Origin(Some(host), ip, path)) == host
              && s1.hostOnly == s.hostOnly + {(host, name)} && !Rejected(c, Origin(Some(host), ip, path))
            else
              && (c.domain[0] != '.' ==> DomainOf(c, Origin(Some(host), ip, path)) == c.domain)
              && (c.domain[0] == '.' ==> "." + DomainOf(c, Origin(Some(host), ip, path)) == c.domain)
              && s1.hostOnly == s.hostOnly
  {
    if c.domain != "" {
      assert EndsWith(c.domain, ".") <==> c.domain[|c.domain| - 1] == '.' by {
        assert c.domain[|c.domain| - 1..] == [c.domain[|c.domain| - 1]];
      }
    }
  }

  /** A cookie is stored exactly if its domain matches the host, and then under that domain and its own path, or else the
      default path. */
  lemma StoredIff(s: State, name: Text, c: Morsel, host: Text, ip: bool, path: Text, now: int)
    requires host != ""
    ensures var from := Origin(Some(host), ip, path);
            var w := Where(DomainOf(c, from), StripSlashes(if c.path != "" && c.path[0] == '/' then c.path else DefaultPath(path)));
            && (Store(s, name, c, from, now).cookies != s.cookies ==> !Rejected(c, from))
            && (Rejected(c, from) <==> !IsDomainMatch(DomainOf(c, from), host, ip))
            && (!Rejected(c, from) ==>
                  && Has(Store(s, name, c, from, now), w, name)
                  && var m := Store(s, name, c, from, now).cookies[w][name];
                     && m.key == c.key && m.value == c.value && m.codedValue == c.codedValue && m.secure == c.secure
                     && m.domain == DomainOf(c, from)
                     && m.path == if c.path != "" && c.path[0] == '/' then c.path else DefaultPath(path))
  {
  }

  /** Nothing else in the jar changes. */
  lemma StoreElsewhere(s: State, name: Text, c: Morsel, from: Origin, now: int, w: Where, n: Text)
    requires w != PlaceOf(c, from) || n != name
    ensures Has(Store(s, name, c, from, now), w, n) <==> Has(s, w, n)
    ensures Has(s, w, n) ==> Store(s, name, c, from, now).cookies[w][n] == s.cookies[w][n]
    ensures KeyOf(w, n) in Store(s, name, c, from, now).expirations <==> KeyOf(w, n) in s.expirations
    ensures KeyOf(w, n) in s.expirations ==> Store(s, name, c, from, now).expirations[KeyOf(w, n)] == s.expirations[KeyOf(w, n)]
  {
    hide Rejected, PlaceOf, Normal, Deadline;
  }

  /** The end of the year 9999 is the latest deadline; a maximal age counts from now and comes before a date, unless it cannot
      be read, and then there is no deadline. */
  lemma DeadlineIs(c: Morsel, now: int)
    ensures c.maxAge.At? && now + c.maxAge.value <= 253402300799 ==> Deadline(c, now) == Some(now + c.maxAge.value)
    ensures c.maxAge.At? && now + c.maxAge.value >= 253402300799 ==> Deadline(c, now) == Some(253402300799)
    ensures c.maxAge.Unreadable? ==> Deadline(c, now) == None
    ensures c.maxAge.Absent? && c.expires.At? && c.expires.value != 0 ==> Deadline(c, now) == Some(c.expires.value)
    ensures c.maxAge.Absent? && (!c.expires.At? || c.expires.value == 0) ==> Deadline(c, now) == None
  {
  }

  /** Of the lifetimes, the stored cookie keeps exactly those that could be read. */
  lemma LifetimesKept(c: Morsel, from: Origin)
    ensures var m := Normal(c, from);
            && (c.maxAge.At? ==> m.maxAge == c.maxAge && m.expires == c.expires)
            && (!c.maxAge.At? ==> m.maxAge == Absent)
            && (c.maxAge.Unreadable? ==> m.expires == c.expires)
            && (c.maxAge.Absent? && c.expires.At? && c.expires.value != 0 ==> m.expires == c.expires)
            && (c.maxAge.Absent? && !(c.expires.At? && c.expires.value != 0) ==> m.expires == Absent)
  {
  }
}
