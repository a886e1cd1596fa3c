/** Which stored cookies belong to a request: the keys that a lookup tries, against the matching rules of
    sections 5.1.3, 5.1.4 and 5.4 of RFC 6265. */
module CookieMatching {
  type Text = string
  datatype Where = Where(domain: Text, path: Text)   // the key that a cookie is stored under

  // ---- splitting and joining ----

  function PieceEnd(s: Text, c: char): (i: nat)
    ensures i <= |s| && (i < |s| ==> s[i] == c) && forall j | 0 <= j < i :: s[j] != c
  {
    if s == "" || s[0] == c then 0 else 1 + PieceEnd(s[1..], c)
  }

  /** The pieces between the separators; one more than there are separators. */
  function Split(s: Text, c: char): (r: seq<Text>)
    ensures |r| > 0
    decreases |s|
  {
    var i := PieceEnd(s, c);
    if i == |s| then [s] else [s[..i]] + Split(s[i + 1..], c)
  }

  function Reverse(xs: seq<Text>): (r: seq<Text>)
    ensures |r| == |xs|
  {
    if xs == [] then [] else Reverse(xs[1..]) + [xs[0]]
  }

  /** The running results of `f` over a list. */
  function Accumulate(acc: Text, xs: seq<Text>, f: (Text, Text) -> Text): (r: seq<Text>)
    ensures |r| == |xs| + 1 && r[0] == acc
    decreases |xs|
  {
    [acc] + if xs == [] then [] else Accumulate(f(acc, xs[0]), xs[1..], f)
  }

  function JoinPath(a: Text, b: Text): Text { a + "/" + b }

  function JoinDomain(a: Text, b: Text): Text { b + "." + a }

  /** The paths that a lookup tries, "" first. */
  function Paths(path: Text): seq<Text> {
    var parts := Split(path, '/');
    Accumulate(parts[0], parts[1..], JoinPath)
  }

  /** The domains that a lookup tries, the top one first; an address has no parents. */
  function Domains(host: Text, ip: bool): seq<Text> {
    if ip then [host] else
    var parts := Reverse(Split(host, '.'));
    Accumulate(parts[0], parts[1..], JoinDomain)
  }

  // ---- what is tried ----

  predicate Cut(s: Text, c: char, j: nat) { j == |s| || (j < |s| && s[j] == c) }

  /** A prefix of `s` that ends at a slash or at the end. */
  ghost predicate Front(pre: Text, s: Text, p: Text) {
    exists j | 0 <= j <= |s| && Cut(s, '/', j) :: p == pre + s[..j]
  }

  ghost predicate Growing(xs: seq<Text>) {
    forall i, j | 0 <= i < j < |xs| :: |xs[i]| < |xs[j]|
  }

  lemma FrontShift(pre: Text, s: Text, i: nat, j: nat)
    requires i < |s| && s[i] == '/' && i + 1 + j <= |s|
    ensures (pre + s[..i] + "/") + s[i + 1..][..j] == pre + s[..i + 1 + j]
    ensures Cut(s[i + 1..], '/', j) <==> Cut(s, '/', i + 1 + j)
  {
    assert s[..i + 1 + j] == s[..i] + "/" + s[i + 1..][..j];
  }

  lemma FrontDown(pre: Text, s: Text, p: Text, i: nat)
    requires i == PieceEnd(s, '/') < |s|
    ensures Front(pre, s, p) ==> p == pre + s[..i] || Front(pre + s[..i] + "/", s[i + 1..], p)
  {
    if Front(pre, s, p) {
      var j: nat :| j <= |s| && Cut(s, '/', j) && p == pre + s[..j];
      if j != i {
        FrontShift(pre, s, i, j - i - 1);
        FrontAt(pre + s[..i] + "/", s[i + 1..], j - i - 1);
      }
    }
  }

  lemma FrontUp(pre: Text, s: Text, p: Text, i: nat)
    requires i == PieceEnd(s, '/') < |s|
    ensures p == pre + s[..i] || Front(pre + s[..i] + "/", s[i + 1..], p) ==> Front(pre, s, p)
  {
    hide PieceEnd;
    FrontAt(pre, s, i);
    var t, pre1 := s[i + 1..], pre + s[..i] + "/";
    if Front(pre1, t, p) {
      var j: nat :| j <= |t| && Cut(t, '/', j) && p == pre1 + t[..j];
      FrontShift(pre, s, i, j);
      FrontAt(pre, s, i + 1 + j);
    }
  }

  lemma FrontAt(pre: Text, s: Text, j: nat)
    requires j <= |s| && Cut(s, '/', j)
    ensures Front(pre, s, pre + s[..j])
  {
  }

  lemma {:induction false} PathsFrom(pre: Text, s: Text)
    ensures var parts := Split(s, '/');
            var r := Accumulate(pre + parts[0], parts[1..], JoinPath);
            && (forall p :: p in r <==> Front(pre, s, p))
            && Growing(r)
    decreases |s|
  {
    var i := PieceEnd(s, '/');
    var parts := Split(s, '/');
    var r := Accumulate(pre + parts[0], parts[1..], JoinPath);
    if i == |s| {
      assert s[..i] == s && Cut(s, '/', i);
      assert r == [pre + s];
    } else {
      var pre1 := pre + s[..i] + "/";
      var rest := Split(s[i + 1..], '/');
      assert parts[1..] == rest;
      assert JoinPath(pre + s[..i], rest[0]) == pre1 + rest[0];
      var r1 := Accumulate(pre1 + rest[0], rest[1..], JoinPath);
      assert r == [pre + s[..i]] + r1;
      PathsFrom(pre1, s[i + 1..]);
      GrowingCons(pre + s[..i], r1);
      forall p ensures p in r <==> Front(pre, s, p) {
        FrontDown(pre, s, p, i);
        FrontUp(pre, s, p, i);
      }
    }
  }

  lemma GrowingCons(x: Text, xs: seq<Text>)
    requires Growing(xs) && xs != [] && |x| < |xs[0]|
    ensures Growing([x] + xs)
  {
  }

  predicate PathPrefix(p: Text, path: Text) { p == path || p + "/" <= path }

  /** A lookup tries exactly the paths that the request path lies under, the longest last. */
  lemma PathsIff(path: Text)
    ensures forall p :: p in Paths(path) <==> PathPrefix(p, path)
    ensures Growing(Paths(path))
  {
    PathsFrom("", path);
    var parts := Split(path, '/');
    assert "" + parts[0] == parts[0];
    forall p ensures Front("", path, p) <==> PathPrefix(p, path) {
      FrontPrefix(path, p);
    }
  }

  lemma FrontPrefix(path: Text, p: Text)
    ensures Front("", path, p) <==> PathPrefix(p, path)
  {
    if Front("", path, p) {
      var j :| 0 <= j <= |path| && Cut(path, '/', j) && p == "" + path[..j];
      assert p == path[..j];
      if j < |path| { assert p + "/" == path[..j + 1]; }
    }
    if PathPrefix(p, path) {
      if p != path { assert path[|p|] == (p + "/")[|p|]; }
      assert Cut(path, '/', |p|) && p == "" + path[..|p|];
    }
  }

  // ---- domains ----

  /** The position after the last separator. */
  function AfterLast(s: Text, c: char): (i: nat)
    ensures i <= |s| && (i > 0 ==> s[i - 1] == c) && forall j | i <= j < |s| :: s[j] != c
  {
    if s == "" then 0 else if s[|s| - 1] == c then |s| else AfterLast(s[..|s| - 1], c)
  }

  lemma {:induction false} SplitLast(s: Text, c: char, i: nat)
    requires i == AfterLast(s, c) > 0
    ensures Split(s, c) == Split(s[..i - 1], c) + [s[i..]]
    decreases |s|
  {
    hide Split, PieceEnd, AfterLast;
    var a := PieceEnd(s, c);
    if a == i - 1 {
      SplitFirst(s, c);
      SplitWhole(s[i..], c);
      SplitWhole(s[..a], c);
    } else {
      SplitLaterLast(s, c, i, a);
      SplitLast(s[a + 1..], c, i - a - 1);
      Append(s[..a], Split(s[..i - 1][a + 1..], c), s[i..]);
    }
  }

  lemma SplitFirst(s: Text, c: char)
    requires PieceEnd(s, c) < |s|
    ensures Split(s, c) == [s[..PieceEnd(s, c)]] + Split(s[PieceEnd(s, c) + 1..], c)
  {
  }

  lemma SplitWhole(t: Text, c: char)
    requires forall k | 0 <= k < |t| :: t[k] != c
    ensures Split(t, c) == [t]
  {
    IndexUnique(t, c);
  }

  lemma Append(x: Text, xs: seq<Text>, y: Text)
    ensures [x] + (xs + [y]) == ([x] + xs) + [y]
  {
  }

  /** Of several separators, the first one is cut off. */
  lemma SplitLaterLast(s: Text, c: char, i: nat, a: nat)
    requires i == AfterLast(s, c) > 0 && a == PieceEnd(s, c) < i - 1
    ensures var t := s[a + 1..];
            && Split(s, c) == [s[..a]] + Split(t, c)
            && Split(s[..i - 1], c) == [s[..a]] + Split(s[..i - 1][a + 1..], c)
            && AfterLast(t, c) == i - a - 1
            && t[..i - a - 2] == s[..i - 1][a + 1..] && t[i - a - 1..] == s[i..]
  {
    hide Split, PieceEnd, AfterLast;
    var front := s[..i - 1];
    IndexAt(front, c, a);
    assert front[..a] == s[..a];
    SplitFirst(s, c);
    SplitFirst(front, c);
    LastAt(s[a + 1..], c, i - a - 1);
  }

  lemma IndexUnique(t: Text, c: char)
    requires forall k | 0 <= k < |t| :: t[k] != c
    ensures PieceEnd(t, c) == |t|
  {
  }

  lemma IndexAt(s: Text, c: char, i: nat)
    requires i < |s| && s[i] == c && forall j | 0 <= j < i :: s[j] != c
    ensures PieceEnd(s, c) == i
  {
  }

  lemma LastAt(s: Text, c: char, i: nat)
    requires 0 < i <= |s| && s[i - 1] == c && forall j | i <= j < |s| :: s[j] != c
    ensures AfterLast(s, c) == i
  {
  }

  /** A suffix of `s`, with `suf` after it, that begins the string or follows a dot. */
  ghost predicate Back(s: Text, suf: Text, d: Text) {
    exists j | 0 <= j <= |s| && (j == 0 || s[j - 1] == '.') :: d == s[j..] + suf
  }

  lemma BackShift(s: Text, suf: Text, i: nat, j: nat)
    requires j < i <= |s| && s[i - 1] == '.'
    ensures s[..i - 1][j..] + ("." + (s[i..] + suf)) == s[j..] + suf
  {
    assert s[j..] == s[..i - 1][j..] + "." + s[i..];
  }

  lemma BackAt(s: Text, suf: Text, j: nat)
    requires j <= |s| && (j == 0 || s[j - 1] == '.')
    ensures Back(s, suf, s[j..] + suf)
  {
  }

  lemma BackDown(s: Text, suf: Text, d: Text, i: nat)
    requires i == AfterLast(s, '.') > 0
    ensures Back(s, suf, d) ==> d == s[i..] + suf || Back(s[..i - 1], "." + (s[i..] + suf), d)
  {
    if Back(s, suf, d) {
      var j: nat :| j <= |s| && (j == 0 || s[j - 1] == '.') && d == s[j..] + suf;
      if j != i {
        BackShift(s, suf, i, j);
        BackAt(s[..i - 1], "." + (s[i..] + suf), j);
      }
    }
  }

  lemma BackUp(s: Text, suf: Text, d: Text, i: nat)
    requires i == AfterLast(s, '.') > 0
    ensures d == s[i..] + suf || Back(s[..i - 1], "." + (s[i..] + suf), d) ==> Back(s, suf, d)
  {
    BackAt(s, suf, i);
    var t, suf1 := s[..i - 1], "." + (s[i..] + suf);
    if Back(t, suf1, d) {
      var j: nat :| j <= |t| && (j == 0 || t[j - 1] == '.') && d == t[j..] + suf1;
      BackShift(s, suf, i, j);
      BackAt(s, suf, j);
    }
  }

  lemma ReverseSnoc(xs: seq<Text>, x: Text)
    ensures Reverse(xs + [x]) == [x] + Reverse(xs)
  {
    if xs != [] {
      ReverseSnoc(xs[1..], x);
      assert (xs + [x])[1..] == xs[1..] + [x];
    }
  }

  lemma {:induction false} DomainsFrom(s: Text, suf: Text)
    ensures var parts := Reverse(Split(s, '.'));
            var r := Accumulate(parts[0] + suf, parts[1..], JoinDomain);
            && (forall d :: d in r <==> Back(s, suf, d))
            && Growing(r)
    decreases |s|
  {
    hide Back;
    var i := AfterLast(s, '.');
    var parts := Reverse(Split(s, '.'));
    var r := Accumulate(parts[0] + suf, parts[1..], JoinDomain);
    if i == 0 {
      IndexUnique(s, '.');
      assert s[0..] == s && parts == [s] && r == [s + suf];
      BackOnly(s, suf);
    } else {
      SplitLast(s, '.', i);
      ReverseSnoc(Split(s[..i - 1], '.'), s[i..]);
      var rest := Reverse(Split(s[..i - 1], '.'));
      assert parts[1..] == rest;
      DomainsFrom(s[..i - 1], "." + (s[i..] + suf));
      DomainsStep(s, suf, i, rest);
    }
  }

  lemma BackOnly(s: Text, suf: Text)
    requires AfterLast(s, '.') == 0
    ensures forall d :: Back(s, suf, d) <==> d == s + suf
  {
    assert s[0..] == s;
    BackAt(s, suf, 0);
  }

  lemma AccumulateDomains(acc: Text, xs: seq<Text>)
    requires xs != []
    ensures Accumulate(acc, xs, JoinDomain) == [acc] + Accumulate(xs[0] + ("." + acc), xs[1..], JoinDomain)
  {
    assert JoinDomain(acc, xs[0]) == xs[0] + ("." + acc);
  }

  lemma DomainsStep(s: Text, suf: Text, i: nat, rest: seq<Text>)
    requires i == AfterLast(s, '.') > 0 && rest != []
    requires var suf1 := "." + (s[i..] + suf);
             var r1 := Accumulate(rest[0] + suf1, rest[1..], JoinDomain);
             (forall d :: d in r1 <==> Back(s[..i - 1], suf1, d)) && Growing(r1)
    ensures var r := Accumulate(s[i..] + suf, rest, JoinDomain);
            (forall d :: d in r <==> Back(s, suf, d)) && Growing(r)
  {
    hide *;
    var acc := s[i..] + suf;
    var r1 := Accumulate(rest[0] + ("." + acc), rest[1..], JoinDomain);
    AccumulateDomains(acc, rest);
    GrowingCons(acc, r1);
    forall d ensures d in [acc] + r1 <==> Back(s, suf, d) {
      BackDown(s, suf, d, i);
      BackUp(s, suf, d, i);
    }
  }

  /** Domain matching (section 5.1.3 of RFC 6265), as the jar checks it. */
  predicate IsDomainMatch(domain: Text, host: Text, ip: bool) {
    if host == domain then true
    else if !EndsWith(host, domain) then false
    else if domain == "" || !EndsWith(host[..|host| - |domain|], ".") then false  // nothing is cut off for an empty domain
    else !ip
  }

  predicate EndsWith(s: Text, t: Text) { |t| <= |s| && s[|s| - |t|..] == t }

  /** The domains of cookies for a host: those that match it; besides, for a host that ends in a dot, the empty one. */
  predicate DomainTest(domain: Text, host: Text, ip: bool) {
    IsDomainMatch(domain, host, ip) || (domain == "" && !ip && EndsWith(host, "."))
  }

  /** A lookup tries exactly the domains for the host, the longest last. */
  lemma DomainsIff(host: Text, ip: bool)
    ensures forall d :: d in Domains(host, ip) <==> DomainTest(d, host, ip)
    ensures Growing(Domains(host, ip))
  {
    if !ip {
      DomainsFrom(host, "");
      var parts := Reverse(Split(host, '.'));
      assert parts[0] + "" == parts[0];
      forall d ensures Back(host, "", d) <==> DomainTest(d, host, false) {
        BackMatch(host, d);
      }
    }
  }

  lemma BackMatch(host: Text, d: Text)
    ensures Back(host, "", d) <==> DomainTest(d, host, false)
  {
    if Back(host, "", d) {
      var j :| 0 <= j <= |host| && (j == 0 || host[j - 1] == '.') && d == host[j..] + "";
      assert d == host[j..] && host[..|host| - |d|] == host[..j];
    }
    if DomainTest(d, host, false) {
      var j := |host| - |d|;
      if host != d {
        assert host[..j][j - 1..] == ".";
        assert host[j - 1] == host[..j][j - 1..][0];
      }
      BackAt(host, "", j);
      assert host[j..] + "" == d;
    }
  }

  // ---- paths as cookies carry them ----

  function StripSlashes(s: Text): (r: Text)
    ensures r <= s && (r != "" ==> r[|r| - 1] != '/') && forall i | |r| <= i < |s| :: s[i] == '/'
  {
    if s != "" && s[|s| - 1] == '/' then StripSlashes(s[..|s| - 1]) else s
  }

  /** The jar's test for a cookie's path: the key it is stored under is tried, and it is not longer than the request's. */
  predicate PathTest(cookiePath: Text, path: Text) {
    PathPrefix(StripSlashes(cookiePath), path) && |cookiePath| <= |path|
  }

  /** Path matching, section 5.1.4 of RFC 6265. */
  predicate PathMatch(cookiePath: Text, path: Text) {
    cookiePath == path || (cookiePath < path && (EndsWith(cookiePath, "/") || path[|cookiePath|] == '/'))
  }

  /** The jar's test is the one of the RFC for every request, exactly for the paths that do not end in two slashes. */
  lemma PathTestIff(cookiePath: Text)
    ensures (forall path :: PathTest(cookiePath, path) <==> PathMatch(cookiePath, path)) <==> !EndsWith(cookiePath, "//")
  {
    if EndsWith(cookiePath, "//") {
      TwoSlashes(cookiePath);
    } else {
      forall path ensures PathTest(cookiePath, path) <==> PathMatch(cookiePath, path) {
        OneSlash(cookiePath, path);
      }
    }
  }

  lemma StripTwo(c: Text)
    ensures EndsWith(c, "//") <==> |StripSlashes(c)| + 2 <= |c|
  {
    hide StripSlashes;
    var p := StripSlashes(c);
    if EndsWith(c, "//") {
      assert c[|c| - 1] == c[|c| - 2..][1] && c[|c| - 2] == c[|c| - 2..][0];
    }
    if |p| + 2 <= |c| {
      assert c[|c| - 2..] == "//";
    }
  }

  lemma TwoSlashes(c: Text)
    requires EndsWith(c, "//")
    ensures exists path :: PathTest(c, path) && !PathMatch(c, path)
  {
    var p := StripSlashes(c);
    var path := p + "/x" + c;
    StripTwo(c);
    assert path[|p| + 1] == 'x' && c[|p| + 1] == '/';
    assert p + "/" == path[..|p| + 1];
    assert PathTest(c, path) && !PathMatch(c, path);
  }

  lemma OneSlash(c: Text, path: Text)
    requires !EndsWith(c, "//")
    ensures PathTest(c, path) <==> PathMatch(c, path)
  {
    StripTwo(c);
    var p := StripSlashes(c);
    if p == c { NoSlash(c, path); } else { EndsAtSlash(c, path); }
  }

  lemma NoSlash(c: Text, path: Text)
    requires !EndsWith(c, "/")
    ensures PathPrefix(c, path) <==> PathMatch(c, path)
  {
    if c < path { assert path[..|c| + 1] == c + [path[|c|]]; }
    if c + "/" <= path { assert path[|c|] == (c + "/")[|c|]; }
  }

  lemma EndsAtSlash(c: Text, path: Text)
    requires |c| == |StripSlashes(c)| + 1
    ensures PathTest(c, path) <==> PathMatch(c, path)
  {
    assert c == StripSlashes(c) + "/";
    assert EndsWith(c, "/");
  }
}
