/** The cookies sent with a request: the indexed lookup against a scan of all the cookies that are stored. */
module CookieLookup {
  import opened CookieMatching

  /** An attribute that sets a lifetime: seconds, or a date. */
  datatype Attr = Absent | Unreadable | At(value: int)

  datatype Morsel = Morsel(key: Text, value: Text, codedValue: Text, domain: Text, path: Text, secure: bool,
                           maxAge: Attr, expires: Attr)

  /** What is sent of a cookie. */
  datatype Sent = Sent(key: Text, value: Text, codedValue: Text)

  /** How values are written: as they are, or quoted where they have to be. */
  datatype Style = Style(quoted: bool, quote: Text -> Text)

  function Build(style: Style, c: Morsel): Sent {
    if style.quoted && c.codedValue != "" && c.codedValue[0] == '"' then Sent(c.key, c.value, c.codedValue)
    else Sent(c.key, c.value, if style.quoted then style.quote(c.value) else c.value)
  }

  /** What is sent of a cookie: its name and value; the value as it is unless values are quoted, and then as it came if that was
      in quotes, or else quoted anew. */
  lemma BuildIs(style: Style, c: Morsel)
    ensures Build(style, c).key == c.key && Build(style, c).value == c.value
    ensures !style.quoted ==> Build(style, c).codedValue == c.value
    ensures style.quoted && "\"" <= c.codedValue ==> Build(style, c).codedValue == c.codedValue
    ensures style.quoted && !("\"" <= c.codedValue) ==> Build(style, c).codedValue == style.quote(c.value)
  {
  }

  type Jar = map<Where, map<Text, Morsel>>

  datatype Request = Request(host: Text, ip: bool, path: Text, insecure: bool)

  const SHARED := Where("", "")

  function CookiesAt(jar: Jar, w: Where): map<Text, Morsel> {
    if w in jar then jar[w] else map[]
  }

  /** Each cookie is stored under its domain and its path. */
  ghost predicate WellKept(jar: Jar) {
    forall w, n | w in jar && n in jar[w] :: jar[w][n].domain == w.domain && StripSlashes(jar[w][n].path) == w.path
  }

  /** The tests that a cookie at a matching place has to pass. */
  predicate Passes(hostOnly: set<(Text, Text)>, req: Request, m: Morsel, name: Text) {
    && !((m.domain, name) in hostOnly && m.domain != req.host)
    && |m.path| <= |req.path|
    && !(req.insecure && m.secure)
  }

  // ---- the indexed lookup ----

  function Row(d: Text, ps: seq<Text>): seq<Where> { seq(|ps|, i requires 0 <= i < |ps| => Where(d, ps[i])) }

  /** Every domain with every path. */
  function Pairs(ds: seq<Text>, ps: seq<Text>): seq<Where> {
    if ds == [] then [] else Pairs(ds[..|ds| - 1], ps) + Row(ds[|ds| - 1], ps)
  }

  function Hits(jar: Jar, hostOnly: set<(Text, Text)>, req: Request, style: Style, w: Where): map<Text, Sent> {
    map n | n in CookiesAt(jar, w) && Passes(hostOnly, req, CookiesAt(jar, w)[n], n) :: Build(style, CookiesAt(jar, w)[n])
  }

  /** A later place overrides an earlier one. */
  function Overlay(jar: Jar, hostOnly: set<(Text, Text)>, req: Request, style: Style, ws: seq<Where>): map<Text, Sent> {
    if ws == [] then map[]
    else Overlay(jar, hostOnly, req, style, ws[..|ws| - 1]) + Hits(jar, hostOnly, req, style, ws[|ws| - 1])
  }

  /** The places that are looked up; an address has none unless the jar takes cookies from addresses. */
  function Places(req: Request, unsafe: bool): seq<Where> {
    if req.ip && !unsafe then [] else Pairs(Domains(req.host, req.ip), Paths(req.path))
  }

  // ---- the scan ----

  /** The cookie belongs to the request (section 5.4 of RFC 6265, point 1). */
  ghost predicate Belongs(jar: Jar, hostOnly: set<(Text, Text)>, req: Request, unsafe: bool, w: Where, n: Text) {
    && w in jar && n in jar[w]
    && (req.ip ==> unsafe)
    && DomainTest(jar[w][n].domain, req.host, req.ip)
    && PathTest(jar[w][n].path, req.path)
    && ((jar[w][n].domain, n) in hostOnly ==> req.host == jar[w][n].domain)
    && (jar[w][n].secure ==> !req.insecure)
  }

  predicate Below(v: Where, w: Where) {
    |v.domain| < |w.domain| || (|v.domain| == |w.domain| && |v.path| <= |w.path|)
  }

  /** Of the cookies of this name that belong to the request, the one with the longest domain and then the longest path. */
  ghost predicate Best(jar: Jar, hostOnly: set<(Text, Text)>, req: Request, unsafe: bool, w: Where, n: Text) {
    && Belongs(jar, hostOnly, req, unsafe, w, n)
    && forall v | Belongs(jar, hostOnly, req, unsafe, v, n) :: Below(v, w)
  }

  // ---- the lookup agrees with the scan ----

  lemma {:induction false} PairsAre(ds: seq<Text>, ps: seq<Text>)
    requires Growing(ds) && Growing(ps)
    ensures forall w :: w in Pairs(ds, ps) <==> w.domain in ds && w.path in ps
    ensures Ordered(Pairs(ds, ps))
  {
    if ds != [] {
      var front, d := ds[..|ds| - 1], ds[|ds| - 1];
      PairsAre(front, ps);
      var row := Row(d, ps);
      assert ds == front + [d];
      forall w ensures w in row <==> w.domain == d && w.path in ps {
        if w.path in ps {
          var i :| 0 <= i < |ps| && ps[i] == w.path;
          assert row[i] == Where(d, w.path);
        }
      }
      OrderedAppend(Pairs(front, ps), row, d);
    }
  }

  ghost predicate Ordered(ws: seq<Where>) {
    forall i, j | 0 <= i < j < |ws| :: Strictly(ws[i], ws[j])
  }

  predicate Strictly(v: Where, w: Where) {
    |v.domain| < |w.domain| || (|v.domain| == |w.domain| && |v.path| < |w.path|)
  }

  lemma OrderedAppend(a: seq<Where>, b: seq<Where>, d: Text)
    requires Ordered(a) && forall w | w in a :: |w.domain| < |d|
    requires Ordered(b) && forall w | w in b :: w.domain == d
    ensures Ordered(a + b)
  {
  }

  /** The last place that has a cookie of this name decides. */
  lemma {:induction false} OverlayLast(jar: Jar, hostOnly: set<(Text, Text)>, req: Request, style: Style,
                                       ws: seq<Where>, n: Text)
    ensures var r := Overlay(jar, hostOnly, req, style, ws);
            if n in r then
              exists i | 0 <= i < |ws| ::
                && n in Hits(jar, hostOnly, req, style, ws[i]) && r[n] == Hits(jar, hostOnly, req, style, ws[i])[n]
                && forall j | i < j < |ws| :: n !in Hits(jar, hostOnly, req, style, ws[j])
            else
              forall j | 0 <= j < |ws| :: n !in Hits(jar, hostOnly, req, style, ws[j])
  {
    hide Hits;
    if ws != [] {
      var front := ws[..|ws| - 1];
      OverlayLast(jar, hostOnly, req, style, front, n);
      assert forall j | 0 <= j < |front| :: front[j] == ws[j];
      if n in Hits(jar, hostOnly, req, style, ws[|ws| - 1]) {
        assert 0 <= |ws| - 1 < |ws|;
      }
    }
  }

  lemma HitsBelong(jar: Jar, hostOnly: set<(Text, Text)>, req: Request, style: Style, unsafe: bool, w: Where, n: Text)
    requires WellKept(jar)
    ensures w in Places(req, unsafe) && n in Hits(jar, hostOnly, req, style, w) <==> Belongs(jar, hostOnly, req, unsafe, w, n)
    ensures n in Hits(jar, hostOnly, req, style, w) ==>
              w in jar && n in jar[w] && Hits(jar, hostOnly, req, style, w)[n] == Build(style, jar[w][n])
  {
    PlacesAre(req, unsafe);
  }

  lemma PlacesAre(req: Request, unsafe: bool)
    ensures forall w :: w in Places(req, unsafe)
                   <==> (req.ip ==> unsafe) && DomainTest(w.domain, req.host, req.ip) && PathPrefix(w.path, req.path)
    ensures Ordered(Places(req, unsafe))
  {
    DomainsIff(req.host, req.ip);
    PathsIff(req.path);
    PairsAre(Domains(req.host, req.ip), Paths(req.path));
  }

  /** The lookup finds a cookie of a name exactly if a stored one belongs to the request, and then it finds the best. */
  lemma LookupIsScan(jar: Jar, hostOnly: set<(Text, Text)>, req: Request, style: Style, unsafe: bool, n: Text)
    requires WellKept(jar)
    ensures var r := Overlay(jar, hostOnly, req, style, Places(req, unsafe));
            && (n in r <==> exists w :: Belongs(jar, hostOnly, req, unsafe, w, n))
            && (n in r ==> exists w :: Best(jar, hostOnly, req, unsafe, w, n) && r[n] == Build(style, jar[w][n]))
  {
    hide Overlay, Places, Hits;
    var ws := Places(req, unsafe);
    var r := Overlay(jar, hostOnly, req, style, ws);
    OverlayLast(jar, hostOnly, req, style, ws, n);
    if n in r {
      var i :| 0 <= i < |ws|
            && n in Hits(jar, hostOnly, req, style, ws[i]) && r[n] == Hits(jar, hostOnly, req, style, ws[i])[n]
            && forall j | i < j < |ws| :: n !in Hits(jar, hostOnly, req, style, ws[j]);
      LastIsBest(jar, hostOnly, req, style, unsafe, i, n);
    } else {
      forall w ensures !Belongs(jar, hostOnly, req, unsafe, w, n) {
        HitsBelong(jar, hostOnly, req, style, unsafe, w, n);
      }
    }
  }

  /** What is found: for each name the best cookie of those that belong to the request, as it is built, and nothing else. */
  ghost predicate FindsBest(jar: Jar, hostOnly: set<(Text, Text)>, req: Request, style: Style, unsafe: bool, found: map<Text, Sent>) {
    forall n ::
      && (n in found <==> exists w :: Belongs(jar, hostOnly, req, unsafe, w, n))
      && (n in found ==> exists w :: Best(jar, hostOnly, req, unsafe, w, n) && found[n] == Build(style, jar[w][n]))
  }

  lemma OverlayFindsBest(jar: Jar, hostOnly: set<(Text, Text)>, req: Request, style: Style, unsafe: bool)
    requires WellKept(jar)
    ensures FindsBest(jar, hostOnly, req, style, unsafe, Overlay(jar, hostOnly, req, style, Places(req, unsafe)))
  {
    hide Overlay, Places, WellKept;
    var found := Overlay(jar, hostOnly, req, style, Places(req, unsafe));
    forall n
      ensures n in found <==> exists w :: Belongs(jar, hostOnly, req, unsafe, w, n)
      ensures n in found ==> exists w :: Best(jar, hostOnly, req, unsafe, w, n) && found[n] == Build(style, jar[w][n])
    {
      LookupIsScan(jar, hostOnly, req, style, unsafe, n);
    }
  }

  lemma LastIsBest(jar: Jar, hostOnly: set<(Text, Text)>, req: Request, style: Style, unsafe: bool, i: nat, n: Text)
    requires WellKept(jar)
    requires var ws := Places(req, unsafe);
             && i < |ws| && n in Hits(jar, hostOnly, req, style, ws[i])
             && forall j | i < j < |ws| :: n !in Hits(jar, hostOnly, req, style, ws[j])
    ensures var w := Places(req, unsafe)[i];
            && Best(jar, hostOnly, req, unsafe, w, n)
            && Hits(jar, hostOnly, req, style, w)[n] == Build(style, jar[w][n])
  {
    hide Places, Hits, Belongs, WellKept, CookiesAt;
    var ws := Places(req, unsafe);
    PlacesAre(req, unsafe);
    HitsBelong(jar, hostOnly, req, style, unsafe, ws[i], n);
    forall v | Belongs(jar, hostOnly, req, unsafe, v, n) ensures Below(v, ws[i]) {
      HitsBelong(jar, hostOnly, req, style, unsafe, v, n);
      var j :| 0 <= j < |ws| && ws[j] == v;
      assert j < i ==> Strictly(ws[j], ws[i]);
    }
  }

  /** There is only one best cookie of a name. */
  lemma BestUnique(jar: Jar, hostOnly: set<(Text, Text)>, req: Request, unsafe: bool, v: Where, w: Where, n: Text)
    requires WellKept(jar)
    requires Best(jar, hostOnly, req, unsafe, v, n) && Best(jar, hostOnly, req, unsafe, w, n)
    ensures v == w
  {
    hide Places, Belongs, WellKept;
    PlacesAre(req, unsafe);
    BelongsPlaced(jar, hostOnly, req, unsafe, v, n);
    BelongsPlaced(jar, hostOnly, req, unsafe, w, n);
    var ws := Places(req, unsafe);
    var i :| 0 <= i < |ws| && ws[i] == v;
    var j :| 0 <= j < |ws| && ws[j] == w;
    assert i < j ==> Strictly(v, w);
    assert j < i ==> Strictly(w, v);
  }

  lemma BelongsPlaced(jar: Jar, hostOnly: set<(Text, Text)>, req: Request, unsafe: bool, w: Where, n: Text)
    requires WellKept(jar) && Belongs(jar, hostOnly, req, unsafe, w, n)
    ensures w in Places(req, unsafe)
  {
    hide Places;
    PlacesAre(req, unsafe);
  }
}
