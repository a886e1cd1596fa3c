/** The order in which addresses are tried: interleaving by family (section 4 of RFC 8305), and what is dropped from the
    list after a failed attempt. */
module AddressOrder {
  import opened Bytes

  type Address = string

  datatype AddrInfo = AddrInfo(family: int, addr: Address)

  /** The addresses of a family, in order. */
  function OfFamily(l: seq<AddrInfo>, f: int): seq<AddrInfo> {
    if l == [] then [] else (if l[0].family == f then [l[0]] else []) + OfFamily(l[1..], f)
  }

  lemma OneMore(a: seq<AddrInfo>, b: seq<AddrInfo>, c: seq<AddrInfo>)
    ensures a + (b + c) == (a + b) + c
  {
  }

  lemma {:induction false} OfFamilyAppend(a: seq<AddrInfo>, b: seq<AddrInfo>, f: int)
    ensures OfFamily(a + b, f) == OfFamily(a, f) + OfFamily(b, f)
  {
    if a == [] {
      assert a + b == b;
    } else {
      OfFamilyAppend(a[1..], b, f);
      assert (a + b)[1..] == a[1..] + b;
      OneMore(if a[0].family == f then [a[0]] else [], OfFamily(a[1..], f), OfFamily(b, f));
    }
  }

  lemma {:induction false} OfFamilyAll(l: seq<AddrInfo>, g: int, f: int)
    requires forall a | a in l :: a.family == g
    ensures OfFamily(l, f) == if f == g then l else []
  {
    if l != [] {
      OfFamilyAll(l[1..], g, f);
      assert l == [l[0]] + l[1..];
    }
  }

  lemma {:induction false} OfFamilyFamily(l: seq<AddrInfo>, f: int)
    ensures forall a | a in OfFamily(l, f) :: a.family == f
  {
    if l != [] { OfFamilyFamily(l[1..], f); }
  }

  /** Lists that agree on every family hold the same addresses, as often. */
  lemma {:induction false} SameAddresses(a: seq<AddrInfo>, b: seq<AddrInfo>)
    requires forall f :: OfFamily(a, f) == OfFamily(b, f)
    ensures multiset(a) == multiset(b)
  {
    forall x ensures multiset(a)[x] == multiset(b)[x] {
      CountInFamily(a, x);
      CountInFamily(b, x);
      assert OfFamily(a, x.family) == OfFamily(b, x.family);
    }
  }

  lemma {:induction false} CountInFamily(l: seq<AddrInfo>, x: AddrInfo)
    ensures multiset(l)[x] == multiset(OfFamily(l, x.family))[x]
  {
    if l != [] {
      CountInFamily(l[1..], x);
      assert l == [l[0]] + l[1..];
    }
  }

  // ---- interleaving ----

  /** The families in the order in which they first appear. */
  function Families(l: seq<AddrInfo>): seq<int> {
    if l == [] then []
    else
      var fs := Families(l[..|l| - 1]);
      if l[|l| - 1].family in fs then fs else fs + [l[|l| - 1].family]
  }

  lemma {:induction false} FamiliesAre(l: seq<AddrInfo>)
    ensures forall a | a in l :: a.family in Families(l)
    ensures forall i, j | 0 <= i < j < |Families(l)| :: Families(l)[i] != Families(l)[j]
    ensures l != [] ==> Families(l) != [] && Families(l)[0] == l[0].family
    ensures forall f | f in Families(l) :: OfFamily(l, f) != []
  {
    if l != [] {
      var front, x := l[..|l| - 1], l[|l| - 1];
      assert l == front + [x];
      FamiliesAre(front);
      forall f | f in Families(l) ensures OfFamily(l, f) != [] {
        OfFamilyAppend(front, [x], f);
      }
    }
  }

  function Lists(l: seq<AddrInfo>): seq<seq<AddrInfo>> {
    seq(|Families(l)|, i requires 0 <= i < |Families(l)| => OfFamily(l, Families(l)[i]))
  }

  function Heads(ls: seq<seq<AddrInfo>>): seq<AddrInfo> {
    if ls == [] then [] else (if ls[0] == [] then [] else [ls[0][0]]) + Heads(ls[1..])
  }

  function Tails(ls: seq<seq<AddrInfo>>): (r: seq<seq<AddrInfo>>)
    ensures |r| == |ls| && forall i | 0 <= i < |ls| :: r[i] == if ls[i] == [] then [] else ls[i][1..]
  {
    if ls == [] then [] else [if ls[0] == [] then [] else ls[0][1..]] + Tails(ls[1..])
  }

  function Longest(ls: seq<seq<AddrInfo>>): (m: nat)
    ensures forall l | l in ls :: |l| <= m
    ensures m > 0 ==> exists l :: l in ls && |l| == m
  {
    if ls == [] then 0 else var m := Longest(ls[1..]); if |ls[0]| > m then |ls[0]| else m
  }

  lemma {:induction false} LongestTails(ls: seq<seq<AddrInfo>>)
    ensures Longest(Tails(ls)) == if Longest(ls) == 0 then 0 else Longest(ls) - 1
  {
    if ls != [] { LongestTails(ls[1..]); }
  }

  /** In turn, one of each list that has one left. */
  function RoundRobin(ls: seq<seq<AddrInfo>>): seq<AddrInfo>
    decreases Longest(ls)
  {
    if Longest(ls) == 0 then []
    else
      LongestTails(ls);
      Heads(ls) + RoundRobin(Tails(ls))
  }

  function Lead(ls: seq<seq<AddrInfo>>, count: int): nat
    requires ls != []
  {
    if count - 1 < |ls[0]| then if count > 1 then count - 1 else 0 else |ls[0]|
  }

  /** `count - 1` addresses of the first family lead, then the families take turns. */
  function Interleaved(l: seq<AddrInfo>, count: int): seq<AddrInfo> {
    var ls := Lists(l);
    if ls == [] then []
    else ls[0][..Lead(ls, count)] + RoundRobin(ls[0 := ls[0][Lead(ls, count)..]])
  }

  /** Each list is of one family, and no two of the same. */
  ghost predicate ByFamily(ls: seq<seq<AddrInfo>>, fs: seq<int>) {
    && |ls| == |fs|
    && (forall i | 0 <= i < |ls| :: forall a | a in ls[i] :: a.family == fs[i])
    && (forall i, j | 0 <= i < j < |fs| :: fs[i] != fs[j])
  }

  ghost function Of(ls: seq<seq<AddrInfo>>, fs: seq<int>, f: int): seq<AddrInfo>
    requires |ls| == |fs|
  {
    if fs == [] then [] else if fs[0] == f then ls[0] else Of(ls[1..], fs[1..], f)
  }

  lemma {:induction false} HeadsOf(ls: seq<seq<AddrInfo>>, fs: seq<int>, f: int)
    requires ByFamily(ls, fs)
    ensures var l := Of(ls, fs, f);
            OfFamily(Heads(ls), f) == (if l == [] then [] else [l[0]]) && Of(Tails(ls), fs, f) == if l == [] then [] else l[1..]
    ensures ByFamily(Tails(ls), fs)
  {
    hide OfFamily, Heads, Tails;
    TailsByFamily(ls, fs);
    HeadsNone(ls);
    if fs != [] {
      HeadsOf(ls[1..], fs[1..], f);
      HeadsCons(ls);
      var one := if ls[0] == [] then [] else [ls[0][0]];
      OfFamilyAppend(one, Heads(ls[1..]), f);
      OfFamilyAll(one, fs[0], f);
      if fs[0] == f { NotOf(ls[1..], fs[1..], f); }
    } else {
      OfFamilyAll([], f, f);
    }
  }

  lemma HeadsCons(ls: seq<seq<AddrInfo>>)
    requires ls != []
    ensures Heads(ls) == (if ls[0] == [] then [] else [ls[0][0]]) + Heads(ls[1..])
    ensures Tails(ls) == [if ls[0] == [] then [] else ls[0][1..]] + Tails(ls[1..])
  {
  }

  lemma TailsByFamily(ls: seq<seq<AddrInfo>>, fs: seq<int>)
    requires ByFamily(ls, fs)
    ensures ByFamily(Tails(ls), fs)
  {
    hide Tails;
  }

  lemma {:induction false} NotOf(ls: seq<seq<AddrInfo>>, fs: seq<int>, f: int)
    requires |ls| == |fs| && f !in fs
    ensures Of(ls, fs, f) == []
  {
    if fs != [] { NotOf(ls[1..], fs[1..], f); }
  }

  lemma HeadAndTail(l: seq<AddrInfo>)
    ensures (if l == [] then [] else [l[0]]) + (if l == [] then [] else l[1..]) == l
  {
  }

  lemma RoundRobinStep(ls: seq<seq<AddrInfo>>)
    ensures if Longest(ls) == 0 then RoundRobin(ls) == [] && forall i | 0 <= i < |ls| :: ls[i] == []
            else RoundRobin(ls) == Heads(ls) + RoundRobin(Tails(ls)) && Longest(Tails(ls)) < Longest(ls)
  {
    LongestTails(ls);
  }

  lemma {:induction false} RoundRobinOf(ls: seq<seq<AddrInfo>>, fs: seq<int>, f: int)
    requires |ls| == |fs| && ByFamily(ls, fs)
    ensures OfFamily(RoundRobin(ls), f) == Of(ls, fs, f)
    decreases Longest(ls)
  {
    hide RoundRobin, Heads, Tails, Of, OfFamily, ByFamily, Longest;
    RoundRobinStep(ls);
    if Longest(ls) == 0 {
      OfEmpty(ls, fs, f);
      FamiliesNone();
    } else {
      HeadsOf(ls, fs, f);
      RoundRobinOf(Tails(ls), fs, f);
      OfFamilyAppend(Heads(ls), RoundRobin(Tails(ls)), f);
      HeadAndTail(Of(ls, fs, f));
    }
  }

  lemma {:induction false} OfEmpty(ls: seq<seq<AddrInfo>>, fs: seq<int>, f: int)
    requires |ls| == |fs| && forall i | 0 <= i < |ls| :: ls[i] == []
    ensures Of(ls, fs, f) == []
  {
    if fs != [] { OfEmpty(ls[1..], fs[1..], f); }
  }

  lemma {:induction false} OfLists(l: seq<AddrInfo>, ls: seq<seq<AddrInfo>>, fs: seq<int>, f: int)
    requires |ls| == |fs| && forall i | 0 <= i < |fs| :: ls[i] == OfFamily(l, fs[i])
    ensures Of(ls, fs, f) == if f in fs then OfFamily(l, f) else []
  {
    if fs != [] { OfLists(l, ls[1..], fs[1..], f); }
  }

  lemma {:induction false} NoneOfFamily(l: seq<AddrInfo>, f: int)
    requires forall a | a in l :: a.family != f
    ensures OfFamily(l, f) == []
  {
    if l != [] { NoneOfFamily(l[1..], f); }
  }

  lemma ListsByFamily(l: seq<AddrInfo>, count: int)
    requires l != []
    ensures var ls := Lists(l);
            && ls != [] && ByFamily(ls, Families(l))
            && ByFamily(ls[0 := ls[0][Lead(ls, count)..]], Families(l))
  {
    FamiliesAre(l);
    forall i | 0 <= i < |Lists(l)| ensures forall a | a in Lists(l)[i] :: a.family == Families(l)[i] {
      OfFamilyFamily(l, Families(l)[i]);
    }
  }

  /** Interleaving keeps every address, and the order within each family. */
  lemma InterleavedKeeps(l: seq<AddrInfo>, count: int)
    ensures forall f :: OfFamily(Interleaved(l, count), f) == OfFamily(l, f)
    ensures multiset(Interleaved(l, count)) == multiset(l)
  {
    if l != [] {
      forall f ensures OfFamily(Interleaved(l, count), f) == OfFamily(l, f) {
        FamilyKept(l, count, f);
      }
      SameAddresses(Interleaved(l, count), l);
    }
  }

  lemma FamilyKept(l: seq<AddrInfo>, count: int, f: int)
    requires l != []
    ensures OfFamily(Interleaved(l, count), f) == OfFamily(l, f)
  {
    hide OfFamily, Families, RoundRobin, Of, ByFamily;
    ListsByFamily(l, count);
    FamiliesAre(l);
    var ls, fs := Lists(l), Families(l);
    LeadOf(ls, fs, Lead(ls, count), f);
    OfLists(l, ls, fs, f);
    if f !in fs { NoneOfFamily(l, f); }
  }

  lemma LeadOf(ls: seq<seq<AddrInfo>>, fs: seq<int>, k: nat, f: int)
    requires ls != [] && ByFamily(ls, fs) && k <= |ls[0]| && ByFamily(ls[0 := ls[0][k..]], fs)
    ensures OfFamily(ls[0][..k] + RoundRobin(ls[0 := ls[0][k..]]), f) == Of(ls, fs, f)
  {
    hide OfFamily, RoundRobin;
    var ls1 := ls[0 := ls[0][k..]];
    OfFamilyAppend(ls[0][..k], RoundRobin(ls1), f);
    RoundRobinOf(ls1, fs, f);
    OfFamilyAll(ls[0][..k], fs[0], f);
    assert ls1[1..] == ls[1..];
    if fs[0] == f { assert ls[0][..k] + ls[0][k..] == ls[0]; }
  }

  /** The First Address Family Count: so many addresses of the first family lead, and then comes the second family. */
  lemma FirstFamilyCount(l: seq<AddrInfo>, count: int)
    requires l != [] && count >= 1
    ensures var r, fs := Interleaved(l, count), Families(l);
            var n := if |OfFamily(l, fs[0])| < count then |OfFamily(l, fs[0])| else count;
            && fs[0] == l[0].family && n <= |r|
            && (forall i | 0 <= i < n :: r[i].family == fs[0])
            && (|fs| > 1 ==> n < |r| && r[n].family == fs[1])
  {
    hide OfFamily, Families, RoundRobin, ByFamily;
    ListsByFamily(l, count);
    FamiliesAre(l);
    OfFamilyFamily(l, l[0].family);
    LeadBegins(Lists(l), Families(l), Lead(Lists(l), count));
  }

  lemma LeadBegins(ls: seq<seq<AddrInfo>>, fs: seq<int>, k: nat)
    requires ls != [] && k <= |ls[0]| && |ls| == |fs| && ByFamily(ls[0 := ls[0][k..]], fs) && (|fs| > 1 ==> ls[1] != [])
    requires forall a | a in ls[0] :: a.family == fs[0]
    ensures var r := ls[0][..k] + RoundRobin(ls[0 := ls[0][k..]]);
            var n := if k < |ls[0]| then k + 1 else k;
            && n <= |r| && (forall i | 0 <= i < n :: r[i].family == fs[0])
            && (|fs| > 1 ==> n < |r| && r[n].family == fs[1])
  {
    hide RoundRobin, ByFamily;
    RoundBegins(ls[0 := ls[0][k..]], fs);
  }

  /** The first round takes one of the first list, if it has one, and then one of the second. */
  lemma RoundBegins(ls: seq<seq<AddrInfo>>, fs: seq<int>)
    requires ls != [] && ByFamily(ls, fs) && (|fs| > 1 ==> ls[1] != [])
    ensures var r, n := RoundRobin(ls), if ls[0] == [] then 0 else 1;
            n <= |r| && (n == 1 ==> r[0].family == fs[0]) && (|fs| > 1 ==> n < |r| && r[n].family == fs[1])
  {
    hide RoundRobin, Longest, Tails, Heads;
    RoundRobinStep(ls);
    HeadsCons(ls);
    if |fs| > 1 { HeadsCons(ls[1..]); }
  }

  // ---- dropping the first of each family ----

  function Count(seen: map<int, nat>, f: int): nat { if f in seen then seen[f] else 0 }

  /** The addresses that are dropped: the first `k` of each family, counting those seen before. */
  function Dropped(l: seq<AddrInfo>, seen: map<int, nat>, k: int): seq<AddrInfo> {
    if l == [] then []
    else
      var f := l[0].family;
      (if Count(seen, f) < k then [l[0]] else []) + Dropped(l[1..], seen[f := Count(seen, f) + 1], k)
  }

  /** The others, in their order. */
  function Remaining(l: seq<AddrInfo>, seen: map<int, nat>, k: int): seq<AddrInfo> {
    if l == [] then []
    else
      var f := l[0].family;
      (if Count(seen, f) < k then [] else [l[0]]) + Remaining(l[1..], seen[f := Count(seen, f) + 1], k)
  }

  function RemoveAll(l: seq<AddrInfo>, xs: seq<AddrInfo>): seq<AddrInfo>
    decreases |xs|
  {
    if xs == [] then l else RemoveAll(RemoveFirst(l, xs[0]), xs[1..])
  }

  lemma {:induction false} RemoveAllSkips(x: AddrInfo, l: seq<AddrInfo>, xs: seq<AddrInfo>)
    requires x !in xs
    ensures RemoveAll([x] + l, xs) == [x] + RemoveAll(l, xs)
    decreases |xs|
  {
    if xs != [] {
      assert RemoveFirst([x] + l, xs[0]) == [x] + RemoveFirst(l, xs[0]);
      RemoveAllSkips(x, RemoveFirst(l, xs[0]), xs[1..]);
    }
  }

  lemma {:induction false} DroppedNot(l: seq<AddrInfo>, seen: map<int, nat>, k: int, x: AddrInfo)
    requires Count(seen, x.family) >= k
    ensures x !in Dropped(l, seen, k)
  {
    if l != [] { DroppedNot(l[1..], seen[l[0].family := Count(seen, l[0].family) + 1], k, x); }
  }

  /** Though each is found by its value, equal addresses do not matter: what is taken out is the dropped ones. */
  lemma {:induction false} RemoveDropped(l: seq<AddrInfo>, seen: map<int, nat>, k: int)
    ensures RemoveAll(l, Dropped(l, seen, k)) == Remaining(l, seen, k)
  {
    if l != [] {
      var f := l[0].family;
      var seen1 := seen[f := Count(seen, f) + 1];
      RemoveDropped(l[1..], seen1, k);
      var rest := Dropped(l[1..], seen1, k);
      assert l == [l[0]] + l[1..];
      if Count(seen, f) < k {
        var all := [l[0]] + rest;
        assert all[0] == l[0] && all[1..] == rest && RemoveFirst(l, l[0]) == l[1..];
        assert RemoveAll(l, all) == RemoveAll(l[1..], rest);
        assert Remaining(l, seen, k) == Remaining(l[1..], seen1, k);
      } else {
        DroppedNot(l[1..], seen1, k, l[0]);
        RemoveAllSkips(l[0], l[1..], rest);
        assert Dropped(l, seen, k) == rest;
      }
    }
  }

  /** Without the first `m`, if there are so many. */
  function Skip(l: seq<AddrInfo>, m: int): seq<AddrInfo> {
    if m <= 0 then l else if m < |l| then l[m..] else []
  }

  lemma SkipCons(x: AddrInfo, xs: seq<AddrInfo>, m: int)
    ensures Skip([x] + xs, m) == if m <= 0 then [x] + xs else Skip(xs, m - 1)
  {
  }

  /** Of each family, exactly the first `k` are gone. */
  lemma {:induction false} RemainingOf(l: seq<AddrInfo>, seen: map<int, nat>, k: int, f: int)
    ensures OfFamily(Remaining(l, seen, k), f) == Skip(OfFamily(l, f), k - Count(seen, f))
  {
    if l != [] {
      var x, n := l[0], Count(seen, l[0].family);
      var seen1 := seen[x.family := n + 1];
      RemainingOf(l[1..], seen1, k, f);
      RemainingStep(l, seen, k, f, seen1);
    }
  }

  lemma RemainingStep(l: seq<AddrInfo>, seen: map<int, nat>, k: int, f: int, seen1: map<int, nat>)
    requires l != [] && seen1 == seen[l[0].family := Count(seen, l[0].family) + 1]
    requires OfFamily(Remaining(l[1..], seen1, k), f) == Skip(OfFamily(l[1..], f), k - Count(seen1, f))
    ensures OfFamily(Remaining(l, seen, k), f) == Skip(OfFamily(l, f), k - Count(seen, f))
  {
    hide Skip, OfFamily, Remaining;
    RemainingCons(l, seen, k, f);
    var kept := if Count(seen, l[0].family) < k then [] else [l[0]];
    OfFamilyAppend(kept, Remaining(l[1..], seen1, k), f);
    var rest := OfFamily(Remaining(l[1..], seen1, k), f);
    assert [] + rest == rest && [] + OfFamily(l[1..], f) == OfFamily(l[1..], f);
    assert Count(seen1, f) == if l[0].family == f then Count(seen, f) + 1 else Count(seen, f);
    if l[0].family == f {
      SkipCons(l[0], OfFamily(l[1..], f), k - Count(seen, f));
      SkipNone(OfFamily(l[1..], f), k - Count(seen1, f));
    }
  }

  lemma RemainingCons(l: seq<AddrInfo>, seen: map<int, nat>, k: int, f: int)
    requires l != []
    ensures var n := Count(seen, l[0].family);
            Remaining(l, seen, k) == (if n < k then [] else [l[0]]) + Remaining(l[1..], seen[l[0].family := n + 1], k)
    ensures OfFamily(l, f) == if l[0].family == f then [l[0]] + OfFamily(l[1..], f) else OfFamily(l[1..], f)
    ensures OfFamily([l[0]], f) == (if l[0].family == f then [l[0]] else []) && OfFamily([], f) == []
  {
    assert [l[0]][1..] == [];
  }

  lemma SkipNone(l: seq<AddrInfo>, m: int)
    ensures m <= 0 ==> Skip(l, m) == l
  {
  }

  /** The list becomes shorter exactly if some are to be dropped at all. */
  lemma {:induction false} Shrinks(l: seq<AddrInfo>, seen: map<int, nat>, k: int)
    ensures |Remaining(l, seen, k)| + |Dropped(l, seen, k)| == |l|
    ensures l != [] && Count(seen, l[0].family) == 0 ==> (|Remaining(l, seen, k)| < |l| <==> k >= 1)
    ensures k <= 0 ==> Remaining(l, seen, k) == l
  {
    if l != [] {
      Shrinks(l[1..], seen[l[0].family := Count(seen, l[0].family) + 1], k);
    }
  }

  // ---- dropping what matches ----

  function Select(l: seq<AddrInfo>, p: AddrInfo -> bool): seq<AddrInfo> {
    if l == [] then [] else (if p(l[0]) then [l[0]] else []) + Select(l[1..], p)
  }

  function Discard(l: seq<AddrInfo>, p: AddrInfo -> bool): seq<AddrInfo> {
    if l == [] then [] else (if p(l[0]) then [] else [l[0]]) + Discard(l[1..], p)
  }

  function Same(addr: Address): AddrInfo -> bool { (a: AddrInfo) => a.addr == addr }

  /** The same address, perhaps written in another way. */
  function Alike(addr: Address, parse: Address -> Address): AddrInfo -> bool {
    (a: AddrInfo) => parse(a.addr) == parse(addr)
  }

  lemma {:induction false} DiscardAre(l: seq<AddrInfo>, p: AddrInfo -> bool)
    ensures forall a :: a in Discard(l, p) <==> a in l && !p(a)
  {
    if l != [] {
      DiscardAre(l[1..], p);
      assert l == [l[0]] + l[1..];
    }
  }

  lemma WhatMatches(l: seq<AddrInfo>, addr: Address, parse: Address -> Address)
    ensures forall a :: a in Discard(l, Same(addr)) <==> a in l && a.addr != addr
    ensures forall a :: a in Discard(l, Alike(addr, parse)) <==> a in l && parse(a.addr) != parse(addr)
    ensures Select(l, Same(addr)) == [] <==> forall a :: a in l ==> a.addr != addr
    ensures Select(l, Alike(addr, parse)) == [] <==> forall a :: a in l ==> parse(a.addr) != parse(addr)
  {
    hide Discard, Select;
    DiscardAre(l, Same(addr));
    DiscardAre(l, Alike(addr, parse));
    SelectAre(l, Same(addr));
    SelectAre(l, Alike(addr, parse));
    var same, alike := Select(l, Same(addr)), Select(l, Alike(addr, parse));
    assert (same != [] ==> same[0] in same) && (alike != [] ==> alike[0] in alike);
  }

  lemma {:induction false} SelectAre(l: seq<AddrInfo>, p: AddrInfo -> bool)
    ensures forall a :: a in Select(l, p) <==> a in l && p(a)
  {
    if l != [] {
      SelectAre(l[1..], p);
      assert l == [l[0]] + l[1..];
    }
  }

  /** Taking out, by its value, each address that matches leaves those that do not. */
  lemma {:induction false} RemoveSelected(l: seq<AddrInfo>, p: AddrInfo -> bool)
    ensures RemoveAll(l, Select(l, p)) == Discard(l, p)
  {
    if l != [] {
      RemoveSelected(l[1..], p);
      var rest := Select(l[1..], p);
      assert l == [l[0]] + l[1..];
      if p(l[0]) {
        var all := [l[0]] + rest;
        assert all[0] == l[0] && all[1..] == rest && RemoveFirst(l, l[0]) == l[1..];
        assert RemoveAll(l, all) == RemoveAll(l[1..], rest);
        assert Discard(l, p) == Discard(l[1..], p);
      } else {
        SelectAre(l[1..], p);
        RemoveAllSkips(l[0], l[1..], rest);
        assert Select(l, p) == rest;
      }
    }
  }

  lemma {:induction false} SelectShrinks(l: seq<AddrInfo>, p: AddrInfo -> bool)
    ensures |Select(l, p)| + |Discard(l, p)| == |l|
  {
    if l != [] { SelectShrinks(l[1..], p); }
  }

  // ---- the operations ----

  /** Only an empty list, of which a count of addresses is to lead, is an error. */
  method InterleaveAddrinfos(addrinfos: seq<AddrInfo>, firstFamilyCount: int) returns (r: Option<seq<AddrInfo>>)
    ensures r == if addrinfos == [] && firstFamilyCount > 1 then None else Some(Interleaved(addrinfos, firstFamilyCount))
  {
    hide Families, OfFamily, RoundRobin;
    var lists := GroupByFamily(addrinfos);
    FamiliesAre(addrinfos);
    FamiliesNone();
    ghost var ls := lists;
    var reordered := [];
    if firstFamilyCount > 1 {
      if lists == [] { return None; }
      var n := if firstFamilyCount - 1 < |lists[0]| then firstFamilyCount - 1 else |lists[0]|;
      reordered := lists[0][..n];
      lists := lists[0 := lists[0][n..]];
    }
    RoundRobinStep([]);
    assert if ls == [] then reordered + RoundRobin(lists) == []
           else reordered == ls[0][..Lead(ls, firstFamilyCount)] && lists == ls[0 := ls[0][Lead(ls, firstFamilyCount)..]];
    var rounds := TakeTurns(lists);
    return Some(reordered + rounds);
  }

  method GroupByFamily(addrinfos: seq<AddrInfo>) returns (lists: seq<seq<AddrInfo>>)
    ensures lists == Lists(addrinfos)
  {
    hide Families, OfFamily;
    FamiliesNone();
    var families: seq<int> := [];
    var byFamily: map<int, seq<AddrInfo>> := map[];
    for n := 0 to |addrinfos|
      invariant families == Families(addrinfos[..n])
      invariant forall f :: f in byFamily <==> f in families
      invariant forall f | f in byFamily :: byFamily[f] == OfFamily(addrinfos[..n], f)
      invariant forall f | f !in byFamily :: OfFamily(addrinfos[..n], f) == []
    {
      var a := addrinfos[n];
      FamiliesSnoc(addrinfos[..n], a);
      assert addrinfos[..n + 1] == addrinfos[..n] + [a];
      if a.family !in byFamily {
        families := families + [a.family];
        byFamily := byFamily[a.family := []];
      }
      byFamily := byFamily[a.family := byFamily[a.family] + [a]];
    }
    assert addrinfos[..|addrinfos|] == addrinfos;
    lists := [];
    for n := 0 to |families|
      invariant |lists| == n && forall i | 0 <= i < n :: lists[i] == OfFamily(addrinfos, families[i])
    {
      var f := families[n];
      assert f in families && f in byFamily;
      lists := lists + [byFamily[f]];
    }
  }

  lemma FamiliesNone()
    ensures Families([]) == [] && forall f :: OfFamily([], f) == []
  {
  }

  lemma FamiliesSnoc(l: seq<AddrInfo>, a: AddrInfo)
    ensures Families(l + [a]) == if a.family in Families(l) then Families(l) else Families(l) + [a.family]
    ensures forall f :: OfFamily(l + [a], f) == if f == a.family then OfFamily(l, f) + [a] else OfFamily(l, f)
  {
    assert (l + [a])[..|l|] == l;
    forall f ensures OfFamily(l + [a], f) == if f == a.family then OfFamily(l, f) + [a] else OfFamily(l, f) {
      OfFamilyAppend(l, [a], f);
      OfFamilyAll([a], a.family, f);
    }
  }

  method TakeTurns(lists: seq<seq<AddrInfo>>) returns (r: seq<AddrInfo>)
    ensures r == RoundRobin(lists)
  {
    r := [];
    var rest := lists;
    while Longest(rest) > 0
      invariant r + RoundRobin(rest) == RoundRobin(lists)
      decreases Longest(rest)
    {
      RoundRobinStep(rest);
      OneMore(r, Heads(rest), RoundRobin(Tails(rest)));
      var round := Round(rest);
      r := r + round;
      rest := Tails(rest);
    }
    RoundRobinStep(rest);
  }

  method Round(lists: seq<seq<AddrInfo>>) returns (r: seq<AddrInfo>)
    ensures r == Heads(lists)
  {
    hide Heads;
    r := [];
    assert lists[0..] == lists && [] + Heads(lists) == Heads(lists);
    for n := 0 to |lists|
      invariant r + Heads(lists[n..]) == Heads(lists)
    {
      HeadsFrom(lists, n);
      if lists[n] != [] {
        OneMore(r, [lists[n][0]], Heads(lists[n + 1..]));
        r := r + [lists[n][0]];
      }
    }
    HeadsNone(lists[|lists|..]);
    assert r + [] == r;
  }

  lemma HeadsFrom(ls: seq<seq<AddrInfo>>, n: nat)
    requires n < |ls|
    ensures Heads(ls[n..]) == if ls[n] == [] then Heads(ls[n + 1..]) else [ls[n][0]] + Heads(ls[n + 1..])
  {
    assert ls[n..][1..] == ls[n + 1..];
  }

  lemma HeadsNone(ls: seq<seq<AddrInfo>>)
    ensures ls == [] ==> Heads(ls) == []
  {
  }

  method FirstOfEach(l: seq<AddrInfo>, k: int) returns (toRemove: seq<AddrInfo>)
    ensures toRemove == Dropped(l, map[], k)
  {
    var seen: map<int, nat> := map[];
    toRemove := [];
    for n := 0 to |l|
      invariant toRemove + Dropped(l[n..], seen, k) == Dropped(l, map[], k)
    {
      var a := l[n];
      assert l[n..][1..] == l[n + 1..];
      OneMore(toRemove, if Count(seen, a.family) < k then [a] else [],
              Dropped(l[n + 1..], seen[a.family := Count(seen, a.family) + 1], k));
      assert toRemove + [] == toRemove;
      ghost var seen1 := seen[a.family := Count(seen, a.family) + 1];
      if a.family !in seen { seen := seen[a.family := 0]; }
      if seen[a.family] < k { toRemove := toRemove + [a]; }
      seen := seen[a.family := seen[a.family] + 1];
      assert seen == seen1;
    }
  }

  /** The list of addresses that is still to be tried; a failed attempt shortens it in place. */
  class AddressList {
    var items: seq<AddrInfo>

    constructor (items: seq<AddrInfo>)
      ensures this.items == items
    {
      this.items := items;
    }

    /** Drops the first `interleave` of each family, one if no number is given. */
    method PopInterleave(interleave: Option<int>)
      modifies this
      ensures items == Remaining(old(items), map[], if interleave.Some? then interleave.value else 1)
    {
      var k := if interleave.Some? then interleave.value else 1;
      var toRemove := FirstOfEach(items, k);
      RemoveDropped(items, map[], k);
      Remove(toRemove);
    }

    /** Each is taken out at its first place. */
    method Remove(xs: seq<AddrInfo>)
      modifies this
      ensures items == RemoveAll(old(items), xs)
    {
      for n := 0 to |xs|
        invariant RemoveAll(items, xs[n..]) == RemoveAll(old(items), xs)
      {
        assert xs[n..][1..] == xs[n + 1..];
        items := RemoveFirst(items, xs[n]);
      }
    }

    /** Drops an address that is not to be trusted: those that equal it, or else those that are the same address
        written in another way. It is an error if there is none. */
    method RemoveAddr(addr: Address, parse: Address -> Address) returns (ok: bool)
      modifies this
      ensures var same, alike := Select(old(items), Same(addr)), Select(old(items), Alike(addr, parse));
              && ok == (same != [] || alike != [])
              && items == (if same != [] then Discard(old(items), Same(addr))
                           else if alike != [] then Discard(old(items), Alike(addr, parse))
                           else old(items))
      ensures ok ==> |items| < |old(items)|
      ensures ok <==> exists a :: a in old(items) && (a.addr == addr || parse(a.addr) == parse(addr))
      ensures forall a :: a in items <==>
                && a in old(items)
                && if exists b :: b in old(items) && b.addr == addr then a.addr != addr else parse(a.addr) != parse(addr)
    {
      WhatMatches(items, addr, parse);
      var matching := Same(addr);
      if Select(items, matching) == [] {
        matching := Alike(addr, parse);
        if Select(items, matching) == [] { return false; }
      }
      SelectShrinks(items, matching);
      RemoveSelected(items, matching);
      var bad := Select(items, matching);
      Remove(bad);
      return true;
    }

    /** The attempts of a connection: whatever fails, there are no more of them than addresses; and what is left to try is
        exactly what the failures leave, so that it gives up only when nothing is. */
    method TryAll(interleave: Option<int>, parse: Address -> Address)
      returns (r: Attempted, attempts: nat, ghost failures: seq<Failure>)
      requires interleave.Some? ==> interleave.value >= 1
      modifies this
      ensures attempts <= |old(items)| && (old(items) != [] ==> attempts > 0)
      ensures r.Exhausted? <==> items == []
      ensures items == Left(old(items), failures, interleave, parse)
      ensures attempts == |failures| + if r.Exhausted? then 0 else 1
    {
      hide Left, LeftAfter, Remaining, Select, Discard;
      attempts, failures := 0, [];
      LeftNone(items, interleave, parse);
      while items != []
        invariant attempts + |items| <= |old(items)| && (attempts == 0 ==> items == old(items))
        invariant items == Left(old(items), failures, interleave, parse) && attempts == |failures|
        decreases |items|
      {
        attempts := attempts + 1;
        var outcome: int := *;
        if outcome == 0 { return Connected, attempts, failures; }
        if outcome == 1 {
          Shrinks(items, map[], if interleave.Some? then interleave.value else 1);
          PopInterleave(interleave);
          LeftMore(old(items), failures, Unreachable, interleave, parse);
          failures := failures + [Unreachable];
        } else {
          var peer: Address := *;
          LeftMore(old(items), failures, Mismatch(peer), interleave, parse);
          var ok := RemoveAddr(peer, parse);
          if !ok { return UnknownPeer, attempts, failures; }
          failures := failures + [Mismatch(peer)];
        }
      }
      return Exhausted, attempts, failures;
    }
  }

  datatype Attempted = Connected | Exhausted | UnknownPeer

  /** Why an attempt failed: nobody answered, or somebody with the wrong certificate did. */
  datatype Failure = Unreachable | Mismatch(peer: Address)

  /** The addresses left after one failure: without the first of each family, as many as were tried; or without the peer. */
  function LeftAfter(l: seq<AddrInfo>, f: Failure, interleave: Option<int>, parse: Address -> Address): seq<AddrInfo> {
    match f
    case Unreachable => Remaining(l, map[], if interleave.Some? then interleave.value else 1)
    case Mismatch(peer) => if Select(l, Same(peer)) != [] then Discard(l, Same(peer)) else Discard(l, Alike(peer, parse))
  }

  function Left(l: seq<AddrInfo>, fs: seq<Failure>, interleave: Option<int>, parse: Address -> Address): seq<AddrInfo> {
    if fs == [] then l else LeftAfter(Left(l, fs[..|fs| - 1], interleave, parse), fs[|fs| - 1], interleave, parse)
  }

  lemma LeftNone(l: seq<AddrInfo>, interleave: Option<int>, parse: Address -> Address)
    ensures Left(l, [], interleave, parse) == l
  {
  }

  lemma LeftMore(l: seq<AddrInfo>, fs: seq<Failure>, f: Failure, interleave: Option<int>, parse: Address -> Address)
    ensures var left, next := Left(l, fs, interleave, parse), Left(l, fs + [f], interleave, parse);
            match f
            case Unreachable => next == Remaining(left, map[], if interleave.Some? then interleave.value else 1)
            case Mismatch(peer) =>
              next == if Select(left, Same(peer)) != [] then Discard(left, Same(peer)) else Discard(left, Alike(peer, parse))
  {
    hide Remaining, Select, Discard;
    assert (fs + [f])[..|fs|] == fs;
  }
}
