/** Octet strings and the searches the wire code performs on them. */
module Bytes {

  type byte = b: int | 0 <= b < 256
  type Bytes = seq<byte>

  const HT: byte := 9
  const LF: byte := 10
  const CR: byte := 13
  const SP: byte := 32
  const COLON: byte := 58
  const SEMICOLON: byte := 59
  const CRLF: Bytes := [CR, LF]

  datatype Option<+T> = None | Some(value: T)

  /** A list without the first entry that equals `x`. */
  function RemoveFirst<T(==)>(l: seq<T>, x: T): seq<T> {
    if l == [] then [] else if l[0] == x then l[1..] else [l[0]] + RemoveFirst(l[1..], x)
  }

  /** `sub` occurs in `s` at offset `i`. */
  predicate MatchAt(s: Bytes, sub: Bytes, i: int) {
    0 <= i && i + |sub| <= |s| && s[i..i + |sub|] == sub
  }

  /** The first occurrence of `sub` at or after `start`, or -1. */
  function Find(s: Bytes, sub: Bytes, start: nat := 0): (i: int)
    ensures i < 0 ==> i == -1
    ensures i >= 0 ==> start <= i && MatchAt(s, sub, i)
    decreases |s| - start
  {
    if start + |sub| > |s| then -1
    else if MatchAt(s, sub, start) then start
    else if start == |s| then -1
    else Find(s, sub, start + 1)
  }

  /** Nothing matches before the position found. */
  lemma {:induction false} FindFirst(s: Bytes, sub: Bytes, start: nat)
    ensures var i := Find(s, sub, start);
            forall j | start <= j && (i < 0 || j < i) :: !MatchAt(s, sub, j)
    decreases |s| - start
  {
    if start + |sub| <= |s| && !MatchAt(s, sub, start) && start < |s| {
      FindFirst(s, sub, start + 1);
    }
  }

  /** A match is at the same place however far the string goes on. */
  lemma MatchAtAppend(a: Bytes, b: Bytes, sub: Bytes, j: int)
    requires 0 <= j && j + |sub| <= |a|
    ensures MatchAt(a, sub, j) <==> MatchAt(a + b, sub, j)
  {
    assert (a + b)[j..j + |sub|] == a[j..j + |sub|];
  }

  /** A first occurrence is characterised by its position. */
  lemma FindUnique(s: Bytes, sub: Bytes, start: nat, i: nat)
    requires start <= i && MatchAt(s, sub, i)
    requires forall j | start <= j < i :: !MatchAt(s, sub, j)
    ensures Find(s, sub, start) == i
  {
    FindFirst(s, sub, start);
  }

  /** A match found in a prefix stays the first match; a match missed by a prefix ends beyond it. */
  lemma FindAppend(a: Bytes, b: Bytes, sub: Bytes)
    ensures Find(a, sub) >= 0 ==> Find(a + b, sub) == Find(a, sub)
    ensures Find(a, sub) < 0 && Find(a + b, sub) >= 0 ==> Find(a + b, sub) + |sub| > |a|
  {
    var i, k := Find(a, sub), Find(a + b, sub);
    FindFirst(a, sub, 0);
    if i >= 0 {
      forall j | 0 <= j <= i ensures MatchAt(a, sub, j) <==> MatchAt(a + b, sub, j) {
        MatchAtAppend(a, b, sub, j);
      }
      FindUnique(a + b, sub, 0, i);
    } else if k >= 0 && k + |sub| <= |a| {
      MatchAtAppend(a, b, sub, k);
    }
  }

  /** The line break after a text that has no CR is the first one. */
  lemma FindLineEnd(line: Bytes, rest: Bytes)
    requires CR !in line
    ensures Find(line + CRLF + rest, CRLF) == |line|
  {
    var s := line + CRLF + rest;
    assert s[|line|..|line| + 2] == CRLF;
    forall j | 0 <= j < |line| ensures !MatchAt(s, CRLF, j) {
      assert s[j] == line[j] != CR;
      assert j + 2 <= |s| && s[j..j + 2][0] == s[j];
    }
    FindUnique(s, CRLF, 0, |line|);
  }

  /** The first index of a single byte, or -1. */
  function IndexOf(s: Bytes, b: byte): (i: int)
    ensures i < 0 ==> i == -1 && b !in s
    ensures i >= 0 ==> i < |s| && s[i] == b && b !in s[..i]
  {
    if s == [] then -1
    else if s[0] == b then 0
    else
      var k := IndexOf(s[1..], b);
      if k < 0 then -1
      else
        assert s[..k + 1] == [s[0]] + s[1..][..k];
        k + 1
  }

  lemma IndexOfUnique(a: Bytes, b: byte, rest: Bytes)
    requires b !in a
    ensures IndexOf(a + [b] + rest, b) == |a|
  {
    var s := a + [b] + rest;
    var i := IndexOf(s, b);
    assert s[|a|] == b;
    assert forall k | 0 <= k < |a| :: s[k] == a[k];
    assert forall k | |a| < k <= |s| :: s[..k][|a|] == b;
  }

  /** The concatenation of a list of strings. */
  function Concat(parts: seq<Bytes>): Bytes {
    if parts == [] then [] else parts[0] + Concat(parts[1..])
  }

  lemma {:induction false} ConcatAppend(a: seq<Bytes>, b: seq<Bytes>)
    ensures Concat(a + b) == Concat(a) + Concat(b)
  {
    if a == [] {
      assert a + b == b;
    } else {
      ConcatAppend(a[1..], b);
      assert (a + b)[1..] == a[1..] + b && (a + b)[0] == a[0];
      assert a[0] + (Concat(a[1..]) + Concat(b)) == a[0] + Concat(a[1..]) + Concat(b);
    }
  }

  lemma Assoc(a: Bytes, b: Bytes, c: Bytes)
    ensures (a + b) + c == a + (b + c)
  {
  }

  lemma ConcatOne(a: Bytes)
    ensures Concat([a]) == a
  {
  }

  function Max(a: int, b: int): int { if a < b then b else a }

  function Min(a: int, b: int): int { if a < b then a else b }
}
