/** Joining and splitting character strings, as JavaScript and Java do. */
module Strings {
  /** JavaScript `s.split(c)`: every part is kept. */
  function Split(s: string, c: char): (parts: seq<string>)
    ensures parts != []
  {
    if s == [] then [[]]
    else
      var rest := Split(s[1..], c);
      if s[0] == c then [[]] + rest else [[s[0]] + rest[0]] + rest[1..]
  }

  function Join(parts: seq<string>, sep: string): string {
    if parts == [] then []
    else if |parts| == 1 then parts[0]
    else parts[0] + sep + Join(parts[1..], sep)
  }

  /** The parts up to the last one that is not empty. */
  function DropTrailingEmpty(parts: seq<string>): (r: seq<string>)
    ensures r <= parts && (r != [] ==> r[|r| - 1] != [])
    ensures forall i :: |r| <= i < |parts| ==> parts[i] == []
  {
    if parts != [] && parts[|parts| - 1] == [] then DropTrailingEmpty(parts[..|parts| - 1]) else parts
  }

  /** Java `s.split(c)`: trailing empty parts are dropped, unless nothing was split. */
  function JavaSplit(s: string, c: char): seq<string> {
    if c in s then DropTrailingEmpty(Split(s, c)) else [s]
  }

  /** `s.replaceAll(c, "")` */
  function Remove(s: string, c: char): (r: string)
    ensures c !in r
  {
    if s == [] then [] else (if s[0] == c then [] else [s[0]]) + Remove(s[1..], c)
  }

  /** `s.indexOf(c)` */
  function IndexOf(s: string, c: char): (k: int)
    ensures -1 <= k < |s| && (k == -1 <==> c !in s)
    ensures k >= 0 ==> s[k] == c && c !in s[..k]
  {
    if s == [] then -1
    else if s[0] == c then 0
    else
      var k := IndexOf(s[1..], c);
      assert s == [s[0]] + s[1..];
      if k < 0 then -1 else (assert s[..k + 1] == [s[0]] + s[1..][..k]; k + 1)
  }

  lemma {:induction false} SplitHead(p: string, rest: string, c: char)
    requires c !in p
    ensures Split(p + [c] + rest, c) == [p] + Split(rest, c)
  {
    var s := p + [c] + rest;
    if p == [] {
      assert s[1..] == rest;
    } else {
      assert s[1..] == p[1..] + [c] + rest && p[0] in p && [p[0]] + p[1..] == p;
      SplitHead(p[1..], rest, c);
    }
  }

  lemma {:induction false} SplitWhole(p: string, c: char)
    requires c !in p
    ensures Split(p, c) == [p]
  {
    if p != [] {
      SplitWhole(p[1..], c);
      assert p[0] in p && [p[0]] + p[1..] == p;
    }
  }

  /** Splitting undoes joining when the separator occurs in no part. */
  lemma {:induction false} SplitJoin(parts: seq<string>, c: char)
    requires parts != [] && forall p :: p in parts ==> c !in p
    ensures Split(Join(parts, [c]), c) == parts
  {
    if |parts| == 1 {
      SplitWhole(parts[0], c);
    } else {
      SplitHead(parts[0], Join(parts[1..], [c]), c);
      SplitJoin(parts[1..], c);
    }
  }

  lemma JoinFirst(first: string, rest: seq<string>, sep: string)
    ensures rest != [] ==> Join([first] + rest, sep) == first + sep + Join(rest, sep)
    ensures rest == [] ==> Join([first] + rest, sep) == first
  {
    assert ([first] + rest)[1..] == rest;
  }

  /** Joining undoes splitting, and no part holds the separator. */
  lemma {:induction false} JoinSplit(s: string, c: char)
    ensures Join(Split(s, c), [c]) == s
    ensures forall p :: p in Split(s, c) ==> c !in p
  {
    hide Join;
    if s == [] {
      JoinFirst([], [], [c]);
      assert [[]] + [] == Split(s, c);
    } else {
      JoinSplit(s[1..], c);
      var rest := Split(s[1..], c);
      var first, others := rest[0], rest[1..];
      assert rest == [first] + others && s == [s[0]] + s[1..];
      JoinFirst(first, others, [c]);
      if s[0] == c {
        JoinFirst([], rest, [c]);
        assert [] + [c] + s[1..] == s;
      } else {
        JoinFirst([s[0]] + first, others, [c]);
        if others != [] {
          assert [s[0]] + first + [c] + Join(others, [c]) == [s[0]] + (first + [c] + Join(others, [c]));
        }
        assert c !in [s[0]] + first;
      }
    }
  }

  lemma {:induction false} JoinAppend(parts: seq<string>, last: string, sep: string)
    requires parts != []
    ensures Join(parts + [last], sep) == Join(parts, sep) + sep + last
  {
    var all := parts + [last];
    if |parts| > 1 {
      assert all[1..] == parts[1..] + [last];
      JoinAppend(parts[1..], last, sep);
    } else {
      assert all[1..] == [last];
    }
  }

  /** If the last part is not empty, Java splits as JavaScript does. */
  lemma JavaSplitJoin(parts: seq<string>, c: char)
    requires parts != [] && parts[|parts| - 1] != [] && forall p :: p in parts ==> c !in p
    ensures JavaSplit(Join(parts, [c]), c) == parts
  {
    SplitJoin(parts, c);
    if c !in Join(parts, [c]) { SplitWhole(Join(parts, [c]), c); }
  }

  lemma {:induction false} RemoveJoin(parts: seq<string>, c: char)
    requires forall p :: p in parts ==> c !in p
    ensures Remove(Join(parts, [c]), c) == Join(parts, [])
  {
    if |parts| == 1 {
      RemoveAbsent(parts[0], c);
    } else if |parts| > 1 {
      RemoveJoin(parts[1..], c);
      RemoveAppend(parts[0] + [c], Join(parts[1..], [c]), c);
      RemoveAppend(parts[0], [c], c);
      RemoveAbsent(parts[0], c);
      assert Remove([c], c) == [];
    }
  }

  lemma {:induction false} RemoveAbsent(s: string, c: char)
    requires c !in s
    ensures Remove(s, c) == s
  {
    if s != [] { RemoveAbsent(s[1..], c); }
  }

  lemma {:induction false} RemoveAppend(a: string, b: string, c: char)
    ensures Remove(a + b, c) == Remove(a, c) + Remove(b, c)
  {
    if a == [] {
      assert a + b == b;
    } else {
      assert (a + b)[1..] == a[1..] + b;
      RemoveAppend(a[1..], b, c);
    }
  }
}
