/**
 * Python's ordering of `str` values (code point by code point, a proper prefix
 * first) and `sorted` over lists of strings.
 */
module Strings {

  /** `a < b` on Python strings: lexicographic on code points. */
  predicate StrLess(a: string, b: string) {
    if a == [] then b != []
    else if b == [] then false
    else a[0] < b[0] || (a[0] == b[0] && StrLess(a[1..], b[1..]))
  }

  lemma {:induction false} StrLessIrreflexive(a: string)
    ensures !StrLess(a, a)
  {
    if a != [] {
      StrLessIrreflexive(a[1..]);
    }
  }

  lemma {:induction false} StrLessTransitive(a: string, b: string, c: string)
    requires StrLess(a, b) && StrLess(b, c)
    ensures StrLess(a, c)
  {
    if a != [] && a[0] == b[0] && b[0] == c[0] {
      StrLessTransitive(a[1..], b[1..], c[1..]);
    }
  }

  /** Any two different strings are ordered one way or the other. */
  lemma {:induction false} StrLessTotal(a: string, b: string)
    ensures a == b || StrLess(a, b) || StrLess(b, a)
  {
    if a != [] && b != [] && a[0] == b[0] {
      StrLessTotal(a[1..], b[1..]);
      if a[1..] == b[1..] {
        assert a == [a[0]] + a[1..] && b == [b[0]] + b[1..];
      }
    }
  }

  lemma {:induction false} StrLessAsymmetric(a: string, b: string)
    ensures !(StrLess(a, b) && StrLess(b, a))
  {
    if a != [] && b != [] && a[0] == b[0] {
      StrLessAsymmetric(a[1..], b[1..]);
    }
  }

  predicate Ascending(s: seq<string>) {
    forall i, j :: 0 <= i < j < |s| ==> !StrLess(s[j], s[i])
  }

  predicate StrictlyAscending(s: seq<string>) {
    forall i, j :: 0 <= i < j < |s| ==> StrLess(s[i], s[j])
  }

  function InsertName(x: string, s: seq<string>): (r: seq<string>)
    ensures multiset(r) == multiset(s) + multiset{x}
  {
    if s == [] || !StrLess(s[0], x) then [x] + s
    else
      assert s == [s[0]] + s[1..];
      [s[0]] + InsertName(x, s[1..])
  }

  lemma {:induction false} InsertNameAscending(x: string, s: seq<string>)
    requires Ascending(s)
    ensures Ascending(InsertName(x, s))
  {
    if s == [] {
    } else if !StrLess(s[0], x) {
      forall j | 0 < j < |s| + 1 ensures !StrLess(([x] + s)[j], x) {
        var y := s[j - 1];
        if StrLess(y, x) {
          StrLessTotal(s[0], y);
          if StrLess(s[0], y) {
            StrLessTransitive(s[0], y, x);
          }
        }
      }
    } else {
      var t := InsertName(x, s[1..]);
      InsertNameAscending(x, s[1..]);
      forall k | 0 <= k < |t| ensures !StrLess(t[k], s[0]) {
        assert t[k] in multiset(t);
        if t[k] == x {
          StrLessAsymmetric(s[0], x);
        } else {
          assert t[k] in multiset(s[1..]);
          var m :| 0 <= m < |s[1..]| && s[1..][m] == t[k];
          assert s[m + 1] == t[k];
        }
      }
    }
  }

  /** `sorted(names)`: the same strings, in ascending order (stable for equal ones). */
  function SortNames(s: seq<string>): (r: seq<string>)
    ensures multiset(r) == multiset(s)
    ensures Ascending(r)
  {
    if s == [] then []
    else
      var t := SortNames(s[1..]);
      InsertNameAscending(s[0], t);
      assert s == [s[0]] + s[1..];
      InsertName(s[0], t)
  }

  /** A list whose multiset is a set holds each of its strings once. */
  lemma Distinct(s: seq<string>, names: set<string>)
    requires multiset(s) == multiset(names)
    ensures forall i, j :: 0 <= i < j < |s| ==> s[i] != s[j]
  {
    forall i, j | 0 <= i < j < |s| ensures s[i] != s[j] {
      assert s == s[..j] + s[j..];
      assert s[i] in multiset(s[..j]) && s[j] in multiset(s[j..]);
      assert multiset(s)[s[j]] == multiset(s[..j])[s[j]] + multiset(s[j..])[s[j]];
    }
  }

  /** Sorting a list of distinct strings yields a strictly ascending list. */
  lemma SortStrict(s: seq<string>, names: set<string>)
    requires multiset(s) == multiset(names)
    ensures StrictlyAscending(SortNames(s))
  {
    var r := SortNames(s);
    Distinct(r, names);
    forall i, j | 0 <= i < j < |r| ensures StrLess(r[i], r[j]) {
      StrLessTotal(r[i], r[j]);
    }
  }

  /** Two strictly ascending lists with the same members are the same list. */
  lemma {:induction false} AscendingUnique(a: seq<string>, b: seq<string>)
    requires StrictlyAscending(a) && StrictlyAscending(b)
    requires forall x :: x in a <==> x in b
    ensures a == b
  {
    assert a != [] ==> a[0] in b;
    assert b != [] ==> b[0] in a;
    if a != [] && b != [] {
      var i :| 0 <= i < |a| && a[i] == b[0];
      var j :| 0 <= j < |b| && b[j] == a[0];
      StrLessAsymmetric(a[0], b[0]);
      assert i == 0 || j == 0;
      StrLessIrreflexive(a[0]);
      assert a[0] == b[0];
      forall x ensures x in a[1..] <==> x in b[1..] {
        MemberOfTail(a, x);
        MemberOfTail(b, x);
      }
      AscendingUnique(a[1..], b[1..]);
      assert a == [a[0]] + a[1..] && b == [b[0]] + b[1..];
    }
  }

  /** In a strictly ascending list, the tail holds exactly the members other than the head. */
  lemma MemberOfTail(s: seq<string>, x: string)
    requires StrictlyAscending(s) && s != []
    ensures x in s[1..] <==> x in s && x != s[0]
  {
    StrLessIrreflexive(s[0]);
    if x in s[1..] {
      var k :| 0 <= k < |s[1..]| && s[1..][k] == x;
      assert s[k + 1] == x;
    }
    if x in s && x != s[0] {
      var k :| 0 <= k < |s| && s[k] == x;
      assert s[1..][k - 1] == x;
    }
  }

  /** Some listing of a set of strings, each once (the order a set is iterated in). */
  ghost function Enumerate(names: set<string>): (r: seq<string>)
    ensures multiset(r) == multiset(names)
    decreases names
  {
    if names == {} then []
    else
      var x :| x in names;
      var rest := Enumerate(names - {x});
      assert names == (names - {x}) + {x};
      [x] + rest
  }

  /** `sorted` of a set of strings: its members, strictly ascending. */
  ghost function Listing(names: set<string>): (r: seq<string>)
    ensures StrictlyAscending(r) && |r| == |names|
    ensures forall x :: x in r <==> x in names
  {
    var e := Enumerate(names);
    SortStrict(e, names);
    var r := SortNames(e);
    assert |r| == |multiset(r)| == |multiset(names)| == |names|;
    forall x ensures x in r <==> x in names {
      assert x in r <==> x in multiset(r);
    }
    r
  }

  /** Sorting any listing of a set, each member once, gives `Listing` of the set. */
  lemma SortedListing(s: seq<string>, names: set<string>)
    requires multiset(s) == multiset(names)
    ensures SortNames(s) == Listing(names)
  {
    SortStrict(s, names);
    var r := SortNames(s);
    forall x ensures x in r <==> x in names {
      assert x in r <==> x in multiset(r);
    }
    AscendingUnique(r, Listing(names));
  }
}
