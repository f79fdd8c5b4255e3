/**
 * Aggregation (`aggregate_subnets`, i.e. `ipaddress.collapse_addresses`): the
 * standard CIDR collapse. A network lying inside another member is dropped, two
 * sibling halves are merged into the network they split, and this is repeated
 * until neither applies; the survivors are listed in ascending address order.
 */
module Aggregate {
  import opened Cidr
  import opened Wrappers

  /** Members are in ascending address order and no two of them overlap. */
  predicate Ordered(s: seq<Net>) {
    forall i, j :: 0 <= i < j < |s| ==> s[i].base + Size(s[i].len) <= s[j].base
  }

  /** `x` and `y` are the two halves of one network, so they merge into it. */
  predicate Siblings(x: Net, y: Net) {
    Valid(x) && Valid(y) && x.len == y.len && x.len > 0 && x != y && Parent(x) == Parent(y)
  }

  predicate NoSiblings(s: seq<Net>) {
    forall x, y :: x in s && y in s ==> !Siblings(x, y)
  }

  /** The member at position `j` lies inside the member at some other position. */
  predicate IsNested(s: seq<Net>, j: nat)
    requires j < |s|
  {
    exists i :: 0 <= i < |s| && i != j && SubnetOf(s[j], s[i])
  }

  /** The member at position `i` has its sibling in `s`. */
  predicate HasSibling(s: seq<Net>, i: nat)
    requires i < |s|
  {
    exists j :: 0 <= j < |s| && Siblings(s[i], s[j])
  }

  function FirstNested(s: seq<Net>, from: nat): (r: Option<nat>)
    ensures r.Some? ==> from <= r.value < |s| && IsNested(s, r.value)
    ensures r.None? ==> forall j :: from <= j < |s| ==> !IsNested(s, j)
    decreases |s| - from
  {
    if from >= |s| then None
    else if IsNested(s, from) then Some(from)
    else FirstNested(s, from + 1)
  }

  function FirstWithSibling(s: seq<Net>, from: nat): (r: Option<nat>)
    ensures r.Some? ==> from <= r.value < |s| && HasSibling(s, r.value)
    ensures r.None? ==> forall i :: from <= i < |s| ==> !HasSibling(s, i)
    decreases |s| - from
  {
    if from >= |s| then None
    else if HasSibling(s, from) then Some(from)
    else FirstWithSibling(s, from + 1)
  }

  function RemoveAt(s: seq<Net>, j: nat): (r: seq<Net>)
    requires j < |s|
    ensures |r| == |s| - 1
    ensures forall i :: 0 <= i < |s| && i != j ==> s[i] in r
    ensures forall n :: n in r ==> n in s
  {
    var r := s[..j] + s[j + 1..];
    assert forall i :: 0 <= i < j ==> r[i] == s[i];
    assert forall i :: j < i < |s| ==> r[i - 1] == s[i];
    r
  }

  /** The members of `s` that do not lie inside `p`, in their order. */
  function Outside(s: seq<Net>, p: Net): (r: seq<Net>)
    ensures |r| <= |s|
    ensures forall n :: n in r <==> n in s && !SubnetOf(n, p)
  {
    if s == [] then []
    else if SubnetOf(s[0], p) then Outside(s[1..], p)
    else [s[0]] + Outside(s[1..], p)
  }

  /** Replace the member at `i` and its sibling (and anything inside their union) by that union. */
  function Merge(s: seq<Net>, i: nat): (r: seq<Net>)
    requires AllValid(s) && i < |s| && HasSibling(s, i)
    ensures AllValid(r)
  {
    Outside(s, Parent(s[i])) + [Parent(s[i])]
  }

  function InsertByBase(x: Net, s: seq<Net>): (r: seq<Net>)
    ensures |r| == |s| + 1
    ensures forall n :: n in r <==> n == x || n in s
  {
    if s == [] || x.base <= s[0].base then [x] + s
    else [s[0]] + InsertByBase(x, s[1..])
  }

  /** Insertion sort by base address. */
  function SortByBase(s: seq<Net>): (r: seq<Net>)
    ensures |r| == |s|
    ensures forall n :: n in r <==> n in s
    ensures PairwiseDisjoint(s) ==> Ordered(r)
  {
    if s == [] then []
    else
      var t := SortByBase(s[1..]);
      if PairwiseDisjoint(s) then
        assert PairwiseDisjoint(s[1..]);
        forall y | y in t ensures Disjoint(s[0], y) {
          var k :| 0 <= k < |s[1..]| && s[1..][k] == y;
          assert s[k + 1] == y;
        }
        InsertOrdered(s[0], t);
        InsertByBase(s[0], t)
      else
        InsertByBase(s[0], t)
  }

  /**
   * The collapse of `s`: the same addresses, as ascending, non-overlapping
   * networks no two of which are sibling halves.
   */
  function Collapse(s: seq<Net>): (r: seq<Net>)
    requires AllValid(s)
    ensures AllValid(r) && Ordered(r) && NoSiblings(r)
    ensures forall a :: Covers(r, a) <==> Covers(s, a)
    decreases |s|
  {
    match FirstNested(s, 0)
    case Some(j) =>
      DropNestedKeepsCoverage(s, j);
      Collapse(RemoveAt(s, j))
    case None =>
      match FirstWithSibling(s, 0)
      case Some(i) =>
        MergeKeepsCoverage(s, i);
        Collapse(Merge(s, i))
      case None =>
        SortedCollapse(s);
        SortByBase(s)
  }

  // ---------------------------------------------------------------------------
  // Proofs
  // ---------------------------------------------------------------------------

  lemma {:induction false} InsertOrdered(x: Net, s: seq<Net>)
    requires Ordered(s) && forall y :: y in s ==> Disjoint(x, y)
    ensures Ordered(InsertByBase(x, s))
  {
    var r := InsertByBase(x, s);
    if s == [] || x.base <= s[0].base {
      forall k | 0 <= k < |s| ensures x.base + Size(x.len) <= s[k].base {
        assert s[k] in s;
        if k > 0 {
          assert s[0].base + Size(s[0].len) <= s[k].base;
        }
      }
    } else {
      var t := InsertByBase(x, s[1..]);
      InsertOrdered(x, s[1..]);
      assert s[0] in s;
      forall k | 0 <= k < |t| ensures s[0].base + Size(s[0].len) <= t[k].base {
        assert t[k] in t;
        if t[k] != x {
          var m :| 0 <= m < |s[1..]| && s[1..][m] == t[k];
          assert s[m + 1] == t[k];
        }
      }
    }
  }

  /** Sorting a list with no nested members and no siblings yields a collapsed list. */
  lemma SortedCollapse(s: seq<Net>)
    requires AllValid(s)
    requires forall j :: 0 <= j < |s| ==> !IsNested(s, j)
    requires forall i :: 0 <= i < |s| ==> !HasSibling(s, i)
    ensures AllValid(SortByBase(s)) && Ordered(SortByBase(s)) && NoSiblings(SortByBase(s))
    ensures forall a :: Covers(SortByBase(s), a) <==> Covers(s, a)
  {
    UnnestedDisjoint(s);
    var r := SortByBase(s);
    forall x, y | x in r && y in r ensures !Siblings(x, y) {
      var i :| 0 <= i < |s| && s[i] == x;
      var j :| 0 <= j < |s| && s[j] == y;
      assert !HasSibling(s, i);
    }
  }

  lemma DropNestedKeepsCoverage(s: seq<Net>, j: nat)
    requires AllValid(s) && j < |s| && IsNested(s, j)
    ensures AllValid(RemoveAt(s, j))
    ensures forall a :: Covers(RemoveAt(s, j), a) <==> Covers(s, a)
  {
    var i :| 0 <= i < |s| && i != j && SubnetOf(s[j], s[i]);
    var r := RemoveAt(s, j);
    assert s[i] in r;
    forall a | Covers(s, a) ensures Covers(r, a) {
      var n :| n in s && Contains(n, a);
      var k :| 0 <= k < |s| && s[k] == n;
      if k == j {
        assert Contains(s[i], a);
      } else {
        assert s[k] in r;
      }
    }
  }

  lemma {:induction false} OutsideShrinksOne(s: seq<Net>, p: Net, k: nat)
    requires k < |s| && SubnetOf(s[k], p)
    ensures |Outside(s, p)| <= |s| - 1
  {
    if k > 0 {
      OutsideShrinksOne(s[1..], p, k - 1);
    }
  }

  lemma {:induction false} OutsideShrinks(s: seq<Net>, p: Net, i: nat, j: nat)
    requires i < |s| && j < |s| && i != j && SubnetOf(s[i], p) && SubnetOf(s[j], p)
    ensures |Outside(s, p)| <= |s| - 2
  {
    if i == 0 {
      OutsideShrinksOne(s[1..], p, j - 1);
    } else if j == 0 {
      OutsideShrinksOne(s[1..], p, i - 1);
    } else {
      OutsideShrinks(s[1..], p, i - 1, j - 1);
    }
  }

  lemma MergeKeepsCoverage(s: seq<Net>, i: nat)
    requires AllValid(s) && i < |s| && HasSibling(s, i)
    ensures |Merge(s, i)| < |s|
    ensures forall a :: Covers(Merge(s, i), a) <==> Covers(s, a)
  {
    var j :| 0 <= j < |s| && Siblings(s[i], s[j]);
    var p := Parent(s[i]);
    assert p == Parent(s[j]);
    assert forall a :: Contains(p, a) <==> Contains(s[i], a) || Contains(s[j], a);
    OutsideShrinks(s, p, i, j);
    var r := Merge(s, i);
    forall a | Covers(s, a) ensures Covers(r, a) {
      var n :| n in s && Contains(n, a);
      if SubnetOf(n, p) {
        assert p in r && Contains(p, a);
      } else {
        assert n in r;
      }
    }
    forall a | Covers(r, a) ensures Covers(s, a) {
      var n :| n in r && Contains(n, a);
      if n == p {
        assert s[i] in s && s[j] in s;
      }
    }
  }

  /** With no member inside another, the members are pairwise disjoint. */
  lemma UnnestedDisjoint(s: seq<Net>)
    requires AllValid(s)
    requires forall j :: 0 <= j < |s| ==> !IsNested(s, j)
    ensures PairwiseDisjoint(s)
  {
    forall i, j | 0 <= i < j < |s| ensures Disjoint(s[i], s[j]) {
      assert s[i] in s && s[j] in s;
      NestedOrDisjoint(s[i], s[j]);
      assert !SubnetOf(s[i], s[j]) by { assert !IsNested(s, i); }
      assert !SubnetOf(s[j], s[i]) by { assert !IsNested(s, j); }
    }
  }

  lemma {:induction false} SortOrderedIdentity(s: seq<Net>)
    requires Ordered(s)
    ensures SortByBase(s) == s
  {
    if s != [] {
      SortOrderedIdentity(s[1..]);
    }
  }

  /** An ordered list without siblings is already collapsed: collapsing it changes nothing. */
  lemma CollapseFixpoint(s: seq<Net>)
    requires AllValid(s) && Ordered(s) && NoSiblings(s)
    ensures Collapse(s) == s
  {
    forall j | 0 <= j < |s| ensures !IsNested(s, j) {
      forall i | 0 <= i < |s| && i != j ensures !SubnetOf(s[j], s[i]) {
        if i < j {
          assert s[i].base + Size(s[i].len) <= s[j].base;
        } else {
          assert s[j].base + Size(s[j].len) <= s[i].base;
        }
      }
    }
    forall i | 0 <= i < |s| ensures !HasSibling(s, i) {
      forall j | 0 <= j < |s| ensures !Siblings(s[i], s[j]) {
        assert s[i] in s && s[j] in s;
      }
    }
    SortOrderedIdentity(s);
  }

  /** Collapsing is idempotent. */
  lemma CollapseIdempotent(s: seq<Net>)
    requires AllValid(s)
    ensures Collapse(Collapse(s)) == Collapse(s)
  {
    CollapseFixpoint(Collapse(s));
  }

  /** The members of an ordered list are pairwise disjoint, and distinct. */
  lemma OrderedDisjoint(s: seq<Net>)
    requires Ordered(s)
    ensures PairwiseDisjoint(s)
    ensures forall x, y :: x in s && y in s ==> x == y || Disjoint(x, y)
  {
    forall x, y | x in s && y in s ensures x == y || Disjoint(x, y) {
      var i :| 0 <= i < |s| && s[i] == x;
      var j :| 0 <= j < |s| && s[j] == y;
      if i < j {
        assert Disjoint(s[i], s[j]);
      } else if j < i {
        assert Disjoint(s[j], s[i]);
      }
    }
  }

  /** Collapsing nothing gives nothing. */
  lemma CollapseEmpty()
    ensures Collapse([]) == []
  {
    assert FirstNested([], 0).None? && FirstWithSibling([], 0).None?;
  }
}
