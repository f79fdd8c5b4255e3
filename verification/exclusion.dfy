/**
 * Coverage subtraction: `address_exclude` (one network minus one subnet of it,
 * by repeated halving) and `subtract_subnets` (a target network minus a list of
 * covering networks, taken most specific first, over a working list of
 * uncovered pieces).
 */
module Exclusion {
  import opened Cidr

  // ---------------------------------------------------------------------------
  // address_exclude
  // ---------------------------------------------------------------------------

  /**
   * The pieces of `u` that remain once `c` is removed, in the order the library
   * yields them: halve `u`, keep the half that does not hold `c`, and continue
   * with the half that does until that half is `c` itself. `u` minus itself is
   * empty. The i-th piece has prefix length `u.len + 1 + i`.
   */
  function Exclude(u: Net, c: Net): (r: seq<Net>)
    requires Valid(u) && Valid(c) && SubnetOf(c, u)
    ensures u.len + |r| == c.len
    ensures forall i :: 0 <= i < |r| ==>
              Valid(r[i]) && r[i].len == u.len + 1 + i && SubnetOf(r[i], u) && Disjoint(r[i], c)
    decreases 32 - u.len
  {
    if u == c then []
    else
      HalfHolding(u, c);
      if SubnetOf(c, Lower(u)) then [Upper(u)] + Exclude(Lower(u), c)
      else [Lower(u)] + Exclude(Upper(u), c)
  }

  /** A strict subnet `c` of `u` lies in one of the two halves of `u`. */
  lemma HalfHolding(u: Net, c: Net)
    requires Valid(u) && Valid(c) && SubnetOf(c, u) && u != c
    ensures u.len < c.len && u.len < 32
    ensures SubnetOf(c, Lower(u)) || SubnetOf(c, Upper(u))
  {
    if c.len <= u.len {
      SubnetNotLonger(c, u);
    }
    if Contains(Lower(u), c.base) {
      Nested(Lower(u), c, c.base);
    } else {
      Nested(Upper(u), c, c.base);
    }
  }

  lemma ParentOfHalves(u: Net)
    requires Valid(u) && u.len < 32
    ensures Parent(Lower(u)) == u && Parent(Upper(u)) == u
  {
    assert Contains(u, Lower(u).base) && Contains(u, Upper(u).base);
  }

  /** Every piece is a half of a block that still holds `c`. */
  lemma {:induction false} ExcludeParents(u: Net, c: Net)
    requires Valid(u) && Valid(c) && SubnetOf(c, u)
    ensures forall i :: 0 <= i < |Exclude(u, c)| ==> SubnetOf(c, Parent(Exclude(u, c)[i]))
    decreases 32 - u.len
  {
    if u != c {
      HalfHolding(u, c);
      ParentOfHalves(u);
      if SubnetOf(c, Lower(u)) {
        ExcludeParents(Lower(u), c);
      } else {
        ExcludeParents(Upper(u), c);
      }
    }
  }

  /** The pieces do not overlap. */
  lemma {:induction false} ExcludeDisjoint(u: Net, c: Net)
    requires Valid(u) && Valid(c) && SubnetOf(c, u)
    ensures PairwiseDisjoint(Exclude(u, c))
    decreases 32 - u.len
  {
    if u != c {
      HalfHolding(u, c);
      if SubnetOf(c, Lower(u)) {
        ExcludeDisjoint(Lower(u), c);
      } else {
        ExcludeDisjoint(Upper(u), c);
      }
    }
  }

  /** `c` and the pieces together hold exactly the addresses of `u`. */
  lemma {:induction false} ExcludeCovers(u: Net, c: Net)
    requires Valid(u) && Valid(c) && SubnetOf(c, u)
    ensures forall a :: Contains(u, a) <==> Contains(c, a) || Covers(Exclude(u, c), a)
    decreases 32 - u.len
  {
    if u != c {
      HalfHolding(u, c);
      var keep, go := Upper(u), Lower(u);
      if !SubnetOf(c, Lower(u)) {
        keep, go := Lower(u), Upper(u);
      }
      ExcludeCovers(go, c);
      assert Exclude(u, c) == [keep] + Exclude(go, c);
      CoversConcat([keep], Exclude(go, c));
      CoversSingle(keep);
    }
  }

  /**
   * `u.address_exclude(c)` as the library runs it: the pair `s1, s2` of halves
   * walks down towards `c`, and the half not holding `c` is emitted each step.
   */
  method AddressExclude(u: Net, c: Net) returns (r: seq<Net>)
    requires Valid(u) && Valid(c) && SubnetOf(c, u)
    ensures r == Exclude(u, c)
  {
    r := [];
    if c == u {
      return;
    }
    HalfHolding(u, c);
    var s1, s2 := Lower(u), Upper(u);
    ghost var cur := u;
    while s1 != c && s2 != c
      invariant Valid(cur) && cur != c && SubnetOf(c, cur) && cur.len < 32
      invariant s1 == Lower(cur) && s2 == Upper(cur)
      invariant r + Exclude(cur, c) == Exclude(u, c)
      decreases 32 - cur.len
    {
      HalfHolding(cur, c);
      if SubnetOf(c, s1) {
        HalfHolding(s1, c);
        ExcludeStep(r, cur, c, s2, s1);
        r := r + [s2];
        cur := s1;
        s1, s2 := Lower(s1), Upper(s1);
      } else if SubnetOf(c, s2) {
        HalfHolding(s2, c);
        ExcludeStep(r, cur, c, s1, s2);
        r := r + [s1];
        cur := s2;
        s1, s2 := Lower(s2), Upper(s2);
      } else {
        assert false;
      }
    }
    if s1 == c {
      ExcludeStep(r, cur, c, s2, s1);
      r := r + [s2];
    } else if s2 == c {
      ExcludeStep(r, cur, c, s1, s2);
      r := r + [s1];
    } else {
      assert false;
    }
  }

  /** One step of the walk: `keep` is emitted and the walk goes on in `go`. */
  lemma ExcludeStep(r: seq<Net>, cur: Net, c: Net, keep: Net, go: Net)
    requires Valid(cur) && Valid(c) && SubnetOf(c, cur) && cur != c && cur.len < 32
    requires SubnetOf(c, go)
    requires (keep, go) == (Upper(cur), Lower(cur)) || (keep, go) == (Lower(cur), Upper(cur))
    ensures r + Exclude(cur, c) == (r + [keep]) + Exclude(go, c)
  {
    if go == Upper(cur) {
      assert !SubnetOf(c, Lower(cur));
    }
    assert Exclude(cur, c) == [keep] + Exclude(go, c);
  }

  // ---------------------------------------------------------------------------
  // The order in which covers are taken
  // ---------------------------------------------------------------------------

  /** `c` is taken before `d`: the sort key `(prefixlen, network_address)`, descending. */
  predicate Before(c: Net, d: Net) {
    c.len > d.len || (c.len == d.len && c.base >= d.base)
  }

  predicate MostSpecificFirst(s: seq<Net>) {
    forall i, j :: 0 <= i < j < |s| ==> Before(s[i], s[j])
  }

  function InsertBySpecificity(x: Net, s: seq<Net>): (r: seq<Net>)
    ensures multiset(r) == multiset(s) + multiset{x}
    ensures |r| == |s| + 1
  {
    if s == [] || Before(x, s[0]) then [x] + s
    else
      assert s == [s[0]] + s[1..];
      [s[0]] + InsertBySpecificity(x, s[1..])
  }

  /**
   * `sorted(covers, key=lambda n: (n.prefixlen, n.network_address), reverse=True)`:
   * a permutation of `covers`, longest prefix first, higher address first among
   * equal lengths.
   */
  function SortBySpecificity(s: seq<Net>): (r: seq<Net>)
    ensures multiset(r) == multiset(s)
    ensures MostSpecificFirst(r)
  {
    if s == [] then []
    else
      var t := SortBySpecificity(s[1..]);
      InsertKeepsOrder(s[0], t);
      assert s == [s[0]] + s[1..];
      InsertBySpecificity(s[0], t)
  }

  lemma {:induction false} InsertKeepsOrder(x: Net, s: seq<Net>)
    requires MostSpecificFirst(s)
    ensures MostSpecificFirst(InsertBySpecificity(x, s))
  {
    if s != [] && !Before(x, s[0]) {
      var t := InsertBySpecificity(x, s[1..]);
      InsertKeepsOrder(x, s[1..]);
      forall k | 0 <= k < |t| ensures Before(s[0], t[k]) {
        assert t[k] in multiset(t);
        if t[k] != x {
          assert t[k] in multiset(s[1..]);
          var m :| 0 <= m < |s[1..]| && s[1..][m] == t[k];
          assert s[m + 1] == t[k];
        }
      }
    }
  }

  lemma SortSameMembers(s: seq<Net>)
    ensures forall n :: n in SortBySpecificity(s) <==> n in s
  {
    var r := SortBySpecificity(s);
    forall n ensures n in r <==> n in s {
      assert n in r <==> n in multiset(r);
      assert n in s <==> n in multiset(s);
    }
  }

  // ---------------------------------------------------------------------------
  // subtract_subnets
  // ---------------------------------------------------------------------------

  /** What one uncovered piece becomes when `c` is taken out of it. */
  function Cut(u: Net, c: Net): (r: seq<Net>)
    requires Valid(u) && Valid(c)
    ensures forall i :: 0 <= i < |r| ==> Valid(r[i]) && SubnetOf(r[i], u)
  {
    if SubnetOf(c, u) then Exclude(u, c) else [u]
  }

  lemma CutCovers(u: Net, c: Net)
    requires Valid(u) && Valid(c)
    ensures PairwiseDisjoint(Cut(u, c))
    ensures forall a :: Covers(Cut(u, c), a) ==> Contains(u, a)
    ensures forall a :: Contains(u, a) && !Contains(c, a) ==> Covers(Cut(u, c), a)
    ensures SubnetOf(c, u) || Disjoint(c, u) ==> forall a :: Covers(Cut(u, c), a) ==> !Contains(c, a)
  {
    if SubnetOf(c, u) {
      ExcludeCovers(u, c);
      ExcludeDisjoint(u, c);
    } else {
      CoversSingle(u);
    }
  }

  /** One pass of the inner loop of `subtract_subnets`, for cover `c`. */
  function ExcludeFromAll(pieces: seq<Net>, c: Net): (r: seq<Net>)
    requires AllValid(pieces) && Valid(c)
    ensures AllValid(r)
  {
    if pieces == [] then []
    else Cut(pieces[0], c) + ExcludeFromAll(pieces[1..], c)
  }

  /**
   * After a pass, the pieces hold no address they did not hold before, and
   * every address they held outside `c` they still hold; when `c` lies inside
   * or outside each piece, no address of `c` is left.
   */
  lemma {:induction false} ExcludeFromAllCovers(pieces: seq<Net>, c: Net)
    requires AllValid(pieces) && Valid(c)
    ensures forall a :: Covers(ExcludeFromAll(pieces, c), a) ==> Covers(pieces, a)
    ensures forall a :: Covers(pieces, a) && !Contains(c, a) ==> Covers(ExcludeFromAll(pieces, c), a)
    ensures (forall u :: u in pieces ==> SubnetOf(c, u) || Disjoint(c, u)) ==>
              forall a :: Covers(ExcludeFromAll(pieces, c), a) ==> !Contains(c, a)
  {
    if pieces != [] {
      var u := pieces[0];
      ExcludeFromAllCovers(pieces[1..], c);
      CutCovers(u, c);
      CoversConcat(Cut(u, c), ExcludeFromAll(pieces[1..], c));
      assert pieces == [u] + pieces[1..];
      CoversConcat([u], pieces[1..]);
      CoversSingle(u);
    }
  }

  /** A network disjoint from every piece is disjoint from every piece after a pass. */
  lemma {:induction false} ExcludeFromAllAvoids(pieces: seq<Net>, c: Net, w: Net)
    requires AllValid(pieces) && Valid(c)
    requires forall v :: v in pieces ==> Disjoint(w, v)
    ensures forall y :: y in ExcludeFromAll(pieces, c) ==> Disjoint(w, y)
  {
    if pieces != [] {
      ExcludeFromAllAvoids(pieces[1..], c, w);
      assert pieces[0] in pieces;
    }
  }

  /** A pass keeps the pieces from overlapping. */
  lemma {:induction false} ExcludeFromAllDisjoint(pieces: seq<Net>, c: Net)
    requires AllValid(pieces) && Valid(c) && PairwiseDisjoint(pieces)
    ensures PairwiseDisjoint(ExcludeFromAll(pieces, c))
  {
    if pieces != [] {
      var u := pieces[0];
      var head, rest := Cut(u, c), ExcludeFromAll(pieces[1..], c);
      ExcludeFromAllDisjoint(pieces[1..], c);
      CutCovers(u, c);
      forall v | v in pieces[1..] ensures Disjoint(u, v) {
        var k :| 0 <= k < |pieces[1..]| && pieces[1..][k] == v;
        assert pieces[k + 1] == v;
      }
      ExcludeFromAllAvoids(pieces[1..], c, u);
      var s := head + rest;
      forall i, j | 0 <= i < j < |s| ensures Disjoint(s[i], s[j]) {
        if j < |head| {
          assert Disjoint(head[i], head[j]);
        } else if i >= |head| {
          assert Disjoint(rest[i - |head|], rest[j - |head|]);
        } else {
          assert rest[j - |head|] in rest;
        }
      }
    }
  }

  /**
   * A piece `x` cut off while excluding `c` (so `c` lies in the parent of `x`)
   * is never strictly inside a cover `d` disjoint from `c`.
   */
  lemma PieceAgainstCover(x: Net, c: Net, d: Net)
    requires Valid(x) && Valid(c) && Valid(d) && x.len > 0
    requires SubnetOf(c, Parent(x)) && Disjoint(d, c)
    ensures SubnetOf(d, x) || Disjoint(d, x)
  {
    NestedOrDisjoint(d, x);
    if SubnetOf(x, d) && d.len >= x.len {
      SubnetNotLonger(x, d);
    }
    if SubnetOf(x, d) && d.len < x.len {
      Nested(d, Parent(x), x.base);
    }
  }

  /**
   * A cover equal to or disjoint from `c`, lying inside or outside each piece
   * before the pass, lies inside or outside each piece after it.
   */
  lemma {:induction false} ExcludeKeepsAligned(pieces: seq<Net>, c: Net, d: Net)
    requires AllValid(pieces) && Valid(c) && Valid(d)
    requires d == c || Disjoint(d, c)
    requires forall u :: u in pieces ==> SubnetOf(d, u) || Disjoint(d, u)
    ensures forall x :: x in ExcludeFromAll(pieces, c) ==> SubnetOf(d, x) || Disjoint(d, x)
  {
    if pieces != [] {
      var u := pieces[0];
      assert u in pieces;
      ExcludeKeepsAligned(pieces[1..], c, d);
      if SubnetOf(c, u) {
        var h := Exclude(u, c);
        ExcludeParents(u, c);
        forall i | 0 <= i < |h| ensures SubnetOf(d, h[i]) || Disjoint(d, h[i]) {
          if SubnetOf(d, u) && d != c {
            PieceAgainstCover(h[i], c, d);
          }
        }
      }
    }
  }

  /** Every cover lies inside or outside each piece: none strictly contains a piece. */
  ghost predicate Aligned(pieces: seq<Net>, covers: seq<Net>) {
    forall u, d :: u in pieces && d in covers ==> SubnetOf(d, u) || Disjoint(d, u)
  }

  /** Distinct covers do not overlap. */
  ghost predicate MutuallyDisjoint(covers: seq<Net>) {
    forall c, d :: c in covers && d in covers ==> c == d || Disjoint(c, d)
  }

  /**
   * The covers for which subtraction is exact: inside the target and not
   * overlapping each other (what aggregation provides).
   */
  ghost predicate Exact(target: Net, covers: seq<Net>) {
    (forall c :: c in covers ==> SubnetOf(c, target)) && MutuallyDisjoint(covers)
  }

  /** The outer loop of `subtract_subnets`: one pass per cover, in the given order. */
  function SubtractInOrder(pieces: seq<Net>, order: seq<Net>): (r: seq<Net>)
    requires AllValid(pieces) && AllValid(order)
    ensures AllValid(r)
    decreases |order|
  {
    if order == [] then pieces
    else SubtractInOrder(ExcludeFromAll(pieces, order[0]), order[1..])
  }

  /** Excluding the first cover keeps the remaining covers aligned with the new pieces. */
  lemma StaysAligned(pieces: seq<Net>, order: seq<Net>)
    requires AllValid(pieces) && AllValid(order) && order != []
    ensures Aligned(pieces, order) && MutuallyDisjoint(order) ==>
              Aligned(ExcludeFromAll(pieces, order[0]), order[1..]) && MutuallyDisjoint(order[1..])
  {
    if Aligned(pieces, order) && MutuallyDisjoint(order) {
      forall d | d in order[1..]
        ensures forall x :: x in ExcludeFromAll(pieces, order[0]) ==> SubnetOf(d, x) || Disjoint(d, x)
      {
        ExcludeKeepsAligned(pieces, order[0], d);
      }
    }
  }

  /**
   * The passes never add an address, never lose an address no cover holds,
   * keep the pieces from overlapping, and, when every cover lies inside or
   * outside each piece and the covers do not overlap, remove every covered
   * address.
   */
  lemma {:induction false} SubtractInOrderCovers(pieces: seq<Net>, order: seq<Net>)
    requires AllValid(pieces) && AllValid(order)
    ensures forall a :: Covers(SubtractInOrder(pieces, order), a) ==> Covers(pieces, a)
    ensures forall a :: Covers(pieces, a) && !Covers(order, a) ==> Covers(SubtractInOrder(pieces, order), a)
    ensures PairwiseDisjoint(pieces) ==> PairwiseDisjoint(SubtractInOrder(pieces, order))
    ensures Aligned(pieces, order) && MutuallyDisjoint(order) ==>
              forall a :: Covers(SubtractInOrder(pieces, order), a) ==> !Covers(order, a)
    decreases |order|
  {
    if order != [] {
      var c := order[0];
      var next := ExcludeFromAll(pieces, c);
      ExcludeFromAllCovers(pieces, c);
      if PairwiseDisjoint(pieces) {
        ExcludeFromAllDisjoint(pieces, c);
      }
      StaysAligned(pieces, order);
      SubtractInOrderCovers(next, order[1..]);
      assert order == [c] + order[1..];
      CoversConcat([c], order[1..]);
      CoversSingle(c);
      assert c in order;
    }
  }

  /**
   * `subtract_subnets(target, covers)`: the uncovered pieces of `target`, which
   * lie inside `target` and do not overlap.
   */
  function Subtract(target: Net, covers: seq<Net>): (r: seq<Net>)
    requires Valid(target) && AllValid(covers)
    ensures AllValid(r) && PairwiseDisjoint(r)
    ensures forall x :: x in r ==> SubnetOf(x, target)
  {
    var order := SortBySpecificity(covers);
    SortSameMembers(covers);
    var r := SubtractInOrder([target], order);
    SubtractInOrderCovers([target], order);
    CoversSingle(target);
    forall x | x in r ensures SubnetOf(x, target) {
      AddressesInside(x, target);
    }
    r
  }

  /**
   * Every address of `target` that no cover holds stays uncovered; when the
   * covers lie inside `target` and do not overlap, the uncovered pieces hold
   * exactly those addresses.
   */
  lemma SubtractCovers(target: Net, covers: seq<Net>)
    requires Valid(target) && AllValid(covers)
    ensures forall a :: Contains(target, a) && !Covers(covers, a) ==> Covers(Subtract(target, covers), a)
    ensures Exact(target, covers) ==>
              forall a :: Covers(Subtract(target, covers), a) <==> Contains(target, a) && !Covers(covers, a)
  {
    var order := SortBySpecificity(covers);
    SortSameMembers(covers);
    SubtractInOrderCovers([target], order);
    CoversSingle(target);
    assert target in [target];
  }

  /**
   * The working loop of `subtract_subnets`: `uncovered` starts as `[supernet]`;
   * for each cover, most specific first, every piece that holds the cover is
   * replaced by its `address_exclude` pieces and the others are kept.
   */
  method SubtractSubnets(supernet: Net, aggregated: seq<Net>) returns (uncovered: seq<Net>)
    requires Valid(supernet) && AllValid(aggregated)
    ensures uncovered == Subtract(supernet, aggregated)
  {
    uncovered := [supernet];
    var order := SortBySpecificity(aggregated);
    SortSameMembers(aggregated);
    for k := 0 to |order|
      invariant AllValid(uncovered)
      invariant SubtractInOrder(uncovered, order[k..]) == SubtractInOrder([supernet], order)
    {
      var subnet := order[k];
      assert order[k..][0] == subnet && order[k..][1..] == order[k + 1..];
      var next: seq<Net> := [];
      for t := 0 to |uncovered|
        invariant AllValid(next)
        invariant next + ExcludeFromAll(uncovered[t..], subnet) == ExcludeFromAll(uncovered, subnet)
      {
        var un := uncovered[t];
        var pieces;
        if SubnetOf(subnet, un) {
          pieces := AddressExclude(un, subnet);
        } else {
          pieces := [un];
        }
        PassStep(next, uncovered, t, subnet, pieces);
        next := next + pieces;
      }
      assert uncovered[|uncovered|..] == [];
      assert next == ExcludeFromAll(uncovered, subnet);
      uncovered := next;
    }
    assert order[|order|..] == [];
  }

  /** One step of the inner loop: the pieces of `uncovered[t]` are appended. */
  lemma PassStep(next: seq<Net>, uncovered: seq<Net>, t: nat, c: Net, pieces: seq<Net>)
    requires AllValid(uncovered) && t < |uncovered| && Valid(c)
    requires pieces == Cut(uncovered[t], c)
    ensures next + ExcludeFromAll(uncovered[t..], c) == (next + pieces) + ExcludeFromAll(uncovered[t + 1..], c)
  {
    assert uncovered[t..][0] == uncovered[t] && uncovered[t..][1..] == uncovered[t + 1..];
  }

  // ---------------------------------------------------------------------------
  // Properties
  // ---------------------------------------------------------------------------

  /** With no covers the result is the target itself. */
  lemma SubtractNoCovers(target: Net)
    requires Valid(target)
    ensures Subtract(target, []) == [target]
  {
  }

  /** A cover equal to the target leaves nothing: a network minus itself is empty. */
  lemma SubtractItself(target: Net)
    requires Valid(target)
    ensures Subtract(target, [target]) == []
  {
    assert [target][1..] == [];
    assert SortBySpecificity([target]) == [target];
    assert ExcludeFromAll([target], target) == [];
    assert SubtractInOrder([target], [target]) == SubtractInOrder([], []);
  }

  /**
   * A pass leaves a piece that does not hold the cover as it is, and removes a
   * piece equal to the cover.
   */
  lemma ExcludeFromOne(u: Net, c: Net)
    requires Valid(u) && Valid(c)
    ensures !SubnetOf(c, u) ==> ExcludeFromAll([u], c) == [u]
    ensures c == u ==> ExcludeFromAll([u], c) == []
  {
    assert [u][1..] == [];
  }

  /**
   * When the covers lie inside the target, do not overlap and hold every
   * address of it, nothing is left uncovered.
   */
  lemma FullyCoveredLeavesNothing(target: Net, covers: seq<Net>)
    requires Valid(target) && AllValid(covers) && Exact(target, covers)
    requires forall a :: Contains(target, a) ==> Covers(covers, a)
    ensures Subtract(target, covers) == []
  {
    SubtractCovers(target, covers);
    CoversFirst(Subtract(target, covers));
  }

  /**
   * Nested covers defeat the subtraction: in the target 0/30 with covers 0/31,
   * 0/32 and 2/31, the covers are taken as 0/32, 2/31, 0/31. After the first
   * two passes the pieces are 1/32 alone, which does not hold 0/31, so
   * address 1 is reported uncovered although 0/31 holds it.
   */
  lemma NestedCovers()
    ensures Subtract(Net(0, 30), [Net(0, 31), Net(0, 32), Net(2, 31)]) == [Net(1, 32)]
    ensures Contains(Net(0, 31), 1) && Covers([Net(0, 31), Net(0, 32), Net(2, 31)], 1)
  {
    var t, a, b, c, d := Net(0, 30), Net(0, 31), Net(0, 32), Net(2, 31), Net(1, 32);
    SpecificityExample();
    PassesExample();
    assert SubtractInOrder([d], [a]) == SubtractInOrder([d], []);
    assert SubtractInOrder([c, d], [c, a]) == SubtractInOrder([d], [a]);
    assert SubtractInOrder([t], [b, c, a]) == SubtractInOrder([c, d], [c, a]);
    assert a in [a, b, c];
  }

  lemma SpecificityExample()
    ensures SortBySpecificity([Net(0, 31), Net(0, 32), Net(2, 31)]) == [Net(0, 32), Net(2, 31), Net(0, 31)]
  {
    var a, b, c := Net(0, 31), Net(0, 32), Net(2, 31);
    assert [a, b, c][1..] == [b, c] && [b, c][1..] == [c] && [c][1..] == [];
    assert SortBySpecificity([c]) == InsertBySpecificity(c, []) == [c];
    assert SortBySpecificity([b, c]) == InsertBySpecificity(b, [c]) == [b, c];
    assert InsertBySpecificity(a, []) == [a];
    assert InsertBySpecificity(a, [c]) == [c] + InsertBySpecificity(a, []);
    assert InsertBySpecificity(a, [b, c]) == [b] + InsertBySpecificity(a, [c]);
  }

  /** 0/30 minus 0/32 is 2/31 and 1/32. */
  lemma ExcludeExample()
    ensures Exclude(Net(0, 30), Net(0, 32)) == [Net(2, 31), Net(1, 32)]
  {
    assert Size(32) == 1 && Size(31) == 2 && Size(30) == 4;
    var t, a, b := Net(0, 30), Net(0, 31), Net(0, 32);
    assert Lower(t) == a && Upper(t) == Net(2, 31) && Lower(a) == b && Upper(a) == Net(1, 32);
    assert Exclude(a, b) == [Net(1, 32)] + Exclude(b, b);
  }

  /** The three passes of `subtract_subnets` on 0/30 with covers 0/32, 2/31 and 0/31. */
  lemma PassesExample()
    ensures Valid(Net(0, 30)) && Valid(Net(0, 31)) && Valid(Net(0, 32)) && Valid(Net(2, 31)) && Valid(Net(1, 32))
    ensures ExcludeFromAll([Net(0, 30)], Net(0, 32)) == [Net(2, 31), Net(1, 32)]
    ensures ExcludeFromAll([Net(2, 31), Net(1, 32)], Net(2, 31)) == [Net(1, 32)]
    ensures ExcludeFromAll([Net(1, 32)], Net(0, 31)) == [Net(1, 32)]
  {
    assert Size(32) == 1 && Size(31) == 2 && Size(30) == 4;
    var t, a, b, c, d := Net(0, 30), Net(0, 31), Net(0, 32), Net(2, 31), Net(1, 32);
    ExcludeExample();
    assert [t][1..] == [] && [d][1..] == [] && [c, d][1..] == [d];
    assert Cut(t, b) == [c, d];
    assert Cut(c, c) == Exclude(c, c) == [];
    assert Cut(d, c) == [d] && Cut(d, a) == [d];
  }
}
