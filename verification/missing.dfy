/**
 * The missing-coverage report of `compare_tables`: for each expected (static)
 * network, the parts of its range that no actual (BGP) network holds, one
 * serial-numbered row per uncovered piece.
 */
module Missing {
  import opened Cidr
  import opened Aggregate
  import opened Exclusion

  /** `covering_bgp`: the actual networks inside `e` or around it, in their original order. */
  function Covering(e: Net, bgp: seq<Net>): (r: seq<Net>)
    ensures forall n :: n in r <==> n in bgp && (SubnetOf(n, e) || SubnetOf(e, n))
  {
    if bgp == [] then []
    else
      assert bgp == [bgp[0]] + bgp[1..];
      (if SubnetOf(bgp[0], e) || SubnetOf(e, bgp[0]) then [bgp[0]] else []) + Covering(e, bgp[1..])
  }

  /** Some actual network equals `e` or is a supernet of it. */
  predicate FullyCovered(e: Net, bgp: seq<Net>) {
    exists b :: b in bgp && SubnetOf(e, b)
  }

  /**
   * The uncovered pieces reported for `e`: none when an actual network holds
   * all of `e`, otherwise `e` minus the collapsed covering networks.
   */
  function Uncovered(e: Net, bgp: seq<Net>): (r: seq<Net>)
    requires Valid(e) && AllValid(bgp)
    ensures AllValid(r) && PairwiseDisjoint(r)
    ensures forall x :: x in r ==> SubnetOf(x, e)
  {
    if FullyCovered(e, bgp) then [] else Subtract(e, Collapse(Covering(e, bgp)))
  }

  /**
   * The pieces reported for `e` hold exactly the addresses of `e` that no
   * actual network holds.
   */
  lemma UncoveredExact(e: Net, bgp: seq<Net>)
    requires Valid(e) && AllValid(bgp)
    ensures forall a :: Covers(Uncovered(e, bgp), a) <==> Contains(e, a) && !Covers(bgp, a)
  {
    if FullyCovered(e, bgp) {
      var b :| b in bgp && SubnetOf(e, b);
      assert forall a :: Contains(e, a) ==> Contains(b, a);
    } else {
      var cov := Covering(e, bgp);
      var agg := Collapse(cov);
      forall x | x in agg ensures SubnetOf(x, e) {
        assert forall a :: Contains(x, a) ==> Covers(agg, a);
        AddressesInside(x, e);
      }
      OrderedDisjoint(agg);
      SubtractCovers(e, agg);
      forall a | Contains(e, a) && Covers(bgp, a) ensures Covers(cov, a) {
        var b :| b in bgp && Contains(b, a);
        NestedOrDisjoint(b, e);
      }
    }
  }

  /** An expected network that no actual network overlaps is reported whole, as one piece. */
  lemma NothingOverlaps(e: Net, bgp: seq<Net>)
    requires Valid(e) && AllValid(bgp)
    requires forall b :: b in bgp ==> Disjoint(b, e)
    ensures Uncovered(e, bgp) == [e]
  {
    assert Contains(e, e.base);
    assert !FullyCovered(e, bgp);
    NoCovering(e, bgp);
    CollapseEmpty();
    SubtractNoCovers(e);
  }

  lemma {:induction false} NoCovering(e: Net, bgp: seq<Net>)
    requires Valid(e) && forall b :: b in bgp ==> Disjoint(b, e)
    ensures Covering(e, bgp) == []
  {
    if bgp != [] {
      assert bgp[0] in bgp;
      assert forall b :: b in bgp[1..] ==> b in bgp;
      NoCovering(e, bgp[1..]);
    }
  }

  /** The (expected network, uncovered piece) pairs listed for `e`. */
  function GapsOf(e: Net, bgp: seq<Net>): (g: seq<(Net, Net)>)
    requires Valid(e) && AllValid(bgp)
    ensures |g| == |Uncovered(e, bgp)|
  {
    var u := Uncovered(e, bgp);
    seq(|u|, i requires 0 <= i < |u| => (e, u[i]))
  }

  /** The pairs listed for all expected networks, in order. */
  function Gaps(statics: seq<Net>, bgp: seq<Net>): seq<(Net, Net)>
    requires AllValid(statics) && AllValid(bgp)
  {
    if statics == [] then []
    else Gaps(statics[..|statics| - 1], bgp) + GapsOf(statics[|statics| - 1], bgp)
  }

  /** A row `[serial, str(static_net), uncovered_subnet]`. */
  datatype MissingRow = MissingRow(serial: nat, expected: string, uncovered: string)

  /** The row for a pair: the remainder column is blank when the piece is the whole network. */
  function RowOf(serial: nat, g: (Net, Net), render: Net -> string): MissingRow {
    MissingRow(serial, render(g.0), if g.1 == g.0 then "" else render(g.1))
  }

  /** The report: one row per pair, serials counted from 1 over the rows. */
  function MissingRows(gaps: seq<(Net, Net)>, render: Net -> string): (rows: seq<MissingRow>)
    ensures |rows| == |gaps|
  {
    seq(|gaps|, i requires 0 <= i < |gaps| => RowOf(i + 1, gaps[i], render))
  }

  /**
   * One round of the loop of `compare_tables`: the actual networks overlapping
   * `staticNet`, collapsed, are subtracted from it unless one of them holds it
   * entirely.
   */
  method UncoveredPart(staticNet: Net, bgp: seq<Net>) returns (uncovered: seq<Net>)
    requires Valid(staticNet) && AllValid(bgp)
    ensures uncovered == Uncovered(staticNet, bgp)
  {
    var coveringBgp := Covering(staticNet, bgp);
    var aggBgp := Collapse(coveringBgp);
    if exists b :: b in bgp && SubnetOf(staticNet, b) {
      uncovered := [];
    } else {
      uncovered := SubtractSubnets(staticNet, aggBgp);
    }
  }

  /**
   * The loop of `compare_tables` that fills `missing_results`, with `serial`
   * counting the rows emitted so far.
   */
  method MissingCoverage(statics: seq<Net>, bgp: seq<Net>, render: Net -> string)
    returns (rows: seq<MissingRow>)
    requires AllValid(statics) && AllValid(bgp)
    ensures rows == MissingRows(Gaps(statics, bgp), render)
  {
    rows := [];
    var serial := 1;
    for k := 0 to |statics|
      invariant rows == MissingRows(Gaps(statics[..k], bgp), render)
      invariant serial == |rows| + 1
    {
      var staticNet := statics[k];
      var uncovered := UncoveredPart(staticNet, bgp);
      ghost var before := Gaps(statics[..k], bgp);
      ghost var gaps := GapsOf(staticNet, bgp);
      if uncovered != [] {
        for t := 0 to |uncovered|
          invariant rows == MissingRows(before + gaps[..t], render)
          invariant serial == |rows| + 1
        {
          var miss := uncovered[t];
          var uncoveredSubnet := if miss == staticNet then "" else render(miss);
          assert gaps[t] == (staticNet, miss);
          EmitStep(rows, before, gaps, t, render, staticNet, miss);
          rows := rows + [MissingRow(serial, render(staticNet), uncoveredSubnet)];
          serial := serial + 1;
        }
      }
      TakeAll(gaps);
      GapsAppend(statics[..k], staticNet, bgp);
      TakeStep(statics, k);
    }
    TakeAll(statics);
  }

  lemma TakeAll<T>(s: seq<T>)
    ensures s[..|s|] == s
  {
  }

  lemma TakeStep<T>(s: seq<T>, k: nat)
    requires k < |s|
    ensures s[..k + 1] == s[..k] + [s[k]]
  {
  }

  lemma PrefixStep<T>(a: seq<T>, b: seq<T>, t: nat)
    requires t < |b|
    ensures a + b[..t + 1] == (a + b[..t]) + [b[t]]
  {
    assert b[..t + 1] == b[..t] + [b[t]];
  }

  /** Emitting the row for pair `t` of `gaps` extends the report by that row. */
  lemma EmitStep(rows: seq<MissingRow>, before: seq<(Net, Net)>, gaps: seq<(Net, Net)>, t: nat, render: Net -> string,
                 e: Net, miss: Net)
    requires t < |gaps| && gaps[t] == (e, miss) && rows == MissingRows(before + gaps[..t], render)
    ensures rows + [MissingRow(|rows| + 1, render(e), if miss == e then "" else render(miss))]
            == MissingRows(before + gaps[..t + 1], render)
  {
    RowStep(rows, before + gaps[..t], gaps[t], render);
    PrefixStep(before, gaps, t);
  }

  /** Emitting the row for pair `g` extends the report by the row of `g`. */
  lemma RowStep(rows: seq<MissingRow>, gaps: seq<(Net, Net)>, g: (Net, Net), render: Net -> string)
    requires rows == MissingRows(gaps, render)
    ensures rows + [MissingRow(|rows| + 1, render(g.0), if g.1 == g.0 then "" else render(g.1))]
            == MissingRows(gaps + [g], render)
  {
  }

  // ---------------------------------------------------------------------------
  // Properties
  // ---------------------------------------------------------------------------

  /** Serial numbers run 1, 2, 3, ... over the emitted rows. */
  lemma SerialsConsecutive(gaps: seq<(Net, Net)>, render: Net -> string)
    ensures forall i :: 0 <= i < |MissingRows(gaps, render)| ==> MissingRows(gaps, render)[i].serial == i + 1
  {
  }

  /** An expected network that an actual network equals or contains adds no rows. */
  lemma FullyCoveredAddsNothing(statics: seq<Net>, e: Net, bgp: seq<Net>)
    requires AllValid(statics) && Valid(e) && AllValid(bgp) && FullyCovered(e, bgp)
    ensures Gaps(statics + [e], bgp) == Gaps(statics, bgp)
  {
    assert (statics + [e])[..|statics|] == statics;
  }

  /**
   * Rows for one expected network follow the rows of the ones before it: their
   * number is the number of its uncovered pieces.
   */
  lemma GapsAppend(statics: seq<Net>, e: Net, bgp: seq<Net>)
    requires AllValid(statics) && Valid(e) && AllValid(bgp)
    ensures Gaps(statics + [e], bgp) == Gaps(statics, bgp) + GapsOf(e, bgp)
    ensures |Gaps(statics + [e], bgp)| == |Gaps(statics, bgp)| + |Uncovered(e, bgp)|
  {
    assert (statics + [e])[..|statics|] == statics;
  }

  /**
   * With a rendering that never yields the empty string, the remainder column
   * is blank exactly when the piece is the whole expected network.
   */
  lemma BlankRemainder(gaps: seq<(Net, Net)>, render: Net -> string)
    requires forall n :: render(n) != ""
    ensures forall i :: 0 <= i < |gaps| ==>
              (MissingRows(gaps, render)[i].uncovered == "" <==> gaps[i].1 == gaps[i].0)
  {
  }

  /**
   * Every listed piece belongs to an expected network, lies inside it, and holds
   * no address of any actual network.
   */
  lemma {:induction false} GapsSound(statics: seq<Net>, bgp: seq<Net>)
    requires AllValid(statics) && AllValid(bgp)
    ensures forall i :: 0 <= i < |Gaps(statics, bgp)| ==>
              var g := Gaps(statics, bgp)[i];
              g.0 in statics && Valid(g.1) && SubnetOf(g.1, g.0) && forall a :: Contains(g.1, a) ==> !Covers(bgp, a)
  {
    if statics != [] {
      var init, e := statics[..|statics| - 1], statics[|statics| - 1];
      GapsSound(init, bgp);
      UncoveredExact(e, bgp);
      var u := Uncovered(e, bgp);
      forall i | 0 <= i < |u| ensures forall a :: Contains(u[i], a) ==> !Covers(bgp, a) {
        assert u[i] in u;
      }
      assert forall n :: n in init ==> n in statics;
    }
  }

  /**
   * Every address of an expected network that no actual network holds lies in
   * a piece listed for that network.
   */
  lemma {:induction false} GapsComplete(statics: seq<Net>, bgp: seq<Net>, k: nat, a: int)
    requires AllValid(statics) && AllValid(bgp) && k < |statics|
    requires Contains(statics[k], a) && !Covers(bgp, a)
    ensures Listed(Gaps(statics, bgp), statics[k], a)
  {
    var init, e := statics[..|statics| - 1], statics[|statics| - 1];
    var before, g := Gaps(init, bgp), GapsOf(e, bgp);
    assert Gaps(statics, bgp) == before + g;
    if k < |statics| - 1 {
      assert init[k] == statics[k];
      GapsComplete(init, bgp, k, a);
    } else {
      PieceHolding(e, bgp, a);
    }
    ListedAppend(before, g, statics[k], a);
  }

  /** Some pair of `gaps` is for network `e` and holds address `a`. */
  ghost predicate Listed(gaps: seq<(Net, Net)>, e: Net, a: int) {
    exists i :: 0 <= i < |gaps| && gaps[i].0 == e && Contains(gaps[i].1, a)
  }

  lemma ListedAppend(before: seq<(Net, Net)>, g: seq<(Net, Net)>, e: Net, a: int)
    requires Listed(before, e, a) || Listed(g, e, a)
    ensures Listed(before + g, e, a)
  {
    if Listed(before, e, a) {
      var i :| 0 <= i < |before| && before[i].0 == e && Contains(before[i].1, a);
      assert (before + g)[i] == before[i];
    } else {
      var j :| 0 <= j < |g| && g[j].0 == e && Contains(g[j].1, a);
      assert (before + g)[|before| + j] == g[j];
    }
  }

  lemma PieceHolding(e: Net, bgp: seq<Net>, a: int)
    requires Valid(e) && AllValid(bgp) && Contains(e, a) && !Covers(bgp, a)
    ensures Listed(GapsOf(e, bgp), e, a)
  {
    UncoveredExact(e, bgp);
    var u := Uncovered(e, bgp);
    var x :| x in u && Contains(x, a);
    var j :| 0 <= j < |u| && u[j] == x;
    assert GapsOf(e, bgp)[j] == (e, x);
  }

  /**
   * Some row, with its serial, names `e` and a remainder of `e` that holds `a`
   * and no address of an actual network.
   */
  ghost predicate ReportsGap(rows: seq<MissingRow>, e: Net, bgp: seq<Net>, render: Net -> string, a: int) {
    exists i, piece :: 0 <= i < |rows| && rows[i] == RowOf(i + 1, (e, piece), render) &&
      Contains(piece, a) && SubnetOf(piece, e) && forall b :: Contains(piece, b) ==> !Covers(bgp, b)
  }

  /** The rows report every address of an expected network that no actual network holds. */
  lemma RowsComplete(statics: seq<Net>, bgp: seq<Net>, render: Net -> string, k: nat, a: int)
    requires AllValid(statics) && AllValid(bgp) && k < |statics|
    requires Contains(statics[k], a) && !Covers(bgp, a)
    ensures ReportsGap(MissingRows(Gaps(statics, bgp), render), statics[k], bgp, render, a)
  {
    var gaps := Gaps(statics, bgp);
    GapsComplete(statics, bgp, k, a);
    GapsSound(statics, bgp);
    var i :| 0 <= i < |gaps| && gaps[i].0 == statics[k] && Contains(gaps[i].1, a);
    var rows := MissingRows(gaps, render);
    RowAt(gaps, render, i);
    var piece := gaps[i].1;
    assert gaps[i] == (statics[k], piece);
    assert SubnetOf(piece, statics[k]) && forall b :: Contains(piece, b) ==> !Covers(bgp, b);
  }

  lemma RowAt(gaps: seq<(Net, Net)>, render: Net -> string, i: nat)
    requires i < |gaps|
    ensures MissingRows(gaps, render)[i] == RowOf(i + 1, gaps[i], render)
  {
  }
}
