/**
 * `compare_tables`: parse the expected (static) routes and the actual (BGP)
 * routes, then report the missing coverage of each expected network and the
 * networks present in only one of the two tables.
 */
module Compare {
  import opened Cidr
  import opened Parse
  import opened Missing
  import opened Difference

  /** The pair `(missing_results, diff_results)`. */
  datatype Report = Report(missing: seq<MissingRow>, diff: seq<DiffRow>)

  /**
   * What `compare_tables` returns: the expected tokens are all parsed before the
   * actual ones, and the first token that does not parse aborts the comparison.
   */
  ghost function Comparison(staticTokens: seq<Token>, bgpTokens: seq<Token>, render: Net -> string): Result<Report> {
    match ParseAll(staticTokens)
    case Err(t) => Err(t)
    case Ok(statics) =>
      match ParseAll(bgpTokens)
      case Err(t) => Err(t)
      case Ok(bgp) => Ok(Report(MissingRows(Gaps(statics, bgp), render), DiffReport(statics, bgp, render)))
  }

  method CompareTables(staticTokens: seq<Token>, bgpTokens: seq<Token>, render: Net -> string)
    returns (r: Result<Report>)
    requires Injective(render)
    ensures r == Comparison(staticTokens, bgpTokens, render)
  {
    var staticNets := ParseAll(staticTokens);
    if staticNets.Err? {
      return Err(staticNets.bad);
    }
    var bgpNets := ParseAll(bgpTokens);
    if bgpNets.Err? {
      return Err(bgpNets.bad);
    }
    var missing := MissingCoverage(staticNets.value, bgpNets.value, render);
    var diff := FullDifference(staticNets.value, bgpNets.value, render);
    r := Ok(Report(missing, diff));
  }

  // ---------------------------------------------------------------------------
  // Properties
  // ---------------------------------------------------------------------------

  /**
   * The comparison fails exactly when some token does not parse, and a bad
   * expected token is reported in preference to a bad actual one.
   */
  lemma ComparisonFails(staticTokens: seq<Token>, bgpTokens: seq<Token>, render: Net -> string)
    ensures Comparison(staticTokens, bgpTokens, render).Err? <==>
              (exists i :: 0 <= i < |staticTokens| && ParseNetwork(staticTokens[i]).Err?) ||
              (exists i :: 0 <= i < |bgpTokens| && ParseNetwork(bgpTokens[i]).Err?)
    ensures (exists i :: 0 <= i < |staticTokens| && ParseNetwork(staticTokens[i]).Err?) ==>
              Comparison(staticTokens, bgpTokens, render).Err? &&
              Comparison(staticTokens, bgpTokens, render).bad in staticTokens
  {
  }

  /**
   * A successful comparison reports, for every address inside an expected
   * network that no actual network holds, a missing-coverage row naming that
   * network and a remainder around the address that no actual network touches.
   */
  lemma ComparisonMissing(staticTokens: seq<Token>, bgpTokens: seq<Token>, render: Net -> string,
                          statics: seq<Net>, bgp: seq<Net>, k: nat, a: int)
    requires ParseAll(staticTokens) == Ok(statics) && ParseAll(bgpTokens) == Ok(bgp)
    requires k < |statics| && Contains(statics[k], a) && !Covers(bgp, a)
    ensures Comparison(staticTokens, bgpTokens, render).Ok?
    ensures ReportsGap(Comparison(staticTokens, bgpTokens, render).value.missing, statics[k], bgp, render, a)
  {
    RowsComplete(statics, bgp, render, k, a);
  }
}
