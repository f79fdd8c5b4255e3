/**
 * The full-difference report of `compare_tables`: the expected networks that
 * are not, by exact equality, among the actual ones and the actual networks
 * that are not among the expected ones, each side rendered and sorted, the
 * shorter side padded with blanks, zipped into serial-numbered rows.
 */
module Difference {
  import opened Cidr
  import opened Strings

  /** `set(nets)`. */
  function Elements(nets: seq<Net>): set<Net> {
    set n | n in nets
  }

  /** The rendered names of a set of networks: `str(p) for p in nets`. */
  ghost function Image(nets: set<Net>, render: Net -> string): set<string> {
    set n | n in nets :: render(n)
  }

  /** `str` tells valid networks apart: distinct networks print differently. */
  ghost predicate Injective(render: Net -> string) {
    forall n, m :: Valid(n) && Valid(m) && render(n) == render(m) ==> n == m
  }

  /** A row `[i + 1, static_only[i], bgp_only[i]]`. */
  datatype DiffRow = DiffRow(serial: nat, staticOnly: string, bgpOnly: string)

  function Max(a: nat, b: nat): nat {
    if a >= b then a else b
  }

  /** A column extended with blanks to `n` entries. */
  function Padded(s: seq<string>, n: nat): (r: seq<string>)
    requires |s| <= n
    ensures |r| == n && r[..|s|] == s
    ensures forall i :: |s| <= i < n ==> r[i] == ""
  {
    s + seq(n - |s|, _ => "")
  }

  /** The rows built from two sorted columns. */
  function DiffRows(left: seq<string>, right: seq<string>): (rows: seq<DiffRow>)
    ensures |rows| == Max(|left|, |right|)
  {
    var m := Max(|left|, |right|);
    var l, r := Padded(left, m), Padded(right, m);
    seq(m, i requires 0 <= i < m => DiffRow(i + 1, l[i], r[i]))
  }

  /** The expected-only names and the actual-only names, each sorted. */
  ghost function StaticOnly(statics: seq<Net>, bgp: seq<Net>, render: Net -> string): seq<string> {
    Listing(Image(Elements(statics) - Elements(bgp), render))
  }

  ghost function BgpOnly(statics: seq<Net>, bgp: seq<Net>, render: Net -> string): seq<string> {
    Listing(Image(Elements(bgp) - Elements(statics), render))
  }

  /** The full-difference report. */
  ghost function DiffReport(statics: seq<Net>, bgp: seq<Net>, render: Net -> string): seq<DiffRow> {
    DiffRows(StaticOnly(statics, bgp, render), BgpOnly(statics, bgp, render))
  }

  /**
   * `[str(p) for p in nets]`, iterating the set in whatever order it yields its
   * members.
   */
  method RenderAll(nets: set<Net>, render: Net -> string) returns (names: seq<string>)
    requires forall n :: n in nets ==> Valid(n)
    requires Injective(render)
    ensures multiset(names) == multiset(Image(nets, render))
  {
    names := [];
    var rest := nets;
    while rest != {}
      invariant rest <= nets
      invariant multiset(names) == multiset(Image(nets - rest, render))
      decreases rest
    {
      var p :| p in rest;
      ImageAdd(nets - rest, p, render);
      assert nets - (rest - {p}) == (nets - rest) + {p};
      names := names + [render(p)];
      rest := rest - {p};
    }
  }

  /** Adding a network not yet rendered adds its name, which is new. */
  lemma ImageAdd(done: set<Net>, p: Net, render: Net -> string)
    requires Injective(render) && Valid(p) && p !in done && forall n :: n in done ==> Valid(n)
    ensures multiset(Image(done + {p}, render)) == multiset(Image(done, render)) + multiset{render(p)}
  {
    assert Image(done + {p}, render) == Image(done, render) + {render(p)};
    assert render(p) !in Image(done, render);
  }

  /** `sorted(str(p) for p in nets)`: the names of a set of networks, ascending. */
  method SortedNames(nets: set<Net>, render: Net -> string) returns (names: seq<string>)
    requires forall n :: n in nets ==> Valid(n)
    requires Injective(render)
    ensures names == Listing(Image(nets, render))
  {
    var rendered := RenderAll(nets, render);
    names := SortNames(rendered);
    SortedListing(rendered, Image(nets, render));
  }

  /**
   * The full-difference part of `compare_tables`: set difference both ways,
   * sorted names, padding of the shorter column, and the index loop that fills
   * `diff_results`.
   */
  method FullDifference(statics: seq<Net>, bgp: seq<Net>, render: Net -> string)
    returns (rows: seq<DiffRow>)
    requires AllValid(statics) && AllValid(bgp) && Injective(render)
    ensures rows == DiffReport(statics, bgp, render)
  {
    var staticSet := Elements(statics);
    var bgpSet := Elements(bgp);
    var staticOnly := SortedNames(staticSet - bgpSet, render);
    var bgpOnly := SortedNames(bgpSet - staticSet, render);
    ghost var left, right := staticOnly, bgpOnly;

    var maxLen := if |staticOnly| >= |bgpOnly| then |staticOnly| else |bgpOnly|;
    staticOnly := staticOnly + seq(maxLen - |staticOnly|, _ => "");
    bgpOnly := bgpOnly + seq(maxLen - |bgpOnly|, _ => "");

    rows := [];
    for i := 0 to maxLen
      invariant |rows| == i
      invariant Filled(rows, staticOnly, bgpOnly)
    {
      FillStep(rows, staticOnly, bgpOnly);
      rows := rows + [DiffRow(i + 1, staticOnly[i], bgpOnly[i])];
    }
    PaddedColumn(left, maxLen);
    PaddedColumn(right, maxLen);
    Zipped(rows, left, right, staticOnly, bgpOnly);
    assert left == StaticOnly(statics, bgp, render) && right == BgpOnly(statics, bgp, render);
  }

  /** Row `j` of `rows` is the row of the `j`-th names of the two columns. */
  predicate Filled(rows: seq<DiffRow>, l: seq<string>, r: seq<string>) {
    forall j :: 0 <= j < |rows| ==> j < |l| && j < |r| && rows[j] == DiffRow(j + 1, l[j], r[j])
  }

  lemma FillStep(rows: seq<DiffRow>, l: seq<string>, r: seq<string>)
    requires Filled(rows, l, r) && |rows| < |l| && |rows| < |r|
    ensures Filled(rows + [DiffRow(|rows| + 1, l[|rows|], r[|rows|])], l, r)
  {
  }

  /** Appending blanks as `compare_tables` does is `Padded`. */
  lemma PaddedColumn(s: seq<string>, n: nat)
    requires |s| <= n
    ensures s + seq(n - |s|, _ => "") == Padded(s, n)
  {
  }

  /** Rows filled index by index from the padded columns are `DiffRows`. */
  lemma Zipped(rows: seq<DiffRow>, left: seq<string>, right: seq<string>, l: seq<string>, r: seq<string>)
    requires |left| <= |rows| && |right| <= |rows| && |rows| == Max(|left|, |right|)
    requires l == Padded(left, |rows|) && r == Padded(right, |rows|)
    requires Filled(rows, l, r)
    ensures rows == DiffRows(left, right)
  {
  }

  // ---------------------------------------------------------------------------
  // Properties
  // ---------------------------------------------------------------------------

  /** Rendering is one-to-one, so a set of networks has as many names as members. */
  lemma {:induction false} ImageSize(nets: set<Net>, render: Net -> string)
    requires Injective(render) && forall n :: n in nets ==> Valid(n)
    ensures |Image(nets, render)| == |nets|
    decreases nets
  {
    if nets != {} {
      var p :| p in nets;
      ImageSize(nets - {p}, render);
      assert Image(nets, render) == Image(nets - {p}, render) + {render(p)};
      assert render(p) !in Image(nets - {p}, render);
    }
  }

  /**
   * The report has as many rows as the larger of the two set differences, and
   * row `i` carries serial `i + 1`.
   */
  lemma RowCount(statics: seq<Net>, bgp: seq<Net>, render: Net -> string)
    requires AllValid(statics) && AllValid(bgp) && Injective(render)
    ensures |DiffReport(statics, bgp, render)| ==
              Max(|Elements(statics) - Elements(bgp)|, |Elements(bgp) - Elements(statics)|)
    ensures forall i :: 0 <= i < |DiffReport(statics, bgp, render)| ==> DiffReport(statics, bgp, render)[i].serial == i + 1
  {
    ImageSize(Elements(statics) - Elements(bgp), render);
    ImageSize(Elements(bgp) - Elements(statics), render);
  }

  /**
   * Column contents: the expected-only column lists, ascending and each once,
   * the names of the expected networks that are not actual ones, followed by
   * blanks; likewise the actual-only column.
   */
  lemma Columns(statics: seq<Net>, bgp: seq<Net>, render: Net -> string)
    requires forall n :: render(n) != ""
    ensures var rows := DiffReport(statics, bgp, render);
            var l, r := StaticOnly(statics, bgp, render), BgpOnly(statics, bgp, render);
            forall i :: 0 <= i < |rows| ==>
              (rows[i].staticOnly != "" <==> i < |l|) && (rows[i].bgpOnly != "" <==> i < |r|) &&
              (i < |l| ==> rows[i].staticOnly == l[i]) && (i < |r| ==> rows[i].bgpOnly == r[i])
    ensures forall x :: x in StaticOnly(statics, bgp, render) <==>
              exists n :: n in statics && n !in bgp && render(n) == x
    ensures forall x :: x in BgpOnly(statics, bgp, render) <==>
              exists n :: n in bgp && n !in statics && render(n) == x
  {
    var rows := DiffReport(statics, bgp, render);
    var l, r := StaticOnly(statics, bgp, render), BgpOnly(statics, bgp, render);
    forall i | 0 <= i < |rows|
      ensures (rows[i].staticOnly != "" <==> i < |l|) && (i < |l| ==> rows[i].staticOnly == l[i])
      ensures (rows[i].bgpOnly != "" <==> i < |r|) && (i < |r| ==> rows[i].bgpOnly == r[i])
    {
      if i < |l| {
        assert l[i] in l;
      }
      if i < |r| {
        assert r[i] in r;
      }
    }
  }

  /**
   * Membership is by exact equality: a network present in both lists appears in
   * neither column, and no name appears in both columns.
   */
  lemma ColumnsApart(statics: seq<Net>, bgp: seq<Net>, render: Net -> string)
    requires AllValid(statics) && AllValid(bgp) && Injective(render)
    ensures forall n :: n in statics && n in bgp ==>
              render(n) !in StaticOnly(statics, bgp, render) && render(n) !in BgpOnly(statics, bgp, render)
    ensures forall x :: x in StaticOnly(statics, bgp, render) ==> x !in BgpOnly(statics, bgp, render)
  {
  }
}
