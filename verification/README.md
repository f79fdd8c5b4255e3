# Route table comparison: a verified model

`Route_Compare.py` compares an expected (static) IPv4 routing table with an
actual (BGP) one. The program works on CIDR prefixes, the notation of
section 3.1 of RFC 4632. It produces two reports:

- **Missing coverage.** For each expected network, the blocks of its address
  range that no actual network holds. There is one serial-numbered row per
  uncovered block, and the remainder column is blank when the whole network is
  uncovered.
- **Full difference.** The networks present, by exact equality, in only one of
  the two tables. Each side is rendered and sorted, the shorter side is padded
  with blanks, and the two columns are zipped into serial-numbered rows.

The model has one module per part of the program:

- `Cidr` (`cidr.dfy`): a network is `Net(base, len)` with `len <= 32` and the
  host bits of `base` clear. It denotes the addresses
  `[base, base + 2^(32-len))`. This module defines containment, disjointness
  and coverage by a list, and `Normalize`, which clears host bits. It proves
  that two CIDR blocks are either nested or disjoint.
- `Parse` (`parse.dfy`): `ip_network(token, strict=False)` over a token that
  is already split into its dotted fields and its prefix field. A rejected
  token aborts the comparison with no partial result.
- `Aggregate` (`aggregate.dfy`): `collapse_addresses` as a fixed point. It
  drops a network held by another, merges two sibling halves, and finally
  sorts by address.
- `Exclusion` (`exclusion.dfy`):
  - `address_exclude` as a recursive specification `Exclude` and as the
    library's two-halves loop `AddressExclude`;
  - `subtract_subnets` as the fold `Subtract` over the covers, sorted most
    specific first, and as the nested worklist loop `SubtractSubnets`.
- `Missing` (`missing.dfy`): the per-network loop of `compare_tables` and its
  rows.
- `Strings` (`strings.dfy`): Python's string order, `sorted`, and the sorted
  listing of a set of strings.
- `Difference` (`difference.dfy`): the set differences, sorting, padding and
  the index loop of the full-difference report.
- `Compare` (`compare.dfy`): `compare_tables` end to end.
- `Wrappers` (`wrappers.dfy`): an `Option` type.

`str(p)` is a parameter `render: Net -> string`. Where a property depends on
it, the model assumes that `render` is injective on valid networks or never
empty.

## Model

| member | source | states |
|---|---|---|
| Cidr.Normalize | Route_Compare.py:27-28 | the network of a given length holding an address is valid, has that length and contains the address, and it is the only such network |
| Cidr.NestedOrDisjoint | Route_Compare.py:16 | two valid CIDR blocks either nest one inside the other or share no address |
| Parse.ParseNetwork | Route_Compare.py:27-28 | a token parses exactly when its four octets and its prefix length are accepted; the result is valid, has the given prefix length and contains the literal address; the base equals that address exactly when the address has no host bits set |
| Parse.ParseAll | Route_Compare.py:27-28 | every token parses, in order, or the result is an error naming the first token that fails, with no partial list |
| Parse.OctetRoundTrip | Route_Compare.py:27-28 | every value 0..255, written canonically, is accepted as an octet with that value |
| Parse.OctetCanonical | Route_Compare.py:27-28 | an accepted octet is the canonical numeral of its value, so leading zeros, signs and over-long fields are rejected |
| Parse.PrefixLeadingZero | Route_Compare.py:27-28 | within the 4300-digit limit of `int()`, a leading zero is accepted in the prefix length without changing it, but rejected in an octet |
| Parse.PrefixTooLong | Route_Compare.py:27-28 | 4300 zeros followed by `8` are rejected, while 4299 zeros followed by `8` give prefix length 8 |
| Aggregate.Collapse | Route_Compare.py:8-9 | the collapse holds exactly the addresses of its input, as valid, ascending, non-overlapping networks with no two sibling halves |
| Aggregate.CollapseFixpoint | Route_Compare.py:8-9 | an ascending, non-overlapping list without siblings is returned unchanged |
| Aggregate.CollapseIdempotent | Route_Compare.py:8-9 | collapsing a collapse changes nothing |
| Aggregate.OrderedDisjoint | Route_Compare.py:35 | members of an ascending collapse are pairwise disjoint and distinct |
| Exclusion.Exclude | Route_Compare.py:17 | a network minus a subnet of it is one piece per level between the two prefix lengths; piece i has length `u.len + 1 + i`, lies inside the network and is disjoint from the excluded subnet |
| Exclusion.ExcludeCovers | Route_Compare.py:17 | the excluded subnet and the pieces together hold exactly the addresses of the network |
| Exclusion.ExcludeDisjoint | Route_Compare.py:17 | the pieces of one exclusion do not overlap each other |
| Exclusion.AddressExclude | Route_Compare.py:17 | the library's halving loop yields exactly the pieces of `Exclude`, in order |
| Exclusion.SortBySpecificity | Route_Compare.py:13 | the sorted covers are a permutation of the covers, longest prefix first and, among equal lengths, higher address first |
| Exclusion.ExcludeFromOne | Route_Compare.py:16-19 | a pass leaves a piece that does not hold the cover unchanged and removes a piece equal to the cover |
| Exclusion.SubtractInOrderCovers | Route_Compare.py:13-20 | the passes never add an address and never lose one that no cover holds; they keep the pieces pairwise disjoint; with aligned, non-overlapping covers they remove every covered address |
| Exclusion.Subtract | Route_Compare.py:11-21 | the uncovered pieces are valid, pairwise disjoint subnets of the target |
| Exclusion.SubtractCovers | Route_Compare.py:11-21 | every address of the target that no cover holds stays uncovered; for covers inside the target that do not overlap, the pieces hold exactly the target minus the covers |
| Exclusion.SubtractSubnets | Route_Compare.py:11-21 | the worklist loop, with its inner loop over the uncovered pieces, returns exactly `Subtract` |
| Exclusion.SubtractNoCovers | Route_Compare.py:12-21 | with no covers the result is `[supernet]` |
| Exclusion.SubtractItself | Route_Compare.py:16-17 | a network minus itself leaves nothing |
| Exclusion.NestedCovers | Route_Compare.py:13-19 | with nested covers the subtraction is not exact: 0/30 minus 0/31, 0/32 and 2/31 leaves 1/32, although 0/31 holds address 1 |
| Exclusion.FullyCoveredLeavesNothing | Route_Compare.py:11-21 | non-overlapping covers inside the target that hold all of it leave nothing |
| Missing.Covering | Route_Compare.py:34 | the covering list holds exactly the actual networks nested with the expected one, in either direction |
| Missing.UncoveredPart | Route_Compare.py:34-39 | one round of the per-network loop returns exactly `Uncovered` |
| Missing.Uncovered | Route_Compare.py:34-39 | the pieces reported for a network are valid, pairwise disjoint subnets of it |
| Missing.UncoveredExact | Route_Compare.py:34-39 | the pieces reported for a network hold exactly its addresses that no actual network holds |
| Missing.NothingOverlaps | Route_Compare.py:34-39 | a network that no actual network overlaps is reported whole, as the single piece `[e]` |
| Missing.MissingCoverage | Route_Compare.py:31-45 | the loop with its `serial` counter produces exactly `MissingRows(Gaps(statics, bgp))` |
| Missing.SerialsConsecutive | Route_Compare.py:32-45 | serial numbers run 1, 2, 3, ... over the emitted rows, not over expected networks |
| Missing.FullyCoveredAddsNothing | Route_Compare.py:36-37 | an expected network that an actual network equals or contains adds no rows |
| Missing.GapsAppend | Route_Compare.py:41-45 | each expected network adds one row per uncovered piece after the rows of the networks before it |
| Missing.BlankRemainder | Route_Compare.py:43 | with a never-empty rendering, the remainder column is blank exactly when the piece is the whole expected network |
| Missing.GapsSound | Route_Compare.py:33-45 | every listed piece belongs to an expected network, lies inside it and holds no address of any actual network |
| Missing.GapsComplete | Route_Compare.py:33-45 | every address of an expected network that no actual network holds lies in a piece listed for that network |
| Missing.RowsComplete | Route_Compare.py:33-45 | every such address is reported in a row with its serial, naming the expected network and an uncovered remainder around the address |
| Strings.SortNames | Route_Compare.py:51-52 | sorting gives a permutation in ascending string order |
| Strings.AscendingUnique | Route_Compare.py:51-52 | two strictly ascending lists with the same members are the same list |
| Strings.SortedListing | Route_Compare.py:51-52 | sorting any listing of a set, each member once, gives the same list whatever order the set was iterated in |
| Strings.StrLessTransitive | Route_Compare.py:51-52 | the string order is transitive |
| Strings.StrLessTotal | Route_Compare.py:51-52 | any two different strings are ordered one way or the other |
| Difference.RenderAll | Route_Compare.py:51-52 | rendering a set of networks in whatever order it is iterated yields each name of the set once |
| Difference.SortedNames | Route_Compare.py:51-52 | the sorted names of a set are its strictly ascending listing |
| Difference.Padded | Route_Compare.py:54-56 | a padded column has the requested length, keeps the original entries and is blank after them |
| Difference.FullDifference | Route_Compare.py:47-60 | the set differences, sorting, padding and index loop produce exactly `DiffReport` |
| Difference.RowCount | Route_Compare.py:54-60 | the report has as many rows as the larger of the two set differences, and row i has serial i+1 |
| Difference.Columns | Route_Compare.py:51-56 | each column lists, ascending, the names of the networks in one table and not the other, followed by blanks only |
| Difference.ColumnsApart | Route_Compare.py:47-52 | a network in both tables appears in neither column, and no name appears in both columns |
| Compare.CompareTables | Route_Compare.py:23-62 | parsing the expected then the actual tokens, then both reports, gives exactly `Comparison` |
| Compare.ComparisonFails | Route_Compare.py:27-28 | the comparison fails exactly when some token does not parse, and a bad expected token is reported before a bad actual one |
| Compare.ComparisonMissing | Route_Compare.py:27-45 | after a successful parse, every address of an expected network that no actual network holds is reported in a missing-coverage row |

## Left out

- `load_prefixes` (Route_Compare.py:5-6): the regular-expression scan of the text is not modelled. The comparison receives the tokens it would find, each already split into its dot-separated fields and its prefix field.
- `Parse.ParseOctet` and `Parse.ParsePrefixLength` follow an `ipaddress` that rejects any leading zero in an octet (bpo-36384) and an `int()` with the default limit of 4300 digits (CVE-2020-10735), so a prefix-length field of more than 4300 digits is rejected (`Parse.PrefixTooLong`). An interpreter without the first change also accepts the octets `00`, `000`, `01` to `07` and `001` to `007`; one without the second accepts prefix fields of any length. Neither older behaviour is modelled, and neither is a different `int()` digit limit.
- Python's `\d` also matches non-ASCII decimal digits, which the library then rejects. The model accepts ASCII digits only, so such a token is rejected in both.
- The interactive `__main__` block (Route_Compare.py:64-113) is not modelled: prompts, file reading and the output file.
- `tabulate` formatting (Route_Compare.py:3, 96, 100) is not modelled.
- `str(p)` is the parameter `render`, not dotted-quad printing. Lemmas that need it assume `render` is injective on valid networks or never empty.
- Python's string comparison is modelled as lexicographic order on code points. Ties do not occur, because the sorted names are distinct.
- Python iterates a set in an implementation-defined order. `Strings.Enumerate` and `Difference.RenderAll` pick an arbitrary member at each step. The sorted result is proved not to depend on that order.
- `Aggregate.Collapse`: the library's `collapse_addresses` algorithm is not reproduced step by step. The model is a fixed point with the same output properties: the same addresses, ascending, non-overlapping, no siblings. The order of the collapsed list does not affect the subtraction, which re-sorts the covers.
- `Exclusion.Subtract`: `subtract_subnets` (Route_Compare.py:11-21) is not exact for nested covers. A cover that a more specific cover has already split is a subnet of no remaining piece, so line 16 skips it and the addresses of it that no more specific cover holds stay reported as uncovered. `Exclusion.NestedCovers` exhibits this: target 0/30 minus 0/31, 0/32 and 2/31 leaves 1/32, which 0/31 holds. Exactness is therefore proved only for covers that lie inside the target and do not overlap (`Exclusion.SubtractCovers`); for arbitrary covers only the lower bound holds. `compare_tables` is exact because line 35 collapses the covering networks before they are subtracted (`Missing.UncoveredExact`).
- Exceptions other than a rejected token (for example, out of memory) are not modelled.
