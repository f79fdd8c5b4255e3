/**
 * IPv4 networks in CIDR notation (section 3.1 of RFC 4632): a 32-bit base
 * address whose host bits are zero, and a prefix length between 0 and 32.
 * A network denotes the address range [base, base + 2^(32 - len)).
 */
module Cidr {

  /** Number of IPv4 addresses: 2^32. */
  const AddressSpace: nat := 0x1_0000_0000

  /** Number of addresses in a block with prefix length `len`: 2^(32 - len). */
  function Size(len: nat): (r: nat)
    ensures r >= 1
    decreases 32 - len
  {
    if len >= 32 then 1 else 2 * Size(len + 1)
  }

  datatype Net = Net(base: nat, len: nat)

  /** A well-formed network: no host bit set and the block lies in the address space. */
  predicate Valid(n: Net) {
    n.len <= 32 && n.base % Size(n.len) == 0 && n.base + Size(n.len) <= AddressSpace
  }

  predicate AllValid(s: seq<Net>) {
    forall n :: n in s ==> Valid(n)
  }

  /** Address `a` lies in the range of `n`. */
  predicate Contains(n: Net, a: int) {
    n.base <= a < n.base + Size(n.len)
  }

  /** `n.subnet_of(m)`: the range of `n` lies inside the range of `m` (equality included). */
  predicate SubnetOf(n: Net, m: Net) {
    m.base <= n.base && n.base + Size(n.len) <= m.base + Size(m.len)
  }

  /** The ranges of `n` and `m` share no address. */
  predicate Disjoint(n: Net, m: Net) {
    n.base + Size(n.len) <= m.base || m.base + Size(m.len) <= n.base
  }

  /** No two members (at different positions) of `s` overlap. */
  predicate PairwiseDisjoint(s: seq<Net>) {
    forall i, j :: 0 <= i < j < |s| ==> Disjoint(s[i], s[j])
  }

  /** Some member of `s` contains address `a`. */
  ghost predicate Covers(s: seq<Net>, a: int) {
    exists n :: n in s && Contains(n, a)
  }

  /**
   * The network of prefix length `len` that contains address `a`:
   * `a` with its host bits cleared (`a & netmask`).
   */
  function Normalize(a: nat, len: nat): (n: Net)
    requires a < AddressSpace && len <= 32
    ensures Valid(n) && n.len == len && Contains(n, a)
    ensures forall m :: Valid(m) && m.len == len && Contains(m, a) ==> m == n
  {
    var s := Size(len);
    DivMod(a, s);
    var base := a - a % s;
    ModOfMultiple(base, s, a / s, 0);
    SizeDividesSpace(len);
    MultiplesApart(base, AddressSpace, s);
    forall m | Valid(m) && m.len == len && Contains(m, a) ensures m == Net(base, len) {
      DivMod(m.base, s);
      ModOfMultiple(a, s, m.base / s, a - m.base);
    }
    Net(base, len)
  }

  /** The lower half of `n` (first result of `n.subnets()`). */
  function Lower(n: Net): (h: Net)
    requires Valid(n) && n.len < 32
    ensures Valid(h) && h.len == n.len + 1 && SubnetOf(h, n)
  {
    HalvesAligned(n);
    Net(n.base, n.len + 1)
  }

  /** The upper half of `n` (second result of `n.subnets()`). */
  function Upper(n: Net): (h: Net)
    requires Valid(n) && n.len < 32
    ensures Valid(h) && h.len == n.len + 1 && SubnetOf(h, n)
    ensures Disjoint(h, Lower(n))
    ensures forall a :: Contains(n, a) <==> Contains(Lower(n), a) || Contains(h, a)
  {
    HalvesAligned(n);
    Net(n.base + Size(n.len + 1), n.len + 1)
  }

  /** The network one bit shorter that contains `n` (`n.supernet()`). */
  function Parent(n: Net): (p: Net)
    requires Valid(n) && n.len > 0
    ensures Valid(p) && p.len + 1 == n.len && SubnetOf(n, p)
    ensures n == Lower(p) || n == Upper(p)
  {
    var p := Normalize(n.base, n.len - 1);
    var q := Normalize(n.base, n.len);
    assert n == q;
    if Contains(Lower(p), n.base) then
      assert Lower(p) == q;
      p
    else
      assert Upper(p) == q;
      p
  }

  // ---------------------------------------------------------------------------
  // Arithmetic facts (Euclidean division by a positive block size)
  // ---------------------------------------------------------------------------

  lemma DivMod(a: nat, k: nat)
    requires k > 0
    ensures a == k * (a / k) + a % k && 0 <= a % k < k && a / k >= 0
  {
  }

  /** Euclidean division is unique: `a == k*q + r` with `0 <= r < k` fixes `a % k` and `a / k`. */
  lemma ModOfMultiple(a: int, k: int, q: int, r: int)
    requires k > 0 && 0 <= r < k && a == k * q + r
    ensures a % k == r && a / k == q
  {
    var d := q - a / k;
    assert k * d == a % k - r;
    MulSign(k, d);
  }

  lemma MulSign(k: int, d: int)
    requires k > 0
    ensures d >= 1 ==> k * d >= k
    ensures d <= -1 ==> k * d <= -k
    ensures d == 0 ==> k * d == 0
  {
  }

  /** Two distinct multiples of `k` are at least `k` apart. */
  lemma MultiplesApart(x: nat, y: nat, k: nat)
    requires k > 0 && x % k == 0 && y % k == 0 && x < y
    ensures x + k <= y
  {
    DivMod(x, k);
    DivMod(y, k);
    var d := y / k - x / k;
    assert y - x == k * d;
    MulSign(k, d);
  }

  function Pow2(k: nat): (r: nat)
    ensures r >= 1
  {
    if k == 0 then 1 else 2 * Pow2(k - 1)
  }

  lemma Twice(s: int, p: int)
    ensures s * (2 * p) == (2 * s) * p
  {
  }

  /** The address space splits into 2^len blocks of prefix length `len`. */
  lemma {:induction false} SizeTimes(len: nat)
    requires len <= 32
    ensures Size(len) * Pow2(len) == Size(0)
  {
    if len > 0 {
      SizeTimes(len - 1);
      var s, p := Size(len), Pow2(len - 1);
      assert Size(len - 1) == 2 * s;
      Twice(s, p);
    }
  }

  lemma SizeDividesSpace(len: nat)
    requires len <= 32
    ensures AddressSpace % Size(len) == 0
  {
    SizeTimes(len);
    SizeZero();
    ModOfMultiple(AddressSpace, Size(len), Pow2(len), 0);
  }

  lemma SizeZero()
    ensures Size(0) == AddressSpace
  {
    assert Size(24) == 0x100;
    assert Size(16) == 0x1_0000;
    assert Size(8) == 0x100_0000;
  }

  lemma HalvesAligned(n: Net)
    requires Valid(n) && n.len < 32
    ensures n.base % Size(n.len + 1) == 0
    ensures (n.base + Size(n.len + 1)) % Size(n.len + 1) == 0
  {
    var s := Size(n.len + 1);
    assert Size(n.len) == 2 * s;
    DivMod(n.base, 2 * s);
    var q := n.base / (2 * s);
    assert n.base == (2 * s) * q;
    Regroup(s, q);
    ModOfMultiple(n.base, s, 2 * q, 0);
    ModOfMultiple(n.base + s, s, 2 * q + 1, 0);
  }

  lemma Regroup(s: int, q: int)
    ensures (2 * s) * q == s * (2 * q) && s * (2 * q) + s == s * (2 * q + 1)
  {
  }

  // ---------------------------------------------------------------------------
  // CIDR blocks are either nested or disjoint
  // ---------------------------------------------------------------------------

  /** The block of length `len + 1` around `a` is a half of the block of length `len` around it. */
  lemma NormalizeStep(a: nat, len: nat)
    requires a < AddressSpace && len < 32
    ensures SubnetOf(Normalize(a, len + 1), Normalize(a, len))
  {
    var p := Normalize(a, len);
    assert Contains(Lower(p), a) || Contains(Upper(p), a);
  }

  lemma {:induction false} NormalizeNested(a: nat, i: nat, j: nat)
    requires a < AddressSpace && i <= j <= 32
    ensures SubnetOf(Normalize(a, j), Normalize(a, i))
    decreases j - i
  {
    if i < j {
      NormalizeNested(a, i + 1, j);
      NormalizeStep(a, i);
    }
  }

  /**
   * If two networks share address `a`, the one with the longer prefix lies inside
   * the other.
   */
  lemma Nested(n: Net, m: Net, a: int)
    requires Valid(n) && Valid(m) && n.len <= m.len
    requires Contains(n, a) && Contains(m, a)
    ensures SubnetOf(m, n)
  {
    NormalizeNested(a, n.len, m.len);
  }

  /** Any two networks are disjoint or one lies inside the other. */
  lemma NestedOrDisjoint(n: Net, m: Net)
    requires Valid(n) && Valid(m)
    ensures Disjoint(n, m) || SubnetOf(n, m) || SubnetOf(m, n)
  {
    if !Disjoint(n, m) {
      var w := if n.base < m.base then m.base else n.base;
      if n.len <= m.len {
        Nested(n, m, w);
      } else {
        Nested(m, n, w);
      }
    }
  }

  /** Longer prefixes give strictly smaller blocks. */
  lemma {:induction false} SizeDecreasing(i: nat, j: nat)
    requires i < j <= 32
    ensures Size(i) > Size(j)
    decreases j - i
  {
    if i + 1 < j {
      SizeDecreasing(i + 1, j);
    }
  }

  /** A subnet whose prefix is not longer is the network itself. */
  lemma SubnetNotLonger(n: Net, m: Net)
    requires Valid(n) && Valid(m) && SubnetOf(n, m) && n.len <= m.len
    ensures n == m
  {
    if n.len < m.len {
      SizeDecreasing(n.len, m.len);
    }
  }

  /** The addresses covered by a concatenation are those covered by either part. */
  lemma CoversConcat(s: seq<Net>, t: seq<Net>)
    ensures forall a :: Covers(s + t, a) <==> Covers(s, a) || Covers(t, a)
  {
    forall a ensures Covers(s + t, a) ==> Covers(s, a) || Covers(t, a) {
      if Covers(s + t, a) {
        var n :| n in s + t && Contains(n, a);
        assert n in s || n in t;
      }
    }
  }

  lemma CoversSingle(n: Net)
    ensures forall a :: Covers([n], a) <==> Contains(n, a)
  {
    assert n in [n];
  }

  /** A non-empty list covers the first address of its first member. */
  lemma CoversFirst(s: seq<Net>)
    ensures s != [] ==> Covers(s, s[0].base)
  {
    if s != [] {
      assert s[0] in s && Contains(s[0], s[0].base);
    }
  }

  /** A network every address of which lies in `m` is a subnet of `m`. */
  lemma AddressesInside(n: Net, m: Net)
    requires forall a :: Contains(n, a) ==> Contains(m, a)
    ensures SubnetOf(n, m)
  {
    assert Contains(n, n.base);
    assert Contains(n, n.base + Size(n.len) - 1);
  }
}
