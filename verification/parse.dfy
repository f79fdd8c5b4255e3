/**
 * Turning the tokens `a.b.c.d/p` found in the route text into networks, as
 * `ipaddress.ip_network(token, strict=False)` does: every field must be a
 * decimal numeral in range, and the host bits of the address are cleared.
 */
module Parse {
  import opened Cidr
  import opened Wrappers

  /** A CIDR-shaped token: the fields before `/` (split at the dots) and the field after it. */
  datatype Token = Token(octets: seq<string>, prefix: string)

  /** A parse either yields a value or names the token that was rejected. */
  datatype Result<T> = Ok(value: T) | Err(bad: Token)

  predicate IsDigits(s: string) {
    forall i :: 0 <= i < |s| ==> '0' <= s[i] <= '9'
  }

  /** The value of a decimal numeral. */
  function DecimalValue(s: string): nat
    requires IsDigits(s)
  {
    if s == [] then 0 else 10 * DecimalValue(s[..|s| - 1]) + (s[|s| - 1] - '0') as nat
  }

  /** The canonical decimal numeral of `v`: no leading zero. */
  function Decimal(v: nat): (s: string)
    ensures IsDigits(s) && s != []
  {
    if v < 10 then [('0' as int + v) as char] else Decimal(v / 10) + [('0' as int + v % 10) as char]
  }

  /**
   * One address field: ASCII digits only, at most three characters, no leading
   * zero, value at most 255.
   */
  function ParseOctet(s: string): Option<nat> {
    if s == [] || !IsDigits(s) || |s| > 3 || (s != "0" && s[0] == '0') then None
    else if DecimalValue(s) > 255 then None
    else Some(DecimalValue(s))
  }

  /** The most digits `int()` converts from a string before raising `ValueError`. */
  const MaxIntDigits: nat := 4300

  /**
   * The prefix-length field: ASCII digits only (leading zeros allowed), no more
   * digits than `int()` accepts, value at most 32.
   */
  function ParsePrefixLength(s: string): Option<nat> {
    if s == [] || !IsDigits(s) || |s| > MaxIntDigits then None
    else if DecimalValue(s) > 32 then None
    else Some(DecimalValue(s))
  }

  /** The four octets of a token, or None if a field is rejected. */
  function ParseOctets(fields: seq<string>): (r: Option<seq<nat>>)
    ensures r.Some? <==> forall i :: 0 <= i < |fields| ==> ParseOctet(fields[i]).Some?
    ensures r.Some? ==> |r.value| == |fields|
    ensures r.Some? ==> forall i :: 0 <= i < |fields| ==> r.value[i] == ParseOctet(fields[i]).value
  {
    if fields == [] then Some([])
    else match (ParseOctet(fields[0]), ParseOctets(fields[1..]))
      case (Some(o), Some(rest)) => Some([o] + rest)
      case _ => None
  }

  /** The 32-bit value of four octets, most significant first. */
  function AddressOf(o: seq<nat>): (a: nat)
    requires |o| == 4 && forall i :: 0 <= i < 4 ==> o[i] < 256
    ensures a < AddressSpace
  {
    ((o[0] * 256 + o[1]) * 256 + o[2]) * 256 + o[3]
  }

  /** The address written in a token, if it has four fields that all parse. */
  function LiteralAddress(t: Token): Option<nat> {
    if |t.octets| != 4 then None
    else match ParseOctets(t.octets)
      case None => None
      case Some(o) => Some(AddressOf(o))
  }

  /**
   * `ip_network(token, strict=False)`: the address is parsed first, then the
   * prefix length; the network keeps the address's first `len` bits.
   */
  function ParseNetwork(t: Token): (r: Result<Net>)
    ensures r.Ok? <==> LiteralAddress(t).Some? && ParsePrefixLength(t.prefix).Some?
    ensures r.Err? ==> r.bad == t
    ensures r.Ok? ==> Valid(r.value) && r.value.len == ParsePrefixLength(t.prefix).value
    ensures r.Ok? ==> Contains(r.value, LiteralAddress(t).value)
    ensures r.Ok? ==> (r.value.base == LiteralAddress(t).value <==> LiteralAddress(t).value % Size(r.value.len) == 0)
  {
    match LiteralAddress(t)
    case None => Err(t)
    case Some(a) =>
      match ParsePrefixLength(t.prefix)
      case None => Err(t)
      case Some(len) =>
        var n := Normalize(a, len);
        DivMod(a, Size(len));
        Ok(n)
  }

  /**
   * Parse every token, in order. The first token that does not parse aborts the
   * whole list: no partial result.
   */
  function ParseAll(tokens: seq<Token>): (r: Result<seq<Net>>)
    ensures r.Ok? ==> |r.value| == |tokens| && AllValid(r.value)
    ensures r.Ok? ==> forall i :: 0 <= i < |tokens| ==> ParseNetwork(tokens[i]) == Ok(r.value[i])
    ensures r.Ok? <==> forall i :: 0 <= i < |tokens| ==> ParseNetwork(tokens[i]).Ok?
    ensures r.Err? ==> exists i :: 0 <= i < |tokens| && r.bad == tokens[i] && ParseNetwork(tokens[i]).Err?
                        && forall j :: 0 <= j < i ==> ParseNetwork(tokens[j]).Ok?
  {
    if tokens == [] then Ok([])
    else match ParseNetwork(tokens[0])
      case Err(t) => Err(t)
      case Ok(n) =>
        match ParseAll(tokens[1..])
        case Err(t) => Err(t)
        case Ok(rest) => Ok([n] + rest)
  }

  // ---------------------------------------------------------------------------
  // Which address fields are accepted
  // ---------------------------------------------------------------------------

  lemma {:induction false} DecimalRoundTrip(v: nat)
    ensures DecimalValue(Decimal(v)) == v
  {
    if v >= 10 {
      DecimalRoundTrip(v / 10);
      var s := Decimal(v);
      assert s[..|s| - 1] == Decimal(v / 10);
    }
  }

  lemma {:induction false} DecimalShape(v: nat)
    ensures |Decimal(v)| == 1 || Decimal(v)[0] != '0'
    ensures v < 10 ==> |Decimal(v)| == 1
    ensures v < 100 ==> |Decimal(v)| <= 2
    ensures v < 1000 ==> |Decimal(v)| <= 3
    ensures Decimal(v) == "0" <==> v == 0
  {
    if v >= 10 {
      DecimalShape(v / 10);
      assert Decimal(v)[0] == Decimal(v / 10)[0];
    }
  }

  /** Every value 0..255, written canonically, is accepted as an octet. */
  lemma OctetRoundTrip(v: nat)
    requires v < 256
    ensures ParseOctet(Decimal(v)) == Some(v)
  {
    DecimalRoundTrip(v);
    DecimalShape(v);
  }

  lemma {:induction false} LeadingDigitPositive(s: string)
    requires IsDigits(s) && s != [] && s[0] != '0'
    ensures DecimalValue(s) >= 1
  {
    if |s| > 1 {
      LeadingDigitPositive(s[..|s| - 1]);
    }
  }

  lemma {:induction false} CanonicalNumeral(s: string)
    requires IsDigits(s) && s != [] && (s[0] != '0' || s == "0")
    ensures Decimal(DecimalValue(s)) == s
  {
    var p, d := s[..|s| - 1], s[|s| - 1];
    if p != [] {
      assert p[0] == s[0];
      LeadingDigitPositive(p);
      CanonicalNumeral(p);
      var v := DecimalValue(s);
      assert v / 10 == DecimalValue(p) && v % 10 == (d - '0') as nat;
      assert s == p + [d];
    }
  }

  /** An accepted octet is the canonical numeral of its value: no other spelling is accepted. */
  lemma OctetCanonical(s: string)
    requires ParseOctet(s).Some?
    ensures s == Decimal(ParseOctet(s).value)
  {
    CanonicalNumeral(s);
  }

  /**
   * Leading zeros are accepted in the prefix-length field, unlike in the octets,
   * as long as the field stays within the digit limit of `int()`.
   */
  lemma {:induction false} PrefixLeadingZero(s: string)
    requires IsDigits(s) && s != [] && |s| < MaxIntDigits
    ensures ParsePrefixLength("0" + s) == ParsePrefixLength(s)
    ensures ParseOctet("0" + s) == None
  {
    ZeroPrefixValue(s);
  }

  lemma {:induction false} ZeroPrefixValue(s: string)
    requires IsDigits(s)
    ensures IsDigits("0" + s) && DecimalValue("0" + s) == DecimalValue(s)
  {
    if s != [] {
      ZeroPrefixValue(s[..|s| - 1]);
      assert ("0" + s)[..|s|] == "0" + s[..|s| - 1];
    }
  }

  /** A prefix field longer than the digit limit of `int()` is rejected, leading zeros or not. */
  lemma PrefixTooLong()
    ensures ParsePrefixLength(seq(MaxIntDigits, _ => '0') + "8") == None
    ensures ParsePrefixLength(seq(MaxIntDigits - 1, _ => '0') + "8") == Some(8)
  {
    var z := seq(MaxIntDigits - 1, _ => '0');
    ZeroPrefixValue(z + "8");
    LeadingZerosValue(z, "8");
  }

  /** Zeros in front of a numeral do not change its value. */
  lemma {:induction false} LeadingZerosValue(z: string, s: string)
    requires forall i :: 0 <= i < |z| ==> z[i] == '0'
    requires IsDigits(s)
    ensures IsDigits(z + s) && DecimalValue(z + s) == DecimalValue(s)
    decreases |z|
  {
    if z != [] {
      LeadingZerosValue(z[1..], s);
      ZeroPrefixValue(z[1..] + s);
      assert z == [z[0]] + z[1..] && z[0] == '0';
      assert z + s == "0" + (z[1..] + s);
    } else {
      assert z + s == s;
    }
  }
}
