/**
 * The Google-style canonicalization pass: the fragment is dropped, the
 * credentials and the query are minimally escaped, the host is decoded,
 * cleaned of stray dots and either read as an IPv4 address in one of the
 * numeric forms browsers accept or lower-cased and escaped, and the path
 * is decoded, has its `.` and `..` segments resolved and is escaped.
 */
module Google {
  import opened Text
  import opened Errors
  import opened UrlEncoding
  import Handy

  const U32_BOUND: nat := 0x1_0000_0000
  const U128_BOUND: nat := 0x1_0000_0000_0000_0000_0000_0000_0000_0000

  // ---------------------------------------------------------------------
  // IPv4 text: `Ipv4Addr::from_str` and `Display`
  // ---------------------------------------------------------------------

  /** Four values below 256. */
  predicate IsOctets(os: seq<nat>)
  {
    |os| == 4 && forall i | 0 <= i < 4 :: os[i] < 256
  }

  /** A group `Ipv4Addr::from_str` accepts: one to three decimal digits, no leading zero, at most 255. */
  predicate OctetText(p: Bytes)
  {
    1 <= |p| <= 3 && AllDigitsIn(p, 10) && (|p| > 1 ==> p[0] != ZERO) && DigitsValue(p, 10) < 256
  }

  /** `Ipv4Addr::from_str`: exactly four octet groups separated by dots, nothing else. */
  function ParseIpv4(s: Bytes): (r: Option<seq<nat>>)
    ensures r.Some? ==> IsOctets(r.value)
  {
    var ps := Split(s, DOT);
    if |ps| == 4 && OctetText(ps[0]) && OctetText(ps[1]) && OctetText(ps[2]) && OctetText(ps[3]) then
      Some([DigitsValue(ps[0], 10), DigitsValue(ps[1], 10), DigitsValue(ps[2], 10), DigitsValue(ps[3], 10)])
    else None
  }

  /** `Display` of an `Ipv4Addr`: the four octets in decimal, joined by dots. */
  function QuadText(os: seq<nat>): Bytes
    requires IsOctets(os)
  {
    Join([Decimal(os[0]), Decimal(os[1]), Decimal(os[2]), Decimal(os[3])], DOT)
  }

  lemma DecimalOctet(n: nat)
    requires n < 256
    ensures OctetText(Decimal(n)) && DOT !in Decimal(n)
  {
  }

  /** Parsing the display of an address gives the address back. */
  lemma ParseQuadText(os: seq<nat>)
    requires IsOctets(os)
    ensures ParseIpv4(QuadText(os)) == Some(os)
  {
    QuadSplit(os);
    var ps := Split(QuadText(os), DOT);
    forall i | 0 <= i < 4
      ensures OctetText(ps[i]) && DigitsValue(ps[i], 10) == os[i]
    {
      DecimalOctet(os[i]);
    }
    ParseOfPieces(QuadText(os), os);
  }

  lemma ParseOfPieces(s: Bytes, os: seq<nat>)
    requires |Split(s, DOT)| == 4 && |os| == 4
    requires forall i | 0 <= i < 4 :: OctetText(Split(s, DOT)[i]) && DigitsValue(Split(s, DOT)[i], 10) == os[i]
    ensures ParseIpv4(s) == Some(os)
  {
    var ps := Split(s, DOT);
    assert [DigitsValue(ps[0], 10), DigitsValue(ps[1], 10), DigitsValue(ps[2], 10), DigitsValue(ps[3], 10)] == os;
  }

  /** A decimal digit string without a leading zero is the display of its value. */
  lemma {:induction false} DecimalOfDigits(p: Bytes)
    requires |p| > 0 && AllDigitsIn(p, 10) && (|p| > 1 ==> p[0] != ZERO)
    ensures Decimal(DigitsValue(p, 10)) == p
    decreases |p|
  {
    if |p| > 1 {
      var front := p[..|p| - 1];
      var d := p[|p| - 1];
      DecimalOfDigits(front);
      LeadingDigitPositive(front);
      var x := DigitsValue(front, 10);
      var y := DigitValue(d);
      assert DigitsValue(p, 10) == x * 10 + y;
      LastDigit(x, y);
      assert 48 + y == d;
      assert p == front + [d];
    }
  }

  lemma LastDigit(x: nat, y: nat)
    requires y < 10
    ensures (x * 10 + y) / 10 == x && (x * 10 + y) % 10 == y
  {
  }

  /** A digit string that starts with a non-zero digit has a positive value. */
  lemma {:induction false} LeadingDigitPositive(p: Bytes)
    requires |p| > 0 && AllDigitsIn(p, 10) && p[0] != ZERO
    ensures DigitsValue(p, 10) > 0
    decreases |p|
  {
    if |p| > 1 {
      LeadingDigitPositive(p[..|p| - 1]);
    }
  }

  /** Every text `Ipv4Addr::from_str` accepts is the display of the address it parses to. */
  lemma QuadTextOfParse(s: Bytes)
    requires ParseIpv4(s).Some?
    ensures QuadText(ParseIpv4(s).value) == s
  {
    var ps := Split(s, DOT);
    DecimalOfDigits(ps[0]);
    DecimalOfDigits(ps[1]);
    DecimalOfDigits(ps[2]);
    DecimalOfDigits(ps[3]);
    assert [ps[0], ps[1], ps[2], ps[3]] == ps;
    JoinSplit(s, DOT);
  }

  /**
   * `Ipv4Addr::from(u32)`: the four bytes of the number, most significant
   * first, which read back in base 256 give the number.
   */
  function BigEndianOctets(v: nat): (os: seq<nat>)
    requires v < U32_BOUND
    ensures IsOctets(os)
    ensures ((os[0] * 256 + os[1]) * 256 + os[2]) * 256 + os[3] == v
  {
    var a := v / 256;
    var b := a / 256;
    assert b < 0x1_0000;
    [b / 256, b % 256, a % 256, v % 256]
  }

  // ---------------------------------------------------------------------
  // coerce_ip
  // ---------------------------------------------------------------------

  /** `format!("{:X}", n)`: upper-case hexadecimal digits without leading zeros. */
  function Hex(n: nat): (r: Bytes)
    ensures 1 <= |r|
    ensures AllDigitsIn(r, 16)
    ensures DigitsValue(r, 16) == n
    ensures n < 16 <==> |r| == 1
  {
    if n < 16 then [HexUpper(n)]
    else
      var p := Hex(n / 16);
      var r := p + [HexUpper(n % 16)];
      assert r[..|r| - 1] == p;
      r
  }

  /**
   * `u32::from_str_radix(chunk, 16)` for a piece of one or two hexadecimal
   * digits.
   */
  function ChunkValue(c: Bytes): nat
    requires 1 <= |c| <= 2
  {
    if |c| == 2 then DigitValue(c[0]) * 16 + DigitValue(c[1]) else DigitValue(c[0])
  }

  /**
   * The hexadecimal text `coerce_ip` writes for one group: a `0` in front
   * of values below 16 or above 255, so that the groups from 0 to 255 take
   * exactly two digits, which read back give the group.
   */
  function GroupHex(v: nat): (r: Bytes)
    ensures 2 <= |r|
    ensures v < 256 ==> |r| == 2 && ChunkValue(r) == v
  {
    var prefix: Bytes := if v > 255 || v < 16 then [ZERO] else [];
    var r := prefix + Hex(v);
    assert 16 <= v < 256 ==> Hex(v) == Hex(v / 16) + [HexUpper(v % 16)];
    r
  }

  /**
   * Every group's text is hexadecimal digits that read back as the group;
   * a group above 255 is `0` followed by its (at least three) digits.
   */
  lemma GroupHexDigits(v: nat)
    ensures AllDigitsIn(GroupHex(v), 16) && DigitsValue(GroupHex(v), 16) == v
    ensures v > 255 ==> 3 <= |GroupHex(v)| && GroupHex(v) == [ZERO] + Hex(v)
  {
    LeadingZeroValue(Hex(v), 16);
  }

  /** A leading zero digit does not change the value of a digit string. */
  lemma {:induction false} LeadingZeroValue(p: Bytes, radix: nat)
    requires 2 <= radix && AllDigitsIn(p, radix)
    ensures AllDigitsIn([ZERO] + p, radix)
    ensures DigitsValue([ZERO] + p, radix) == DigitsValue(p, radix)
    decreases |p|
  {
    var z := [ZERO] + p;
    if |p| > 0 {
      LeadingZeroValue(p[..|p| - 1], radix);
      assert z[..|z| - 1] == [ZERO] + p[..|p| - 1];
    } else {
      assert z[..|z| - 1] == [];
    }
  }

  /** The three hexadecimal digits of a value from 256 to 4095. */
  lemma HexThree(c: nat)
    requires 256 <= c < 4096
    ensures Hex(c) == [HexUpper(c / 256), HexUpper(c / 16 % 16), HexUpper(c % 16)]
  {
    assert c / 16 / 16 == c / 256;
    assert Hex(c / 16) == Hex(c / 256) + [HexUpper(c / 16 % 16)];
  }

  /** A group `coerce_ip` can read: decimal digits whose value fits in a `u32`. */
  predicate DecimalGroup(p: Bytes)
  {
    |p| > 0 && AllDigitsIn(p, 10) && DigitsValue(p, 10) < U32_BOUND
  }

  predicate DecimalGroups(groups: seq<Bytes>)
  {
    forall i | 0 <= i < |groups| :: DecimalGroup(groups[i])
  }

  /** The values of the groups, in order. */
  function GroupValues(groups: seq<Bytes>): (vs: seq<nat>)
    requires DecimalGroups(groups)
    ensures |vs| == |groups|
    ensures forall i | 0 <= i < |groups| :: vs[i] == DigitsValue(groups[i], 10)
  {
    seq(|groups|, i requires 0 <= i < |groups| && DecimalGroup(groups[i]) => DigitsValue(groups[i], 10))
  }

  /** The hexadecimal texts of the group values, one after another. */
  function HexText(vs: seq<nat>): Bytes
  {
    if |vs| == 0 then [] else HexText(vs[..|vs| - 1]) + GroupHex(vs[|vs| - 1])
  }

  /** How many pieces `chunks(2)` cuts a text of `n` bytes into. */
  function ChunkCount(n: nat): nat { (n + 1) / 2 }

  /** The `k`-th piece of `chunks(2)`: two bytes, or one at the end of an odd-length text. */
  function Chunk(h: Bytes, k: nat): (c: Bytes)
    requires k < ChunkCount(|h|)
    ensures 1 <= |c| <= 2
  {
    if 2 * k + 2 <= |h| then h[2 * k..2 * k + 2] else h[2 * k..]
  }

  /** The value of each two-digit piece of a hexadecimal text, written in decimal. */
  function ChunkDecimals(h: Bytes): (r: seq<Bytes>)
    ensures |r| == ChunkCount(|h|)
  {
    seq(ChunkCount(|h|), k requires 0 <= k < ChunkCount(|h|) => Decimal(ChunkValue(Chunk(h, k))))
  }

  /**
   * What `coerce_ip` returns for dotted decimal groups that each fit in a
   * `u32`. Each two-digit piece is below 256, so every group of the result
   * is an octet, and the result reads as an address exactly when it has
   * four groups.
   */
  function CoercedIp(input: Bytes): (r: Bytes)
    requires DecimalGroups(Split(input, DOT))
    ensures forall i | 0 <= i < |Split(r, DOT)| :: OctetText(Split(r, DOT)[i])
    ensures ParseIpv4(r).Some? <==> |Split(r, DOT)| == 4
  {
    var h := HexText(GroupValues(Split(input, DOT)));
    HexTextDigits(GroupValues(Split(input, DOT)));
    ChunkOctets(h);
    Join(ChunkDecimals(h), DOT)
  }

  /** The hexadecimal text of the groups is made of hexadecimal digits, two or more per group. */
  lemma {:induction false} HexTextDigits(vs: seq<nat>)
    ensures AllDigitsIn(HexText(vs), 16)
    ensures |HexText(vs)| >= 2 * |vs|
    decreases |vs|
  {
    if |vs| > 0 {
      HexTextDigits(vs[..|vs| - 1]);
      GroupHexDigits(vs[|vs| - 1]);
    }
  }

  /** The pieces of a non-empty hexadecimal text, written in decimal and joined, split back into octets. */
  lemma ChunkOctets(h: Bytes)
    requires |h| > 0 && AllDigitsIn(h, 16)
    ensures Split(Join(ChunkDecimals(h), DOT), DOT) == ChunkDecimals(h)
    ensures forall k | 0 <= k < |ChunkDecimals(h)| :: OctetText(ChunkDecimals(h)[k])
  {
    var ds := ChunkDecimals(h);
    forall k | 0 <= k < |ds|
      ensures OctetText(ds[k]) && DOT !in ds[k]
    {
      var c := Chunk(h, k);
      assert DigitValue(c[0]) < 16 && DigitValue(c[|c| - 1]) < 16;
      DecimalOctet(ChunkValue(c));
    }
    SplitJoin(ds, DOT);
  }

  /**
   * `coerce_ip`: each group written in hexadecimal, the digits run
   * together, re-read two at a time and written in decimal, dot-separated.
   * A group too large for a `u32` makes the source panic, so every group
   * is required to fit.
   */
  method CoerceIp(input: Bytes) returns (r: Bytes)
    requires DecimalGroups(Split(input, DOT))
    ensures r == CoercedIp(input)
  {
    var groups := Split(input, DOT);
    ghost var values := GroupValues(groups);
    var parts: Bytes := [];
    var i := 0;
    while i < |groups|
      invariant 0 <= i <= |groups|
      invariant parts == HexText(values[..i])
    {
      var f := groups[i];
      var decimalInt := ParseUnsigned(f, 10, U32_BOUND);
      ParseGroup(f);
      HexTextStep(values, i);
      var prefix: Bytes := if decimalInt.value > 255 || decimalInt.value < 16 then [ZERO] else [];
      var asHex := prefix + Hex(decimalInt.value);
      parts := parts + asHex;
      i := i + 1;
    }
    assert values[..i] == values;
    var asDec: seq<Bytes> := [];
    var k := 0;
    while k < ChunkCount(|parts|)
      invariant 0 <= k <= ChunkCount(|parts|)
      invariant asDec == ChunkDecimals(parts)[..k]
    {
      var chunk := if 2 * k + 2 <= |parts| then parts[2 * k..2 * k + 2] else parts[2 * k..];
      ChunkDecimalsStep(parts, k);
      asDec := asDec + [Decimal(ChunkValue(chunk))];
      k := k + 1;
    }
    assert asDec == ChunkDecimals(parts);
    r := Join(asDec, DOT);
  }

  lemma ChunkDecimalsStep(h: Bytes, k: nat)
    requires k < ChunkCount(|h|)
    ensures ChunkDecimals(h)[..k + 1] == ChunkDecimals(h)[..k] + [Decimal(ChunkValue(Chunk(h, k)))]
  {
  }

  /** A group parses as the `u32` it denotes. */
  lemma ParseGroup(g: Bytes)
    requires DecimalGroup(g)
    ensures ParseUnsigned(g, 10, U32_BOUND) == Some(DigitsValue(g, 10))
  {
    assert g[0] != PLUS;
  }

  /** One more group value: its hexadecimal text is appended. */
  lemma HexTextStep(vs: seq<nat>, i: nat)
    requires i < |vs|
    ensures HexText(vs[..i + 1]) == HexText(vs[..i]) + GroupHex(vs[i])
  {
    assert vs[..i + 1][..i] == vs[..i];
  }

  /** The decimal displays of four octets are groups `coerce_ip` can read. */
  lemma QuadGroups(os: seq<nat>)
    requires IsOctets(os)
    ensures Split(QuadText(os), DOT) == [Decimal(os[0]), Decimal(os[1]), Decimal(os[2]), Decimal(os[3])]
    ensures DecimalGroups(Split(QuadText(os), DOT))
    ensures GroupValues(Split(QuadText(os), DOT)) == os
  {
    QuadSplit(os);
    var ps := Split(QuadText(os), DOT);
    forall i | 0 <= i < 4
      ensures DigitsValue(ps[i], 10) == os[i]
    {
      DecimalOctet(os[i]);
    }
    ValuesOf(ps, os);
  }

  lemma ValuesOf(ps: seq<Bytes>, os: seq<nat>)
    requires DecimalGroups(ps) && |ps| == |os|
    requires forall i | 0 <= i < |ps| :: DigitsValue(ps[i], 10) == os[i]
    ensures GroupValues(ps) == os
  {
  }

  lemma QuadSplit(os: seq<nat>)
    requires IsOctets(os)
    ensures Split(QuadText(os), DOT) == [Decimal(os[0]), Decimal(os[1]), Decimal(os[2]), Decimal(os[3])]
    ensures DecimalGroups(Split(QuadText(os), DOT))
  {
    var ps := [Decimal(os[0]), Decimal(os[1]), Decimal(os[2]), Decimal(os[3])];
    forall i | 0 <= i < 4
      ensures DOT !in ps[i] && DecimalGroup(ps[i])
    {
      DecimalOctet(os[i]);
    }
    SplitJoin(ps, DOT);
  }

  /** The hexadecimal text of four values. */
  lemma HexTextFour(vs: seq<nat>)
    requires |vs| == 4
    ensures HexText(vs) == GroupHex(vs[0]) + GroupHex(vs[1]) + GroupHex(vs[2]) + GroupHex(vs[3])
  {
    var h0, h1, h2, h3 := GroupHex(vs[0]), GroupHex(vs[1]), GroupHex(vs[2]), GroupHex(vs[3]);
    var none: seq<nat> := [];
    assert vs[..0] == none;
    HexTextStep(vs, 0);
    ConcatEmpty(HexText(none), h0);
    assert HexText(vs[..1]) == h0;
    HexTextStep(vs, 1);
    assert HexText(vs[..2]) == h0 + h1;
    HexTextStep(vs, 2);
    assert HexText(vs[..3]) == h0 + h1 + h2;
    HexTextStep(vs, 3);
    assert vs[..4] == vs;
  }

  /**
   * `coerce_ip` leaves a dotted quad of octets as it is: each octet takes
   * two hexadecimal digits, so reading two digits at a time gives the
   * octets back.
   */
  lemma CoerceQuadIdentity(os: seq<nat>)
    requires IsOctets(os)
    ensures DecimalGroups(Split(QuadText(os), DOT))
    ensures CoercedIp(QuadText(os)) == QuadText(os)
  {
    QuadGroups(os);
    HexTextFour(os);
    var h := GroupHex(os[0]) + GroupHex(os[1]) + GroupHex(os[2]) + GroupHex(os[3]);
    FourSlices(GroupHex(os[0]), GroupHex(os[1]), GroupHex(os[2]), GroupHex(os[3]));
    ChunksOfEight(h);
  }

  /** `chunks(2)` of an eight-byte text: its four two-byte pieces. */
  lemma ChunksOfEight(h: Bytes)
    requires |h| == 8
    ensures ChunkDecimals(h)
      == [Decimal(ChunkValue(h[0..2])), Decimal(ChunkValue(h[2..4])), Decimal(ChunkValue(h[4..6])), Decimal(ChunkValue(h[6..8]))]
  {
    assert Chunk(h, 0) == h[0..2];
    assert Chunk(h, 1) == h[2..4];
    assert Chunk(h, 2) == h[4..6];
    assert Chunk(h, 3) == h[6..8];
    var cd := ChunkDecimals(h);
    var x0, x1, x2, x3 := Decimal(ChunkValue(h[0..2])), Decimal(ChunkValue(h[2..4])), Decimal(ChunkValue(h[4..6])), Decimal(ChunkValue(h[6..8]));
    assert cd[0] == x0;
    assert cd[1] == x1;
    assert cd[2] == x2;
    assert cd[3] == x3;
    assert cd == [x0, x1, x2, x3];
  }

  lemma FourSlices(a: Bytes, b: Bytes, c: Bytes, d: Bytes)
    requires |a| == 2 && |b| == 2 && |c| == 2 && |d| == 2
    ensures |a + b + c + d| == 8
    ensures (a + b + c + d)[0..2] == a && (a + b + c + d)[2..4] == b
    ensures (a + b + c + d)[4..6] == c && (a + b + c + d)[6..8] == d
  {
  }

  // ---------------------------------------------------------------------
  // attempt_ip_formats
  // ---------------------------------------------------------------------

  /** `^([1-9][0-9]*)(\.[0-9]+)?(\.[0-9]+)?(\.[0-9]+)?$`: one to four decimal groups, the first without a leading zero. */
  predicate DecimalIpShape(host: Bytes)
  {
    var ps := Split(host, DOT);
    |ps| <= 4 && ps[0] != [] && ps[0][0] != ZERO
      && forall i | 0 <= i < |ps| :: ps[i] != [] && AllDigitsIn(ps[i], 10)
  }

  /** `^(0[0-7]*)(\.[0-7]+)?(\.[0-7]+)?(\.[0-7]+)?$`: one to four octal groups, the first starting with `0`. */
  predicate OctalIpShape(host: Bytes)
  {
    var ps := Split(host, DOT);
    |ps| <= 4 && ps[0] != [] && ps[0][0] == ZERO
      && forall i | 0 <= i < |ps| :: ps[i] != [] && AllDigitsIn(ps[i], 8)
  }

  /** Octal digits are decimal digits. */
  lemma OctalDigitsDecimal(p: Bytes)
    requires AllDigitsIn(p, 8)
    ensures AllDigitsIn(p, 10)
  {
  }

  /** An octal group whose value fits in a `u32`. */
  predicate OctalGroup(p: Bytes)
  {
    p != [] && AllDigitsIn(p, 8) && DigitsValue(p, 8) < U32_BOUND
  }

  /**
   * The hosts `attempt_ip_formats` returns on rather than panics for:
   * a dotted decimal form that is tried has groups that fit in a `u32`,
   * and so has a dotted octal form that is tried.
   */
  predicate IpFormatsDefined(host: Bytes)
  {
    ParseUnsigned(host, 10, U128_BOUND).None? ==>
      (DecimalIpShape(host) ==> DecimalGroups(Split(host, DOT)))
      && (!DecimalIpShape(host) && OctalIpShape(host) ==>
            forall i | 0 <= i < |Split(host, DOT)| :: OctalGroup(Split(host, DOT)[i]))
  }

  /** Each octal group rewritten as the decimal display of its value. */
  function OctalToDecimal(groups: seq<Bytes>): (r: seq<Bytes>)
    requires forall i | 0 <= i < |groups| :: OctalGroup(groups[i])
    ensures |r| == |groups|
    ensures forall i | 0 <= i < |groups| :: OctalGroup(groups[i]) && r[i] == Decimal(DigitsValue(groups[i], 8))
  {
    seq(|groups|, i requires 0 <= i < |groups| && OctalGroup(groups[i]) => Decimal(DigitsValue(groups[i], 8)))
  }

  /** `IpAddr::from_str` followed by `to_string`, for the texts built here (which never hold `:`). */
  function ReadIpv4(s: Bytes): (r: Option<Bytes>)
    ensures r.Some? ==> ParseIpv4(r.value).Some?
  {
    match ParseIpv4(s)
    case Some(os) => ParseQuadText(os); Some(QuadText(os))
    case None => None
  }

  /**
   * `attempt_ip_formats`: a decimal `u32` is the address with that value;
   * a larger decimal that fits in a `u128` gives the address of its low 32
   * bits; a dotted decimal form goes through `coerce_ip`; a dotted octal
   * form has its groups read in base 8. The last two count only when they
   * give exactly four octets. Whatever comes back is the display of an
   * IPv4 address.
   */
  function AttemptIpFormats(host: Bytes): (r: Option<Bytes>)
    requires IpFormatsDefined(host)
    ensures r.Some? ==> ParseIpv4(r.value).Some?
  {
    match ParseUnsigned(host, 10, U32_BOUND)
    case Some(v) => ParseQuadText(BigEndianOctets(v)); Some(QuadText(BigEndianOctets(v)))
    case None =>
      match ParseUnsigned(host, 10, U128_BOUND)
      case Some(v) => ParseQuadText(BigEndianOctets(v % U32_BOUND)); Some(QuadText(BigEndianOctets(v % U32_BOUND)))
      case None =>
        if DecimalIpShape(host) then ReadIpv4(CoercedIp(host))
        else if OctalIpShape(host) then ReadIpv4(Join(OctalToDecimal(Split(host, DOT)), DOT))
        else None
  }

  /** A text with more than one dot-separated group is not a number. */
  lemma DottedNotNumber(s: Bytes, bound: nat)
    requires |Split(s, DOT)| > 1
    ensures ParseUnsigned(s, 10, bound).None?
  {
    if DOT in s {
      var k := IndexOf(s, DOT);
      ParseRejects(s, 10, bound, k);
    }
  }

  /**
   * A number of at most 128 bits names the address of its low 32 bits
   * (`3279880203` is `195.127.0.11`).
   */
  lemma AttemptNumber(v: nat)
    requires v < U128_BOUND
    ensures IpFormatsDefined(Decimal(v))
    ensures AttemptIpFormats(Decimal(v)) == Some(QuadText(BigEndianOctets(v % U32_BOUND)))
  {
    ParseDecimal(v, U128_BOUND);
    AttemptParsedNumber(Decimal(v), v);
  }

  lemma AttemptParsedNumber(host: Bytes, v: nat)
    requires ParseUnsigned(host, 10, U128_BOUND) == Some(v)
    ensures IpFormatsDefined(host)
    ensures AttemptIpFormats(host) == Some(QuadText(BigEndianOctets(v % U32_BOUND)))
  {
    if v < U32_BOUND {
      assert ParseUnsigned(host, 10, U32_BOUND) == Some(v);
      assert v % U32_BOUND == v;
    } else {
      assert ParseUnsigned(host, 10, U32_BOUND).None?;
    }
  }

  /**
   * A dotted quad whose first octet is not zero comes back unchanged: it
   * is taken by the dotted decimal branch, and `coerce_ip` leaves it as it is.
   */
  lemma AttemptQuadFixedPoint(os: seq<nat>)
    requires IsOctets(os) && os[0] != 0
    ensures IpFormatsDefined(QuadText(os))
    ensures AttemptIpFormats(QuadText(os)) == Some(QuadText(os))
  {
    var host := QuadText(os);
    QuadGroups(os);
    DottedNotNumber(host, U32_BOUND);
    DottedNotNumber(host, U128_BOUND);
    assert DecimalIpShape(host);
    CoerceQuadIdentity(os);
    ParseQuadText(os);
  }

  /** Decimal digits never hold a dot. */
  lemma DecimalNoDot(n: nat)
    ensures DOT !in Decimal(n)
  {
    var d := Decimal(n);
    forall k | 0 <= k < |d|
      ensures d[k] != DOT
    {
      assert IsDigit(d[k]);
    }
  }

  /**
   * Four octal groups, the first written with a leading `0`, whose values
   * are octets give the address of those octets (`017.0.0.1` is
   * `15.0.0.1`).
   */
  lemma AttemptOctalQuad(host: Bytes, os: seq<nat>)
    requires |Split(host, DOT)| == 4 && IsOctets(os)
    requires forall i | 0 <= i < 4 ::
      Split(host, DOT)[i] != [] && AllDigitsIn(Split(host, DOT)[i], 8) && DigitsValue(Split(host, DOT)[i], 8) == os[i]
    requires Split(host, DOT)[0][0] == ZERO
    ensures IpFormatsDefined(host)
    ensures AttemptIpFormats(host) == Some(QuadText(os))
  {
    OctalQuadGroups(Split(host, DOT), os);
    AttemptOctalBranch(host);
    ParseQuadText(os);
  }

  lemma OctalQuadGroups(groups: seq<Bytes>, os: seq<nat>)
    requires |groups| == 4 && IsOctets(os)
    requires forall i | 0 <= i < 4 :: groups[i] != [] && AllDigitsIn(groups[i], 8) && DigitsValue(groups[i], 8) == os[i]
    ensures forall i | 0 <= i < 4 :: OctalGroup(groups[i])
    ensures Join(OctalToDecimal(groups), DOT) == QuadText(os)
  {
    forall i | 0 <= i < 4
      ensures OctalGroup(groups[i])
    {
    }
    var ds := OctalToDecimal(groups);
    assert ds == [Decimal(os[0]), Decimal(os[1]), Decimal(os[2]), Decimal(os[3])];
  }

  /** A dotted octal form of readable groups is answered by reading each group in base 8. */
  lemma AttemptOctalBranch(host: Bytes)
    requires |Split(host, DOT)| > 1 && !DecimalIpShape(host) && OctalIpShape(host)
    requires forall i | 0 <= i < |Split(host, DOT)| :: OctalGroup(Split(host, DOT)[i])
    ensures IpFormatsDefined(host)
    ensures AttemptIpFormats(host) == ReadIpv4(Join(OctalToDecimal(Split(host, DOT)), DOT))
  {
    DottedNotNumber(host, U32_BOUND);
    DottedNotNumber(host, U128_BOUND);
  }

  /** The hexadecimal text of three values. */
  lemma HexTextThree(vs: seq<nat>)
    requires |vs| == 3
    ensures HexText(vs) == GroupHex(vs[0]) + GroupHex(vs[1]) + GroupHex(vs[2])
  {
    var none: seq<nat> := [];
    assert vs[..0] == none;
    HexTextStep(vs, 0);
    ConcatEmpty(HexText(none), GroupHex(vs[0]));
    HexTextStep(vs, 1);
    HexTextStep(vs, 2);
    assert vs[..3] == vs;
  }

  /**
   * Three decimal groups whose last one runs from 256 to 4095 spread that
   * group over the last two octets (`10.0.258` is `10.0.1.2`).
   */
  lemma AttemptThreeGroups(host: Bytes, a: nat, b: nat, c: nat)
    requires 1 <= a < 256 && b < 256 && 256 <= c < 4096
    requires Split(host, DOT) == [Decimal(a), Decimal(b), Decimal(c)]
    ensures IpFormatsDefined(host)
    ensures AttemptIpFormats(host) == Some(QuadText([a, b, c / 256, c % 256]))
  {
    CoercedThree(host, a, b, c);
    AttemptCoercedQuad(host, [a, b, c / 256, c % 256]);
  }

  /** A dotted decimal form that `coerce_ip` turns into the display of an address gives that address. */
  lemma AttemptCoercedQuad(host: Bytes, os: seq<nat>)
    requires |Split(host, DOT)| > 1 && DecimalIpShape(host) && DecimalGroups(Split(host, DOT))
    requires IsOctets(os) && CoercedIp(host) == QuadText(os)
    ensures IpFormatsDefined(host)
    ensures AttemptIpFormats(host) == Some(QuadText(os))
  {
    AttemptDecimalBranch(host);
    ParseQuadText(os);
  }

  /** A dotted decimal form of readable groups is answered by `coerce_ip`. */
  lemma AttemptDecimalBranch(host: Bytes)
    requires |Split(host, DOT)| > 1 && DecimalIpShape(host) && DecimalGroups(Split(host, DOT))
    ensures IpFormatsDefined(host)
    ensures AttemptIpFormats(host) == ReadIpv4(CoercedIp(host))
  {
    DottedNotNumber(host, U32_BOUND);
    DottedNotNumber(host, U128_BOUND);
  }

  lemma CoercedThree(host: Bytes, a: nat, b: nat, c: nat)
    requires 1 <= a < 256 && b < 256 && 256 <= c < 4096
    requires Split(host, DOT) == [Decimal(a), Decimal(b), Decimal(c)]
    ensures DecimalIpShape(host) && DecimalGroups(Split(host, DOT))
    ensures CoercedIp(host) == QuadText([a, b, c / 256, c % 256])
  {
    ThreeGroupValues(host, a, b, c);
    CoerceThree(a, b, c);
  }

  lemma ThreeGroupValues(host: Bytes, a: nat, b: nat, c: nat)
    requires 1 <= a < 256 && b < 256 && c < 4096
    requires Split(host, DOT) == [Decimal(a), Decimal(b), Decimal(c)]
    ensures DecimalIpShape(host) && DecimalGroups(Split(host, DOT))
    ensures GroupValues(Split(host, DOT)) == [a, b, c]
  {
    ThreeDecimalParts([Decimal(a), Decimal(b), Decimal(c)], [a, b, c]);
  }

  /** The displays of values that fit in a `u32`, the first not zero, read back as those values. */
  lemma ThreeDecimalParts(parts: seq<Bytes>, vs: seq<nat>)
    requires |vs| == 3 && vs[0] != 0 && vs[0] < U32_BOUND && vs[1] < U32_BOUND && vs[2] < U32_BOUND
    requires parts == [Decimal(vs[0]), Decimal(vs[1]), Decimal(vs[2])]
    ensures DecimalGroups(parts) && GroupValues(parts) == vs
    ensures parts[0] != [] && parts[0][0] != ZERO
    ensures forall i | 0 <= i < |parts| :: parts[i] != [] && AllDigitsIn(parts[i], 10)
  {
    forall i | 0 <= i < 3
      ensures DecimalGroup(parts[i]) && DigitsValue(parts[i], 10) == vs[i]
    {
    }
    ValuesOf(parts, vs);
  }

  lemma CoerceThree(a: nat, b: nat, c: nat)
    requires a < 256 && b < 256 && 256 <= c < 4096
    ensures ChunkDecimals(HexText([a, b, c]))
      == [Decimal(a), Decimal(b), Decimal(c / 256), Decimal(c % 256)]
  {
    var hi, mid, lo := HexUpper(c / 256), HexUpper(c / 16 % 16), HexUpper(c % 16);
    HexTextSpread(a, b, c);
    FourSlices(GroupHex(a), GroupHex(b), [ZERO, hi], [mid, lo]);
    ChunksOfEight(HexText([a, b, c]));
    SplitChunkValues(c);
  }

  /** The hexadecimal text of the three groups, the last cut after its second digit. */
  lemma HexTextSpread(a: nat, b: nat, c: nat)
    requires a < 256 && b < 256 && 256 <= c < 4096
    ensures HexText([a, b, c])
      == GroupHex(a) + GroupHex(b) + [ZERO, HexUpper(c / 256)] + [HexUpper(c / 16 % 16), HexUpper(c % 16)]
  {
    HexTextThree([a, b, c]);
    HexThree(c);
    GroupHexDigits(c);
  }

  /** The two pieces of a value from 256 to 4095: its high byte and its low byte. */
  lemma SplitChunkValues(c: nat)
    requires 256 <= c < 4096
    ensures ChunkValue([ZERO, HexUpper(c / 256)]) == c / 256
    ensures ChunkValue([HexUpper(c / 16 % 16), HexUpper(c % 16)]) == c % 256
  {
    var q := c / 16;
    assert c == 16 * q + c % 16;
    assert q == 16 * (q / 16) + q % 16;
    assert c == 256 * (q / 16) + (16 * (q % 16) + c % 16);
    assert c % 256 == 16 * (q % 16) + c % 16;
  }

  /** Each group writes at least two hexadecimal digits, and a group above 255 at least three. */
  lemma {:induction false} HexTextLength(vs: seq<nat>, j: nat)
    requires j < |vs| && vs[j] > 255
    ensures |HexText(vs)| >= 2 * |vs| + 1
    decreases |vs|
  {
    var last := |vs| - 1;
    if j < last {
      HexTextLength(vs[..last], j);
    } else {
      HexTextDigits(vs[..last]);
      GroupHexDigits(vs[j]);
    }
  }

  /**
   * Four decimal groups one of which is above 255 give no address: the
   * hexadecimal text then has more than eight digits, so `coerce_ip`
   * returns five or more groups (`1.2.3.256` is not an address).
   */
  lemma AttemptWideGroup(host: Bytes, j: nat)
    requires DecimalIpShape(host) && DecimalGroups(Split(host, DOT))
    requires |Split(host, DOT)| == 4 && j < 4 && DigitsValue(Split(host, DOT)[j], 10) > 255
    ensures IpFormatsDefined(host)
    ensures AttemptIpFormats(host) == None
  {
    var vs := GroupValues(Split(host, DOT));
    AttemptDecimalBranch(host);
    HexTextLength(vs, j);
    var ds := ChunkDecimals(HexText(vs));
    forall k | 0 <= k < |ds|
      ensures DOT !in ds[k]
    {
      DecimalNoDot(ChunkValue(Chunk(HexText(vs), k)));
    }
    SplitJoin(ds, DOT);
    assert ParseIpv4(CoercedIp(host)) == None;
  }

  // ---------------------------------------------------------------------
  // normalize_path
  // ---------------------------------------------------------------------

  const DOT_SEGMENT: Bytes := [DOT]
  const DOT_DOT_SEGMENT: Bytes := [DOT, DOT]

  /** One segment of the walk: `.` is dropped, `..` removes the last kept segment (or is kept when there is none). */
  function KeepStep(kept: seq<Bytes>, p: Bytes): seq<Bytes>
  {
    if p == DOT_SEGMENT then kept
    else if p == DOT_DOT_SEGMENT then
      if |kept| > 0 then kept[..|kept| - 1] else kept + [p]
    else kept + [p]
  }

  /** The segments kept after walking `segs` from the left. */
  function Kept(segs: seq<Bytes>): seq<Bytes>
  {
    if |segs| == 0 then [] else KeepStep(Kept(segs[..|segs| - 1]), segs[|segs| - 1])
  }

  /** A segment written before the last one: empty segments vanish, the others are followed by `/`. */
  function Piece(p: Bytes): Bytes
  {
    if p == [] then [] else p + [SLASH]
  }

  function Pieces(ps: seq<Bytes>): Bytes
  {
    if |ps| == 0 then [] else Pieces(ps[..|ps| - 1]) + Piece(ps[|ps| - 1])
  }

  /** The path text built from the kept segments. */
  function Rendered(kept: seq<Bytes>): (r: Bytes)
    ensures |r| > 0 && r[0] == SLASH
  {
    if |kept| == 0 then [SLASH]
    else [SLASH] + Pieces(kept[..|kept| - 1]) + kept[|kept| - 1]
  }

  /** `normalize_path`: the segments after the first one are walked, and the kept ones written back. */
  function NormalizedPath(input: Bytes): (r: Bytes)
    ensures |r| > 0 && r[0] == SLASH
  {
    Rendered(Kept(Split(input, SLASH)[1..]))
  }

  lemma KeptSnoc(paths: seq<Bytes>, i: nat)
    requires 1 <= i < |paths|
    ensures Kept(paths[1..i + 1]) == KeepStep(Kept(paths[1..i]), paths[i])
  {
    assert paths[1..i + 1][..i - 1] == paths[1..i];
  }

  lemma PiecesSnoc(ps: seq<Bytes>, k: nat)
    requires k < |ps|
    ensures Pieces(ps[..k + 1]) == Pieces(ps[..k]) + Piece(ps[k])
  {
    assert ps[..k + 1][..k] == ps[..k];
  }

  /** One more kept segment written by the second loop of `normalize_path`. */
  lemma WritePiece(output: Bytes, ks: seq<Bytes>, k: nat)
    requires k < |ks| && output == [SLASH] + Pieces(ks[..k])
    ensures |ks[k]| > 0 ==> output + ks[k] + [SLASH] == [SLASH] + Pieces(ks[..k + 1])
    ensures |ks[k]| == 0 ==> output == [SLASH] + Pieces(ks[..k + 1])
  {
    PiecesSnoc(ks, k);
    if |ks[k]| > 0 {
      AppendAssoc(output, ks[k], [SLASH]);
      AppendAssoc([SLASH], Pieces(ks[..k]), ks[k] + [SLASH]);
    } else {
      ConcatEmpty(Piece(ks[k]), Pieces(ks[..k]));
    }
  }

  method NormalizePath(input: Bytes) returns (output: Bytes)
    ensures output == NormalizedPath(input)
  {
    var paths := Split(input, SLASH);
    var kept: seq<Bytes> := [];
    var first := true;
    var i := 0;
    while i < |paths|
      invariant 0 <= i <= |paths|
      invariant first <==> i == 0
      invariant i == 0 ==> kept == []
      invariant i > 0 ==> kept == Kept(paths[1..i])
    {
      var p := paths[i];
      if first {
        first := false;
        assert paths[1..1] == [];
      } else {
        KeptSnoc(paths, i);
        ghost var before := kept;
        if p == DOT_SEGMENT {
        } else if p == DOT_DOT_SEGMENT {
          if |kept| > 0 {
            kept := kept[..|kept| - 1];
          } else {
            kept := kept + [p];
          }
        } else {
          kept := kept + [p];
        }
        assert kept == KeepStep(before, p);
      }
      i := i + 1;
    }
    assert paths[1..i] == paths[1..];
    output := [SLASH];
    var keptLength := |kept|;
    if keptLength > 0 {
      var k := 0;
      ConcatEmpty(Pieces(kept[..0]), output);
      while k < keptLength - 1
        invariant 0 <= k <= keptLength - 1
        invariant output == [SLASH] + Pieces(kept[..k])
      {
        var p := kept[k];
        WritePiece(output, kept, k);
        if |p| > 0 {
          output := output + p + [SLASH];
        }
        k := k + 1;
      }
      output := output + kept[keptLength - 1];
    }
    assert output == Rendered(kept);
  }

  /** The non-empty segments, in order. */
  function NonEmptySegments(ps: seq<Bytes>): (r: seq<Bytes>)
    ensures |r| <= |ps|
  {
    if |ps| == 0 then []
    else NonEmptySegments(ps[..|ps| - 1]) + (if ps[|ps| - 1] == [] then [] else [ps[|ps| - 1]])
  }

  predicate SlashFree(ps: seq<Bytes>)
  {
    forall i | 0 <= i < |ps| :: SLASH !in ps[i]
  }

  /**
   * What a walk can leave: no `/` inside a segment, no `.` segment, and a
   * `..` segment only in front.
   */
  predicate Settled(ks: seq<Bytes>)
  {
    SlashFree(ks)
      && (forall i | 0 <= i < |ks| :: ks[i] != DOT_SEGMENT)
      && (forall i | 0 <= i < |ks| :: ks[i] == DOT_DOT_SEGMENT ==> i == 0)
  }

  lemma SettledSnoc(ks: seq<Bytes>, x: Bytes)
    requires Settled(ks) && SLASH !in x && x != DOT_SEGMENT
    requires x == DOT_DOT_SEGMENT ==> |ks| == 0
    ensures Settled(ks + [x])
  {
  }

  lemma SettledPrefix(ks: seq<Bytes>, n: nat)
    requires Settled(ks) && n <= |ks|
    ensures Settled(ks[..n])
  {
  }

  /** The walk keeps only what a walk can leave. */
  lemma {:induction false} KeptSettled(segs: seq<Bytes>)
    requires SlashFree(segs)
    ensures Settled(Kept(segs))
  {
    if |segs| > 0 {
      var init := segs[..|segs| - 1];
      var p := segs[|segs| - 1];
      KeptSettled(init);
      var kept := Kept(init);
      if p == DOT_SEGMENT {
      } else if p == DOT_DOT_SEGMENT && |kept| > 0 {
        SettledPrefix(kept, |kept| - 1);
      } else {
        SettledSnoc(kept, p);
      }
    }
  }

  /** Walking segments that are already settled changes nothing. */
  lemma {:induction false} KeptOfSettled(ks: seq<Bytes>)
    requires Settled(ks)
    ensures Kept(ks) == ks
  {
    if |ks| > 0 {
      var init := ks[..|ks| - 1];
      SettledPrefix(ks, |ks| - 1);
      KeptOfSettled(init);
      assert init + [ks[|ks| - 1]] == ks;
    }
  }

  lemma {:induction false} NonEmptySettled(ks: seq<Bytes>)
    requires Settled(ks)
    ensures Settled(NonEmptySegments(ks))
    ensures forall i | 0 <= i < |NonEmptySegments(ks)| :: NonEmptySegments(ks)[i] != []
  {
    if |ks| > 0 {
      var init := ks[..|ks| - 1];
      var x := ks[|ks| - 1];
      SettledPrefix(ks, |ks| - 1);
      NonEmptySettled(init);
      if x != [] {
        SettledSnoc(NonEmptySegments(init), x);
      }
    }
  }

  /** Empty segments write nothing, so dropping them writes the same text. */
  lemma {:induction false} PiecesOfNonEmpty(ks: seq<Bytes>)
    ensures Pieces(NonEmptySegments(ks)) == Pieces(ks)
  {
    if |ks| > 0 {
      var init := ks[..|ks| - 1];
      var x := ks[|ks| - 1];
      var ne := NonEmptySegments(init);
      PiecesOfNonEmpty(init);
      if x != [] {
        assert (ne + [x])[..|ne|] == ne;
        assert Pieces(ne + [x]) == Pieces(ne) + Piece(x);
      } else {
        assert NonEmptySegments(ks) == ne;
        assert Pieces(ks) == Pieces(init) + [];
      }
    }
  }

  /** Splitting written pieces gives back the non-empty segments. */
  lemma {:induction false} SplitPieces(ks: seq<Bytes>, t: Bytes)
    requires SlashFree(ks)
    ensures Split(Pieces(ks) + t, SLASH) == NonEmptySegments(ks) + Split(t, SLASH)
  {
    if |ks| > 0 {
      var init := ks[..|ks| - 1];
      var x := ks[|ks| - 1];
      var rest := Piece(x) + t;
      SplitPieces(init, rest);
      AppendAssoc(Pieces(init), Piece(x), t);
      assert Pieces(ks) + t == Pieces(init) + rest;
      if x != [] {
        SplitCons(x, t, SLASH);
        var ne := NonEmptySegments(init);
        assert NonEmptySegments(ks) == ne + [x];
        ConcatAssoc(ne, [x], Split(t, SLASH));
      } else {
        ConcatEmpty(Piece(x), t);
        var none: seq<Bytes> := [];
        assert NonEmptySegments(ks) == NonEmptySegments(init) + none;
        ConcatEmpty(none, NonEmptySegments(init));
      }
    } else {
      assert Pieces(ks) + t == t;
      ConcatEmpty(NonEmptySegments(ks), Split(t, SLASH));
    }
  }

  /** The segments of a normalized path: an empty one before the leading `/`, then the kept non-empty ones, then the last. */
  lemma SplitRendered(kept: seq<Bytes>)
    requires |kept| > 0 && SlashFree(kept)
    ensures Split(Rendered(kept), SLASH)
      == [[]] + NonEmptySegments(kept[..|kept| - 1]) + [kept[|kept| - 1]]
  {
    var ks := kept[..|kept| - 1];
    var last := kept[|kept| - 1];
    SplitPieces(ks, last);
    assert Split(last, SLASH) == [last];
    SplitCons([], Pieces(ks) + last, SLASH);
    AppendAssoc([SLASH], Pieces(ks), last);
  }

  /** What `normalize_path` keeps from its input, and that those are settled. */
  lemma NormalizedKept(input: Bytes)
    ensures Settled(Kept(Split(input, SLASH)[1..]))
  {
    SplitPiecesFree(input, SLASH);
    KeptSettled(Split(input, SLASH)[1..]);
  }

  /**
   * A normalized path holds no `//`: every segment between its leading `/`
   * and its last segment is non-empty.
   */
  lemma NormalizedNoDoubleSlash(input: Bytes)
    ensures forall i | 0 < i < |Split(NormalizedPath(input), SLASH)| - 1 ::
      Split(NormalizedPath(input), SLASH)[i] != []
  {
    var kept := Kept(Split(input, SLASH)[1..]);
    NormalizedKept(input);
    if |kept| == 0 {
      SplitCons([], [], SLASH);
    } else {
      SplitRendered(kept);
      NonEmptySettled(kept[..|kept| - 1]);
    }
  }

  /** Normalizing the text of settled segments gives it back. */
  lemma RenderedSettledFixed(kept: seq<Bytes>)
    requires Settled(kept)
    ensures NormalizedPath(Rendered(kept)) == Rendered(kept)
  {
    var r := Rendered(kept);
    if |kept| == 0 {
      SplitCons([], [], SLASH);
      assert r == [] + [SLASH] + [];
      assert Split(r, SLASH) == [[], []];
      assert Split(r, SLASH)[1..] == [[]];
      assert Kept([[]]) == KeepStep(Kept([]), []);
    } else {
      var ks := kept[..|kept| - 1];
      var last := kept[|kept| - 1];
      SplitRendered(kept);
      SettledPrefix(kept, |kept| - 1);
      NonEmptySettled(ks);
      var ne := NonEmptySegments(ks);
      var again := ne + [last];
      ConcatAssoc([[]], ne, [last]);
      assert Split(r, SLASH)[1..] == again;
      SettledSnoc(ne, last);
      KeptOfSettled(again);
      PiecesOfNonEmpty(ks);
      assert again[..|again| - 1] == ne;
    }
  }

  /** Normalizing a normalized path changes nothing. */
  lemma NormalizedIdempotent(input: Bytes)
    ensures NormalizedPath(NormalizedPath(input)) == NormalizedPath(input)
  {
    NormalizedKept(input);
    RenderedSettledFixed(Kept(Split(input, SLASH)[1..]));
  }

  // ---------------------------------------------------------------------
  // Host cleaning
  // ---------------------------------------------------------------------

  /** `str::replace("..", ".")`: one left-to-right pass over non-overlapping pairs of dots. */
  function ReplaceDoubleDots(s: Bytes): (r: Bytes)
    ensures |r| <= |s|
    decreases |s|
  {
    if |s| >= 2 && s[0] == DOT && s[1] == DOT then [DOT] + ReplaceDoubleDots(s[2..])
    else if |s| == 0 then []
    else [s[0]] + ReplaceDoubleDots(s[1..])
  }

  /** No two dots side by side. */
  predicate NoDoubleDot(s: Bytes)
  {
    forall i | 0 <= i < |s| - 1 :: !(s[i] == DOT && s[i + 1] == DOT)
  }

  /** The pass only merges dots: the other bytes come through, in order. */
  lemma {:induction false} ReplaceKeepsOthers(s: Bytes)
    ensures Remove(ReplaceDoubleDots(s), {DOT}) == Remove(s, {DOT})
    decreases |s|
  {
    if |s| >= 2 && s[0] == DOT && s[1] == DOT {
      ReplaceKeepsOthers(s[2..]);
      assert s[1..][1..] == s[2..];
    } else if |s| > 0 {
      ReplaceKeepsOthers(s[1..]);
    }
  }

  /** A text without two dots side by side is left as it is. */
  lemma {:induction false} ReplaceWithoutDoubleDot(s: Bytes)
    requires NoDoubleDot(s)
    ensures ReplaceDoubleDots(s) == s
    decreases |s|
  {
    if |s| > 0 {
      assert NoDoubleDot(s[1..]);
      ReplaceWithoutDoubleDot(s[1..]);
    }
  }

  /** `trim_start_matches('.')`. */
  function TrimLeadingDots(s: Bytes): (r: Bytes)
    ensures |r| <= |s| && r == s[|s| - |r|..]
    ensures forall i | 0 <= i < |s| - |r| :: s[i] == DOT
    ensures r == [] || r[0] != DOT
    decreases |s|
  {
    if |s| > 0 && s[0] == DOT then TrimLeadingDots(s[1..]) else s
  }

  /** `trim_end_matches('.')`. */
  function TrimTrailingDots(s: Bytes): (r: Bytes)
    ensures |r| <= |s| && r == s[..|r|]
    ensures forall i | |r| <= i < |s| :: s[i] == DOT
    ensures r == [] || r[|r| - 1] != DOT
    decreases |s|
  {
    if |s| > 0 && s[|s| - 1] == DOT then TrimTrailingDots(s[..|s| - 1]) else s
  }

  /**
   * `trim_matches('.')`: the longest slice with no dot at either end,
   * cut out from between two runs of dots; only dots are dropped.
   */
  function TrimDots(s: Bytes): (r: Bytes)
    ensures r == [] || (r[0] != DOT && r[|r| - 1] != DOT)
    ensures Remove(r, {DOT}) == Remove(s, {DOT})
  {
    var a := TrimLeadingDots(s);
    var r := TrimTrailingDots(a);
    assert r != [] ==> r[0] == a[0];
    RemoveDroppedFront(s, |s| - |a|, {DOT});
    RemoveDroppedBack(a, |r|, {DOT});
    r
  }

  /** Trimming cuts only dots, from either side. */
  lemma TrimDotsSlice(s: Bytes)
    ensures exists i, j | 0 <= i <= j <= |s| ::
      && TrimDots(s) == s[i..j]
      && (forall k | 0 <= k < i :: s[k] == DOT)
      && (forall k | j <= k < |s| :: s[k] == DOT)
  {
    var a := TrimLeadingDots(s);
    var r := TrimTrailingDots(a);
    var i := |s| - |a|;
    var j := i + |r|;
    assert a == s[i..];
    assert r == s[i..j];
    forall k | j <= k < |s|
      ensures s[k] == DOT
    {
      assert s[k] == a[k - i];
    }
  }

  /** A text with no dot at either end is not trimmed. */
  lemma TrimDotsUnchanged(s: Bytes)
    requires s == [] || (s[0] != DOT && s[|s| - 1] != DOT)
    ensures TrimDots(s) == s
  {
  }

  /** A non-ASCII host goes through IDNA (`domain_to_ascii`), and stays as it was when that fails. */
  function IdnaStep(host: Bytes, domainToAscii: Bytes -> Option<Bytes>): Bytes
  {
    if AllAscii(host) then host
    else
      match domainToAscii(host)
      case Some(a) => a
      case None => host
  }

  /**
   * The host after unescaping, IDNA, dot merging and dot trimming: no dot
   * is left at either end, and an ASCII host loses nothing but dots.
   */
  function CleanedHost(host: Bytes, domainToAscii: Bytes -> Option<Bytes>): (r: Bytes)
    requires Unescaped(host).Ok?
    ensures r == [] || (r[0] != DOT && r[|r| - 1] != DOT)
    ensures AllAscii(Unescaped(host).value) ==> Remove(r, {DOT}) == Remove(Unescaped(host).value, {DOT})
  {
    var h := IdnaStep(Unescaped(host).value, domainToAscii);
    ReplaceKeepsOthers(h);
    TrimDots(ReplaceDoubleDots(h))
  }

  /**
   * The hosts the host step does not panic for: unescaping succeeds (the
   * source unwraps it) and the IP attempt does not meet an oversized group.
   */
  predicate HostDefined(host: Bytes, domainToAscii: Bytes -> Option<Bytes>)
  {
    Unescaped(host).Ok? && IpFormatsDefined(CleanedHost(host, domainToAscii))
  }

  /**
   * The canonical host: a cleaned host that reads as an IPv4 address
   * becomes its dotted quad; any other is lowercased and percent-encoded.
   */
  function CanonicalHost(host: Bytes, domainToAscii: Bytes -> Option<Bytes>): (r: Bytes)
    requires HostDefined(host, domainToAscii)
    ensures ParseIpv4(r).Some? || EncodedAlphabet(r)
  {
    var h := CleanedHost(host, domainToAscii);
    match AttemptIpFormats(h)
    case Some(ip) => ip
    case None => EscapeOnce(Lower(h))
  }

  /** When every dot-separated piece holds only digits, the whole text holds only digits and dots. */
  lemma {:induction false} DigitPiecesEverywhere(s: Bytes, radix: nat)
    requires forall i | 0 <= i < |Split(s, DOT)| :: AllDigitsIn(Split(s, DOT)[i], radix)
    ensures forall k | 0 <= k < |s| :: s[k] == DOT || IsDigitIn(s[k], radix)
    decreases |s|
  {
    if DOT in s {
      var k := IndexOf(s, DOT);
      assert Split(s, DOT)[0] == s[..k];
      assert Split(s, DOT)[1..] == Split(s[k + 1..], DOT);
      DigitPiecesEverywhere(s[k + 1..], radix);
      forall m | 0 <= m < |s|
        ensures s[m] == DOT || IsDigitIn(s[m], radix)
      {
        if m < k {
          assert s[m] == s[..k][m];
        } else if m > k {
          assert s[m] == s[k + 1..][m - k - 1];
        }
      }
    } else {
      assert Split(s, DOT)[0] == s;
    }
  }

  /** A host holding a letter is never read as an address, and never panics the attempt. */
  lemma LetterNotIp(h: Bytes, i: nat)
    requires i < |h| && IsAlpha(h[i])
    ensures IpFormatsDefined(h)
    ensures AttemptIpFormats(h).None?
  {
    ParseRejects(h, 10, U32_BOUND, i);
    ParseRejects(h, 10, U128_BOUND, i);
    var ps := Split(h, DOT);
    if DecimalIpShape(h) {
      DigitPiecesEverywhere(h, 10);
      assert false;
    }
    if OctalIpShape(h) {
      forall m | 0 <= m < |ps|
        ensures AllDigitsIn(ps[m], 10)
      {
        OctalDigitsDecimal(ps[m]);
      }
      DigitPiecesEverywhere(h, 10);
      assert false;
    }
  }

  /** No byte the encoding pass would escape. */
  predicate Plain(s: Bytes)
  {
    forall i | 0 <= i < |s| :: !Escaped(s[i])
  }

  /** The canonical host in terms of the cleaned one. */
  lemma CanonicalHostOf(host: Bytes, domainToAscii: Bytes -> Option<Bytes>, cleaned: Bytes)
    requires Unescaped(host).Ok? && CleanedHost(host, domainToAscii) == cleaned
    requires IpFormatsDefined(cleaned)
    ensures HostDefined(host, domainToAscii)
    ensures AttemptIpFormats(cleaned).Some? ==> CanonicalHost(host, domainToAscii) == AttemptIpFormats(cleaned).value
    ensures AttemptIpFormats(cleaned).None? ==> CanonicalHost(host, domainToAscii) == EscapeOnce(Lower(cleaned))
  {
  }

  lemma PlainLower(s: Bytes)
    requires Plain(s)
    ensures Plain(Lower(s))
  {
    var low := Lower(s);
    forall k | 0 <= k < |low|
      ensures !Escaped(low[k])
    {
      assert low[k] == LowerByte(s[k]);
    }
  }

  /** A plain ASCII host without escapes, IDNA or stray dots reaches the IP attempt unchanged. */
  lemma CleanedPlainHost(host: Bytes, domainToAscii: Bytes -> Option<Bytes>)
    requires Plain(host) && NoDoubleDot(host)
    requires host == [] || (host[0] != DOT && host[|host| - 1] != DOT)
    ensures Unescaped(host) == Ok(host)
    ensures CleanedHost(host, domainToAscii) == host
  {
    assert AllAscii(host);
    assert NoEscape(host);
    AsciiValid(host);
    UnescapedFixedPoint(host);
    ReplaceWithoutDoubleDot(host);
    TrimDotsUnchanged(host);
  }

  /**
   * A host name holding a letter, with nothing to escape and no stray
   * dots, comes out lowercased and otherwise as it was
   * (`www.GOOgle.com` becomes `www.google.com`).
   */
  lemma CanonicalHostOfName(host: Bytes, i: nat, domainToAscii: Bytes -> Option<Bytes>)
    requires Plain(host) && NoDoubleDot(host)
    requires host == [] || (host[0] != DOT && host[|host| - 1] != DOT)
    requires i < |host| && IsAlpha(host[i])
    ensures HostDefined(host, domainToAscii)
    ensures CanonicalHost(host, domainToAscii) == Lower(host)
  {
    CleanedPlainHost(host, domainToAscii);
    LetterNotIp(host, i);
    CanonicalHostOf(host, domainToAscii, host);
    var low := Lower(host);
    PlainLower(host);
    EscapeOnceUnchanged(low);
    assert EscapeOnce(low) == low;
  }

  /**
   * A decimal number of at most 128 bits as host becomes the dotted quad of
   * its low 32 bits (`3279880203` becomes `195.127.0.11`).
   */
  lemma CanonicalHostOfNumber(v: nat, domainToAscii: Bytes -> Option<Bytes>)
    requires v < U128_BOUND
    ensures HostDefined(Decimal(v), domainToAscii)
    ensures CanonicalHost(Decimal(v), domainToAscii) == QuadText(BigEndianOctets(v % U32_BOUND))
  {
    var host := Decimal(v);
    assert Plain(host) && NoDoubleDot(host);
    CleanedPlainHost(host, domainToAscii);
    AttemptNumber(v);
    CanonicalHostOf(host, domainToAscii, host);
  }

  // ---------------------------------------------------------------------
  // canonicalize
  // ---------------------------------------------------------------------

  /**
   * The path step: the path is unescaped; when there is a host it is
   * normalized (an absent path counting as `/`); what is left is encoded.
   */
  function CanonicalPath(path: Option<Bytes>, hasHost: bool): (r: Option<Bytes>)
    requires path.Some? ==> Unescaped(path.value).Ok?
    ensures r.Some? <==> path.Some? || hasHost
    ensures hasHost ==> r.Some? && |r.value| > 0 && r.value[0] == SLASH
  {
    var unescaped := if path.Some? then Some(Unescaped(path.value).value) else None;
    var normalized :=
      if hasHost then Some(NormalizedPath(if unescaped.Some? then unescaped.value else [SLASH]))
      else unescaped;
    if normalized.Some? then
      EscapeKeepsLeadingSlash(normalized.value);
      Some(EscapeOnce(normalized.value))
    else None
  }

  /** `/` is not escaped, so an encoded path keeps its leading `/`. */
  lemma EscapeKeepsLeadingSlash(s: Bytes)
    ensures |s| > 0 && s[0] == SLASH ==> |EscapeOnce(s)| > 0 && EscapeOnce(s)[0] == SLASH
  {
    if |s| > 0 {
      assert EscapeOnce(s) == EncodeByte(s[0]) + EscapeOnce(s[1..]);
    }
  }

  /**
   * With a host, the path that comes out decodes to a normalized path:
   * normalizing it again changes nothing.
   */
  lemma CanonicalPathNormalized(path: Option<Bytes>)
    requires path.Some? ==> Unescaped(path.value).Ok?
    ensures CanonicalPath(path, true).Some?
    ensures NormalizedPath(PercentDecode(CanonicalPath(path, true).value)) == PercentDecode(CanonicalPath(path, true).value)
  {
    var n := NormalizedPath(if path.Some? then Unescaped(path.value).value else [SLASH]);
    DecodeEscapeOnce(n);
    NormalizedIdempotent(if path.Some? then Unescaped(path.value).value else [SLASH]);
  }

  /** `minimal_escape` on a field that may be absent, its error passed on. */
  function EscapedField(f: Option<Bytes>): (r: Result<Option<Bytes>>)
    ensures r.Ok? <==> (f.Some? ==> Unescaped(f.value).Ok?)
    ensures r.Ok? ==> (r.value.Some? <==> f.Some?)
    ensures r.Err? ==> r.error.CanonicalizerError?
  {
    match f
    case None => Ok(None)
    case Some(x) =>
      match MinimalEscape(x)
      case Ok(e) => Ok(Some(e))
      case Err(e) => Err(e)
  }

  /** User, password and query all escape without error. */
  predicate EscapesSucceed(u: Handy.HandyUrl)
  {
    EscapedField(u.authUser).Ok? && EscapedField(u.authPass).Ok? && EscapedField(u.query).Ok?
  }

  /**
   * The records `canonicalize` does not panic for: once the three escapes
   * have succeeded, the host's and the path's unescaping succeed, and the
   * host's IP attempt meets no oversized group.
   */
  predicate Defined(u: Handy.HandyUrl, domainToAscii: Bytes -> Option<Bytes>)
  {
    EscapesSucceed(u) ==>
      (u.host.Some? ==> HostDefined(u.host.value, domainToAscii))
      && (u.path.Some? ==> Unescaped(u.path.value).Ok?)
  }

  /**
   * The google pass: the fragment is dropped; user, password and query are
   * minimally escaped, the first failure being the result; the host and
   * path are canonicalized; scheme, port and last delimiter stay.
   */
  function Canonicalized(u: Handy.HandyUrl, domainToAscii: Bytes -> Option<Bytes>): (r: Result<Handy.HandyUrl>)
    requires Defined(u, domainToAscii)
    ensures r.Err? <==> !EscapesSucceed(u)
    ensures r.Err? ==> r.error.CanonicalizerError?
    ensures r.Ok? ==> r.value.hash.None?
    ensures r.Ok? ==> r.value.scheme == u.scheme && r.value.port == u.port && r.value.lastDelimiter == u.lastDelimiter
    ensures r.Ok? ==> (r.value.host.Some? <==> u.host.Some?) && (r.value.query.Some? <==> u.query.Some?)
    ensures r.Ok? ==> (r.value.authUser.Some? <==> u.authUser.Some?) && (r.value.authPass.Some? <==> u.authPass.Some?)
    ensures r.Ok? && u.host.Some? ==> r.value.path.Some? && |r.value.path.value| > 0 && r.value.path.value[0] == SLASH
  {
    match EscapedField(u.authUser)
    case Err(e) => Err(e)
    case Ok(user) =>
      match EscapedField(u.authPass)
      case Err(e) => Err(e)
      case Ok(pass) =>
        match EscapedField(u.query)
        case Err(e) => Err(e)
        case Ok(query) =>
          var host := if u.host.Some? then Some(CanonicalHost(u.host.value, domainToAscii)) else None;
          Ok(u.(hash := None, authUser := user, authPass := pass, query := query,
                host := host, path := CanonicalPath(u.path, u.host.Some?)))
  }

  /** The cleaning half of the host section: unescaping, IDNA for non-ASCII text, dot clean-up. */
  method CleanHost(host: Bytes, domainToAscii: Bytes -> Option<Bytes>) returns (r: Bytes)
    requires Unescaped(host).Ok?
    ensures r == CleanedHost(host, domainToAscii)
  {
    var unescaped := UnescapeRepeatedly(host);
    r := unescaped.value;
    if !AllAscii(r) {
      match domainToAscii(r) {
        case Some(a) => r := a;
        case None =>
      }
    }
    assert r == IdnaStep(Unescaped(host).value, domainToAscii);
    r := TrimDots(ReplaceDoubleDots(r));
  }

  /** Once the google pass succeeds, a host it was given comes out as the canonical host. */
  lemma CanonicalizedHost(u: Handy.HandyUrl, domainToAscii: Bytes -> Option<Bytes>)
    requires Defined(u, domainToAscii) && Canonicalized(u, domainToAscii).Ok? && u.host.Some?
    ensures HostDefined(u.host.value, domainToAscii)
    ensures Canonicalized(u, domainToAscii).value.host == Some(CanonicalHost(u.host.value, domainToAscii))
  {
  }

  /** The host section of `canonicalize`, on the host text it was given. */
  method CanonicalizeHost(host: Bytes, domainToAscii: Bytes -> Option<Bytes>) returns (r: Bytes)
    requires HostDefined(host, domainToAscii)
    ensures r == CanonicalHost(host, domainToAscii)
  {
    var tmpHost := CleanHost(host, domainToAscii);
    CanonicalHostOf(host, domainToAscii, tmpHost);
    var ip := AttemptIpFormats(tmpHost);
    if ip.Some? {
      tmpHost := ip.value;
    } else {
      tmpHost := EscapeOnce(Lower(tmpHost));
    }
    r := tmpHost;
  }

  /**
   * The path section of `canonicalize`: unescaping, then `normalize_path`
   * when there is a host, then one encoding pass.
   */
  method CanonicalizePath(urlPath: Option<Bytes>, hasHost: bool) returns (r: Option<Bytes>)
    requires urlPath.Some? ==> Unescaped(urlPath.value).Ok?
    ensures r == CanonicalPath(urlPath, hasHost)
  {
    var path := urlPath;
    if path.Some? {
      var unescaped := UnescapeRepeatedly(path.value);
      path := Some(unescaped.value);
    }
    if hasHost {
      if path.Some? {
        var normalized := NormalizePath(path.value);
        path := Some(normalized);
      } else {
        var normalized := NormalizePath([SLASH]);
        path := Some(normalized);
      }
    }
    r := path;
    if path.Some? {
      r := Some(EscapeOnce(path.value));
    }
  }

  /** The record the google pass returns once the three escapes have succeeded. */
  lemma CanonicalizedOk(u: Handy.HandyUrl, domainToAscii: Bytes -> Option<Bytes>)
    requires Defined(u, domainToAscii) && EscapesSucceed(u)
    ensures u.host.Some? ==> HostDefined(u.host.value, domainToAscii)
    ensures u.path.Some? ==> Unescaped(u.path.value).Ok?
    ensures Canonicalized(u, domainToAscii) == Ok(u.(hash := None,
      authUser := EscapedField(u.authUser).value, authPass := EscapedField(u.authPass).value,
      query := EscapedField(u.query).value,
      host := if u.host.Some? then Some(CanonicalHost(u.host.value, domainToAscii)) else None,
      path := CanonicalPath(u.path, u.host.Some?)))
  {
  }

  /**
   * `canonicalize`: the owned record is updated field by field. The IDNA
   * conversion is the parameter `domainToAscii`; the options are not read.
   */
  method Canonicalize(urlInput: Handy.HandyUrl, domainToAscii: Bytes -> Option<Bytes>) returns (r: Result<Handy.HandyUrl>)
    requires Defined(urlInput, domainToAscii)
    ensures r == Canonicalized(urlInput, domainToAscii)
  {
    var url := urlInput;
    url := url.(hash := None);
    if url.authUser.Some? {
      var escaped := MinimalEscape(url.authUser.value);
      if escaped.Err? {
        return Err(escaped.error);
      }
      url := url.(authUser := Some(escaped.value));
    }
    if url.authPass.Some? {
      var escaped := MinimalEscape(url.authPass.value);
      if escaped.Err? {
        return Err(escaped.error);
      }
      url := url.(authPass := Some(escaped.value));
    }
    if url.query.Some? {
      var escaped := MinimalEscape(url.query.value);
      if escaped.Err? {
        return Err(escaped.error);
      }
      url := url.(query := Some(escaped.value));
    }
    assert EscapesSucceed(urlInput);
    CanonicalizedOk(urlInput, domainToAscii);
    assert url == urlInput.(hash := None,
      authUser := EscapedField(urlInput.authUser).value, authPass := EscapedField(urlInput.authPass).value,
      query := EscapedField(urlInput.query).value);

    if url.host.Some? {
      var host := CanonicalizeHost(url.host.value, domainToAscii);
      url := url.(host := Some(host));
    }
    var path := CanonicalizePath(url.path, url.host.Some?);
    url := url.(path := path);
    r := Ok(url);
  }
}
