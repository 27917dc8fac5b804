/**
 * The three rewriting helpers built on small patterns: turning a host
 * into its SURT form (labels reversed, joined by commas), and removing
 * session identifiers from paths and queries. Each pattern is written
 * out as a matcher; the leftmost-first choice the pattern engine makes
 * for a greedy leading `(.*)` is "the rightmost position where the rest
 * matches".
 */
module RegexTransformer {
  import opened Text

  // ---------------------------------------------------------------------
  // Host to SURT
  // ---------------------------------------------------------------------

  /** `\d{1,3}`: one to three ASCII digits. */
  predicate IsOctetText(s: Bytes)
  {
    1 <= |s| <= 3 && AllDigits(s)
  }

  /** `(?:\d{1,3}\.){3}\d{1,3}` matching the whole of `s`. */
  predicate IsDottedQuad(s: Bytes)
  {
    var parts := Split(s, DOT);
    |parts| == 4 && IsOctetText(parts[0]) && IsOctetText(parts[1]) && IsOctetText(parts[2]) && IsOctetText(parts[3])
  }

  /**
   * The address pattern as the engine reads it: anchored at the end only,
   * so it holds when some suffix of the host is a dotted quad.
   */
  predicate EndsInIpAddress(host: Bytes)
  {
    exists k | 0 <= k <= |host| :: DottedQuadFrom(host, k)
  }

  /** The text from `k` on is a dotted quad. */
  predicate DottedQuadFrom(host: Bytes, k: nat)
    requires k <= |host|
  {
    IsDottedQuad(host[k..])
  }

  /**
   * The same test on the labels: at least four of them, the last three
   * of one to three digits, and the fourth from last ending in a digit
   * (the match may start inside that label).
   */
  predicate IpSuffixLabels(host: Bytes)
  {
    IpLabels(Split(host, DOT))
  }

  predicate IpLabels(parts: seq<Bytes>)
  {
    var n := |parts|;
    && n >= 4
    && IsOctetText(parts[n - 1]) && IsOctetText(parts[n - 2]) && IsOctetText(parts[n - 3])
    && EndsInDigit(parts[n - 4])
  }

  predicate EndsInDigit(s: Bytes)
  {
    |s| > 0 && IsDigit(s[|s| - 1])
  }

  /** The label test recognises exactly the hosts the anchored-at-end pattern matches. */
  lemma IpSuffixLabelsCorrect(host: Bytes)
    ensures IpSuffixLabels(host) <==> EndsInIpAddress(host)
  {
    if IpSuffixLabels(host) {
      IpSuffixFromLabels(host);
    }
    if EndsInIpAddress(host) {
      var k :| 0 <= k <= |host| && DottedQuadFrom(host, k);
      IpSuffixToLabels(host, k);
    }
  }

  /** A host whose labels end in an address has a dotted-quad suffix. */
  lemma IpSuffixFromLabels(host: Bytes)
    requires IpSuffixLabels(host)
    ensures EndsInIpAddress(host)
  {
    var a, last3, tail := LabelPieces(host);
    var c := a[|a| - 1];
    QuadFromDigit(c, last3);
    LastDigitOn(host, a, tail);
    DottedQuadAt(host, |a| - 1, [c] + [DOT] + Join(last3, DOT));
  }

  /** The labels before the last three, joined, then a dot and the last three joined. */
  lemma LabelPieces(host: Bytes) returns (a: Bytes, last3: seq<Bytes>, tail: Bytes)
    requires IpSuffixLabels(host)
    ensures host == a + [DOT] + tail && tail == Join(last3, DOT) && EndsInDigit(a)
    ensures |last3| == 3 && IsOctetText(last3[0]) && IsOctetText(last3[1]) && IsOctetText(last3[2])
  {
    var parts := Split(host, DOT);
    var n := |parts|;
    var front := parts[..n - 3];
    last3 := parts[n - 3..];
    assert parts == front + last3;
    JoinSplit(host, DOT);
    JoinAppend(front, last3, DOT);
    a := Join(front, DOT);
    tail := Join(last3, DOT);
    JoinEndsWithLast(front, DOT);
    assert EndsInDigit(front[|front| - 1]);
  }

  lemma LastDigitOn(host: Bytes, a: Bytes, tail: Bytes)
    requires host == a + [DOT] + tail && |a| > 0
    ensures host[|a| - 1..] == [a[|a| - 1]] + [DOT] + tail
  {
  }

  lemma DottedQuadAt(host: Bytes, k: nat, w: Bytes)
    requires k <= |host| && host[k..] == w && IsDottedQuad(w)
    ensures EndsInIpAddress(host)
  {
    assert DottedQuadFrom(host, k);
  }

  /** One digit, a dot and three octets joined by dots. */
  lemma QuadFromDigit(c: Byte, last3: seq<Bytes>)
    requires IsDigit(c) && |last3| == 3
    requires IsOctetText(last3[0]) && IsOctetText(last3[1]) && IsOctetText(last3[2])
    ensures IsDottedQuad([c] + [DOT] + Join(last3, DOT))
  {
    var parts := [[c]] + last3;
    assert parts[1..] == last3;
    assert Join(parts, DOT) == [c] + [DOT] + Join(last3, DOT);
    assert forall i | 0 <= i < 4 :: DOT !in parts[i];
    SplitJoin(parts, DOT);
    assert IsOctetText(parts[0]);
  }

  /** A host with a dotted-quad suffix has labels that end in an address. */
  lemma IpSuffixToLabels(host: Bytes, k: nat)
    requires k <= |host| && DottedQuadFrom(host, k)
    ensures IpSuffixLabels(host)
  {
    var a, rest, tail := QuadPieces(host[k..]);
    GlueSuffix(host, k, a, tail);
    LabelsOfQuadSuffix(host[..k], a, rest, host);
  }

  lemma GlueSuffix(host: Bytes, k: nat, a: Bytes, tail: Bytes)
    requires k <= |host| && host[k..] == a + [DOT] + tail
    ensures host == host[..k] + a + [DOT] + tail
  {
    assert host == host[..k] + host[k..];
  }

  /** A dotted quad is its first octet, a dot, and the other three joined by dots. */
  lemma QuadPieces(w: Bytes) returns (a: Bytes, rest: seq<Bytes>, tail: Bytes)
    requires IsDottedQuad(w)
    ensures w == a + [DOT] + tail && tail == Join(rest, DOT)
    ensures IsOctetText(a) && |rest| == 3
    ensures IsOctetText(rest[0]) && IsOctetText(rest[1]) && IsOctetText(rest[2])
  {
    var q := Split(w, DOT);
    JoinSplit(w, DOT);
    a, rest := q[0], q[1..];
    JoinAppend([a], rest, DOT);
    assert [a] + rest == q;
    tail := Join(rest, DOT);
  }

  /** Whatever precedes them, an octet, a dot and three more octets make the labels end in an address. */
  lemma LabelsOfQuadSuffix(pre: Bytes, a: Bytes, rest: seq<Bytes>, host: Bytes)
    requires IsOctetText(a) && |rest| == 3
    requires IsOctetText(rest[0]) && IsOctetText(rest[1]) && IsOctetText(rest[2])
    requires host == pre + a + [DOT] + Join(rest, DOT)
    ensures IpSuffixLabels(host)
  {
    var x := pre + a;
    SplitsAroundQuad(x, rest);
    assert forall t | 0 <= t < |a| :: IsDigit(a[t]);
    SplitExtendLast(pre, a, DOT);
    LastLabelEndsInDigit(Split(pre, DOT), a);
    LabelsShape(Split(x, DOT), rest);
  }

  lemma SplitsAroundQuad(x: Bytes, rest: seq<Bytes>)
    requires |rest| == 3 && IsOctetText(rest[0]) && IsOctetText(rest[1]) && IsOctetText(rest[2])
    ensures Split(x + [DOT] + Join(rest, DOT), DOT) == Split(x, DOT) + rest
  {
    OctetsSplitBack(rest);
    SplitAppend(x, Join(rest, DOT), DOT);
  }

  lemma OctetsSplitBack(rest: seq<Bytes>)
    requires |rest| == 3 && IsOctetText(rest[0]) && IsOctetText(rest[1]) && IsOctetText(rest[2])
    ensures Split(Join(rest, DOT), DOT) == rest
  {
    assert forall i | 0 <= i < 3 :: DOT !in rest[i];
    SplitJoin(rest, DOT);
  }

  lemma LastLabelEndsInDigit(ps: seq<Bytes>, a: Bytes)
    requires |ps| >= 1 && IsOctetText(a)
    ensures var front := ps[..|ps| - 1] + [ps[|ps| - 1] + a];
      EndsInDigit(front[|front| - 1])
  {
    var l := ps[|ps| - 1] + a;
    assert l[|l| - 1] == a[|a| - 1];
  }

  lemma LabelsShape(front: seq<Bytes>, rest: seq<Bytes>)
    requires |front| >= 1 && EndsInDigit(front[|front| - 1])
    requires |rest| == 3 && IsOctetText(rest[0]) && IsOctetText(rest[1]) && IsOctetText(rest[2])
    ensures IpLabels(front + rest)
  {
    var parts := front + rest;
    var n := |parts|;
    assert parts[n - 4] == front[|front| - 1];
    assert parts[n - 3] == rest[0] && parts[n - 2] == rest[1] && parts[n - 1] == rest[2];
  }

  /**
   * `host_to_surt`: the host unchanged when reversal of addresses is off
   * and it ends in an IPv4 address; otherwise its dot-separated labels in
   * reverse order, joined with commas.
   */
  function HostToSurt(host: Bytes, reverseIpaddr: bool): (r: Bytes)
    ensures !reverseIpaddr && EndsInIpAddress(host) ==> r == host
    ensures reverseIpaddr || !EndsInIpAddress(host) ==> r == Join(Reverse(Split(host, DOT)), COMMA)
  {
    IpSuffixLabelsCorrect(host);
    if !reverseIpaddr && IpSuffixLabels(host) then host
    else Join(Reverse(Split(host, DOT)), COMMA)
  }

  /**
   * For a host without commas whose labels are reversed, the output has
   * one comma per dot of the input, and splitting it at the commas and
   * reversing again gives back the labels, hence the host.
   */
  lemma HostToSurtInverse(host: Bytes, reverseIpaddr: bool)
    requires COMMA !in host
    requires reverseIpaddr || !EndsInIpAddress(host)
    ensures Count(HostToSurt(host, reverseIpaddr), COMMA) == Count(host, DOT)
    ensures Reverse(Split(HostToSurt(host, reverseIpaddr), COMMA)) == Split(host, DOT)
    ensures Join(Reverse(Split(HostToSurt(host, reverseIpaddr), COMMA)), DOT) == host
  {
    ReversedLabelsInverse(host);
  }

  /** Reversing the labels and joining with commas loses nothing. */
  lemma ReversedLabelsInverse(host: Bytes)
    requires COMMA !in host
    ensures var r := Join(Reverse(Split(host, DOT)), COMMA);
      && Count(r, COMMA) == Count(host, DOT)
      && Reverse(Split(r, COMMA)) == Split(host, DOT)
      && Join(Reverse(Split(r, COMMA)), DOT) == host
  {
    SplitPiecesWithout(host, DOT, COMMA);
    RejoinReversed(Split(host, DOT));
    CountSplit(host, DOT);
    JoinSplit(host, DOT);
  }

  /** Labels free of commas come back from their reversed, comma-joined form. */
  lemma RejoinReversed(labels: seq<Bytes>)
    requires |labels| >= 1 && forall i | 0 <= i < |labels| :: COMMA !in labels[i]
    ensures var r := Join(Reverse(labels), COMMA);
      Reverse(Split(r, COMMA)) == labels && Count(r, COMMA) == |labels| - 1
  {
    var rev := Reverse(labels);
    assert forall i | 0 <= i < |rev| :: COMMA !in rev[i] by {
      forall i | 0 <= i < |rev| ensures COMMA !in rev[i] {
        assert rev[i] == labels[|labels| - 1 - i];
      }
    }
    SplitJoin(rev, COMMA);
    ReverseReverse(labels);
    CountJoin(rev, COMMA);
  }

  // ---------------------------------------------------------------------
  // Session identifiers
  // ---------------------------------------------------------------------

  /** The five query patterns, each `^(.*)TOKEN(?:&(.*))?$` ignoring case. */
  datatype QueryPattern =
    | JSessionId    // jsessionid=[0-9a-zA-Z]{32}
    | PhpSessId     // phpsessid=[0-9a-zA-Z]{32}
    | Sid           // sid=[0-9a-zA-Z]{32}
    | AspSessionId  // ASPSESSIONID[a-zA-Z]{8}=[a-zA-Z]{24}
    | ColdFusion    // cfid=[^&]+&cftoken=[^&]+

  /**
   * The two path patterns, each a greedy prefix ending in a slash, the
   * segment below followed by a slash, then `[^\?]+\.aspx.*` up to the
   * end, ignoring case.
   */
  datatype PathPattern =
    | GroupedPathId // \((?:[a-z]\([0-9a-z]{24}\))+\)
    | PlainPathId   // \([0-9a-z]{24}\)

  datatype Pattern = Query(qp: QueryPattern) | Path(pp: PathPattern)

  /** The patterns in the order the loops try them. */
  const QueryPatterns: seq<Pattern> :=
    [Query(JSessionId), Query(PhpSessId), Query(Sid), Query(AspSessionId), Query(ColdFusion)]
  const PathPatterns: seq<Pattern> := [Path(GroupedPathId), Path(PlainPathId)]

  const JSESSIONID_KEY: Bytes := Str("jsessionid=")
  const PHPSESSID_KEY: Bytes := Str("phpsessid=")
  const SID_KEY: Bytes := Str("sid=")
  const ASPSESSIONID_KEY: Bytes := Str("aspsessionid")
  const CFID_KEY: Bytes := Str("cfid=")
  const CFTOKEN_KEY: Bytes := Str("&cftoken=")
  const ASPX: Bytes := Str(".aspx")

  /** `lit`, written in lower case, occurs at `i` in any ASCII case. */
  predicate LiteralAt(q: Bytes, i: nat, lit: Bytes)
  {
    i + |lit| <= |q| && forall t | 0 <= t < |lit| :: LowerByte(q[i + t]) == lit[t]
  }

  /** `n` ASCII letters or digits start at `i`. */
  predicate AlnumRun(q: Bytes, i: nat, n: nat)
  {
    i + n <= |q| && forall t | i <= t < i + n :: IsAlnum(q[t])
  }

  /** `n` ASCII letters start at `i`. */
  predicate AlphaRun(q: Bytes, i: nat, n: nat)
  {
    i + n <= |q| && forall t | i <= t < i + n :: IsAlpha(q[t])
  }

  /** Length of the longest run of bytes other than `&` starting at `i`: what a greedy `[^&]+` takes. */
  function NonAmpLength(q: Bytes, i: nat): (n: nat)
    requires i <= |q|
    ensures i + n <= |q|
    ensures i + n == |q| || q[i + n] == AMP
    decreases |q| - i
  {
    if i == |q| || q[i] == AMP then 0 else 1 + NonAmpLength(q, i + 1)
  }

  /** A key followed by exactly 32 letters or digits. */
  function KeyedId(q: Bytes, i: nat, key: Bytes): (e: Option<nat>)
    ensures e.Some? ==> e.value == i + |key| + 32 <= |q|
  {
    if LiteralAt(q, i, key) && AlnumRun(q, i + |key|, 32) then Some(i + |key| + 32) else None
  }

  /** End of the session token of a query pattern when it starts at `i`. */
  function TokenEnd(p: QueryPattern, q: Bytes, i: nat): (e: Option<nat>)
    requires i <= |q|
    ensures e.Some? ==> i < e.value <= |q|
  {
    match p
    case JSessionId => KeyedId(q, i, JSESSIONID_KEY)
    case PhpSessId => KeyedId(q, i, PHPSESSID_KEY)
    case Sid => KeyedId(q, i, SID_KEY)
    case AspSessionId => AspToken(q, i)
    case ColdFusion => ColdFusionToken(q, i)
  }

  /** `ASPSESSIONID[a-zA-Z]{8}=[a-zA-Z]{24}` at `i`. */
  function AspToken(q: Bytes, i: nat): (e: Option<nat>)
    ensures e.Some? ==> e.value == i + 45 <= |q|
  {
    if LiteralAt(q, i, ASPSESSIONID_KEY) && AlphaRun(q, i + 12, 8) && i + 20 < |q|
      && q[i + 20] == EQUALS && AlphaRun(q, i + 21, 24)
    then Some(i + 45) else None
  }

  /** `cfid=[^&]+&cftoken=[^&]+` at `i`; each greedy run stops at an `&` or the end. */
  function ColdFusionToken(q: Bytes, i: nat): (e: Option<nat>)
    requires i <= |q|
    ensures e.Some? ==> i < e.value <= |q|
  {
    if !LiteralAt(q, i, CFID_KEY) then None
    else ColdFusionRest(q, i, NonAmpLength(q, i + 5))
  }

  /** The token after `cfid=` and a first run of `a` bytes. */
  function ColdFusionRest(q: Bytes, i: nat, a: nat): (e: Option<nat>)
    requires i + 5 + a <= |q|
    ensures e.Some? ==> i < e.value <= |q|
  {
    if a == 0 || !LiteralAt(q, i + 5 + a, CFTOKEN_KEY) then None
    else
      var b := NonAmpLength(q, i + 14 + a);
      if b == 0 then None else Some(i + 14 + a + b)
  }

  /**
   * A query pattern whose `(.*)` takes `q[..i]`: the token must follow,
   * then either the end of the text or `&` and a rest without line feed
   * (`.` does not match one). The cut ends after that `&`.
   */
  function QueryCutEnd(p: QueryPattern, q: Bytes, i: nat): (e: Option<nat>)
    requires i <= |q|
    ensures e.Some? ==> i < e.value <= |q|
  {
    CutAfterToken(q, i, TokenEnd(p, q, i))
  }

  /** The part of a query match after the token, which ends at `tok` when there is one. */
  function CutAfterToken(q: Bytes, i: nat, tok: Option<nat>): (e: Option<nat>)
    requires i <= |q|
    requires tok.Some? ==> i < tok.value <= |q|
    ensures e.Some? ==> i < e.value <= |q|
  {
    if LF in q[..i] || tok.None? then None
    else
      var j := tok.value;
      if j == |q| then Some(j)
      else if q[j] == AMP && LF !in q[j + 1..] then Some(j + 1)
      else None
  }

  /** `[a-z]\([0-9a-z]{24}\)` at `k`. */
  predicate UnitAt(q: Bytes, k: nat)
  {
    k + 27 <= |q| && IsAlpha(q[k]) && q[k + 1] == LPAREN && AlnumRun(q, k + 2, 24) && q[k + 26] == RPAREN
  }

  /** How many units follow one another from `k`: what a greedy `(?:…)+` takes. */
  function Units(q: Bytes, k: nat): (n: nat)
    ensures n > 0 ==> k + 27 * n <= |q|
    decreases |q| - k
  {
    if UnitAt(q, k) then 1 + Units(q, k + 27) else 0
  }

  /** End of the bracketed identifier segment, with its slash, when it starts at `i`. */
  function SegmentEnd(p: PathPattern, q: Bytes, i: nat): (e: Option<nat>)
    ensures e.Some? ==> i < e.value <= |q| && q[i] == LPAREN
  {
    match p
    case PlainPathId => PlainSegmentEnd(q, i)
    case GroupedPathId => GroupedSegmentEnd(q, i)
  }

  /** `\([0-9a-z]{24}\)/` at `i`. */
  function PlainSegmentEnd(q: Bytes, i: nat): (e: Option<nat>)
    ensures e.Some? ==> e.value == i + 27 <= |q| && q[i] == LPAREN
  {
    if i + 27 <= |q| && q[i] == LPAREN && AlnumRun(q, i + 1, 24) && q[i + 25] == RPAREN && q[i + 26] == SLASH
    then Some(i + 27) else None
  }

  /** `\((?:[a-z]\([0-9a-z]{24}\))+\)/` at `i`. */
  function GroupedSegmentEnd(q: Bytes, i: nat): (e: Option<nat>)
    ensures e.Some? ==> i < e.value <= |q| && q[i] == LPAREN
  {
    if i >= |q| || q[i] != LPAREN then None
    else
      var n := Units(q, i + 1);
      var j := i + 1 + 27 * n;
      if n > 0 && j + 2 <= |q| && q[j] == RPAREN && q[j + 1] == SLASH then Some(j + 2) else None
  }

  /** `[^\?]+\.aspx.*$` from `j`, with `.aspx` at `m`. */
  predicate AspxAt(q: Bytes, j: nat, m: nat)
    requires j <= m
  {
    && j < m
    && LiteralAt(q, m, ASPX)
    && QUESTION !in q[j..m]
    && LF !in q[m + 5..]
  }

  predicate AspxTail(q: Bytes, j: nat)
  {
    exists m | j <= m <= |q| :: AspxAt(q, j, m)
  }

  /**
   * A path pattern whose leading group takes `q[..i]`: that prefix ends in a
   * slash and has no line feed, the segment follows, and the rest holds
   * `.aspx` after at least one byte and before any `?`. The cut ends
   * after the segment.
   */
  function PathCutEnd(p: PathPattern, q: Bytes, i: nat): (e: Option<nat>)
    requires i <= |q|
    ensures e.Some? ==> i < e.value <= |q|
  {
    if i == 0 || q[i - 1] != SLASH || LF in q[..i] then None
    else
      match SegmentEnd(p, q, i)
      case None => None
      case Some(j) => if AspxTail(q, j) then Some(j) else None
  }

  /** Where the removed part ends when the leading group stops at `i`. */
  function CutEnd(p: Pattern, q: Bytes, i: nat): (e: Option<nat>)
    requires i <= |q|
    ensures e.Some? ==> i < e.value <= |q|
  {
    match p
    case Query(qp) => QueryCutEnd(qp, q, i)
    case Path(pp) => PathCutEnd(pp, q, i)
  }

  predicate MatchesAt(p: Pattern, q: Bytes, i: nat)
  {
    i <= |q| && CutEnd(p, q, i).Some?
  }

  /** Where the cut would end for each length of the leading group. */
  function Cuts(p: Pattern, q: Bytes): (c: seq<Option<nat>>)
    ensures |c| == |q| + 1
  {
    seq(|q| + 1, t requires 0 <= t <= |q| => CutEnd(p, q, t))
  }

  /** The largest index at or below `i` holding a value, with that value. */
  function LastSome(c: seq<Option<nat>>, i: nat): (r: Option<(nat, nat)>)
    requires i < |c|
    ensures r.Some? ==> r.value.0 <= i && c[r.value.0] == Some(r.value.1)
    decreases i
  {
    if c[i].Some? then Some((i, c[i].value))
    else if i == 0 then None
    else LastSome(c, i - 1)
  }

  lemma {:induction false} LastSomeIsLast(c: seq<Option<nat>>, i: nat)
    requires i < |c|
    ensures LastSome(c, i).None? ==> forall t | 0 <= t <= i :: c[t].None?
    ensures LastSome(c, i).Some? ==> forall t | LastSome(c, i).value.0 < t <= i :: c[t].None?
    decreases i
  {
    if c[i].None? && i > 0 {
      LastSomeIsLast(c, i - 1);
    }
  }

  /**
   * The greedy leading group: the largest start where the rest of the
   * pattern matches, with the end of the cut.
   */
  function LastMatch(p: Pattern, q: Bytes): (r: Option<(nat, nat)>)
    ensures r.Some? ==> r.value.0 <= |q| && CutEnd(p, q, r.value.0) == Some(r.value.1)
  {
    LastSome(Cuts(p, q), |q|)
  }

  lemma LastMatchIsLast(p: Pattern, q: Bytes)
    ensures LastMatch(p, q).None? ==> forall t | 0 <= t <= |q| :: !MatchesAt(p, q, t)
    ensures LastMatch(p, q).Some? ==> forall t | LastMatch(p, q).value.0 < t <= |q| :: !MatchesAt(p, q, t)
  {
    var c := Cuts(p, q);
    LastSomeIsLast(c, |q|);
    assert forall t | 0 <= t <= |q| :: c[t] == CutEnd(p, q, t);
  }

  /** One pattern applied: the captured text around the session id, or the input when it does not match. */
  function Strip(p: Pattern, q: Bytes): (r: Bytes)
  {
    match LastMatch(p, q)
    case None => q
    case Some((s, e)) => q[..s] + q[e..]
  }

  /**
   * The patterns applied one after another, as the loops do: the text
   * never grows, and is left alone when no pattern matches it anywhere.
   */
  function StripAll(ps: seq<Pattern>, q: Bytes): (r: Bytes)
    ensures |r| <= |q|
    ensures NoneMatch(ps, q) ==> r == q
  {
    if |ps| == 0 then q
    else
      var front := ps[..|ps| - 1];
      var inner := StripAll(front, q);
      StripUnchanged(ps[|ps| - 1], inner);
      assert NoneMatch(ps, q) ==> NoneMatch(front, q) by {
        if NoneMatch(ps, q) {
          forall k, t | 0 <= k < |front| && 0 <= t <= |q| ensures !MatchesAt(front[k], q, t) {
            assert front[k] == ps[k];
          }
        }
      }
      Strip(ps[|ps| - 1], inner)
  }

  /** `strip_query_session_id` */
  method StripQuerySessionId(queryInput: Bytes) returns (query: Bytes)
    ensures query == StripAll(QueryPatterns, queryInput)
  {
    query := queryInput;
    for k := 0 to |QueryPatterns|
      invariant query == StripAll(QueryPatterns[..k], queryInput)
    {
      assert QueryPatterns[..k + 1][..k] == QueryPatterns[..k];
      query := Strip(QueryPatterns[k], query);
    }
    assert QueryPatterns[..|QueryPatterns|] == QueryPatterns;
  }

  /** `strip_path_session_id` */
  method StripPathSessionId(pathInput: Bytes) returns (path: Bytes)
    ensures path == StripAll(PathPatterns, pathInput)
  {
    path := pathInput;
    for k := 0 to |PathPatterns|
      invariant path == StripAll(PathPatterns[..k], pathInput)
    {
      assert PathPatterns[..k + 1][..k] == PathPatterns[..k];
      path := Strip(PathPatterns[k], path);
    }
    assert PathPatterns[..|PathPatterns|] == PathPatterns;
  }

  /** A pattern changes the text exactly when it matches somewhere, and then removes at least one byte. */
  lemma StripUnchanged(p: Pattern, q: Bytes)
    ensures Strip(p, q) == q <==> forall t | 0 <= t <= |q| :: !MatchesAt(p, q, t)
    ensures |Strip(p, q)| <= |q|
  {
    LastMatchIsLast(p, q);
    match LastMatch(p, q)
    case None =>
    case Some((s, e)) =>
      assert MatchesAt(p, q, s);
      assert |q[..s] + q[e..]| < |q|;
  }

  /** The cut is made at the rightmost start where the pattern matches. */
  lemma StripAtLastMatch(p: Pattern, q: Bytes, s: nat)
    requires MatchesAt(p, q, s)
    requires forall t | s < t <= |q| :: !MatchesAt(p, q, t)
    ensures Strip(p, q) == q[..s] + q[CutEnd(p, q, s).value..]
  {
    LastMatchIsLast(p, q);
    var r := LastMatch(p, q);
    assert r.Some? && r.value.0 == s by {
      if r.None? || r.value.0 < s {
        assert false;
      } else if r.value.0 > s {
        assert MatchesAt(p, q, r.value.0);
      }
    }
  }

  predicate NoneMatch(ps: seq<Pattern>, q: Bytes)
  {
    forall k, t | 0 <= k < |ps| && 0 <= t <= |q| :: !MatchesAt(ps[k], q, t)
  }

  /** Every query token holds an `=`. */
  lemma QueryMatchHasEquals(qp: QueryPattern, q: Bytes, t: nat)
    requires MatchesAt(Query(qp), q, t)
    ensures EQUALS in q
  {
    var j := TokenEnd(qp, q, t).value;
    match qp
    case JSessionId =>
      assert LowerByte(q[t + 10]) == JSESSIONID_KEY[10];
    case PhpSessId =>
      assert LowerByte(q[t + 9]) == PHPSESSID_KEY[9];
    case Sid =>
      assert LowerByte(q[t + 3]) == SID_KEY[3];
    case AspSessionId =>
      assert q[t + 20] == EQUALS;
    case ColdFusion =>
      assert LowerByte(q[t + 4]) == CFID_KEY[4];
  }

  /** Every path segment opens with `(`. */
  lemma PathMatchHasParen(pp: PathPattern, q: Bytes, t: nat)
    requires MatchesAt(Path(pp), q, t)
    ensures t < |q| && q[t] == LPAREN
  {
  }

  /** A query without `=` is returned unchanged. */
  lemma QueryWithoutEquals(q: Bytes)
    requires EQUALS !in q
    ensures StripAll(QueryPatterns, q) == q
  {
    forall k, t | 0 <= k < |QueryPatterns| && 0 <= t <= |q|
      ensures !MatchesAt(QueryPatterns[k], q, t)
    {
      if MatchesAt(QueryPatterns[k], q, t) {
        QueryMatchHasEquals(QueryPatterns[k].qp, q, t);
      }
    }
  }

  /** A path without `(` is returned unchanged. */
  lemma PathWithoutParen(q: Bytes)
    requires LPAREN !in q
    ensures StripAll(PathPatterns, q) == q
  {
    forall k, t | 0 <= k < |PathPatterns| && 0 <= t <= |q|
      ensures !MatchesAt(PathPatterns[k], q, t)
    {
      if MatchesAt(PathPatterns[k], q, t) {
        PathMatchHasParen(PathPatterns[k].pp, q, t);
      }
    }
  }

  // Case-insensitivity: every pattern sees a text and its lower-cased form alike.

  /** The punctuation the patterns look for is left alone by lower-casing. */
  lemma LowerKeepsPunctuation(q: Bytes, b: Byte, i: nat, j: nat)
    requires !IsAlpha(b) && i <= j <= |q|
    ensures b in Lower(q)[i..j] <==> b in q[i..j]
  {
    if b in q[i..j] {
      var k :| i <= k < j && q[k] == b;
      assert Lower(q)[i..j][k - i] == b;
    }
    if b in Lower(q)[i..j] {
      var k :| i <= k < j && Lower(q)[k] == b;
      assert q[i..j][k - i] == b;
    }
  }

  lemma LiteralAtLower(q: Bytes, i: nat, lit: Bytes)
    ensures LiteralAt(Lower(q), i, lit) <==> LiteralAt(q, i, lit)
  {
  }

  lemma RunsLower(q: Bytes, i: nat, n: nat)
    ensures AlnumRun(Lower(q), i, n) <==> AlnumRun(q, i, n)
    ensures AlphaRun(Lower(q), i, n) <==> AlphaRun(q, i, n)
  {
  }

  lemma {:induction false} NonAmpLengthLower(q: Bytes, i: nat)
    requires i <= |q|
    ensures NonAmpLength(Lower(q), i) == NonAmpLength(q, i)
    decreases |q| - i
  {
    if i < |q| && q[i] != AMP {
      NonAmpLengthLower(q, i + 1);
    }
  }

  lemma {:induction false} UnitsLower(q: Bytes, k: nat)
    ensures Units(Lower(q), k) == Units(q, k)
    decreases |q| - k
  {
    RunsLower(q, k + 2, 24);
    if UnitAt(q, k) {
      UnitsLower(q, k + 27);
    }
  }

  lemma KeyedIdLower(q: Bytes, i: nat, key: Bytes)
    ensures KeyedId(Lower(q), i, key) == KeyedId(q, i, key)
  {
    LiteralAtLower(q, i, key);
    RunsLower(q, i + |key|, 32);
  }

  lemma AspTokenLower(q: Bytes, i: nat)
    ensures AspToken(Lower(q), i) == AspToken(q, i)
  {
    LiteralAtLower(q, i, ASPSESSIONID_KEY);
    RunsLower(q, i + 12, 8);
    RunsLower(q, i + 21, 24);
  }

  lemma ColdFusionTokenLower(q: Bytes, i: nat)
    requires i <= |q|
    ensures ColdFusionToken(Lower(q), i) == ColdFusionToken(q, i)
  {
    LiteralAtLower(q, i, CFID_KEY);
    if LiteralAt(q, i, CFID_KEY) {
      NonAmpLengthLower(q, i + 5);
      ColdFusionRestLower(q, i, NonAmpLength(q, i + 5));
    }
  }

  lemma ColdFusionRestLower(q: Bytes, i: nat, a: nat)
    requires i + 5 + a <= |q|
    ensures ColdFusionRest(Lower(q), i, a) == ColdFusionRest(q, i, a)
  {
    LiteralAtLower(q, i + 5 + a, CFTOKEN_KEY);
    if a > 0 && LiteralAt(q, i + 5 + a, CFTOKEN_KEY) {
      NonAmpLengthLower(q, i + 14 + a);
    }
  }

  lemma TokenEndLower(p: QueryPattern, q: Bytes, i: nat)
    requires i <= |q|
    ensures TokenEnd(p, Lower(q), i) == TokenEnd(p, q, i)
  {
    match p
    case JSessionId => KeyedIdLower(q, i, JSESSIONID_KEY);
    case PhpSessId => KeyedIdLower(q, i, PHPSESSID_KEY);
    case Sid => KeyedIdLower(q, i, SID_KEY);
    case AspSessionId => AspTokenLower(q, i);
    case ColdFusion => ColdFusionTokenLower(q, i);
  }

  lemma AspxTailLower(q: Bytes, j: nat)
    ensures AspxTail(Lower(q), j) <==> AspxTail(q, j)
  {
    forall m | j <= m <= |q|
      ensures AspxAt(Lower(q), j, m) <==> AspxAt(q, j, m)
    {
      LiteralAtLower(q, m, ASPX);
      LowerKeepsPunctuation(q, QUESTION, j, m);
      if m + 5 <= |q| {
        LowerKeepsPunctuation(q, LF, m + 5, |q|);
      }
    }
  }

  lemma QueryCutEndLower(p: QueryPattern, q: Bytes, i: nat)
    requires i <= |q|
    ensures QueryCutEnd(p, Lower(q), i) == QueryCutEnd(p, q, i)
  {
    TokenEndLower(p, q, i);
    CutAfterTokenLower(q, i, TokenEnd(p, q, i));
  }

  lemma CutAfterTokenLower(q: Bytes, i: nat, tok: Option<nat>)
    requires i <= |q|
    requires tok.Some? ==> i < tok.value <= |q|
    ensures CutAfterToken(Lower(q), i, tok) == CutAfterToken(q, i, tok)
  {
    LowerKeepsPunctuation(q, LF, 0, i);
    if tok.Some? && tok.value < |q| {
      LowerKeepsPunctuation(q, LF, tok.value + 1, |q|);
    }
  }

  lemma SegmentEndLower(p: PathPattern, q: Bytes, i: nat)
    ensures SegmentEnd(p, Lower(q), i) == SegmentEnd(p, q, i)
  {
    match p
    case PlainPathId => PlainSegmentEndLower(q, i);
    case GroupedPathId => GroupedSegmentEndLower(q, i);
  }

  lemma PlainSegmentEndLower(q: Bytes, i: nat)
    ensures PlainSegmentEnd(Lower(q), i) == PlainSegmentEnd(q, i)
  {
    RunsLower(q, i + 1, 24);
  }

  lemma GroupedSegmentEndLower(q: Bytes, i: nat)
    ensures GroupedSegmentEnd(Lower(q), i) == GroupedSegmentEnd(q, i)
  {
    UnitsLower(q, i + 1);
  }

  lemma PathCutEndLower(p: PathPattern, q: Bytes, i: nat)
    requires i <= |q|
    ensures PathCutEnd(p, Lower(q), i) == PathCutEnd(p, q, i)
  {
    LowerKeepsPunctuation(q, LF, 0, i);
    SegmentEndLower(p, q, i);
    var t := SegmentEnd(p, q, i);
    if t.Some? {
      AspxTailLower(q, t.value);
    }
  }

  lemma CutEndLower(p: Pattern, q: Bytes, i: nat)
    requires i <= |q|
    ensures CutEnd(p, Lower(q), i) == CutEnd(p, q, i)
  {
    match p
    case Query(qp) => QueryCutEndLower(qp, q, i);
    case Path(pp) => PathCutEndLower(pp, q, i);
  }

  lemma LastMatchLower(p: Pattern, q: Bytes)
    ensures LastMatch(p, Lower(q)) == LastMatch(p, q)
  {
    forall t | 0 <= t <= |q| ensures CutEnd(p, Lower(q), t) == CutEnd(p, q, t) {
      CutEndLower(p, q, t);
    }
    assert Cuts(p, Lower(q)) == Cuts(p, q);
  }

  lemma LowerSlices(q: Bytes, s: nat, e: nat)
    requires s <= e <= |q|
    ensures Lower(q)[..s] + Lower(q)[e..] == Lower(q[..s] + q[e..])
  {
    LowerConcat(q[..s], q[e..]);
  }

  /** Removing a session id commutes with ASCII lower-casing. */
  lemma StripLower(p: Pattern, q: Bytes)
    ensures Strip(p, Lower(q)) == Lower(Strip(p, q))
  {
    LastMatchLower(p, q);
    match LastMatch(p, q)
    case None =>
    case Some((s, e)) => LowerSlices(q, s, e);
  }

  /** The same for both loops: the patterns ignore ASCII case. */
  lemma {:induction false} StripAllLower(ps: seq<Pattern>, q: Bytes)
    ensures StripAll(ps, Lower(q)) == Lower(StripAll(ps, q))
    decreases |ps|
  {
    if |ps| > 0 {
      StripAllLower(ps[..|ps| - 1], q);
      StripLower(ps[|ps| - 1], StripAll(ps[..|ps| - 1], q));
    }
  }

  // Shapes of the unit-test vectors.

  /** Every letter of `s` is already lower case. */
  predicate IsLowerText(s: Bytes)
  {
    forall t | 0 <= t < |s| :: LowerByte(s[t]) == s[t]
  }

  lemma KeysAreLower()
    ensures IsLowerText(JSESSIONID_KEY) && IsLowerText(PHPSESSID_KEY) && IsLowerText(SID_KEY)
    ensures IsLowerText(ASPSESSIONID_KEY) && IsLowerText(ASPX)
    ensures JSESSIONID_KEY[10] == EQUALS && PHPSESSID_KEY[9] == EQUALS && SID_KEY[3] == EQUALS
  {
    StrLower("jsessionid=");
    StrLower("phpsessid=");
    StrLower("sid=");
    StrLower("aspsessionid");
    StrLower(".aspx");
  }

  /** A literal without upper-case letters. */
  lemma StrLower(s: string)
    requires forall t | 0 <= t < |s| :: !('A' <= s[t] <= 'Z') && s[t] < 256 as char
    ensures IsLowerText(Str(s))
  {
  }

  /** A lower-case literal written out in the text is found where it stands. */
  lemma LiteralAtItself(a: Bytes, lit: Bytes, b: Bytes)
    requires IsLowerText(lit)
    ensures LiteralAt(a + lit + b, |a|, lit)
  {
    var q := a + lit + b;
    forall t | 0 <= t < |lit| ensures LowerByte(q[|a| + t]) == lit[t] {
      assert q[|a| + t] == lit[t];
    }
  }

  /** Offset of the `=` inside each query token. */
  function EqualsOffset(qp: QueryPattern): nat
  {
    match qp
    case JSessionId => 10
    case PhpSessId => 9
    case Sid => 3
    case AspSessionId => 20
    case ColdFusion => 4
  }

  /** A query match at `t` has its `=` at a fixed distance. */
  lemma QueryMatchEquals(qp: QueryPattern, q: Bytes, t: nat)
    requires MatchesAt(Query(qp), q, t)
    ensures t + EqualsOffset(qp) < |q| && q[t + EqualsOffset(qp)] == EQUALS
  {
    KeysAreLower();
    match qp
    case JSessionId =>
      assert LowerByte(q[t + 10]) == JSESSIONID_KEY[10];
    case PhpSessId =>
      assert LowerByte(q[t + 9]) == PHPSESSID_KEY[9];
    case Sid =>
      assert LowerByte(q[t + 3]) == SID_KEY[3];
    case AspSessionId =>
    case ColdFusion =>
      assert LowerByte(q[t + 4]) == CFID_KEY[4];
  }

  predicate IsKeyed(qp: QueryPattern)
  {
    qp.JSessionId? || qp.PhpSessId? || qp.Sid?
  }

  /** The key of the three patterns made of a key and 32 letters or digits. */
  function IdKey(qp: QueryPattern): (key: Bytes)
    requires IsKeyed(qp)
    ensures |key| == EqualsOffset(qp) + 1 && IsLowerText(key)
  {
    KeysAreLower();
    if qp.JSessionId? then JSESSIONID_KEY else if qp.PhpSessId? then PHPSESSID_KEY else SID_KEY
  }

  /** The text a query is left with: the part before the token, and what followed `&` when one did. */
  function AfterAmp(tail: Bytes): Bytes
  {
    if tail == [] then [] else tail[1..]
  }

  /**
   * A key and a 32-character id, ending the query or followed by `&`, is
   * cut out together with that `&`, whatever pairs follow, as long as no
   * second copy of the key with 32 letters or digits comes after it
   * (`?jsessionid=…&x=y` becomes `?x=y`, `?one=two&jsessionid=…&x=y`
   * becomes `?one=two&x=y`, `?one=two&jsessionid=…` becomes `?one=two&`).
   */
  lemma KeyedIdStripped(qp: QueryPattern, prefix: Bytes, id: Bytes, tail: Bytes)
    requires IsKeyed(qp)
    requires LF !in prefix
    requires |id| == 32 && forall k | 0 <= k < 32 :: IsAlnum(id[k])
    requires tail == [] || (tail[0] == AMP && LF !in tail[1..])
    requires forall t | 0 <= t < |tail| :: KeyedId(tail, t, IdKey(qp)).None?
    ensures Strip(Query(qp), prefix + IdKey(qp) + id + tail) == prefix + AfterAmp(tail)
  {
    var key := IdKey(qp);
    var q := prefix + key + id + tail;
    var s := |prefix|;
    var e := KeyedIdCut(qp, prefix, id, tail);
    NoKeyedMatchAfter(qp, prefix, id, tail);
    StripAtLastMatch(Query(qp), q, s);
    assert q[..s] == prefix;
    assert q[e..] == AfterAmp(tail);
  }

  /**
   * No match of a keyed pattern starts after a written-out key and id:
   * inside the id there is no `=`, a key cannot run across the `&` that
   * follows the id, and the tail holds no key with 32 letters or digits.
   */
  lemma NoKeyedMatchAfter(qp: QueryPattern, prefix: Bytes, id: Bytes, tail: Bytes)
    requires IsKeyed(qp)
    requires |id| == 32 && forall k | 0 <= k < 32 :: IsAlnum(id[k])
    requires tail == [] || tail[0] == AMP
    requires forall t | 0 <= t < |tail| :: KeyedId(tail, t, IdKey(qp)).None?
    ensures var q := prefix + IdKey(qp) + id + tail;
      forall t | |prefix| < t <= |q| :: !MatchesAt(Query(qp), q, t)
  {
    var key := IdKey(qp);
    var front := prefix + key + id;
    var q := front + tail;
    var s := |prefix|;
    var j := |front|;
    KeyWithoutAmp(qp);
    KeyEqualsLast(qp);
    forall t | s < t <= |q| ensures !MatchesAt(Query(qp), q, t) {
      var x := t + |key| - 1;
      if x < j {
        IdWithoutEquals(id, q, s + |key|, x);
        NoKeyBeforeAlnum(q, t, key);
      } else if t < j {
        assert tail != [] ==> q[j] == tail[0];
        KeyAcrossAmp(q, t, j, key);
      } else {
        KeyedIdShift(front, tail, t - j, key);
      }
    }
  }

  /** Whether a key and an id start at a place depends only on the text from there on. */
  lemma KeyedIdShift(a: Bytes, b: Bytes, t: nat, key: Bytes)
    requires t <= |b|
    ensures KeyedId(a + b, |a| + t, key).None? <==> KeyedId(b, t, key).None?
  {
    var q := a + b;
    var i := |a| + t;
    if LiteralAt(q, i, key) {
      forall k | 0 <= k < |key| ensures LowerByte(b[t + k]) == key[k] {
        assert q[i + k] == b[t + k];
      }
    }
    if LiteralAt(b, t, key) {
      forall k | 0 <= k < |key| ensures LowerByte(q[i + k]) == key[k] {
        assert q[i + k] == b[t + k];
      }
    }
    if AlnumRun(q, i + |key|, 32) {
      forall x | t + |key| <= x < t + |key| + 32 ensures IsAlnum(b[x]) {
        assert q[|a| + x] == b[x];
      }
    }
    if AlnumRun(b, t + |key|, 32) {
      forall x | i + |key| <= x < i + |key| + 32 ensures IsAlnum(q[x]) {
        assert q[x] == b[x - |a|];
      }
    }
  }

  lemma IdWithoutEquals(id: Bytes, q: Bytes, at: nat, x: nat)
    requires forall k | 0 <= k < |id| :: IsAlnum(id[k])
    requires at <= x < at + |id| <= |q| && q[at..at + |id|] == id
    ensures IsAlnum(q[x])
  {
    assert q[x] == id[x - at];
  }

  /** A key ending in `=` cannot be read where a letter or digit stands in place of its `=`. */
  lemma NoKeyBeforeAlnum(q: Bytes, t: nat, key: Bytes)
    requires |key| > 0 && key[|key| - 1] == EQUALS
    requires t + |key| - 1 < |q| && IsAlnum(q[t + |key| - 1])
    ensures !LiteralAt(q, t, key)
  {
    assert LowerByte(q[t + |key| - 1]) != EQUALS;
  }

  /** A key without `&` cannot be read across an `&`. */
  lemma KeyAcrossAmp(q: Bytes, t: nat, j: nat, key: Bytes)
    requires AMP !in key && t <= j < t + |key| && j <= |q| && (j == |q| || q[j] == AMP)
    ensures !LiteralAt(q, t, key)
  {
    if j < |q| {
      assert LowerByte(q[j]) == AMP;
      assert key[j - t] != AMP;
    }
  }

  /** No key holds an `&`. */
  lemma KeyWithoutAmp(qp: QueryPattern)
    requires IsKeyed(qp)
    ensures AMP !in IdKey(qp)
  {
    StrAvoids("jsessionid=", AMP);
    StrAvoids("phpsessid=", AMP);
    StrAvoids("sid=", AMP);
  }

  lemma StrAvoids(s: string, b: Byte)
    requires forall t | 0 <= t < |s| :: s[t] < 256 as char && s[t] as int != b
    ensures b !in Str(s)
  {
    var w := Str(s);
    forall t | 0 <= t < |s| ensures w[t] != b {
      assert w[t] == s[t] as int;
    }
  }

  /** Where the cut of a written-out key and id ends. */
  lemma KeyedIdCut(qp: QueryPattern, prefix: Bytes, id: Bytes, tail: Bytes) returns (e: nat)
    requires IsKeyed(qp)
    requires LF !in prefix
    requires |id| == 32 && forall k | 0 <= k < 32 :: IsAlnum(id[k])
    requires tail == [] || (tail[0] == AMP && LF !in tail[1..])
    ensures var q := prefix + IdKey(qp) + id + tail;
      && CutEnd(Query(qp), q, |prefix|) == Some(e)
      && e == |q| - |AfterAmp(tail)|
  {
    var key := IdKey(qp);
    var q := prefix + key + id + tail;
    var s := |prefix|;
    var j := s + |key| + 32;
    LiteralAtItself(prefix, key, id + tail);
    assert prefix + key + (id + tail) == q;
    assert AlnumRun(q, s + |key|, 32) by {
      forall x | s + |key| <= x < j ensures IsAlnum(q[x]) {
        assert q[x] == id[x - s - |key|];
      }
    }
    assert TokenEnd(qp, q, s) == Some(j);
    assert q[..s] == prefix;
    if tail != [] {
      assert q[j] == AMP;
      assert q[j + 1..] == tail[1..];
      e := j + 1;
    } else {
      e := j;
    }
  }

  /**
   * A key followed by more than 32 letters or digits is left alone when
   * it holds the only `=` (`?jsessionid=` and 33 characters is kept).
   */
  lemma LongIdKept(qp: QueryPattern, prefix: Bytes, id: Bytes, rest: Bytes)
    requires IsKeyed(qp)
    requires EQUALS !in prefix && EQUALS !in rest
    requires |id| == 33 && forall k | 0 <= k < 33 :: IsAlnum(id[k])
    ensures Strip(Query(qp), prefix + IdKey(qp) + id + rest) == prefix + IdKey(qp) + id + rest
  {
    var key := IdKey(qp);
    var q := prefix + key + id + rest;
    var s := |prefix|;
    forall t | 0 <= t <= |q| ensures !MatchesAt(Query(qp), q, t) {
      if t == s {
        LongIdNoMatchAtKey(qp, prefix, id, rest);
      } else if MatchesAt(Query(qp), q, t) {
        QueryMatchEquals(qp, q, t);
        OnlyEqualsOfKey(qp, prefix, id, rest, t + EqualsOffset(qp));
      }
    }
    StripUnchanged(Query(qp), q);
  }

  /** The key's own `=` is its last byte and its only one. */
  lemma KeyEqualsLast(qp: QueryPattern)
    requires IsKeyed(qp)
    ensures IdKey(qp)[|IdKey(qp)| - 1] == EQUALS && EQUALS !in IdKey(qp)[..|IdKey(qp)| - 1]
  {
    KeysAreLower();
    StrEqualsLast("jsessionid=");
    StrEqualsLast("phpsessid=");
    StrEqualsLast("sid=");
  }

  lemma StrEqualsLast(s: string)
    requires |s| >= 1 && s[|s| - 1] == '=' && forall t | 0 <= t < |s| - 1 :: s[t] != '='
    requires forall t | 0 <= t < |s| :: s[t] < 256 as char
    ensures EQUALS !in Str(s)[..|s| - 1]
  {
    var b := Str(s);
    forall t | 0 <= t < |s| - 1 ensures b[t] != EQUALS {
      assert b[t] == s[t] as int;
    }
  }

  lemma OnlyEqualsOfKey(qp: QueryPattern, prefix: Bytes, id: Bytes, rest: Bytes, x: nat)
    requires IsKeyed(qp)
    requires EQUALS !in prefix && EQUALS !in rest
    requires forall k | 0 <= k < |id| :: IsAlnum(id[k])
    requires x < |prefix + IdKey(qp) + id + rest| && (prefix + IdKey(qp) + id + rest)[x] == EQUALS
    ensures x == |prefix| + |IdKey(qp)| - 1
  {
    var key := IdKey(qp);
    var q := prefix + key + id + rest;
    var s := |prefix|;
    KeyEqualsLast(qp);
    assert key == key[..|key| - 1] + [EQUALS];
  }

  lemma LongIdNoMatchAtKey(qp: QueryPattern, prefix: Bytes, id: Bytes, rest: Bytes)
    requires IsKeyed(qp)
    requires |id| == 33 && forall k | 0 <= k < 33 :: IsAlnum(id[k])
    ensures !MatchesAt(Query(qp), prefix + IdKey(qp) + id + rest, |prefix|)
  {
    var key := IdKey(qp);
    var q := prefix + key + id + rest;
    var j := |prefix| + |key| + 32;
    assert q[j] == id[32];
    assert TokenEnd(qp, q, |prefix|).None? || TokenEnd(qp, q, |prefix|) == Some(j);
  }

  /** The path loop is the grouped pattern, then the plain one. */
  lemma StripAllPaths(q: Bytes)
    ensures StripAll(PathPatterns, q) == Strip(Path(PlainPathId), Strip(Path(GroupedPathId), q))
  {
    assert PathPatterns[..1][..0] == [];
    assert StripAll(PathPatterns[..1], q) == Strip(Path(GroupedPathId), q);
  }

  /** A path pattern leaves a text without `(` alone. */
  lemma PathPatternNeedsParen(pp: PathPattern, q: Bytes)
    requires LPAREN !in q
    ensures Strip(Path(pp), q) == q
  {
    forall t | 0 <= t <= |q| ensures !MatchesAt(Path(pp), q, t) {
      if MatchesAt(Path(pp), q, t) {
        PathMatchHasParen(pp, q, t);
      }
    }
    StripUnchanged(Path(pp), q);
  }

  /** What follows the segment: a name of at least one byte without `?`, `.aspx`, then anything but a line feed. */
  predicate AspxRest(rest: Bytes, name: Bytes, tail: Bytes)
  {
    rest == name + ASPX + tail && |name| >= 1 && QUESTION !in name && LF !in tail
  }

  lemma AspxRestIsTail(front: Bytes, rest: Bytes, name: Bytes, tail: Bytes)
    requires AspxRest(rest, name, tail)
    ensures AspxTail(front + rest, |front|)
  {
    KeysAreLower();
    var q := front + rest;
    var j := |front|;
    var m := j + |name|;
    assert q == (front + name) + ASPX + tail;
    LiteralAtItself(front + name, ASPX, tail);
    assert q[j..m] == name;
    assert q[m + 5..] == tail;
    assert AspxAt(q, j, m);
  }

  /** The prefix the leading group of a path pattern may take. */
  predicate PathPrefix(prefix: Bytes)
  {
    |prefix| >= 1 && prefix[|prefix| - 1] == SLASH && LF !in prefix
  }

  /** `(` and 24 letters or digits and `)/`: the plain segment. */
  function PlainSegment(id: Bytes): Bytes
  {
    [LPAREN] + id + [RPAREN, SLASH]
  }

  predicate IsIdText(id: Bytes)
  {
    |id| == 24 && forall k | 0 <= k < 24 :: IsAlnum(id[k])
  }

  lemma PlainSegmentCut(prefix: Bytes, id: Bytes, rest: Bytes, name: Bytes, tail: Bytes)
    requires PathPrefix(prefix) && IsIdText(id) && AspxRest(rest, name, tail)
    ensures CutEnd(Path(PlainPathId), prefix + PlainSegment(id) + rest, |prefix|) == Some(|prefix| + 27)
  {
    var q := prefix + PlainSegment(id) + rest;
    var s := |prefix|;
    assert q[..s] == prefix;
    assert q[s - 1] == SLASH;
    assert AlnumRun(q, s + 1, 24) by {
      forall x | s + 1 <= x < s + 25 ensures IsAlnum(q[x]) {
        assert q[x] == id[x - s - 1];
      }
    }
    assert SegmentEnd(PlainPathId, q, s) == Some(s + 27);
    AspxRestIsTail(prefix + PlainSegment(id), rest, name, tail);
    assert q == (prefix + PlainSegment(id)) + rest;
  }

  /**
   * A plain bracketed id between a slash and an `.aspx` name is cut out
   * (`/(4hqa0555fwsecu455xqckv45)/mileg.aspx` becomes `/mileg.aspx`).
   */
  lemma PlainSegmentStripped(prefix: Bytes, id: Bytes, rest: Bytes, name: Bytes, tail: Bytes)
    requires PathPrefix(prefix) && IsIdText(id) && AspxRest(rest, name, tail)
    requires LPAREN !in prefix && LPAREN !in rest
    ensures StripAll(PathPatterns, prefix + PlainSegment(id) + rest) == prefix + rest
  {
    var q := prefix + PlainSegment(id) + rest;
    var s := |prefix|;
    // Only the segment's own bracket opens one.
    forall t | 0 <= t < |q| && t != s ensures q[t] != LPAREN {
      if t < s {
        assert q[t] == prefix[t];
      } else if t < s + 25 {
        assert q[t] == id[t - s - 1];
      } else if t >= s + 27 {
        assert q[t] == rest[t - s - 27];
      }
    }
    // The grouped pattern would need a second bracket after the first.
    forall t | 0 <= t <= |q| ensures !MatchesAt(Path(GroupedPathId), q, t) {
      if MatchesAt(Path(GroupedPathId), q, t) {
        PathMatchHasParen(GroupedPathId, q, t);
      }
    }
    StripUnchanged(Path(GroupedPathId), q);
    PlainSegmentCut(prefix, id, rest, name, tail);
    forall t | s < t <= |q| ensures !MatchesAt(Path(PlainPathId), q, t) {
      if MatchesAt(Path(PlainPathId), q, t) {
        PathMatchHasParen(PlainPathId, q, t);
      }
    }
    StripAtLastMatch(Path(PlainPathId), q, s);
    assert q[..s] == prefix && q[s + 27..] == rest;
    StripAllPaths(q);
  }

  /** `[a-z]\([0-9a-z]{24}\)` as a text of its own. */
  predicate IsUnitText(u: Bytes)
  {
    UnitAt(u, 0) && |u| == 27
  }

  predicate AllUnits(us: seq<Bytes>)
  {
    forall k | 0 <= k < |us| :: IsUnitText(us[k])
  }

  /** Units written one after another. */
  function Block(us: seq<Bytes>): Bytes
  {
    if |us| == 0 then [] else us[0] + Block(us[1..])
  }

  lemma {:induction false} BlockLength(us: seq<Bytes>)
    requires AllUnits(us)
    ensures |Block(us)| == 27 * |us|
  {
    if |us| > 0 {
      BlockLength(us[1..]);
    }
  }

  /** The greedy count of units sees exactly the units written out, when `)` follows them. */
  lemma {:induction false} UnitsOfBlock(q: Bytes, b: nat, us: seq<Bytes>)
    requires AllUnits(us)
    requires b + 27 * |us| < |q| && q[b + 27 * |us|] == RPAREN
    requires q[b..b + 27 * |us|] == Block(us)
    ensures Units(q, b) == |us|
    decreases |us|
  {
    BlockLength(us);
    if |us| == 0 {
      assert !UnitAt(q, b);
    } else {
      BlockLength(us[1..]);
      var u := us[0];
      assert Block(us) == u + Block(us[1..]);
      assert q[b..b + 27] == Block(us)[..27] == u;
      forall x | b + 2 <= x < b + 26 ensures IsAlnum(q[x]) {
        assert q[x] == u[x - b];
      }
      assert UnitAt(q, b) by {
        assert q[b] == u[0] && q[b + 1] == u[1] && q[b + 26] == u[26];
      }
      assert q[b + 27..b + 27 + 27 * |us[1..]|] == Block(us[1..]);
      UnitsOfBlock(q, b + 27, us[1..]);
    }
  }

  /** Inside units every `(` comes right after a letter. */
  lemma {:induction false} BlockParens(us: seq<Bytes>, x: nat)
    requires AllUnits(us)
    requires x < |Block(us)| && Block(us)[x] == LPAREN
    ensures x >= 1 && IsAlpha(Block(us)[x - 1])
    decreases |us|
  {
    BlockLength(us);
    var u := us[0];
    assert Block(us) == u + Block(us[1..]);
    if x < 27 {
      assert u[x] == LPAREN;
    } else {
      BlockParens(us[1..], x - 27);
    }
  }

  function GroupedSegment(us: seq<Bytes>): Bytes
  {
    [LPAREN] + Block(us) + [RPAREN, SLASH]
  }

  lemma GroupedSegmentCut(prefix: Bytes, us: seq<Bytes>, rest: Bytes, name: Bytes, tail: Bytes)
    requires PathPrefix(prefix) && |us| >= 1 && AllUnits(us) && AspxRest(rest, name, tail)
    ensures |GroupedSegment(us)| == 27 * |us| + 3
    ensures CutEnd(Path(GroupedPathId), prefix + GroupedSegment(us) + rest, |prefix|)
      == Some(|prefix| + 27 * |us| + 3)
  {
    BlockLength(us);
    var q := prefix + GroupedSegment(us) + rest;
    var s := |prefix|;
    var n := |us|;
    assert q[..s] == prefix;
    assert q[s - 1] == SLASH;
    assert q[s + 1..s + 1 + 27 * n] == Block(us);
    assert q[s + 1 + 27 * n] == RPAREN && q[s + 2 + 27 * n] == SLASH;
    UnitsOfBlock(q, s + 1, us);
    assert SegmentEnd(GroupedPathId, q, s) == Some(s + 27 * n + 3);
    AspxRestIsTail(prefix + GroupedSegment(us), rest, name, tail);
    assert q == (prefix + GroupedSegment(us)) + rest;
  }

  /**
   * One or more units in brackets between a slash and an `.aspx` name are
   * cut out, and the plain pattern then finds nothing
   * (`/(S(4hqa0555fwsecu455xqckv45))/mileg.aspx` becomes `/mileg.aspx`).
   */
  lemma GroupedSegmentStripped(prefix: Bytes, us: seq<Bytes>, rest: Bytes, name: Bytes, tail: Bytes)
    requires PathPrefix(prefix) && |us| >= 1 && AllUnits(us) && AspxRest(rest, name, tail)
    requires LPAREN !in prefix && LPAREN !in rest
    ensures StripAll(PathPatterns, prefix + GroupedSegment(us) + rest) == prefix + rest
  {
    var q := prefix + GroupedSegment(us) + rest;
    var s := |prefix|;
    var n := |us|;
    GroupedSegmentCut(prefix, us, rest, name, tail);
    var e := s + 27 * n + 3;
    forall t | s < t <= |q| ensures !MatchesAt(Path(GroupedPathId), q, t) {
      if MatchesAt(Path(GroupedPathId), q, t) {
        PathMatchHasParen(GroupedPathId, q, t);
        NoSlashBeforeInnerParen(prefix, us, rest, t);
      }
    }
    StripAtLastMatch(Path(GroupedPathId), q, s);
    assert q[..s] == prefix && q[e..] == rest;
    assert LPAREN !in prefix + rest;
    PathPatternNeedsParen(PlainPathId, prefix + rest);
    StripAllPaths(q);
  }

  /** Past the segment's opening bracket, every `(` follows a letter. */
  lemma NoSlashBeforeInnerParen(prefix: Bytes, us: seq<Bytes>, rest: Bytes, t: nat)
    requires |us| >= 1 && AllUnits(us) && LPAREN !in rest
    requires |prefix| < t < |prefix + GroupedSegment(us) + rest|
    requires (prefix + GroupedSegment(us) + rest)[t] == LPAREN
    ensures IsAlpha((prefix + GroupedSegment(us) + rest)[t - 1])
  {
    BlockLength(us);
    var q := prefix + GroupedSegment(us) + rest;
    var s := |prefix|;
    var n := |us|;
    if t <= s + 27 * n {
      var x := t - s - 1;
      assert q[t] == Block(us)[x];
      BlockParens(us, x);
      assert q[t - 1] == Block(us)[x - 1];
    }
  }
}
