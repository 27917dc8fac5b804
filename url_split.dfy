/**
 * The URL splitter: the generic-syntax splitting expression (scheme,
 * authority, path, query, fragment) with the scheme restricted to a
 * letter followed by letters, digits, `+`, `-` or `.`, a repair rule for
 * `http` URLs written without `//`, and the split of an authority into
 * host and port at `:`.
 */
module UrlSplit {
  import opened Text
  import opened Errors

  datatype SplitResult = SplitResult(
    scheme: Option<Bytes>,
    netloc: Option<Bytes>,
    path: Option<Bytes>,
    query: Option<Bytes>,
    fragment: Option<Bytes>)

  // ---------------------------------------------------------------------
  // Searching
  // ---------------------------------------------------------------------

  /** Index of the first byte of `s` that is in `stops`, or `|s|` when there is none. */
  function FirstOf(s: Bytes, stops: set<Byte>): (k: nat)
    ensures k <= |s|
    ensures k < |s| ==> s[k] in stops
  {
    if |s| == 0 then 0
    else if s[0] in stops then 0
    else 1 + FirstOf(s[1..], stops)
  }

  /** No byte before the one `FirstOf` finds is a stop byte. */
  lemma {:induction false} FirstOfBefore(s: Bytes, stops: set<Byte>)
    ensures forall i | 0 <= i < FirstOf(s, stops) :: s[i] !in stops
    decreases |s|
  {
    if |s| > 0 && s[0] !in stops {
      FirstOfBefore(s[1..], stops);
      assert forall i | 1 <= i < FirstOf(s, stops) :: s[i] == s[1..][i - 1];
    }
  }

  /** A position with the two properties above is the one `FirstOf` finds. */
  lemma {:induction false} FirstOfUnique(s: Bytes, stops: set<Byte>, k: nat)
    requires k <= |s| && (k < |s| ==> s[k] in stops)
    requires forall i | 0 <= i < k :: s[i] !in stops
    ensures FirstOf(s, stops) == k
    decreases |s|
  {
    if |s| > 0 && k > 0 {
      assert forall i | 0 <= i < k - 1 :: s[1..][i] == s[i + 1];
      FirstOfUnique(s[1..], stops, k - 1);
    }
  }

  /** `FirstOf` skips a prefix holding none of `stops`. */
  lemma FirstOfSkip(prefix: Bytes, s: Bytes, stops: set<Byte>)
    requires forall i | 0 <= i < |prefix| :: prefix[i] !in stops
    ensures FirstOf(prefix + s, stops) == |prefix| + FirstOf(s, stops)
  {
    var t := prefix + s;
    var k := |prefix| + FirstOf(s, stops);
    FirstOfBefore(s, stops);
    assert forall i | |prefix| <= i < k :: t[i] == s[i - |prefix|];
    FirstOfUnique(t, stops, k);
  }

  lemma IndexOfFirstOf(s: Bytes, b: Byte)
    requires b in s
    ensures IndexOf(s, b) == FirstOf(s, {b})
  {
    var k := IndexOf(s, b);
    assert forall i | 0 <= i < k :: s[i] == s[..k][i];
    FirstOfUnique(s, {b}, k);
  }

  // ---------------------------------------------------------------------
  // Scheme
  // ---------------------------------------------------------------------

  predicate IsSchemeByte(b: Byte)
  {
    IsAlnum(b) || b == PLUS || b == MINUS || b == DOT
  }

  /** `[a-zA-Z][a-zA-Z0-9+.-]*`: a letter, then scheme bytes. */
  predicate SchemeShaped(s: Bytes)
  {
    |s| >= 1 && IsAlpha(s[0]) && forall i | 0 <= i < |s| :: IsSchemeByte(s[i])
  }

  /**
   * `([a-zA-Z][a-zA-Z0-9+.-]*):` at the start of `url`: the length of the
   * scheme when present. Since `:` is not a scheme byte, the scheme ends
   * at the first `:`.
   */
  function SchemeLength(url: Bytes): (r: Option<nat>)
    ensures r.Some? ==> r.value < |url| && url[r.value] == COLON && SchemeShaped(url[..r.value])
  {
    var k := FirstOf(url, {COLON});
    if k < |url| && SchemeShaped(url[..k]) then Some(k) else None
  }

  /** A leading scheme is recognised exactly when it has the required shape. */
  lemma SchemeLengthComplete(scheme: Bytes, rest: Bytes)
    requires SchemeShaped(scheme)
    ensures SchemeLength(scheme + [COLON] + rest) == Some(|scheme|)
  {
    var url := scheme + [COLON] + rest;
    assert forall i | 0 <= i < |scheme| :: url[i] == scheme[i];
    FirstOfUnique(url, {COLON}, |scheme|);
    assert url[..|scheme|] == scheme;
  }

  /** The optional leading scheme, and the text after its `:`. */
  function SplitScheme(url: Bytes): (r: (Option<Bytes>, Bytes))
    ensures r.0.Some? <==> SchemeLength(url).Some?
    ensures r.0.Some? ==> SchemeShaped(r.0.value) && url == r.0.value + [COLON] + r.1
    ensures r.0.None? ==> r.1 == url
  {
    match SchemeLength(url)
    case Some(k) =>
      assert url == url[..k] + [COLON] + url[k + 1..];
      (Some(url[..k]), url[k + 1..])
    case None => (None, url)
  }

  /** A scheme-shaped prefix followed by `:` is taken as the scheme. */
  lemma SplitSchemeOf(scheme: Bytes, rest: Bytes)
    requires SchemeShaped(scheme)
    ensures SplitScheme(scheme + [COLON] + rest) == (Some(scheme), rest)
  {
    SchemeLengthComplete(scheme, rest);
    var url := scheme + [COLON] + rest;
    assert url[..|scheme|] == scheme;
    assert url[|scheme| + 1..] == rest;
  }

  /** A text that does not start with a scheme has none. */
  lemma SplitSchemeNone(url: Bytes)
    requires forall scheme, rest | url == scheme + [COLON] + rest :: !SchemeShaped(scheme)
    ensures SplitScheme(url) == (None, url)
  {
    if SchemeLength(url).Some? {
      var k := SchemeLength(url).value;
      assert url == url[..k] + [COLON] + url[k + 1..];
    }
  }

  /** Length of the `scheme:` prefix, 0 without a scheme. */
  function SchemePrefixLength(url: Bytes): (n: nat)
    ensures n <= |url|
  {
    match SchemeLength(url)
    case Some(k) => k + 1
    case None => 0
  }

  /** The `scheme:` prefix holds neither `#` nor `?`. */
  lemma SchemePrefixClean(url: Bytes)
    ensures forall i | 0 <= i < SchemePrefixLength(url) :: url[i] != HASH && url[i] != QUESTION
  {
    match SchemeLength(url)
    case Some(k) =>
      assert forall i | 0 <= i < k :: url[i] == url[..k][i];
    case None =>
  }

  // ---------------------------------------------------------------------
  // Fragment, authority, path, query
  // ---------------------------------------------------------------------

  /** The first `#` of the text after the scheme is the first `#` of the URL. */
  lemma FragmentStartSkipsScheme(url: Bytes)
    ensures SchemePrefixLength(url) + FirstOf(url[SchemePrefixLength(url)..], {HASH}) == FirstOf(url, {HASH})
  {
    var n := SchemePrefixLength(url);
    SchemePrefixClean(url);
    assert url == url[..n] + url[n..];
    assert forall i | 0 <= i < n :: url[..n][i] == url[i];
    FirstOfSkip(url[..n], url[n..], {HASH});
  }

  /**
   * `(#(.*))?`: everything after the first `#`, when there is one. The
   * scheme cannot hold a `#`, so this is the first `#` after it.
   */
  function FragmentOf(url: Bytes): (r: Option<Bytes>)
  {
    var f := FirstOf(url, {HASH});
    if f < |url| then Some(url[f + 1..]) else None
  }

  /** The `//` that opens an authority, and the scheme name `http`. */
  const DOUBLE_SLASH: Bytes := [SLASH, SLASH]
  const HTTP_NAME: Bytes := [104, 116, 116, 112]

  /** The text between the `scheme:` prefix and the first `#`: it holds no `#`, and the fragment or the end follows it. */
  function HierPart(url: Bytes): (h: Bytes)
    ensures SchemePrefixLength(url) <= FirstOf(url, {HASH})
    ensures HASH !in h
    ensures SchemePrefixLength(url) + |h| == FirstOf(url, {HASH})
    ensures h <= url[SchemePrefixLength(url)..]
  {
    FragmentStartSkipsScheme(url);
    FirstOfBefore(url, {HASH});
    url[SchemePrefixLength(url)..FirstOf(url, {HASH})]
  }

  /**
   * Where the authority ends: after a leading `//`, at the first `/` or
   * `?` that follows; 0 without a leading `//`.
   */
  function AuthorityEnd(hier: Bytes): (n: nat)
    ensures n <= |hier|
    ensures StartsWith(hier, DOUBLE_SLASH) ==> 2 <= n
  {
    if StartsWith(hier, DOUBLE_SLASH) then 2 + FirstOf(hier[2..], {SLASH, QUESTION}) else 0
  }

  /** The authority holds neither `/` nor `?`, and neither does what precedes it. */
  lemma AuthorityEndClean(hier: Bytes)
    ensures forall i | 0 <= i < AuthorityEnd(hier) :: hier[i] != QUESTION
    ensures StartsWith(hier, DOUBLE_SLASH) ==> forall i | 2 <= i < AuthorityEnd(hier) :: hier[i] != SLASH
  {
    if StartsWith(hier, DOUBLE_SLASH) {
      FirstOfBefore(hier[2..], {SLASH, QUESTION});
      assert forall i | 2 <= i < AuthorityEnd(hier) :: hier[i] == hier[2..][i - 2];
      assert hier[0] == SLASH && hier[1] == SLASH;
    }
  }

  /**
   * The part between scheme and fragment: an authority after a leading
   * `//` up to the first `/` or `?` (absent when empty), then the path up
   * to the first `?`, then the query after it (absent when empty).
   */
  function SplitHier(hier: Bytes): (Option<Bytes>, Bytes, Option<Bytes>)
  {
    var n := AuthorityEnd(hier);
    var netloc := if StartsWith(hier, DOUBLE_SLASH) then NonEmpty(hier[2..n]) else None;
    var pathAndQuery := hier[n..];
    var q := FirstOf(pathAndQuery, {QUESTION});
    (netloc, pathAndQuery[..q], if q < |pathAndQuery| then NonEmpty(pathAndQuery[q + 1..]) else None)
  }

  /**
   * The authority is present only after `//`, and then is non-empty and
   * holds neither `/` nor `?`; the path holds no `?`.
   */
  lemma SplitHierShape(hier: Bytes)
    ensures QUESTION !in SplitHier(hier).1
    ensures SplitHier(hier).0.Some? ==> StartsWith(hier, DOUBLE_SLASH)
    ensures SplitHier(hier).0.Some? ==> var a := SplitHier(hier).0.value;
      |a| > 0 && SLASH !in a && QUESTION !in a
  {
    var n := AuthorityEnd(hier);
    var pathAndQuery := hier[n..];
    var q := FirstOf(pathAndQuery, {QUESTION});
    FirstOfBefore(pathAndQuery, {QUESTION});
    assert forall i | 0 <= i < q :: pathAndQuery[..q][i] == pathAndQuery[i];
    if StartsWith(hier, DOUBLE_SLASH) {
      AuthorityEndClean(hier);
      assert forall i | 0 <= i < n - 2 :: hier[2..n][i] == hier[i + 2];
    }
  }

  /** When the first `n` bytes hold no `?`, the query search can start at `n`. */
  lemma QueryAfterAuthority(hier: Bytes, n: nat)
    requires n <= |hier|
    requires forall i | 0 <= i < n :: hier[i] != QUESTION
    ensures FirstOf(hier[n..], {QUESTION}) < |hier[n..]| <==> QUESTION in hier
    ensures FirstOf(hier[n..], {QUESTION}) < |hier[n..]|
      ==> hier[n..][FirstOf(hier[n..], {QUESTION}) + 1..] == hier[IndexOf(hier, QUESTION) + 1..]
  {
    var rest := hier[n..];
    var q := FirstOf(rest, {QUESTION});
    SliceSplit(hier, n, |hier|);
    assert hier[..|hier|] == hier;
    assert forall i | 0 <= i < n :: hier[..n][i] == hier[i];
    FirstOfSkip(hier[..n], rest, {QUESTION});
    if QUESTION in hier {
      IndexOfFirstOf(hier, QUESTION);
    } else {
      assert q == |rest|;
    }
  }

  /** The query is everything after the first `?`, absent when empty or when there is no `?`. */
  lemma SplitHierQuery(hier: Bytes)
    ensures QUESTION !in hier ==> SplitHier(hier).2 == None
    ensures QUESTION in hier ==> SplitHier(hier).2 == NonEmpty(hier[IndexOf(hier, QUESTION) + 1..])
  {
    var n := AuthorityEnd(hier);
    var rest := hier[n..];
    var q := FirstOf(rest, {QUESTION});
    assert SplitHier(hier).2 == if q < |rest| then NonEmpty(rest[q + 1..]) else None;
    AuthorityEndClean(hier);
    QueryAfterAuthority(hier, n);
  }

  // ---------------------------------------------------------------------
  // The repair for http URLs written without `//`
  // ---------------------------------------------------------------------

  /** Length of the leading run of `b`. */
  function LeadingRun(s: Bytes, b: Byte): (k: nat)
    ensures k <= |s|
    ensures forall i | 0 <= i < k :: s[i] == b
    ensures k < |s| ==> s[k] != b
  {
    if |s| > 0 && s[0] == b then 1 + LeadingRun(s[1..], b) else 0
  }

  /** Drops every leading occurrence of `b` (`trim_start_matches`). */
  function TrimStart(s: Bytes, b: Byte): (r: Bytes)
  {
    s[LeadingRun(s, b)..]
  }

  /** `split_once('/')`: the text before the first `/` and the text after it. */
  function SplitOnceSlash(p: Bytes): (r: Option<(Bytes, Bytes)>)
    ensures r.Some? <==> SLASH in p
    ensures r.Some? ==> SLASH !in r.value.0 && p == r.value.0 + [SLASH] + r.value.1
  {
    if SLASH in p then
      var k := IndexOf(p, SLASH);
      assert p == p[..k] + [SLASH] + p[k + 1..];
      Some((p[..k], p[k + 1..]))
    else None
  }

  predicate IsHttpLike(scheme: Option<Bytes>)
  {
    scheme.Some? && StartsWith(scheme.value, HTTP_NAME)
  }

  /**
   * The repair for `http`-like schemes written without `//`: when the
   * scheme starts with `http`, no authority was found and a path is
   * present, the path minus its leading slashes is split at its first
   * `/` into authority and `/`-prefixed path (or is all authority, with
   * path `/`).
   */
  function HttpRepair(scheme: Option<Bytes>, netloc: Option<Bytes>, path: Option<Bytes>): (r: (Option<Bytes>, Option<Bytes>))
  {
    if IsHttpLike(scheme) && netloc.None? && path.Some? then
      var p := TrimStart(path.value, SLASH);
      match SplitOnceSlash(p)
      case Some((host, rest)) => (Some(host), Some([SLASH] + rest))
      case None => (Some(p), Some([SLASH]))
    else (netloc, path)
  }

  /**
   * When the repair fires, the new authority holds no `/`, and it and the
   * new path (which starts with `/`) give back the slash-trimmed path,
   * with a `/` added when that held none.
   */
  lemma HttpRepairShape(scheme: Option<Bytes>, path: Bytes)
    requires IsHttpLike(scheme)
    ensures HttpRepair(scheme, None, Some(path)).0.Some?
    ensures HttpRepair(scheme, None, Some(path)).1.Some?
    ensures SLASH !in HttpRepair(scheme, None, Some(path)).0.value
    ensures HttpRepair(scheme, None, Some(path)).1.value[0] == SLASH
    ensures HttpRepair(scheme, None, Some(path)).0.value + HttpRepair(scheme, None, Some(path)).1.value
      == TrimStart(path, SLASH) + (if SLASH in TrimStart(path, SLASH) then [] else [SLASH])
  {
    var t := TrimStart(path, SLASH);
    var r := HttpRepair(scheme, None, Some(path));
    match SplitOnceSlash(t)
    case Some((h, rest)) =>
      assert r == (Some(h), Some([SLASH] + rest));
      assert h + ([SLASH] + rest) == t;
    case None =>
      assert r == (Some(t), Some([SLASH]));
  }

  /** The repair never fires for other schemes, when an authority was found, or without a path. */
  lemma HttpRepairOnlyWhen(scheme: Option<Bytes>, netloc: Option<Bytes>, path: Option<Bytes>)
    requires !IsHttpLike(scheme) || netloc.Some? || path.None?
    ensures HttpRepair(scheme, netloc, path) == (netloc, path)
  {
  }

  function NonEmpty(s: Bytes): (r: Option<Bytes>)
    ensures r.Some? <==> |s| > 0
    ensures r.Some? ==> r.value == s
  {
    if |s| == 0 then None else Some(s)
  }

  // ---------------------------------------------------------------------
  // The whole split
  // ---------------------------------------------------------------------

  /**
   * The fields of a successful split, from the scheme, the three pieces
   * of the middle part and the fragment: the http repair applies, then an
   * empty path is reported as absent.
   */
  function Assemble(scheme: Option<Bytes>, hier: (Option<Bytes>, Bytes, Option<Bytes>), fragment: Option<Bytes>): (r: SplitResult)
    ensures r.scheme == scheme && r.query == hier.2 && r.fragment == fragment
  {
    var (netloc, path) := HttpRepair(scheme, hier.0, Some(hier.1));
    SplitResult(scheme, netloc, if path.Some? && |path.value| == 0 then None else path, hier.2, fragment)
  }

  /**
   * `SplitResult::parse`. The expression fails to match only when the
   * text after the first `#` holds a line feed (`.` does not match one);
   * otherwise the fragment is everything after the first `#`.
   */
  function Parse(url: Bytes): (r: Result<SplitResult>)
    ensures r.Err? <==> FirstOf(url, {HASH}) < |url| && LF in url[FirstOf(url, {HASH}) + 1..]
    ensures r.Err? ==> r.error == UrlParseError(Str("url regex match failed"))
    ensures r.Ok? ==> r.value.fragment == FragmentOf(url)
  {
    var fragment := FragmentOf(url);
    if fragment.Some? && LF in fragment.value then
      Err(UrlParseError(Str("url regex match failed")))
    else
      Ok(Assemble(SplitScheme(url).0, SplitHier(HierPart(url)), fragment))
  }

  /** A successful split is the assembly of the components. */
  lemma ParseIsAssemble(url: Bytes)
    requires Parse(url).Ok?
    ensures Parse(url).value == Assemble(SplitScheme(url).0, SplitHier(HierPart(url)), FragmentOf(url))
  {
    var fragment := FragmentOf(url);
    assert !(fragment.Some? && LF in fragment.value);
  }

  /** The scheme is recognised exactly when the URL starts with one, and is the text before the first `:`. */
  lemma ParseScheme(url: Bytes)
    requires Parse(url).Ok?
    ensures Parse(url).value.scheme.Some? <==> SchemeLength(url).Some?
    ensures SchemeLength(url).Some? ==> Parse(url).value.scheme.value == url[..FirstOf(url, {COLON})]
  {
    ParseIsAssemble(url);
  }

  /** Without a line feed there is nothing the splitter can fail on. */
  lemma ParseNeverFails(url: Bytes)
    requires LF !in url
    ensures Parse(url).Ok?
  {
    var f := FirstOf(url, {HASH});
    if f < |url| {
      assert LF !in url[f + 1..];
    }
  }

  /** The query of a middle part, located in a text that has a `?`-free prefix before it. */
  lemma QueryBehindPrefix(pre: Bytes, hier: Bytes)
    requires QUESTION !in pre
    ensures var t := pre + hier;
      var q := FirstOf(t, {QUESTION});
      SplitHier(hier).2 == (if q < |t| then NonEmpty(t[q + 1..]) else None)
  {
    var t := pre + hier;
    SplitHierQuery(hier);
    FirstOfSkip(pre, hier, {QUESTION});
    if QUESTION in hier {
      IndexOfFirstOf(hier, QUESTION);
      assert t[FirstOf(t, {QUESTION}) + 1..] == hier[IndexOf(hier, QUESTION) + 1..];
    } else {
      FirstOfUnique(hier, {QUESTION}, |hier|);
    }
  }

  /**
   * The query is the text after the first `?` that precedes the first
   * `#`, without the `?`, and is absent when empty or when no `?`
   * precedes the first `#`.
   */
  lemma ParseQuery(url: Bytes)
    requires Parse(url).Ok?
    ensures var f := FirstOf(url, {HASH});
      var q := FirstOf(url[..f], {QUESTION});
      Parse(url).value.query == (if q < f then NonEmpty(url[q + 1..f]) else None)
  {
    ParseIsAssemble(url);
    var hier := HierPart(url);
    assert Parse(url).value.query == SplitHier(hier).2;
    var n := SchemePrefixLength(url);
    var f := FirstOf(url, {HASH});
    SchemePrefixClean(url);
    assert QUESTION !in url[..n];
    SliceSplit(url, n, f);
    QueryBehindPrefix(url[..n], hier);
    var q := FirstOf(url[..f], {QUESTION});
    assert q < f ==> url[..f][q + 1..] == url[q + 1..f];
  }

  /**
   * The authority of a successful split is non-empty and holds neither
   * `/` nor `?`, nor `#`; it came after `//` unless the http repair made it.
   */
  lemma ParseNetloc(url: Bytes)
    requires Parse(url).Ok? && Parse(url).value.netloc.Some?
    ensures SLASH !in Parse(url).value.netloc.value
    ensures !IsHttpLike(SplitScheme(url).0) ==> |Parse(url).value.netloc.value| > 0
  {
    ParseIsAssemble(url);
    var hier := HierPart(url);
    var h := SplitHier(hier);
    SplitHierShape(hier);
    var scheme := SplitScheme(url).0;
    if IsHttpLike(scheme) && h.0.None? {
      HttpRepairShape(scheme, h.1);
    }
  }

  // ---------------------------------------------------------------------
  // Putting a URL back together
  // ---------------------------------------------------------------------

  /** `?query` when a query is given, nothing otherwise. */
  function QueryPart(query: Option<Bytes>): Bytes
  {
    if query.Some? then [QUESTION] + query.value else []
  }

  /** `#fragment` when a fragment is given, nothing otherwise. */
  function FragmentPart(fragment: Option<Bytes>): Bytes
  {
    if fragment.Some? then [HASH] + fragment.value else []
  }

  /** `//host` + path + `?query`: the part between the scheme and the fragment. */
  function AuthorityPart(host: Bytes, path: Bytes, query: Option<Bytes>): Bytes
  {
    [SLASH, SLASH] + host + path + QueryPart(query)
  }

  /**
   * The inverse of the split for URLs with an authority:
   * `scheme://host` + path, then `?query` and `#fragment` when present.
   */
  function Unsplit(scheme: Bytes, host: Bytes, path: Bytes, query: Option<Bytes>, fragment: Option<Bytes>): (url: Bytes)
    ensures |url| >= |scheme| + 3 + |host| + |path|
  {
    scheme + [COLON] + (AuthorityPart(host, path, query) + FragmentPart(fragment))
  }

  /** Fragment and middle part of a URL whose `#`, if any, comes after `hier`. */
  lemma FragmentOfUnsplit(scheme: Bytes, hier: Bytes, fragment: Option<Bytes>)
    requires SchemeShaped(scheme)
    requires HASH !in hier
    ensures FragmentOf(scheme + [COLON] + (hier + FragmentPart(fragment))) == fragment
    ensures HierPart(scheme + [COLON] + (hier + FragmentPart(fragment))) == hier
  {
    var fs := FragmentPart(fragment);
    var p := scheme + [COLON];
    var url := p + (hier + fs);
    var n := |scheme| + 1;
    var f := n + |hier|;
    SchemeLengthComplete(scheme, hier + fs);
    assert SchemePrefixLength(url) == n;
    FirstHashAfter(scheme, hier, fs);
    ThreeParts(p, hier, fs);
    assert HierPart(url) == url[n..f] == hier;
    if fragment.Some? {
      assert url[f + 1..] == url[f..][1..] == fs[1..] == fragment.value;
    }
  }

  /** In `scheme:` + `hier` + `fs` with no `#` in `hier`, the first `#` can only start `fs`. */
  lemma FirstHashAfter(scheme: Bytes, hier: Bytes, fs: Bytes)
    requires SchemeShaped(scheme)
    requires HASH !in hier
    requires |fs| > 0 ==> fs[0] == HASH
    ensures FirstOf(scheme + [COLON] + (hier + fs), {HASH}) == |scheme| + 1 + |hier|
  {
    SchemeColonHashFree(scheme);
    FirstOfSkip(scheme + [COLON], hier + fs, {HASH});
    FirstOfSkip(hier, fs, {HASH});
  }

  /** A scheme and its colon hold no `#`. */
  lemma SchemeColonHashFree(scheme: Bytes)
    requires SchemeShaped(scheme)
    ensures forall i | 0 <= i < |scheme + [COLON]| :: (scheme + [COLON])[i] !in {HASH}
  {
    var p := scheme + [COLON];
    forall i | 0 <= i < |p|
      ensures p[i] !in {HASH}
    {
      if i < |scheme| {
        assert p[i] == scheme[i] && IsSchemeByte(scheme[i]);
      }
    }
  }


  /** The middle part `//host` + path + `?query` splits into its three pieces. */
  lemma SplitHierUnsplit(host: Bytes, path: Bytes, query: Option<Bytes>)
    requires |host| > 0 && SLASH !in host && QUESTION !in host
    requires |path| > 0 ==> path[0] == SLASH
    requires QUESTION !in path
    ensures SplitHier(AuthorityPart(host, path, query))
      == (Some(host), path, if query.Some? then NonEmpty(query.value) else None)
  {
    var pq := path + QueryPart(query);
    var hier := AuthorityPart(host, path, query);
    AppendAssoc(DOUBLE_SLASH + host, path, QueryPart(query));
    AppendAssoc(DOUBLE_SLASH, host, pq);
    assert |pq| > 0 ==> pq[0] == SLASH || pq[0] == QUESTION by {
      if |path| == 0 {
        assert pq == QueryPart(query);
      }
    }
    AuthorityAfterSlashes(hier, host, pq);
    SplitHierAt(hier, host, pq);
    PathThenQuery(path, query);
  }

  /** After `//`, the authority runs up to the `/` or `?` that follows the host. */
  lemma AuthorityAfterSlashes(hier: Bytes, host: Bytes, pq: Bytes)
    requires hier == DOUBLE_SLASH + (host + pq)
    requires |host| > 0 && SLASH !in host && QUESTION !in host
    requires |pq| > 0 ==> pq[0] == SLASH || pq[0] == QUESTION
    ensures StartsWith(hier, DOUBLE_SLASH) && AuthorityEnd(hier) == 2 + |host|
    ensures hier[2..2 + |host|] == host && hier[2 + |host|..] == pq
  {
    var after := host + pq;
    ThreeParts(DOUBLE_SLASH, host, pq);
    FirstOfUnique(after, {SLASH, QUESTION}, |host|);
    assert hier[2..] == after;
  }

  /** The three pieces of a middle part whose authority is known. */
  lemma SplitHierAt(hier: Bytes, host: Bytes, pq: Bytes)
    requires |host| > 0 && StartsWith(hier, DOUBLE_SLASH) && AuthorityEnd(hier) == 2 + |host|
    requires hier[2..2 + |host|] == host && hier[2 + |host|..] == pq
    ensures SplitHier(hier).0 == Some(host)
    ensures SplitHier(hier).1 == pq[..FirstOf(pq, {QUESTION})]
    ensures SplitHier(hier).2
      == if FirstOf(pq, {QUESTION}) < |pq| then NonEmpty(pq[FirstOf(pq, {QUESTION}) + 1..]) else None
  {
  }

  /** The pieces of `a + (b + c)`, sliced back out. */
  lemma ThreeParts(a: Bytes, b: Bytes, c: Bytes)
    ensures (a + (b + c))[..|a|] == a
    ensures (a + (b + c))[|a|..] == b + c
    ensures (a + (b + c))[|a|..|a| + |b|] == b
    ensures (a + (b + c))[|a| + |b|..] == c
  {
  }

  /** A `?`-free path followed by `?query` splits at that `?`. */
  lemma PathThenQuery(path: Bytes, query: Option<Bytes>)
    requires QUESTION !in path
    ensures FirstOf(path + QueryPart(query), {QUESTION}) == |path|
    ensures (path + QueryPart(query))[..|path|] == path
    ensures query.Some? ==> (path + QueryPart(query))[|path| + 1..] == query.value
    ensures query.None? ==> |path + QueryPart(query)| == |path|
  {
    var pq := path + QueryPart(query);
    if query.Some? {
      ThreeParts(path, [QUESTION], query.value);
      assert pq == path + ([QUESTION] + query.value);
    } else {
      assert pq == path;
    }
    FirstOfUnique(pq, {QUESTION}, |path|);
  }

  /**
   * Splitting undoes `Unsplit`: a URL written in full splits into exactly
   * its pieces, with an empty path or query reported as absent.
   */
  lemma ParseUnsplit(scheme: Bytes, host: Bytes, path: Bytes, query: Option<Bytes>, fragment: Option<Bytes>)
    requires SchemeShaped(scheme)
    requires |host| > 0 && SLASH !in host && QUESTION !in host && HASH !in host
    requires |path| > 0 ==> path[0] == SLASH
    requires QUESTION !in path && HASH !in path
    requires query.Some? ==> HASH !in query.value
    requires fragment.Some? ==> LF !in fragment.value
    ensures Parse(Unsplit(scheme, host, path, query, fragment))
      == Ok(SplitResult(Some(scheme), Some(host), NonEmpty(path),
                        if query.Some? then NonEmpty(query.value) else None, fragment))
  {
    var hier := AuthorityPart(host, path, query);
    var fs := FragmentPart(fragment);
    assert HASH !in hier by {
      assert hier == [SLASH, SLASH] + host + path + QueryPart(query);
    }
    var url := Unsplit(scheme, host, path, query, fragment);
    SplitSchemeOf(scheme, hier + fs);
    FragmentOfUnsplit(scheme, hier, fragment);
    SplitHierUnsplit(host, path, query);
    assert SplitScheme(url).0 == Some(scheme);
    assert FragmentOf(url) == fragment && HierPart(url) == hier;
    var r := Assemble(Some(scheme), SplitHier(hier), fragment);
    assert HttpRepair(Some(scheme), Some(host), Some(path)) == (Some(host), Some(path));
    assert r == SplitResult(Some(scheme), Some(host), NonEmpty(path),
                            if query.Some? then NonEmpty(query.value) else None, fragment);
    assert Parse(url) == Ok(r);
  }

  // ---------------------------------------------------------------------
  // Host and port
  // ---------------------------------------------------------------------

  /** The text before the first `d`, or all of `s` when it holds none. */
  function Before(s: Bytes, d: Byte): (r: Bytes)
    ensures d !in r && StartsWith(s, r)
  {
    if d in s then s[..IndexOf(s, d)] else s
  }

  /** The text after the first `d`, or nothing when `s` holds none. */
  function After(s: Bytes, d: Byte): (r: Bytes)
    ensures d in s ==> s == Before(s, d) + [d] + r
  {
    if d in s then
      assert s == s[..IndexOf(s, d)] + [d] + s[IndexOf(s, d) + 1..];
      s[IndexOf(s, d) + 1..]
    else []
  }

  /**
   * `split_netloc`: the host is the text before the first `:` (always
   * present); the port is the text between the first and the second `:`,
   * absent when empty or when there is no `:`.
   */
  function SplitNetloc(netloc: Bytes): (r: (Option<Bytes>, Option<Bytes>))
    ensures r.0 == Some(Before(netloc, COLON))
    ensures COLON !in netloc ==> r.1 == None
    ensures COLON in netloc ==> r.1 == NonEmpty(Before(After(netloc, COLON), COLON))
  {
    var parts := Split(netloc, COLON);
    assert COLON in netloc ==> parts[1..] == Split(After(netloc, COLON), COLON);
    (Some(parts[0]), if |parts| >= 2 && |parts[1]| > 0 then Some(parts[1]) else None)
  }

  /** An authority `host:port` with a non-empty port and one colon splits back into its two halves. */
  lemma SplitNetlocRoundTrip(host: Bytes, port: Bytes)
    requires COLON !in host && COLON !in port && |port| > 0
    ensures SplitNetloc(host + [COLON] + port) == (Some(host), Some(port))
  {
    SplitCons(host, port, COLON);
  }

  /** An authority without `:` is all host. */
  lemma SplitNetlocNoPort(host: Bytes)
    requires COLON !in host
    ensures SplitNetloc(host) == (Some(host), None)
  {
    FirstOfUnique(host, {COLON}, |host|);
  }
}
