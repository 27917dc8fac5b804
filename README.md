# surtr SURT engine, modelled in Dafny

This project models the core of `surtr`, a library that turns a URL into a
SURT key (Sort-friendly URI Reordering Transform), the key web archives use
to index captures. For example, `http://www.archive.org/goo/?b&a=1` becomes
`org,archive)/goo?a=1&b`. The model follows the crate `crates/surtr/src`, leaves first:

- `errors.dfy` (`Errors`): the three-variant error type and its `Display` and `Debug` texts.
- `options.dfy` (`Options`): the string-keyed option store, a class whose
  map field `set` updates in place, with `get`, `get_or` and `into_iter`.
  Every default lives where the option is read (`ValueOr`).
- `text.dfy` (`Text`): bytes, splitting and joining, ASCII case mapping and
  digit parsing. These are the pieces of the Rust standard library the crate leans on.
- `url_encoding.dfy` (`UrlEncoding`): percent decoding with its UTF-8 check.
  It includes `unescape_repeatedly` as a loop that runs to a fixed point, `escape_once` over the
  fixed safe set, and `minimal_escape`.
- `regex_transformer.dfy` (`RegexTransformer`): `host_to_surt` and the two
  session-id strippers. Each regular expression is a hand-written matcher, and
  a greedy leading `(.*)` picks the rightmost match.
- `url_split.dfy` (`UrlSplit`): the RFC 3986 Appendix B style
  splitter with its repair rule for `http` URLs without `//`, and `split_netloc`.
- `handy_url.dfy` (`Handy`): the `HandyUrl` record. `parse` trims, removes
  control characters, adds a default scheme, collapses repeated `http(s)://`
  prefixes and records a trailing `?`. `get_url` builds the SURT or URL text
  step by step.
- `google.dfy` (`Google`): the Google-style pass. It drops the fragment, minimally
  escapes the credentials and the query, cleans the host (IDNA, `..`, trimmed dots),
  recognises numeric hosts as IPv4 (`attempt_ip_formats`, `coerce_ip`) and
  normalises `.` and `..` in the path.
- `ia.dfy` (`Ia`): the Internet Archive pass. Under its options it lower-cases,
  massages `www` prefixes, strips credentials and default ports, removes
  session ids and trailing slashes, and reorders the query arguments.
- `default.dfy` (`Default`): the Google pass followed by the IA pass.
- `surt.dfy` (`Surt`): `surt` fills in the `surt` and `with_scheme` defaults;
  `_surt` passes `filedesc` records through and otherwise parses, canonicalises
  and renders.

Text is modelled as UTF-8 bytes (`seq<Byte>`), because lengths, slicing,
ordering and percent coding in the source all work on bytes. Every operation
that changes state step by step is a method proved against a specification
function. The functions carry the properties: round trips (percent coding,
splitting, parsing and rendering, `host_to_surt`), fixed points and idempotence
(`unescape_repeatedly`, `normalize_path`, the query reordering), permutations
and sortedness, and the exact error cases. Calls that panic in the source are
excluded by preconditions (`Google.Defined`, `Ia.Defined`, `Surt.Defined`),
not modelled as errors. The IDNA conversion and the public-suffix lookup are
function parameters.

## Where the code and its description differ

The model follows the code in each case:

- `crates/surtr/src/handy_url.rs:143-160` calls `SplitResult::parse(url, options)` and reads
  credentials and a domain out of the network location, while
  `crates/surtr/src/url_split.rs:22` takes only the URL and returns the location as one text.
  The model takes host and port from `split_netloc`, as the commented-out lines
  `crates/surtr/src/handy_url.rs:145-148` do, and leaves the credentials absent. It uses
  `SurtrError` throughout (`url_split.rs` names `SaturError`, and `default.rs` declares `String` errors).
- A space is percent-encoded: the safe set adds `' '` to the encoded bytes.
- A run of repeated `http://` and `https://` prefixes collapses to the last one of the run,
  not the first.
- The query reordering sorts the `[key]` or `[key, value]` vectors split at the first `=`,
  not the whole argument texts.
- With `path_strip_empty`, a path that is exactly `/` stays `/`, because the path is
  assigned back afterwards.
- The `www\d*\.` massage is not anchored: the first match anywhere in the host removes
  as many bytes as the match is long from the front of the host.
- A fragment holding a line feed makes the splitting expression fail, which is the only
  source of `UrlParseError`.

## Model

| member | source | states |
|---|---|---|
| Errors.Display | crates/surtr/src/error.rs:15-25 | the text is the variant's name, `: `, then the carried message; for a missing scheme it is exactly `NoSchemeFoundError: Expected scheme to be present in URL` |
| Errors.DisplayInjective | crates/surtr/src/error.rs:15-25 | two errors with the same `Display` text are the same error |
| Errors.Debug | crates/surtr/src/error.rs:27-37 | a message-carrying variant is exactly `SurtrError::UrlParseError { <message> }` or `SurtrError::CanonicalizerError { <message> }`; the missing-scheme variant is exactly `SurtrError::NoSchemeFound` |
| Errors.DebugInjective | crates/surtr/src/error.rs:27-37 | two errors with the same `Debug` text are the same error |
| Options.Lookup | crates/surtr/src/options.rs:61-63 | an option reads as present exactly when it is stored, and then as its stored value |
| Options.ValueOr | crates/surtr/src/options.rs:69-75 | the stored value when the option is stored, the caller's fallback otherwise |
| Options.SurtrOptions.constructor | crates/surtr/src/options.rs:51-54 | a default store holds nothing, so every option reads as absent |
| Options.SurtrOptions.Clone | crates/surtr/src/options.rs:51 | a clone holds the same options as the original |
| Options.SurtrOptions.Get | crates/surtr/src/options.rs:61-63 | present exactly when stored, with the stored value |
| Options.SurtrOptions.GetOr | crates/surtr/src/options.rs:69-75 | the stored value, or the fallback for an absent option |
| Options.SurtrOptions.Set | crates/surtr/src/options.rs:81-83 | the option now reads as the new value and every other option reads as before |
| Options.SurtrOptions.IntoIter | crates/surtr/src/options.rs:88-100 | yields exactly the stored name/value pairs |
| Options.UsageExample | crates/surtr/src/options.rs:38-49 | the documented usage: stored switches read back, an absent one falls back |
| UrlSplit.SchemeLength | crates/surtr/src/url_split.rs:7-8 | a scheme found by the pattern ends at a colon and has the scheme shape (a letter, then letters, digits, `+`, `.` or `-`) |
| UrlSplit.SchemeLengthComplete | crates/surtr/src/url_split.rs:7-8 | any scheme-shaped text followed by a colon is found as the scheme, in full |
| UrlSplit.SplitScheme | crates/surtr/src/url_split.rs:32-34 | the URL is the scheme, a colon and the rest when a scheme is found, and is all rest otherwise |
| UrlSplit.SplitSchemeOf | crates/surtr/src/url_split.rs:32-34 | `scheme:rest` with a scheme-shaped head splits into that scheme and that rest |
| UrlSplit.SplitSchemeNone | crates/surtr/src/url_split.rs:32-34 | when no text before a colon is scheme-shaped there is no scheme and the whole URL remains |
| UrlSplit.SplitHierShape | crates/surtr/src/url_split.rs:47-55 | an authority only follows `//`, is non-empty and holds neither `/` nor `?`; the path never holds `?` |
| UrlSplit.SplitHierQuery | crates/surtr/src/url_split.rs:35-42 | the query is the text after the first `?`, absent when there is no `?` or nothing follows it |
| UrlSplit.SplitOnceSlash | crates/surtr/src/url_split.rs:67-73 | `split_once('/')`: found exactly when there is a slash; the head has none and head, slash and tail give the text back |
| UrlSplit.HttpRepairShape | crates/surtr/src/url_split.rs:63-74 | for an `http`-like scheme without authority: the leading slashes go, the host runs to the next slash and the path keeps a leading `/` |
| UrlSplit.HttpRepairOnlyWhen | crates/surtr/src/url_split.rs:57-78 | any other combination of scheme, authority and path is left as it is |
| UrlSplit.Parse | crates/surtr/src/url_split.rs:22-93 | the split fails, with `UrlParseError("url regex match failed")`, exactly when a line feed follows the first `#`; on success the fragment is the text after the first `#` |
| UrlSplit.ParseScheme | crates/surtr/src/url_split.rs:32-34 | a parsed URL has a scheme exactly when one is found, and it is the text before the first colon |
| UrlSplit.ParseFragment | crates/surtr/src/url_split.rs:23-30 | parsing fails exactly when a line feed follows the first `#`, with the `url regex match failed` error; otherwise the fragment is what follows the first `#` |
| UrlSplit.ParseNeverFails | crates/surtr/src/url_split.rs:23-30 | a URL without a line feed always parses |
| UrlSplit.ParseQuery | crates/surtr/src/url_split.rs:35-42 | the query is the non-empty text between the first `?` and the first `#` |
| UrlSplit.ParseNetloc | crates/surtr/src/url_split.rs:47-78 | an authority never holds `/`, and outside the `http` repair it is never empty |
| UrlSplit.ParseUnsplit | crates/surtr/src/url_split.rs:22-93 | round trip: a URL assembled from a scheme, host, path, query and fragment parses back into those parts |
| UrlSplit.SplitNetloc | crates/surtr/src/url_split.rs:96-108 | the host is the text before the first colon; the port is the non-empty text between the first and the second colon, absent without a colon |
| UrlSplit.SplitNetlocRoundTrip | crates/surtr/src/url_split.rs:96-108 | `host:port` splits back into that host and port |
| UrlSplit.SplitNetlocNoPort | crates/surtr/src/url_split.rs:96-108 | a netloc without a colon is all host and has no port |
| UrlEncoding.PercentDecode | crates/surtr/src/canonicalizers/url_encoding.rs:78 | decoding never lengthens the text, keeps its length exactly when there is no `%XX` escape, and then leaves it unchanged |
| UrlEncoding.AsciiValid | crates/surtr/src/canonicalizers/url_encoding.rs:78 | ASCII text always passes the UTF-8 check |
| UrlEncoding.DecodePass | crates/surtr/src/canonicalizers/url_encoding.rs:78-86 | one pass succeeds exactly when the decoded bytes are valid UTF-8, giving them; otherwise it fails with a canonicalizer error |
| UrlEncoding.Unescaped | crates/surtr/src/canonicalizers/url_encoding.rs:74-94 | the repeated decoding ends on a text no longer than the input, valid UTF-8 and free of escapes, that one more pass leaves unchanged; failures are canonicalizer errors |
| UrlEncoding.UnescapedFixedPoint | crates/surtr/src/canonicalizers/url_encoding.rs:88-90 | valid text without escapes is returned as it is |
| UrlEncoding.UnescapeRepeatedly | crates/surtr/src/canonicalizers/url_encoding.rs:74-94 | the loop returns the repeated-decoding result |
| UrlEncoding.HexUpper | crates/surtr/src/canonicalizers/url_encoding.rs:62 | an upper-case hex digit of the given value, never itself escaped |
| UrlEncoding.EscapeOnce | crates/surtr/src/canonicalizers/url_encoding.rs:5-37 | the output is printable ASCII other than `#` and never shorter than the input |
| UrlEncoding.EscapeOncePercents | crates/surtr/src/canonicalizers/url_encoding.rs:61-63 | every `%` in the output starts a well-formed escape |
| UrlEncoding.EscapeOnceUnchanged | crates/surtr/src/canonicalizers/url_encoding.rs:5-37 | encoding leaves a text unchanged exactly when none of its bytes is in the escape set |
| UrlEncoding.DecodeEscapeOnce | crates/surtr/src/canonicalizers/url_encoding.rs:61-63 | round trip: decoding the encoded text gives the text back |
| UrlEncoding.MinimalEscape | crates/surtr/src/canonicalizers/url_encoding.rs:48-50 | fails exactly when unescaping fails, with the same error; otherwise decoding the result gives the unescaped text |
| UrlEncoding.UnescapeOfEscaped | crates/surtr/src/canonicalizers/url_encoding.rs:48-50 | unescaping an encoded fully-unescaped text gives that text back |
| UrlEncoding.MinimalEscapeIdempotent | crates/surtr/src/canonicalizers/url_encoding.rs:48-50 | escaping an already minimally escaped text changes nothing |
| UrlEncoding.UnescapeLayers | crates/surtr/src/canonicalizers/url_encoding.rs:74-94 | any number of encoding layers over a fully unescaped text are all removed |
| UrlEncoding.Example25 | crates/surtr/src/canonicalizers/url_encoding.rs:109 | `%25` unescapes to `%` |
| UrlEncoding.ExampleLonePercent | crates/surtr/src/canonicalizers/url_encoding.rs:107-108 | a lone `%` and `%2` are left as they are |
| UrlEncoding.ExampleInvalidUtf8 | crates/surtr/src/canonicalizers/url_encoding.rs:80-85 | `%C3` decodes to a truncated UTF-8 sequence and fails |
| RegexTransformer.IpSuffixLabelsCorrect | crates/surtr/src/regex_transformer.rs:5 | the host ends in a dotted quad of 1-3-digit groups exactly when its last four dot-separated labels are three short digit groups preceded by a label ending in a digit |
| RegexTransformer.HostToSurt | crates/surtr/src/regex_transformer.rs:40-48 | with `reverse_ipaddr` off, a host ending in a dotted IPv4 pattern is returned as it is; otherwise the result is the host's `.`-separated labels in reverse order joined with `,` |
| RegexTransformer.HostToSurtMeaning | crates/surtr/src/regex_transformer.rs:40-48 | with `reverse_ipaddr` off a host ending in an IPv4 address is returned as it is; otherwise the result is the dot-separated labels reversed and joined with commas |
| RegexTransformer.HostToSurtInverse | crates/surtr/src/regex_transformer.rs:40-48 | for a host without commas that is reversed: as many commas as the host had dots, and reversing the comma-separated labels and joining them with dots gives the host back |
| RegexTransformer.LastMatch | crates/surtr/src/regex_transformer.rs:17-36 | the match a greedy `^(.*)` leading group selects: its start and the end of the cut |
| RegexTransformer.LastMatchIsLast | crates/surtr/src/regex_transformer.rs:17-36 | no match starts after the chosen one, and when none is chosen there is no match at all |
| RegexTransformer.StripQuerySessionId | crates/surtr/src/regex_transformer.rs:67-86 | the loop over the five query patterns gives the text with each pattern's last match cut out in turn |
| RegexTransformer.StripPathSessionId | crates/surtr/src/regex_transformer.rs:50-65 | the loop over the two path patterns gives the text with each pattern's last match cut out in turn |
| RegexTransformer.StripAll | crates/surtr/src/regex_transformer.rs:50-86 | applying the patterns in turn never lengthens the text, and leaves it unchanged when none of the patterns matches |
| RegexTransformer.StripUnchanged | crates/surtr/src/regex_transformer.rs:54-61 | one pattern leaves the text unchanged exactly when it matches nowhere, and never lengthens it |
| RegexTransformer.StripAtLastMatch | crates/surtr/src/regex_transformer.rs:71-81 | with the last match at `s`, the text before `s` is joined to the text after the cut |
| RegexTransformer.StripAllShortens | crates/surtr/src/regex_transformer.rs:50-86 | stripping never lengthens the text and changes nothing when no pattern matches |
| RegexTransformer.QueryWithoutEquals | crates/surtr/src/regex_transformer.rs:17-36 | a query without `=` is never changed by the session-id step |
| RegexTransformer.PathWithoutParen | crates/surtr/src/regex_transformer.rs:6-15 | a path without `(` is never changed by the session-id step |
| RegexTransformer.StripAllLower | crates/surtr/src/regex_transformer.rs:16-37 | the patterns are case-insensitive: stripping commutes with lower-casing |
| RegexTransformer.KeyedIdStripped | crates/surtr/src/regex_transformer.rs:17-28 | a `jsessionid=`, `phpsessid=` or `sid=` key with exactly 32 letters or digits, at the end or followed by `&`, is removed together with that `&`, keeping the text before it and every pair after it, whenever no second such key-and-id follows (so `?one=two&jsessionid=<32>&x=y` gives `?one=two&x=y`) |
| RegexTransformer.LongIdKept | crates/surtr/src/regex_transformer.rs:17-28 | an identifier of 33 letters or digits after such a key is not a session id and stays |
| RegexTransformer.PlainSegmentStripped | crates/surtr/src/regex_transformer.rs:11-14 | a `(<24 letters or digits>)/` segment in front of an `.aspx` name is removed |
| RegexTransformer.GroupedSegmentStripped | crates/surtr/src/regex_transformer.rs:7-10 | a `((x(<24>))...)/` group of one or more units in front of an `.aspx` name is removed |
| RegexTransformer.StripAllPaths | crates/surtr/src/regex_transformer.rs:53-62 | the grouped pattern is applied first and the plain one to its result |
| Handy.Trim | crates/surtr/src/handy_url.rs:134 | the result is the input without its leading and trailing white space, and starts and ends with a non-space byte |
| Handy.TrimKeeps | crates/surtr/src/handy_url.rs:134 | a text that neither starts nor ends with white space is kept as it is |
| Handy.RemoveControls | crates/surtr/src/handy_url.rs:135 | no tab, line feed or carriage return is left |
| Handy.RemoveControlsKeeps | crates/surtr/src/handy_url.rs:135 | every other byte keeps its number of occurrences |
| Handy.AddDefaultSchemeIfNeeded | crates/surtr/src/handy_url.rs:89-95 | a URL with a scheme is kept; any other gets `http://` in front; either way the result has a scheme |
| Handy.CollapseProtocols | crates/surtr/src/handy_url.rs:139-141 | the result is a suffix of the input that starts with `http://` or `https://` exactly when the input did, and then with only one; a text without such a prefix is unchanged |
| Handy.CollapseCutsRun | crates/surtr/src/handy_url.rs:139-141 | what is cut off is a run of `http://` and `https://` prefixes |
| Handy.CollapseKeepsLast | crates/surtr/src/handy_url.rs:139-141 | of two repeated prefixes the last one is kept (`https://http://x` becomes `http://x`) |
| Handy.Clean | crates/surtr/src/handy_url.rs:134-141 | the cleaned text always starts with a scheme and holds no tab, carriage return or line feed |
| Handy.CleanShape | crates/surtr/src/handy_url.rs:134-141 | after cleaning, the URL has a scheme and holds no tab, line feed or carriage return |
| Handy.Parse | crates/surtr/src/handy_url.rs:133-166 | the method's record is the one `Parsed` describes |
| Handy.Parsed | crates/surtr/src/handy_url.rs:133-166 | parsing never fails on a cleaned text, always records a scheme, and leaves both credentials absent |
| Handy.ParsedSucceeds | crates/surtr/src/handy_url.rs:133-166 | parsing never fails, always finds a scheme and never fills in the credentials |
| Handy.ParsedLastDelimiter | crates/surtr/src/handy_url.rs:149-153 | the last delimiter is `?` exactly when there is no query and the cleaned URL ends with `?`, absent otherwise |
| Handy.Push | crates/surtr/src/handy_url.rs:246-271 | pushing a part extends the list and its concatenation by that part |
| Handy.CollectSchemeParts | crates/surtr/src/handy_url.rs:246-271 | fails with `NoSchemeFoundError` exactly when a needed scheme is missing; otherwise the joined parts are the scheme section |
| Handy.AppendHost | crates/surtr/src/handy_url.rs:275-299 | the output grows by the host section: credentials and `@`, host, `:port`, and with `surt` an optional `,` and `)` |
| Handy.AppendTail | crates/surtr/src/handy_url.rs:301-316 | the output grows by the path (or `/` when only query or fragment is present), `?query`, `#fragment` and the last delimiter |
| Handy.GetUrl | crates/surtr/src/handy_url.rs:229-319 | the method's result is the one `Rendered` describes |
| Handy.Rendered | crates/surtr/src/handy_url.rs:229-319 | `get_url` fails, always with `NoSchemeFoundError`, exactly when the scheme is absent and either `with_scheme` is on or no host is left to write |
| Handy.RenderedFails | crates/surtr/src/handy_url.rs:247-268 | rendering fails exactly when there is no scheme and either `with_scheme` is on or no host is written, always with `NoSchemeFoundError` |
| Handy.RenderedDefault | crates/surtr/src/handy_url.rs:229-319 | with default options a URL with scheme and host renders as `scheme:` then `//` (except for `dns`), the host, the port and the tail |
| Handy.ParsedPlainUrl | crates/surtr/src/handy_url.rs:133-166 | a clean URL assembled from parts parses into exactly those parts, with `?` as last delimiter when the query is empty and nothing follows it |
| Handy.ParseRenderRoundTrip | crates/surtr/src/handy_url.rs:133-319 | round trip: parsing a clean URL and rendering it with default options gives the URL back |
| Handy.RenderedSurtHost | crates/surtr/src/handy_url.rs:236-298 | in SURT form without scheme the output is the SURT host, the port, `)` and the tail |
| Handy.SurtHostRecoverable | crates/surtr/src/handy_url.rs:236-298 | the first `)` of such an output ends the SURT host; reversing its comma-separated labels gives the host back and the tail follows the `)` |
| Handy.SurtSplitsAtParen | crates/surtr/src/handy_url.rs:293-298 | the same split, stated on the SURT host followed by `)` and any tail |
| Google.ParseIpv4 | crates/surtr/src/canonicalizers/google.rs:118-119 | a text accepted as a dotted-quad address yields four numbers, each below 256 |
| Google.ParseQuadText | crates/surtr/src/canonicalizers/google.rs:109 | printing four octets as a dotted quad and reading the text back gives the same four octets |
| Google.QuadTextOfParse | crates/surtr/src/canonicalizers/google.rs:119 | a text accepted as a dotted quad is exactly the dotted quad printed from its octets (no leading zeros, no sign) |
| Google.DecimalOfDigits | crates/surtr/src/canonicalizers/google.rs:126 | a digit text without a leading zero is the decimal rendering of its own value |
| Google.BigEndianOctets | crates/surtr/src/canonicalizers/google.rs:108 | a 32-bit number splits into four octets whose big-endian value is the number |
| Google.Hex | crates/surtr/src/canonicalizers/google.rs:90 | the upper-case hexadecimal text of a number has that value, and is a single digit exactly when the number is below 16 |
| Google.GroupHex | crates/surtr/src/canonicalizers/google.rs:86-90 | each group is written with at least two hex digits, and a group below 256 as exactly the two digits of its value |
| Google.GroupHexDigits | crates/surtr/src/canonicalizers/google.rs:86-90 | every group's text is hexadecimal digits that read back as the group, and a group above 255 is written `0` followed by its upper-case hex digits |
| Google.GroupValues | crates/surtr/src/canonicalizers/google.rs:85 | each dot-separated group is read as its decimal value |
| Google.ChunkDecimals | crates/surtr/src/canonicalizers/google.rs:95-102 | the hex text is cut into one piece per two bytes, the last one possibly single |
| Google.CoerceIp | crates/surtr/src/canonicalizers/google.rs:81-104 | the loop over the groups and the loop over the two-byte chunks compute the coerced address text of the specification function |
| Google.CoercedIp | crates/surtr/src/canonicalizers/google.rs:81-104 | every dot-separated piece of the coerced text is a decimal octet, and the text reads as an IPv4 address exactly when it has four pieces |
| Google.CoerceQuadIdentity | crates/surtr/src/canonicalizers/google.rs:81-104 | coercing a dotted quad whose octets are all below 256 gives the same dotted quad back |
| Google.OctalDigitsDecimal | crates/surtr/src/canonicalizers/google.rs:17-18 | a text of octal digits is also a text of decimal digits, so the octal branch is only reached when the decimal pattern failed to match |
| Google.OctalToDecimal | crates/surtr/src/canonicalizers/google.rs:123-127 | each octal group is replaced by the decimal display of its base-8 value, group for group |
| Google.ReadIpv4 | crates/surtr/src/canonicalizers/google.rs:118-121 | a text accepted as an IPv4 address is printed as a valid dotted quad |
| Google.AttemptIpFormats | crates/surtr/src/canonicalizers/google.rs:106-137 | any address it returns is a valid dotted quad |
| Google.DottedNotNumber | crates/surtr/src/canonicalizers/google.rs:107 | a text with a dot is never read as a plain decimal number |
| Google.AttemptNumber | crates/surtr/src/canonicalizers/google.rs:107-115 | a decimal number below 2^128 becomes the dotted quad of its low 32 bits |
| Google.AttemptParsedNumber | crates/surtr/src/canonicalizers/google.rs:107-115 | any host text that parses as a 128-bit decimal number becomes the dotted quad of that number's low 32 bits |
| Google.AttemptOctalBranch | crates/surtr/src/canonicalizers/google.rs:117-133 | a dotted text that fails the decimal pattern but matches the octal one is answered by reading each group in base 8 and parsing the decimal result as an address |
| Google.AttemptOctalQuad | crates/surtr/src/canonicalizers/google.rs:117-133 | four octal groups, the first with a leading `0`, whose base-8 values are octets give exactly the dotted quad of those values (`017.0.0.1` gives `15.0.0.1`) |
| Google.AttemptDecimalBranch | crates/surtr/src/canonicalizers/google.rs:117-121 | a dotted decimal text is answered by `coerce_ip` followed by the address parse |
| Google.AttemptCoercedQuad | crates/surtr/src/canonicalizers/google.rs:117-121 | when `coerce_ip` yields the display of a quad of octets, that quad is the answer |
| Google.CoercedThree | crates/surtr/src/canonicalizers/google.rs:81-104 | for three decimal groups `a.b.c` with `1 <= a < 256`, `b < 256` and `256 <= c < 4096`, coercion gives `a.b.(c/256).(c%256)` |
| Google.AttemptThreeGroups | crates/surtr/src/canonicalizers/google.rs:106-137 | the same three groups are answered with the address `a.b.(c/256).(c%256)` (`10.0.258` gives `10.0.1.2`) |
| Google.HexTextLength | crates/surtr/src/canonicalizers/google.rs:84-91 | the hex text of the groups has at least two digits per group, and one more when some group is above 255 |
| Google.AttemptWideGroup | crates/surtr/src/canonicalizers/google.rs:106-137 | four decimal groups one of which is above 255 give no address, since coercion then yields five or more pieces (`1.2.3.256` gives none) |
| Google.AttemptQuadFixedPoint | crates/surtr/src/canonicalizers/google.rs:106-137 | a dotted quad whose first octet is not zero is returned unchanged |
| Google.LetterNotIp | crates/surtr/src/canonicalizers/google.rs:106-137 | a host containing a letter is never taken for an IP address |
| Google.Rendered | crates/surtr/src/canonicalizers/google.rs:161-175 | the rebuilt path always starts with a slash |
| Google.NormalizedPath | crates/surtr/src/canonicalizers/google.rs:139-176 | a normalised path always starts with a slash |
| Google.NormalizePath | crates/surtr/src/canonicalizers/google.rs:139-176 | the two loops (keep or pop segments, then join the non-empty ones) compute the normalised path of the specification function |
| Google.NonEmptySegments | crates/surtr/src/canonicalizers/google.rs:165-170 | dropping the empty segments never lengthens the list |
| Google.KeptSettled | crates/surtr/src/canonicalizers/google.rs:144-159 | after the first loop no `.` segment is left and a `..` segment only remains at the very start, before any other segment |
| Google.KeptOfSettled | crates/surtr/src/canonicalizers/google.rs:144-159 | segments that are already settled are kept as they are |
| Google.NonEmptySettled | crates/surtr/src/canonicalizers/google.rs:165-170 | dropping empty segments keeps the list settled and leaves no empty segment |
| Google.PiecesOfNonEmpty | crates/surtr/src/canonicalizers/google.rs:165-170 | skipping empty segments changes nothing in the joined text |
| Google.SplitPieces | crates/surtr/src/canonicalizers/google.rs:139-170 | splitting a joined path at slashes gives back its non-empty segments |
| Google.SplitRendered | crates/surtr/src/canonicalizers/google.rs:139-175 | splitting the rebuilt path gives an empty first segment, the non-empty inner segments and the last segment |
| Google.NormalizedKept | crates/surtr/src/canonicalizers/google.rs:139-159 | the kept segments of any path are settled |
| Google.NormalizedNoDoubleSlash | crates/surtr/src/canonicalizers/google.rs:139-176 | a normalised path has no empty inner segment, that is no `//` before its last segment |
| Google.RenderedSettledFixed | crates/surtr/src/canonicalizers/google.rs:139-176 | normalising a path rebuilt from settled segments gives the same path |
| Google.NormalizedIdempotent | crates/surtr/src/canonicalizers/google.rs:139-176 | normalising twice is the same as normalising once |
| Google.ReplaceDoubleDots | crates/surtr/src/canonicalizers/google.rs:48 | replacing `..` by `.` never lengthens the host |
| Google.ReplaceKeepsOthers | crates/surtr/src/canonicalizers/google.rs:48 | replacing `..` by `.` removes dots only: every other byte stays, in order |
| Google.ReplaceWithoutDoubleDot | crates/surtr/src/canonicalizers/google.rs:48 | a host without `..` is left unchanged |
| Google.TrimLeadingDots | crates/surtr/src/canonicalizers/google.rs:48 | the result is a suffix of the host, only dots were removed, and it does not start with a dot |
| Google.TrimTrailingDots | crates/surtr/src/canonicalizers/google.rs:48 | the result is a prefix of the host, only dots were removed, and it does not end with a dot |
| Google.TrimDotsEnds | crates/surtr/src/canonicalizers/google.rs:48 | the trimmed host neither starts nor ends with a dot |
| Google.TrimDots | crates/surtr/src/canonicalizers/google.rs:48 | the trimmed host neither starts nor ends with `.`, and only dots were removed |
| Google.TrimDotsSlice | crates/surtr/src/canonicalizers/google.rs:48 | the trimmed host is a slice of the host with only dots on either side |
| Google.TrimDotsUnchanged | crates/surtr/src/canonicalizers/google.rs:48 | a host with no dot at either end is not trimmed |
| Google.CleanedHost | crates/surtr/src/canonicalizers/google.rs:39-48 | the cleaned host neither starts nor ends with `.`, and for an ASCII host only dots were removed from the decoded text |
| Google.CanonicalHost | crates/surtr/src/canonicalizers/google.rs:35-56 | the canonical host is either a valid dotted quad or a text in the escaped alphabet |
| Google.DigitPiecesEverywhere | crates/surtr/src/canonicalizers/google.rs:117-127 | when every dot-separated piece is made of digits, every byte of the host is a dot or a digit |
| Google.CanonicalHostOf | crates/surtr/src/canonicalizers/google.rs:49-53 | the canonical host is the recognised IP address if there is one, and the escaped lower-case cleaned host otherwise |
| Google.PlainLower | crates/surtr/src/canonicalizers/google.rs:52 | lower-casing keeps a host free of bytes that need escaping |
| Google.CleanedPlainHost | crates/surtr/src/canonicalizers/google.rs:39-48 | a plain host with no `..` and no dot at either end comes out of unescaping, IDNA and dot cleaning unchanged |
| Google.CanonicalHostOfName | crates/surtr/src/canonicalizers/google.rs:35-56 | such a host containing a letter canonicalises to its lower-case form |
| Google.CanonicalHostOfNumber | crates/surtr/src/canonicalizers/google.rs:35-56 | a decimal number host canonicalises to the dotted quad of its low 32 bits |
| Google.CanonicalPath | crates/surtr/src/canonicalizers/google.rs:58-76 | a path is present afterwards exactly when it was present or the URL has a host, and with a host it starts with a slash |
| Google.EscapeKeepsLeadingSlash | crates/surtr/src/canonicalizers/google.rs:75 | escaping keeps a leading slash |
| Google.CanonicalPathNormalized | crates/surtr/src/canonicalizers/google.rs:58-76 | with a host, the decoded canonical path is already a normalised path |
| Google.EscapedField | crates/surtr/src/canonicalizers/google.rs:25-33 | an absent field stays absent, a present one is escaped, and the step fails, with a canonicaliser error, exactly when the field cannot be unescaped |
| Google.Canonicalized | crates/surtr/src/canonicalizers/google.rs:21-79 | fails, with a canonicaliser error, exactly when a user, password or query cannot be unescaped; otherwise drops the fragment, keeps scheme, port and delimiter, keeps which fields are present, and gives a hosted URL a path starting with a slash |
| Google.CleanHost | crates/surtr/src/canonicalizers/google.rs:39-48 | unescaping, IDNA for non-ASCII hosts and dot cleaning compute the cleaned host of the specification function |
| Google.CanonicalizedHost | crates/surtr/src/canonicalizers/google.rs:35-56 | when the pass succeeds on a URL with a host, the new host is the canonical host of the old one |
| Google.CanonicalizeHost | crates/surtr/src/canonicalizers/google.rs:35-56 | computes the canonical host |
| Google.CanonicalizePath | crates/surtr/src/canonicalizers/google.rs:58-76 | computes the canonical path |
| Google.CanonicalizedOk | crates/surtr/src/canonicalizers/google.rs:21-79 | when all escapes succeed, the result is the input with no fragment, escaped user, password and query, canonical host and canonical path |
| Google.Canonicalize | crates/surtr/src/canonicalizers/google.rs:21-79 | computes the result of the specification function, including its error case |
| Ia.BytesBeforeIrreflexive | crates/surtr/src/canonicalizers/ia.rs:105 | no text sorts before itself |
| Ia.BytesBeforeTransitive | crates/surtr/src/canonicalizers/ia.rs:105 | the byte-wise text order used by the sort is transitive |
| Ia.BytesBeforeTotal | crates/surtr/src/canonicalizers/ia.rs:105 | any two different texts are ordered one way or the other |
| Ia.ProperPrefixBefore | crates/surtr/src/canonicalizers/ia.rs:105 | a proper prefix sorts before the longer text |
| Ia.FirstDifferenceBefore | crates/surtr/src/canonicalizers/ia.rs:105 | at the first differing byte, the smaller byte decides the order |
| Ia.BytesBeforeMeaning | crates/surtr/src/canonicalizers/ia.rs:105 | one text sorts before another exactly when it is a proper prefix of it or is smaller at the first differing byte (lexicographic order of `str`) |
| Ia.TokenBeforeIrreflexive | crates/surtr/src/canonicalizers/ia.rs:100-105 | no `[key]` or `[key, value]` vector sorts before itself |
| Ia.TokenBeforeTransitive | crates/surtr/src/canonicalizers/ia.rs:100-105 | the lexicographic order on these vectors is transitive |
| Ia.TokenBeforeTotal | crates/surtr/src/canonicalizers/ia.rs:100-105 | any two different vectors are ordered one way or the other |
| Ia.TokenLeOrder | crates/surtr/src/canonicalizers/ia.rs:105 | "sorts before or equal" is a total order: total, antisymmetric and transitive |
| Ia.Insert | crates/surtr/src/canonicalizers/ia.rs:105 | inserting an argument adds exactly that argument to the list |
| Ia.SortTokens | crates/surtr/src/canonicalizers/ia.rs:105 | the sorted list is a permutation of the argument list |
| Ia.InsertSorted | crates/surtr/src/canonicalizers/ia.rs:105 | inserting into a sorted list keeps it sorted |
| Ia.SortTokensSorted | crates/surtr/src/canonicalizers/ia.rs:105 | the result of the sort is sorted |
| Ia.SortTokensOfSorted | crates/surtr/src/canonicalizers/ia.rs:105 | sorting a sorted list changes nothing |
| Ia.SortedTail | crates/surtr/src/canonicalizers/ia.rs:105 | the tail of a sorted list is sorted and its head is its least element |
| Ia.SortedPermutationUnique | crates/surtr/src/canonicalizers/ia.rs:105 | two sorted lists with the same elements are equal, so every correct sort gives the same result as this one |
| Ia.TokenRoundTrip | crates/surtr/src/canonicalizers/ia.rs:100-112 | splitting an argument at its first `=` and writing it back gives the argument again |
| Ia.TextRoundTrip | crates/surtr/src/canonicalizers/ia.rs:100-112 | writing a well-formed vector and splitting it again gives the vector back |
| Ia.Tokens | crates/surtr/src/canonicalizers/ia.rs:100-103 | each argument becomes its own vector, in order |
| Ia.Texts | crates/surtr/src/canonicalizers/ia.rs:111-112 | each vector is written back as its own argument text, in order |
| Ia.WrittenAppend | crates/surtr/src/canonicalizers/ia.rs:108-114 | writing one more vector appends its text and an `&` |
| Ia.WrittenJoin | crates/surtr/src/canonicalizers/ia.rs:108-114 | the written vectors are the argument texts joined by `&`, with one trailing `&` |
| Ia.InsertTexts | crates/surtr/src/canonicalizers/ia.rs:105 | inserting a vector adds exactly its text to the written arguments |
| Ia.InsertWritten | crates/surtr/src/canonicalizers/ia.rs:105-114 | inserting a vector adds exactly its bytes to the written output |
| Ia.SortTexts | crates/surtr/src/canonicalizers/ia.rs:105 | sorting keeps the same argument texts |
| Ia.SortWritten | crates/surtr/src/canonicalizers/ia.rs:105-114 | sorting keeps the same written bytes |
| Ia.TextsOfTokens | crates/surtr/src/canonicalizers/ia.rs:99-103 | the arguments of a query are exactly the texts of their vectors |
| Ia.TokensOfTexts | crates/surtr/src/canonicalizers/ia.rs:99-112 | well-formed vectors are exactly the vectors of their texts |
| Ia.SortKeepsWellFormed | crates/surtr/src/canonicalizers/ia.rs:105 | sorting keeps every vector well formed |
| Ia.ArgumentFacts | crates/surtr/src/canonicalizers/ia.rs:99-105 | the sorted vectors of a query are sorted, well formed and written back to its arguments |
| Ia.AlphaReordered | crates/surtr/src/canonicalizers/ia.rs:94-117 | the reordered query has the same length and the same bytes, as a multiset, as the input |
| Ia.ReorderedPieces | crates/surtr/src/canonicalizers/ia.rs:94-117 | the arguments of the reordered query are the texts of the sorted vectors |
| Ia.ReorderedBytes | crates/surtr/src/canonicalizers/ia.rs:94-117 | reordering keeps every byte of the query and its length |
| Ia.AlphaReorderedPermutes | crates/surtr/src/canonicalizers/ia.rs:94-117 | the reordered query has the same arguments and the same bytes, and its arguments are sorted |
| Ia.AlphaReorderedIdempotent | crates/surtr/src/canonicalizers/ia.rs:94-117 | reordering twice is the same as reordering once |
| Ia.SortPair | crates/surtr/src/canonicalizers/ia.rs:105 | two vectors out of order are swapped |
| Ia.SplitTrailing | crates/surtr/src/canonicalizers/ia.rs:99 | an argument with a trailing `&` splits into the argument and an empty one |
| Ia.TrailingAmpersandMovesFront | crates/surtr/src/canonicalizers/ia.rs:94-117 | a query `a&` becomes `&a`: the empty argument sorts first |
| Ia.WriteItem | crates/surtr/src/canonicalizers/ia.rs:109-113 | each arm of the match on the vector length appends what the specification of the written output appends |
| Ia.WrittenReordered | crates/surtr/src/canonicalizers/ia.rs:106-116 | the written output ends in `&`, and dropping it gives the reordered query |
| Ia.WriteArguments | crates/surtr/src/canonicalizers/ia.rs:106-114 | the loop writes every sorted vector followed by `&` |
| Ia.AlphaReorderQuery | crates/surtr/src/canonicalizers/ia.rs:94-117 | computes the reordered query; a query of at most one byte is returned as it is |
| Ia.DigitRun | crates/surtr/src/canonicalizers/ia.rs:10 | counts the longest run of digits at a position |
| Ia.WwwMatchAt | crates/surtr/src/canonicalizers/ia.rs:10 | a match of `www\d*\.` at a position fits inside the host |
| Ia.WwwMatchAtMeaning | crates/surtr/src/canonicalizers/ia.rs:10 | there is a match of length `m` at a position exactly when `www`, a run of digits and a dot, of total length `m`, start there |
| Ia.FirstWww | crates/surtr/src/canonicalizers/ia.rs:125 | the first match found is a real match |
| Ia.FirstWwwIsFirst | crates/surtr/src/canonicalizers/ia.rs:125 | no match starts before the one found, and when none is found there is none at all |
| Ia.MassageHost | crates/surtr/src/canonicalizers/ia.rs:119-132 | an absent host stays absent, and a present one loses at most a front part |
| Ia.MassageUnchanged | crates/surtr/src/canonicalizers/ia.rs:119-132 | the host is unchanged exactly when `www\d*\.` occurs nowhere in it |
| Ia.MassageLeadingPrefix | crates/surtr/src/canonicalizers/ia.rs:119-132 | a leading `www`, digits and a dot are removed |
| Ia.MassageCutsFront | crates/surtr/src/canonicalizers/ia.rs:125-127 | as written, the first match, wherever it starts, removes as many bytes from the front of the host as the match is long |
| Ia.MassageSafeAscii | crates/surtr/src/canonicalizers/ia.rs:127 | on an ASCII host the cut never falls inside a character |
| Ia.DefaultPort | crates/surtr/src/canonicalizers/ia.rs:134-144 | `80` exactly for http, `443` exactly for https, in any case, and `0` for every other or absent scheme |
| Ia.DefaultPortIgnoresCase | crates/surtr/src/canonicalizers/ia.rs:136 | the default port does not depend on the case of the scheme |
| Ia.StripAllKeepsBytes | crates/surtr/src/canonicalizers/ia.rs:73 | stripping session ids only removes bytes |
| Ia.StripAllNoUpper | crates/surtr/src/canonicalizers/ia.rs:73-76 | stripping session ids keeps a lower-case query lower-case and never lengthens it |
| Ia.ReorderedNoUpper | crates/surtr/src/canonicalizers/ia.rs:76-79 | reordering keeps a lower-case query lower-case |
| Ia.PathStep | crates/surtr/src/canonicalizers/ia.rs:43-68 | the path is dropped only under `path_strip_empty`; a path that is exactly `/` stays `/`; a kept path is no longer than before and lower-case unless `path_lowercase` is off |
| Ia.PathTrailingSlash | crates/surtr/src/canonicalizers/ia.rs:58-60 | with the default options, a lower-case path of more than one byte ending in `/` loses exactly that slash |
| Ia.QueryStep | crates/surtr/src/canonicalizers/ia.rs:70-89 | the query is dropped only with `query_strip_empty` and is then never empty; a kept query is no longer than before and, unless empty, lower-case unless `query_lowercase` is off |
| Ia.HostStep | crates/surtr/src/canonicalizers/ia.rs:16-24 | a host stays present exactly when it was; it is a suffix of the lowered host, lower-case unless `host_lowercase` is off, and untouched by massage when massage does not apply (option off, or scheme `dns`) |
| Ia.PortStep | crates/surtr/src/canonicalizers/ia.rs:33-41 | the port is dropped exactly when it is absent or, with `port_strip_default` and a scheme, equals the scheme's default port; otherwise it is kept |
| Ia.Canonicalized | crates/surtr/src/canonicalizers/ia.rs:13-92 | keeps scheme and fragment and whether there is a host; strips user and password as `auth_strip_user` and `auth_strip_pass` say; never adds a port, path or query nor lengthens one; clears the delimiter when there is no query |
| Ia.CanonicalizedFields | crates/surtr/src/canonicalizers/ia.rs:13-92 | the result is assembled field by field from the host, port, path and query steps and the two auth options |
| Ia.CanonicalizePath | crates/surtr/src/canonicalizers/ia.rs:43-68 | computes the path step |
| Ia.CanonicalizeQuery | crates/surtr/src/canonicalizers/ia.rs:70-89 | computes the query step |
| Ia.CanonicalizeHost | crates/surtr/src/canonicalizers/ia.rs:16-24 | computes the host step |
| Ia.CanonicalizePort | crates/surtr/src/canonicalizers/ia.rs:33-41 | computes the port step |
| Ia.Canonicalize | crates/surtr/src/canonicalizers/ia.rs:13-92 | never fails and returns the canonical URL of the specification function |
| Default.Ipv4TextAscii | crates/surtr/src/canonicalizers/google.rs:49-50 | an address text produced by the IP recognition is pure ASCII |
| Default.CanonicalHostAscii | crates/surtr/src/canonicalizers/google.rs:49-53 | the host left by the first pass is pure ASCII, whether an address or an escaped name |
| Default.GoogleHostAscii | crates/surtr/src/canonicalizers/default.rs:8-9 | the host handed to the second pass, lowered or not, is pure ASCII |
| Default.IaDefinedAfterGoogle | crates/surtr/src/canonicalizers/default.rs:8-9 | whatever the first pass returns can be given to the second pass without a slice falling inside a character |
| Default.Canonicalized | crates/surtr/src/canonicalizers/default.rs:5-12 | fails exactly when the first pass fails, with its error; otherwise the fragment is dropped, the scheme kept, the host present exactly when it was, pure ASCII and, unless `host_lowercase` is off, lower-case |
| Default.Canonicalize | crates/surtr/src/canonicalizers/default.rs:5-12 | runs the first pass, passes its error on, then runs the second pass, computing the result of the specification function |
| Surt.EffectiveOptions | crates/surtr/src/lib.rs:66-78 | every option the caller set keeps its value, `surt` and `with_scheme` are added when missing, and they then read as the caller's value or `true` and `false` |
| Surt.Surted | crates/surtr/src/lib.rs:83-100 | a `filedesc` record is returned as it is; otherwise the key fails, with a canonicaliser error, exactly when a user, password or query of the parsed URL cannot be unescaped |
| Surt.SurtWith | crates/surtr/src/lib.rs:83-100 | parsing, canonicalising and rendering compute the key of the specification function |
| Surt.Surt | crates/surtr/src/lib.rs:62-81 | computes the key under the caller's options completed with `surt` on and `with_scheme` off |
| Surt.HostRootParsed | crates/surtr/src/handy_url.rs:133-166 | `http://<host>/` parses into scheme `http`, that host and path `/`, with nothing else, and is not a `filedesc` record |
| Surt.RootPathCanonical | crates/surtr/src/canonicalizers/google.rs:58-76 | the path `/` unescapes to itself and comes out of the path step as `/` |
| Surt.HostRootGoogleDefined | crates/surtr/src/canonicalizers/google.rs:21-56 | the first pass can run on that record, and a plain name with a letter becomes its lower-case form |
| Surt.HostRootGoogle | crates/surtr/src/canonicalizers/google.rs:21-79 | the first pass turns that record into the same record with the host lower-cased |
| Surt.RootPathIa | crates/surtr/src/canonicalizers/ia.rs:43-68 | under the options `surt` fills in, the path `/` is kept as `/`: lower-casing and session stripping leave it alone and a one-byte path keeps its slash |
| Surt.HostRootIa | crates/surtr/src/canonicalizers/ia.rs:13-92 | under the options `surt` fills in, the second pass changes only the host, by the `www` massage |
| Surt.HostRootDefault | crates/surtr/src/canonicalizers/default.rs:5-12 | both passes give the root record with the lower-cased, massaged host |
| Surt.HostRootRendered | crates/surtr/src/handy_url.rs:229-319 | under the options `surt` fills in, the root record renders as the SURT host followed by `)/` |
| Surt.HostRootKey | crates/surtr/src/lib.rs:62-100 | the key of `http://<host>/`, with default options, is the lower-cased host with any `www\d*.` match cut from its front, reversed into SURT form, then `)/` |
| Surt.WwwMassaged | crates/surtr/src/canonicalizers/ia.rs:16-24 | lower-casing keeps a leading `www<digits>.`, and the massage then removes it |
| Surt.WwwHostRootKey | crates/surtr/src/lib.rs:135-142 | `http://www<digits>.<name>/` gets the key of `http://<name>/`: the name lower-cased and reversed, then `)/` (as `http://www.archive.org/` and `http://archive.org/` both give `org,archive)/`) |

## Left out

- Unicode: `to_lowercase`, `trim` and `\d` are modelled on ASCII bytes only. Non-ASCII bytes are left as they are. The session-id expressions are compiled case-insensitive with Unicode enabled, so `s` and `k` in them also match U+017F and U+212A; the model's matchers fold ASCII letters only. In the pipeline this cannot matter, because the Google pass has percent-encoded every non-ASCII byte of the path and query before the IA pass strips session ids.
- IDNA (`domain_to_ascii`, `crates/surtr/src/canonicalizers/google.rs:41-46`) is a function parameter; what it returns is not modelled.
- The public-suffix lookup (`crates/surtr/src/handy_url.rs:170-198`) is a function parameter, because it relies on the `tld_extract` data set.
- Panics: the `unwrap` calls at `crates/surtr/src/canonicalizers/google.rs:39,62,85,126` and the slice in `massage_host` that could fall inside a character are excluded by the `Defined` preconditions, not modelled as an abort. For the default pipeline the second one is proved never to happen.
- `Google.AttemptIpFormats`: the IPv6 value of the 128-bit branch is taken only through its low 32 bits, as `host_digit & 0xffffffff` leaves it; nothing else of `Ipv6Addr` is modelled.
- `Display for HandyUrl` (`crates/surtr/src/handy_url.rs:322-373`) is debug printing only and is not modelled.
- `Ia.SortTokens`: the in-place `sort` of the argument vectors is an insertion sort on values. `Ia.SortedPermutationUnique` shows that any correct sort gives the same result, but in-place order of operations is not modelled.
- The options object is not read by the Google pass or by `parse` in the source; the model does not pass it there.
- Single Rust functions are split into several methods (host, path, query and port steps); each of these computes exactly its part of the original.
- `lazy_static` compiles each regular expression once; the hand-written matchers do not model compilation.
- The unit-test examples are covered by general lemmas, not by one lemma per example. These include the round trips, `Surt.HostRootKey`, `Surt.WwwHostRootKey`, `Ia.TrailingAmpersandMovesFront`, `Ia.MassageLeadingPrefix`, `Google.CanonicalHostOfNumber`, `Google.AttemptOctalQuad` (`017.0.0.1`), `Google.AttemptThreeGroups` (`10.0.258`) and `Google.AttemptWideGroup` (`1.2.3.256`). End to end, only URLs of the form `http://<host>/` are stated; keys with a path, query or port are covered pass by pass.
- The Go and Python bindings and the older top-level `src/` crate are not part of this model.
