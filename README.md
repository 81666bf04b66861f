# hancock, modelled in Dafny

hancock signs and validates HTTP requests with a shared secret. `Sign` adds
the caller's public key (`apikey`) and the current Unix time (`ts`) to a
query's parameters. It computes HMAC-SHA256 under a private key over
`METHOD:` followed by the encoded parameters, and appends the base64url
digest as `data`. `Validate` does the reverse:

1. Optionally, it checks that `ts` is within a window of its own clock.
2. It removes `data`, recomputes the digest over what is left and compares
   the two.
3. It returns the parameters without `data`, `apikey` and `ts`, or an error
   that carries HTTP status 406 (stale or unreadable timestamp) or 401
   (signature mismatch).

The model covers the following:

- `isValidTS`, `Validate`, `Sign`, `newError` and `Error` from `hancock.go`.
- The standard-library pieces their behaviour rests on:
  - `url.Values` (`Get`, `Add`, `Del`, `Encode` with sorted keys)
  - `url.QueryEscape` / `url.QueryUnescape`
  - `url.ParseQuery` (what `r.URL.Query()` applies to the raw query)
  - `strconv.ParseInt` and `fmt`'s `%d`
  - base64url encoding with padding, as in section 5 of RFC 4648

Go strings are byte strings here (`ByteStrings.Bytes`, a sequence of
characters below 256). A Go map is a reference, so `url.Values` is a class,
`UrlValues.Values`, whose methods change its map in place. `Sign` and
`Validate` are methods over it.

The main results are these:

- Parsing an encoding gives back the map, less keys with no values
  (`UrlValues.ParseEncoded`).
- The encoding does not depend on the order in which keys are collected
  (`UrlValues.EncodedAnyEnumeration`, `UrlValues.Values.Encode`).
- Comparing two `data` values is comparing the digests they encode
  (`Hancock.MacComparesDigests`).
- The status and message of every rejection are known
  (`Hancock.ValidationStatus`).
- When the base URL holds no `?` and no `#`, the signed URL has no
  fragment, and its raw query (the text after the first `?`) validates
  with the signer's method, key and clock, giving back the signer's
  parameters (`Hancock.SignThenValidate`).

The clock is the parameter `now`. HMAC-SHA256 is the parameter `hmac`: any
function from a key and a message to 32 bytes. Nothing cryptographic is
assumed about it.

## Model

| member | source | states |
|---|---|---|
| Hancock.NewError | hancock.go:97-101 | the error carries exactly the given status and message |
| Hancock.Error.Message | hancock.go:22-30 | an error is exactly its message and its status: `Error()` returns the whole of the message |
| Hancock.Canonical | hancock.go:63 | the authenticated string is the method, one `:`, then the encoded query, each recoverable by position |
| Hancock.CanonicalInjective | hancock.go:90 | for methods without `:` (no HTTP method has one), the authenticated string determines both the method and the query |
| Hancock.TimestampMessage | hancock.go:56 | the 406 message is the reason, ` timestamp `, then the `ts` value as received |
| Hancock.MismatchMessage | hancock.go:70 | the 401 message is `signature mismatch `, the recomputed digest, ` != `, then the `data` value as received |
| Hancock.SignedUrl | hancock.go:94 | the signed URL is `urlStr`, `?`, the query, `&data=`, then the digest, each at its position |
| Hancock.Mac | hancock.go:66-68 | the `data` value is 44 bytes of the base64url alphabet. It contains no `&`, `;`, `%` or `+`, so it survives query parsing unchanged |
| Hancock.MacComparesDigests | hancock.go:69 | two `data` values are equal exactly when the digests they encode are equal |
| Hancock.IsValidTS | hancock.go:32-42 | a `ts` that is not a base-10 int64, the empty `ts` of a missing key included, gives ("invalid", false). A parsable one always gives the reason "expired", and only a parsable one is accepted |
| Hancock.FreshnessWindow | hancock.go:34-39 | a `ts` that reads as d seconds before `now` (after it when d < 0) is accepted exactly when \|d\| is within the window. The check is symmetric, and the bound is inclusive |
| Hancock.TimestampSpelling | hancock.go:32-42 | for every spelling `ParseInt` reads (an optional `+` or `-`, leading zeros, a decimal number): a value outside int64 gives ("invalid", false), however it is written. A value inside is judged only by its distance to `now`, whatever its sign and zeros |
| Hancock.Wrap64 | hancock.go:35-37 | int64 arithmetic: the result is in the int64 range, congruent to the exact result modulo 2^64, and equal to it when that is in range |
| Hancock.IsValidTSAsWritten | hancock.go:32-42 | the freshness check with int64 wrap-around agrees with `IsValidTS` whenever `now - ts` is in range and is not -2^63 |
| Hancock.FarPastTimestampAccepted | hancock.go:35-39 | for every `now` ≥ 0 and window ≥ 0, the timestamp `now - 2^63` passes the check as written and fails the corrected one |
| Hancock.Validate | hancock.go:50-77 | returns a fresh `Values` holding `Validation`'s accepted map, or nil with `Validation`'s error. `Validation` is: freshness when the window is > -1 (406), then the digest over `METHOD:` and the encoding without `data` against the first `data` value (401), then the query without `data`, `apikey` and `ts` |
| Hancock.Authenticate | hancock.go:60-76 | deletes `data`, compares the digest and on success deletes `apikey` and `ts` from the same map, which it hands back. On a mismatch it returns nil and the 401 error, and the map has lost `data` and nothing else |
| Hancock.ValidationStatus | hancock.go:52-71 | every rejection is 406 or 401. 406 with "<reason> timestamp <ts>" happens exactly when the window is non-negative and `ts` is not fresh. 401 with "signature mismatch <mac> != <data>" happens exactly when the freshness check passed or was skipped and the digests differ |
| Hancock.NegativeWindowSkipsFreshness | hancock.go:52 | every negative window gives the same outcome at every clock, and never a 406 |
| Hancock.MissingDataRejected | hancock.go:61-71 | with no `data` in the query and the freshness check passed or skipped, the result is always a 401 |
| Hancock.AcceptedKeepsOtherParams | hancock.go:73-76 | on success, exactly `data`, `apikey` and `ts` are gone, and every other key keeps its list of values |
| Hancock.WithEnvelope | hancock.go:85-86 | `apikey` gains exactly one value (the key) and `ts` exactly one (the decimal clock). No other key changes |
| Hancock.Sign | hancock.go:80-95 | the caller's map becomes `WithEnvelope` of itself (a nil map is treated as empty and left nil). The URL is `urlStr?Q&data=MAC`, where Q is the encoding of the extended map and MAC is the digest of `METHOD:Q` |
| Hancock.SignedUrlQuery | hancock.go:94 | the signed URL is `urlStr`, `?`, then the query: the encoding, `&`, and `data=` with the digest |
| Hancock.EnvelopeStripped | hancock.go:73-76 | removing the three signing keys from the signed parameters leaves the caller's parameters (less empty keys) |
| Hancock.SignedTimestampFresh | hancock.go:86 | the `ts` that `Sign` writes reads back as the signer's clock and is fresh for every non-negative window at that time |
| Hancock.SignedDigestMatches | hancock.go:89-93 | the digest in a signed query equals the one recomputed over the query without `data` |
| Hancock.SignedAuthenticates | hancock.go:60-76 | the signature check accepts the signed parameters and returns the caller's |
| Hancock.SignedRawQuery | hancock.go:94 | when `urlStr` holds no `?` and no `#`, the signed URL has no fragment, and the text after its first `?` is exactly what `Sign` appended after `urlStr` |
| Hancock.SignThenValidate | hancock.go:50-95 | for a base URL without `?` or `#`, Sign followed by Validate of the signed URL's raw query gives back the caller's parameters, less keys with no values. This holds with the same method, private key and clock, every window, and any caller map without `apikey`, `ts` or `data` |
| UrlValues.First | hancock.go:54 | `Get` gives the first value under a key, and `""` when the key is missing or has no values |
| UrlValues.Values.Get | hancock.go:61 | the first value under the key in the object's map, or `""` when there is none |
| UrlValues.FirstAfterAppend | hancock.go:85-86 | after an `Add`, `Get` sees the new value only when the key had no value before. Every other key reads as it did |
| UrlValues.ParseChunk | hancock.go:51 | a chunk that is empty or contains `;` is dropped. Otherwise keys already parsed keep their values as a prefix, and any new key gets at least one value |
| UrlValues.ParseInto | hancock.go:51 | parsing more chunks only appends values. If every key parsed so far has a value, every key afterwards has one |
| UrlValues.ParseQuery | hancock.go:51 | the empty query parses to the empty map, and every parsed key holds at least one value |
| UrlValues.ParseRawPair | hancock.go:51 | a chunk `key=value` whose parts hold no `=`, `;`, `%` or `+` adds exactly that value under that key |
| UrlValues.Append | hancock.go:85-86 | `Add` appends one value under its key and leaves every other key as it was |
| UrlValues.Values.constructor | hancock.go:51 | a fresh `Values` holds the given map (the copy that `r.URL.Query()` returns) |
| UrlValues.Values.Add | hancock.go:85-86 | the map becomes `Append` of the old map |
| UrlValues.Values.Del | hancock.go:62 | the map loses exactly the given key |
| UrlValues.Values.SortedKeyList | hancock.go:89 | lists every key of the map once, in strictly ascending byte order, whatever order the keys are taken in |
| UrlValues.WriteValues | hancock.go:89 | writes the pairs of one key onto the buffer, each as `key=value`, with `&` before every pair except the first of the buffer |
| UrlValues.Values.Encode | hancock.go:63 | returns `Encoded(m)`: the escaped pairs in ascending key order, each key's values in stored order, joined by `&` |
| UrlValues.EncodedAnyEnumeration | hancock.go:89 | any strictly ascending listing of the keys encodes to the same string, so the encoding depends only on the map |
| UrlValues.EncodedNonEmpty | hancock.go:63 | keys with no values contribute nothing to the encoding |
| UrlValues.ParseEncoded | hancock.go:51 | parsing an encoding gives back the map, less its keys with no values |
| UrlValues.ParseEncodedThenPair | hancock.go:94 | an encoding followed by one new `key=value` chunk, both sides plain, parses to the map with that value added |
| UrlValues.EncodedPlain | hancock.go:89 | an encoding holds no `#` and no `?`, so it never ends a URL's query early |
| UrlValues.Line | hancock.go:89 | an encoded pair is never empty and holds no `&` or `;` |
| QueryEscape.Escape | hancock.go:63 | an escaped component holds only unreserved bytes, `+` and `%`, never `&`, `=` or `;` |
| QueryEscape.Unescape | hancock.go:51 | decoding never lengthens, and leaves a component without `%` or `+` as it is |
| QueryEscape.UnescapeEscape | hancock.go:51 | unescaping undoes escaping, for every byte string |
| Strconv.ParseInt | hancock.go:33 | the empty string fails; a result is in the int64 range and comes from an optional sign followed by digits only |
| Strconv.FormatInt | hancock.go:86 | the output starts with `-` exactly for negative numbers and is otherwise digits. It is the shortest spelling: `0` alone for zero, and no leading zero after the sign otherwise |
| Strconv.ParseFormatInt | hancock.go:86 | parsing reads back every int64 that formatting writes |
| Strconv.ParseSpelling | hancock.go:33 | an optional `+` or `-`, any number of leading zeros and a decimal number parse to the signed number when it fits in 64 bits, and fail when it does not (so `"9223372036854775808"` fails, while `"+5"`, `"007"` and `"-0"` read as 5, 7 and 0) |
| Strconv.ParsedSpelling | hancock.go:33 | every string `ParseInt` accepts is such a spelling of the value it returns, so the two lemmas together say exactly what is accepted |
| ByteStrings.SortedKeys | hancock.go:89 | the keys of a set, strictly ascending and each exactly once |
| ByteStrings.SortedUnique | hancock.go:89 | a set has exactly one strictly ascending listing |
| ByteStrings.InsertSorted | hancock.go:89 | inserting a new key keeps a listing strictly ascending and adds just that key |
| ByteStrings.BelowTransitive | hancock.go:89 | the byte-wise order on keys is transitive (together with BelowTotal and BelowAntisymmetric it is a total order) |
| ByteStrings.Cut | hancock.go:51 | splits at the first separator: the part before it is separator-free, and the two parts around it rebuild the input |
| Base64Url.Encode | hancock.go:68 | four output bytes for every three input bytes or fewer, all from the URL-safe alphabet or `=` |
| Base64Url.DecodeEncode | hancock.go:68 | decoding undoes the encoding |
| Base64Url.EncodeInjective | hancock.go:68 | distinct digests have distinct encodings |

## Left out

- `wrappers/wrappers.go` is not part of this model. It is HTTP middleware over a framework whose source is not shown, and it only forwards `Validate`'s status and a key-lookup failure.
- HMAC-SHA256 is the parameter `hmac`, and nothing about its strength is assumed. No property here says that a tampered request is rejected, because that needs cryptographic assumptions.
- `time.Now().UTC().Unix()` is the parameter `now`. `Validate` reads the clock only after `ts` parses, and the model takes it regardless, which makes no difference to the result.
- A request is its method and raw query string. URL parsing beyond the query, headers and bodies are not modelled. The error that `url.ParseQuery` reports is dropped, as `r.URL.Query()` drops it.
- The query parser follows Go 1.17 and later: a chunk containing `;` is dropped. The older behaviour, which split on `;` as well, is not modelled.
- `fmt` is modelled only for the formats used: `%s`, `%d`, and `%v` of a string.
- `strings.Builder` growth in `Values.Encode` and the sorting algorithm are not modelled. Keys are taken in an arbitrary order and inserted in order, and the result is the same listing (`ByteStrings.SortedUnique`).
- The digest comparison is plain equality, as the code has it. Timing behaviour is out of scope.
- `expireSeconds` is taken to be 64 bits wide (a Go `int` on 64-bit platforms), so `int64(expireSeconds)` changes nothing.
- Hancock.Validate: uses the corrected freshness check `IsValidTS`, not the wrapping one. The source's behaviour is kept in `IsValidTSAsWritten`; see Findings.
- Hancock.SignThenValidate: gives back the caller's map less keys that hold no values, not the map itself, because an encoding cannot carry a key without values.
- Hancock.SignThenValidate: holds only for a `urlStr` without `?` and `#`. A base URL with its own query (`https://h/p?x=1`) makes the raw query begin `x=1?apikey=…`, so the first pair reads as `x` with value `1?apikey=…`. A base URL with a fragment moves everything `Sign` appended into the fragment, leaving the query empty.
- `hancock.go` has no window value that skips verification altogether. Every negative window skips only the freshness check (hancock.go:52), and the digest is always compared (`Hancock.NegativeWindowSkipsFreshness`).
- `Sign` appends `apikey` and `ts` to the caller's map in place (hancock.go:85-86). `Hancock.Sign` does the same.

## Findings

| source | as written | input that shows it | evidently intended | confidence | as-written member | corrected member |
|---|---|---|---|---|---|---|
| hancock.go:35-39 | `dur := now - i`, then `dur * -1` when negative, both in int64, then `dur <= expireSeconds` | now = 1700000000, ts = "-9223372035154775808" (now - 2^63): `now - i` wraps to -2^63, negation leaves it at -2^63, so the timestamp is accepted with any window ≥ 0 (`Hancock.FarPastTimestampAccepted`) | a timestamp is accepted only when its true distance to now is within the window (`Hancock.FreshnessWindow`) | not executed; follows from Go's defined int64 wrap-around | Hancock.IsValidTSAsWritten | Hancock.IsValidTS |
