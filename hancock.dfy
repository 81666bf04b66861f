// The hancock request-signing protocol (hancock.go).
//
// A signer adds its public key ("apikey") and the current Unix time ("ts")
// to the query parameters, authenticates "METHOD:" followed by the encoded
// parameters with HMAC-SHA256 under a private key, and appends the
// base64url digest as "data". A validator optionally checks that "ts" is
// within a window of its own clock, removes "data", recomputes the digest
// over what is left, compares, and hands back the parameters without the
// three signing fields.
//
// The clock (time.Now().UTC().Unix()) is the parameter `now`; HMAC-SHA256
// (RFC 2104 over the SHA-256 of FIPS 180-4) is the parameter `hmac`, a
// function from key and message to a 32-byte digest about which nothing
// else is assumed.

module Hancock {
  import opened Wrappers
  import opened ByteStrings
  import opened Strconv
  import opened UrlValues
  import QueryEscape
  import Base64Url

  const ApiKeyParam: Bytes := "apikey"
  const TsParam: Bytes := "ts"
  const DataParam: Bytes := "data"

  const StatusUnauthorized: int := 401
  const StatusNotAcceptable: int := 406

  /** hancock.Error: a message and the HTTP status that goes with it. */
  datatype Error = Error(s: Bytes, Status: int)
  {
    /** Error.Error(): the message; together with the status it is the whole error. */
    function Message(): (r: Bytes)
      ensures this == Error(r, Status)
    {
      s
    }
  }

  /** newError, with the message already formatted by the caller. */
  function NewError(status: int, message: Bytes): (e: Error)
    ensures e.Status == status && e.Message() == message
  {
    Error(message, status)
  }

  /** What Validate reads of an *http.Request: its method and raw query. */
  datatype Request = Request(httpMethod: Bytes, rawQuery: Bytes)

  type Digest = d: Bytes | |d| == 32 witness seq(32, i => 'a')

  /** HMAC-SHA256 of a message under a key. */
  type Hmac = (Bytes, Bytes) -> Digest

  /**
   * The "data" value for a message: the HMAC-SHA256 digest, base64url
   * encoded. It is 44 bytes long and holds only bytes that pass through
   * query parsing unchanged.
   */
  function Mac(hmac: Hmac, key: Bytes, message: Bytes): (r: Bytes)
    ensures |r| == 44
    ensures forall i :: 0 <= i < |r| ==> Base64Url.IsBase64UrlByte(r[i])
    ensures '&' !in r && ';' !in r && '%' !in r && '+' !in r
    ensures '#' !in r && '?' !in r
    ensures QueryEscape.Unescape(r) == Some(r)
  {
    Base64Url.Encode(hmac(key, message))
  }

  /**
   * Comparing two "data" values is comparing the digests they encode:
   * base64url loses nothing.
   */
  lemma MacComparesDigests(hmac: Hmac, key: Bytes, m1: Bytes, m2: Bytes)
    ensures Mac(hmac, key, m1) == Mac(hmac, key, m2) <==> hmac(key, m1) == hmac(key, m2)
  {
    if Mac(hmac, key, m1) == Mac(hmac, key, m2) {
      Base64Url.EncodeInjective(hmac(key, m1), hmac(key, m2));
    }
  }

  /** The string that is authenticated: "METHOD:" and the encoded parameters. */
  function Canonical(httpMethod: Bytes, query: Bytes): (r: Bytes)
    ensures |r| == |httpMethod| + 1 + |query|
    ensures r[..|httpMethod|] == httpMethod && r[|httpMethod|] == ':' && r[|httpMethod| + 1..] == query
  {
    httpMethod + ":" + query
  }

  /** fmt.Sprintf("%s timestamp %s", reason, ts). */
  function TimestampMessage(reason: Bytes, ts: Bytes): (r: Bytes)
    ensures |r| == |reason| + 11 + |ts|
    ensures r[..|reason|] == reason && r[|reason|..|reason| + 11] == " timestamp "
    ensures r[|reason| + 11..] == ts
  {
    reason + " timestamp " + ts
  }

  /** fmt.Sprintf("signature mismatch %s != %s", encHash, data). */
  function MismatchMessage(encHash: Bytes, data: Bytes): (r: Bytes)
    ensures |r| == 23 + |encHash| + |data|
    ensures r[..19] == "signature mismatch " && r[19..19 + |encHash|] == encHash
    ensures r[19 + |encHash|..23 + |encHash|] == " != " && r[23 + |encHash|..] == data
  {
    "signature mismatch " + encHash + " != " + data
  }

  /**
   * An HTTP method holds no ':', so the authenticated string determines
   * both the method and the encoded query it was built from.
   */
  lemma CanonicalInjective(m1: Bytes, q1: Bytes, m2: Bytes, q2: Bytes)
    requires ':' !in m1 && ':' !in m2
    requires Canonical(m1, q1) == Canonical(m2, q2)
    ensures m1 == m2 && q1 == q2
  {
  }

  /** The URL Sign returns: urlStr?query&data=encHash. */
  function SignedUrl(urlStr: Bytes, query: Bytes, encHash: Bytes): (r: Bytes)
    ensures |r| == |urlStr| + |query| + |encHash| + 7
    ensures r[..|urlStr|] == urlStr && r[|urlStr|] == '?'
    ensures r[|urlStr| + 1..|urlStr| + 1 + |query|] == query
    ensures r[|urlStr| + 1 + |query|..|r| - |encHash|] == "&data="
    ensures r[|r| - |encHash|..] == encHash
  {
    urlStr + "?" + query + "&data=" + encHash
  }

  // ---------------------------------------------------------------------
  // Freshness
  // ---------------------------------------------------------------------

  function Abs(x: int): nat
  {
    if x < 0 then -x else x
  }

  /**
   * isValidTS: a timestamp that is not a base-10 int64 is "invalid"; one
   * that is, is fresh when it lies within expireSeconds of now, in either
   * direction, and its failure reason is "expired" either way.
   * The distance is computed without int64 overflow (see
   * IsValidTSAsWritten for the wrapping arithmetic of the source).
   */
  function IsValidTS(ts: Bytes, expireSeconds: int, now: int): (r: (Bytes, bool))
    ensures ts == [] ==> r == ("invalid", false)
    ensures r.1 ==> r.0 == "expired"
    ensures ParseInt(ts).None? ==> r == ("invalid", false)
    ensures ParseInt(ts).Some? ==> r.0 == "expired"
  {
    match ParseInt(ts)
    case None => ("invalid", false)
    case Some(i) => ("expired", Abs(now - i) <= expireSeconds)
  }

  /**
   * A timestamp written d seconds before now (after now when d is
   * negative) is fresh exactly when |d| is within the window: the check is
   * symmetric, a timestamp exactly expireSeconds old passes and one a
   * second older fails.
   */
  lemma FreshnessWindow(ts: Bytes, now: int, d: int, expireSeconds: int)
    requires ParseInt(ts) == Some(now - d)
    ensures IsValidTS(ts, expireSeconds, now) == ("expired", Abs(d) <= expireSeconds)
  {
  }

  /**
   * isValidTS on each spelling that strconv.ParseInt reads (with
   * ParsedSpelling: on every string it reads at all). A value outside the
   * int64 range is "invalid" however it is written; one inside is judged
   * by its distance to now, whatever its sign and leading zeros.
   */
  lemma TimestampSpelling(sign: Bytes, z: nat, u: nat, expireSeconds: int, now: int)
    requires sign == [] || sign == "+" || sign == "-"
    ensures var v := if sign == "-" then -(u as int) else u as int;
            IsValidTS(sign + Zeros(z) + FormatNat(u), expireSeconds, now) ==
              if IsInt64(v) then ("expired", Abs(now - v) <= expireSeconds) else ("invalid", false)
  {
    ParseSpelling(sign, z, u);
  }

  const TwoTo63: int := 0x8000_0000_0000_0000
  const TwoTo64: int := 0x1_0000_0000_0000_0000

  /** The int64 result of an operation whose exact result is x. */
  function Wrap64(x: int): (r: int)
    ensures IsInt64(r)
    ensures (x - r) % TwoTo64 == 0
    ensures IsInt64(x) ==> r == x
  {
    (x + TwoTo63) % TwoTo64 - TwoTo63
  }

  /**
   * isValidTS as written: `dur := now - i` and `dur * -1` are int64
   * operations, which wrap around.
   */
  function IsValidTSAsWritten(ts: Bytes, expireSeconds: int, now: int): (r: (Bytes, bool))
    requires IsInt64(now) && IsInt64(expireSeconds)
    ensures ParseInt(ts).None? ==> r == ("invalid", false)
    ensures ParseInt(ts).Some? && IsInt64(now - ParseInt(ts).value) && now - ParseInt(ts).value != MinInt64 ==>
              r == IsValidTS(ts, expireSeconds, now)
  {
    match ParseInt(ts)
    case None => ("invalid", false)
    case Some(i) =>
      var dur := Wrap64(now - i);
      var dur' := if dur < 0 then Wrap64(dur * -1) else dur;
      ("expired", dur' <= expireSeconds)
  }

  /**
   * The wrap-around accepts a timestamp 2^63 seconds before any
   * non-negative now, with every window: now - ts wraps to -2^63, whose
   * negation wraps to itself, which is below every window.
   */
  lemma FarPastTimestampAccepted(now: int, expireSeconds: int)
    requires 0 <= now <= MaxInt64 && 0 <= expireSeconds <= MaxInt64
    ensures var ts := FormatInt(now - TwoTo63);
            && IsValidTSAsWritten(ts, expireSeconds, now) == ("expired", true)
            && IsValidTS(ts, expireSeconds, now) == ("expired", false)
  {
    ParseFormatInt(now - TwoTo63);
  }

  // ---------------------------------------------------------------------
  // Validate
  // ---------------------------------------------------------------------

  /** The result of Validate: the cleaned parameters, or an error. */
  datatype Outcome = Accepted(values: Params) | Rejected(err: Error)

  /**
   * The signature check on a parsed query: the digest of "METHOD:" and the
   * encoding of every parameter but "data" must equal the first "data"
   * value; on success the three signing keys are removed.
   */
  ghost function Authentication(q: Params, httpMethod: Bytes, pKey: Bytes, hmac: Hmac): Outcome
  {
    var data := First(q, DataParam);
    var encHash := Mac(hmac, pKey, Canonical(httpMethod, Encoded(q - {DataParam})));
    if encHash != data then
      Rejected(NewError(StatusUnauthorized, MismatchMessage(encHash, data)))
    else
      Accepted(q - {DataParam, ApiKeyParam, TsParam})
  }

  /** What Validate decides for a request. */
  ghost function Validation(r: Request, pKey: Bytes, expireSeconds: int, now: int, hmac: Hmac): Outcome
  {
    var q := ParseQuery(r.rawQuery);
    var ts := First(q, TsParam);
    var (reason, isFresh) := IsValidTS(ts, expireSeconds, now);
    if expireSeconds > -1 && !isFresh then
      Rejected(NewError(StatusNotAcceptable, TimestampMessage(reason, ts)))
    else
      Authentication(q, r.httpMethod, pKey, hmac)
  }

  /**
   * Validate: checks the request against pKey and the freshness window, and
   * returns the request's parameters less "data", "apikey" and "ts", or an
   * error with its HTTP status. It parses its own copy of the query; the
   * request is a value and is left as it was.
   */
  method Validate(r: Request, pKey: Bytes, expireSeconds: int, now: int, hmac: Hmac)
    returns (values: Values?, err: Option<Error>)
    ensures match Validation(r, pKey, expireSeconds, now, hmac)
            case Accepted(vs) => values != null && fresh(values) && values.m == vs && err == None
            case Rejected(e) => values == null && err == Some(e)
  {
    var q := new Values(ParseQuery(r.rawQuery));
    if expireSeconds > -1 {
      var ts := q.Get(TsParam);
      var (s, ok) := IsValidTS(ts, expireSeconds, now);
      if !ok {
        return null, Some(NewError(StatusNotAcceptable, TimestampMessage(s, ts)));
      }
    }
    values, err := Authenticate(q, r.httpMethod, pKey, hmac);
  }

  /**
   * The second half of Validate, on the parsed query q: it removes "data"
   * from q, checks the digest, and on success removes "apikey" and "ts" too
   * and hands q back.
   */
  method Authenticate(q: Values, httpMethod: Bytes, pKey: Bytes, hmac: Hmac)
    returns (values: Values?, err: Option<Error>)
    modifies q
    ensures match Authentication(old(q.m), httpMethod, pKey, hmac)
            case Accepted(vs) => values == q && q.m == vs && err == None
            case Rejected(e) => values == null && err == Some(e) && q.m == old(q.m) - {DataParam}
  {
    ghost var outcome := Authentication(q.m, httpMethod, pKey, hmac);
    ghost var q0 := q.m;
    var data := q.Get(DataParam);
    q.Del(DataParam);
    var query := q.Encode();
    var encHash := Mac(hmac, pKey, Canonical(httpMethod, query));
    if encHash != data {
      assert outcome == Rejected(NewError(StatusUnauthorized, MismatchMessage(encHash, data)));
      return null, Some(NewError(StatusUnauthorized, MismatchMessage(encHash, data)));
    }

    q.Del(ApiKeyParam);
    q.Del(TsParam);
    assert q.m == q0 - {DataParam, ApiKeyParam, TsParam};
    assert outcome == Accepted(q.m);
    return q, None;
  }

  /**
   * Every rejection carries 406 or 401: 406, with "<reason> timestamp <ts>",
   * exactly when the window is non-negative and the first "ts" value is not
   * fresh; 401, with the two digests, exactly when the freshness check was
   * passed or skipped and the recomputed digest differs from the first
   * "data" value.
   */
  lemma ValidationStatus(r: Request, pKey: Bytes, expireSeconds: int, now: int, hmac: Hmac)
    ensures var q := ParseQuery(r.rawQuery);
            var ts := First(q, TsParam);
            var check := IsValidTS(ts, expireSeconds, now);
            var encHash := Mac(hmac, pKey, Canonical(r.httpMethod, Encoded(q - {DataParam})));
            var o := Validation(r, pKey, expireSeconds, now, hmac);
            && (o.Rejected? ==> o.err.Status == StatusNotAcceptable || o.err.Status == StatusUnauthorized)
            && (o.Rejected? && o.err.Status == StatusNotAcceptable <==> expireSeconds > -1 && !check.1)
            && (o.Rejected? && o.err.Status == StatusNotAcceptable ==>
                  o.err.Message() == TimestampMessage(check.0, ts))
            && (o.Rejected? && o.err.Status == StatusUnauthorized <==>
                  (expireSeconds <= -1 || check.1) && encHash != First(q, DataParam))
            && (o.Rejected? && o.err.Status == StatusUnauthorized ==>
                  o.err.Message() == MismatchMessage(encHash, First(q, DataParam)))
  {
  }

  /**
   * A negative window skips the freshness check altogether: the outcome
   * is the same for every negative window and every clock, and is never a
   * 406.
   */
  lemma NegativeWindowSkipsFreshness(r: Request, pKey: Bytes, w1: int, w2: int, now1: int, now2: int, hmac: Hmac)
    requires w1 < 0 && w2 < 0
    ensures Validation(r, pKey, w1, now1, hmac) == Validation(r, pKey, w2, now2, hmac)
    ensures Validation(r, pKey, w1, now1, hmac).Rejected? ==>
              Validation(r, pKey, w1, now1, hmac).err.Status == StatusUnauthorized
  {
  }

  /**
   * A request without "data" is rejected with 401 whenever the freshness
   * check passes or is skipped: "data" reads as "", and no digest is empty.
   */
  lemma MissingDataRejected(r: Request, pKey: Bytes, expireSeconds: int, now: int, hmac: Hmac)
    requires DataParam !in ParseQuery(r.rawQuery)
    requires expireSeconds <= -1 || IsValidTS(First(ParseQuery(r.rawQuery), TsParam), expireSeconds, now).1
    ensures Validation(r, pKey, expireSeconds, now, hmac).Rejected?
    ensures Validation(r, pKey, expireSeconds, now, hmac).err.Status == StatusUnauthorized
  {
  }

  /**
   * On success only the three signing keys are gone: every other key of the
   * request keeps exactly its list of values.
   */
  lemma AcceptedKeepsOtherParams(r: Request, pKey: Bytes, expireSeconds: int, now: int, hmac: Hmac)
    ensures var q, o := ParseQuery(r.rawQuery), Validation(r, pKey, expireSeconds, now, hmac);
            o.Accepted? ==>
              && o.values.Keys == q.Keys - {DataParam, ApiKeyParam, TsParam}
              && forall k :: k in o.values ==> o.values[k] == q[k]
  {
  }

  // ---------------------------------------------------------------------
  // Sign
  // ---------------------------------------------------------------------

  /** The parameters after Sign's two Add calls. */
  function WithEnvelope(qs: Params, key: Bytes, now: int): (r: Params)
    ensures r.Keys == qs.Keys + {ApiKeyParam, TsParam}
    ensures r[ApiKeyParam] == Lookup(qs, ApiKeyParam) + [key]
    ensures r[TsParam] == Lookup(qs, TsParam) + [FormatInt(now)]
    ensures forall k :: k in qs && k != ApiKeyParam && k != TsParam ==> r[k] == qs[k]
  {
    Append(Append(qs, ApiKeyParam, key), TsParam, FormatInt(now))
  }

  /** The URL Sign returns for the parameters qs. */
  ghost function Signed(httpMethod: Bytes, key: Bytes, pKey: Bytes, urlStr: Bytes, qs: Params, now: int, hmac: Hmac): Bytes
  {
    var q := Encoded(WithEnvelope(qs, key, now));
    SignedUrl(urlStr, q, Mac(hmac, pKey, Canonical(httpMethod, q)))
  }

  /**
   * Sign: adds key under "apikey" and now under "ts" to the caller's map (a
   * nil map is treated as empty and nothing is written back), then returns
   * urlStr, '?', the encoded parameters, and "&data=" with their digest.
   */
  method Sign(httpMethod: Bytes, key: Bytes, pKey: Bytes, urlStr: Bytes, qs: Values?, now: int, hmac: Hmac)
    returns (signed: Bytes)
    modifies qs
    ensures qs != null ==> qs.m == WithEnvelope(old(qs.m), key, now)
    ensures signed == Signed(httpMethod, key, pKey, urlStr, if qs == null then map[] else old(qs.m), now, hmac)
  {
    var v := qs;
    if v == null {
      v := new Values(map[]);
    }
    v.Add(ApiKeyParam, key);
    v.Add(TsParam, FormatInt(now));

    var q := v.Encode();
    var sig := Canonical(httpMethod, q);
    var encHash := Mac(hmac, pKey, sig);
    signed := SignedUrl(urlStr, q, encHash);
  }

  // ---------------------------------------------------------------------
  // Sign, then Validate
  // ---------------------------------------------------------------------

  /** The key "data" holds no separator and decodes to itself. */
  lemma DataKeyPlain()
    ensures '=' !in DataParam && ';' !in DataParam && '&' !in DataParam
    ensures '%' !in DataParam && '+' !in DataParam
  {
  }

  /** The query part of a signed URL: the encoding, '&', then the "data" chunk. */
  lemma SignedUrlQuery(urlStr: Bytes, query: Bytes, encHash: Bytes)
    ensures var signed := SignedUrl(urlStr, query, encHash);
            && |urlStr| < |signed|
            && signed == urlStr + "?" + signed[|urlStr| + 1..]
            && signed[|urlStr| + 1..] == query + "&" + (DataParam + "=" + encHash)
  {
    var signed := SignedUrl(urlStr, query, encHash);
    assert "&data=" == "&" + DataParam + "=";
    assert signed == urlStr + "?" + (query + "&" + (DataParam + "=" + encHash));
  }

  /**
   * Go's URL parsing ends the path at the first '?' and the query at the
   * first '#'. When urlStr holds neither, the signed URL has no fragment
   * and its raw query is exactly what Sign appended after urlStr and '?'.
   */
  lemma SignedRawQuery(urlStr: Bytes, query: Bytes, encHash: Bytes)
    requires '?' !in urlStr && '#' !in urlStr && '#' !in query && '#' !in encHash
    ensures var signed := SignedUrl(urlStr, query, encHash);
            && '#' !in signed
            && |urlStr| < |signed|
            && Cut(signed, '?') == (urlStr, signed[|urlStr| + 1..])
  {
    var signed := SignedUrl(urlStr, query, encHash);
    SignedUrlQuery(urlStr, query, encHash);
    CutAt(urlStr, '?', signed[|urlStr| + 1..]);
  }

  /**
   * Of the parsed signed parameters, what is left once the three signing
   * keys are removed is what the caller passed, less its empty keys.
   */
  lemma EnvelopeStripped(qs: Params, key: Bytes, now: int, encHash: Bytes)
    requires ApiKeyParam !in qs && TsParam !in qs && DataParam !in qs
    ensures NonEmpty(WithEnvelope(qs, key, now))[DataParam := [encHash]] - {DataParam, ApiKeyParam, TsParam} == NonEmpty(qs)
  {
    var full := WithEnvelope(qs, key, now);
    var lhs := NonEmpty(full)[DataParam := [encHash]] - {DataParam, ApiKeyParam, TsParam};
    forall k
      ensures k in lhs <==> k in NonEmpty(qs)
      ensures k in lhs ==> lhs[k] == NonEmpty(qs)[k]
    {
      if k in qs && k != DataParam && k != ApiKeyParam && k != TsParam {
        assert full[k] == qs[k];
      }
    }
  }

  /** The parameters a signed URL's query parses to: the signed ones with values, and "data". */
  ghost function SignedParams(httpMethod: Bytes, key: Bytes, pKey: Bytes, qs: Params, now: int, hmac: Hmac): Params
  {
    var full := WithEnvelope(qs, key, now);
    NonEmpty(full)[DataParam := [Mac(hmac, pKey, Canonical(httpMethod, Encoded(full)))]]
  }

  /** The signer's clock reading is fresh for every non-negative window at that same time. */
  lemma SignedTimestampFresh(httpMethod: Bytes, key: Bytes, pKey: Bytes, qs: Params, now: int, hmac: Hmac, expireSeconds: int)
    requires IsInt64(now) && TsParam !in qs && expireSeconds >= 0
    ensures var ts := First(SignedParams(httpMethod, key, pKey, qs, now, hmac), TsParam);
            ts == FormatInt(now) && IsValidTS(ts, expireSeconds, now).1
  {
    ParseFormatInt(now);
  }

  lemma RemoveAdded(m: Params, key: Bytes, vs: seq<Bytes>)
    requires key !in m
    ensures m[key := vs] - {key} == m
  {
  }

  /** The digest in SignedParams is the one recomputed over the rest of them. */
  lemma SignedDigestMatches(httpMethod: Bytes, key: Bytes, pKey: Bytes, qs: Params, now: int, hmac: Hmac)
    requires DataParam !in qs
    ensures var q := SignedParams(httpMethod, key, pKey, qs, now, hmac);
            First(q, DataParam) == Mac(hmac, pKey, Canonical(httpMethod, Encoded(q - {DataParam})))
  {
    var full := WithEnvelope(qs, key, now);
    var encHash := Mac(hmac, pKey, Canonical(httpMethod, Encoded(full)));
    assert DataParam !in NonEmpty(full);
    RemoveAdded(NonEmpty(full), DataParam, [encHash]);
    EncodedNonEmpty(full);
  }

  /** The signature check accepts SignedParams and strips them back to the caller's parameters. */
  lemma SignedAuthenticates(httpMethod: Bytes, key: Bytes, pKey: Bytes, qs: Params, now: int, hmac: Hmac)
    requires ApiKeyParam !in qs && TsParam !in qs && DataParam !in qs
    ensures Authentication(SignedParams(httpMethod, key, pKey, qs, now, hmac), httpMethod, pKey, hmac) == Accepted(NonEmpty(qs))
  {
    var full := WithEnvelope(qs, key, now);
    SignedDigestMatches(httpMethod, key, pKey, qs, now, hmac);
    EnvelopeStripped(qs, key, now, Mac(hmac, pKey, Canonical(httpMethod, Encoded(full))));
  }

  /**
   * The query of a signed URL validates: with the method, private key and
   * clock the signer used, and any window (negative or not), Validate
   * accepts and returns the signer's parameters, except for keys that had
   * no values, which an encoding cannot carry. The base URL must hold no
   * '?' and no '#'; then the signed URL has no fragment, and the text after
   * its first '?' is the raw query a server receives.
   */
  lemma {:induction false} SignThenValidate(httpMethod: Bytes, key: Bytes, pKey: Bytes, urlStr: Bytes, qs: Params,
                                            now: int, expireSeconds: int, hmac: Hmac)
    requires IsInt64(now)
    requires ApiKeyParam !in qs && TsParam !in qs && DataParam !in qs
    requires '?' !in urlStr && '#' !in urlStr
    ensures var signed := Signed(httpMethod, key, pKey, urlStr, qs, now, hmac);
            && |urlStr| < |signed|
            && '#' !in signed
            && Cut(signed, '?') == (urlStr, signed[|urlStr| + 1..])
            && Validation(Request(httpMethod, signed[|urlStr| + 1..]), pKey, expireSeconds, now, hmac) == Accepted(NonEmpty(qs))
  {
    var full := WithEnvelope(qs, key, now);
    var encHash := Mac(hmac, pKey, Canonical(httpMethod, Encoded(full)));
    SignedUrlQuery(urlStr, Encoded(full), encHash);
    EncodedPlain(full);
    SignedRawQuery(urlStr, Encoded(full), encHash);
    assert DataParam !in full;
    DataKeyPlain();
    ParseEncodedThenPair(full, ApiKeyParam, DataParam, encHash);
    if expireSeconds >= 0 {
      SignedTimestampFresh(httpMethod, key, pKey, qs, now, hmac, expireSeconds);
    }
    SignedAuthenticates(httpMethod, key, pKey, qs, now, hmac);
  }
}
