// base64.URLEncoding.EncodeToString: the URL- and filename-safe alphabet of
// section 5 of RFC 4648, with '=' padding. Validate and Sign apply it to the
// raw HMAC-SHA256 digest; what matters to the protocol is that its output
// holds no byte that the query syntax treats specially.

module Base64Url {
  import opened Wrappers
  import opened ByteStrings

  predicate IsBase64UrlByte(c: Byte)
  {
    ('A' <= c <= 'Z') || ('a' <= c <= 'z') || ('0' <= c <= '9') || c == '-' || c == '_' || c == '='
  }

  /** The alphabet letter for a six-bit value: A-Z, a-z, 0-9, '-', '_'. */
  function Sextet(n: nat): (c: Byte)
    requires n < 64
    ensures IsBase64UrlByte(c) && c != '='
  {
    if n < 26 then ('A' as int + n) as char
    else if n < 52 then ('a' as int + n - 26) as char
    else if n < 62 then ('0' as int + n - 52) as char
    else if n == 62 then '-'
    else '_'
  }

  /** One group of one to three input bytes as four output bytes. */
  function Quantum(g: Bytes): (r: Bytes)
    requires 1 <= |g| <= 3
    ensures |r| == 4
    ensures forall i :: 0 <= i < |r| ==> IsBase64UrlByte(r[i])
  {
    var b0 := g[0] as int;
    var b1 := if |g| > 1 then g[1] as int else 0;
    var b2 := if |g| > 2 then g[2] as int else 0;
    var c0 := Sextet(b0 / 4);
    var c1 := Sextet((b0 % 4) * 16 + b1 / 16);
    var c2 := if |g| > 1 then Sextet((b1 % 16) * 4 + b2 / 64) else '=';
    var c3 := if |g| > 2 then Sextet(b2 % 64) else '=';
    [c0, c1, c2, c3]
  }

  /** Four output bytes per three input bytes; a short last group is padded. */
  function Encode(s: Bytes): (r: Bytes)
    ensures |r| == 4 * ((|s| + 2) / 3)
    ensures forall i :: 0 <= i < |r| ==> IsBase64UrlByte(r[i])
  {
    if s == [] then []
    else if |s| <= 3 then
      assert (|s| + 2) / 3 == 1;
      Quantum(s)
    else
      var head, tail := Quantum(s[..3]), Encode(s[3..]);
      assert (|s| + 2) / 3 == (|s[3..]| + 2) / 3 + 1;
      assert |head + tail| == 4 + |tail|;
      assert forall i :: 4 <= i < |head + tail| ==> (head + tail)[i] == tail[i - 4];
      head + tail
  }

  // Decoding is not something hancock does; it is the inverse that shows
  // the encoding loses nothing, so that comparing two encoded digests is
  // comparing the digests themselves.

  /** The six-bit value of an alphabet letter. */
  function SextetValue(c: Byte): (n: nat)
    requires IsBase64UrlByte(c) && c != '='
    ensures n < 64
  {
    if 'A' <= c <= 'Z' then c as int - 'A' as int
    else if 'a' <= c <= 'z' then c as int - 'a' as int + 26
    else if '0' <= c <= '9' then c as int - '0' as int + 52
    else if c == '-' then 62
    else 63
  }

  predicate IsLetter(c: Byte)
  {
    IsBase64UrlByte(c) && c != '='
  }

  lemma SextetValueOf(n: nat)
    requires n < 64
    ensures SextetValue(Sextet(n)) == n
  {
  }

  /** Four bytes of encoded text back to one, two or three bytes. */
  function DecodeQuantum(q: Bytes): (r: Option<Bytes>)
    requires |q| == 4
    ensures r.Some? ==> 1 <= |r.value| <= 3
  {
    if !IsLetter(q[0]) || !IsLetter(q[1]) then None
    else
      var v0, v1 := SextetValue(q[0]), SextetValue(q[1]);
      var b0 := (v0 * 4 + v1 / 16) as char;
      if q[2] == '=' then
        if q[3] == '=' then Some([b0]) else None
      else if !IsLetter(q[2]) then None
      else
        var v2 := SextetValue(q[2]);
        var b1 := ((v1 % 16) * 16 + v2 / 4) as char;
        if q[3] == '=' then Some([b0, b1])
        else if !IsLetter(q[3]) then None
        else
          var v3 := SextetValue(q[3]);
          Some([b0, b1, ((v2 % 4) * 64 + v3) as char])
  }

  /** Padded base64url text back to bytes; None for text Encode cannot produce. */
  function Decode(s: Bytes): (r: Option<Bytes>)
    decreases |s|
  {
    if s == [] then Some([])
    else if |s| < 4 then None
    else match DecodeQuantum(s[..4])
      case None => None
      case Some(g) =>
        if |g| < 3 && |s| > 4 then None
        else match Decode(s[4..])
          case None => None
          case Some(rest) => Some(g + rest)
  }

  /** The three sextets of a group, put back together, give its three bytes. */
  lemma RegroupBytes(b0: nat, b1: nat, b2: nat)
    requires b0 < 256 && b1 < 256 && b2 < 256
    ensures (b0 / 4) * 4 + ((b0 % 4) * 16 + b1 / 16) / 16 == b0
    ensures (((b0 % 4) * 16 + b1 / 16) % 16) * 16 + ((b1 % 16) * 4 + b2 / 64) / 4 == b1
    ensures (((b1 % 16) * 4 + b2 / 64) % 4) * 64 + b2 % 64 == b2
  {
  }

  /** The letters of a group's encoding decode to its sextets. */
  lemma QuantumLetters(g: Bytes)
    requires 1 <= |g| <= 3
    ensures var q, b0 := Quantum(g), g[0] as int;
            var b1 := if |g| > 1 then g[1] as int else 0;
            var b2 := if |g| > 2 then g[2] as int else 0;
            && IsLetter(q[0]) && SextetValue(q[0]) == b0 / 4
            && IsLetter(q[1]) && SextetValue(q[1]) == (b0 % 4) * 16 + b1 / 16
            && (q[2] == '=' <==> |g| == 1)
            && (|g| > 1 ==> IsLetter(q[2]) && SextetValue(q[2]) == (b1 % 16) * 4 + b2 / 64)
            && (q[3] == '=' <==> |g| <= 2)
            && (|g| > 2 ==> IsLetter(q[3]) && SextetValue(q[3]) == b2 % 64)
  {
    var b0 := g[0] as int;
    var b1 := if |g| > 1 then g[1] as int else 0;
    var b2 := if |g| > 2 then g[2] as int else 0;
    SextetValueOf(b0 / 4);
    SextetValueOf((b0 % 4) * 16 + b1 / 16);
    SextetValueOf((b1 % 16) * 4 + b2 / 64);
    SextetValueOf(b2 % 64);
  }

  lemma DecodeQuantumOf(g: Bytes)
    requires 1 <= |g| <= 3
    ensures DecodeQuantum(Quantum(g)) == Some(g)
  {
    var b0 := g[0] as int;
    var b1 := if |g| > 1 then g[1] as int else 0;
    var b2 := if |g| > 2 then g[2] as int else 0;
    RegroupBytes(b0, b1, b2);
    QuantumLetters(g);
    if |g| > 2 {
      assert g == [g[0], g[1], g[2]];
    } else if |g| == 2 {
      assert g == [g[0], g[1]];
    } else {
      assert g == [g[0]];
    }
  }

  /** Decoding undoes Encode. */
  lemma {:induction false} DecodeEncode(s: Bytes)
    ensures Decode(Encode(s)) == Some(s)
    decreases |s|
  {
    if s == [] {
    } else if |s| <= 3 {
      DecodeQuantumOf(s);
      assert Quantum(s)[..4] == Quantum(s);
      assert Encode(s) == Quantum(s);
      assert Quantum(s) + [] == Quantum(s);
      assert s + [] == s;
    } else {
      var head, tail := Quantum(s[..3]), Encode(s[3..]);
      DecodeQuantumOf(s[..3]);
      DecodeEncode(s[3..]);
      assert (head + tail)[..4] == head;
      assert (head + tail)[4..] == tail;
      assert s[..3] + s[3..] == s;
    }
  }

  /** Distinct byte strings have distinct encodings. */
  lemma EncodeInjective(a: Bytes, b: Bytes)
    requires Encode(a) == Encode(b)
    ensures a == b
  {
    DecodeEncode(a);
    DecodeEncode(b);
  }
}
