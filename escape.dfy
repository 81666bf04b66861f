// Percent-encoding of one query component, as net/url's QueryEscape and
// QueryUnescape do it: the unreserved bytes of section 2.3 of RFC 3986
// (letters, digits, '-', '_', '.', '~') stand for themselves, a space becomes
// '+', and every other byte becomes '%' followed by two upper-case hex digits
// (section 2.1 of RFC 3986). Decoding accepts either case of hex digit,
// turns '+' back into a space and fails on a '%' not followed by two hex
// digits.

module QueryEscape {
  import opened Wrappers
  import opened ByteStrings

  const HexDigits: Bytes := "0123456789ABCDEF"

  predicate IsUnreserved(c: Byte)
  {
    ('a' <= c <= 'z') || ('A' <= c <= 'Z') || ('0' <= c <= '9')
    || c == '-' || c == '_' || c == '.' || c == '~'
  }

  predicate IsHex(c: Byte)
  {
    ('0' <= c <= '9') || ('a' <= c <= 'f') || ('A' <= c <= 'F')
  }

  function HexValue(c: Byte): (d: nat)
    requires IsHex(c)
    ensures d < 16
  {
    if '0' <= c <= '9' then c as int - '0' as int
    else if 'a' <= c <= 'f' then c as int - 'a' as int + 10
    else c as int - 'A' as int + 10
  }

  /** A byte of an escaped component: never a separator of the query syntax. */
  predicate IsEscapedByte(c: Byte)
  {
    IsUnreserved(c) || c == '+' || c == '%'
  }

  function EscapeByte(c: Byte): (r: Bytes)
    ensures forall i :: 0 <= i < |r| ==> IsEscapedByte(r[i])
  {
    if IsUnreserved(c) then [c]
    else if c == ' ' then "+"
    else ['%', HexDigits[c as int / 16], HexDigits[c as int % 16]]
  }

  /** url.QueryEscape. */
  function Escape(s: Bytes): (r: Bytes)
    ensures forall i :: 0 <= i < |r| ==> IsEscapedByte(r[i])
    ensures '&' !in r && '=' !in r && ';' !in r
    ensures '#' !in r && '?' !in r
  {
    if s == [] then [] else EscapeByte(s[0]) + Escape(s[1..])
  }

  /** url.QueryUnescape; None stands for Go's EscapeError. */
  function Unescape(s: Bytes): (r: Option<Bytes>)
    ensures r.Some? ==> |r.value| <= |s|
    ensures (forall i :: 0 <= i < |s| ==> s[i] != '%' && s[i] != '+') ==> r == Some(s)
  {
    if s == [] then Some([])
    else if s[0] == '%' then
      if |s| < 3 || !IsHex(s[1]) || !IsHex(s[2]) then None
      else match Unescape(s[3..])
        case None => None
        case Some(rest) => Some([(HexValue(s[1]) * 16 + HexValue(s[2])) as char] + rest)
    else
      var c: Byte := if s[0] == '+' then ' ' else s[0];
      assert s == [s[0]] + s[1..];
      assert forall i :: 0 <= i < |s[1..]| ==> s[1..][i] == s[i + 1];
      match Unescape(s[1..])
      case None => None
      case Some(rest) => Some([c] + rest)
  }

  lemma HexDigitValue(d: nat)
    requires d < 16
    ensures IsHex(HexDigits[d]) && HexValue(HexDigits[d]) == d
  {
  }

  /** Decoding one escaped byte in front of the rest of a component. */
  lemma {:induction false} UnescapeEscapeByte(c: Byte, t: Bytes)
    ensures Unescape(EscapeByte(c) + t) ==
              match Unescape(t) case None => None case Some(u) => Some([c] + u)
  {
    var e := EscapeByte(c);
    if !IsUnreserved(c) && c != ' ' {
      HexDigitValue(c as int / 16);
      HexDigitValue(c as int % 16);
      assert (e + t)[3..] == t;
    } else {
      assert (e + t)[1..] == t;
    }
  }

  /** QueryUnescape undoes QueryEscape. */
  lemma {:induction false} UnescapeEscape(s: Bytes)
    ensures Unescape(Escape(s)) == Some(s)
  {
    if s != [] {
      UnescapeEscape(s[1..]);
      UnescapeEscapeByte(s[0], Escape(s[1..]));
      assert s == [s[0]] + s[1..];
    }
  }
}
