/** `encodeURIComponent` and `decodeURIComponent` on well-formed strings: percent-encoded UTF-8. */
module UriEncoding {
  import opened Basics

  predicate Alphanumeric(c: char) {
    'A' <= c <= 'Z' || 'a' <= c <= 'z' || '0' <= c <= '9'
  }

  /** The characters that stand for themselves. */
  predicate Unreserved(c: char) {
    Alphanumeric(c) || c in "-_.!~*'()"
  }

  type Octet = x: int | 0 <= x < 256

  /** The UTF-8 octets of a character. */
  function Utf8(c: char): (r: seq<Octet>)
    ensures 1 <= |r| <= 4
  {
    var n := c as int;
    if n < 0x80 then [n]
    else if n < 0x800 then [0xC0 + n / 64, 0x80 + n % 64]
    else if n < 0x1_0000 then [0xE0 + n / 4096, 0x80 + n / 64 % 64, 0x80 + n % 64]
    else [0xF0 + n / 262144, 0x80 + n / 4096 % 64, 0x80 + n / 64 % 64, 0x80 + n % 64]
  }

  function HexDigit(d: nat): char
    requires d < 16
  {
    "0123456789ABCDEF"[d]
  }

  function HexValue(c: char): (r: int)
    ensures -1 <= r < 16
  {
    if '0' <= c <= '9' then c as int - '0' as int
    else if 'A' <= c <= 'F' then c as int - 'A' as int + 10
    else if 'a' <= c <= 'f' then c as int - 'a' as int + 10
    else -1
  }

  function Escape(octets: seq<Octet>): string {
    if octets == [] then ""
    else ['%', HexDigit(octets[0] / 16), HexDigit(octets[0] % 16)] + Escape(octets[1..])
  }

  function EncodeChar(c: char): string {
    if Unreserved(c) then [c] else Escape(Utf8(c))
  }

  function Encode(s: string): string {
    if s == "" then "" else EncodeChar(s[0]) + Encode(s[1..])
  }

  /** The octet that an escape at index i of s spells, or -1. */
  function OctetAt(s: string, i: nat): (r: int)
    ensures -1 <= r < 256
  {
    if i + 2 >= |s| || s[i] != '%' || HexValue(s[i + 1]) < 0 || HexValue(s[i + 2]) < 0 then -1
    else 16 * HexValue(s[i + 1]) + HexValue(s[i + 2])
  }

  /** The six bits of a continuation octet, or -1. */
  function ContinuationAt(s: string, i: nat): (r: int)
    ensures -1 <= r < 64
  {
    var b := OctetAt(s, i);
    if 0x80 <= b < 0xC0 then b - 0x80 else -1
  }

  /** The character whose escapes s begins with. */
  function DecodeChar(s: string): (r: Option<char>) {
    var b, x, y, z := OctetAt(s, 0), ContinuationAt(s, 3), ContinuationAt(s, 6), ContinuationAt(s, 9);
    if b < 0 then None
    else if b < 0x80 then Some(b as char)
    else if 0xC2 <= b < 0xE0 && x >= 0 then Some(((b - 0xC0) * 64 + x) as char)
    else if 0xE0 <= b < 0xF0 && x >= 0 && y >= 0 then
      var n := (b - 0xE0) * 4096 + x * 64 + y;
      if n < 0x800 || 0xD800 <= n < 0xE000 then None else Some(n as char)
    else if 0xF0 <= b < 0xF5 && x >= 0 && y >= 0 && z >= 0 then
      var n := (b - 0xF0) * 262144 + x * 4096 + y * 64 + z;
      if n < 0x1_0000 || n >= 0x11_0000 then None else Some(n as char)
    else None
  }

  /** None is the URIError of malformed escapes. */
  function Decode(s: string): Option<string>
    decreases |s|
  {
    if s == "" then Some("")
    else if s[0] != '%' then
      match Decode(s[1..])
      case Some(rest) => Some([s[0]] + rest)
      case None => None
    else
      match DecodeChar(s)
      case None => None
      case Some(c) =>
        var used := 3 * |Utf8(c)|;
        if used > |s| then None
        else
          match Decode(s[used..])
          case Some(rest) => Some([c] + rest)
          case None => None
  }

  lemma HexRoundTrip(d: nat)
    requires d < 16
    ensures HexValue(HexDigit(d)) == d && HexDigit(d) != '%' && Alphanumeric(HexDigit(d))
  {
  }

  lemma {:induction false} EscapeAt(octets: seq<Octet>, i: nat, rest: string)
    requires i < |octets|
    ensures |Escape(octets)| == 3 * |octets|
    ensures OctetAt(Escape(octets) + rest, 3 * i) == octets[i]
  {
    hide HexDigit, HexValue;
    HexRoundTrip(octets[0] / 16);
    HexRoundTrip(octets[0] % 16);
    var s := Escape(octets) + rest;
    if |octets| == 1 {
      assert octets[1..] == [];
    } else {
      EscapeAt(octets[1..], if i > 0 then i - 1 else 0, rest);
      var t := Escape(octets[1..]) + rest;
      assert s == s[..3] + t;
      if i > 0 {
        var j := 3 * (i - 1);
        assert j + 2 < |t| && s[j + 3] == t[j] && s[j + 4] == t[j + 1] && s[j + 5] == t[j + 2];
      }
    }
  }

  lemma DecodeEscaped(c: char, rest: string)
    ensures |Escape(Utf8(c))| == 3 * |Utf8(c)|
    ensures DecodeChar(Escape(Utf8(c)) + rest) == Some(c)
  {
    hide Escape, OctetAt;
    var octets, s := Utf8(c), Escape(Utf8(c)) + rest;
    EscapeAt(octets, 0, rest);
    EscapeAt(octets, |octets| - 1, rest);
    if |octets| > 2 { EscapeAt(octets, 1, rest); }
    if |octets| > 3 { EscapeAt(octets, 2, rest); }
    Utf8RoundTrip(c);
  }

  /** The arithmetic of the multi-octet forms. */
  lemma {:induction false} Utf8RoundTrip(c: char)
    ensures var n := c as int;
      && n == (n / 64) * 64 + n % 64
      && n / 64 == (n / 4096) * 64 + n / 64 % 64
      && n / 4096 == (n / 262144) * 64 + n / 4096 % 64
      && n == (n / 4096) * 4096 + (n / 64 % 64) * 64 + n % 64
      && n == (n / 262144) * 262144 + (n / 4096 % 64) * 4096 + (n / 64 % 64) * 64 + n % 64
  {
  }

  /** Decoding undoes encoding. */
  lemma {:induction false} DecodeEncoded(s: string)
    ensures Decode(Encode(s)) == Some(s)
  {
    hide Utf8, Escape, DecodeChar, Unreserved;
    if s != "" {
      DecodeEncoded(s[1..]);
      var c, rest := s[0], Encode(s[1..]);
      var whole := EncodeChar(c) + rest;
      assert s == [c] + s[1..];
      if Unreserved(c) {
        assert whole[0] == c && whole[1..] == rest;
        PercentIsReserved();
      } else {
        DecodeEscaped(c, rest);
        EscapeStarts(Utf8(c));
        assert whole[3 * |Utf8(c)|..] == rest;
      }
    }
  }

  lemma PercentIsReserved()
    ensures !Unreserved('%')
  {
  }

  lemma EscapeStarts(octets: seq<Octet>)
    requires octets != []
    ensures Escape(octets) != "" && Escape(octets)[0] == '%'
  {
  }

  predicate EncodedChar(c: char) {
    Unreserved(c) || c == '%'
  }

  lemma {:induction false} EncodedChars(s: string)
    ensures forall c | c in Encode(s) :: EncodedChar(c)
    ensures Encode(s) == "" <==> s == ""
  {
    hide Utf8, Unreserved;
    if s != "" {
      EncodedChars(s[1..]);
      if !Unreserved(s[0]) { EscapedChars(Utf8(s[0])); EscapeStarts(Utf8(s[0])); }
    }
  }

  lemma {:induction false} EscapedChars(octets: seq<Octet>)
    ensures forall c | c in Escape(octets) :: EncodedChar(c)
  {
    hide HexDigit, HexValue;
    if octets != [] {
      EscapedChars(octets[1..]);
      HexRoundTrip(octets[0] / 16);
      HexRoundTrip(octets[0] % 16);
    }
  }

  /** Only unreserved text is its own encoding, so an encoded string never spells out an escape of such text. */
  lemma {:induction false} UnreservedEncodesToItself(s: string)
    requires forall c | c in s :: Unreserved(c)
    ensures Encode(s) == s
  {
    if s != "" {
      UnreservedEncodesToItself(s[1..]);
      assert s == [s[0]] + s[1..];
    }
  }
  /** Encoding goes character by character. */
  lemma {:induction false} EncodeAppend(a: string, b: string)
    ensures Encode(a + b) == Encode(a) + Encode(b)
  {
    if a == "" {
      assert a + b == b;
    } else {
      assert (a + b)[0] == a[0] && (a + b)[1..] == a[1..] + b;
      EncodeAppend(a[1..], b);
    }
  }

  /** Letters, digits and nine marks stand for themselves; every other character becomes escapes in upper case. */
  lemma StandsForItself(c: char)
    ensures Encode([c]) == [c] <==>
      || 'A' <= c <= 'Z' || 'a' <= c <= 'z' || '0' <= c <= '9'
      || c in {'-', '_', '.', '!', '~', '*', '\'', '(', ')'}
    ensures Encode([c]) != [c] ==>
      forall i | 0 <= i < |Encode([c])| ::
        if i % 3 == 0 then Encode([c])[i] == '%'
        else '0' <= Encode([c])[i] <= '9' || 'A' <= Encode([c])[i] <= 'F'
  {
    hide Utf8, Escape;
    assert [c][1..] == "" && Encode("") == "";
    assert Encode([c]) == EncodeChar(c);
    if !Unreserved(c) {
      EscapeForm(Utf8(c));
    }
  }

  lemma {:induction false} EscapeForm(octets: seq<Octet>)
    ensures |Escape(octets)| == 3 * |octets|
    ensures forall i | 0 <= i < |Escape(octets)| ::
      if i % 3 == 0 then Escape(octets)[i] == '%'
      else '0' <= Escape(octets)[i] <= '9' || 'A' <= Escape(octets)[i] <= 'F'
  {
    if octets != [] {
      var rest := Escape(octets[1..]);
      EscapeForm(octets[1..]);
      forall i | 3 <= i < |Escape(octets)| ensures Escape(octets)[i] == rest[i - 3] {}
    }
  }

  predicate HexCharacter(c: char) {
    '0' <= c <= '9' || 'A' <= c <= 'F' || 'a' <= c <= 'f'
  }

  /** Text whose first percent sign is not followed by two hexadecimal digits, in either case, is refused. */
  lemma {:induction false} MalformedEscape(before: string, after: string)
    requires '%' !in before
    requires !(|after| >= 2 && HexCharacter(after[0]) && HexCharacter(after[1]))
    ensures Decode(before + "%" + after) == None
    decreases |before|
  {
    var s := before + "%" + after;
    if before == "" {
      assert forall i | 0 <= i < |after| :: s[i + 1] == after[i];
    } else {
      MalformedEscape(before[1..], after);
      assert s[1..] == before[1..] + "%" + after;
      assert before[0] in before;
    }
  }
}
