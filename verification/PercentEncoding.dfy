/**
 The percent-encoding that encodeURIComponent performs (section 2.1 of RFC 3986, over UTF-8) and
 its inverse.  A Dafny char is a Unicode scalar value, so the strings here have no lone surrogates.
 */
module PercentEncoding {
  import opened Options

  /******* UTF-8 *******/

  // One to four octets of six payload bits each, after the bits of the first.
  function Utf8(code: nat): (octets: seq<nat>) {
    var low, q1 := 0x80 + code % 64, code / 64;
    if code < 0x80 then [code]
    else if code < 0x800 then [0xC0 + q1, low]
    else
      var mid, q2 := 0x80 + q1 % 64, q1 / 64;
      if code < 0x10000 then [0xE0 + q2, mid, low]
      else [0xF0 + q2 / 64, 0x80 + q2 % 64, mid, low]
  }

  predicate IsScalar(code: int) {
    0 <= code < 0xD800 || 0xE000 <= code < 0x110000
  }

  // How many octets a character takes, from the first of them; 0 when no character starts so.
  function SequenceLength(lead: nat): (n: nat) {
    if lead < 0x80 then 1
    else if 0xC0 <= lead < 0xE0 then 2
    else if 0xE0 <= lead < 0xF0 then 3
    else if 0xF0 <= lead < 0xF8 then 4
    else 0
  }

  predicate IsContinuation(octet: nat) {
    0x80 <= octet < 0xC0
  }

  // The character that a group of octets encodes; overlong forms and surrogates are refused.
  function DecodeOctets(octets: seq<nat>): (r: Option<char>)
    requires |octets| > 0 && |octets| == SequenceLength(octets[0])
  {
    if exists i :: 1 <= i < |octets| && !IsContinuation(octets[i]) then None
    else
      var code := Payload(octets, |octets|);
      if IsScalar(code) && |Utf8(code)| == |octets| then Some(code as char) else None
  }

  function LeadMark(n: nat): (mark: nat) {
    if n == 1 then 0 else if n == 2 then 0xC0 else if n == 3 then 0xE0 else 0xF0
  }

  // The bits that the first k octets carry.
  function Payload(octets: seq<nat>, k: nat): (code: int)
    requires 1 <= k <= |octets|
  {
    if k == 1 then octets[0] - LeadMark(|octets|)
    else Payload(octets, k - 1) * 64 + octets[k - 1] - 0x80
  }

  lemma Utf8Payload(code: nat)
    requires code < 0x110000
    ensures Payload(Utf8(code), |Utf8(code)|) == code
  {
    var octets := Utf8(code);
    if |octets| == 4 {
      assert Payload(octets, 2) == code / 64 / 64;
      assert Payload(octets, 3) == code / 64;
    } else if |octets| == 3 {
      assert Payload(octets, 2) == code / 64;
    }
  }

  lemma Utf8RoundTrip(c: char)
    ensures var octets := Utf8(c as int);
            && |octets| > 0 && |octets| == SequenceLength(octets[0])
            && (forall i :: 0 <= i < |octets| ==> octets[i] < 256)
            && DecodeOctets(octets) == Some(c)
  {
    Utf8Payload(c as int);
  }

  /******* Percent triplets *******/

  function HexDigit(n: nat): (c: char)
    requires n < 16
  {
    if n < 10 then (n + '0' as int) as char else (n - 10 + 'A' as int) as char
  }

  function HexValue(c: char): (r: Option<nat>) {
    if '0' <= c <= '9' then Some(c as int - '0' as int)
    else if 'A' <= c <= 'F' then Some(c as int - 'A' as int + 10)
    else if 'a' <= c <= 'f' then Some(c as int - 'a' as int + 10)
    else None
  }

  function Triplet(octet: nat): (s: string)
    requires octet < 256
  {
    ['%', HexDigit(octet / 16), HexDigit(octet % 16)]
  }

  function ParseTriplet(s: string): (r: Option<nat>) {
    if |s| >= 3 && s[0] == '%' && HexValue(s[1]).Some? && HexValue(s[2]).Some? then
      Some(HexValue(s[1]).value * 16 + HexValue(s[2]).value)
    else None
  }

  function Triplets(octets: seq<nat>): (s: string)
    requires forall i :: 0 <= i < |octets| ==> octets[i] < 256
  {
    if |octets| == 0 then [] else Triplet(octets[0]) + Triplets(octets[1..])
  }

  function ParseTriplets(s: string, n: nat): (r: Option<seq<nat>>)
    ensures r.Some? ==> |r.value| == n && 3 * n <= |s|
  {
    if n == 0 then Some([])
    else
      match ParseTriplet(s)
      case None => None
      case Some(octet) =>
        match ParseTriplets(s[3..], n - 1)
        case None => None
        case Some(rest) => Some([octet] + rest)
  }

  lemma TripletRoundTrip(octet: nat, rest: string)
    requires octet < 256
    ensures ParseTriplet(Triplet(octet) + rest) == Some(octet)
    ensures (Triplet(octet) + rest)[3..] == rest
  {
  }

  lemma {:induction false} TripletsRoundTrip(octets: seq<nat>, rest: string)
    requires forall i :: 0 <= i < |octets| ==> octets[i] < 256
    ensures |Triplets(octets)| == 3 * |octets|
    ensures ParseTriplets(Triplets(octets) + rest, |octets|) == Some(octets)
  {
    if |octets| > 0 {
      TripletsRoundTrip(octets[1..], rest);
      assert Triplets(octets) + rest == Triplet(octets[0]) + (Triplets(octets[1..]) + rest);
      TripletRoundTrip(octets[0], Triplets(octets[1..]) + rest);
      assert [octets[0]] + octets[1..] == octets;
    }
  }

  /******* Components *******/

  predicate IsUnreserved(c: char) {
    || 'A' <= c <= 'Z' || 'a' <= c <= 'z' || '0' <= c <= '9'
    || c in "-_.!~*'()"
  }

  function EncodeChar(c: char): (s: string) {
    if IsUnreserved(c) then [c] else Utf8RoundTrip(c); Triplets(Utf8(c as int))
  }

  function Encode(s: string): (r: string) {
    if |s| == 0 then [] else EncodeChar(s[0]) + Encode(s[1..])
  }

  // The triplets at the start of the string that encode one character.
  function LeadingOctets(s: string): (r: Option<seq<nat>>)
    ensures r.Some? ==> |r.value| > 0 && |r.value| == SequenceLength(r.value[0]) && 3 * |r.value| <= |s|
  {
    match ParseTriplet(s)
    case None => None
    case Some(lead) =>
      match ParseTriplets(s, SequenceLength(lead))
      case None => None
      case Some(octets) => if |octets| > 0 && octets[0] == lead then Some(octets) else None
  }

  function Decode(s: string): (r: Option<string>)
    decreases |s|
  {
    if |s| == 0 then Some([])
    else if s[0] != '%' then Prepend(Some(s[0]), Decode(s[1..]))
    else
      match LeadingOctets(s)
      case None => None
      case Some(octets) => Prepend(DecodeOctets(octets), Decode(s[3 * |octets|..]))
  }

  function Prepend(c: Option<char>, rest: Option<string>): (r: Option<string>) {
    if c.Some? && rest.Some? then Some([c.value] + rest.value) else None
  }

  lemma LeadOfTriplets(octets: seq<nat>, rest: string)
    requires |octets| > 0 && forall i :: 0 <= i < |octets| ==> octets[i] < 256
    ensures ParseTriplet(Triplets(octets) + rest) == Some(octets[0])
  {
    var after := Triplets(octets[1..]) + rest;
    assert Triplets(octets) + rest == Triplet(octets[0]) + after;
    TripletRoundTrip(octets[0], after);
  }

  lemma LeadingOctetsOfTriplets(octets: seq<nat>, rest: string)
    requires |octets| > 0 && |octets| == SequenceLength(octets[0])
    requires forall i :: 0 <= i < |octets| ==> octets[i] < 256
    ensures LeadingOctets(Triplets(octets) + rest) == Some(octets)
    ensures |Triplets(octets)| == 3 * |octets| && Triplets(octets)[0] == '%'
  {
    TripletsRoundTrip(octets, rest);
    LeadOfTriplets(octets, rest);
  }

  lemma DecodeAfterTriplets(octets: seq<nat>, rest: string)
    requires |octets| > 0 && |octets| == SequenceLength(octets[0])
    requires forall i :: 0 <= i < |octets| ==> octets[i] < 256
    ensures Decode(Triplets(octets) + rest) == Prepend(DecodeOctets(octets), Decode(rest))
  {
    LeadingOctetsOfTriplets(octets, rest);
    assert (Triplets(octets) + rest)[3 * |octets|..] == rest;
  }

  lemma DecodeAfterChar(c: char, rest: string)
    requires Decode(rest).Some?
    ensures Decode(EncodeChar(c) + rest) == Some([c] + Decode(rest).value)
  {
    if IsUnreserved(c) {
      assert ([c] + rest)[1..] == rest;
    } else {
      Utf8RoundTrip(c);
      DecodeAfterTriplets(Utf8(c as int), rest);
    }
  }

  // Decoding undoes encoding.
  lemma {:induction false} DecodeEncode(s: string)
    ensures Decode(Encode(s)) == Some(s)
  {
    if |s| > 0 {
      DecodeEncode(s[1..]);
      DecodeAfterChar(s[0], Encode(s[1..]));
      assert [s[0]] + s[1..] == s;
    }
  }

  lemma EncodeInjective(a: string, b: string)
    requires Encode(a) == Encode(b)
    ensures a == b
  {
    DecodeEncode(a);
    DecodeEncode(b);
  }

  predicate IsEncodedChar(c: char) {
    c == '%' || IsUnreserved(c)
  }

  lemma {:induction false} TripletsAlphabet(octets: seq<nat>)
    requires forall i :: 0 <= i < |octets| ==> octets[i] < 256
    ensures forall i :: 0 <= i < |Triplets(octets)| ==> IsEncodedChar(Triplets(octets)[i])
  {
    if |octets| > 0 {
      TripletsAlphabet(octets[1..]);
    }
  }

  // No other character is ever emitted, and something is emitted for every character.
  lemma {:induction false} EncodeAlphabet(s: string)
    ensures forall i :: 0 <= i < |Encode(s)| ==> IsEncodedChar(Encode(s)[i])
    ensures |Encode(s)| >= |s|
  {
    if |s| > 0 {
      EncodeAlphabet(s[1..]);
      Utf8RoundTrip(s[0]);
      TripletsAlphabet(Utf8(s[0] as int));
      TripletsRoundTrip(Utf8(s[0] as int), []);
    }
  }

  lemma {:induction false} EncodeAppend(a: string, b: string)
    ensures Encode(a + b) == Encode(a) + Encode(b)
  {
    if |a| == 0 {
      assert a + b == b;
    } else {
      assert (a + b)[0] == a[0] && (a + b)[1..] == a[1..] + b;
      EncodeAppend(a[1..], b);
      assert EncodeChar(a[0]) + (Encode(a[1..]) + Encode(b)) == (EncodeChar(a[0]) + Encode(a[1..])) + Encode(b);
    }
  }

  // A triplet for each octet, with capital digits.
  ghost predicate AreTriplets(s: string) {
    |s| % 3 == 0 && forall i :: 0 <= i < |s| ==> if i % 3 == 0 then s[i] == '%' else s[i] in "0123456789ABCDEF"
  }

  lemma HexDigitIs(n: nat)
    requires n < 16
    ensures HexDigit(n) == "0123456789ABCDEF"[n]
  {
  }

  lemma {:induction false} TripletsAre(octets: seq<nat>)
    requires forall i :: 0 <= i < |octets| ==> octets[i] < 256
    ensures AreTriplets(Triplets(octets))
  {
    if |octets| > 0 {
      TripletsAre(octets[1..]);
      HexDigitIs(octets[0] / 16);
      HexDigitIs(octets[0] % 16);
      var first, rest := Triplet(octets[0]), Triplets(octets[1..]);
      forall i | 0 <= i < |first + rest|
        ensures if i % 3 == 0 then (first + rest)[i] == '%' else (first + rest)[i] in "0123456789ABCDEF"
      {
        if i >= 3 {
          assert (first + rest)[i] == rest[i - 3] && (i - 3) % 3 == i % 3;
        }
      }
    }
  }

  // Letters, digits and nine marks stand for themselves; everything else becomes triplets.
  lemma EncodeCharIs(c: char)
    ensures if 'A' <= c <= 'Z' || 'a' <= c <= 'z' || '0' <= c <= '9' || c in "-_.!~*'()" then Encode([c]) == [c]
            else AreTriplets(Encode([c])) && |Encode([c])| > 0
  {
    assert [c][1..] == [] && Encode([c]) == EncodeChar(c) + Encode([]) == EncodeChar(c);
    if !IsUnreserved(c) {
      Utf8RoundTrip(c);
      TripletsAre(Utf8(c as int));
      TripletsRoundTrip(Utf8(c as int), []);
    }
  }
}
