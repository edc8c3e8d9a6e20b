/**
 What decodeJwt hands to the JSON parser: the second dot-separated segment,
 read as base64url, each byte written as %hh and the whole passed through
 decodeURIComponent.
 */
module JwtPayload {
  import opened Options
  import opened Utf8
  import opened Percent
  import opened Base64Url

  // split(".")[1]; None when there is no dot.
  function BeforeDot(s: string): string {
    if s == [] || s[0] == '.' then [] else [s[0]] + BeforeDot(s[1..])
  }

  function SecondSegment(token: string): Option<string> {
    if token == [] then None
    else if token[0] == '.' then Some(BeforeDot(token[1..]))
    else SecondSegment(token[1..])
  }

  // charCodeAt(0).toString(16)
  function ToHex(n: nat): string {
    if n < 16 then [HexDigit(n, false)] else ToHex(n / 16) + [HexDigit(n % 16, false)]
  }

  function PadStart(s: string, width: nat, fill: char): string
    decreases width - |s|
  {
    if |s| >= width then s else PadStart([fill] + s, width, fill)
  }

  function PercentEach(s: string): string {
    if s == [] then [] else "%" + PadStart(ToHex(s[0] as int), 2, '0') + PercentEach(s[1..])
  }

  // The octets of n consecutive %XX at the start of s.
  function ReadOctets(s: string, n: nat): Option<seq<Byte>> {
    if n == 0 then Some([])
    else
      match ReadOctet(s)
      case None => None
      case Some(b) =>
        match ReadOctets(s[3..], n - 1)
        case None => None
        case Some(rest) => Some([b] + rest)
  }

  // decodeURIComponent: characters other than % stand for themselves; an
  // escape announces how many more belong to its character.
  function DecodeUriComponent(s: string): Option<string> {
    if s == [] then Some([])
    else if s[0] != '%' then Prepend(s[0], DecodeUriComponent(s[1..]))
    else
      match ReadOctet(s)
      case None => None
      case Some(lead) =>
        var n := Announced(lead);
        if n == 0 || |s| < 3 * n then None
        else
          match ReadOctets(s, n)
          case None => None
          case Some(octets) =>
            if octets == [] then None
            else
              match DecodeFirst(octets)
              case None => None
              case Some(c) => Prepend(c, DecodeUriComponent(s[3 * n..]))
  }

  // The JSON text of the token's payload; None where decodeJwt returns null
  // before parsing.
  function PayloadText(token: string): Option<string> {
    match SecondSegment(token)
    case None => None
    case Some(payload) =>
      match Atob(FromUrl(payload))
      case None => None
      case Some(binary) => DecodeUriComponent(PercentEach(binary))
  }

  // -- The escaped form -----------------------------------------------------

  function PercentBytes(b: seq<Byte>): (r: string)
    ensures |r| == 3 * |b|
  {
    if b == [] then [] else PercentByte(b[0], false) + PercentBytes(b[1..])
  }

  lemma {:induction false} TwoHexDigits(b: Byte)
    ensures "%" + PadStart(ToHex(b), 2, '0') == PercentByte(b, false)
  {
    if b < 16 {
      assert ToHex(b) == [HexDigit(b, false)];
      assert PadStart(ToHex(b), 2, '0') == ['0'] + [HexDigit(b, false)];
    } else {
      assert ToHex(b / 16) == [HexDigit(b / 16, false)];
      assert PadStart(ToHex(b), 2, '0') == ToHex(b);
    }
  }

  lemma {:induction false} PercentEachByte(b: seq<Byte>)
    ensures PercentEach(Latin1(b)) == PercentBytes(b)
  {
    if b != [] {
      PercentEachByte(b[1..]);
      TwoHexDigits(b[0]);
      assert Latin1(b)[1..] == Latin1(b[1..]);
    }
  }

  lemma {:induction false} DropDrop(s: string, m: nat, n: nat)
    requires m + n <= |s|
    ensures s[m..][n..] == s[m + n..]
  {
  }

  lemma {:induction false} DropEscapes(b: seq<Byte>, n: nat)
    requires n <= |b|
    ensures PercentBytes(b)[3 * n..] == PercentBytes(b[n..])
  {
    if n > 0 {
      var s := PercentBytes(b);
      DropEscapes(b[1..], n - 1);
      assert s[3..] == PercentBytes(b[1..]);
      assert b[1..][n - 1..] == b[n..];
      DropDrop(s, 3, 3 * (n - 1));
      assert 3 + 3 * (n - 1) == 3 * n;
    }
  }

  lemma {:induction false} ReadOctetsOfBytes(b: seq<Byte>, n: nat)
    requires n <= |b|
    ensures ReadOctets(PercentBytes(b), n) == Some(b[..n])
  {
    if n > 0 {
      ReadPercentByte(b[0], false, PercentBytes(b[1..]));
      ReadOctetsOfBytes(b[1..], n - 1);
      assert b[..n] == [b[0]] + b[1..][..n - 1];
    }
  }

  lemma {:induction false} DecodeFirstOfPrefix(b: seq<Byte>)
    requires b != [] && 0 < Announced(b[0]) <= |b|
    ensures DecodeFirst(b[..Announced(b[0])]) == DecodeFirst(b)
  {
  }

  // On fully escaped text decodeURIComponent is strict UTF-8 decoding of the
  // bytes, for every byte string, well-formed or not.
  lemma {:induction false} EscapedBytesDecode(b: seq<Byte>)
    ensures DecodeUriComponent(PercentBytes(b)) == Decode(b)
  {
    if b != [] {
      var s := PercentBytes(b);
      ReadPercentByte(b[0], false, PercentBytes(b[1..]));
      var n := Announced(b[0]);
      if 0 < n <= |b| {
        ReadOctetsOfBytes(b, n);
        DropEscapes(b, n);
        DecodeFirstOfPrefix(b);
        EscapedBytesDecode(b[n..]);
      } else {
        assert n == 0 || |s| < 3 * n;
      }
    }
  }

  // payload is what stands between the first dot of a token and the next one, or
  // its end.
  predicate IsSecond(token: string, header: string, payload: string, rest: string) {
    && '.' !in header && '.' !in payload && (rest == "" || rest[0] == '.')
    && token == header + "." + payload + rest
  }

  lemma {:induction false} BeforeDotSplits(s: string) returns (rest: string)
    ensures s == BeforeDot(s) + rest && '.' !in BeforeDot(s) && (rest == "" || rest[0] == '.')
  {
    if s == [] || s[0] == '.' {
      rest := s;
      assert BeforeDot(s) == [] && s == [] + rest;
    } else {
      rest := BeforeDotSplits(s[1..]);
      var first, before := [s[0]], BeforeDot(s[1..]);
      assert BeforeDot(s) == first + before;
      assert s == first + (before + rest) == (first + before) + rest;
    }
  }

  lemma {:induction false} FindSecond(token: string) returns (header: string, rest: string)
    requires '.' in token
    ensures SecondSegment(token).Some? && IsSecond(token, header, SecondSegment(token).value, rest)
  {
    assert token == [token[0]] + token[1..];
    if token[0] == '.' {
      rest := BeforeDotSplits(token[1..]);
      header := "";
      assert token == "" + "." + BeforeDot(token[1..]) + rest;
    } else {
      header, rest := FindSecond(token[1..]);
      header := [token[0]] + header;
    }
  }

  lemma {:induction false} SecondIsFound(token: string, header: string, payload: string, rest: string)
    requires IsSecond(token, header, payload, rest)
    ensures SecondSegment(token) == Some(payload)
  {
    if header == [] {
      assert token[1..] == payload + rest;
      BeforeRest(payload, rest);
    } else {
      assert token[0] == header[0];
      SecondIsFound(token[1..], header[1..], payload, rest);
    }
  }

  lemma {:induction false} BeforeRest(payload: string, rest: string)
    requires '.' !in payload && (rest == "" || rest[0] == '.')
    ensures BeforeDot(payload + rest) == payload
  {
    if payload != [] {
      BeforeRest(payload[1..], rest);
      assert (payload + rest)[1..] == payload[1..] + rest;
    } else {
      assert payload + rest == rest;
    }
  }

  // There is a second segment exactly when the token has a dot, and it is the
  // text up to the next dot or the end.
  lemma {:induction false} SecondSegmentIsExact(token: string, payload: string)
    ensures SecondSegment(token).Some? <==> '.' in token
    ensures SecondSegment(token) == Some(payload) <==> exists header, rest :: IsSecond(token, header, payload, rest)
  {
    if '.' in token {
      var header, rest := FindSecond(token);
    } else {
      NoDotNoSegment(token);
    }
    if header, rest :| IsSecond(token, header, payload, rest) { SecondIsFound(token, header, payload, rest); }
  }

  lemma {:induction false} NoDotNoSegment(token: string)
    requires '.' !in token
    ensures SecondSegment(token) == None
  {
    if token != [] { NoDotNoSegment(token[1..]); }
  }

  // -- Main results ---------------------------------------------------------

  lemma {:induction false} BeforeDotStops(s: string, rest: string)
    requires '.' !in s
    ensures BeforeDot(s + "." + rest) == s
  {
    var t := s + "." + rest;
    if s != [] {
      BeforeDotStops(s[1..], rest);
      assert t[1..] == s[1..] + "." + rest;
    }
  }

  lemma {:induction false} SegmentAfterHeader(header: string, payload: string, rest: string)
    requires '.' !in header && '.' !in payload
    ensures SecondSegment(header + "." + payload + "." + rest) == Some(payload)
  {
    var token := header + "." + payload + "." + rest;
    if header == [] {
      assert token[1..] == payload + "." + rest;
      BeforeDotStops(payload, rest);
    } else {
      SegmentAfterHeader(header[1..], payload, rest);
      assert token[1..] == header[1..] + "." + payload + "." + rest;
    }
  }

  // Any Unicode text placed in a token as the base64url of its UTF-8 bytes is
  // recovered, whatever the signature part is.
  lemma {:induction false} PayloadRoundTrip(header: string, text: string, signature: string)
    requires '.' !in header
    ensures PayloadText(header + "." + UrlText(Encode(text)) + "." + signature) == Some(text)
  {
    var b := Encode(text);
    UrlTextIsCanonical(b);
    SegmentAfterHeader(header, UrlText(b), signature);
    PrintThenRead(b);
    PercentEachByte(b);
    EscapedBytesDecode(b);
    DecodeEncode(text);
  }

  // Whatever text is recovered, the segment does encode its UTF-8 bytes.
  lemma {:induction false} PayloadIsSound(token: string, payload: string)
    requires SecondSegment(token) == Some(payload)
    ensures forall text :: PayloadText(token) == Some(text) <==> Atob(FromUrl(payload)) == Some(Latin1(Encode(text)))
  {
    forall text
      ensures PayloadText(token) == Some(text) <==> Atob(FromUrl(payload)) == Some(Latin1(Encode(text)))
    {
      match Decode64(DropPadding(StripSpace(FromUrl(payload))))
      case None =>
      case Some(b) =>
        PercentEachByte(b);
        EscapedBytesDecode(b);
        DecodeIsInverse(b, text);
        Latin1IsInjective(b, Encode(text));
    }
  }

  lemma {:induction false} Latin1IsInjective(a: seq<Byte>, b: seq<Byte>)
    ensures Latin1(a) == Latin1(b) <==> a == b
  {
    if Latin1(a) == Latin1(b) {
      assert Octets(Latin1(a)) == a && Octets(Latin1(b)) == b;
    }
  }
}
