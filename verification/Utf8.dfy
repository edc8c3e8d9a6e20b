/** UTF-8 over Unicode scalar values, printing and strict reading. */
module Utf8 {
  import opened Options

  type Byte = x: int | 0 <= x < 256

  function EncodeScalar(c: char): (b: seq<Byte>)
    ensures 1 <= |b| <= 4
  {
    var n := c as int;
    if n < 0x80 then [n]
    else if n < 0x800 then [0xC0 + n / 64, 0x80 + n % 64]
    else if n < 0x1_0000 then [0xE0 + n / 4096, 0x80 + n / 64 % 64, 0x80 + n % 64]
    else [0xF0 + n / 262144, 0x80 + n / 4096 % 64, 0x80 + n / 64 % 64, 0x80 + n % 64]
  }

  function Encode(s: string): seq<Byte> {
    if s == [] then [] else EncodeScalar(s[0]) + Encode(s[1..])
  }

  predicate Continues(x: Byte) { 0x80 <= x < 0xC0 }

  // How many bytes a lead byte announces; 0 when it cannot lead.
  function Announced(lead: Byte): nat {
    if lead < 0x80 then 1
    else if 0xC0 <= lead < 0xE0 then 2
    else if 0xE0 <= lead < 0xF0 then 3
    else if 0xF0 <= lead < 0xF8 then 4
    else 0
  }

  // The code point, or None for an overlong form, a surrogate or a value
  // beyond the last code point.
  function Scalar(n: int, least: nat): Option<char> {
    if least <= n < 0xD800 || (least <= n && 0xE000 <= n <= 0x10_FFFF) then Some(n as char) else None
  }

  // Reads the scalar value that starts b.
  function DecodeFirst(b: seq<Byte>): (r: Option<char>)
    requires b != []
  {
    var n := Announced(b[0]);
    if n == 0 || |b| < n then None
    else if n == 1 then Some(b[0] as char)
    else if !Continues(b[1]) then None
    else if n == 2 then Scalar(Join2(b[0], b[1]), 0x80)
    else if !Continues(b[2]) then None
    else if n == 3 then Scalar(Join3(b[0], b[1], b[2]), 0x800)
    else if !Continues(b[3]) then None
    else Scalar(Join4(b[0], b[1], b[2], b[3]), 0x1_0000)
  }

  function Join2(a: int, b: int): int { (a - 0xC0) * 64 + (b - 0x80) }
  function Join3(a: int, b: int, c: int): int { ((a - 0xE0) * 64 + (b - 0x80)) * 64 + (c - 0x80) }
  function Join4(a: int, b: int, c: int, d: int): int {
    (((a - 0xF0) * 64 + (b - 0x80)) * 64 + (c - 0x80)) * 64 + (d - 0x80)
  }

  function Prepend(c: char, rest: Option<string>): Option<string> {
    match rest
    case None => None
    case Some(s) => Some([c] + s)
  }

  function Decode(b: seq<Byte>): Option<string> {
    if b == [] then Some([])
    else
      match DecodeFirst(b)
      case None => None
      case Some(c) => Prepend(c, Decode(b[Announced(b[0])..]))
  }

  lemma {:induction false} SplitThenJoin(n: int)
    ensures Join2(0xC0 + n / 64, 0x80 + n % 64) == n
    ensures Join3(0xE0 + n / 4096, 0x80 + n / 64 % 64, 0x80 + n % 64) == n
    ensures Join4(0xF0 + n / 262144, 0x80 + n / 4096 % 64, 0x80 + n / 64 % 64, 0x80 + n % 64) == n
  {
    assert n / 4096 == n / 64 / 64 && n / 262144 == n / 64 / 64 / 64;
  }

  lemma {:induction false} DivMod64(q: int, r: int)
    requires 0 <= r < 64
    ensures (q * 64 + r) / 64 == q && (q * 64 + r) % 64 == r
  {
  }

  lemma {:induction false} JoinThenSplit(a: int, b: int, c: int, d: int)
    requires 0x80 <= b < 0xC0 && 0x80 <= c < 0xC0 && 0x80 <= d < 0xC0
    ensures var n := Join2(a, b); n / 64 == a - 0xC0 && n % 64 == b - 0x80
    ensures var n := Join3(a, b, c); n / 4096 == a - 0xE0 && n / 64 % 64 == b - 0x80 && n % 64 == c - 0x80
    ensures var n := Join4(a, b, c, d);
      n / 262144 == a - 0xF0 && n / 4096 % 64 == b - 0x80 && n / 64 % 64 == c - 0x80 && n % 64 == d - 0x80
  {
    DivMod64(a - 0xC0, b - 0x80);
    DivMod64(a - 0xE0, b - 0x80);
    DivMod64((a - 0xE0) * 64 + (b - 0x80), c - 0x80);
    DivMod64(a - 0xF0, b - 0x80);
    DivMod64((a - 0xF0) * 64 + (b - 0x80), c - 0x80);
    DivMod64(((a - 0xF0) * 64 + (b - 0x80)) * 64 + (c - 0x80), d - 0x80);
    var n3, n4 := Join3(a, b, c), Join4(a, b, c, d);
    assert n3 / 4096 == n3 / 64 / 64;
    assert n4 / 4096 == n4 / 64 / 64 && n4 / 262144 == n4 / 64 / 64 / 64;
  }

  // The table of section 3 of RFC 3629: how many bytes each range takes, the
  // leading bits of each, and the value the remaining bits spell.
  lemma {:induction false} ScalarLayout(c: char)
    ensures var n, b := c as int, EncodeScalar(c);
      && (n < 0x80 ==> b == [n])
      && (0x80 <= n < 0x800 ==>
            && |b| == 2 && 0xC0 <= b[0] < 0xE0 && 0x80 <= b[1] < 0xC0
            && n == 64 * (b[0] as int - 0xC0) + (b[1] as int - 0x80))
      && (0x800 <= n < 0x1_0000 ==>
            && |b| == 3 && 0xE0 <= b[0] < 0xF0 && 0x80 <= b[1] < 0xC0 && 0x80 <= b[2] < 0xC0
            && n == 4096 * (b[0] as int - 0xE0) + 64 * (b[1] as int - 0x80) + (b[2] as int - 0x80))
      && (0x1_0000 <= n ==>
            && |b| == 4 && 0xF0 <= b[0] < 0xF8 && 0x80 <= b[1] < 0xC0 && 0x80 <= b[2] < 0xC0 && 0x80 <= b[3] < 0xC0
            && n == 262144 * (b[0] as int - 0xF0) + 4096 * (b[1] as int - 0x80)
                    + 64 * (b[2] as int - 0x80) + (b[3] as int - 0x80))
  {
    SplitThenJoin(c as int);
  }

  lemma {:induction false} FirstOfScalar(c: char)
    ensures DecodeFirst(EncodeScalar(c)) == Some(c)
    ensures Announced(EncodeScalar(c)[0]) == |EncodeScalar(c)|
  {
    SplitThenJoin(c as int);
  }

  // Only the announced bytes are read.
  lemma {:induction false} FirstIgnoresRest(b: seq<Byte>, rest: seq<Byte>)
    requires b != [] && Announced(b[0]) == |b|
    ensures DecodeFirst(b + rest) == DecodeFirst(b)
  {
    assert forall k :: 0 <= k < |b| ==> (b + rest)[k] == b[k];
  }

  lemma {:induction false} FirstOfEncoded(c: char, rest: seq<Byte>)
    ensures DecodeFirst(EncodeScalar(c) + rest) == Some(c)
    ensures Announced((EncodeScalar(c) + rest)[0]) == |EncodeScalar(c)|
  {
    FirstOfScalar(c);
    FirstIgnoresRest(EncodeScalar(c), rest);
  }

  lemma {:induction false} EncodeJoined(a: Byte, b: Byte, c: Byte, d: Byte)
    requires Continues(b) && Continues(c) && Continues(d)
    ensures Announced(a) == 2 && Scalar(Join2(a, b), 0x80).Some? ==> EncodeScalar(Join2(a, b) as char) == [a, b]
    ensures Announced(a) == 3 && Scalar(Join3(a, b, c), 0x800).Some? ==>
      EncodeScalar(Join3(a, b, c) as char) == [a, b, c]
    ensures Announced(a) == 4 && Scalar(Join4(a, b, c, d), 0x1_0000).Some? ==>
      EncodeScalar(Join4(a, b, c, d) as char) == [a, b, c, d]
  {
    JoinThenSplit(a, b, c, d);
  }

  lemma {:induction false} EncodedFirst(b: seq<Byte>)
    requires b != [] && DecodeFirst(b).Some?
    ensures var n := Announced(b[0]); 0 < n <= |b| && EncodeScalar(DecodeFirst(b).value) == b[..n]
  {
    var n := Announced(b[0]);
    if n == 2 { EncodeJoined(b[0], b[1], 0x80, 0x80); }
    if n == 3 { EncodeJoined(b[0], b[1], b[2], 0x80); }
    if n == 4 { EncodeJoined(b[0], b[1], b[2], b[3]); }
  }

  // An accepted byte string splits into the bytes of its first scalar value and
  // an accepted rest.
  lemma {:induction false} DecodeSplits(b: seq<Byte>) returns (c: char, n: nat)
    requires b != [] && Decode(b).Some?
    ensures 0 < n <= |b| && EncodeScalar(c) == b[..n]
    ensures Decode(b[n..]).Some? && Decode(b).value == [c] + Decode(b[n..]).value
  {
    EncodedFirst(b);
    c, n := DecodeFirst(b).value, Announced(b[0]);
  }

  lemma {:induction false} EncodeCons(b: seq<Byte>, n: nat, c: char, s: string)
    requires n <= |b| && EncodeScalar(c) == b[..n] && Encode(s) == b[n..]
    ensures Encode([c] + s) == b
  {
    assert ([c] + s)[1..] == s;
  }

  lemma {:induction false} DecodeEncode(s: string)
    ensures Decode(Encode(s)) == Some(s)
  {
    if s != [] {
      DecodeEncode(s[1..]);
      FirstOfEncoded(s[0], Encode(s[1..]));
      var b := EncodeScalar(s[0]);
      assert (b + Encode(s[1..]))[|b|..] == Encode(s[1..]);
      assert s == [s[0]] + s[1..];
    }
  }

  // Strictness: whatever is accepted is the one encoding of what is returned.
  lemma {:induction false} EncodeDecode(b: seq<Byte>)
    requires Decode(b).Some?
    ensures Encode(Decode(b).value) == b
  {
    if b != [] {
      var c, n := DecodeSplits(b);
      EncodeDecode(b[n..]);
      EncodeCons(b, n, c, Decode(b[n..]).value);
    }
  }

  lemma {:induction false} DecodeIsInverse(b: seq<Byte>, s: string)
    ensures Decode(b) == Some(s) <==> Encode(s) == b
  {
    DecodeEncode(s);
    if Decode(b).Some? { EncodeDecode(b); }
  }
}
