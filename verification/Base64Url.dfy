/**
 The browser's btoa and atob on binary strings (one character per byte), and
 the URL-safe, unpadded text of section 5 of RFC 4648 made from them.
 */
module Base64Url {
  import opened Options
  import opened Utf8

  // -- Alphabet -------------------------------------------------------------

  function Digit(n: int): char
    requires 0 <= n < 64
  {
    if n < 26 then ('A' as int + n) as char
    else if n < 52 then ('a' as int + n - 26) as char
    else if n < 62 then ('0' as int + n - 52) as char
    else if n == 62 then '+' else '/'
  }

  // The value of a digit, -1 for a character outside the alphabet.
  function DigitValue(c: char): int {
    if 'A' <= c <= 'Z' then c as int - 'A' as int
    else if 'a' <= c <= 'z' then c as int - 'a' as int + 26
    else if '0' <= c <= '9' then c as int - '0' as int + 52
    else if c == '+' then 62
    else if c == '/' then 63
    else -1
  }

  function Replace(s: string, from: char, to: char): (r: string)
    ensures |r| == |s|
    ensures forall k :: 0 <= k < |s| ==> r[k] == if s[k] == from then to else s[k]
  {
    if s == [] then [] else [if s[0] == from then to else s[0]] + Replace(s[1..], from, to)
  }

  // -- btoa and atob --------------------------------------------------------

  predicate IsBinary(s: string) {
    forall k :: 0 <= k < |s| ==> s[k] as int < 256
  }

  function Latin1(b: seq<Byte>): (s: string)
    ensures |s| == |b| && forall k :: 0 <= k < |b| ==> s[k] as int == b[k]
    ensures IsBinary(s)
  {
    if b == [] then [] else [b[0] as char] + Latin1(b[1..])
  }

  function Octets(s: string): (b: seq<Byte>)
    requires IsBinary(s)
    ensures |b| == |s| && forall k :: 0 <= k < |s| ==> b[k] == s[k] as int
  {
    if s == [] then [] else [s[0] as int] + Octets(s[1..])
  }

  type Sextet = x: int | 0 <= x < 64

  // The bits of b in groups of six, the last group filled with zeros.
  function Sextets(b: seq<Byte>): seq<Sextet> {
    if b == [] then []
    else if |b| == 1 then [b[0] / 4, b[0] % 4 * 16]
    else if |b| == 2 then [b[0] / 4, b[0] % 4 * 16 + b[1] / 16, b[1] % 16 * 4]
    else [b[0] / 4, b[0] % 4 * 16 + b[1] / 16, b[1] % 16 * 4 + b[2] / 64, b[2] % 64] + Sextets(b[3..])
  }

  function Byte1(a: int, b: int): int { a * 4 + b / 16 }
  function Byte2(b: int, c: int): int { b % 16 * 16 + c / 4 }
  function Byte3(c: int, d: int): int { c % 4 * 64 + d }

  // Whole bytes of a sequence of sextets; bits of an unfinished byte are dropped.
  function Join(v: seq<Sextet>): seq<Byte> {
    if |v| < 2 then []
    else if |v| == 2 then [Byte1(v[0], v[1])]
    else if |v| == 3 then [Byte1(v[0], v[1]), Byte2(v[1], v[2])]
    else [Byte1(v[0], v[1]), Byte2(v[1], v[2]), Byte3(v[2], v[3])] + Join(v[4..])
  }

  function Text(v: seq<Sextet>): (t: string)
    ensures |t| == |v| && forall k :: 0 <= k < |v| ==> t[k] == Digit(v[k])
  {
    if v == [] then [] else [Digit(v[0])] + Text(v[1..])
  }

  predicate AllDigits(t: string) {
    forall k :: 0 <= k < |t| ==> DigitValue(t[k]) >= 0
  }

  function Values(t: string): (v: seq<Sextet>)
    requires AllDigits(t)
    ensures |v| == |t| && forall k :: 0 <= k < |t| ==> v[k] == DigitValue(t[k])
  {
    if t == [] then [] else [DigitValue(t[0])] + Values(t[1..])
  }

  function Padding(n: nat): string {
    if n % 3 == 0 then "" else if n % 3 == 1 then "==" else "="
  }

  function Encode64(b: seq<Byte>): string {
    Text(Sextets(b)) + Padding(|b|)
  }

  // None when a character does not fit in a byte.
  function Btoa(s: string): Option<string> {
    if IsBinary(s) then Some(Encode64(Octets(s))) else None
  }

  // A lone last digit and a foreign character are errors.
  function Decode64(t: string): Option<seq<Byte>> {
    if |t| % 4 == 1 || !AllDigits(t) then None else Some(Join(Values(t)))
  }

  function StripSpace(s: string): string {
    if s == [] then []
    else if s[0] in {'\t', '\n', 12 as char, '\r', ' '} then StripSpace(s[1..])
    else [s[0]] + StripSpace(s[1..])
  }

  function DropPadding(s: string): string {
    if |s| % 4 != 0 || |s| == 0 || s[|s| - 1] != '=' then s
    else if s[|s| - 2] == '=' then s[..|s| - 2] else s[..|s| - 1]
  }

  // Forgiving decoding: whitespace is ignored, padding is optional.
  function Atob(text: string): Option<string> {
    match Decode64(DropPadding(StripSpace(text)))
    case None => None
    case Some(b) => Some(Latin1(b))
  }

  // -- The URL-safe text ----------------------------------------------------

  // replace(/=+$/, "")
  function StripEquals(s: string): string {
    if s != [] && s[|s| - 1] == '=' then StripEquals(s[..|s| - 1]) else s
  }

  function ToUrl(s: string): string {
    StripEquals(Replace(Replace(s, '+', '-'), '/', '_'))
  }

  function FromUrl(s: string): string {
    Replace(Replace(s, '-', '+'), '_', '/')
  }

  function UrlText(b: seq<Byte>): string {
    ToUrl(Encode64(b))
  }

  method Base64UrlEncode(bytes: seq<Byte>) returns (text: string)
    ensures text == UrlText(bytes)
    ensures Atob(FromUrl(text)) == Some(Latin1(bytes))
  {
    var str := "";
    for i := 0 to |bytes|
      invariant str == Latin1(bytes[..i])
    {
      assert Latin1(bytes[..i + 1]) == Latin1(bytes[..i]) + [bytes[i] as char];
      str := str + [bytes[i] as char];
    }
    assert bytes[..|bytes|] == bytes;
    assert Octets(Latin1(bytes)) == bytes;
    var encoded := Btoa(str);
    text := ToUrl(encoded.value);
    PrintThenRead(bytes);
  }

  predicate UrlDigit(c: char) {
    (DigitValue(c) >= 0 && c != '+' && c != '/') || c == '-' || c == '_'
  }

  function UrlValue(c: char): int {
    if c == '-' then 62 else if c == '_' then 63 else DigitValue(c)
  }

  // A text some byte string prints as: URL digits, no group of a single digit,
  // and no bit set that reading would drop.
  ghost predicate Canonical(t: string) {
    && (forall k :: 0 <= k < |t| ==> UrlDigit(t[k]))
    && |t| % 4 != 1
    && (|t| % 4 == 2 ==> UrlValue(t[|t| - 1]) % 16 == 0)
    && (|t| % 4 == 3 ==> UrlValue(t[|t| - 1]) % 4 == 0)
  }

  // -- Printing then reading ------------------------------------------------

  lemma {:induction false} DigitRoundTrip(n: int)
    requires 0 <= n < 64
    ensures DigitValue(Digit(n)) == n
  {
  }

  lemma {:induction false} DigitOfValue(c: char)
    requires DigitValue(c) >= 0
    ensures DigitValue(c) < 64 && Digit(DigitValue(c)) == c
    ensures c !in {'=', '-', '_', '.', ' ', '\t', '\n', '\r', 12 as char}
  {
  }

  lemma {:induction false} TextIsDigits(v: seq<Sextet>)
    ensures AllDigits(Text(v)) && Values(Text(v)) == v
  {
    forall k | 0 <= k < |v| ensures DigitValue(Text(v)[k]) == v[k] {
      DigitRoundTrip(v[k]);
    }
  }

  lemma {:induction false} GroupRoundTrip(x: Byte, y: Byte, z: Byte)
    ensures Byte1(x / 4, x % 4 * 16 + y / 16) == x
    ensures Byte2(x % 4 * 16 + y / 16, y % 16 * 4 + z / 64) == y
    ensures Byte3(y % 16 * 4 + z / 64, z % 64) == z
  {
  }

  lemma {:induction false} JoinOfGroup(b: seq<Byte>)
    requires |b| >= 3
    ensures Join(Sextets(b)) == b[..3] + Join(Sextets(b[3..]))
  {
    GroupRoundTrip(b[0], b[1], b[2]);
    assert Sextets(b)[4..] == Sextets(b[3..]);
  }

  lemma {:induction false} JoinOfOne(b: seq<Byte>)
    requires |b| == 1
    ensures Join(Sextets(b)) == b
  {
    GroupRoundTrip(b[0], 0, 0);
    var v := Sextets(b);
    assert |v| == 2 && v[0] == b[0] / 4 && v[1] == b[0] % 4 * 16;
    assert Join(v) == [Byte1(v[0], v[1])];
  }

  lemma {:induction false} JoinOfTwo(b: seq<Byte>)
    requires |b| == 2
    ensures Join(Sextets(b)) == b
  {
    GroupRoundTrip(b[0], b[1], 0);
    var v := Sextets(b);
    assert |v| == 3 && v[0] == b[0] / 4 && v[1] == b[0] % 4 * 16 + b[1] / 16 && v[2] == b[1] % 16 * 4;
    assert Join(v) == [Byte1(v[0], v[1]), Byte2(v[1], v[2])];
  }

  lemma {:induction false} JoinSextets(b: seq<Byte>)
    ensures Join(Sextets(b)) == b
  {
    if |b| >= 3 {
      JoinOfGroup(b);
      assert Join(Sextets(b[3..])) == b[3..] by { JoinSextets(b[3..]); }
    } else if |b| == 2 {
      JoinOfTwo(b);
    } else if |b| == 1 {
      JoinOfOne(b);
    }
  }

  lemma {:induction false} NoLoneSextet(b: seq<Byte>)
    ensures |Sextets(b)| % 4 != 1
  {
    if |b| >= 3 {
      NoLoneSextet(b[3..]);
      assert |Sextets(b)| == 4 + |Sextets(b[3..])|;
    }
  }

  lemma {:induction false} StripPadding(s: string, pad: string)
    requires forall k :: 0 <= k < |pad| ==> pad[k] == '='
    requires s == [] || s[|s| - 1] != '='
    ensures StripEquals(s + pad) == s
  {
    if pad == "" {
      assert s + pad == s;
    } else {
      var n := |pad| - 1;
      assert (s + pad)[|s + pad| - 1] == pad[n];
      assert (s + pad)[..|s + pad| - 1] == s + pad[..n];
      StripPadding(s, pad[..n]);
    }
  }

  function UrlDigits(t: string): (r: string)
    ensures |r| == |t|
  {
    Replace(Replace(t, '+', '-'), '/', '_')
  }

  lemma {:induction false} SwapDigits(t: string)
    requires AllDigits(t)
    ensures FromUrl(UrlDigits(t)) == t
    ensures forall k :: 0 <= k < |t| ==>
      UrlDigit(UrlDigits(t)[k]) && UrlValue(UrlDigits(t)[k]) == DigitValue(t[k]) && UrlDigits(t)[k] !in {'=', '.'}
  {
    forall k | 0 <= k < |t| ensures t[k] !in {'=', '-', '_', '.'} {
      DigitOfValue(t[k]);
    }
  }

  lemma {:induction false} PaddingIsUntouched(t: string, pad: string)
    requires forall k :: 0 <= k < |pad| ==> pad[k] == '='
    ensures UrlDigits(t + pad) == UrlDigits(t) + pad
  {
  }

  lemma {:induction false} UrlTextIsDigits(b: seq<Byte>)
    ensures UrlText(b) == UrlDigits(Text(Sextets(b)))
    ensures FromUrl(UrlText(b)) == Text(Sextets(b))
  {
    var t := Text(Sextets(b));
    TextIsDigits(Sextets(b));
    SwapDigits(t);
    PaddingIsUntouched(t, Padding(|b|));
    StripPadding(UrlDigits(t), Padding(|b|));
  }

  lemma {:induction false} NothingToStrip(t: string)
    requires AllDigits(t)
    ensures StripSpace(t) == t && DropPadding(t) == t
  {
    if t != [] {
      DigitOfValue(t[0]);
      DigitOfValue(t[|t| - 1]);
      assert AllDigits(t[1..]);
      NothingToStrip(t[1..]);
    }
  }

  // Every byte string reads back from its URL-safe text.
  lemma {:induction false} PrintThenRead(b: seq<Byte>)
    ensures Atob(FromUrl(UrlText(b))) == Some(Latin1(b))
  {
    UrlTextIsDigits(b);
    TextIsDigits(Sextets(b));
    NothingToStrip(Text(Sextets(b)));
    JoinSextets(b);
    NoLoneSextet(b);
  }

  // -- Reading then printing ------------------------------------------------

  // The unused bits of the last group are zero.
  ghost predicate NoLostBits(v: seq<Sextet>) {
    && (|v| % 4 == 2 ==> v[|v| - 1] % 16 == 0)
    && (|v| % 4 == 3 ==> v[|v| - 1] % 4 == 0)
  }

  lemma {:induction false} SextetGroupRoundTrip(a: Sextet, b: Sextet, c: Sextet, d: Sextet)
    ensures var x, y, z := Byte1(a, b), Byte2(b, c), Byte3(c, d);
      && x / 4 == a && x % 4 * 16 + y / 16 == b && y % 16 * 4 + z / 64 == c && z % 64 == d
      && (x % 4 * 16 == b <==> b % 16 == 0)
      && (y % 16 * 4 == c <==> c % 4 == 0)
  {
  }

  lemma {:induction false} SextetsOfGroup(v: seq<Sextet>)
    requires |v| >= 4
    ensures Sextets(Join(v)) == v[..4] + Sextets(Join(v[4..]))
  {
    SextetGroupRoundTrip(v[0], v[1], v[2], v[3]);
    assert Join(v)[3..] == Join(v[4..]);
  }

  lemma {:induction false} SextetsOfShortJoin(v: seq<Sextet>)
    requires |v| in {0, 2, 3}
    ensures NoLostBits(v) <==> Sextets(Join(v)) == v
  {
    if v != [] {
      SextetGroupRoundTrip(v[0], v[1], if |v| > 2 then v[2] else 0, 0);
      assert |Sextets(Join(v))| == |v|;
    }
  }

  // Lost bits and differences can only be in the part after a whole group.
  lemma {:induction false} GroupsAgree(v: seq<Sextet>, w: seq<Sextet>, restW: seq<Sextet>)
    requires |v| >= 4 && w == v[..4] + restW
    requires NoLostBits(v[4..]) <==> restW == v[4..]
    ensures NoLostBits(v) <==> w == v
  {
    assert v == v[..4] + v[4..];
    assert w[4..] == restW;
    assert |v| % 4 == |v[4..]| % 4;
  }

  lemma {:induction false} SextetsOfJoin(v: seq<Sextet>)
    requires |v| % 4 != 1
    ensures NoLostBits(v) <==> Sextets(Join(v)) == v
  {
    if |v| >= 4 {
      SextetsOfJoin(v[4..]);
      SextetsOfGroup(v);
      GroupsAgree(v, Sextets(Join(v)), Sextets(Join(v[4..])));
    } else {
      SextetsOfShortJoin(v);
    }
  }

  lemma {:induction false} SwapUrl(t: string)
    requires forall k :: 0 <= k < |t| ==> UrlDigit(t[k])
    ensures AllDigits(FromUrl(t)) && UrlDigits(FromUrl(t)) == t
    ensures forall k :: 0 <= k < |t| ==> DigitValue(FromUrl(t)[k]) == UrlValue(t[k])
  {
    var s := FromUrl(t);
    forall k | 0 <= k < |t| ensures DigitValue(s[k]) == UrlValue(t[k]) >= 0 && UrlDigits(s)[k] == t[k] {
      if t[k] != '-' && t[k] != '_' { DigitOfValue(t[k]); }
    }
  }

  // The texts that printing produces are exactly the canonical ones, and a
  // canonical text read and printed again comes back unchanged.
  lemma {:induction false} ReadThenPrint(t: string)
    ensures Canonical(t) <==> exists b :: UrlText(b) == t
    ensures Canonical(t) ==> exists b :: Atob(FromUrl(t)) == Some(Latin1(b)) && UrlText(b) == t
  {
    if Canonical(t) {
      var b := CanonicalIsPrinted(t);
    }
    if b :| UrlText(b) == t {
      UrlTextIsCanonical(b);
    }
  }

  lemma {:induction false} CanonicalIsPrinted(t: string) returns (b: seq<Byte>)
    requires Canonical(t)
    ensures Atob(FromUrl(t)) == Some(Latin1(b)) && UrlText(b) == t
  {
    var s := FromUrl(t);
    SwapUrl(t);
    NothingToStrip(s);
    b := Join(Values(s));
    assert NoLostBits(Values(s));
    SextetsOfJoin(Values(s));
    forall k | 0 <= k < |s| ensures Digit(Values(s)[k]) == s[k] {
      DigitOfValue(s[k]);
    }
    assert Text(Values(s)) == s;
    UrlTextIsDigits(b);
  }

  lemma {:induction false} SextetsLoseNothing(b: seq<Byte>)
    ensures NoLostBits(Sextets(b))
  {
    NoLoneSextet(b);
    JoinSextets(b);
    SextetsOfJoin(Sextets(b));
  }

  lemma {:induction false} UrlDigitsAreCanonical(v: seq<Sextet>)
    requires NoLostBits(v) && |v| % 4 != 1
    ensures Canonical(UrlDigits(Text(v)))
    ensures '.' !in UrlDigits(Text(v)) && '=' !in UrlDigits(Text(v))
  {
    TextIsDigits(v);
    SwapDigits(Text(v));
  }

  lemma {:induction false} UrlTextIsCanonical(b: seq<Byte>)
    ensures Canonical(UrlText(b))
    ensures '.' !in UrlText(b) && '=' !in UrlText(b)
  {
    UrlTextIsDigits(b);
    NoLoneSextet(b);
    SextetsLoseNothing(b);
    UrlDigitsAreCanonical(Sextets(b));
  }

  // -- The standard's own terms ---------------------------------------------

  lemma {:induction false} UpperByPosition(n: int)
    requires 0 <= n < 26
    ensures Digit(n) == "ABCDEFGHIJKLMNOPQRSTUVWXYZ"[n]
  {
  }

  lemma {:induction false} LowerByPosition(n: int)
    requires 0 <= n < 26
    ensures Digit(26 + n) == "abcdefghijklmnopqrstuvwxyz"[n]
  {
  }

  // The alphabets of tables 1 and 2 of RFC 4648, by position.
  lemma {:induction false} AlphabetByPosition()
    ensures forall n :: 0 <= n < 26 ==> Digit(n) == "ABCDEFGHIJKLMNOPQRSTUVWXYZ"[n]
    ensures forall n :: 0 <= n < 26 ==> Digit(26 + n) == "abcdefghijklmnopqrstuvwxyz"[n]
    ensures forall n :: 0 <= n < 10 ==> Digit(52 + n) == "0123456789"[n]
    ensures Digit(62) == '+' && Digit(63) == '/'
  {
    forall n | 0 <= n < 26
      ensures Digit(n) == "ABCDEFGHIJKLMNOPQRSTUVWXYZ"[n] && Digit(26 + n) == "abcdefghijklmnopqrstuvwxyz"[n]
    {
      UpperByPosition(n);
      LowerByPosition(n);
    }
  }

  // The printed text is the sextets in the URL alphabet: - for 62, _ for 63, and
  // the digit of the common alphabet otherwise.
  lemma {:induction false} UrlTextByPosition(b: seq<Byte>)
    ensures |UrlText(b)| == |Sextets(b)|
    ensures forall j :: 0 <= j < |UrlText(b)| ==>
      UrlText(b)[j] == if Sextets(b)[j] == 62 then '-' else if Sextets(b)[j] == 63 then '_' else Digit(Sextets(b)[j])
  {
    UrlTextIsDigits(b);
    var v := Sextets(b);
    forall j | 0 <= j < |v|
      ensures UrlDigits(Text(v))[j] == if v[j] == 62 then '-' else if v[j] == 63 then '_' else Digit(v[j])
    {
      DigitRoundTrip(v[j]);
    }
  }

  // The 24-bit groups of section 4 of RFC 4648: three bytes, and four sextets,
  // with zeros for what is missing at the end.
  function ByteAt(b: seq<Byte>, i: nat): int {
    if i < |b| then b[i] else 0
  }

  function SextetAt(v: seq<Sextet>, i: nat): int {
    if i < |v| then v[i] else 0
  }

  function ByteGroup(b: seq<Byte>, g: nat): int {
    65536 * ByteAt(b, 3 * g) + 256 * ByteAt(b, 3 * g + 1) + ByteAt(b, 3 * g + 2)
  }

  function SextetGroup(v: seq<Sextet>, g: nat): int {
    262144 * SextetAt(v, 4 * g) + 4096 * SextetAt(v, 4 * g + 1) + 64 * SextetAt(v, 4 * g + 2) + SextetAt(v, 4 * g + 3)
  }

  lemma {:induction false} LaterGroups(b: seq<Byte>, v: seq<Sextet>, g: nat)
    requires |b| >= 3 && |v| >= 4 && g > 0
    ensures ByteGroup(b, g) == ByteGroup(b[3..], g - 1) && SextetGroup(v, g) == SextetGroup(v[4..], g - 1)
  {
  }

  lemma {:induction false} NothingAfter(b: seq<Byte>, v: seq<Sextet>, g: nat)
    requires |b| <= 3 && |v| <= 4 && g > 0
    ensures ByteGroup(b, g) == 0 == SextetGroup(v, g)
  {
  }

  // The sextets of a byte string are the least number that holds it, and their
  // 24-bit groups are those of the bytes.
  lemma {:induction false} SextetsRegroup(b: seq<Byte>)
    ensures |Sextets(b)| == (8 * |b| + 5) / 6
    ensures forall g: nat :: SextetGroup(Sextets(b), g) == ByteGroup(b, g)
  {
    var v := Sextets(b);
    assert |b| == 3 ==> b[3..] == [];
    if |b| > 3 { SextetsRegroup(b[3..]); }
    forall g: nat ensures SextetGroup(v, g) == ByteGroup(b, g) {
      if g == 0 {
        FirstGroup(b);
      } else if |b| > 3 {
        assert v[4..] == Sextets(b[3..]);
        LaterGroups(b, v, g);
      } else {
        NothingAfter(b, v, g);
      }
    }
  }

  lemma {:induction false} FirstGroup(b: seq<Byte>)
    ensures SextetGroup(Sextets(b), 0) == ByteGroup(b, 0)
  {
  }

  // A 24-bit group that n sextets began, without the bits of an unfinished byte.
  function WholeBytes(group: int, n: nat): int {
    if n == 2 then group / 65536 * 65536 else if n == 3 then group / 256 * 256 else group
  }

  function GroupRead(v: seq<Sextet>, g: nat): int {
    if 4 * g + 4 <= |v| then SextetGroup(v, g) else WholeBytes(SextetGroup(v, g), |v| % 4)
  }

  // The bytes of a string of sextets have its 24-bit groups, less the bits of an
  // unfinished byte.
  lemma {:induction false} JoinRegroups(v: seq<Sextet>)
    requires |v| % 4 != 1
    ensures |Join(v)| == 6 * |v| / 8
    ensures forall g: nat :: ByteGroup(Join(v), g) == GroupRead(v, g)
  {
    assert |v| == 4 ==> v[4..] == [];
    if |v| > 4 { JoinRegroups(v[4..]); }
    forall g: nat ensures ByteGroup(Join(v), g) == GroupRead(v, g) {
      if g == 0 {
        FirstJoined(v);
      } else if |v| > 4 {
        LaterJoined(v, g);
      } else {
        NothingAfter(Join(v), v, g);
      }
    }
  }

  lemma {:induction false} DropTwo(q: int, r: int)
    requires 0 <= r < 65536
    ensures WholeBytes(65536 * q + r, 2) == 65536 * q
  {
    var k := (65536 * q + r) / 65536;
    assert 65536 * k <= 65536 * q + r < 65536 * k + 65536;
    assert k == q;
  }

  lemma {:induction false} DropOne(q: int, r: int)
    requires 0 <= r < 256
    ensures WholeBytes(256 * q + r, 3) == 256 * q
  {
    var k := (256 * q + r) / 256;
    assert 256 * k <= 256 * q + r < 256 * k + 256;
    assert k == q;
  }

  lemma {:induction false} JoinedBytes(a: Sextet, b: Sextet, c: Sextet, d: Sextet)
    ensures WholeBytes(262144 * a + 4096 * b, 2) == 65536 * Byte1(a, b)
    ensures WholeBytes(262144 * a + 4096 * b + 64 * c, 3) == 65536 * Byte1(a, b) + 256 * Byte2(b, c)
    ensures 262144 * a + 4096 * b + 64 * c + d == 65536 * Byte1(a, b) + 256 * Byte2(b, c) + Byte3(c, d)
  {
    var b1, b2, c1, c2 := b / 16, b % 16, c / 4, c % 4;
    assert b == 16 * b1 + b2 && c == 4 * c1 + c2;
    DropTwo(4 * a + b1, 4096 * b2);
    DropOne(1024 * a + 16 * b + c1, 64 * c2);
  }

  lemma {:induction false} FirstGroups(b: seq<Byte>, v: seq<Sextet>)
    ensures ByteGroup(b, 0) == 65536 * ByteAt(b, 0) + 256 * ByteAt(b, 1) + ByteAt(b, 2)
    ensures SextetGroup(v, 0) == 262144 * SextetAt(v, 0) + 4096 * SextetAt(v, 1) + 64 * SextetAt(v, 2) + SextetAt(v, 3)
    ensures GroupRead(v, 0) == if |v| >= 4 then SextetGroup(v, 0) else WholeBytes(SextetGroup(v, 0), |v|)
  {
  }

  lemma {:induction false} TwoJoined(v: seq<Sextet>)
    requires |v| == 2
    ensures ByteGroup(Join(v), 0) == GroupRead(v, 0)
  {
    FirstGroups(Join(v), v);
    JoinedBytes(v[0], v[1], 0, 0);
  }

  lemma {:induction false} ThreeJoined(v: seq<Sextet>)
    requires |v| == 3
    ensures ByteGroup(Join(v), 0) == GroupRead(v, 0)
  {
    FirstGroups(Join(v), v);
    JoinedBytes(v[0], v[1], v[2], 0);
  }

  lemma {:induction false} FourJoined(v: seq<Sextet>)
    requires |v| >= 4
    ensures ByteGroup(Join(v), 0) == GroupRead(v, 0)
  {
    FirstGroups(Join(v), v);
    JoinedBytes(v[0], v[1], v[2], v[3]);
  }

  lemma {:induction false} FirstJoined(v: seq<Sextet>)
    requires |v| != 1
    ensures ByteGroup(Join(v), 0) == GroupRead(v, 0)
  {
    if |v| == 2 { TwoJoined(v); }
    if |v| == 3 { ThreeJoined(v); }
    if |v| >= 4 { FourJoined(v); }
  }

  lemma {:induction false} LaterJoined(v: seq<Sextet>, g: nat)
    requires |v| > 4 && g > 0
    ensures ByteGroup(Join(v), g) == ByteGroup(Join(v[4..]), g - 1)
    ensures SextetGroup(v, g) == SextetGroup(v[4..], g - 1) && |v[4..]| % 4 == |v| % 4
  {
    var b := Join(v);
    assert |b| >= 3 && b[3..] == Join(v[4..]);
    LaterGroups(b, v, g);
  }

  // -- Which texts atob reads -----------------------------------------------

  lemma {:induction false} StripConcat(a: string, b: string)
    ensures StripSpace(a + b) == StripSpace(a) + StripSpace(b)
  {
    if a == [] {
      assert a + b == b;
    } else {
      StripConcat(a[1..], b);
      assert (a + b)[1..] == a[1..] + b && (a + b)[0] == a[0];
      assert [a[0]] + (StripSpace(a[1..]) + StripSpace(b)) == [a[0]] + StripSpace(a[1..]) + StripSpace(b);
    }
  }

  // White space anywhere in the text makes no difference.
  lemma {:induction false} SpaceIsIgnored(a: string, c: char, b: string)
    requires c in {' ', '\t', '\n', '\r', 12 as char}
    ensures Atob(a + [c] + b) == Atob(a + b)
  {
    StripConcat(a + [c], b);
    StripConcat(a, [c]);
    StripConcat(a, b);
    assert StripSpace([c]) == StripSpace([c][1..]) == [];
    assert StripSpace(a + [c]) == StripSpace(a);
  }

  predicate Spaceless(t: string) {
    ' ' !in t && '\t' !in t && '\n' !in t && '\r' !in t && (12 as char) !in t
  }

  lemma {:induction false} StripNothing(t: string)
    requires Spaceless(t)
    ensures StripSpace(t) == t
  {
    if t != [] { StripNothing(t[1..]); }
  }

  // Digits of the alphabet, not one left over, and at most the padding that
  // completes a group of four.
  predicate ReadsAs(t: string, digits: string, pad: string) {
    && t == digits + pad && AllDigits(digits) && |digits| % 4 != 1
    && (pad == "" || ((pad == "=" || pad == "==") && |t| % 4 == 0))
  }

  lemma {:induction false} PaddingDrops(t: string, digits: string, pad: string)
    requires ReadsAs(t, digits, pad)
    ensures DropPadding(t) == digits
  {
    if digits != [] { DigitOfValue(digits[|digits| - 1]); }
    assert pad == "" ==> t == digits;
    assert pad != "" ==> t[|t| - 1] == '=';
    assert pad == "=" && digits != [] ==> t[|t| - 2] == digits[|digits| - 1];
  }

  lemma {:induction false} DroppedReads(t: string)
    requires |DropPadding(t)| % 4 != 1 && AllDigits(DropPadding(t))
    ensures exists digits, pad :: ReadsAs(t, digits, pad)
  {
    var digits := DropPadding(t);
    var pad := t[|digits|..];
    assert t == digits + pad;
    assert pad == "" || pad == "=" || pad == "==";
    assert ReadsAs(t, digits, pad);
  }

  // A text without white space is read exactly when it is made up like that, and
  // then as the bytes of its digits.
  lemma {:induction false} AtobReadsExactly(t: string)
    requires Spaceless(t)
    ensures Atob(t).Some? <==> exists digits, pad :: ReadsAs(t, digits, pad)
    ensures forall digits, pad :: ReadsAs(t, digits, pad) ==> Atob(t) == Some(Latin1(Join(Values(digits))))
  {
    StripNothing(t);
    if Atob(t).Some? { DroppedReads(t); }
    forall digits, pad | ReadsAs(t, digits, pad) ensures Atob(t) == Some(Latin1(Join(Values(digits)))) {
      PaddingDrops(t, digits, pad);
    }
  }

  lemma {:induction false} DigitsAreSpaceless(digits: string, pad: string)
    requires AllDigits(digits) && pad in {"", "=", "=="}
    ensures Spaceless(digits + pad)
  {
    forall k | 0 <= k < |digits| ensures digits[k] !in {' ', '\t', '\n', '\r', 12 as char} {
      DigitOfValue(digits[k]);
    }
  }

  // btoa pads to whole groups of four, and atob reads its text as it stands.
  lemma {:induction false} PaddedTextReads(b: seq<Byte>)
    ensures |Encode64(b)| % 4 == 0 && ReadsAs(Encode64(b), Text(Sextets(b)), Padding(|b|))
    ensures Atob(Encode64(b)) == Some(Latin1(b))
  {
    var digits, pad := Text(Sextets(b)), Padding(|b|);
    TextIsDigits(Sextets(b));
    NoLoneSextet(b);
    PaddingFills(b);
    assert ReadsAs(digits + pad, digits, pad);
    DigitsAreSpaceless(digits, pad);
    AtobReadsExactly(digits + pad);
    JoinSextets(b);
  }

  lemma {:induction false} PaddingRepeats(n: nat)
    ensures Padding(n + 3) == Padding(n)
  {
    assert (n + 3) % 3 == n % 3;
  }

  lemma {:induction false} PaddingFills(b: seq<Byte>)
    ensures (|Sextets(b)| + |Padding(|b|)|) % 4 == 0
  {
    if |b| >= 3 {
      var rest := b[3..];
      PaddingFills(rest);
      PaddingRepeats(|rest|);
      assert |Sextets(b)| + |Padding(|b|)| == 4 + (|Sextets(rest)| + |Padding(|rest|)|);
    }
  }
}
