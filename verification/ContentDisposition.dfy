/**
 The download header: the printer, and a reader of its extended parameter as
 section 3.2 of RFC 5987 describes the ext-value.
 */
module ContentDisposition {
  import opened Options
  import opened Utf8
  import opened Percent

  function Remove(s: string, c: char): string {
    if s == [] then []
    else if s[0] == c then Remove(s[1..], c)
    else [s[0]] + Remove(s[1..], c)
  }

  function Sanitize(filename: string): string {
    Remove(Remove(Remove(filename, '\r'), '\n'), '"')
  }

  // encode("ascii", errors="replace")
  function AsciiFallback(s: string): (r: string)
    ensures |r| == |s|
    ensures forall k :: 0 <= k < |r| ==> r[k] as int < 128 && (r[k] == s[k] || (r[k] == '?' && s[k] as int >= 128))
  {
    if s == [] then [] else [if s[0] as int < 128 then s[0] else '?'] + AsciiFallback(s[1..])
  }

  predicate Unreserved(b: Byte) {
    || 'A' as int <= b <= 'Z' as int || 'a' as int <= b <= 'z' as int || '0' as int <= b <= '9' as int
    || b == '_' as int || b == '.' as int || b == '-' as int || b == '~' as int
  }

  // urllib.parse.quote with no extra safe characters.
  function QuoteBytes(b: seq<Byte>): string {
    if b == [] then [] else QuoteByte(b[0]) + QuoteBytes(b[1..])
  }

  function QuoteByte(x: Byte): string {
    if Unreserved(x) then [x as char] else PercentByte(x, true)
  }

  const Opening := "attachment; filename="
  const Extended := "; filename*=UTF-8"

  function Header(filename: string): string {
    var safe := Sanitize(filename);
    Opening + "\"" + AsciiFallback(safe) + "\"" + Extended + "''" + QuoteBytes(Encode(safe))
  }

  // -- Reading --------------------------------------------------------------

  // The text after the last '' of a header value.
  function AfterLastPair(s: string): Option<string> {
    if |s| < 2 then None
    else
      match AfterLastPair(s[1..])
      case Some(rest) => Some(rest)
      case None => if s[0] == '\'' && s[1] == '\'' then Some(s[2..]) else None
  }

  function PercentDecode(s: string): Option<seq<Byte>> {
    if s == [] then Some([])
    else if s[0] == '%' then
      match (ReadOctet(s), if |s| >= 3 then PercentDecode(s[3..]) else None)
      case (Some(b), Some(rest)) => Some([b] + rest)
      case _ => None
    else
      match PercentDecode(s[1..])
      case Some(rest) => if s[0] as int < 128 then Some([s[0] as int] + rest) else None
      case None => None
  }

  function ReadFilename(header: string): Option<string> {
    match AfterLastPair(header)
    case None => None
    case Some(text) =>
      match PercentDecode(text)
      case None => None
      case Some(bytes) => Decode(bytes)
  }

  // attr-char of RFC 5987 section 3.2.1.
  predicate AttrChar(c: char) {
    || 'A' <= c <= 'Z' || 'a' <= c <= 'z' || '0' <= c <= '9'
    || c in {'!', '#', '$', '&', '+', '-', '.', '^', '_', '`', '|', '~'}
  }

  // value-chars of RFC 5987: pct-encoded triplets and attr-chars.
  predicate ValueChars(s: string) {
    s == [] ||
    if s[0] == '%' then ReadOctet(s).Some? && ValueChars(s[3..]) else AttrChar(s[0]) && ValueChars(s[1..])
  }

  // -- Sanitizing -----------------------------------------------------------

  function Kept(s: string): string {
    if s == [] then []
    else if s[0] in {'\r', '\n', '"'} then Kept(s[1..])
    else [s[0]] + Kept(s[1..])
  }

  lemma {:induction false} RemoveStep(c: char, rest: string, d: char)
    ensures Remove([c] + rest, d) == (if c == d then [] else [c]) + Remove(rest, d)
  {
    assert ([c] + rest)[1..] == rest;
  }

  // The three passes keep, in order, exactly the other characters.
  lemma {:induction false} SanitizeKeepsTheRest(s: string)
    ensures Sanitize(s) == Kept(s)
    ensures forall c :: c in Sanitize(s) <==> c in s && c !in {'\r', '\n', '"'}
  {
    if s != [] {
      var c, rest := s[0], s[1..];
      SanitizeKeepsTheRest(rest);
      assert s == [c] + rest;
      RemoveStep(c, rest, '\r');
      var a := Remove(rest, '\r');
      RemoveStep(c, a, '\n');
      RemoveStep(c, Remove(a, '\n'), '"');
    }
  }

  // -- The encoded value ----------------------------------------------------

  lemma {:induction false} PercentDecodeQuoted(b: seq<Byte>)
    ensures PercentDecode(QuoteBytes(b)) == Some(b)
  {
    if b != [] {
      var rest := QuoteBytes(b[1..]);
      PercentDecodeQuoted(b[1..]);
      if Unreserved(b[0]) {
        assert ([b[0] as char] + rest)[1..] == rest;
      } else {
        ReadPercentByte(b[0], true, rest);
      }
      assert b == [b[0]] + b[1..];
    }
  }

  lemma {:induction false} QuotedIsValueChars(b: seq<Byte>)
    ensures ValueChars(QuoteBytes(b))
    ensures forall c :: c in QuoteBytes(b) ==> c != '\'' && c != '"' && c != '\r' && c != '\n'
  {
    if b != [] {
      var rest := QuoteBytes(b[1..]);
      QuotedIsValueChars(b[1..]);
      if Unreserved(b[0]) {
        assert ([b[0] as char] + rest)[1..] == rest;
      } else {
        ReadPercentByte(b[0], true, rest);
      }
    }
  }

  lemma {:induction false} NoPairInside(s: string)
    requires '\'' !in s
    ensures AfterLastPair(s) == None
  {
    if |s| >= 2 { NoPairInside(s[1..]); }
  }

  lemma {:induction false} LastPairSplits(front: string, text: string)
    requires '\'' !in text
    ensures AfterLastPair(front + "''" + text) == Some(text)
  {
    var s := front + "''" + text;
    if front == [] {
      assert s[1..] == ['\''] + text;
      assert s[1..][1..] == text;
      NoPairInside(text);
      assert s[2..] == text;
    } else {
      LastPairSplits(front[1..], text);
      assert s[1..] == front[1..] + "''" + text;
    }
  }

  // -- Main results ---------------------------------------------------------

  // Whatever the filename, the header's extended parameter reads back as the
  // filename without CR, LF and quotes.
  lemma {:induction false} FilenameRoundTrip(filename: string)
    ensures ReadFilename(Header(filename)) == Some(Kept(filename))
    ensures ValueChars(QuoteBytes(Encode(Sanitize(filename))))
  {
    var safe := Sanitize(filename);
    var encoded := QuoteBytes(Encode(safe));
    SanitizeKeepsTheRest(filename);
    QuotedIsValueChars(Encode(safe));
    var front := Opening + "\"" + AsciiFallback(safe) + "\"" + Extended;
    assert Header(filename) == front + "''" + encoded;
    LastPairSplits(front, encoded);
    PercentDecodeQuoted(Encode(safe));
    DecodeEncode(safe);
  }

  lemma {:induction false} Associate(a: string, b: string, c: string)
    ensures a + (b + c) == (a + b) + c
  {
  }

  lemma {:induction false} QuoteConcat(a: seq<Byte>, b: seq<Byte>)
    ensures QuoteBytes(a + b) == QuoteBytes(a) + QuoteBytes(b)
  {
    if a == [] {
      assert a + b == b;
    } else {
      QuoteConcat(a[1..], b);
      assert (a + b)[1..] == a[1..] + b && (a + b)[0] == a[0];
      Associate(QuoteByte(a[0]), QuoteBytes(a[1..]), QuoteBytes(b));
    }
  }

  // Byte by byte, letters, digits and the four marks _ . - ~ stand for themselves
  // and any other byte is % and its two upper-case hexadecimal digits.
  lemma {:induction false} QuotesByteByByte(a: seq<Byte>, x: Byte, b: seq<Byte>)
    ensures QuoteBytes(a + [x] + b) == QuoteBytes(a) + QuoteBytes([x]) + QuoteBytes(b)
    ensures QuoteBytes([x]) ==
      if x < 128 && ('A' <= x as char <= 'Z' || 'a' <= x as char <= 'z' || '0' <= x as char <= '9'
                     || x as char in {'_', '.', '-', '~'}) then [x as char]
      else ['%', "0123456789ABCDEF"[x / 16], "0123456789ABCDEF"[x % 16]]
  {
    QuoteConcat(a + [x], b);
    QuoteConcat(a, [x]);
    HexByPosition(x / 16);
    HexByPosition(x % 16);
  }

  // -- The plain parameter --------------------------------------------------

  // The text before the first c, and the text after it.
  function Before(s: string, c: char): string {
    if s == [] || s[0] == c then [] else [s[0]] + Before(s[1..], c)
  }

  function After(s: string, c: char): string {
    if s == [] then [] else if s[0] == c then s[1..] else After(s[1..], c)
  }

  lemma {:induction false} CutAtFirst(front: string, c: char, rest: string)
    requires c !in front
    ensures Before(front + [c] + rest, c) == front && After(front + [c] + rest, c) == rest
  {
    var s := front + [c] + rest;
    if front != [] {
      CutAtFirst(front[1..], c, rest);
      assert s[1..] == front[1..] + [c] + rest;
    }
  }

  lemma {:induction false} CutAtQuotes(opening: string, plain: string, tail: string)
    requires '"' !in opening && '"' !in plain
    ensures var h := opening + ['"'] + plain + ['"'] + tail;
      Before(h, '"') == opening && Before(After(h, '"'), '"') == plain && After(After(h, '"'), '"') == tail
  {
    var rest := plain + ['"'] + tail;
    assert opening + ['"'] + plain + ['"'] + tail == opening + ['"'] + rest;
    CutAtFirst(opening, '"', rest);
    CutAtFirst(plain, '"', tail);
  }

  lemma {:induction false} CutAtSemicolon(rest: string)
    ensures Before(Opening + rest, ';') == "attachment"
  {
    LiteralsCut();
    assert Opening + rest == "attachment" + [';'] + (" filename=" + rest);
    CutAtFirst("attachment", ';', " filename=" + rest);
  }

  lemma {:induction false} CutAtApostrophe(encoded: string)
    ensures Before(Extended + "''" + encoded, '\'') == "; filename*=UTF-8"
  {
    LiteralsCut();
    assert Extended + "''" + encoded == Extended + ['\''] + ("'" + encoded);
    CutAtFirst(Extended, '\'', "'" + encoded);
  }

  lemma {:induction false} PartsReadBack(plain: string, encoded: string)
    requires '"' !in plain
    ensures var h := Opening + ['"'] + plain + ['"'] + (Extended + "''" + encoded);
      && Before(h, ';') == "attachment" && Before(h, '"') == Opening && Before(After(h, '"'), '"') == plain
      && After(After(h, '"'), '"') == Extended + "''" + encoded
  {
    var tail := Extended + "''" + encoded;
    assert '"' !in Opening by { OpeningIsPrintable(); }
    CutAtQuotes(Opening, plain, tail);
    assert Opening + ['"'] + plain + ['"'] + tail == Opening + (['"'] + plain + ['"'] + tail);
    CutAtSemicolon(['"'] + plain + ['"'] + tail);
  }

  // A reader that splits at semicolons and quotes finds the disposition type
  // attachment, and as the quoted parameter the filename without CR, LF and
  // quotes, with a question mark for each character beyond ASCII.
  lemma {:induction false} PlainParameterReadsBack(filename: string)
    ensures var h, kept := Header(filename), Kept(filename);
      var plain, tail := Before(After(h, '"'), '"'), After(After(h, '"'), '"');
      && Before(h, ';') == "attachment" && Before(h, '"') == "attachment; filename="
      && |plain| == |kept|
      && (forall k :: 0 <= k < |kept| ==> plain[k] == if kept[k] as int < 128 then kept[k] else '?')
      && Before(tail, '\'') == "; filename*=UTF-8"
  {
    SanitizeKeepsTheRest(filename);
    var plain, encoded := AsciiFallback(Kept(filename)), QuoteBytes(Encode(Kept(filename)));
    assert '"' !in plain by { PartsAreClean(filename, '"'); }
    assert Header(filename) == Opening + ['"'] + plain + ['"'] + (Extended + "''" + encoded);
    PartsReadBack(plain, encoded);
    CutAtApostrophe(encoded);
    LiteralsCut();
  }

  lemma {:induction false} LiteralsCut()
    ensures ';' !in "attachment" && '\'' !in Extended
    ensures Opening == "attachment" + [';'] + " filename=" && Extended == "; filename*=UTF-8"
  {
  }

  function Occurrences(s: string, c: char): nat {
    if s == [] then 0 else (if s[0] == c then 1 else 0) + Occurrences(s[1..], c)
  }

  lemma {:induction false} OccurrencesConcat(a: string, b: string, c: char)
    ensures Occurrences(a + b, c) == Occurrences(a, c) + Occurrences(b, c)
  {
    if a == [] {
      assert a + b == b;
    } else {
      OccurrencesConcat(a[1..], b, c);
      assert (a + b)[1..] == a[1..] + b;
    }
  }

  lemma {:induction false} OccurrencesNone(s: string, c: char)
    requires c !in s
    ensures Occurrences(s, c) == 0
  {
    if s != [] { OccurrencesNone(s[1..], c); }
  }

  lemma {:induction false} FallbackIsClean(safe: string, c: char)
    requires c !in safe && c != '?'
    ensures c !in AsciiFallback(safe)
  {
  }

  lemma {:induction false} TwoOccurrences(a: string, b: string, d: string, c: char)
    requires c !in a && c !in b && c !in d
    ensures Occurrences(a + [c] + b + [c] + d, c) == 2
  {
    OccurrencesNone(a, c);
    OccurrencesNone(b, c);
    OccurrencesNone(d, c);
    OccurrencesConcat(a, [c], c);
    OccurrencesConcat(a + [c], b, c);
    OccurrencesConcat(a + [c] + b, [c], c);
    OccurrencesConcat(a + [c] + b + [c], d, c);
  }

  predicate Printable(c: char) { ' ' <= c <= '~' && c != '"' }

  lemma {:induction false} OpeningIsPrintable()
    ensures forall d :: d in Opening ==> Printable(d)
  {
  }

  lemma {:induction false} ExtendedIsPrintable()
    ensures forall d :: d in Extended ==> Printable(d)
  {
  }

  // No character that sanitizing removes comes back in any part of the header.
  lemma {:induction false} PartsAreClean(filename: string, c: char)
    requires c == '\r' || c == '\n' || c == '"'
    ensures c !in AsciiFallback(Sanitize(filename))
    ensures c !in Extended + "''" + QuoteBytes(Encode(Sanitize(filename)))
  {
    SanitizeKeepsTheRest(filename);
    FallbackIsClean(Sanitize(filename), c);
    var encoded := QuoteBytes(Encode(Sanitize(filename)));
    assert c !in encoded by { QuotedIsValueChars(Encode(Sanitize(filename))); }
    assert c !in Extended by { ExtendedIsPrintable(); }
  }

  // The header is one line, all ASCII, and its only quotes are the two that
  // delimit the plain parameter: nothing in a filename can end it early.
  lemma {:induction false} HeaderCannotBeBroken(filename: string)
    ensures var h := Header(filename);
      && '\r' !in h && '\n' !in h
      && Occurrences(h, '"') == 2
      && forall c :: c in h ==> c as int < 128
  {
    var fallback, encoded := AsciiFallback(Sanitize(filename)), QuoteBytes(Encode(Sanitize(filename)));
    var tail := Extended + "''" + encoded;
    assert Header(filename) == Opening + ['"'] + fallback + ['"'] + tail;
    PartsAreClean(filename, '\r');
    PartsAreClean(filename, '\n');
    PartsAreClean(filename, '"');
    OpeningIsPrintable();
    ExtendedIsPrintable();
    QuotedIsAscii(Encode(Sanitize(filename)));
    TwoOccurrences(Opening, fallback, tail, '"');
  }

  lemma {:induction false} QuotedIsAscii(b: seq<Byte>)
    ensures forall c :: c in QuoteBytes(b) ==> c as int < 128
  {
    if b != [] { QuotedIsAscii(b[1..]); }
  }
}
