/**
 The database fallback of document search: an ILIKE on the filename within the
 caller's tenant.  Letter case is folded over ASCII.
 */
module DocumentSearch {
  import opened Options
  import opened Counting
  import opened Text

  datatype Document = Document(
    id: string,
    tenant: string,
    filename: string,
    contentType: string,
    classification: string,
    createdAt: int)

  datatype Hit = Hit(
    documentId: string,
    filename: string,
    contentType: string,
    classification: string,
    score: real,
    highlight: Option<string>,
    createdAt: int)

  datatype Result = Result(query: string, total: nat, page: int, pageSize: int, backend: string, hits: seq<Hit>)

  function Lower(c: char): char {
    if 'A' <= c <= 'Z' then (c as int + 32) as char else c
  }

  function LowerAll(s: string): (r: string)
    ensures |r| == |s| && forall k :: 0 <= k < |s| ==> r[k] == Lower(s[k])
  {
    if s == [] then [] else [Lower(s[0])] + LowerAll(s[1..])
  }

  // ILIKE: % is any run of characters, _ any one, backslash escapes the next.
  predicate ILike(text: string, pattern: string)
    decreases |pattern|, |text|
  {
    if pattern == [] then text == []
    else if pattern[0] == '%' then ILike(text, pattern[1..]) || (text != [] && ILike(text[1..], pattern))
    else if pattern[0] == '\\' then
      |pattern| > 1 && text != [] && Lower(text[0]) == Lower(pattern[1]) && ILike(text[1..], pattern[2..])
    else
      text != [] && (pattern[0] == '_' || Lower(text[0]) == Lower(pattern[0])) && ILike(text[1..], pattern[1..])
  }

  predicate Plain(query: string) {
    '%' !in query && '_' !in query && '\\' !in query
  }

  predicate FilterOk(wanted: Option<string>, actual: string) {
    wanted == None || wanted.value == "" || wanted.value == actual
  }

  predicate Selected(d: Document, tenant: string, query: string, classification: Option<string>,
      contentType: Option<string>) {
    && d.tenant == tenant
    && (query == "" || ILike(d.filename, "%" + query + "%"))
    && FilterOk(classification, d.classification)
    && FilterOk(contentType, d.contentType)
  }

  function Selection(tenant: string, query: string, classification: Option<string>,
      contentType: Option<string>): Document -> bool {
    (d: Document) => Selected(d, tenant, query, classification, contentType)
  }

  function Where(rows: seq<Document>, p: Document -> bool): (r: seq<Document>)
    ensures forall d :: d in r <==> d in rows && p(d)
    ensures |r| == CountIf(rows, p)
  {
    if rows == [] then []
    else
      var rest, last := Where(rows[..|rows| - 1], p), rows[|rows| - 1];
      assert rows == rows[..|rows| - 1] + [last];
      if p(last) then rest + [last] else rest
  }

  // ORDER BY created_at DESC: any order of the matches in which dates descend.
  ghost predicate ByRecency(matches: seq<Document>, ordered: seq<Document>) {
    && multiset(ordered) == multiset(matches)
    && forall i, j :: 0 <= i < j < |ordered| ==> ordered[i].createdAt >= ordered[j].createdAt
  }

  function Slice(s: seq<Document>, off: nat, n: nat): seq<Document> {
    if off >= |s| then [] else if off + n >= |s| then s[off..] else s[off..off + n]
  }

  function Score(d: Document, query: string): real {
    if query != "" && Contains(LowerAll(d.filename), LowerAll(query)) then 1.0 else 0.5
  }

  // The first row of a page.
  function Offset(page: int, size: int): (r: nat)
    requires page >= 1 && size >= 1
  {
    (page - 1) * size
  }

  // Pages start at the first row and follow each other.
  lemma {:induction false} PagesFollow(page: int, size: int)
    requires page >= 1 && size >= 1
    ensures Offset(1, size) == 0 && Offset(page + 1, size) == Offset(page, size) + size
  {
  }

  function Clamp(x: int, low: int, high: int): int {
    if x < low then low else if x > high then high else x
  }

  function HitOf(d: Document, query: string): Hit {
    Hit(d.id, d.filename, d.contentType, d.classification, Score(d, query), None, d.createdAt)
  }

  ghost predicate IsHitOf(rows: seq<Document>, p: Document -> bool, query: string, h: Hit) {
    exists d :: d in rows && p(d) && h == HitOf(d, query)
  }

  // Every hit is one of a stored document that satisfies p.
  ghost predicate AreHitsOf(rows: seq<Document>, p: Document -> bool, query: string, hits: seq<Hit>) {
    forall h :: h in hits ==> IsHitOf(rows, p, query, h)
  }

  lemma {:induction false} SliceAt(s: seq<Document>, off: nat, n: nat)
    ensures |Slice(s, off, n)| == if off >= |s| then 0 else if n <= |s| - off then n else |s| - off
    ensures forall k :: 0 <= k < |Slice(s, off, n)| ==> Slice(s, off, n)[k] == s[off + k]
  {
  }

  // Which rows a search asks for, by their columns.
  ghost function RowsAskedFor(rows: seq<Document>, tenant: string, query: string, classification: Option<string>,
      contentType: Option<string>): (r: set<nat>)
    ensures forall i: nat :: i in r <==>
      && i < |rows| && rows[i].tenant == tenant
      && (query != "" ==> ILike(rows[i].filename, "%" + query + "%"))
      && (classification.Some? && classification.value != "" ==> rows[i].classification == classification.value)
      && (contentType.Some? && contentType.value != "" ==> rows[i].contentType == contentType.value)
  {
    set i: nat | i < |rows| && rows[i].tenant == tenant
      && (query != "" ==> ILike(rows[i].filename, "%" + query + "%"))
      && (classification.Some? && classification.value != "" ==> rows[i].classification == classification.value)
      && (contentType.Some? && contentType.value != "" ==> rows[i].contentType == contentType.value)
  }

  // The repository's query.  ordered is the order in which the database lists the
  // matches.  The contract speaks of the columns themselves: the total counts
  // the caller's own rows that pass each given filter and match, and the page
  // is a slice of such rows.
  method FetchPage(rows: seq<Document>, ordered: seq<Document>, tenant: string, query: string, page: int, pageSize: int,
      classification: Option<string>, contentType: Option<string>) returns (records: seq<Document>, total: nat)
    requires page >= 1 && pageSize >= 1
    requires ByRecency(Where(rows, Selection(tenant, query, classification, contentType)), ordered)
    ensures total == |ordered| == |RowsAskedFor(rows, tenant, query, classification, contentType)|
    ensures forall k :: 0 <= k < |ordered| ==>
      var d := ordered[k];
      && d in rows && d.tenant == tenant && (query != "" ==> ILike(d.filename, "%" + query + "%"))
      && (classification.Some? && classification.value != "" ==> d.classification == classification.value)
      && (contentType.Some? && contentType.value != "" ==> d.contentType == contentType.value)
    ensures var off := Offset(page, pageSize);
      && |records| == (if off >= |ordered| then 0
                       else if pageSize <= |ordered| - off then pageSize else |ordered| - off)
      && forall k :: 0 <= k < |records| ==> records[k] == ordered[off + k]
    ensures forall j, k :: 0 <= j < k < |records| ==> records[j].createdAt >= records[k].createdAt
    ensures forall k :: 0 <= k < |records| ==>
      records[k] in rows && Selected(records[k], tenant, query, classification, contentType)
  {
    OrderedIsSelected(rows, ordered, tenant, query, classification, contentType);
    TotalCountsRows(rows, tenant, query, classification, contentType);
    SliceAt(ordered, Offset(page, pageSize), pageSize);
    total := |ordered|;
    records := Slice(ordered, Offset(page, pageSize), pageSize);
  }

  // A hit shows its document's columns, no highlight, and one of two scores.
  predicate Shows(h: Hit, d: Document, query: string) {
    && h.documentId == d.id && h.filename == d.filename && h.contentType == d.contentType
    && h.classification == d.classification && h.createdAt == d.createdAt && h.highlight == None
    && h.score == if query != "" && Contains(LowerAll(d.filename), LowerAll(query)) then 1.0 else 0.5
  }

  method HitsOf(records: seq<Document>, query: string) returns (hits: seq<Hit>)
    ensures |hits| == |records| && forall k :: 0 <= k < |hits| ==> Shows(hits[k], records[k], query)
  {
    hits := [];
    for k := 0 to |records|
      invariant |hits| == k
      invariant forall j :: 0 <= j < k ==> Shows(hits[j], records[j], query)
    {
      hits := hits + [HitOf(records[k], query)];
    }
  }

  lemma {:induction false} HitsAreRecent(records: seq<Document>, query: string, hits: seq<Hit>)
    requires |records| == |hits| && forall k :: 0 <= k < |hits| ==> Shows(hits[k], records[k], query)
    requires forall j, k :: 0 <= j < k < |records| ==> records[j].createdAt >= records[k].createdAt
    ensures forall j, k :: 0 <= j < k < |hits| ==> hits[j].createdAt >= hits[k].createdAt
  {
  }

  // The database fallback: the page's rows as hits, newest first, every one of
  // them a stored row of the caller's tenant that matches and passes the filters.
  method Search(rows: seq<Document>, ordered: seq<Document>, tenant: string, query: string, page: int, pageSize: int,
      classification: Option<string>, contentType: Option<string>) returns (result: Result)
    requires ByRecency(Where(rows, Selection(tenant, query, classification, contentType)), ordered)
    ensures result.query == query && result.backend == "database_fallback"
    ensures result.page == if page < 1 then 1 else page
    ensures result.pageSize == if pageSize < 1 then 1 else if pageSize > 100 then 100 else pageSize
    ensures result.total == |RowsAskedFor(rows, tenant, query, classification, contentType)|
    ensures var off, n := Offset(result.page, result.pageSize), result.pageSize;
      && |result.hits| == (if off >= |ordered| then 0 else if n <= |ordered| - off then n else |ordered| - off)
      && forall k :: 0 <= k < |result.hits| ==> Shows(result.hits[k], ordered[off + k], query)
    ensures forall k :: 0 <= k < |ordered| ==>
      var d := ordered[k];
      && d in rows && d.tenant == tenant && (query != "" ==> ILike(d.filename, "%" + query + "%"))
      && (classification.Some? && classification.value != "" ==> d.classification == classification.value)
      && (contentType.Some? && contentType.value != "" ==> d.contentType == contentType.value)
    ensures forall j, k :: 0 <= j < k < |result.hits| ==> result.hits[j].createdAt >= result.hits[k].createdAt
    ensures Plain(query) && query != "" ==>
      && result.total == CountIf(rows, NamesContaining(tenant, query, classification, contentType))
      && AreHitsOf(rows, NamesContaining(tenant, query, classification, contentType), query, result.hits)
      && forall h :: h in result.hits ==> h.score == 1.0
  {
    var p := if page < 1 then 1 else page;
    var size := Clamp(pageSize, 1, 100);
    var records, total := FetchPage(rows, ordered, tenant, query, p, size, classification, contentType);
    var hits := HitsOf(records, query);
    result := Result(query, total, p, size, "database_fallback", hits);
    HitsAreRecent(records, query, hits);
    PlainSearch(rows, tenant, query, classification, contentType, records, hits);
  }

  // For a plain query all of that comes to substrings: the total counts the
  // tenant's rows whose name contains it, and every hit is one and scores 1.0.
  lemma {:induction false} PlainSearch(rows: seq<Document>, tenant: string, query: string,
      classification: Option<string>, contentType: Option<string>, records: seq<Document>, hits: seq<Hit>)
    requires forall k :: 0 <= k < |records| ==>
      records[k] in rows && Selected(records[k], tenant, query, classification, contentType)
    requires |records| == |hits| && forall k :: 0 <= k < |hits| ==> Shows(hits[k], records[k], query)
    ensures Plain(query) && query != "" ==>
      && |RowsAskedFor(rows, tenant, query, classification, contentType)| ==
           CountIf(rows, NamesContaining(tenant, query, classification, contentType))
      && AreHitsOf(rows, NamesContaining(tenant, query, classification, contentType), query, hits)
      && forall h :: h in hits ==> h.score == 1.0
  {
    TotalCountsRows(rows, tenant, query, classification, contentType);
    forall h | h in hits ensures IsHitOf(rows, Selection(tenant, query, classification, contentType), query, h) {
      var k :| 0 <= k < |hits| && hits[k] == h;
      var d := records[k];
      assert d in rows && Selection(tenant, query, classification, contentType)(d) && h == HitOf(d, query);
    }
    if Plain(query) && query != "" { PlainHitsScoreOne(rows, tenant, query, classification, contentType, hits); }
  }

  lemma {:induction false} OrderedIsSelected(rows: seq<Document>, ordered: seq<Document>, tenant: string,
      query: string, classification: Option<string>, contentType: Option<string>)
    requires ByRecency(Where(rows, Selection(tenant, query, classification, contentType)), ordered)
    ensures |ordered| == CountIf(rows, Selection(tenant, query, classification, contentType))
    ensures forall k :: 0 <= k < |ordered| ==>
      var d := ordered[k];
      && d in rows && d.tenant == tenant && (query != "" ==> ILike(d.filename, "%" + query + "%"))
      && (classification.Some? && classification.value != "" ==> d.classification == classification.value)
      && (contentType.Some? && contentType.value != "" ==> d.contentType == contentType.value)
  {
    var matches := Where(rows, Selection(tenant, query, classification, contentType));
    assert |multiset(ordered)| == |ordered| && |multiset(matches)| == |matches|;
    forall k | 0 <= k < |ordered| ensures ordered[k] in matches {
      assert ordered[k] in multiset(matches);
    }
  }

  lemma {:induction false} TotalCountsRows(rows: seq<Document>, tenant: string, query: string,
      classification: Option<string>, contentType: Option<string>)
    ensures CountIf(rows, Selection(tenant, query, classification, contentType)) ==
      |RowsAskedFor(rows, tenant, query, classification, contentType)|
  {
    var p := Selection(tenant, query, classification, contentType);
    CountIsCardinality(rows, p);
    assert Indices(rows, p) == RowsAskedFor(rows, tenant, query, classification, contentType);
  }

  // Every listed document is a stored one of the caller's tenant that passed
  // the filters, and every such document is listed once for each time stored.
  lemma {:induction false} ListsExactlyTheSelected(rows: seq<Document>, ordered: seq<Document>, tenant: string,
      query: string, classification: Option<string>, contentType: Option<string>, d: Document)
    requires ByRecency(Where(rows, Selection(tenant, query, classification, contentType)), ordered)
    ensures multiset(ordered)[d] ==
      if && d.tenant == tenant && (query != "" ==> ILike(d.filename, "%" + query + "%"))
         && (classification.Some? && classification.value != "" ==> d.classification == classification.value)
         && (contentType.Some? && contentType.value != "" ==> d.contentType == contentType.value)
      then multiset(rows)[d] else 0
  {
    WhereMultiset(rows, Selection(tenant, query, classification, contentType), d);
  }

  lemma {:induction false} WhereMultiset(rows: seq<Document>, p: Document -> bool, d: Document)
    ensures multiset(Where(rows, p))[d] == if p(d) then multiset(rows)[d] else 0
  {
    if rows != [] {
      WhereMultiset(rows[..|rows| - 1], p, d);
      assert rows == rows[..|rows| - 1] + [rows[|rows| - 1]];
    }
  }

  // -- The pattern ----------------------------------------------------------

  // Equal up to the case of an ASCII letter.
  predicate SameLetter(c: char, d: char) {
    || c == d
    || ('A' <= c <= 'Z' && d as int == c as int + 32)
    || ('A' <= d <= 'Z' && c as int == d as int + 32)
  }

  lemma {:induction false} LowerIgnoresCase(c: char, d: char)
    ensures Lower(c) == Lower(d) <==> SameLetter(c, d)
  {
  }

  datatype Token = AnyRun | AnyOne | Letter(c: char)

  // The tokens of a pattern; None when its last character is a lone escape.
  function Tokens(pattern: string): Option<seq<Token>> {
    if pattern == [] then Some([])
    else if pattern[0] == '%' then Then(AnyRun, Tokens(pattern[1..]))
    else if pattern[0] == '_' then Then(AnyOne, Tokens(pattern[1..]))
    else if pattern[0] != '\\' then Then(Letter(pattern[0]), Tokens(pattern[1..]))
    else if |pattern| == 1 then None
    else Then(Letter(pattern[1]), Tokens(pattern[2..]))
  }

  function Then(t: Token, rest: Option<seq<Token>>): Option<seq<Token>> {
    match rest
    case None => None
    case Some(ts) => Some([t] + ts)
  }

  predicate Fits(piece: string, t: Token) {
    match t
    case AnyRun => true
    case AnyOne => |piece| == 1
    case Letter(c) => |piece| == 1 && SameLetter(piece[0], c)
  }

  function Concat(pieces: seq<string>): string {
    if pieces == [] then [] else pieces[0] + Concat(pieces[1..])
  }

  // The text cut into one piece a token, each piece fitting its token.
  ghost predicate CutTo(text: string, tokens: seq<Token>, pieces: seq<string>) {
    && |pieces| == |tokens| && Concat(pieces) == text
    && forall k :: 0 <= k < |tokens| ==> Fits(pieces[k], tokens[k])
  }

  lemma {:induction false} CutMore(text: string, tokens: seq<Token>, pieces: seq<string>, piece: string, t: Token)
    requires CutTo(text, tokens, pieces) && Fits(piece, t)
    ensures CutTo(piece + text, [t] + tokens, [piece] + pieces)
  {
    assert ([piece] + pieces)[1..] == pieces;
  }

  lemma {:induction false} CutOfMatch(text: string, pattern: string) returns (pieces: seq<string>)
    requires ILike(text, pattern)
    ensures Tokens(pattern).Some? && CutTo(text, Tokens(pattern).value, pieces)
    decreases |pattern|, |text|
  {
    if pattern == [] {
      pieces := [];
    } else if pattern[0] == '%' && ILike(text, pattern[1..]) {
      pieces := CutOfMatch(text, pattern[1..]);
      CutMore(text, Tokens(pattern[1..]).value, pieces, "", AnyRun);
      pieces := [""] + pieces;
      assert "" + text == text;
    } else if pattern[0] == '%' {
      var longer := CutOfMatch(text[1..], pattern);
      CutMore(Concat(longer[1..]), Tokens(pattern[1..]).value, longer[1..], [text[0]] + longer[0], AnyRun);
      pieces := [[text[0]] + longer[0]] + longer[1..];
      assert [text[0]] + longer[0] + Concat(longer[1..]) == [text[0]] + text[1..] == text;
    } else {
      var n := if pattern[0] == '\\' then 2 else 1;
      var rest := CutOfMatch(text[1..], pattern[n..]);
      LowerIgnoresCase(text[0], pattern[n - 1]);
      CutMore(text[1..], Tokens(pattern[n..]).value, rest, [text[0]], Tokens(pattern).value[0]);
      pieces := [[text[0]]] + rest;
      assert [text[0]] + text[1..] == text;
    }
  }

  lemma {:induction false} MatchOfCut(text: string, pattern: string, pieces: seq<string>)
    requires Tokens(pattern).Some? && CutTo(text, Tokens(pattern).value, pieces)
    ensures ILike(text, pattern)
    decreases |pattern|, |text|
  {
    if pattern != [] {
      var n := if pattern[0] == '\\' then 2 else 1;
      assert Tokens(pattern[n..]).Some? && Tokens(pattern).value[1..] == Tokens(pattern[n..]).value;
      var first, rest := pieces[0], pieces[1..];
      assert text == first + Concat(rest);
      assert forall k :: 0 <= k < |rest| ==> rest[k] == pieces[k + 1];
      if first == "" {
        assert text == Concat(rest);
        MatchOfCut(text, pattern[n..], rest);
      } else if pattern[0] == '%' {
        var shorter := [first[1..]] + rest;
        assert shorter[1..] == rest;
        assert text[1..] == first[1..] + Concat(rest);
        MatchOfCut(text[1..], pattern, shorter);
      } else {
        assert text[1..] == Concat(rest);
        MatchOfCut(text[1..], pattern[n..], rest);
        LowerIgnoresCase(text[0], pattern[n - 1]);
      }
    }
  }

  // What ILIKE means: the text is cut into one piece a token of the pattern,
  // any run for %, any one character for _, the same letter for a letter.
  lemma {:induction false} ILikeIsACut(text: string, pattern: string)
    ensures ILike(text, pattern) <==>
      Tokens(pattern).Some? && exists pieces :: CutTo(text, Tokens(pattern).value, pieces)
  {
    if ILike(text, pattern) { var pieces := CutOfMatch(text, pattern); }
    if Tokens(pattern).Some? {
      if pieces :| CutTo(text, Tokens(pattern).value, pieces) { MatchOfCut(text, pattern, pieces); }
    }
  }

  lemma {:induction false} AnythingMatchesPercent(text: string)
    ensures ILike(text, "%")
  {
    if text != [] { AnythingMatchesPercent(text[1..]); }
  }

  // A plain pattern matches character by character, ignoring case.
  lemma {:induction false} PlainThenPercent(text: string, query: string)
    requires Plain(query)
    ensures ILike(text, query + "%") <==> StartsAt(LowerAll(text), LowerAll(query), 0)
  {
    if query == [] {
      assert query + "%" == "%";
      AnythingMatchesPercent(text);
    } else {
      var pattern := query + "%";
      assert pattern[1..] == query[1..] + "%" && pattern[0] == query[0];
      if text != [] {
        PlainThenPercent(text[1..], query[1..]);
        StartStep(text, query);
      }
    }
  }

  lemma {:induction false} StartStep(text: string, query: string)
    requires text != [] && query != []
    ensures StartsAt(LowerAll(text), LowerAll(query), 0) <==>
      Lower(text[0]) == Lower(query[0]) && StartsAt(LowerAll(text[1..]), LowerAll(query[1..]), 0)
  {
    var t, q := LowerAll(text), LowerAll(query);
    assert t == [t[0]] + LowerAll(text[1..]) && q == [q[0]] + LowerAll(query[1..]);
    if |q| <= |t| {
      assert t[0..|q|] == [t[0]] + t[1..][0..|q| - 1];
    }
  }

  // A query without wildcards matches exactly the filenames that contain it.
  lemma {:induction false} PlainQueryIsSubstring(filename: string, query: string)
    requires Plain(query)
    ensures ILike(filename, "%" + query + "%") <==> Contains(LowerAll(filename), LowerAll(query))
  {
    var pattern := "%" + query + "%";
    assert pattern[1..] == query + "%";
    PlainThenPercent(filename, query);
    if filename == [] {
      if query == [] { assert StartsAt(LowerAll(filename), LowerAll(query), 0); }
    } else {
      PlainQueryIsSubstring(filename[1..], query);
      assert LowerAll(filename)[1..] == LowerAll(filename[1..]);
      ContainsStep(LowerAll(filename), LowerAll(query));
    }
  }

  predicate NameContains(d: Document, tenant: string, query: string, classification: Option<string>,
      contentType: Option<string>) {
    && d.tenant == tenant && Contains(LowerAll(d.filename), LowerAll(query))
    && FilterOk(classification, d.classification) && FilterOk(contentType, d.contentType)
  }

  function NamesContaining(tenant: string, query: string, classification: Option<string>,
      contentType: Option<string>): Document -> bool {
    (d: Document) => NameContains(d, tenant, query, classification, contentType)
  }

  // Under any filters a non-empty plain query selects exactly the tenant's
  // documents that pass them and whose name contains it, and these score 1.0.
  lemma {:induction false} PlainSelection(rows: seq<Document>, tenant: string, query: string,
      classification: Option<string>, contentType: Option<string>)
    requires Plain(query) && query != ""
    ensures forall d: Document :: Selected(d, tenant, query, classification, contentType) ==>
      NameContains(d, tenant, query, classification, contentType) && Score(d, query) == 1.0
    ensures forall d: Document :: NameContains(d, tenant, query, classification, contentType) ==>
      Selected(d, tenant, query, classification, contentType)
    ensures CountIf(rows, Selection(tenant, query, classification, contentType)) ==
      CountIf(rows, NamesContaining(tenant, query, classification, contentType))
  {
    forall d: Document
      ensures Selected(d, tenant, query, classification, contentType) <==>
        NameContains(d, tenant, query, classification, contentType)
    {
      PlainQueryIsSubstring(d.filename, query);
    }
    CountSame(rows, Selection(tenant, query, classification, contentType),
      NamesContaining(tenant, query, classification, contentType));
  }

  // So its hits are those of the tenant's documents whose name contains the query.
  lemma {:induction false} PlainHitsScoreOne(rows: seq<Document>, tenant: string, query: string,
      classification: Option<string>, contentType: Option<string>, hits: seq<Hit>)
    requires Plain(query) && query != ""
    requires AreHitsOf(rows, Selection(tenant, query, classification, contentType), query, hits)
    ensures AreHitsOf(rows, NamesContaining(tenant, query, classification, contentType), query, hits)
    ensures forall h :: h in hits ==> h.score == 1.0
    ensures CountIf(rows, Selection(tenant, query, classification, contentType)) ==
      CountIf(rows, NamesContaining(tenant, query, classification, contentType))
  {
    PlainSelection(rows, tenant, query, classification, contentType);
    forall h | h in hits
      ensures h.score == 1.0 && IsHitOf(rows, NamesContaining(tenant, query, classification, contentType), query, h)
    {
      assert IsHitOf(rows, Selection(tenant, query, classification, contentType), query, h);
      var d :| d in rows && Selected(d, tenant, query, classification, contentType) && h == HitOf(d, query);
      assert NamesContaining(tenant, query, classification, contentType)(d);
    }
  }

  lemma {:induction false} CountSame(rows: seq<Document>, p: Document -> bool, q: Document -> bool)
    requires forall d :: p(d) <==> q(d)
    ensures CountIf(rows, p) == CountIf(rows, q)
  {
    if rows != [] { CountSame(rows[..|rows| - 1], p, q); }
  }

  // -- Wildcards in a query -------------------------------------------------

  // A filename that matches the query read as a pattern, as short as can be.
  function Witness(query: string): (w: string)
    ensures |w| <= |query|
  {
    if query == [] then []
    else if query[0] == '%' then Witness(query[1..])
    else if query[0] == '_' then ['a'] + Witness(query[1..])
    else if query == "\\" then "%"
    else if query[0] == '\\' then [query[1]] + Witness(query[2..])
    else [query[0]] + Witness(query[1..])
  }

  lemma {:induction false} WitnessMatches(query: string)
    ensures ILike(Witness(query), query + "%")
  {
    var w, pattern := Witness(query), query + "%";
    if query == [] {
      assert pattern == "%";
      AnythingMatchesPercent(w);
    } else if query == "\\" {
      assert pattern == "\\%" && w[1..] == "" && pattern[2..] == "";
    } else if query[0] == '\\' {
      WitnessMatches(query[2..]);
      assert pattern[2..] == query[2..] + "%" && w[1..] == Witness(query[2..]);
    } else {
      WitnessMatches(query[1..]);
      assert pattern[1..] == query[1..] + "%";
      assert query[0] != '%' ==> w[1..] == Witness(query[1..]);
    }
  }

  lemma {:induction false} WitnessDiffers(query: string)
    requires LowerAll(Witness(query)) == LowerAll(query)
    ensures Plain(query)
  {
    if query != [] {
      var w := Witness(query);
      assert |w| == |query|;
      assert LowerAll(w)[0] == Lower(w[0]) && LowerAll(query)[0] == Lower(query[0]);
      if query != "\\" && query[0] != '\\' && query[0] != '%' {
        assert LowerAll(w)[1..] == LowerAll(w[1..]) && LowerAll(query)[1..] == LowerAll(query[1..]);
        assert w[1..] == Witness(query[1..]);
        WitnessDiffers(query[1..]);
        assert query == [query[0]] + query[1..];
      }
    }
  }

  // The fallback is a case-insensitive substring test for a query exactly when
  // the query holds no wildcard and no escape: any other query also matches
  // some filename that does not contain it, which then scores 0.5.
  lemma {:induction false} SubstringSearchIsExact(query: string)
    ensures Plain(query) <==>
      forall filename :: ILike(filename, "%" + query + "%") <==> Contains(LowerAll(filename), LowerAll(query))
  {
    if Plain(query) {
      forall filename ensures ILike(filename, "%" + query + "%") <==> Contains(LowerAll(filename), LowerAll(query)) {
        PlainQueryIsSubstring(filename, query);
      }
    } else {
      var w := Witness(query);
      WitnessMatches(query);
      assert ("%" + query + "%")[1..] == query + "%";
      assert ILike(w, "%" + query + "%");
      if Contains(LowerAll(w), LowerAll(query)) {
        var k :| 0 <= k <= |LowerAll(w)| && StartsAt(LowerAll(w), LowerAll(query), k);
        assert LowerAll(w)[k..k + |query|] == LowerAll(w);
        WitnessDiffers(query);
      }
    }
  }
}
