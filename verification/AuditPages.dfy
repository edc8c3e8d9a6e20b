/**
 The paginated audit listing: the tenant's rows, in whatever physical order
 they are stored, sorted by (timestamp, id) and cut into pages.
 */
module AuditPages {
  import opened Options
  import opened AuditChain
  import AppendProtocol

  datatype Listing =
    | Page(total: nat, page: int, pageSize: int, totalPages: nat, items: seq<Event>)
    | Rejected(status: int, detail: string)

  predicate KeyLeq(a: Event, b: Event) {
    a.body.timestamp < b.body.timestamp || (a.body.timestamp == b.body.timestamp && a.body.id <= b.body.id)
  }

  ghost predicate Sorted(s: seq<Event>) {
    forall i, j :: 0 <= i < j < |s| ==> KeyLeq(s[i], s[j])
  }

  function Insert(e: Event, s: seq<Event>): seq<Event> {
    if s == [] || KeyLeq(e, s[0]) then [e] + s else [s[0]] + Insert(e, s[1..])
  }

  lemma {:induction false} InsertMultiset(e: Event, s: seq<Event>)
    ensures multiset(Insert(e, s)) == multiset(s) + multiset{e}
  {
    if !(s == [] || KeyLeq(e, s[0])) {
      InsertMultiset(e, s[1..]);
      assert s == [s[0]] + s[1..];
    }
  }

  lemma {:induction false} PrependSorted(e: Event, s: seq<Event>)
    requires Sorted(s) && forall x :: x in s ==> KeyLeq(e, x)
    ensures Sorted([e] + s)
  {
  }

  lemma {:induction false} InsertSorted(e: Event, s: seq<Event>)
    requires Sorted(s)
    ensures Sorted(Insert(e, s))
  {
    if s == [] || KeyLeq(e, s[0]) {
      PrependSorted(e, s);
    } else {
      var r := Insert(e, s[1..]);
      InsertSorted(e, s[1..]);
      InsertMultiset(e, s[1..]);
      forall x | x in r ensures KeyLeq(s[0], x) {
        assert x in multiset(r);
      }
      PrependSorted(s[0], r);
    }
  }

  // ORDER BY timestamp, id.
  function SortByKey(s: seq<Event>): (r: seq<Event>)
    ensures Sorted(r) && multiset(r) == multiset(s) && |r| == |s|
  {
    if s == [] then []
    else
      var rest, last := s[..|s| - 1], s[|s| - 1];
      var r := Insert(last, SortByKey(rest));
      InsertSorted(last, SortByKey(rest));
      InsertMultiset(last, SortByKey(rest));
      assert s == rest + [last];
      assert |multiset(r)| == |r| && |multiset(s)| == |s|;
      r
  }

  // OFFSET off LIMIT n.
  function Slice(s: seq<Event>, off: nat, n: nat): seq<Event> {
    if off >= |s| then [] else if off + n >= |s| then s[off..] else s[off..off + n]
  }

  function PageCount(total: nat, pageSize: nat): nat
    requires pageSize > 0
  {
    if total > 0 then (total + pageSize - 1) / pageSize else 0
  }

  function PageOf(all: seq<Event>, page: nat, pageSize: nat): seq<Event>
    requires page >= 1
  {
    Slice(all, (page - 1) * pageSize, pageSize)
  }

  function ListAudit(rows: seq<Event>, t: string, page: int, pageSize: int): Listing {
    if page < 1 then Rejected(422, "page_must_be_positive")
    else if !(1 <= pageSize <= 100) then Rejected(422, "page_size_must_be_between_1_and_100")
    else
      var mine := OfTenant(rows, t);
      Page(|mine|, page, pageSize, PageCount(|mine|, pageSize), PageOf(SortByKey(mine), page, pageSize))
  }

  // The bounds on the two query parameters, and which refusal comes first.
  lemma {:induction false} RefusedExactlyOutsideBounds(rows: seq<Event>, t: string, page: int, pageSize: int)
    ensures var r := ListAudit(rows, t, page, pageSize);
      && (r.Rejected? <==> page < 1 || pageSize < 1 || pageSize > 100)
      && (page < 1 ==> r == Rejected(422, "page_must_be_positive"))
      && (page >= 1 && r.Rejected? ==> r == Rejected(422, "page_size_must_be_between_1_and_100"))
  {
  }

  // -- One order whatever the storage order ---------------------------------

  lemma {:induction false} FirstIsLeast(s: seq<Event>, x: Event)
    requires Sorted(s) && x in s
    ensures KeyLeq(s[0], x)
  {
    var i :| 0 <= i < |s| && s[i] == x;
  }

  // Each first row occurs in the other list, so they precede each other and
  // share their key, hence their id.
  lemma {:induction false} FirstsAgree(a: seq<Event>, b: seq<Event>)
    requires a != [] && b != [] && Sorted(a) && Sorted(b) && UniqueIds(a)
    requires multiset(a) == multiset(b)
    ensures a[0] == b[0]
  {
    assert a[0] in multiset(b) && b[0] in multiset(a);
    FirstIsLeast(a, b[0]);
    FirstIsLeast(b, a[0]);
    assert b[0] in a && b[0].body.id == a[0].body.id;
  }

  lemma {:induction false} TailMultiset(a: seq<Event>)
    requires a != []
    ensures multiset(a[1..]) == multiset(a) - multiset{a[0]}
  {
    assert a == [a[0]] + a[1..];
  }

  lemma {:induction false} SortedIsUnique(a: seq<Event>, b: seq<Event>)
    requires Sorted(a) && Sorted(b) && UniqueIds(a)
    requires multiset(a) == multiset(b)
    ensures a == b
  {
    assert |multiset(a)| == |a| && |multiset(b)| == |b|;
    if a != [] {
      FirstsAgree(a, b);
      TailMultiset(a);
      TailMultiset(b);
      SortedIsUnique(a[1..], b[1..]);
      assert a == [a[0]] + a[1..] && b == [b[0]] + b[1..];
    }
  }

  lemma {:induction false} OfTenantMultiset(rows: seq<Event>, t: string, e: Event)
    ensures multiset(OfTenant(rows, t))[e] == if e.body.tenant == t then multiset(rows)[e] else 0
  {
    if rows != [] {
      OfTenantMultiset(rows[..|rows| - 1], t, e);
      assert rows == rows[..|rows| - 1] + [rows[|rows| - 1]];
    }
  }

  lemma {:induction false} ListingIgnoresStorageOrder(rows: seq<Event>, other: seq<Event>, t: string, page: int,
      pageSize: int)
    requires multiset(rows) == multiset(other) && UniqueIds(rows)
    ensures ListAudit(rows, t, page, pageSize) == ListAudit(other, t, page, pageSize)
  {
    var a, b := OfTenant(rows, t), OfTenant(other, t);
    forall e: Event ensures multiset(a)[e] == multiset(b)[e] {
      OfTenantMultiset(rows, t, e);
      OfTenantMultiset(other, t, e);
    }
    assert multiset(a) == multiset(b);
    OfTenantUnique(rows, t);
    SortKeepsUniqueIds(a);
    SortedIsUnique(SortByKey(a), SortByKey(b));
    assert |multiset(a)| == |a| && |multiset(b)| == |b|;
  }

  lemma {:induction false} InsertKeepsUniqueIds(e: Event, s: seq<Event>)
    requires UniqueIds(s) && forall x :: x in s ==> x.body.id != e.body.id
    ensures UniqueIds(Insert(e, s))
  {
    if !(s == [] || KeyLeq(e, s[0])) {
      InsertKeepsUniqueIds(e, s[1..]);
      InsertMultiset(e, s[1..]);
      var r := Insert(e, s[1..]);
      assert s == [s[0]] + s[1..];
      forall x | x in r ensures x.body.id != s[0].body.id {
        assert x in multiset(r);
      }
    }
  }

  lemma {:induction false} SortKeepsUniqueIds(s: seq<Event>)
    requires UniqueIds(s)
    ensures UniqueIds(SortByKey(s))
  {
    if s != [] {
      var rest := s[..|s| - 1];
      SortKeepsUniqueIds(rest);
      forall x | x in SortByKey(rest) ensures x.body.id != s[|s| - 1].body.id {
        assert x in multiset(SortByKey(rest)) && x in rest;
      }
      InsertKeepsUniqueIds(s[|s| - 1], SortByKey(rest));
    }
  }

  // -- Tiling ---------------------------------------------------------------

  function PagesUpTo(all: seq<Event>, pages: nat, pageSize: nat): seq<Event> {
    if pages == 0 then [] else PagesUpTo(all, pages - 1, pageSize) + PageOf(all, pages, pageSize)
  }

  lemma {:induction false} PagesArePrefixes(all: seq<Event>, pages: nat, pageSize: nat)
    ensures pages * pageSize <= |all| ==> PagesUpTo(all, pages, pageSize) == all[..pages * pageSize]
    ensures pages * pageSize >= |all| ==> PagesUpTo(all, pages, pageSize) == all
  {
    if pages > 0 {
      PagesArePrefixes(all, pages - 1, pageSize);
      assert pages * pageSize == (pages - 1) * pageSize + pageSize;
    }
  }

  lemma {:induction false} PageCountBounds(total: nat, pageSize: nat)
    requires pageSize > 0
    ensures var n := PageCount(total, pageSize);
      && n * pageSize >= total
      && (n > 0 ==> (n - 1) * pageSize < total)
      && (n == 0 <==> total == 0)
  {
    if total > 0 {
      var n := (total + pageSize - 1) / pageSize;
      assert n * pageSize + (total + pageSize - 1) % pageSize == total + pageSize - 1;
      assert (n - 1) * pageSize == n * pageSize - pageSize;
    }
  }

  ghost predicate PageShape(items: seq<Event>, page: int, pages: nat, pageSize: nat) {
    && (page < pages ==> |items| == pageSize)
    && (page == pages ==> 1 <= |items| <= pageSize)
    && (page > pages ==> items == [])
  }

  lemma {:induction false} SliceLength(all: seq<Event>, off: nat, n: nat)
    ensures |Slice(all, off, n)| == if off >= |all| then 0 else if off + n >= |all| then |all| - off else n
  {
  }

  // Where page p starts and ends, relative to the total.
  lemma {:induction false} PageBounds(total: nat, page: int, pageSize: nat)
    requires pageSize > 0 && page >= 1
    ensures var n, off := PageCount(total, pageSize), (page - 1) * pageSize;
      && off >= 0
      && (page < n ==> off + pageSize < total)
      && (page == n ==> off < total <= off + pageSize)
      && (page > n ==> off >= total)
  {
    var n := PageCount(total, pageSize);
    PageCountBounds(total, pageSize);
    assert (page - 1) * pageSize + pageSize == page * pageSize;
    if page < n { MulMonotone(page, n - 1, pageSize); }
    if page > n { MulMonotone(n, page - 1, pageSize); }
  }

  lemma {:induction false} PageHasShape(all: seq<Event>, page: int, pageSize: nat)
    requires pageSize > 0 && page >= 1
    ensures PageShape(PageOf(all, page, pageSize), page, PageCount(|all|, pageSize), pageSize)
  {
    PageBounds(|all|, page, pageSize);
    SliceLength(all, (page - 1) * pageSize, pageSize);
  }

  // Pages 1..total_pages concatenate to the sorted events; every page but the
  // last is full, the last is not empty, all later ones are.
  lemma {:induction false} PagesTile(rows: seq<Event>, t: string, pageSize: nat)
    requires 1 <= pageSize <= 100
    ensures var all := SortByKey(OfTenant(rows, t));
      var n := PageCount(|all|, pageSize);
      && PagesUpTo(all, n, pageSize) == all
      && forall p: int :: p >= 1 ==>
           && ListAudit(rows, t, p, pageSize) == Page(|all|, p, pageSize, n, PageOf(all, p, pageSize))
           && PageShape(PageOf(all, p, pageSize), p, n, pageSize)
  {
    var all := SortByKey(OfTenant(rows, t));
    var n := PageCount(|all|, pageSize);
    PageCountBounds(|all|, pageSize);
    PagesArePrefixes(all, n, pageSize);
    forall p: int | p >= 1 ensures PageShape(PageOf(all, p, pageSize), p, n, pageSize) {
      PageHasShape(all, p, pageSize);
    }
  }

  lemma {:induction false} MulMonotone(a: nat, b: nat, c: nat)
    requires a <= b
    ensures a * c <= b * c
  {
    assert (b - a) * c >= 0;
    assert b * c == a * c + (b - a) * c;
  }

  // Item k of a page, in the sorted list.
  lemma {:induction false} ItemOfPage(all: seq<Event>, page: nat, pageSize: nat, k: nat) returns (n: nat)
    requires page >= 1 && k < |PageOf(all, page, pageSize)|
    ensures n == (page - 1) * pageSize + k < |all| && PageOf(all, page, pageSize)[k] == all[n]
    ensures pageSize > 0 ==> k < pageSize
  {
    n := (page - 1) * pageSize + k;
  }

  lemma {:induction false} LaterPageLaterItem(p: nat, i: nat, q: nat, j: nat, pageSize: nat)
    requires 1 <= p < q && i < pageSize
    ensures (p - 1) * pageSize + i < (q - 1) * pageSize + j
  {
    MulMonotone(p, q - 1, pageSize);
    assert (p - 1) * pageSize + pageSize == p * pageSize;
  }

  lemma {:induction false} ItemsInOrder(all: seq<Event>, pageSize: nat, p: nat, i: nat, q: nat, j: nat)
      returns (m: nat, n: nat)
    requires pageSize > 0 && p >= 1 && q >= 1 && (p < q || (p == q && i < j))
    requires i < |PageOf(all, p, pageSize)| && j < |PageOf(all, q, pageSize)|
    ensures m < n < |all| && PageOf(all, p, pageSize)[i] == all[m] && PageOf(all, q, pageSize)[j] == all[n]
  {
    m := ItemOfPage(all, p, pageSize, i);
    n := ItemOfPage(all, q, pageSize, j);
    if p < q { LaterPageLaterItem(p, i, q, j, pageSize); }
  }

  // The order of the listing, on the columns: within a page and from page to
  // page timestamps rise, and events of one timestamp come by rising id.  All
  // of them are stored rows of the tenant.
  lemma {:induction false} ListedByTimestampThenId(rows: seq<Event>, t: string, pageSize: nat,
      p: nat, i: nat, q: nat, j: nat)
    requires UniqueIds(rows) && 1 <= pageSize <= 100 && p >= 1 && q >= 1
    requires p < q || (p == q && i < j)
    requires i < |ListAudit(rows, t, p, pageSize).items| && j < |ListAudit(rows, t, q, pageSize).items|
    ensures var a, b := ListAudit(rows, t, p, pageSize).items[i].body, ListAudit(rows, t, q, pageSize).items[j].body;
      a.timestamp < b.timestamp || (a.timestamp == b.timestamp && a.id < b.id)
    ensures ListAudit(rows, t, p, pageSize).items[i] in rows
    ensures ListAudit(rows, t, p, pageSize).items[i].body.tenant == t
  {
    var m, n := ItemsInOrder(SortByKey(OfTenant(rows, t)), pageSize, p, i, q, j);
    SortedListAt(rows, t, m, n);
  }

  lemma {:induction false} SortedListAt(rows: seq<Event>, t: string, m: nat, n: nat)
    requires UniqueIds(rows) && m < n < |SortByKey(OfTenant(rows, t))|
    ensures var all := SortByKey(OfTenant(rows, t));
      var a, b := all[m].body, all[n].body;
      && (a.timestamp < b.timestamp || (a.timestamp == b.timestamp && a.id < b.id))
      && all[m] in rows && a.tenant == t
  {
    var all := SortByKey(OfTenant(rows, t));
    OfTenantUnique(rows, t);
    SortKeepsUniqueIds(OfTenant(rows, t));
    assert KeyLeq(all[m], all[n]) && all[m].body.id != all[n].body.id;
    assert all[m] in multiset(all);
    OfTenantMember(rows, t, all[m]);
  }

  // -- Growth ---------------------------------------------------------------

  lemma {:induction false} SortedConcat(a: seq<Event>, b: seq<Event>)
    requires Sorted(a) && Sorted(b)
    requires forall x, y :: x in a && y in b ==> KeyLeq(x, y)
    ensures Sorted(a + b)
  {
  }

  // Appending events that sort after all stored ones extends the sorted list.
  lemma {:induction false} GrowthExtendsOrder(mine: seq<Event>, added: seq<Event>)
    requires UniqueIds(mine + added)
    requires forall x, y :: x in mine && y in added ==> KeyLeq(x, y)
    ensures SortByKey(mine + added) == SortByKey(mine) + SortByKey(added)
  {
    var a, b := SortByKey(mine), SortByKey(added);
    forall x, y | x in a && y in b ensures KeyLeq(x, y) {
      assert x in multiset(a) && y in multiset(b);
      assert x in mine && y in added;
    }
    SortedConcat(a, b);
    SortKeepsUniqueIds(mine + added);
    assert multiset(a + b) == multiset(mine) + multiset(added) == multiset(mine + added);
    SortedIsUnique(SortByKey(mine + added), a + b);
  }

  lemma {:induction false} OfTenantConcat(rows: seq<Event>, added: seq<Event>, t: string)
    ensures OfTenant(rows + added, t) == OfTenant(rows, t) + OfTenant(added, t)
  {
    if added == [] {
      assert rows + added == rows;
    } else {
      var n := |added| - 1;
      OfTenantConcat(rows, added[..n], t);
      assert (rows + added)[..|rows| + n] == rows + added[..n];
    }
  }

  lemma {:induction false} FullPageOfPrefix(a: seq<Event>, b: seq<Event>, page: nat, pageSize: nat)
    requires page >= 1 && pageSize >= 1 && page * pageSize <= |a|
    ensures PageOf(a + b, page, pageSize) == PageOf(a, page, pageSize)
  {
    var lo := (page - 1) * pageSize;
    assert lo + pageSize == page * pageSize;
    assert (a + b)[lo..lo + pageSize] == a[lo..lo + pageSize];
    assert lo + pageSize == |a| ==> a[lo..] == a[lo..lo + pageSize];
    assert lo + pageSize == |a + b| ==> (a + b)[lo..] == (a + b)[lo..lo + pageSize];
  }

  // So every page that was full stays as it was while the log grows.
  lemma {:induction false} FullPagesAreStable(rows: seq<Event>, added: seq<Event>, t: string, page: nat, pageSize: nat)
    requires UniqueIds(rows + added) && 1 <= pageSize <= 100 && page >= 1
    requires forall x, y :: x in OfTenant(rows, t) && y in OfTenant(added, t) ==> KeyLeq(x, y)
    requires page * pageSize <= |OfTenant(rows, t)|
    ensures ListAudit(rows + added, t, page, pageSize).items == ListAudit(rows, t, page, pageSize).items
  {
    OfTenantConcat(rows, added, t);
    OfTenantUnique(rows + added, t);
    GrowthExtendsOrder(OfTenant(rows, t), OfTenant(added, t));
    FullPageOfPrefix(SortByKey(OfTenant(rows, t)), SortByKey(OfTenant(added, t)), page, pageSize);
  }

  // -- The listing and the chain --------------------------------------------

  // Re-verifying the concatenated pages against the stored head succeeds
  // exactly when the chain was committed in (timestamp, id) order, or a hash
  // collision exists.
  lemma {:induction false} PagesVerifyExactlyWhenInOrder(mac: Mac, rows: seq<Event>, t: string,
      head: Option<Hash>, pageSize: nat)
    requires 1 <= pageSize <= 100 && UniqueIds(rows)
    requires Verifies(mac, OfTenant(rows, t), head)
    ensures var chain := OfTenant(rows, t);
      var all := SortByKey(chain);
      var listed := PagesUpTo(all, PageCount(|all|, pageSize), pageSize);
      && (Sorted(chain) ==> Verifies(mac, listed, head))
      && (Verifies(mac, listed, head) ==> Sorted(chain) || CollisionBetween(mac, listed, chain))
  {
    var chain := OfTenant(rows, t);
    var all := SortByKey(chain);
    PagesTile(rows, t, pageSize);
    if Sorted(chain) {
      OfTenantUnique(rows, t);
      SortedIsUnique(chain, all);
    }
    if Verifies(mac, all, head) {
      TamperEvidence(mac, chain, all, head);
    }
  }

  // A list that ORDER BY timestamp may return for a tenant; ties are free.
  ghost predicate ByTimestamp(chain: seq<Event>, listed: seq<Event>) {
    && multiset(listed) == multiset(chain)
    && forall i, j :: 0 <= i < j < |listed| ==> listed[i].body.timestamp <= listed[j].body.timestamp
  }

  ghost predicate StrictlyIncreasing(chain: seq<Event>) {
    forall i, j :: 0 <= i < j < |chain| ==> chain[i].body.timestamp < chain[j].body.timestamp
  }

  lemma {:induction false} CollisionIgnoresOrder(mac: Mac, chain: seq<Event>, listed: seq<Event>)
    requires multiset(listed) == multiset(chain) && CollisionBetween(mac, listed, chain)
    ensures CollisionBetween(mac, chain, chain)
  {
    var x, y :| x in listed && y in chain && Collide(mac, x, y);
    assert x in multiset(listed);
    assert x in chain;
  }

  lemma {:induction false} IncreasingHasNoTies(chain: seq<Event>, a: Event, b: Event)
    requires StrictlyIncreasing(chain) && a in chain && b in chain && a.body.timestamp <= b.body.timestamp
    ensures KeyLeq(a, b)
  {
    var i :| 0 <= i < |chain| && chain[i] == a;
    var j :| 0 <= j < |chain| && chain[j] == b;
    assert i <= j;
  }

  // An increasing chain has one listing, itself.
  lemma {:induction false} IncreasingHasOneListing(chain: seq<Event>, listed: seq<Event>)
    requires UniqueIds(chain) && StrictlyIncreasing(chain) && ByTimestamp(chain, listed)
    ensures listed == chain
  {
    forall i, j | 0 <= i < j < |listed| ensures KeyLeq(listed[i], listed[j]) {
      assert listed[i] in multiset(chain) && listed[j] in multiset(chain);
      IncreasingHasNoTies(chain, listed[i], listed[j]);
    }
    SortedIsUnique(chain, listed);
  }

  // Two tied rows of a sorted chain may be listed the other way round.
  lemma {:induction false} TiesMaySwap(chain: seq<Event>, i: nat, j: nat)
    requires UniqueIds(chain) && i < j < |chain| && ByTimestamp(chain, chain)
    requires chain[i].body.timestamp == chain[j].body.timestamp
    ensures var swapped := chain[i := chain[j]][j := chain[i]];
      ByTimestamp(chain, swapped) && swapped != chain
  {
    var swapped := chain[i := chain[j]][j := chain[i]];
    assert forall k :: 0 <= k < |chain| ==> swapped[k].body.timestamp == chain[k].body.timestamp;
    assert swapped[i] != chain[i];
  }

  // Re-verifying the unbounded listing succeeds, whichever way the database
  // breaks ties, exactly when the timestamps strictly increase along the chain,
  // or a hash collision exists.
  lemma {:induction false} ListingVerifiesExactlyWhenIncreasing(mac: Mac, rows: seq<Event>, t: string,
      head: Option<Hash>)
    requires UniqueIds(rows) && Verifies(mac, OfTenant(rows, t), head)
    ensures var chain := OfTenant(rows, t);
      && (StrictlyIncreasing(chain) ==> forall listed :: ByTimestamp(chain, listed) ==> Verifies(mac, listed, head))
      && ((forall listed :: ByTimestamp(chain, listed) ==> Verifies(mac, listed, head)) ==>
            StrictlyIncreasing(chain) || CollisionBetween(mac, chain, chain))
  {
    var chain := OfTenant(rows, t);
    OfTenantUnique(rows, t);
    if StrictlyIncreasing(chain) {
      forall listed | ByTimestamp(chain, listed) ensures Verifies(mac, listed, head) {
        IncreasingHasOneListing(chain, listed);
      }
    } else if forall listed :: ByTimestamp(chain, listed) ==> Verifies(mac, listed, head) {
      var listed := OtherListing(chain);
      RivalListingCollides(mac, chain, listed, head);
    }
  }

  lemma {:induction false} RivalListingCollides(mac: Mac, chain: seq<Event>, listed: seq<Event>, head: Option<Hash>)
    requires Verifies(mac, chain, head) && Verifies(mac, listed, head)
    requires multiset(listed) == multiset(chain) && listed != chain
    ensures CollisionBetween(mac, chain, chain)
  {
    TamperEvidence(mac, chain, listed, head);
    CollisionIgnoresOrder(mac, chain, listed);
  }

  lemma {:induction false} OtherListing(chain: seq<Event>) returns (listed: seq<Event>)
    requires UniqueIds(chain) && !StrictlyIncreasing(chain)
    ensures ByTimestamp(chain, listed) && listed != chain
  {
    listed := SortByKey(chain);
    if listed == chain {
      var i, j :| 0 <= i < j < |chain| && chain[i].body.timestamp >= chain[j].body.timestamp;
      assert KeyLeq(listed[i], listed[j]);
      TiesMaySwap(chain, i, j);
      listed := chain[i := chain[j]][j := chain[i]];
    }
  }

  // The failing case is reachable: two appends of one tenant may commit against
  // their timestamps, and then neither listing re-verifies, collision or not.
  lemma {:induction false} CommitsAgainstTimestampsFail(mac: Mac, first: Event, second: Event, listed: seq<Event>)
    requires first.body.id != second.body.id && first.body.tenant == second.body.tenant
    requires first.body.timestamp > second.body.timestamp
    ensures var end := AppendProtocol.Run(mac, AppendProtocol.Init([first, second]), AppendProtocol.OneAtATime(2));
      && end.Some?
      && var t := first.body.tenant;
      var chain := OfTenant(end.value.events, t);
      && |chain| == 2 && chain[0].body == first.body && chain[1].body == second.body
      && (ByTimestamp(chain, listed) ==> !Verifies(mac, listed, AppendProtocol.HeadOf(end.value, t)))
      && !Verifies(mac, SortByKey(chain), AppendProtocol.HeadOf(end.value, t))
  {
    var requests, t := [first, second], first.body.tenant;
    AppendProtocol.EveryLogIsReachable(mac, requests);
    var s := AppendProtocol.Run(mac, AppendProtocol.Init(requests), AppendProtocol.OneAtATime(2)).value;
    var a := Stamp(mac, first, None);
    var b := Stamp(mac, second, a.eventHash);
    var chain := [a, b];
    LogOfTwo(mac, first, second);
    ReversedPairFails(mac, a, b, SortByKey(chain), AppendProtocol.HeadOf(s, t));
    if ByTimestamp(chain, listed) { ReversedPairFails(mac, a, b, listed, AppendProtocol.HeadOf(s, t)); }
  }

  lemma {:induction false} LogOfOne(mac: Mac, e: Event)
    ensures AtomicLog(mac, [e]) == [Stamp(mac, e, None)]
  {
    AtomicLogAppend(mac, [], e);
    assert [] + [e] == [e];
  }

  lemma {:induction false} OneOfTenant(e: Event)
    ensures OfTenant([e], e.body.tenant) == [e]
  {
    OfTenantAppend([], e, e.body.tenant);
    assert [] + [e] == [e];
  }

  lemma {:induction false} TwoOfTenant(a: Event, b: Event)
    requires a.body.tenant == b.body.tenant
    ensures OfTenant([a, b], a.body.tenant) == [a, b]
  {
    OneOfTenant(a);
    OfTenantAppend([a], b, a.body.tenant);
    assert [a] + [b] == [a, b];
  }

  lemma {:induction false} LogOfTwo(mac: Mac, first: Event, second: Event)
    requires first.body.tenant == second.body.tenant
    ensures var a := Stamp(mac, first, None);
      var log := [a, Stamp(mac, second, a.eventHash)];
      AtomicLog(mac, [first, second]) == log && OfTenant(log, first.body.tenant) == log
  {
    var a := Stamp(mac, first, None);
    var b := Stamp(mac, second, a.eventHash);
    LogOfOne(mac, first);
    OneOfTenant(a);
    TwoOfTenant(a, b);
    AtomicLogAppend(mac, [first], second);
    assert [first] + [second] == [first, second] && [a] + [b] == [a, b];
  }

  lemma {:induction false} ReversedPairFails(mac: Mac, a: Event, b: Event, listed: seq<Event>, head: Option<Hash>)
    requires ByTimestamp([a, b], listed) && a.body.timestamp > b.body.timestamp && b.previousHash != None
    ensures !Verifies(mac, listed, head)
  {
    assert |multiset(listed)| == |listed| == |multiset([a, b])| == 2;
    assert a in multiset(listed) && b in multiset(listed);
    assert listed[0] == b;
    if Linked(mac, listed) { LinkedAt(mac, listed, 0); }
  }
}
