/**
 The hash-chained audit trail as a value: stamping, the atomic log that
 appends one request at a time, and what re-verification of a list of events
 against a stored head establishes.  The keyed hash is an arbitrary function
 of the payload; it is never assumed injective.
 */
module AuditChain {
  import opened Options

  type Hash = string

  // What a caller supplies.  Timestamps are microseconds, the id is the
  // 128-bit value of the UUID, details is the canonical JSON text of the
  // dictionary.
  datatype Body = Body(
    id: nat,
    tenant: string,
    actor: string,
    action: string,
    resourceType: string,
    resourceId: string,
    purpose: string,
    traceId: string,
    timestamp: int,
    details: string)

  // One audit_events row: the body and the two columns of the chain.
  datatype Event = Event(body: Body, previousHash: Option<Hash>, eventHash: Option<Hash>)

  type Mac = Event -> Hash

  // What is hashed: the whole event with its own hash blanked.
  function Payload(e: Event): Event {
    e.(eventHash := None)
  }

  function HashEvent(mac: Mac, e: Event): Hash {
    mac(Payload(e))
  }

  function Stamp(mac: Mac, e: Event, previous: Option<Hash>): Event {
    var linked := e.(previousHash := previous);
    linked.(eventHash := Some(HashEvent(mac, linked)))
  }

  function LastHash(chain: seq<Event>): Option<Hash> {
    if chain == [] then None else chain[|chain| - 1].eventHash
  }

  function OfTenant(rows: seq<Event>, t: string): seq<Event> {
    if rows == [] then []
    else
      var rest := OfTenant(rows[..|rows| - 1], t);
      var last := rows[|rows| - 1];
      if last.body.tenant == t then rest + [last] else rest
  }

  // The atomic log: requests executed one at a time, all tenants together.
  function AtomicLog(mac: Mac, requests: seq<Event>): seq<Event> {
    if requests == [] then []
    else
      var log := AtomicLog(mac, requests[..|requests| - 1]);
      var e := requests[|requests| - 1];
      log + [Stamp(mac, e, LastHash(OfTenant(log, e.body.tenant)))]
  }

  // The chain of a single tenant that has the log to itself.
  function Chain(mac: Mac, requests: seq<Event>): seq<Event> {
    if requests == [] then []
    else
      var chain := Chain(mac, requests[..|requests| - 1]);
      chain + [Stamp(mac, requests[|requests| - 1], LastHash(chain))]
  }

  lemma {:induction false} OfTenantAppend(rows: seq<Event>, e: Event, t: string)
    ensures OfTenant(rows + [e], t) == OfTenant(rows, t) + if e.body.tenant == t then [e] else []
  {
    assert (rows + [e])[..|rows|] == rows;
  }

  lemma {:induction false} OfTenantMember(rows: seq<Event>, t: string, e: Event)
    ensures e in OfTenant(rows, t) <==> e in rows && e.body.tenant == t
  {
    if rows != [] {
      var last := rows[|rows| - 1];
      OfTenantMember(rows[..|rows| - 1], t, e);
      assert rows == rows[..|rows| - 1] + [last];
    }
  }

  // Ids are a primary key: no two rows carry the same one.
  ghost predicate UniqueIds(rows: seq<Event>) {
    forall i, j :: 0 <= i < j < |rows| ==> rows[i].body.id != rows[j].body.id
  }

  lemma {:induction false} OfTenantUnique(rows: seq<Event>, t: string)
    requires UniqueIds(rows)
    ensures UniqueIds(OfTenant(rows, t))
  {
    if rows != [] {
      var rest, last := rows[..|rows| - 1], rows[|rows| - 1];
      OfTenantUnique(rest, t);
      forall e | e in OfTenant(rest, t) ensures e.body.id != last.body.id {
        OfTenantMember(rest, t, e);
      }
    }
  }

  lemma {:induction false} AtomicLogAppend(mac: Mac, requests: seq<Event>, e: Event)
    ensures var log := AtomicLog(mac, requests);
      AtomicLog(mac, requests + [e]) == log + [Stamp(mac, e, LastHash(OfTenant(log, e.body.tenant)))]
  {
    assert (requests + [e])[..|requests|] == requests;
  }

  lemma {:induction false} AtomicLogBodies(mac: Mac, requests: seq<Event>)
    ensures |AtomicLog(mac, requests)| == |requests|
    ensures forall k :: 0 <= k < |requests| ==> AtomicLog(mac, requests)[k].body == requests[k].body
  {
    if requests != [] { AtomicLogBodies(mac, requests[..|requests| - 1]); }
  }

  // Tenant isolation of the atomic log: a tenant's rows are the chain of that
  // tenant's own requests, whatever the other tenants did in between.
  lemma {:induction false} TenantChainIsIsolated(mac: Mac, requests: seq<Event>, t: string)
    ensures OfTenant(AtomicLog(mac, requests), t) == Chain(mac, OfTenant(requests, t))
  {
    if requests != [] {
      var rest, e := requests[..|requests| - 1], requests[|requests| - 1];
      var log := AtomicLog(mac, rest);
      TenantChainIsIsolated(mac, rest, t);
      var row := Stamp(mac, e, LastHash(OfTenant(log, e.body.tenant)));
      OfTenantAppend(log, row, t);
      if e.body.tenant == t {
        var mine := OfTenant(rest, t);
        assert (mine + [e])[..|mine|] == mine;
      }
    }
  }

  // -- Re-verification ------------------------------------------------------

  // Every stored hash is that of its whole row with the hash column blank, and
  // every event names its predecessor's.
  ghost predicate Linked(mac: Mac, list: seq<Event>) {
    list == [] ||
    var rest, last := list[..|list| - 1], list[|list| - 1];
    && Linked(mac, rest)
    && last.previousHash == LastHash(rest)
    && last.eventHash == Some(mac(last.(eventHash := None)))
  }

  ghost predicate Verifies(mac: Mac, list: seq<Event>, head: Option<Hash>) {
    Linked(mac, list) && LastHash(list) == head
  }

  // Two different inputs of the keyed hash, each an event with its own hash
  // blank and everything else in place, with one value.
  ghost predicate Collide(mac: Mac, a: Event, b: Event) {
    a.(eventHash := None) != b.(eventHash := None) && mac(a.(eventHash := None)) == mac(b.(eventHash := None))
  }

  ghost predicate CollisionBetween(mac: Mac, xs: seq<Event>, ys: seq<Event>) {
    exists x, y :: x in xs && y in ys && Collide(mac, x, y)
  }

  lemma {:induction false} LinkedAt(mac: Mac, list: seq<Event>, k: nat)
    requires Linked(mac, list) && k < |list|
    ensures Linked(mac, list[..k])
    ensures list[k].previousHash == LastHash(list[..k])
    ensures list[k].eventHash == Some(mac(list[k].(eventHash := None)))
  {
    var n := |list| - 1;
    if k < n {
      LinkedAt(mac, list[..n], k);
      assert list[..n][..k] == list[..k];
    }
  }

  lemma {:induction false} ChainVerifies(mac: Mac, requests: seq<Event>)
    ensures Linked(mac, Chain(mac, requests))
  {
    if requests != [] {
      ChainVerifies(mac, requests[..|requests| - 1]);
      var all, rest := Chain(mac, requests), Chain(mac, requests[..|requests| - 1]);
      assert all[..|all| - 1] == rest;
    }
  }

  // Two lists that both re-verify to one head are the same list event for
  // event, or two different payloads with one hash have been found.  So no
  // edit, insertion, deletion, reordering or truncation goes unnoticed.
  lemma {:induction false} TamperEvidence(mac: Mac, genuine: seq<Event>, forged: seq<Event>, head: Option<Hash>)
    requires Verifies(mac, genuine, head) && Verifies(mac, forged, head)
    ensures forged == genuine || CollisionBetween(mac, forged, genuine)
    decreases |genuine|
  {
    if genuine != [] && forged != [] {
      var m, n := |genuine| - 1, |forged| - 1;
      if Payload(forged[n]) == Payload(genuine[m]) {
        SamePayloadSameEvent(forged[n], genuine[m]);
        TamperEvidence(mac, genuine[..m], forged[..n], genuine[m].previousHash);
        if forged[..n] == genuine[..m] {
          assert genuine == genuine[..m] + [genuine[m]] && forged == forged[..n] + [forged[n]];
        } else {
          CollisionInPrefixes(mac, forged, n, genuine, m);
        }
      } else {
        assert Collide(mac, forged[n], genuine[m]);
      }
    }
  }

  lemma {:induction false} SamePayloadSameEvent(a: Event, b: Event)
    requires Payload(a) == Payload(b) && a.eventHash == b.eventHash
    ensures a == b
  {
    assert a == Payload(a).(eventHash := a.eventHash);
    assert b == Payload(b).(eventHash := b.eventHash);
  }

  lemma {:induction false} CollisionInPrefixes(mac: Mac, xs: seq<Event>, n: nat, ys: seq<Event>, m: nat)
    requires n <= |xs| && m <= |ys| && CollisionBetween(mac, xs[..n], ys[..m])
    ensures CollisionBetween(mac, xs, ys)
  {
    var x, y :| x in xs[..n] && y in ys[..m] && Collide(mac, x, y);
    assert x in xs && y in ys;
  }

  // The link is part of what is hashed: chained after two different hashes, an
  // event gets two different hashes of its own, or here is a collision.
  lemma {:induction false} HashCoversLink(mac: Mac, e: Event, p: Option<Hash>, q: Option<Hash>)
    requires p != q && Stamp(mac, e, p).eventHash == Stamp(mac, e, q).eventHash
    ensures Collide(mac, Stamp(mac, e, p), Stamp(mac, e, q))
  {
    assert Stamp(mac, e, p).(eventHash := None).previousHash == p;
    assert Stamp(mac, e, q).(eventHash := None).previousHash == q;
  }

  // -- The shape of a chain -------------------------------------------------

  lemma {:induction false} HashesDiffer(mac: Mac, chain: seq<Event>, i: nat, j: nat)
    requires Linked(mac, chain) && UniqueIds(chain)
    requires i < j < |chain|
    ensures CollisionBetween(mac, chain, chain) || chain[i].eventHash != chain[j].eventHash
  {
    LinkedAt(mac, chain, i);
    LinkedAt(mac, chain, j);
    if chain[i].eventHash == chain[j].eventHash {
      assert Payload(chain[i]).body.id != Payload(chain[j]).body.id;
      assert Collide(mac, chain[i], chain[j]);
    }
  }

  lemma {:induction false} LinkAt(mac: Mac, chain: seq<Event>, k: nat)
    requires Linked(mac, chain) && 0 < k < |chain|
    ensures chain[k].previousHash == chain[k - 1].eventHash == Some(mac(chain[k - 1].(eventHash := None)))
  {
    LinkedAt(mac, chain, k);
    LinkedAt(mac, chain, k - 1);
  }

  // Links never branch and there is exactly one root, the first event.
  lemma {:induction false} NoForks(mac: Mac, chain: seq<Event>, i: nat, j: nat)
    requires Linked(mac, chain) && UniqueIds(chain)
    requires i < j < |chain|
    ensures CollisionBetween(mac, chain, chain) || chain[i].previousHash != chain[j].previousHash
    ensures chain[0].previousHash == None && chain[j].previousHash != None
  {
    LinkedAt(mac, chain, 0);
    LinkAt(mac, chain, j);
    if i > 0 {
      LinkAt(mac, chain, i);
      HashesDiffer(mac, chain, i - 1, j - 1);
    }
  }

  function Reverse(s: seq<Event>): (r: seq<Event>)
    ensures |r| == |s|
  {
    if s == [] then [] else [s[|s| - 1]] + Reverse(s[..|s| - 1])
  }

  // The hash a walk looks up next: the head first, then the last event's link.
  function NextLink(head: Option<Hash>, path: seq<Event>): Option<Hash> {
    if path == [] then head else path[|path| - 1].previousHash
  }

  // A walk looks up stored rows by hash, in any physical order, from a head.
  ghost predicate IsWalk(rows: set<Event>, head: Option<Hash>, path: seq<Event>) {
    path == [] ||
    var rest, last := path[..|path| - 1], path[|path| - 1];
    IsWalk(rows, head, rest) && last in rows && last.eventHash == NextLink(head, rest)
  }

  lemma {:induction false} ReverseTake(s: seq<Event>, n: nat)
    requires n < |s|
    ensures Reverse(s)[n] == s[|s| - 1 - n]
  {
    if n > 0 {
      ReverseTake(s[..|s| - 1], n - 1);
    }
  }

  lemma {:induction false} ReversedMembers(chain: seq<Event>, rows: set<Event>)
    requires UniqueIds(chain)
    requires forall e :: e in rows <==> e in chain
    ensures forall e :: e in rows <==> e in Reverse(chain)
    ensures |Reverse(chain)| == |rows|
  {
    if chain == [] {
      assert rows == {};
    } else {
      var rest, last := chain[..|chain| - 1], chain[|chain| - 1];
      assert chain == rest + [last];
      ReversedMembers(rest, rows - {last});
    }
  }

  lemma {:induction false} NextLinkAfter(mac: Mac, chain: seq<Event>, n: nat)
    requires Linked(mac, chain) && n <= |chain|
    ensures NextLink(LastHash(chain), Reverse(chain)[..n]) == LastHash(chain[..|chain| - n])
  {
    if n == 0 {
      assert chain[..|chain|] == chain;
    } else {
      ReverseTake(chain, n - 1);
      LinkedAt(mac, chain, |chain| - n);
    }
  }

  // The hash that ends a prefix of the chain names only its last event.
  lemma {:induction false} HashNamesLast(mac: Mac, chain: seq<Event>, n: nat, e: Event)
    requires Linked(mac, chain) && UniqueIds(chain) && !CollisionBetween(mac, chain, chain)
    requires n <= |chain| && e in chain && e.eventHash == LastHash(chain[..n])
    ensures n > 0 && e == chain[n - 1]
  {
    var i :| 0 <= i < |chain| && chain[i] == e;
    LinkedAt(mac, chain, i);
    if i < n - 1 { HashesDiffer(mac, chain, i, n - 1); }
    if i > n - 1 && n > 0 { HashesDiffer(mac, chain, n - 1, i); }
  }

  lemma {:induction false} LastStepIsForced(mac: Mac, chain: seq<Event>, path: seq<Event>, next: Event)
    requires Linked(mac, chain) && UniqueIds(chain) && !CollisionBetween(mac, chain, chain)
    requires path <= Reverse(chain) && next in chain && next.eventHash == NextLink(LastHash(chain), path)
    ensures path + [next] <= Reverse(chain)
  {
    var n := |path|;
    assert path == Reverse(chain)[..n];
    NextLinkAfter(mac, chain, n);
    HashNamesLast(mac, chain, |chain| - n, next);
    ReverseTake(chain, n);
  }

  // Absent a collision the walk back from the head is forced: it can only
  // visit the chain from its last event towards its first, none of them twice.
  lemma {:induction false} WalkIsForced(mac: Mac, chain: seq<Event>, rows: set<Event>, path: seq<Event>)
    requires Linked(mac, chain) && UniqueIds(chain) && !CollisionBetween(mac, chain, chain)
    requires forall e :: e in rows <==> e in chain
    requires IsWalk(rows, LastHash(chain), path)
    ensures path <= Reverse(chain)
  {
    if path != [] {
      var n := |path| - 1;
      WalkIsForced(mac, chain, rows, path[..n]);
      LastStepIsForced(mac, chain, path[..n], path[n]);
      assert path == path[..n] + [path[n]];
    }
  }

  // ... and the whole reversed chain is such a walk, ending at the root.
  lemma {:induction false} ReversedChainIsWalk(mac: Mac, chain: seq<Event>, rows: set<Event>, n: nat)
    requires Linked(mac, chain) && n <= |chain|
    requires forall e :: e in rows <==> e in chain
    ensures IsWalk(rows, LastHash(chain), Reverse(chain)[..n])
    ensures n == |chain| ==> NextLink(LastHash(chain), Reverse(chain)[..n]) == None
  {
    NextLinkAfter(mac, chain, n);
    if n > 0 {
      var path := Reverse(chain)[..n];
      ReversedChainIsWalk(mac, chain, rows, n - 1);
      assert path[..n - 1] == Reverse(chain)[..n - 1];
      NextLinkAfter(mac, chain, n - 1);
      ReverseTake(chain, n - 1);
      LinkedAt(mac, chain, |chain| - n);
    }
  }

  // One root and no branching.
  ghost predicate SingleLine(chain: seq<Event>) {
    && (chain != [] ==> chain[0].previousHash == None)
    && (forall j :: 0 < j < |chain| ==> chain[j].previousHash != None)
    && (forall i, j :: 0 <= i < j < |chain| ==> chain[i].previousHash != chain[j].previousHash)
  }

  lemma {:induction false} ChainIsALine(mac: Mac, chain: seq<Event>)
    requires Linked(mac, chain) && UniqueIds(chain) && !CollisionBetween(mac, chain, chain)
    ensures SingleLine(chain)
  {
    forall i, j | 0 <= i < j < |chain|
      ensures chain[0].previousHash == None && chain[j].previousHash != None
      ensures chain[i].previousHash != chain[j].previousHash
    {
      NoForks(mac, chain, i, j);
    }
    if |chain| == 1 { LinkedAt(mac, chain, 0); }
  }
}
