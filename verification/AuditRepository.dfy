/**
 The repository method that appends one event, with both of its branches: the
 chain-state branch, and the branch without a lock that takes the tenant's
 latest event by timestamp.
 */
module AuditRepository {
  import opened Options
  import opened AuditChain

  // r is a row that ORDER BY timestamp DESC LIMIT 1 may return; ties are free.
  ghost predicate IsLatest(rows: seq<Event>, t: string, r: Event) {
    && r in rows && r.body.tenant == t
    && forall e :: e in rows && e.body.tenant == t ==> e.body.timestamp <= r.body.timestamp
  }

  // The previous hash the branch without a lock may use.
  ghost predicate MayFollow(rows: seq<Event>, t: string, previous: Option<Hash>) {
    if OfTenant(rows, t) == [] then previous == None
    else exists r :: IsLatest(rows, t, r) && previous == r.eventHash
  }

  // rows results from appending the requests in order without the lock.
  ghost predicate IsLockFreeLog(mac: Mac, requests: seq<Event>, rows: seq<Event>) {
    |rows| == |requests| &&
    (rows == [] ||
     var n := |rows| - 1;
     && IsLockFreeLog(mac, requests[..n], rows[..n])
     && exists previous ::
          MayFollow(rows[..n], requests[n].body.tenant, previous) && rows[n] == Stamp(mac, requests[n], previous))
  }

  ghost predicate TimestampsIncrease(requests: seq<Event>) {
    forall i, j :: 0 <= i < j < |requests| && requests[i].body.tenant == requests[j].body.tenant ==>
      requests[i].body.timestamp < requests[j].body.timestamp
  }

  // The tenant's newest row by timestamp is the last one appended, strictly.
  ghost predicate LastIsNewest(rows: seq<Event>, t: string) {
    var mine := OfTenant(rows, t);
    forall k :: 0 <= k < |mine| - 1 ==> mine[k].body.timestamp < mine[|mine| - 1].body.timestamp
  }

  lemma {:induction false} BranchesAgree(rows: seq<Event>, t: string, previous: Option<Hash>)
    requires MayFollow(rows, t, previous) && LastIsNewest(rows, t)
    ensures previous == LastHash(OfTenant(rows, t))
  {
    var mine := OfTenant(rows, t);
    if mine != [] {
      var r :| IsLatest(rows, t, r) && previous == r.eventHash;
      var last := mine[|mine| - 1];
      OfTenantMember(rows, t, r);
      OfTenantMember(rows, t, last);
      var k :| 0 <= k < |mine| && mine[k] == r;
      assert k == |mine| - 1;
    }
  }

  lemma {:induction false} NewestOf(mine: seq<Event>) returns (k: nat)
    requires mine != []
    ensures k < |mine|
    ensures forall j :: 0 <= j < |mine| ==> mine[j].body.timestamp <= mine[k].body.timestamp
  {
    k := 0;
    for n := 1 to |mine|
      invariant k < n && forall j :: 0 <= j < n ==> mine[j].body.timestamp <= mine[k].body.timestamp
    {
      if mine[n].body.timestamp > mine[k].body.timestamp { k := n; }
    }
  }

  // When one append without the lock is sure to continue the chain, whichever
  // tie the database breaks: exactly when the last event appended is strictly
  // the newest by timestamp (hashes of the tenant's events being distinct).
  lemma {:induction false} BranchesAgreeExactly(rows: seq<Event>, t: string)
    requires var mine := OfTenant(rows, t);
      forall i, j :: 0 <= i < j < |mine| ==> mine[i].eventHash != mine[j].eventHash
    ensures LastIsNewest(rows, t) <==>
      forall previous :: MayFollow(rows, t, previous) ==> previous == LastHash(OfTenant(rows, t))
  {
    var mine := OfTenant(rows, t);
    if LastIsNewest(rows, t) {
      forall previous | MayFollow(rows, t, previous) ensures previous == LastHash(mine) {
        BranchesAgree(rows, t, previous);
      }
    } else {
      var k := NewestOf(mine[..|mine| - 1]);
      forall e | e in rows && e.body.tenant == t ensures e in mine { OfTenantMember(rows, t, e); }
      OfTenantMember(rows, t, mine[k]);
      assert IsLatest(rows, t, mine[k]);
      assert MayFollow(rows, t, mine[k].eventHash);
    }
  }

  ghost predicate NewerThanAll(rows: seq<Event>, e: Event) {
    forall r :: r in rows && r.body.tenant == e.body.tenant ==> r.body.timestamp < e.body.timestamp
  }

  lemma {:induction false} AppendingNewest(rows: seq<Event>, e: Event, t: string)
    requires NewerThanAll(rows, e) && LastIsNewest(rows, t)
    ensures LastIsNewest(rows + [e], t)
  {
    var mine := OfTenant(rows, t);
    OfTenantAppend(rows, e, t);
    forall r | r in mine ensures r in rows && r.body.tenant == t {
      OfTenantMember(rows, t, r);
    }
  }

  lemma {:induction false} IncreasingLogEndsNewest(mac: Mac, requests: seq<Event>, t: string)
    requires TimestampsIncrease(requests)
    ensures LastIsNewest(AtomicLog(mac, requests), t)
  {
    if requests != [] {
      var n := |requests| - 1;
      var log := AtomicLog(mac, requests[..n]);
      IncreasingLogEndsNewest(mac, requests[..n], t);
      AtomicLogBodies(mac, requests[..n]);
      AppendingNewest(log, AtomicLog(mac, requests)[n], t);
    }
  }

  lemma {:induction false} LockFreeRowIsChained(mac: Mac, rows: seq<Event>, e: Event, row: Event)
    requires LastIsNewest(rows, e.body.tenant)
    requires exists previous :: MayFollow(rows, e.body.tenant, previous) && row == Stamp(mac, e, previous)
    ensures row == Stamp(mac, e, LastHash(OfTenant(rows, e.body.tenant)))
  {
    var previous :| MayFollow(rows, e.body.tenant, previous) && row == Stamp(mac, e, previous);
    BranchesAgree(rows, e.body.tenant, previous);
  }

  // With timestamps that strictly increase per tenant, sequential appends
  // without the lock build the same table as the chain-state branch, event by
  // event, whichever rows the database orders first among equals.
  lemma {:induction false} LockFreeBuildsSameChain(mac: Mac, requests: seq<Event>, rows: seq<Event>)
    requires IsLockFreeLog(mac, requests, rows) && TimestampsIncrease(requests)
    ensures rows == AtomicLog(mac, requests)
  {
    if requests != [] {
      var n := |requests| - 1;
      LockFreeBuildsSameChain(mac, requests[..n], rows[..n]);
      IncreasingLogEndsNewest(mac, requests[..n], requests[n].body.tenant);
      LockFreeRowIsChained(mac, rows[..n], requests[n], rows[n]);
      assert rows == rows[..n] + [rows[n]];
    }
  }

  // Timestamps need not increase: when two events are older than the first, both
  // take the first one's hash as their previous hash, so the link is shared and
  // the table no longer verifies as a chain, unless their hashes collide.
  lemma {:induction false} LockFreeLogCanFork(mac: Mac, requests: seq<Event>)
    requires |requests| == 3
    requires requests[0].body.tenant == requests[1].body.tenant == requests[2].body.tenant
    requires requests[1].body.timestamp < requests[0].body.timestamp
    requires requests[2].body.timestamp < requests[0].body.timestamp
    ensures var rows := ForkedLog(mac, requests);
      && IsLockFreeLog(mac, requests, rows)
      && rows[1].previousHash == rows[2].previousHash
      && (Linked(mac, rows) ==> mac(rows[0].(eventHash := None)) == mac(rows[1].(eventHash := None)))
  {
    var rows := ForkedLog(mac, requests);
    LockFreeStep(mac, [], [], requests[0], None);
    assert [] + [requests[0]] == [requests[0]] && [] + [rows[0]] == [rows[0]];
    FollowsFirst([rows[0]], rows[0]);
    LockFreeStep(mac, [requests[0]], [rows[0]], requests[1], rows[0].eventHash);
    var two := [rows[0], rows[1]];
    assert [requests[0]] + [requests[1]] == requests[..2] && [rows[0]] + [rows[1]] == two;
    FollowsFirst(two, rows[0]);
    LockFreeStep(mac, requests[..2], two, requests[2], rows[0].eventHash);
    assert requests[..2] + [requests[2]] == requests && two + [rows[2]] == rows;
    if Linked(mac, rows) { LinkedAt(mac, rows, 2); LinkedAt(mac, rows, 1); }
  }

  function ForkedLog(mac: Mac, requests: seq<Event>): seq<Event>
    requires |requests| == 3
  {
    var first := Stamp(mac, requests[0], None);
    [first, Stamp(mac, requests[1], first.eventHash), Stamp(mac, requests[2], first.eventHash)]
  }

  lemma {:induction false} LockFreeStep(mac: Mac, requests: seq<Event>, rows: seq<Event>, e: Event,
      previous: Option<Hash>)
    requires IsLockFreeLog(mac, requests, rows) && MayFollow(rows, e.body.tenant, previous)
    ensures IsLockFreeLog(mac, requests + [e], rows + [Stamp(mac, e, previous)])
  {
    var n := |rows|;
    var rows', requests' := rows + [Stamp(mac, e, previous)], requests + [e];
    assert rows'[..n] == rows && requests'[..n] == requests;
    assert MayFollow(rows'[..n], requests'[n].body.tenant, previous);
  }

  lemma {:induction false} FollowsFirst(rows: seq<Event>, first: Event)
    requires IsLatest(rows, first.body.tenant, first)
    ensures MayFollow(rows, first.body.tenant, first.eventHash)
  {
    OfTenantMember(rows, first.body.tenant, first);
  }

  // -- The method -----------------------------------------------------------

  // The domain event: the caller's body and the two fields the append fills in.
  class AuditEvent {
    const body: Body
    var previousHash: Option<Hash>
    var eventHash: Option<Hash>

    constructor (body: Body)
      ensures this.body == body && previousHash == None && eventHash == None
    {
      this.body := body;
      previousHash, eventHash := None, None;
    }

    function Value(): Event
      reads this
    {
      Event(body, previousHash, eventHash)
    }
  }

  // A session on the audit tables.
  class AuditRepository {
    const postgresql: bool
    var rows: seq<Event>                    // audit_events
    var heads: map<string, Option<Hash>>    // audit_chain_state

    constructor (postgresql: bool)
      ensures this.postgresql == postgresql && rows == [] && heads == map[] && Valid()
    {
      this.postgresql := postgresql;
      rows, heads := [], map[];
    }

    function Head(t: string): Option<Hash>
      reads this
    {
      if t in heads then heads[t] else None
    }

    // Primary key, and on PostgreSQL the stored head of every tenant.
    ghost predicate Valid()
      reads this
    {
      && UniqueIds(rows)
      && (postgresql ==> forall t: string :: Head(t) == LastHash(OfTenant(rows, t)))
    }

    method LatestForTenant(t: string) returns (latest: Option<Event>)
      ensures latest == None <==> OfTenant(rows, t) == []
      ensures latest.Some? ==> IsLatest(rows, t, latest.value)
    {
      latest := None;
      for n := 0 to |rows|
        invariant latest == None <==> OfTenant(rows[..n], t) == []
        invariant latest.Some? ==> IsLatest(rows[..n], t, latest.value)
      {
        assert rows[..n + 1] == rows[..n] + [rows[n]];
        OfTenantAppend(rows[..n], rows[n], t);
        if rows[n].body.tenant == t && (latest == None || latest.value.body.timestamp <= rows[n].body.timestamp) {
          if latest == None {
            forall e | e in rows[..n] ensures e.body.tenant != t { OfTenantMember(rows[..n], t, e); }
          }
          latest := Some(rows[n]);
        }
      }
      assert rows[..|rows|] == rows;
    }

    // ok is false when the event id is already stored: the transaction rolls
    // back, but the caller's event object keeps the hashes assigned to it.
    method AppendWithChainLock(event: AuditEvent, mac: Mac) returns (ok: bool)
      requires Valid()
      modifies this, event
      ensures Valid()
      ensures ok <==> forall r :: r in old(rows) ==> r.body.id != event.body.id
      ensures !postgresql ==> MayFollow(old(rows), event.body.tenant, event.previousHash)
      ensures postgresql ==> event.previousHash == LastHash(OfTenant(old(rows), event.body.tenant))
      ensures event.eventHash == Some(mac(Event(event.body, event.previousHash, None)))
      ensures rows == if ok then old(rows) + [Event(event.body, event.previousHash, event.eventHash)] else old(rows)
      ensures heads == if ok && postgresql then old(heads)[event.body.tenant := event.eventHash] else old(heads)
    {
      var previous;
      if postgresql {
        previous := Head(event.body.tenant);
      } else {
        var latest := LatestForTenant(event.body.tenant);
        previous := if latest.Some? then latest.value.eventHash else None;
      }
      event.previousHash := previous;
      event.eventHash := Some(HashEvent(mac, event.Value()));

      ok := forall k :: 0 <= k < |rows| ==> rows[k].body.id != event.body.id;
      if ok {
        ghost var before := rows;
        rows := rows + [event.Value()];
        if postgresql {
          heads := heads[event.body.tenant := event.eventHash];
          forall t: string ensures Head(t) == LastHash(OfTenant(rows, t)) {
            OfTenantAppend(before, event.Value(), t);
          }
        }
      }
    }
  }
}
