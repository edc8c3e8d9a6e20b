/**
 Concurrent appends against PostgreSQL as a transition system.  Every append is
 one transaction with its own program counter; steps of different transactions
 interleave arbitrarily and each may abort before it commits.  The database
 gives what a row-locking relational database gives: the locked read sees the
 latest committed row, commit publishes event and head together and releases
 the row, and an uncommitted insert blocks other inserters of the same key.
 */
module AppendProtocol {
  import opened Options
  import opened AuditChain

  datatype Pc =
    | Ready
    | RowEnsured                  // INSERT .. ON CONFLICT DO NOTHING has returned
    | RowLocked                   // SELECT .. FOR UPDATE holds the row
    | HeadRead(head: Option<Hash>)
    | Staged(row: Event)          // event inserted and head updated, uncommitted
    | Committed
    | Aborted

  datatype Append = Append(request: Event, pc: Pc)

  datatype Db = Db(
    events: seq<Event>,                // committed audit_events, in commit order
    heads: map<string, Option<Hash>>,  // committed audit_chain_state rows
    inserting: map<string, nat>,       // who holds an uncommitted row insert
    locks: map<string, nat>,           // who holds the row lock
    appends: seq<Append>)

  datatype Action = EnsureRow | LockRow | ReadHead | Stage | Reject | Commit | Abort
  datatype Label = Label(who: nat, action: Action)

  function Init(requests: seq<Event>): (s: Db)
    ensures |s.appends| == |requests|
    ensures forall i :: 0 <= i < |requests| ==> s.appends[i] == Append(requests[i], Ready)
  {
    Db([], map[], map[], map[], seq(|requests|, i requires 0 <= i < |requests| => Append(requests[i], Ready)))
  }

  predicate Finished(pc: Pc) { pc.Committed? || pc.Aborted? }
  predicate Holding(pc: Pc) { pc.RowLocked? || pc.HeadRead? || pc.Staged? }

  function Tenant(s: Db, i: nat): string
    requires i < |s.appends|
  {
    s.appends[i].request.body.tenant
  }

  function HeadOf(s: Db, t: string): Option<Hash> {
    if t in s.heads then s.heads[t] else None
  }

  ghost predicate IdTaken(events: seq<Event>, id: nat) {
    exists k :: 0 <= k < |events| && events[k].body.id == id
  }

  ghost predicate StagedBy(s: Db, j: nat, id: nat) {
    j < |s.appends| && s.appends[j].pc.Staged? && s.appends[j].request.body.id == id
  }

  ghost predicate Enabled(s: Db, l: Label) {
    l.who < |s.appends| &&
    var i, t, pc := l.who, Tenant(s, l.who), s.appends[l.who].pc;
    match l.action
    case EnsureRow => pc.Ready? && t !in s.inserting
    case LockRow => pc.RowEnsured? && t !in s.locks && (t in s.heads || (t in s.inserting && s.inserting[t] == i))
    case ReadHead => pc.RowLocked?
    case Stage => pc.HeadRead? && !IdTaken(s.events, s.appends[i].request.body.id)
                  && forall j :: !StagedBy(s, j, s.appends[i].request.body.id)
    case Reject => pc.HeadRead? && IdTaken(s.events, s.appends[i].request.body.id)
    case Commit => pc.Staged?
    case Abort => !Finished(pc)
  }

  function Move(s: Db, i: nat, pc: Pc): Db
    requires i < |s.appends|
  {
    s.(appends := s.appends[i := s.appends[i].(pc := pc)])
  }

  function Without(m: map<string, nat>, i: nat): map<string, nat> {
    map t | t in m && m[t] != i :: m[t]
  }

  function Release(s: Db, i: nat): Db {
    s.(locks := Without(s.locks, i), inserting := Without(s.inserting, i))
  }

  function Publish(s: Db, row: Event): Db {
    s.(events := s.events + [row], heads := s.heads[row.body.tenant := row.eventHash])
  }

  ghost function Next(mac: Mac, s: Db, l: Label): Db
    requires Enabled(s, l)
  {
    var i, t := l.who, Tenant(s, l.who);
    var a := s.appends[i];
    match l.action
    case EnsureRow =>
      Move(if t in s.heads then s else s.(inserting := s.inserting[t := i]), i, RowEnsured)
    case LockRow => Move(s.(locks := s.locks[t := i]), i, RowLocked)
    case ReadHead => Move(s, i, HeadRead(HeadOf(s, t)))
    case Stage => Move(s, i, Staged(Stamp(mac, a.request, a.pc.head)))
    case Commit => Move(Release(Publish(s, a.pc.row), i), i, Committed)
    case Reject => Move(Release(s, i), i, Aborted)
    case Abort => Move(Release(s, i), i, Aborted)
  }

  // A run takes enabled steps only; None when some label was not enabled.
  ghost function Run(mac: Mac, s: Db, trace: seq<Label>): Option<Db> {
    if trace == [] then Some(s)
    else
      match Run(mac, s, trace[..|trace| - 1])
      case None => None
      case Some(mid) =>
        if Enabled(mid, trace[|trace| - 1]) then Some(Next(mac, mid, trace[|trace| - 1])) else None
  }

  function CommitOrder(trace: seq<Label>): seq<nat> {
    if trace == [] then []
    else
      var rest, last := CommitOrder(trace[..|trace| - 1]), trace[|trace| - 1];
      if last.action.Commit? then rest + [last.who] else rest
  }

  // -- Locks ----------------------------------------------------------------

  // Who is recorded as holding a row lock does hold it, and conversely.
  ghost predicate LocksHeld(s: Db) {
    forall t :: t in s.locks ==>
      s.locks[t] < |s.appends| && Holding(s.appends[s.locks[t]].pc) && Tenant(s, s.locks[t]) == t
  }

  ghost predicate HoldersLocked(s: Db) {
    forall i :: 0 <= i < |s.appends| && Holding(s.appends[i].pc) ==>
      Tenant(s, i) in s.locks && s.locks[Tenant(s, i)] == i
  }

  predicate PastEnsure(pc: Pc) { pc.RowEnsured? || Holding(pc) }

  // Only a running append keeps a chain-state row uncommitted, and only while
  // no committed row exists.
  ghost predicate InsertersRun(s: Db) {
    forall t :: t in s.inserting ==>
      && t !in s.heads && s.inserting[t] < |s.appends|
      && Tenant(s, s.inserting[t]) == t && PastEnsure(s.appends[s.inserting[t]].pc)
  }

  // The locking read always finds its row: committed, or its own insert.
  ghost predicate RowsVisible(s: Db) {
    forall i :: 0 <= i < |s.appends| && PastEnsure(s.appends[i].pc) ==>
      var t := Tenant(s, i);
      t in s.heads || (t in s.inserting && s.inserting[t] == i)
  }

  ghost predicate LockInv(s: Db) {
    LocksHeld(s) && HoldersLocked(s) && InsertersRun(s) && RowsVisible(s)
  }

  ghost predicate StagesOwnTenant(s: Db, l: Label) {
    l.action.Commit? && Enabled(s, l) ==> s.appends[l.who].pc.row.body.tenant == Tenant(s, l.who)
  }

  lemma {:induction false} LocksHeldStep(mac: Mac, s: Db, l: Label)
    requires LocksHeld(s) && Enabled(s, l)
    ensures LocksHeld(Next(mac, s, l))
  {
    var s' := Next(mac, s, l);
    forall t | t in s'.locks
      ensures Holding(s'.appends[s'.locks[t]].pc) && Tenant(s', s'.locks[t]) == t
    {
      assert t in s.locks || (l.action.LockRow? && t == Tenant(s, l.who));
    }
  }

  lemma {:induction false} HoldersLockedStep(mac: Mac, s: Db, l: Label)
    requires LocksHeld(s) && HoldersLocked(s) && Enabled(s, l)
    ensures HoldersLocked(Next(mac, s, l))
  {
    var s' := Next(mac, s, l);
    forall i | 0 <= i < |s'.appends| && Holding(s'.appends[i].pc)
      ensures Tenant(s', i) in s'.locks && s'.locks[Tenant(s', i)] == i
    {
      assert i != l.who ==> s'.appends[i] == s.appends[i];
    }
  }

  lemma {:induction false} InsertersRunStep(mac: Mac, s: Db, l: Label)
    requires InsertersRun(s) && RowsVisible(s) && Enabled(s, l) && StagesOwnTenant(s, l)
    ensures InsertersRun(Next(mac, s, l))
  {
    match l.action
    case EnsureRow =>
    case LockRow =>
    case ReadHead =>
    case Stage =>
    case Commit =>
    case _ =>
  }

  lemma {:induction false} RowsVisibleStep(mac: Mac, s: Db, l: Label)
    requires RowsVisible(s) && Enabled(s, l)
    ensures RowsVisible(Next(mac, s, l))
  {
    var s' := Next(mac, s, l);
    assert s.heads.Keys <= s'.heads.Keys;
    forall i | 0 <= i < |s'.appends| && PastEnsure(s'.appends[i].pc)
      ensures var t := Tenant(s', i); t in s'.heads || (t in s'.inserting && s'.inserting[t] == i)
    {
      assert i != l.who ==> s'.appends[i] == s.appends[i];
    }
  }

  // One holder per tenant: the row lock excludes every other append of the tenant.
  lemma {:induction false} OneHolder(s: Db, i: nat, j: nat)
    requires LockInv(s) && i < |s.appends| && j < |s.appends|
    requires Holding(s.appends[i].pc) && Holding(s.appends[j].pc) && Tenant(s, i) == Tenant(s, j)
    ensures i == j
  {
  }

  // -- Serializability ------------------------------------------------------

  function Pick(requests: seq<Event>, order: seq<nat>): seq<Event>
    requires forall k :: 0 <= k < |order| ==> order[k] < |requests|
  {
    if order == [] then []
    else Pick(requests, order[..|order| - 1]) + [requests[order[|order| - 1]]]
  }

  ghost predicate IsOrder(order: seq<nat>, s: Db) {
    && (forall k :: 0 <= k < |order| ==> order[k] < |s.appends|)
    && (forall i, j :: 0 <= i < j < |order| ==> order[i] != order[j])
    && (forall i :: 0 <= i < |s.appends| ==> (i in order <==> s.appends[i].pc.Committed?))
  }

  ghost predicate HeadsMatch(s: Db) {
    forall t: string :: HeadOf(s, t) == LastHash(OfTenant(s.events, t))
  }

  ghost predicate RequestsKept(requests: seq<Event>, s: Db) {
    |s.appends| == |requests| && forall i :: 0 <= i < |requests| ==> s.appends[i].request == requests[i]
  }

  ghost predicate PendingOk(mac: Mac, s: Db) {
    && (forall i :: 0 <= i < |s.appends| && s.appends[i].pc.HeadRead? ==>
          s.appends[i].pc.head == HeadOf(s, Tenant(s, i)))
    && (forall i :: 0 <= i < |s.appends| && s.appends[i].pc.Staged? ==>
          s.appends[i].pc.row == Stamp(mac, s.appends[i].request, HeadOf(s, Tenant(s, i))))
  }

  ghost predicate IdsInv(s: Db) {
    && UniqueIds(s.events)
    && (forall i :: 0 <= i < |s.appends| && s.appends[i].pc.Staged? ==>
          !IdTaken(s.events, s.appends[i].request.body.id))
    && (forall i, j :: 0 <= i < j < |s.appends| && s.appends[i].pc.Staged? && s.appends[j].pc.Staged? ==>
          s.appends[i].request.body.id != s.appends[j].request.body.id)
  }

  ghost predicate Inv(mac: Mac, requests: seq<Event>, order: seq<nat>, s: Db) {
    && RequestsKept(requests, s) && TableInv(mac, s) && IsOrder(order, s)
    && s.events == AtomicLog(mac, Pick(requests, order))
  }

  lemma {:induction false} PendingUntouched(mac: Mac, s: Db, s': Db)
    requires PendingOk(mac, s) && |s'.appends| == |s.appends|
    requires forall j :: 0 <= j < |s'.appends| && (s'.appends[j].pc.HeadRead? || s'.appends[j].pc.Staged?) ==>
      s'.appends[j] == s.appends[j] && HeadOf(s', Tenant(s', j)) == HeadOf(s, Tenant(s, j))
    ensures PendingOk(mac, s')
  {
  }

  lemma {:induction false} PendingAfterRead(mac: Mac, s: Db, i: nat)
    requires PendingOk(mac, s) && i < |s.appends|
    ensures PendingOk(mac, Move(s, i, HeadRead(HeadOf(s, Tenant(s, i)))))
  {
  }

  lemma {:induction false} PendingAfterStage(mac: Mac, s: Db, i: nat)
    requires PendingOk(mac, s) && i < |s.appends| && s.appends[i].pc.HeadRead?
    ensures PendingOk(mac, Move(s, i, Staged(Stamp(mac, s.appends[i].request, s.appends[i].pc.head))))
  {
  }

  // A commit leaves every other append that holds its row with the head it read.
  lemma {:induction false} PendingAfterCommit(mac: Mac, s: Db, i: nat)
    requires HoldersLocked(s) && PendingOk(mac, s) && i < |s.appends| && s.appends[i].pc.Staged?
    ensures PendingOk(mac, Move(Publish(s, s.appends[i].pc.row), i, Committed))
  {
    var s' := Move(Publish(s, s.appends[i].pc.row), i, Committed);
    forall j | 0 <= j < |s'.appends| && Holding(s'.appends[j].pc)
      ensures s'.appends[j] == s.appends[j] && HeadOf(s', Tenant(s', j)) == HeadOf(s, Tenant(s, j))
    {
      assert Holding(s.appends[j].pc) && Tenant(s, j) != Tenant(s, i);
    }
    PendingUntouched(mac, s, s');
  }

  predicate Quiet(a: Action) { a.EnsureRow? || a.LockRow? || a.Reject? || a.Abort? }

  // A quiet step changes no table, and nothing of an append but its counter.
  lemma {:induction false} QuietStep(mac: Mac, s: Db, l: Label) returns (pc: Pc)
    requires Enabled(s, l) && Quiet(l.action)
    ensures var s' := Next(mac, s, l);
      && s'.events == s.events && s'.heads == s.heads
      && s'.appends == s.appends[l.who := Append(s.appends[l.who].request, pc)]
    ensures !pc.HeadRead? && !pc.Staged?
  {
    pc := Next(mac, s, l).appends[l.who].pc;
  }

  lemma {:induction false} PendingQuiet(mac: Mac, s: Db, l: Label)
    requires PendingOk(mac, s) && Enabled(s, l) && Quiet(l.action)
    ensures PendingOk(mac, Next(mac, s, l))
  {
    var pc := QuietStep(mac, s, l);
    PendingUntouched(mac, s, Next(mac, s, l));
  }

  // The head an append has read stays the stored head until it finishes.
  lemma {:induction false} PendingOkStep(mac: Mac, s: Db, l: Label)
    requires HoldersLocked(s) && PendingOk(mac, s) && Enabled(s, l)
    ensures PendingOk(mac, Next(mac, s, l))
  {
    match l.action
    case ReadHead => PendingAfterRead(mac, s, l.who);
    case Stage => PendingAfterStage(mac, s, l.who);
    case Commit =>
      PendingAfterCommit(mac, s, l.who);
      PendingUntouched(mac, Move(Publish(s, s.appends[l.who].pc.row), l.who, Committed), Next(mac, s, l));
    case _ => PendingQuiet(mac, s, l);
  }

  // Ids stay distinct while the table is unchanged and nothing more is staged.
  lemma {:induction false} IdsUntouched(s: Db, s': Db)
    requires IdsInv(s) && s'.events == s.events && |s'.appends| == |s.appends|
    requires forall j :: 0 <= j < |s'.appends| && s'.appends[j].pc.Staged? ==> s'.appends[j] == s.appends[j]
    ensures IdsInv(s')
  {
  }

  lemma {:induction false} IdsAfterStage(s: Db, i: nat, row: Event)
    requires IdsInv(s) && i < |s.appends| && !IdTaken(s.events, s.appends[i].request.body.id)
    requires forall j :: !StagedBy(s, j, s.appends[i].request.body.id)
    ensures IdsInv(Move(s, i, Staged(row)))
  {
    forall j | 0 <= j < |s.appends| && s.appends[j].pc.Staged?
      ensures s.appends[j].request.body.id != s.appends[i].request.body.id
    {
      assert !StagedBy(s, j, s.appends[i].request.body.id);
    }
  }

  lemma {:induction false} IdsAfterCommit(s: Db, i: nat, row: Event)
    requires IdsInv(s) && i < |s.appends| && s.appends[i].pc.Staged? && row.body == s.appends[i].request.body
    ensures IdsInv(Move(Publish(s, row), i, Committed))
  {
    forall k | 0 <= k < |s.events| ensures s.events[k].body.id != row.body.id {
      assert !IdTaken(s.events, row.body.id);
    }
  }

  lemma {:induction false} IdsInvStep(mac: Mac, s: Db, l: Label)
    requires IdsInv(s) && PendingOk(mac, s) && Enabled(s, l)
    ensures IdsInv(Next(mac, s, l))
  {
    match l.action
    case Stage => IdsAfterStage(s, l.who, Stamp(mac, s.appends[l.who].request, s.appends[l.who].pc.head));
    case Commit =>
      IdsAfterCommit(s, l.who, s.appends[l.who].pc.row);
      IdsUntouched(Move(Publish(s, s.appends[l.who].pc.row), l.who, Committed), Next(mac, s, l));
    case _ => IdsUntouched(s, Next(mac, s, l));
  }

  lemma {:induction false} HeadsMatchStep(mac: Mac, s: Db, l: Label)
    requires HeadsMatch(s) && PendingOk(mac, s) && Enabled(s, l)
    ensures HeadsMatch(Next(mac, s, l))
  {
    var s' := Next(mac, s, l);
    if l.action.Commit? {
      var row := s.appends[l.who].pc.row;
      forall t: string ensures HeadOf(s', t) == LastHash(OfTenant(s'.events, t)) {
        OfTenantAppend(s.events, row, t);
        assert HeadOf(s, t) == LastHash(OfTenant(s.events, t));
      }
    } else {
      assert s'.events == s.events && s'.heads == s.heads;
      forall t: string ensures HeadOf(s', t) == LastHash(OfTenant(s'.events, t)) {
        assert HeadOf(s, t) == LastHash(OfTenant(s.events, t));
      }
    }
  }

  function Extend(order: seq<nat>, l: Label): seq<nat> {
    if l.action.Commit? then order + [l.who] else order
  }

  lemma {:induction false} OrderStep(mac: Mac, order: seq<nat>, s: Db, l: Label)
    requires IsOrder(order, s) && Enabled(s, l)
    ensures IsOrder(Extend(order, l), Next(mac, s, l))
  {
    var s', order' := Next(mac, s, l), Extend(order, l);
    assert l.who !in order;
    forall i | 0 <= i < |s'.appends| ensures i in order' <==> s'.appends[i].pc.Committed? {
      assert i in order' <==> i in order || (l.action.Commit? && i == l.who);
    }
  }

  lemma {:induction false} PickAppend(requests: seq<Event>, order: seq<nat>, i: nat)
    requires i < |requests| && forall k :: 0 <= k < |order| ==> order[k] < |requests|
    ensures Pick(requests, order + [i]) == Pick(requests, order) + [requests[i]]
  {
    assert (order + [i])[..|order|] == order;
  }

  lemma {:induction false} LogStep(mac: Mac, requests: seq<Event>, order: seq<nat>, s: Db, i: nat)
    requires RequestsKept(requests, s) && IsOrder(order, s) && HeadsMatch(s) && PendingOk(mac, s)
    requires s.events == AtomicLog(mac, Pick(requests, order))
    requires i < |s.appends| && s.appends[i].pc.Staged?
    ensures s.events + [s.appends[i].pc.row] == AtomicLog(mac, Pick(requests, order + [i]))
  {
    var e := requests[i];
    PickAppend(requests, order, i);
    AtomicLogAppend(mac, Pick(requests, order), e);
    assert HeadOf(s, e.body.tenant) == LastHash(OfTenant(s.events, e.body.tenant));
  }

  // The invariant without the commit order.
  ghost predicate TableInv(mac: Mac, s: Db) {
    LockInv(s) && PendingOk(mac, s) && IdsInv(s) && HeadsMatch(s)
  }

  lemma {:induction false} TableInvStep(mac: Mac, s: Db, l: Label)
    requires TableInv(mac, s) && Enabled(s, l)
    ensures TableInv(mac, Next(mac, s, l))
  {
    LocksHeldStep(mac, s, l);
    HoldersLockedStep(mac, s, l);
    InsertersRunStep(mac, s, l);
    RowsVisibleStep(mac, s, l);
    PendingOkStep(mac, s, l);
    IdsInvStep(mac, s, l);
    HeadsMatchStep(mac, s, l);
  }

  lemma {:induction false} RequestsKeptStep(mac: Mac, requests: seq<Event>, s: Db, l: Label)
    requires RequestsKept(requests, s) && Enabled(s, l)
    ensures RequestsKept(requests, Next(mac, s, l))
  {
  }

  lemma {:induction false} InvStep(mac: Mac, requests: seq<Event>, order: seq<nat>, s: Db, l: Label)
    requires Inv(mac, requests, order, s) && Enabled(s, l)
    ensures Inv(mac, requests, Extend(order, l), Next(mac, s, l))
  {
    var s' := Next(mac, s, l);
    RequestsKeptStep(mac, requests, s, l);
    TableInvStep(mac, s, l);
    OrderStep(mac, order, s, l);
    if l.action.Commit? {
      LogStep(mac, requests, order, s, l.who);
    } else {
      assert s'.events == s.events && Extend(order, l) == order;
    }
  }

  lemma {:induction false} RunInv(mac: Mac, requests: seq<Event>, trace: seq<Label>)
    requires Run(mac, Init(requests), trace).Some?
    ensures Inv(mac, requests, CommitOrder(trace), Run(mac, Init(requests), trace).value)
  {
    if trace != [] {
      var n := |trace| - 1;
      RunInv(mac, requests, trace[..n]);
      InvStep(mac, requests, CommitOrder(trace[..n]), Run(mac, Init(requests), trace[..n]).value, trace[n]);
    }
  }

  // Main result: whatever the interleaving and whoever aborts, the committed
  // table is the atomic log of the committed appends in commit order, and
  // each tenant's rows and head are those of a chain built from that tenant's
  // committed requests alone.
  lemma {:induction false} Serializable(mac: Mac, requests: seq<Event>, trace: seq<Label>)
    requires Run(mac, Init(requests), trace).Some?
    ensures var s, order := Run(mac, Init(requests), trace).value, CommitOrder(trace);
      && RequestsKept(requests, s) && IsOrder(order, s)
      && s.events == AtomicLog(mac, Pick(requests, order))
      && forall t: string ::
           && OfTenant(s.events, t) == Chain(mac, OfTenant(Pick(requests, order), t))
           && HeadOf(s, t) == LastHash(OfTenant(s.events, t))
  {
    RunInv(mac, requests, trace);
    var s, order := Run(mac, Init(requests), trace).value, CommitOrder(trace);
    forall t: string
      ensures OfTenant(s.events, t) == Chain(mac, OfTenant(Pick(requests, order), t))
      ensures HeadOf(s, t) == LastHash(OfTenant(s.events, t))
    {
      TenantChainIsIsolated(mac, Pick(requests, order), t);
    }
  }

  // Aborted appends and other tenants leave no trace: runs that commit the same
  // requests of a tenant in the same order store the same rows and head for it.
  lemma {:induction false} OnlyOwnCommitsShow(mac: Mac, requests: seq<Event>, trace: seq<Label>,
      other: seq<Label>, t: string)
    requires Run(mac, Init(requests), trace).Some? && Run(mac, Init(requests), other).Some?
    ensures var a, b := Run(mac, Init(requests), trace).value, Run(mac, Init(requests), other).value;
      && (forall k :: 0 <= k < |CommitOrder(trace)| ==> CommitOrder(trace)[k] < |requests|)
      && (forall k :: 0 <= k < |CommitOrder(other)| ==> CommitOrder(other)[k] < |requests|)
      && (OfTenant(Pick(requests, CommitOrder(trace)), t) == OfTenant(Pick(requests, CommitOrder(other)), t) ==>
            OfTenant(a.events, t) == OfTenant(b.events, t) && HeadOf(a, t) == HeadOf(b, t))
  {
    Serializable(mac, requests, trace);
    Serializable(mac, requests, other);
  }

  // Every reachable tenant chain re-verifies against the stored head, and any
  // other list that does exhibits a collision with it.
  lemma {:induction false} StoredChainIsTamperEvident(mac: Mac, requests: seq<Event>, trace: seq<Label>,
      t: string, list: seq<Event>)
    requires Run(mac, Init(requests), trace).Some?
    ensures var s := Run(mac, Init(requests), trace).value;
      var genuine := OfTenant(s.events, t);
      && Verifies(mac, genuine, HeadOf(s, t))
      && (Verifies(mac, list, HeadOf(s, t)) ==> list == genuine || CollisionBetween(mac, list, genuine))
  {
    Serializable(mac, requests, trace);
    var s := Run(mac, Init(requests), trace).value;
    ChainVerifies(mac, OfTenant(Pick(requests, CommitOrder(trace)), t));
    if Verifies(mac, list, HeadOf(s, t)) {
      TamperEvidence(mac, OfTenant(s.events, t), list, HeadOf(s, t));
    }
  }

  ghost function RowsOf(s: Db, t: string): set<Event> {
    set e | e in s.events && e.body.tenant == t
  }

  // In every reachable state, absent a collision among a tenant's events, they
  // have one root and no shared link.
  lemma {:induction false} StoredChainIsALine(mac: Mac, requests: seq<Event>, trace: seq<Label>, t: string)
    requires Run(mac, Init(requests), trace).Some?
    ensures var chain := OfTenant(Run(mac, Init(requests), trace).value.events, t);
      SingleLine(chain) || CollisionBetween(mac, chain, chain)
  {
    RunInv(mac, requests, trace);
    StoredChainIsTamperEvident(mac, requests, trace, t, []);
    var chain := OfTenant(Run(mac, Init(requests), trace).value.events, t);
    OfTenantUnique(Run(mac, Init(requests), trace).value.events, t);
    if !CollisionBetween(mac, chain, chain) { ChainIsALine(mac, chain); }
  }

  // Walking back from the stored head by hash reaches the root having visited
  // the tenant's committed events last to first, and, absent a collision, there
  // is no other walk: each event is visited exactly once and the walk stops.
  lemma {:induction false} WalkFromHeadCoversTenant(mac: Mac, requests: seq<Event>, trace: seq<Label>, t: string,
      path: seq<Event>)
    requires Run(mac, Init(requests), trace).Some?
    ensures var s := Run(mac, Init(requests), trace).value;
      var chain := OfTenant(s.events, t);
      && |Reverse(chain)| == |RowsOf(s, t)| && (forall e :: e in RowsOf(s, t) <==> e in Reverse(chain))
      && IsWalk(RowsOf(s, t), HeadOf(s, t), Reverse(chain))
      && NextLink(HeadOf(s, t), Reverse(chain)) == None
      && (IsWalk(RowsOf(s, t), HeadOf(s, t), path) ==> path <= Reverse(chain) || CollisionBetween(mac, chain, chain))
  {
    RunInv(mac, requests, trace);
    StoredChainIsTamperEvident(mac, requests, trace, t, []);
    var s := Run(mac, Init(requests), trace).value;
    var chain, rows := OfTenant(s.events, t), RowsOf(s, t);
    OfTenantUnique(s.events, t);
    forall e ensures e in rows <==> e in chain {
      OfTenantMember(s.events, t, e);
    }
    ReversedMembers(chain, rows);
    ReversedChainIsWalk(mac, chain, rows, |chain|);
    assert Reverse(chain)[..|chain|] == Reverse(chain);
    if IsWalk(rows, HeadOf(s, t), path) && !CollisionBetween(mac, chain, chain) {
      WalkIsForced(mac, chain, rows, path);
    }
  }

  // The state in which append i alone has taken its tenant's row and got to pc.
  function WithRow(s: Db, i: nat, pc: Pc): Db
    requires i < |s.appends|
  {
    var t := Tenant(s, i);
    Move(s.(inserting := if t in s.heads then s.inserting else s.inserting[t := i], locks := s.locks[t := i]), i, pc)
  }

  ghost predicate FreeToRun(s: Db, i: nat) {
    && i < |s.appends| && s.appends[i].pc.Ready?
    && Tenant(s, i) !in s.inserting && Tenant(s, i) !in s.locks
    && !IdTaken(s.events, s.appends[i].request.body.id)
    && forall j :: !StagedBy(s, j, s.appends[i].request.body.id)
  }

  ghost predicate StepsTo(mac: Mac, s: Db, l: Label, s': Db) {
    Enabled(s, l) && Next(mac, s, l) == s'
  }

  lemma {:induction false} RunStep(mac: Mac, start: Db, trace: seq<Label>, s: Db, l: Label, s': Db)
    requires Run(mac, start, trace) == Some(s) && StepsTo(mac, s, l, s')
    ensures Run(mac, start, trace + [l]) == Some(s')
  {
    assert (trace + [l])[..|trace|] == trace;
  }

  // What EnsureRow does when nobody holds the tenant's row.
  function Ensured(s: Db, i: nat): Db
    requires i < |s.appends|
  {
    var t := Tenant(s, i);
    Move(s.(inserting := if t in s.heads then s.inserting else s.inserting[t := i]), i, RowEnsured)
  }

  lemma {:induction false} AcquireFreeRow(mac: Mac, s: Db, i: nat)
    requires FreeToRun(s, i)
    ensures StepsTo(mac, s, Label(i, EnsureRow), Ensured(s, i))
    ensures StepsTo(mac, Ensured(s, i), Label(i, LockRow), WithRow(s, i, RowLocked))
  {
  }

  lemma {:induction false} ReadHeldRow(mac: Mac, s: Db, i: nat)
    requires FreeToRun(s, i)
    ensures StepsTo(mac, WithRow(s, i, RowLocked), Label(i, ReadHead), WithRow(s, i, HeadRead(HeadOf(s, Tenant(s, i)))))
  {
  }

  lemma {:induction false} StageFreeId(mac: Mac, s: Db, i: nat, head: Option<Hash>)
    requires FreeToRun(s, i)
    ensures StepsTo(mac, WithRow(s, i, HeadRead(head)), Label(i, Stage),
      WithRow(s, i, Staged(Stamp(mac, s.appends[i].request, head))))
  {
    var read, id := WithRow(s, i, HeadRead(head)), s.appends[i].request.body.id;
    forall j ensures !StagedBy(read, j, id) {
      assert !StagedBy(s, j, id);
    }
  }

  lemma {:induction false} ReleasedByOther(m: map<string, nat>, t: string, i: nat)
    requires t !in m && forall u :: u in m ==> m[u] != i
    ensures Without(m[t := i], i) == m && Without(m, i) == m
  {
  }

  lemma {:induction false} CommitStaged(mac: Mac, s: Db, i: nat, row: Event)
    requires LockInv(s) && FreeToRun(s, i)
    ensures StepsTo(mac, WithRow(s, i, Staged(row)), Label(i, Commit), Move(Publish(s, row), i, Committed))
  {
    ReleasedByOther(s.locks, Tenant(s, i), i);
    ReleasedByOther(s.inserting, Tenant(s, i), i);
    assert Move(WithRow(s, i, Staged(row)), i, Committed).appends == Move(s, i, Committed).appends;
  }

  function FiveSteps(i: nat): seq<Label> {
    [Label(i, EnsureRow), Label(i, LockRow), Label(i, ReadHead), Label(i, Stage), Label(i, Commit)]
  }

  // What one call of the sequential method does to the tables.
  function AppendedBy(mac: Mac, s: Db, i: nat): Db
    requires i < |s.appends|
  {
    Move(Publish(s, Stamp(mac, s.appends[i].request, LastHash(OfTenant(s.events, Tenant(s, i))))), i, Committed)
  }

  lemma {:induction false} RunToRowLocked(mac: Mac, start: Db, trace: seq<Label>, s: Db, i: nat)
    requires Run(mac, start, trace) == Some(s) && FreeToRun(s, i)
    ensures Run(mac, start, trace + [Label(i, EnsureRow)] + [Label(i, LockRow)]) == Some(WithRow(s, i, RowLocked))
  {
    AcquireFreeRow(mac, s, i);
    RunStep(mac, start, trace, s, Label(i, EnsureRow), Ensured(s, i));
    RunStep(mac, start, trace + [Label(i, EnsureRow)], Ensured(s, i), Label(i, LockRow), WithRow(s, i, RowLocked));
  }

  lemma {:induction false} RunToStaged(mac: Mac, start: Db, trace: seq<Label>, s: Db, i: nat, row: Event)
    requires FreeToRun(s, i) && Run(mac, start, trace) == Some(WithRow(s, i, RowLocked))
    requires row == Stamp(mac, s.appends[i].request, HeadOf(s, Tenant(s, i)))
    ensures Run(mac, start, trace + [Label(i, ReadHead)] + [Label(i, Stage)]) == Some(WithRow(s, i, Staged(row)))
  {
    var read := WithRow(s, i, HeadRead(HeadOf(s, Tenant(s, i))));
    ReadHeldRow(mac, s, i);
    RunStep(mac, start, trace, WithRow(s, i, RowLocked), Label(i, ReadHead), read);
    StageFreeId(mac, s, i, HeadOf(s, Tenant(s, i)));
    RunStep(mac, start, trace + [Label(i, ReadHead)], read, Label(i, Stage), WithRow(s, i, Staged(row)));
  }

  // An append that finds its tenant's row free can run its five steps in a row
  // and does to the tables what one call of the sequential method does.
  lemma {:induction false} UninterruptedAppend(mac: Mac, start: Db, trace: seq<Label>, s: Db, i: nat)
    requires Run(mac, start, trace) == Some(s) && TableInv(mac, s) && FreeToRun(s, i)
    ensures Run(mac, start, trace + FiveSteps(i)) == Some(AppendedBy(mac, s, i))
  {
    assert HeadOf(s, Tenant(s, i)) == LastHash(OfTenant(s.events, Tenant(s, i)));
    var row := Stamp(mac, s.appends[i].request, HeadOf(s, Tenant(s, i)));
    var locked := trace + [Label(i, EnsureRow)] + [Label(i, LockRow)];
    var staged := locked + [Label(i, ReadHead)] + [Label(i, Stage)];
    RunToRowLocked(mac, start, trace, s, i);
    RunToStaged(mac, start, locked, s, i, row);
    CommitStaged(mac, s, i, row);
    RunStep(mac, start, staged, WithRow(s, i, Staged(row)), Label(i, Commit), AppendedBy(mac, s, i));
    assert trace + FiveSteps(i) == staged + [Label(i, Commit)];
  }

  // -- Every log is reachable -----------------------------------------------

  // Appends 0..n, each to its end before the next one starts.
  function OneAtATime(n: nat): seq<Label> {
    if n == 0 then [] else OneAtATime(n - 1) + FiveSteps(n - 1)
  }

  ghost predicate FirstDone(mac: Mac, requests: seq<Event>, n: nat, s: Db) {
    && n <= |requests| == |s.appends|
    && s.events == AtomicLog(mac, requests[..n]) && s.locks == map[] && s.inserting == map[]
    && forall i :: 0 <= i < |requests| ==> s.appends[i] == Append(requests[i], if i < n then Committed else Ready)
  }

  lemma {:induction false} NextIsFree(mac: Mac, requests: seq<Event>, n: nat, s: Db)
    requires UniqueIds(requests) && n < |requests| && FirstDone(mac, requests, n, s)
    ensures FreeToRun(s, n)
  {
    AtomicLogBodies(mac, requests[..n]);
    forall k | 0 <= k < |s.events| ensures s.events[k].body.id != requests[n].body.id {
      assert s.events[k].body == requests[k].body;
    }
  }

  lemma {:induction false} OneMoreDone(mac: Mac, requests: seq<Event>, n: nat, s: Db)
    requires n < |requests| && FirstDone(mac, requests, n, s)
    ensures FirstDone(mac, requests, n + 1, AppendedBy(mac, s, n))
  {
    AtomicLogAppend(mac, requests[..n], requests[n]);
    assert requests[..n + 1] == requests[..n] + [requests[n]];
  }

  ghost predicate Reaches(mac: Mac, requests: seq<Event>, trace: seq<Label>, n: nat) {
    var end := Run(mac, Init(requests), trace);
    end.Some? && FirstDone(mac, requests, n, end.value)
  }

  lemma {:induction false} ReachOneMore(mac: Mac, requests: seq<Event>, trace: seq<Label>, n: nat)
    requires UniqueIds(requests) && n < |requests| && Reaches(mac, requests, trace, n)
    ensures Reaches(mac, requests, trace + FiveSteps(n), n + 1)
  {
    var s := Run(mac, Init(requests), trace).value;
    RunInv(mac, requests, trace);
    NextIsFree(mac, requests, n, s);
    UninterruptedAppend(mac, Init(requests), trace, s, n);
    OneMoreDone(mac, requests, n, s);
  }

  // The converse of Serializable: with distinct ids any sequence of requests,
  // whatever their timestamps, is the atomic log of some run.
  lemma {:induction false} EveryLogIsReachable(mac: Mac, requests: seq<Event>)
    requires UniqueIds(requests)
    ensures var end := Run(mac, Init(requests), OneAtATime(|requests|));
      && end.Some? && end.value.events == AtomicLog(mac, requests)
      && forall i :: 0 <= i < |requests| ==> end.value.appends[i].pc.Committed?
  {
    for n := 0 to |requests|
      invariant Reaches(mac, requests, OneAtATime(n), n)
    {
      ReachOneMore(mac, requests, OneAtATime(n), n);
    }
    assert requests[..|requests|] == requests;
  }

  // -- Progress -------------------------------------------------------------

  function Remaining(pc: Pc): nat {
    match pc
    case Ready => 5
    case RowEnsured => 4
    case RowLocked => 3
    case HeadRead(_) => 2
    case Staged(_) => 1
    case _ => 0
  }

  function Measure(appends: seq<Append>): nat {
    if appends == [] then 0
    else Measure(appends[..|appends| - 1]) + Remaining(appends[|appends| - 1].pc)
  }

  lemma {:induction false} MeasureUpdate(appends: seq<Append>, i: nat, a: Append)
    requires i < |appends|
    ensures Measure(appends[i := a]) == Measure(appends) - Remaining(appends[i].pc) + Remaining(a.pc)
  {
    var n := |appends| - 1;
    if i < n {
      MeasureUpdate(appends[..n], i, a);
      assert appends[i := a][..n] == appends[..n][i := a];
    } else {
      assert appends[i := a][..n] == appends[..n];
    }
  }

  lemma {:induction false} StepLowersMeasure(mac: Mac, s: Db, l: Label)
    requires Enabled(s, l)
    ensures Measure(Next(mac, s, l).appends) < Measure(s.appends)
  {
    MeasureUpdate(s.appends, l.who, Next(mac, s, l).appends[l.who]);
  }

  lemma {:induction false} ReadyMeasure(appends: seq<Append>)
    requires forall i :: 0 <= i < |appends| ==> appends[i].pc.Ready?
    ensures Measure(appends) == 5 * |appends|
  {
    if appends != [] { ReadyMeasure(appends[..|appends| - 1]); }
  }

  // Every step lowers the measure, so no run is longer than five steps an append.
  lemma {:induction false} RunsAreBounded(mac: Mac, requests: seq<Event>, trace: seq<Label>)
    requires Run(mac, Init(requests), trace).Some?
    ensures |trace| + Measure(Run(mac, Init(requests), trace).value.appends) <= 5 * |requests|
  {
    if trace == [] {
      ReadyMeasure(Init(requests).appends);
    } else {
      var n := |trace| - 1;
      RunsAreBounded(mac, requests, trace[..n]);
      StepLowersMeasure(mac, Run(mac, Init(requests), trace[..n]).value, trace[n]);
    }
  }

  ghost predicate CanAdvance(s: Db, i: nat) {
    exists a: Action :: a != Abort && Enabled(s, Label(i, a))
  }

  // i is blocked by what j holds: the uncommitted row, the row lock, or the
  // uncommitted event id.
  ghost predicate WaitsFor(s: Db, i: nat, j: nat) {
    i < |s.appends| &&
    var t, pc := Tenant(s, i), s.appends[i].pc;
    || (pc.Ready? && t in s.inserting && s.inserting[t] == j)
    || (pc.RowEnsured? && t in s.locks && s.locks[t] == j)
    || (pc.HeadRead? && StagedBy(s, j, s.appends[i].request.body.id))
  }

  lemma {:induction false} WaitsForAdvances(s: Db, i: nat, j: nat)
    requires LockInv(s) && WaitsFor(s, i, j)
    ensures j < |s.appends| && 0 < Remaining(s.appends[j].pc) < Remaining(s.appends[i].pc)
  {
  }

  lemma {:induction false} NeverBlocked(s: Db, i: nat)
    requires i < |s.appends| && (s.appends[i].pc.RowLocked? || s.appends[i].pc.Staged?)
    ensures CanAdvance(s, i)
  {
    if s.appends[i].pc.RowLocked? {
      assert Enabled(s, Label(i, ReadHead));
    } else {
      assert Enabled(s, Label(i, Commit));
    }
  }

  lemma {:induction false} BlockedWaits(s: Db, i: nat) returns (j: nat)
    requires LockInv(s) && i < |s.appends| && !Finished(s.appends[i].pc) && !CanAdvance(s, i)
    requires !s.appends[i].pc.RowLocked? && !s.appends[i].pc.Staged?
    ensures WaitsFor(s, i, j)
  {
    var t, pc := Tenant(s, i), s.appends[i].pc;
    if pc.Ready? {
      assert !Enabled(s, Label(i, EnsureRow));
      j := s.inserting[t];
    } else if pc.RowEnsured? {
      assert !Enabled(s, Label(i, LockRow));
      j := s.locks[t];
    } else {
      assert !Enabled(s, Label(i, Stage)) && !Enabled(s, Label(i, Reject));
      j :| StagedBy(s, j, s.appends[i].request.body.id);
    }
  }

  // Waiting is acyclic: from any unfinished append the waits-for links lead,
  // without repetition, to one that can take a step other than aborting.
  lemma {:induction false} NoDeadlock(s: Db, i: nat) returns (chain: seq<nat>)
    requires LockInv(s) && i < |s.appends| && !Finished(s.appends[i].pc)
    ensures chain != [] && chain[0] == i && CanAdvance(s, chain[|chain| - 1])
    ensures forall k :: 0 < k < |chain| ==> WaitsFor(s, chain[k - 1], chain[k])
    decreases Remaining(s.appends[i].pc)
  {
    if CanAdvance(s, i) {
      chain := [i];
    } else {
      if s.appends[i].pc.RowLocked? || s.appends[i].pc.Staged? { NeverBlocked(s, i); }
      var j := BlockedWaits(s, i);
      WaitsForAdvances(s, i, j);
      var rest := NoDeadlock(s, j);
      chain := [i] + rest;
    }
  }

  // A run that cannot be extended, other than by choosing to abort, has
  // finished every append and left no chain-state row locked or half inserted.
  lemma {:induction false} MaximalRunsFinish(mac: Mac, requests: seq<Event>, trace: seq<Label>)
    requires Run(mac, Init(requests), trace).Some?
    requires forall i :: !CanAdvance(Run(mac, Init(requests), trace).value, i)
    ensures var s := Run(mac, Init(requests), trace).value;
      && (forall i :: 0 <= i < |s.appends| ==> Finished(s.appends[i].pc))
      && s.locks == map[] && s.inserting == map[]
  {
    RunInv(mac, requests, trace);
    var s := Run(mac, Init(requests), trace).value;
    forall i | 0 <= i < |s.appends| ensures Finished(s.appends[i].pc) {
      if !Finished(s.appends[i].pc) {
        var chain := NoDeadlock(s, i);
      }
    }
  }

  lemma {:induction false} PickAt(requests: seq<Event>, order: seq<nat>, k: nat)
    requires forall j :: 0 <= j < |order| ==> order[j] < |requests|
    requires k < |order|
    ensures |Pick(requests, order)| == |order| && Pick(requests, order)[k] == requests[order[k]]
  {
    var n := |order| - 1;
    PickLength(requests, order);
    PickLength(requests, order[..n]);
    if k < n { PickAt(requests, order[..n], k); }
  }

  lemma {:induction false} PickLength(requests: seq<Event>, order: seq<nat>)
    requires forall j :: 0 <= j < |order| ==> order[j] < |requests|
    ensures |Pick(requests, order)| == |order|
  {
    if order != [] { PickLength(requests, order[..|order| - 1]); }
  }

  // An id that is stored is that of a committed request.
  lemma {:induction false} TakenByCommitted(mac: Mac, requests: seq<Event>, order: seq<nat>, s: Db, id: nat)
      returns (j: nat)
    requires Inv(mac, requests, order, s) && IdTaken(s.events, id)
    ensures j < |requests| && s.appends[j].pc.Committed? && requests[j].body.id == id
  {
    var k: nat :| k < |s.events| && s.events[k].body.id == id;
    AtomicLogBodies(mac, Pick(requests, order));
    PickLength(requests, order);
    PickAt(requests, order, k);
    j := order[k];
  }

  ghost predicate NoAborts(trace: seq<Label>) {
    forall n :: 0 <= n < |trace| ==> trace[n].action != Abort
  }

  lemma {:induction false} RejectNeedsTakenId(mac: Mac, requests: seq<Event>, order: seq<nat>, s: Db, l: Label)
    requires UniqueIds(requests) && Inv(mac, requests, order, s) && Enabled(s, l)
    ensures l.action != Reject
  {
    if l.action.Reject? {
      var j := TakenByCommitted(mac, requests, order, s, s.appends[l.who].request.body.id);
    }
  }

  ghost predicate NoneAborted(s: Db) {
    forall i :: 0 <= i < |s.appends| ==> !s.appends[i].pc.Aborted?
  }

  lemma {:induction false} NoneAbortedStep(mac: Mac, s: Db, l: Label)
    requires NoneAborted(s) && Enabled(s, l) && l.action != Reject && l.action != Abort
    ensures NoneAborted(Next(mac, s, l))
  {
  }

  // With distinct ids nothing is refused: an append is rolled back only by a
  // failure of its own.
  lemma {:induction false} NobodyIsRefused(mac: Mac, requests: seq<Event>, trace: seq<Label>)
    requires UniqueIds(requests) && NoAborts(trace) && Run(mac, Init(requests), trace).Some?
    ensures NoneAborted(Run(mac, Init(requests), trace).value)
  {
    if trace != [] {
      var n := |trace| - 1;
      var mid := Run(mac, Init(requests), trace[..n]).value;
      NobodyIsRefused(mac, requests, trace[..n]);
      RunInv(mac, requests, trace[..n]);
      RejectNeedsTakenId(mac, requests, CommitOrder(trace[..n]), mid, trace[n]);
      NoneAbortedStep(mac, mid, trace[n]);
    }
  }

  // So, with distinct ids and no failures, a run that cannot go on has committed
  // every append, in some order, and the table is the atomic log of that order.
  lemma {:induction false} MaximalRunsCommitAll(mac: Mac, requests: seq<Event>, trace: seq<Label>)
    requires UniqueIds(requests) && NoAborts(trace) && Run(mac, Init(requests), trace).Some?
    requires forall i :: !CanAdvance(Run(mac, Init(requests), trace).value, i)
    ensures var s, order := Run(mac, Init(requests), trace).value, CommitOrder(trace);
      && |s.appends| == |requests| && IsOrder(order, s)
      && (forall i :: 0 <= i < |requests| ==> s.appends[i].pc.Committed? && i in order)
      && s.events == AtomicLog(mac, Pick(requests, order))
  {
    MaximalRunsFinish(mac, requests, trace);
    NobodyIsRefused(mac, requests, trace);
    Serializable(mac, requests, trace);
  }
}
