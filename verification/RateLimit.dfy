/**
 The fixed-window rate limiter as a transition system: INCR, EXPIRE and TTL are
 separate atomic steps of concurrent requests against a keyed counter store
 whose clock ticks in whole seconds.  Redis calls succeed.  `lives`, `current`
 and `log` only record what happened; no step depends on them.
 */
module RateLimit {
  import opened Options
  import opened Counting

  // -- The counter store ----------------------------------------------------

  datatype Counter = Counter(value: nat, expiry: Option<int>)
  type Store = map<string, Counter>

  function Incr(store: Store, key: string): Store {
    store[key := if key in store then store[key].(value := store[key].value + 1) else Counter(1, None)]
  }

  function SetExpiry(store: Store, key: string, expiry: int): Store {
    if key in store then store[key := store[key].(expiry := Some(expiry))] else store
  }

  function Ttl(store: Store, now: int, key: string): int {
    if key !in store then -2
    else match store[key].expiry
      case None => -1
      case Some(e) => e - now
  }

  predicate Gone(c: Counter, now: int) {
    c.expiry.Some? && c.expiry.value <= now
  }

  function Evict(store: Store, now: int): Store {
    map key | key in store && !Gone(store[key], now) :: store[key]
  }

  function Max(a: int, b: int): int { if a >= b then a else b }
  function Min(a: int, b: int): int { if a <= b then a else b }

  // -- Requests -------------------------------------------------------------

  datatype Config = Config(limits: string -> int, window: nat)

  datatype Pc =
    | AtIncr
    | AtExpire(current: nat)
    | AtTtl
    | Passed
    | Blocked(retryAfter: int)

  // A request runs its checks in order: [ip], or [user, tenant].
  datatype Request = Request(keys: seq<string>, check: nat, life: nat, pc: Pc)

  datatype Life = Life(key: string, born: int, expiry: Option<int>)
  datatype Arrival = Arrival(who: nat, check: nat, key: string, at: int, life: nat, value: nat)

  datatype State = State(
    now: int,
    store: Store,
    requests: seq<Request>,
    lives: seq<Life>,
    current: map<string, nat>,
    log: seq<Arrival>)

  datatype Label = Tick | Move(who: nat)

  function Start(keys: seq<string>): Request {
    Request(keys, 0, 0, if keys == [] then Passed else AtIncr)
  }

  function Init(now: int, requests: seq<seq<string>>): (s: State)
    ensures |s.requests| == |requests|
    ensures forall i :: 0 <= i < |requests| ==> s.requests[i] == Start(requests[i])
  {
    State(now, map[], seq(|requests|, i requires 0 <= i < |requests| => Start(requests[i])), [], map[], [])
  }

  predicate Running(r: Request) {
    r.check < |r.keys| && (r.pc.AtIncr? || r.pc.AtExpire? || r.pc.AtTtl?)
  }

  predicate Enabled(s: State, l: Label) {
    l.Move? ==> l.who < |s.requests| && Running(s.requests[l.who])
  }

  function KeyOf(r: Request): string
    requires r.check < |r.keys|
  {
    r.keys[r.check]
  }

  // Where a check goes once its counter value is known.
  function Decide(cfg: Config, r: Request, value: nat): Request
    requires r.check < |r.keys|
  {
    if value > cfg.limits(KeyOf(r)) then r.(pc := AtTtl)
    else if r.check + 1 < |r.keys| then r.(check := r.check + 1, pc := AtIncr)
    else r.(pc := Passed)
  }

  function DoTick(s: State): State {
    var store := Evict(s.store, s.now + 1);
    s.(now := s.now + 1, store := store, current := map key | key in store && key in s.current :: s.current[key])
  }

  function DoIncr(cfg: Config, s: State, i: nat): State
    requires i < |s.requests| && Running(s.requests[i])
  {
    var r := s.requests[i];
    var key, store := KeyOf(r), Incr(s.store, KeyOf(r));
    var value, isNew := store[key].value, key !in s.current;
    var life := if isNew then |s.lives| else s.current[key];
    var r' := r.(life := life);
    State(s.now, store,
      s.requests[i := if value == 1 then r'.(pc := AtExpire(value)) else Decide(cfg, r', value)],
      if isNew then s.lives + [Life(key, s.now, None)] else s.lives,
      s.current[key := life],
      s.log + [Arrival(i, r.check, key, s.now, life, value)])
  }

  function DoExpire(cfg: Config, s: State, i: nat): State
    requires i < |s.requests| && Running(s.requests[i]) && s.requests[i].pc.AtExpire?
  {
    var r := s.requests[i];
    var key, end := KeyOf(r), s.now + cfg.window;
    s.(store := SetExpiry(s.store, key, end),
       lives := if key in s.current && s.current[key] < |s.lives|
                then s.lives[s.current[key] := s.lives[s.current[key]].(expiry := Some(end))] else s.lives,
       requests := s.requests[i := Decide(cfg, r, r.pc.current)])
  }

  function Retry(s: State, key: string): int {
    Max(Ttl(s.store, s.now, key), 1)
  }

  function DoTtl(s: State, i: nat): State
    requires i < |s.requests| && Running(s.requests[i])
  {
    s.(requests := s.requests[i := s.requests[i].(pc := Blocked(Retry(s, KeyOf(s.requests[i]))))])
  }

  function Next(cfg: Config, s: State, l: Label): State
    requires Enabled(s, l)
  {
    match l
    case Tick => DoTick(s)
    case Move(i) =>
      match s.requests[i].pc
      case AtIncr => DoIncr(cfg, s, i)
      case AtExpire(_) => DoExpire(cfg, s, i)
      case _ => DoTtl(s, i)
  }

  function Run(cfg: Config, s: State, trace: seq<Label>): Option<State> {
    if trace == [] then Some(s)
    else
      match Run(cfg, s, trace[..|trace| - 1])
      case None => None
      case Some(mid) =>
        if Enabled(mid, trace[|trace| - 1]) then Some(Next(cfg, mid, trace[|trace| - 1])) else None
  }

  // -- Lifetimes ------------------------------------------------------------

  predicate IsCurrent(s: State, key: string, life: nat) {
    key in s.current && s.current[key] == life
  }

  ghost predicate StoreInv(s: State) {
    && s.store.Keys == s.current.Keys
    && forall key :: key in s.store ==>
         && s.current[key] < |s.lives|
         && s.lives[s.current[key]].key == key
         && s.lives[s.current[key]].expiry == s.store[key].expiry
         && s.store[key].value > 0
         && !Gone(s.store[key], s.now)
  }

  // A lifetime lasts at least the window, ends at most one window from now, and
  // ends when it stops being current.
  ghost predicate LivesInv(cfg: Config, s: State) {
    forall n :: 0 <= n < |s.lives| ==>
      var life := s.lives[n];
      && life.born <= s.now
      && (life.expiry.Some? ==> life.born + cfg.window <= life.expiry.value <= s.now + cfg.window)
      && (!IsCurrent(s, life.key, n) ==> life.expiry.Some? && life.expiry.value <= s.now)
  }

  // The lifetimes of one key follow each other.
  ghost predicate LivesOrdered(s: State) {
    forall m, n :: 0 <= m < n < |s.lives| && s.lives[m].key == s.lives[n].key ==>
      s.lives[m].expiry.Some? && s.lives[m].expiry.value <= s.lives[n].born
  }

  predicate Pending(s: State, i: int) {
    0 <= i < |s.requests| && Running(s.requests[i]) && s.requests[i].pc.AtExpire?
  }

  // EXPIRE is pending exactly for the keys that have no TTL, once for each.
  ghost predicate PendingUnique(s: State) {
    && (forall i :: Pending(s, i) ==>
          && KeyOf(s.requests[i]) in s.store && s.store[KeyOf(s.requests[i])].expiry == None
          && s.requests[i].pc.current == 1)
    && (forall i, j :: Pending(s, i) && Pending(s, j) && i != j ==>
          KeyOf(s.requests[i]) != KeyOf(s.requests[j]))
  }

  ghost predicate PendingCovers(s: State) {
    forall key :: key in s.store && s.store[key].expiry == None ==>
      exists i :: Pending(s, i) && KeyOf(s.requests[i]) == key
  }

  ghost predicate PendingInv(s: State) {
    PendingUnique(s) && PendingCovers(s)
  }

  function InLife(life: nat): Arrival -> bool {
    (a: Arrival) => a.life == life
  }

  // The counter value an arrival saw is its rank within its lifetime.
  ghost predicate RanksInv(s: State) {
    && (forall key :: key in s.store ==>
          key in s.current && s.store[key].value == CountIf(s.log, InLife(s.current[key])))
    && (forall n :: 0 <= n < |s.log| ==> s.log[n].value == CountIf(s.log[..n], InLife(s.log[n].life)) + 1)
  }

  ghost predicate LogInv(s: State) {
    forall n :: 0 <= n < |s.log| ==>
      var a := s.log[n];
      && a.life < |s.lives| && s.lives[a.life].key == a.key
      && s.lives[a.life].born <= a.at <= s.now
      && (s.lives[a.life].expiry.Some? ==> a.at < s.lives[a.life].expiry.value)
  }

  ghost predicate Inv(cfg: Config, s: State) {
    && StoreInv(s) && LivesInv(cfg, s) && LivesOrdered(s)
    && PendingInv(s) && RanksInv(s) && LogInv(s)
  }

  lemma {:induction false} TickLives(cfg: Config, s: State)
    requires StoreInv(s) && LivesInv(cfg, s)
    ensures StoreInv(DoTick(s)) && LivesInv(cfg, DoTick(s))
  {
    var s' := DoTick(s);
    forall n | 0 <= n < |s.lives| && !IsCurrent(s', s.lives[n].key, n)
      ensures s.lives[n].expiry.Some? && s.lives[n].expiry.value <= s'.now
    {
      assert IsCurrent(s, s.lives[n].key, n) ==> Gone(s.store[s.lives[n].key], s'.now);
    }
  }

  lemma {:induction false} TickPending(s: State)
    requires PendingInv(s)
    ensures PendingInv(DoTick(s))
  {
    var s' := DoTick(s);
    assert forall i :: Pending(s', i) <==> Pending(s, i);
    forall key | key in s'.store && s'.store[key].expiry == None
      ensures exists i :: Pending(s', i) && KeyOf(s'.requests[i]) == key
    {
      var i :| Pending(s, i) && KeyOf(s.requests[i]) == key;
      assert Pending(s', i);
    }
  }

  lemma {:induction false} TickRecords(cfg: Config, s: State)
    requires Inv(cfg, s)
    ensures RanksInv(DoTick(s)) && LogInv(DoTick(s)) && LivesOrdered(DoTick(s))
  {
  }

  lemma {:induction false} IncrStore(cfg: Config, s: State, i: nat)
    requires StoreInv(s) && i < |s.requests| && Running(s.requests[i])
    ensures StoreInv(DoIncr(cfg, s, i))
  {
    var s', mine := DoIncr(cfg, s, i), KeyOf(s.requests[i]);
    forall key | key in s'.store && key != mine
      ensures key in s.store && s'.current[key] == s.current[key] && s'.store[key] == s.store[key]
      ensures s'.lives[s.current[key]] == s.lives[s.current[key]]
    {
    }
    assert mine in s.store ==> s'.lives[s'.current[mine]] == s.lives[s.current[mine]];
  }

  lemma {:induction false} IncrLives(cfg: Config, s: State, i: nat)
    requires StoreInv(s) && LivesInv(cfg, s) && i < |s.requests| && Running(s.requests[i])
    ensures LivesInv(cfg, DoIncr(cfg, s, i))
  {
    var s' := DoIncr(cfg, s, i);
    forall n | 0 <= n < |s.lives|
      ensures s'.lives[n] == s.lives[n] && (IsCurrent(s, s.lives[n].key, n) ==> IsCurrent(s', s.lives[n].key, n))
    {
    }
  }

  lemma {:induction false} IncrOrdered(cfg: Config, s: State, i: nat)
    requires Inv(cfg, s) && i < |s.requests| && Running(s.requests[i])
    ensures LivesOrdered(DoIncr(cfg, s, i))
  {
    var key := KeyOf(s.requests[i]);
    if key !in s.current {
      forall m | 0 <= m < |s.lives| && s.lives[m].key == key
        ensures s.lives[m].expiry.Some? && s.lives[m].expiry.value <= s.now
      {
        assert !IsCurrent(s, key, m);
      }
    }
  }

  lemma {:induction false} IncrPendingUnique(cfg: Config, s: State, i: nat)
    requires StoreInv(s) && PendingUnique(s)
    requires i < |s.requests| && Running(s.requests[i]) && s.requests[i].pc.AtIncr?
    ensures PendingUnique(DoIncr(cfg, s, i))
  {
    var s', mine := DoIncr(cfg, s, i), KeyOf(s.requests[i]);
    forall j | Pending(s', j) && j != i
      ensures Pending(s, j) && s'.requests[j] == s.requests[j]
    {
    }
    assert Pending(s', i) ==> mine !in s.store && KeyOf(s'.requests[i]) == mine;
  }

  lemma {:induction false} IncrPendingCovers(cfg: Config, s: State, i: nat)
    requires PendingCovers(s) && i < |s.requests| && Running(s.requests[i]) && s.requests[i].pc.AtIncr?
    ensures PendingCovers(DoIncr(cfg, s, i))
  {
    var s', mine := DoIncr(cfg, s, i), KeyOf(s.requests[i]);
    forall key | key in s'.store && s'.store[key].expiry == None
      ensures exists j :: Pending(s', j) && KeyOf(s'.requests[j]) == key
    {
      if key == mine && mine !in s.store {
        assert Pending(s', i);
      } else {
        var j :| Pending(s, j) && KeyOf(s.requests[j]) == key;
        assert Pending(s', j);
      }
    }
  }

  lemma {:induction false} IncrRanks(cfg: Config, s: State, i: nat)
    requires Inv(cfg, s) && i < |s.requests| && Running(s.requests[i])
    ensures RanksInv(DoIncr(cfg, s, i))
  {
    var s', mine := DoIncr(cfg, s, i), KeyOf(s.requests[i]);
    var a := s'.log[|s.log|];
    if mine !in s.store { CountNone(s.log, InLife(a.life)); }
    forall key | key in s'.store ensures s'.store[key].value == CountIf(s'.log, InLife(s'.current[key])) {
      CountAppend(s.log, a, InLife(s'.current[key]));
      assert key != mine && key in s.store ==> s'.current[key] != a.life;
    }
    forall n | 0 <= n < |s'.log| ensures s'.log[n].value == CountIf(s'.log[..n], InLife(s'.log[n].life)) + 1 {
      assert s'.log[..n] == s.log[..n];
      assert s.log[..|s.log|] == s.log;
    }
  }

  lemma {:induction false} IncrLog(cfg: Config, s: State, i: nat)
    requires StoreInv(s) && LivesInv(cfg, s) && LogInv(s) && i < |s.requests| && Running(s.requests[i])
    ensures LogInv(DoIncr(cfg, s, i))
  {
    var s', mine := DoIncr(cfg, s, i), KeyOf(s.requests[i]);
    forall n | 0 <= n < |s.lives| ensures s'.lives[n] == s.lives[n] {
    }
    assert mine in s.store ==> !Gone(s.store[mine], s.now);
  }

  lemma {:induction false} ExpireStore(cfg: Config, s: State, i: nat)
    requires StoreInv(s) && PendingInv(s) && Pending(s, i) && cfg.window > 0
    ensures StoreInv(DoExpire(cfg, s, i))
  {
    var s', mine := DoExpire(cfg, s, i), KeyOf(s.requests[i]);
    forall key | key in s'.store && key != mine
      ensures s'.store[key] == s.store[key] && s.current[key] != s.current[mine]
    {
      assert s.lives[s.current[key]].key == key;
    }
  }

  // EXPIRE sets the end of the key's current lifetime and touches no other.
  lemma {:induction false} ExpireFrame(cfg: Config, s: State, i: nat)
    requires StoreInv(s) && PendingUnique(s) && Pending(s, i)
    ensures var s', mine := DoExpire(cfg, s, i), s.current[KeyOf(s.requests[i])];
      && |s'.lives| == |s.lives| && mine < |s.lives| && s.lives[mine].expiry == None
      && s'.lives[mine] == s.lives[mine].(expiry := Some(s.now + cfg.window))
      && forall n :: 0 <= n < |s.lives| && n != mine ==> s'.lives[n] == s.lives[n]
  {
  }

  lemma {:induction false} ExpireLives(cfg: Config, s: State, i: nat)
    requires StoreInv(s) && PendingUnique(s) && LivesInv(cfg, s) && Pending(s, i)
    ensures LivesInv(cfg, DoExpire(cfg, s, i))
  {
    var s' := DoExpire(cfg, s, i);
    ExpireFrame(cfg, s, i);
    assert s'.current == s.current && s'.now == s.now;
  }

  lemma {:induction false} ExpireOrdered(cfg: Config, s: State, i: nat)
    requires Inv(cfg, s) && Pending(s, i)
    ensures LivesOrdered(DoExpire(cfg, s, i))
  {
    ExpireFrame(cfg, s, i);
  }

  lemma {:induction false} ExpireRecords(cfg: Config, s: State, i: nat)
    requires StoreInv(s) && PendingUnique(s) && RanksInv(s) && LogInv(s) && Pending(s, i) && cfg.window > 0
    ensures RanksInv(DoExpire(cfg, s, i)) && LogInv(DoExpire(cfg, s, i))
  {
    ExpireFrame(cfg, s, i);
    assert DoExpire(cfg, s, i).log == s.log && DoExpire(cfg, s, i).current == s.current;
  }

  lemma {:induction false} ExpirePending(cfg: Config, s: State, i: nat)
    requires Inv(cfg, s) && Pending(s, i)
    ensures PendingInv(DoExpire(cfg, s, i))
  {
    var s', mine := DoExpire(cfg, s, i), KeyOf(s.requests[i]);
    forall j | Pending(s', j) ensures j != i && Pending(s, j) && s'.requests[j] == s.requests[j] {
    }
    forall key | key in s'.store && s'.store[key].expiry == None
      ensures exists j :: Pending(s', j) && KeyOf(s'.requests[j]) == key
    {
      var j :| Pending(s, j) && KeyOf(s.requests[j]) == key;
      assert Pending(s', j);
    }
  }

  lemma {:induction false} TtlInv(cfg: Config, s: State, i: nat)
    requires Inv(cfg, s) && i < |s.requests| && Running(s.requests[i]) && s.requests[i].pc.AtTtl?
    ensures Inv(cfg, DoTtl(s, i))
  {
    var s' := DoTtl(s, i);
    forall j | Pending(s', j) ensures Pending(s, j) && s'.requests[j] == s.requests[j] {
    }
    forall key | key in s'.store && s'.store[key].expiry == None
      ensures exists j :: Pending(s', j) && KeyOf(s'.requests[j]) == key
    {
      var j :| Pending(s, j) && KeyOf(s.requests[j]) == key;
      assert Pending(s', j);
    }
  }

  lemma {:induction false} InvStep(cfg: Config, s: State, l: Label)
    requires Inv(cfg, s) && Enabled(s, l) && cfg.window > 0
    ensures Inv(cfg, Next(cfg, s, l))
  {
    match l
    case Tick =>
      TickLives(cfg, s);
      TickPending(s);
      TickRecords(cfg, s);
    case Move(i) =>
      match s.requests[i].pc
      case AtIncr =>
        IncrStore(cfg, s, i);
        IncrLives(cfg, s, i);
        IncrOrdered(cfg, s, i);
        IncrPendingUnique(cfg, s, i);
        IncrPendingCovers(cfg, s, i);
        IncrRanks(cfg, s, i);
        IncrLog(cfg, s, i);
      case AtExpire(_) =>
        ExpireStore(cfg, s, i);
        ExpireLives(cfg, s, i);
        ExpirePending(cfg, s, i);
        ExpireOrdered(cfg, s, i);
        ExpireRecords(cfg, s, i);
      case _ => TtlInv(cfg, s, i);
  }

  lemma {:induction false} RunInv(cfg: Config, s: State, trace: seq<Label>)
    requires Inv(cfg, s) && cfg.window > 0
    requires Run(cfg, s, trace).Some?
    ensures Inv(cfg, Run(cfg, s, trace).value)
  {
    if trace != [] {
      var n := |trace| - 1;
      RunInv(cfg, s, trace[..n]);
      InvStep(cfg, Run(cfg, s, trace[..n]).value, trace[n]);
    }
  }
}
