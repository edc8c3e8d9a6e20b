/** What every run of the rate limiter keeps, and what callers may rely on. */
module RateLimitProperties {
  import opened Options
  import opened Counting
  import opened RateLimit

  lemma {:induction false} ReachableInv(cfg: Config, now: int, requests: seq<seq<string>>, trace: seq<Label>)
    requires cfg.window > 0 && Run(cfg, Init(now, requests), trace).Some?
    ensures Inv(cfg, Run(cfg, Init(now, requests), trace).value)
  {
    RunInv(cfg, Init(now, requests), trace);
  }

  // A counter lacks a TTL exactly while one EXPIRE for it is still to come.
  lemma {:induction false} NoTtlMeansOnePendingExpire(cfg: Config, now: int, requests: seq<seq<string>>,
      trace: seq<Label>, key: string)
    requires cfg.window > 0 && Run(cfg, Init(now, requests), trace).Some?
    ensures var s := Run(cfg, Init(now, requests), trace).value;
      && ((key in s.store && s.store[key].expiry == None) <==> exists i :: Pending(s, i) && KeyOf(s.requests[i]) == key)
      && forall i, j :: Pending(s, i) && Pending(s, j) && KeyOf(s.requests[i]) == key == KeyOf(s.requests[j]) ==> i == j
  {
    ReachableInv(cfg, now, requests, trace);
  }

  // -- How many arrivals a lifetime and a span admit ------------------------

  function AdmittedInLife(life: nat, limit: int): Arrival -> bool {
    (a: Arrival) => a.life == life && a.value <= limit
  }

  function AdmittedInSpan(key: string, limit: int, from: int, window: nat): Arrival -> bool {
    (a: Arrival) => a.key == key && a.value <= limit && from <= a.at < from + window
  }

  lemma {:induction false} RankedLifeAdmits(log: seq<Arrival>, life: nat, limit: int)
    requires forall n :: 0 <= n < |log| ==> log[n].value == CountIf(log[..n], InLife(log[n].life)) + 1
    ensures CountIf(log, AdmittedInLife(life, limit)) == Min(CountIf(log, InLife(life)), Max(0, limit))
  {
    if log != [] {
      var rest := log[..|log| - 1];
      forall n | 0 <= n < |rest| ensures rest[..n] == log[..n] {
      }
      RankedLifeAdmits(rest, life, limit);
    }
  }

  // Every counter lifetime admits exactly min(arrivals, limit) requests.
  lemma {:induction false} LifetimeAdmitsExactly(cfg: Config, now: int, requests: seq<seq<string>>,
      trace: seq<Label>, life: nat)
    requires cfg.window > 0 && Run(cfg, Init(now, requests), trace).Some?
    ensures var s := Run(cfg, Init(now, requests), trace).value;
      life < |s.lives| ==>
        var limit := cfg.limits(s.lives[life].key);
        CountIf(s.log, AdmittedInLife(life, limit)) == Min(CountIf(s.log, InLife(life)), Max(0, limit))
  {
    ReachableInv(cfg, now, requests, trace);
    var s := Run(cfg, Init(now, requests), trace).value;
    if life < |s.lives| {
      RankedLifeAdmits(s.log, life, cfg.limits(s.lives[life].key));
    }
  }

  // A lifetime between two others of its key lasts a full window.
  lemma {:induction false} WindowBetween(cfg: Config, s: State, a: Arrival, b: Arrival, c: Arrival)
    requires Inv(cfg, s) && a in s.log && b in s.log && c in s.log
    requires a.key == b.key == c.key && a.life < b.life < c.life
    ensures c.at > a.at + cfg.window
  {
    assert s.lives[a.life].key == s.lives[b.life].key == s.lives[c.life].key;
  }

  lemma {:induction false} SpanMeetsTwoLives(cfg: Config, s: State, from: int, a: Arrival, b: Arrival, c: Arrival)
    requires Inv(cfg, s) && a in s.log && b in s.log && c in s.log
    requires a.key == b.key == c.key
    requires from <= a.at < from + cfg.window && from <= b.at < from + cfg.window && from <= c.at < from + cfg.window
    ensures a.life == b.life || b.life == c.life || a.life == c.life
  {
    if a.life < b.life < c.life { WindowBetween(cfg, s, a, b, c); }
    if a.life < c.life < b.life { WindowBetween(cfg, s, a, c, b); }
    if b.life < a.life < c.life { WindowBetween(cfg, s, b, a, c); }
    if b.life < c.life < a.life { WindowBetween(cfg, s, b, c, a); }
    if c.life < a.life < b.life { WindowBetween(cfg, s, c, a, b); }
    if c.life < b.life < a.life { WindowBetween(cfg, s, c, b, a); }
  }

  lemma {:induction false} SpanWithinLives(cfg: Config, s: State, key: string, from: int, l1: nat, l2: nat)
    requires Inv(cfg, s)
    requires forall a :: a in s.log && AdmittedInSpan(key, cfg.limits(key), from, cfg.window)(a) ==>
      a.life == l1 || a.life == l2
    ensures CountIf(s.log, AdmittedInSpan(key, cfg.limits(key), from, cfg.window)) <= 2 * Max(0, cfg.limits(key))
  {
    var limit := cfg.limits(key);
    RankedLifeAdmits(s.log, l1, limit);
    RankedLifeAdmits(s.log, l2, limit);
    var inSpan := AdmittedInSpan(key, limit, from, cfg.window);
    CountBySum(s.log, inSpan, AdmittedInLife(l1, limit), AdmittedInLife(l2, limit));
  }

  // Any half-open span of window_seconds admits at most twice the limit.
  lemma {:induction false} SpanAdmitsAtMostTwice(cfg: Config, now: int, requests: seq<seq<string>>,
      trace: seq<Label>, key: string, from: int)
    requires cfg.window > 0 && Run(cfg, Init(now, requests), trace).Some?
    ensures var s := Run(cfg, Init(now, requests), trace).value;
      CountIf(s.log, AdmittedInSpan(key, cfg.limits(key), from, cfg.window)) <= 2 * Max(0, cfg.limits(key))
  {
    ReachableInv(cfg, now, requests, trace);
    var s := Run(cfg, Init(now, requests), trace).value;
    var p := AdmittedInSpan(key, cfg.limits(key), from, cfg.window);
    if a :| a in s.log && p(a) {
      if b :| b in s.log && p(b) && b.life != a.life {
        forall c | c in s.log && p(c) ensures c.life == a.life || c.life == b.life {
          SpanMeetsTwoLives(cfg, s, from, a, b, c);
        }
        SpanWithinLives(cfg, s, key, from, a.life, b.life);
      } else {
        SpanWithinLives(cfg, s, key, from, a.life, a.life);
      }
    } else {
      CountNone(s.log, p);
    }
  }

  // -- Retry-After ----------------------------------------------------------

  ghost predicate LivesKept(s: State, s': State) {
    && s.now <= s'.now && |s.lives| <= |s'.lives|
    && forall n :: 0 <= n < |s.lives| ==>
         && s'.lives[n].key == s.lives[n].key
         && (s.lives[n].expiry.Some? ==> s'.lives[n].expiry == s.lives[n].expiry)
         && (!IsCurrent(s, s.lives[n].key, n) ==> !IsCurrent(s', s.lives[n].key, n))
  }

  lemma {:induction false} TickKeepsLives(s: State)
    ensures LivesKept(s, DoTick(s))
  {
  }

  lemma {:induction false} IncrKeepsLives(cfg: Config, s: State, i: nat)
    requires i < |s.requests| && Running(s.requests[i])
    ensures LivesKept(s, DoIncr(cfg, s, i))
  {
    var s', mine := DoIncr(cfg, s, i), KeyOf(s.requests[i]);
    forall n | 0 <= n < |s.lives|
      ensures s'.lives[n] == s.lives[n]
      ensures IsCurrent(s', s.lives[n].key, n) ==> IsCurrent(s, s.lives[n].key, n)
    {
    }
  }

  lemma {:induction false} ExpireKeepsLives(cfg: Config, s: State, i: nat)
    requires StoreInv(s) && PendingInv(s) && Pending(s, i)
    ensures LivesKept(s, DoExpire(cfg, s, i))
  {
    var s', mine := DoExpire(cfg, s, i), KeyOf(s.requests[i]);
    assert s.lives[s.current[mine]].expiry == None;
    forall n | 0 <= n < |s.lives|
      ensures s'.lives[n].key == s.lives[n].key && (n != s.current[mine] ==> s'.lives[n] == s.lives[n])
    {
    }
  }

  lemma {:induction false} StepKeepsLives(cfg: Config, s: State, l: Label)
    requires Inv(cfg, s) && Enabled(s, l)
    ensures LivesKept(s, Next(cfg, s, l))
  {
    match l
    case Tick => TickKeepsLives(s);
    case Move(i) =>
      match s.requests[i].pc
      case AtIncr => IncrKeepsLives(cfg, s, i);
      case AtExpire(_) => ExpireKeepsLives(cfg, s, i);
      case _ =>
  }

  // Once set, the end of a lifetime never moves, and an ended lifetime never
  // becomes current again, whatever arrives later.
  lemma {:induction false} RunKeepsLives(cfg: Config, s: State, trace: seq<Label>)
    requires Inv(cfg, s) && cfg.window > 0 && Run(cfg, s, trace).Some?
    ensures LivesKept(s, Run(cfg, s, trace).value)
  {
    if trace != [] {
      var n := |trace| - 1;
      RunKeepsLives(cfg, s, trace[..n]);
      RunInv(cfg, s, trace[..n]);
      StepKeepsLives(cfg, Run(cfg, s, trace[..n]).value, trace[n]);
    }
  }

  ghost predicate WaitedOut(cfg: Config, s: State, key: string, trace: seq<Label>) {
    Run(cfg, s, trace).Some? && Run(cfg, s, trace).value.now >= s.now + Retry(s, key)
  }

  // A client that reads its Retry-After in state s and waits it out is sure to
  // meet a new lifetime, or none, exactly when the lifetime that rejected it
  // already had its TTL in s or had already ended.
  lemma {:induction false} RetryAfterIsExact(cfg: Config, s: State, life: nat)
    requires Inv(cfg, s) && cfg.window > 0 && life < |s.lives|
    ensures var key := s.lives[life].key;
      (IsCurrent(s, key, life) ==> Ttl(s.store, s.now, key) != -1) <==>
      forall trace :: WaitedOut(cfg, s, key, trace) ==> !IsCurrent(Run(cfg, s, trace).value, key, life)
  {
    var key := s.lives[life].key;
    if IsCurrent(s, key, life) && s.store[key].expiry == None {
      var trace := [Tick];
      assert trace[..0] == [];
      assert Run(cfg, s, trace) == Some(DoTick(s));
      assert WaitedOut(cfg, s, key, trace) && IsCurrent(DoTick(s), key, life);
    } else {
      forall trace | WaitedOut(cfg, s, key, trace) ensures !IsCurrent(Run(cfg, s, trace).value, key, life) {
        RunKeepsLives(cfg, s, trace);
        RunInv(cfg, s, trace);
      }
    }
  }

  // The gap is reachable.  Two clients share a counter whose limit is one; the
  // second asks between the first one's INCR and EXPIRE, is told to wait one
  // second, and a second later is still in the same lifetime.
  lemma {:induction false} GapAnswersOneSecond(now: int, key: string, window: nat)
    requires window > 0
    ensures var cfg, start := Config(_ => 1, window), Init(now, [[key], [key]]);
      var end, later := Run(cfg, start, [Move(0), Move(1)]), Run(cfg, start, [Move(0), Move(1), Move(1), Tick]);
      && end.Some? && |end.value.requests| == 2 && end.value.requests[1].pc == AtTtl
      && Ttl(end.value.store, now, key) == -1
      && later.Some? && |later.value.requests| == 2 && later.value.requests[1].pc == Blocked(1)
      && later.value.now == now + 1 && IsCurrent(end.value, key, 0) && IsCurrent(later.value, key, 0)
  {
    var cfg, start := Config(_ => 1, window), Init(now, [[key], [key]]);
    var one := Next(cfg, start, Move(0));
    RunStep(cfg, start, [], Move(0));
    assert [] + [Move(0)] == [Move(0)];
    var two := Next(cfg, one, Move(1));
    RunStep(cfg, start, [Move(0)], Move(1));
    assert [Move(0)] + [Move(1)] == [Move(0), Move(1)];
    var three := Next(cfg, two, Move(1));
    RunStep(cfg, start, [Move(0), Move(1)], Move(1));
    assert [Move(0), Move(1)] + [Move(1)] == [Move(0), Move(1), Move(1)];
    RunStep(cfg, start, [Move(0), Move(1), Move(1)], Tick);
    assert [Move(0), Move(1), Move(1)] + [Tick] == [Move(0), Move(1), Move(1), Tick];
  }

  lemma {:induction false} RunStep(cfg: Config, s: State, trace: seq<Label>, l: Label)
    requires var mid := Run(cfg, s, trace); mid.Some? && Enabled(mid.value, l)
    ensures Run(cfg, s, trace + [l]) == Some(Next(cfg, Run(cfg, s, trace).value, l))
  {
    assert (trace + [l])[..|trace|] == trace;
  }

  // -- Requests and their checks --------------------------------------------

  predicate Counted(r: Request, check: nat) {
    check < |r.keys| && (check < r.check || (check == r.check && !r.pc.AtIncr?))
  }

  ghost predicate RequestOk(keys: seq<string>, s: State, r: Request) {
    && r.keys == keys
    && (if keys == [] then r.pc.Passed? else r.check < |keys|)
    && (r.pc.Passed? && keys != [] ==> r.check == |keys| - 1)
    && (Running(r) && !r.pc.AtIncr? ==> r.life < |s.lives| && s.lives[r.life].key == KeyOf(r))
  }

  ghost predicate RequestsKept(requests: seq<seq<string>>, s: State) {
    |s.requests| == |requests| && forall i :: 0 <= i < |requests| ==> RequestOk(requests[i], s, s.requests[i])
  }

  // An arrival is the one INCR of a counted check, and it was admitted if the
  // request went on after it.
  ghost predicate ArrivalOk(cfg: Config, s: State, a: Arrival) {
    && a.who < |s.requests|
    && var r := s.requests[a.who];
    && Counted(r, a.check) && a.key == r.keys[a.check]
    && (a.check < r.check || r.pc.Passed? ==> a.value <= cfg.limits(a.key))
    && (a.check == r.check && (r.pc.AtTtl? || r.pc.Blocked?) ==> a.value > cfg.limits(a.key))
    && (a.check == r.check && r.pc.AtExpire? ==> a.value == r.pc.current)
  }

  ghost predicate ArrivalsOk(cfg: Config, s: State) {
    && (forall n :: 0 <= n < |s.log| ==> ArrivalOk(cfg, s, s.log[n]))
    && (forall m, n :: 0 <= m < n < |s.log| ==> s.log[m].who != s.log[n].who || s.log[m].check != s.log[n].check)
  }

  predicate IsArrival(s: State, n: int, who: nat, check: nat) {
    0 <= n < |s.log| && s.log[n].who == who && s.log[n].check == check
  }

  ghost predicate CountsLogged(s: State) {
    forall i: nat, check: nat :: i < |s.requests| && Counted(s.requests[i], check) ==>
      exists n :: IsArrival(s, n, i, check)
  }

  ghost predicate ReqInv(cfg: Config, requests: seq<seq<string>>, s: State) {
    RequestsKept(requests, s) && ArrivalsOk(cfg, s) && CountsLogged(s)
  }

  lemma {:induction false} DecidedRequestOk(cfg: Config, keys: seq<string>, s: State, r: Request, value: nat)
    requires r.keys == keys && r.check < |keys| && r.life < |s.lives| && s.lives[r.life].key == KeyOf(r)
    ensures RequestOk(keys, s, Decide(cfg, r, value))
  {
  }

  lemma {:induction false} CountedRequestOk(cfg: Config, keys: seq<string>, s: State, i: nat)
    requires StoreInv(s) && i < |s.requests| && Running(s.requests[i]) && RequestOk(keys, s, s.requests[i])
    ensures RequestOk(keys, DoIncr(cfg, s, i), DoIncr(cfg, s, i).requests[i])
  {
    var s', r := DoIncr(cfg, s, i), s.requests[i];
    var life := s'.current[KeyOf(r)];
    assert life < |s'.lives| && s'.lives[life].key == KeyOf(r);
    if s'.requests[i].pc != AtExpire(1) {
      DecidedRequestOk(cfg, keys, s', r.(life := life), s'.store[KeyOf(r)].value);
    }
  }

  lemma {:induction false} TimedRequestOk(cfg: Config, keys: seq<string>, s: State, i: nat)
    requires StoreInv(s) && PendingInv(s) && Pending(s, i) && RequestOk(keys, s, s.requests[i])
    ensures RequestOk(keys, DoExpire(cfg, s, i), DoExpire(cfg, s, i).requests[i])
  {
    var s', r := DoExpire(cfg, s, i), s.requests[i];
    assert s'.lives[r.life].key == s.lives[r.life].key;
    DecidedRequestOk(cfg, keys, s', r, r.pc.current);
  }

  lemma {:induction false} MovedRequestOk(cfg: Config, keys: seq<string>, s: State, i: nat)
    requires StoreInv(s) && PendingInv(s) && Enabled(s, Move(i)) && RequestOk(keys, s, s.requests[i])
    ensures RequestOk(keys, Next(cfg, s, Move(i)), Next(cfg, s, Move(i)).requests[i])
  {
    match s.requests[i].pc
    case AtIncr => CountedRequestOk(cfg, keys, s, i);
    case AtExpire(_) => TimedRequestOk(cfg, keys, s, i);
    case _ =>
  }

  lemma {:induction false} RequestsKeptStep(cfg: Config, requests: seq<seq<string>>, s: State, l: Label)
    requires Inv(cfg, s) && RequestsKept(requests, s) && Enabled(s, l)
    ensures RequestsKept(requests, Next(cfg, s, l))
  {
    var s' := Next(cfg, s, l);
    StepKeepsLives(cfg, s, l);
    forall i | 0 <= i < |requests| ensures RequestOk(requests[i], s', s'.requests[i]) {
      if l == Move(i) {
        MovedRequestOk(cfg, requests[i], s, i);
      } else {
        assert s'.requests[i] == s.requests[i];
      }
    }
  }

  lemma {:induction false} OldArrivalOk(cfg: Config, s: State, l: Label, a: Arrival)
    requires ArrivalOk(cfg, s, a) && Enabled(s, l)
    ensures ArrivalOk(cfg, Next(cfg, s, l), a)
  {
    if l == Move(a.who) {
      var r, r' := s.requests[a.who], Next(cfg, s, l).requests[a.who];
      assert r'.keys == r.keys && r.check <= r'.check;
    } else {
      assert Next(cfg, s, l).requests[a.who] == s.requests[a.who];
    }
  }

  lemma {:induction false} NewArrivalOk(cfg: Config, s: State, i: nat)
    requires ArrivalsOk(cfg, s) && i < |s.requests| && Running(s.requests[i]) && s.requests[i].pc.AtIncr?
    ensures var s' := DoIncr(cfg, s, i);
      && ArrivalOk(cfg, s', s'.log[|s.log|])
      && forall m :: 0 <= m < |s.log| ==> s.log[m].who != i || s.log[m].check != s.requests[i].check
  {
    forall m | 0 <= m < |s.log| ensures s.log[m].who != i || s.log[m].check != s.requests[i].check {
      assert ArrivalOk(cfg, s, s.log[m]);
    }
  }

  lemma {:induction false} ArrivalsOkStep(cfg: Config, s: State, l: Label)
    requires ArrivalsOk(cfg, s) && Enabled(s, l)
    ensures ArrivalsOk(cfg, Next(cfg, s, l))
  {
    var s' := Next(cfg, s, l);
    if l.Move? && s.requests[l.who].pc.AtIncr? { NewArrivalOk(cfg, s, l.who); }
    forall n | 0 <= n < |s.log| ensures s'.log[n] == s.log[n] && ArrivalOk(cfg, s', s.log[n]) {
      OldArrivalOk(cfg, s, l, s.log[n]);
    }
  }

  lemma {:induction false} CountsLoggedStep(cfg: Config, s: State, l: Label)
    requires CountsLogged(s) && Enabled(s, l)
    ensures CountsLogged(Next(cfg, s, l))
  {
    var s' := Next(cfg, s, l);
    forall i: nat, check: nat | i < |s'.requests| && Counted(s'.requests[i], check)
      ensures exists n :: IsArrival(s', n, i, check)
    {
      if Counted(s.requests[i], check) {
        var n :| IsArrival(s, n, i, check);
        assert IsArrival(s', n, i, check);
      } else {
        assert IsArrival(s', |s.log|, i, check);
      }
    }
  }

  lemma {:induction false} RunReqInv(cfg: Config, now: int, requests: seq<seq<string>>, trace: seq<Label>)
    requires cfg.window > 0 && Run(cfg, Init(now, requests), trace).Some?
    ensures ReqInv(cfg, requests, Run(cfg, Init(now, requests), trace).value)
  {
    if trace != [] {
      var n := |trace| - 1;
      var mid := Run(cfg, Init(now, requests), trace[..n]).value;
      RunReqInv(cfg, now, requests, trace[..n]);
      ReachableInv(cfg, now, requests, trace[..n]);
      RequestsKeptStep(cfg, requests, mid, trace[n]);
      ArrivalsOkStep(cfg, mid, trace[n]);
      CountsLoggedStep(cfg, mid, trace[n]);
    }
  }

  ghost predicate AdmittedAt(cfg: Config, s: State, who: nat, check: nat) {
    exists n :: IsArrival(s, n, who, check) && s.log[n].value <= cfg.limits(s.log[n].key)
  }

  // A finished request passed exactly when every one of its counters admitted
  // it; a blocked one was refused by its last counter and touched none after it.
  lemma {:induction false} PassesExactlyWhenAllAdmit(cfg: Config, now: int, requests: seq<seq<string>>,
      trace: seq<Label>, i: nat)
    requires cfg.window > 0 && Run(cfg, Init(now, requests), trace).Some? && i < |requests|
    ensures var s := Run(cfg, Init(now, requests), trace).value;
      && |s.requests| == |requests|
      && var r := s.requests[i];
         (r.pc.Passed? || r.pc.Blocked?) ==>
           && (r.pc.Passed? <==> forall check: nat :: check < |requests[i]| ==> AdmittedAt(cfg, s, i, check))
           && (r.pc.Blocked? ==> !AdmittedAt(cfg, s, i, r.check))
           && (r.pc.Blocked? ==> forall n, check: nat :: IsArrival(s, n, i, check) ==> check <= r.check)
  {
    RunReqInv(cfg, now, requests, trace);
    var s := Run(cfg, Init(now, requests), trace).value;
    var r := s.requests[i];
    if r.pc.Passed? {
      forall check: nat | check < |r.keys| ensures AdmittedAt(cfg, s, i, check) {
        assert Counted(r, check);
        var n :| IsArrival(s, n, i, check);
        assert ArrivalOk(cfg, s, s.log[n]);
      }
    }
    if r.pc.Blocked? {
      forall n, check: nat | IsArrival(s, n, i, check)
        ensures check <= r.check && (check == r.check ==> s.log[n].value > cfg.limits(s.log[n].key))
      {
        assert ArrivalOk(cfg, s, s.log[n]);
      }
      assert RequestOk(requests[i], s, r) && !AdmittedAt(cfg, s, i, r.check);
    }
  }

  // A rejected request, in the state in which it reads its TTL: the seconds it
  // is told to wait are within the window, and exact as above.
  lemma {:induction false} RejectedClientWaits(cfg: Config, now: int, requests: seq<seq<string>>,
      trace: seq<Label>, i: nat)
    requires cfg.window > 0 && Run(cfg, Init(now, requests), trace).Some? && i < |requests|
    requires var s := Run(cfg, Init(now, requests), trace).value;
      i < |s.requests| && Running(s.requests[i]) && s.requests[i].pc.AtTtl?
    ensures var s := Run(cfg, Init(now, requests), trace).value;
      var key, life := KeyOf(s.requests[i]), s.requests[i].life;
      && DoTtl(s, i).requests[i].pc == Blocked(Retry(s, key)) && 1 <= Retry(s, key) <= cfg.window
      && ((IsCurrent(s, key, life) ==> Ttl(s.store, s.now, key) != -1) <==>
          forall later :: WaitedOut(cfg, s, key, later) ==> !IsCurrent(Run(cfg, s, later).value, key, life))
  {
    RunReqInv(cfg, now, requests, trace);
    ReachableInv(cfg, now, requests, trace);
    var s := Run(cfg, Init(now, requests), trace).value;
    RetryAfterIsExact(cfg, s, s.requests[i].life);
  }

  // -- One subject's share of its tenant's quota ----------------------------

  function IpKey(ip: string): string { "ratelimit:ip:" + ip }
  function UserKey(subject: string): string { "ratelimit:user:" + subject }
  function TenantKey(tenant: string): string { "ratelimit:tenant:" + tenant }

  // The three families of counters never share a key.
  lemma {:induction false} KeysAreDisjoint(a: string, b: string)
    ensures UserKey(a) != TenantKey(b) && UserKey(a) != IpKey(b) && TenantKey(a) != IpKey(b)
    ensures UserKey(a) == UserKey(b) ==> a == b
    ensures TenantKey(a) == TenantKey(b) ==> a == b
  {
    assert UserKey(a)[10] == 'u' && TenantKey(b)[10] == 't' && IpKey(b)[10] == 'i' && TenantKey(a)[10] == 't';
    assert UserKey(a)[15..] == a && UserKey(b)[15..] == b;
    assert TenantKey(a)[17..] == a && TenantKey(b)[17..] == b;
  }

  predicate BySubject(requests: seq<seq<string>>, subject: string, a: Arrival) {
    a.who < |requests| && |requests[a.who]| == 2 && requests[a.who][0] == UserKey(subject)
  }

  // The INCRs of tenant counters, within the span, by requests of one subject.
  function TenantCharge(requests: seq<seq<string>>, subject: string, from: int, window: nat): Arrival -> bool {
    (a: Arrival) => a.check == 1 && BySubject(requests, subject, a) && from <= a.at < from + window
  }

  // The user check and the tenant check of one of the subject's requests.
  predicate ChecksOfOne(requests: seq<seq<string>>, subject: string, a: Arrival, b: Arrival) {
    BySubject(requests, subject, b) && a.who == b.who && a.check == 0 && b.check == 1
  }

  // Each of the subject's requests makes its two checks in one tick.
  ghost predicate ChecksInOneTick(requests: seq<seq<string>>, subject: string, log: seq<Arrival>) {
    forall m, n :: 0 <= m < |log| && 0 <= n < |log| && ChecksOfOne(requests, subject, log[m], log[n]) ==>
      log[m].at == log[n].at
  }

  ghost predicate AdmittedUserArrival(cfg: Config, s: State, n: nat, m: nat) {
    n < |s.log| && IsArrival(s, m, s.log[n].who, 0) && s.log[m].value <= cfg.limits(s.log[m].key)
  }

  lemma {:induction false} TenantChargeFollowsUserCheck(cfg: Config, requests: seq<seq<string>>, s: State, n: nat)
    requires ReqInv(cfg, requests, s) && n < |s.log| && s.log[n].check == 1
    ensures exists m: nat :: AdmittedUserArrival(cfg, s, n, m)
  {
    assert ArrivalOk(cfg, s, s.log[n]);
    assert Counted(s.requests[s.log[n].who], 0);
    var m: nat :| IsArrival(s, m, s.log[n].who, 0);
    assert ArrivalOk(cfg, s, s.log[m]);
    assert AdmittedUserArrival(cfg, s, n, m);
  }

  // An admitted user check for each counted tenant check.
  lemma {:induction false} UserArrivals(cfg: Config, requests: seq<seq<string>>, s: State)
      returns (userArrival: map<nat, nat>)
    requires ReqInv(cfg, requests, s)
    ensures forall n: nat :: n < |s.log| && s.log[n].check == 1 ==>
      n in userArrival && AdmittedUserArrival(cfg, s, n, userArrival[n])
  {
    userArrival := map[];
    for k := 0 to |s.log|
      invariant forall n: nat :: n < k && s.log[n].check == 1 ==>
        n in userArrival && AdmittedUserArrival(cfg, s, n, userArrival[n])
    {
      if s.log[k].check == 1 {
        TenantChargeFollowsUserCheck(cfg, requests, s, k);
        var m: nat :| AdmittedUserArrival(cfg, s, k, m);
        userArrival := userArrival[k := m];
      }
    }
  }

  lemma {:induction false} ChargeIsAdmitted(cfg: Config, requests: seq<seq<string>>, s: State, subject: string,
      from: int, n: nat, m: nat)
    requires ReqInv(cfg, requests, s) && ChecksInOneTick(requests, subject, s.log)
    requires AdmittedUserArrival(cfg, s, n, m)
    requires TenantCharge(requests, subject, from, cfg.window)(s.log[n])
    ensures AdmittedInSpan(UserKey(subject), cfg.limits(UserKey(subject)), from, cfg.window)(s.log[m])
  {
    assert ArrivalOk(cfg, s, s.log[m]);
    assert RequestOk(requests[s.log[m].who], s, s.requests[s.log[m].who]);
  }

  lemma {:induction false} TenantChargesBounded(cfg: Config, requests: seq<seq<string>>, s: State,
      subject: string, from: int)
    requires ReqInv(cfg, requests, s) && ChecksInOneTick(requests, subject, s.log)
    ensures var key := UserKey(subject);
      CountIf(s.log, TenantCharge(requests, subject, from, cfg.window))
        <= CountIf(s.log, AdmittedInSpan(key, cfg.limits(key), from, cfg.window))
  {
    var p := TenantCharge(requests, subject, from, cfg.window);
    var q := AdmittedInSpan(UserKey(subject), cfg.limits(UserKey(subject)), from, cfg.window);
    var userArrival := UserArrivals(cfg, requests, s);
    forall n | 0 <= n < |s.log| && p(s.log[n])
      ensures n in userArrival && userArrival[n] < |s.log| && q(s.log[userArrival[n]])
      ensures s.log[userArrival[n]].who == s.log[n].who
    {
      ChargeIsAdmitted(cfg, requests, s, subject, from, n, userArrival[n]);
    }
    CountByMatching(s.log, p, q, userArrival);
  }

  // However many requests it sends, in any span of one window a subject uses
  // at most twice the per-user limit of its tenant's counters, provided each
  // of its own requests makes both checks in one tick.
  lemma {:induction false} SubjectShareIsBounded(cfg: Config, now: int, requests: seq<seq<string>>,
      trace: seq<Label>, subject: string, from: int)
    requires cfg.window > 0 && Run(cfg, Init(now, requests), trace).Some?
    requires ChecksInOneTick(requests, subject, Run(cfg, Init(now, requests), trace).value.log)
    ensures CountIf(Run(cfg, Init(now, requests), trace).value.log, TenantCharge(requests, subject, from, cfg.window))
      <= 2 * Max(0, cfg.limits(UserKey(subject)))
  {
    RunReqInv(cfg, now, requests, trace);
    TenantChargesBounded(cfg, requests, Run(cfg, Init(now, requests), trace).value, subject, from);
    SpanAdmitsAtMostTwice(cfg, now, requests, trace, UserKey(subject), from);
  }
}
