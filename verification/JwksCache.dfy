/**
 The signing-key cache.  First the methods as one caller runs them; then any
 number of verifications whose fetches overlap and finish in any order while
 the provider rotates its keys.  Time is the monotonic clock in seconds.
 */
module JwksCache {
  import opened Options

  datatype Jwk = Jwk(kid: Option<string>, material: string)
  type KeySet = seq<Jwk>

  datatype Entry = Entry(stamp: real, keys: KeySet)

  const TtlSeconds: real := 300.0

  predicate Usable(cached: Option<Entry>, now: real, force: bool) {
    !force && cached.Some? && now - cached.value.stamp < TtlSeconds
  }

  // The first key with the token's key id; a token without one matches a key
  // without one.
  function FirstKey(keys: KeySet, kid: Option<string>): (r: Option<Jwk>)
    ensures r.Some? ==> exists i :: IsFirst(keys, kid, r.value, i)
    ensures r == None <==> !HasKey(keys, kid)
  {
    if keys == [] then None
    else if keys[0].kid == kid then
      assert IsFirst(keys, kid, keys[0], 0);
      Some(keys[0])
    else
      assert keys == [keys[0]] + keys[1..];
      var r := FirstKey(keys[1..], kid);
      assert forall i {:trigger IsFirst(keys[1..], kid, r.value, i)} ::
        r.Some? && IsFirst(keys[1..], kid, r.value, i) ==> IsFirst(keys, kid, r.value, i + 1);
      r
  }

  ghost predicate IsFirst(keys: KeySet, kid: Option<string>, key: Jwk, i: int) {
    0 <= i < |keys| && keys[i] == key && key.kid == kid && forall j :: 0 <= j < i ==> keys[j].kid != kid
  }

  ghost predicate HasKey(keys: KeySet, kid: Option<string>) {
    exists k :: k in keys && k.kid == kid
  }

  datatype Outcome = Found(key: Jwk) | UnknownSigningKey | ProviderUnreachable

  // -- One caller -----------------------------------------------------------

  // What one request for the key set returns, and the entry it leaves.  fetched
  // is the provider's answer should it be asked, None an HTTP error.
  function Lookup(cached: Option<Entry>, now: real, fetched: Option<KeySet>, force: bool)
      : (Option<KeySet>, Option<Entry>) {
    if Usable(cached, now, force) then (Some(cached.value.keys), cached)
    else
      match fetched
      case Some(keys) => (Some(keys), Some(Entry(now, keys)))
      case None => (if cached.Some? then Some(cached.value.keys) else None, cached)
  }

  datatype Verification = Verification(outcome: Outcome, entry: Option<Entry>)

  // The key lookup of one token: refresh once before giving up.
  function Verify(cached: Option<Entry>, kid: Option<string>, now: real, first: Option<KeySet>, later: real,
      second: Option<KeySet>): Verification {
    match Lookup(cached, now, first, false)
    case (None, entry) => Verification(ProviderUnreachable, entry)
    case (Some(keys), entry) =>
      match FirstKey(keys, kid)
      case Some(key) => Verification(Found(key), entry)
      case None =>
        match Lookup(entry, later, second, true)
        case (None, last) => Verification(ProviderUnreachable, last)
        case (Some(again), last) =>
          var key := FirstKey(again, kid);
          Verification(if key.Some? then Found(key.value) else UnknownSigningKey, last)
  }

  ghost predicate FoundIn(keys: KeySet, kid: Option<string>, outcome: Outcome) {
    outcome.Found? && exists i :: IsFirst(keys, kid, outcome.key, i)
  }

  // A key in the first set is used without asking again.  Otherwise the refresh
  // decides, and its set is the second answer, or the first set if that
  // fetch fails.  The provider counts as unreachable only when nothing was
  // cached and the first fetch failed.
  lemma {:induction false} VerifyDecides(cached: Option<Entry>, kid: Option<string>, now: real,
      first: Option<KeySet>, later: real, second: Option<KeySet>)
    ensures var v, (keys, entry) := Verify(cached, kid, now, first, later, second), Lookup(cached, now, first, false);
      && (v.outcome == ProviderUnreachable <==> keys == None)
      && (keys == None <==> cached == None && first == None)
      && (keys.Some? && HasKey(keys.value, kid) ==> FoundIn(keys.value, kid, v.outcome) && v.entry == entry)
      && (keys.Some? && !HasKey(keys.value, kid) && second == None ==>
            v.outcome == UnknownSigningKey && v.entry == entry)
      && (keys.Some? && !HasKey(keys.value, kid) && second.Some? ==>
            && v.entry == Some(Entry(later, second.value))
            && (HasKey(second.value, kid) ==> FoundIn(second.value, kid, v.outcome))
            && (!HasKey(second.value, kid) ==> v.outcome == UnknownSigningKey))
  {
  }

  class Cache {
    var entries: map<string, Entry>

    constructor ()
      ensures entries == map[]
    {
      entries := map[];
    }

    function Cached(uri: string): Option<Entry>
      reads this
    {
      if uri in entries then Some(entries[uri]) else None
    }

    method GetJwks(uri: string, now: real, fetched: Option<KeySet>, forceRefresh: bool := false)
        returns (keys: Option<KeySet>)
      modifies this
      ensures (keys, Cached(uri)) == Lookup(old(Cached(uri)), now, fetched, forceRefresh)
      ensures !forceRefresh && uri in old(entries) && now - old(entries)[uri].stamp < 300.0 ==>
        keys == Some(old(entries)[uri].keys) && entries == old(entries)
      ensures forceRefresh || uri !in old(entries) || now - old(entries)[uri].stamp >= 300.0 ==>
        if fetched.Some? then keys == fetched && entries == old(entries)[uri := Entry(now, fetched.value)]
        else entries == old(entries) && keys == if uri in old(entries) then Some(old(entries)[uri].keys) else None
      ensures entries - {uri} == old(entries) - {uri}
    {
      if !forceRefresh && uri in entries && now - entries[uri].stamp < TtlSeconds {
        return Some(entries[uri].keys);
      }
      if fetched == None {
        return if uri in entries then Some(entries[uri].keys) else None;
      }
      entries := entries[uri := Entry(now, fetched.value)];
      return fetched;
    }

    method SigningKey(uri: string, kid: Option<string>, now: real, first: Option<KeySet>, later: real,
        second: Option<KeySet>)
        returns (outcome: Outcome)
      modifies this
      ensures Verification(outcome, Cached(uri)) == Verify(old(Cached(uri)), kid, now, first, later, second)
      ensures entries - {uri} == old(entries) - {uri}
    {
      var keys := GetJwks(uri, now, first);
      if keys == None {
        return ProviderUnreachable;
      }
      var key := FirstKey(keys.value, kid);
      if key == None {
        keys := GetJwks(uri, later, second, true);
        if keys == None {
          return ProviderUnreachable;
        }
        key := FirstKey(keys.value, kid);
      }
      outcome := if key.Some? then Found(key.value) else UnknownSigningKey;
    }
  }

  // -- Overlapping callers --------------------------------------------------

  datatype Answer = Answer(at: real, keys: KeySet)

  datatype Pc =
    | Start
    | Fetching(forced: bool, calledAt: real, cached: Option<Entry>, answer: Option<Answer>)
    | NeedRefresh
    | Done(outcome: Outcome)

  datatype Caller = Caller(kid: Option<string>, pc: Pc, fetches: nat)

  datatype Source = FromCache | OwnFetch | StaleAfterFailure

  // One return of _get_jwks, kept for the record only.
  datatype Return = Return(who: nat, forced: bool, calledAt: real, at: real, keys: KeySet, source: Source)

  datatype State = State(now: real, cache: Option<Entry>, callers: seq<Caller>, log: seq<Return>)

  datatype Label =
    | Advance(dt: real)      // time passes
    | Call(who: nat)         // enter _get_jwks: answer from the cache or start a fetch
    | Serve(who: nat)        // the provider answers with the keys it has now
    | Finish(who: nat)       // the answer arrives: store it and return it
    | Fail(who: nat)         // the fetch raises an HTTP error

  function Init(now: real, kids: seq<Option<string>>): (s: State)
    ensures |s.callers| == |kids|
  {
    State(now, None, seq(|kids|, i requires 0 <= i < |kids| => Caller(kids[i], Start, 0)), [])
  }

  predicate Enabled(s: State, l: Label) {
    match l
    case Advance(dt) => dt >= 0.0
    case Call(i) => i < |s.callers| && (s.callers[i].pc.Start? || s.callers[i].pc.NeedRefresh?)
    case Serve(i) => i < |s.callers| && s.callers[i].pc.Fetching? && s.callers[i].pc.answer == None
    case Finish(i) => i < |s.callers| && s.callers[i].pc.Fetching? && s.callers[i].pc.answer.Some?
    case Fail(i) => i < |s.callers| && s.callers[i].pc.Fetching?
  }

  // Look the key up in a returned set; ask for a refresh once.
  function AfterReturn(kid: Option<string>, keys: KeySet, forced: bool): Pc {
    match FirstKey(keys, kid)
    case Some(k) => Done(Found(k))
    case None => if forced then Done(UnknownSigningKey) else NeedRefresh
  }

  function Returned(s: State, i: nat, forced: bool, calledAt: real, keys: KeySet, source: Source): State
    requires i < |s.callers|
  {
    var c := s.callers[i];
    s.(callers := s.callers[i := c.(pc := AfterReturn(c.kid, keys, forced))],
       log := s.log + [Return(i, forced, calledAt, s.now, keys, source)])
  }

  function SetPc(s: State, i: nat, pc: Pc): State
    requires i < |s.callers|
  {
    s.(callers := s.callers[i := s.callers[i].(pc := pc)])
  }

  function Next(provider: real -> KeySet, s: State, l: Label): State
    requires Enabled(s, l)
  {
    match l
    case Advance(dt) => s.(now := s.now + dt)
    case Call(i) =>
      var c := s.callers[i];
      var forced := c.pc.NeedRefresh?;
      if Usable(s.cache, s.now, forced) then Returned(s, i, forced, s.now, s.cache.value.keys, FromCache)
      else s.(callers := s.callers[i := c.(pc := Fetching(forced, s.now, s.cache, None), fetches := c.fetches + 1)])
    case Serve(i) =>
      SetPc(s, i, s.callers[i].pc.(answer := Some(Answer(s.now, provider(s.now)))))
    case Finish(i) =>
      var f := s.callers[i].pc;
      var keys := f.answer.value.keys;
      Returned(s.(cache := Some(Entry(f.calledAt, keys))), i, f.forced, f.calledAt, keys, OwnFetch)
    case Fail(i) =>
      var f := s.callers[i].pc;
      match f.cached
      case Some(e) => Returned(s, i, f.forced, f.calledAt, e.keys, StaleAfterFailure)
      case None => SetPc(s, i, Done(ProviderUnreachable))
  }

  function Run(provider: real -> KeySet, s: State, trace: seq<Label>): Option<State> {
    if trace == [] then Some(s)
    else
      match Run(provider, s, trace[..|trace| - 1])
      case None => None
      case Some(mid) =>
        if Enabled(mid, trace[|trace| - 1]) then Some(Next(provider, mid, trace[|trace| - 1])) else None
  }

  // How long the request of a fetch and its answer take, or when it fails.
  datatype Trip = Arrives(out: real, back: real) | Breaks(after: real)

  predicate Possible(trip: Trip) {
    match trip
    case Arrives(out, back) => out >= 0.0 && back >= 0.0
    case Breaks(after) => after >= 0.0
  }

  // What a fetch started now brings.
  function Fetched(provider: real -> KeySet, now: real, trip: Trip): Option<KeySet> {
    if trip.Arrives? then Some(provider(now + trip.out)) else None
  }

  // A call of one caller with nobody in between; trip is its fetch, if it makes one.
  function CallTrace(s: State, i: nat, trip: Trip): seq<Label>
    requires i < |s.callers|
  {
    if Usable(s.cache, s.now, s.callers[i].pc.NeedRefresh?) then [Call(i)]
    else
      match trip
      case Arrives(out, back) => [Call(i), Advance(out), Serve(i), Advance(back), Finish(i)]
      case Breaks(after) => [Call(i), Advance(after), Fail(i)]
  }

  lemma {:induction false} RunStep(provider: real -> KeySet, start: State, trace: seq<Label>, s: State, l: Label)
    requires Run(provider, start, trace) == Some(s) && Enabled(s, l)
    ensures Run(provider, start, trace + [l]) == Some(Next(provider, s, l))
  {
    assert (trace + [l])[..|trace|] == trace;
  }

  // The state while caller i waits for an answer.
  function Waiting(s: State, i: nat, elapsed: real, answer: Option<Answer>): State
    requires i < |s.callers|
  {
    var c := s.callers[i];
    s.(now := s.now + elapsed, callers := s.callers[i :=
      c.(pc := Fetching(c.pc.NeedRefresh?, s.now, s.cache, answer), fetches := c.fetches + 1)])
  }

  // Where a call leaves its caller.
  function AfterLookup(kid: Option<string>, keys: Option<KeySet>, forced: bool): Pc {
    if keys.Some? then AfterReturn(kid, keys.value, forced) else Done(ProviderUnreachable)
  }

  ghost predicate CallDone(provider: real -> KeySet, s: State, i: nat, trip: Trip, s': State) {
    && i < |s.callers| == |s'.callers| && s'.now >= s.now
    && var forced := s.callers[i].pc.NeedRefresh?;
    var (keys, entry) := Lookup(s.cache, s.now, Fetched(provider, s.now, trip), forced);
    && s'.cache == entry && s'.callers[i].kid == s.callers[i].kid
    && s'.callers[i].pc == AfterLookup(s.callers[i].kid, keys, forced)
  }

  // One call's steps taken in a row compute Lookup, however long its fetch takes:
  // the entry is stamped with the time of the call, not of the answer.
  lemma {:induction false} UninterruptedCall(provider: real -> KeySet, s: State, i: nat, trip: Trip)
    requires Enabled(s, Call(i)) && Possible(trip)
    ensures var end := Run(provider, s, CallTrace(s, i, trip));
      end.Some? && CallDone(provider, s, i, trip, end.value)
  {
    RunStep(provider, s, [], s, Call(i));
    assert [] + [Call(i)] == [Call(i)];
    if !Usable(s.cache, s.now, s.callers[i].pc.NeedRefresh?) {
      match trip
      case Arrives(out, back) => AnsweredCall(provider, s, i, out, back);
      case Breaks(after) =>
        RunStep(provider, s, [Call(i)], Waiting(s, i, 0.0, None), Advance(after));
        assert [Call(i)] + [Advance(after)] == [Call(i), Advance(after)];
        RunStep(provider, s, [Call(i), Advance(after)], Waiting(s, i, after, None), Fail(i));
        assert [Call(i), Advance(after)] + [Fail(i)] == CallTrace(s, i, trip);
    }
  }

  lemma {:induction false} AnsweredCall(provider: real -> KeySet, s: State, i: nat, out: real, back: real)
    requires Enabled(s, Call(i)) && out >= 0.0 && back >= 0.0
    requires !Usable(s.cache, s.now, s.callers[i].pc.NeedRefresh?)
    ensures var answer := Some(Answer(s.now + out, provider(s.now + out)));
      Run(provider, s, [Call(i), Advance(out), Serve(i), Advance(back), Finish(i)]) ==
        Some(Next(provider, Waiting(s, i, out + back, answer), Finish(i)))
  {
    var answer := Some(Answer(s.now + out, provider(s.now + out)));
    RunStep(provider, s, [], s, Call(i));
    assert [] + [Call(i)] == [Call(i)];
    RunStep(provider, s, [Call(i)], Waiting(s, i, 0.0, None), Advance(out));
    var two := [Call(i), Advance(out)];
    assert [Call(i)] + [Advance(out)] == two;
    RunStep(provider, s, two, Waiting(s, i, out, None), Serve(i));
    var three := [Call(i), Advance(out), Serve(i)];
    assert two + [Serve(i)] == three;
    assert Next(provider, Waiting(s, i, out, None), Serve(i)) == Waiting(s, i, out, answer);
    RunStep(provider, s, three, Waiting(s, i, out, answer), Advance(back));
    var four := [Call(i), Advance(out), Serve(i), Advance(back)];
    assert three + [Advance(back)] == four;
    assert Next(provider, Waiting(s, i, out, answer), Advance(back)) == Waiting(s, i, out + back, answer);
    RunStep(provider, s, four, Waiting(s, i, out + back, answer), Finish(i));
    assert four + [Finish(i)] == [Call(i), Advance(out), Serve(i), Advance(back), Finish(i)];
  }

  // Verify in terms of where each call leaves its caller.
  lemma {:induction false} VerifyByCalls(cached: Option<Entry>, kid: Option<string>, now: real,
      first: Option<KeySet>, later: real, second: Option<KeySet>)
    ensures var v, (keys, entry) := Verify(cached, kid, now, first, later, second), Lookup(cached, now, first, false);
      if AfterLookup(kid, keys, false) != NeedRefresh then
        AfterLookup(kid, keys, false) == Done(v.outcome) && v.entry == entry
      else
        var (again, last) := Lookup(entry, later, second, true);
        AfterLookup(kid, again, true) == Done(v.outcome) && v.entry == last
  {
  }

  // A token verified with nobody in between, and the wait before its refresh,
  // ends as the sequential methods do.
  lemma {:induction false} UninterruptedVerify(provider: real -> KeySet, s: State, i: nat, trip: Trip, wait: real,
      again: Trip)
    requires i < |s.callers| && s.callers[i].pc.Start? && wait >= 0.0 && Possible(trip) && Possible(again)
    ensures Run(provider, s, CallTrace(s, i, trip)).Some?
    ensures var mid := Run(provider, s, CallTrace(s, i, trip)).value;
      var later := mid.(now := mid.now + wait);
      var v := Verify(s.cache, s.callers[i].kid, s.now, Fetched(provider, s.now, trip),
        later.now, Fetched(provider, later.now, again));
      && |mid.callers| == |s.callers|
      && if !mid.callers[i].pc.NeedRefresh? then
           mid.callers[i].pc == Done(v.outcome) && mid.cache == v.entry
         else
           var end := Run(provider, later, CallTrace(later, i, again));
           && later == Next(provider, mid, Advance(wait)) && end.Some? && |end.value.callers| == |s.callers|
           && end.value.callers[i].pc == Done(v.outcome) && end.value.cache == v.entry
  {
    UninterruptedCall(provider, s, i, trip);
    var mid := Run(provider, s, CallTrace(s, i, trip)).value;
    var later := mid.(now := mid.now + wait);
    VerifyByCalls(s.cache, s.callers[i].kid, s.now, Fetched(provider, s.now, trip),
      later.now, Fetched(provider, later.now, again));
    if mid.callers[i].pc.NeedRefresh? {
      assert Next(provider, mid, Advance(wait)) == later;
      UninterruptedCall(provider, later, i, again);
    }
  }

  // A call is answered from the cache at once exactly when it is no refresh and
  // the entry is less than 300 seconds old; otherwise it starts a fetch.
  lemma {:induction false} CacheAnswersExactly(provider: real -> KeySet, s: State, i: nat)
    requires Enabled(s, Call(i))
    ensures var s', c := Next(provider, s, Call(i)), s.callers[i];
      && |s'.callers| == |s.callers| && s'.cache == s.cache
      && if c.pc == Start && s.cache.Some? && s.now - s.cache.value.stamp < 300.0 then
           && s'.log == s.log + [Return(i, false, s.now, s.now, s.cache.value.keys, FromCache)]
           && s'.callers[i] == c.(pc := AfterReturn(c.kid, s.cache.value.keys, false))
         else
           && s'.log == s.log
           && s'.callers[i] == Caller(c.kid, Fetching(c.pc == NeedRefresh, s.now, s.cache, None), c.fetches + 1)
  {
  }

  // keys is what the provider served at some time in [from, to].
  ghost predicate ServedWithin(provider: real -> KeySet, keys: KeySet, from: real, to: real) {
    exists t: real :: from <= t <= to && provider(t) == keys
  }

  // Like ServedWithin, with the start excluded.
  ghost predicate ServedAfter(provider: real -> KeySet, keys: KeySet, after: real, to: real) {
    exists t: real :: after < t <= to && provider(t) == keys
  }

  // A cached set was served no earlier than its stamp.
  ghost predicate EntryOk(provider: real -> KeySet, e: Entry, until: real) {
    ServedWithin(provider, e.keys, e.stamp, until)
  }

  ghost predicate CallerOk(provider: real -> KeySet, c: Caller, now: real) {
    match c.pc
    case Start => c.fetches == 0
    case Fetching(forced, calledAt, cached, answer) =>
      && calledAt <= now && 1 <= c.fetches <= (if forced then 2 else 1)
      && (cached.Some? ==> EntryOk(provider, cached.value, calledAt))
      && (answer.Some? ==> calledAt <= answer.value.at <= now && answer.value.keys == provider(answer.value.at))
    case NeedRefresh => c.fetches <= 1
    case Done(_) => c.fetches <= 2
  }

  ghost predicate ReturnOk(provider: real -> KeySet, r: Return) {
    match r.source
    case FromCache => !r.forced && ServedAfter(provider, r.keys, r.calledAt - TtlSeconds, r.at)
    case OwnFetch => ServedWithin(provider, r.keys, r.calledAt, r.at)
    case StaleAfterFailure => exists stamp: real :: ServedWithin(provider, r.keys, stamp, r.calledAt)
  }

  // A forced return settles its caller.
  ghost predicate Settled(s: State, r: Return) {
    && r.who < |s.callers|
    && (r.forced ==> s.callers[r.who].pc == AfterReturn(s.callers[r.who].kid, r.keys, true))
  }

  ghost predicate SettledAll(s: State) {
    && (forall n :: 0 <= n < |s.log| ==> Settled(s, s.log[n]))
    && (forall i :: 0 <= i < |s.callers| && s.callers[i].pc == Done(UnknownSigningKey) ==>
          exists n :: 0 <= n < |s.log| && s.log[n].who == i && s.log[n].forced)
  }

  ghost predicate Inv(provider: real -> KeySet, s: State) {
    && (s.cache.Some? ==> EntryOk(provider, s.cache.value, s.now))
    && (forall i :: 0 <= i < |s.callers| ==> CallerOk(provider, s.callers[i], s.now))
    && (forall n :: 0 <= n < |s.log| ==> ReturnOk(provider, s.log[n]))
    && SettledAll(s)
  }

  lemma {:induction false} WidenServed(provider: real -> KeySet, keys: KeySet, from: real, to: real, after: real,
      until: real)
    requires ServedWithin(provider, keys, from, to) && after < from && to <= until
    ensures ServedWithin(provider, keys, from, until) && ServedAfter(provider, keys, after, until)
  {
    var t: real :| from <= t <= to && provider(t) == keys;
  }

  lemma {:induction false} CacheOkStep(provider: real -> KeySet, s: State, l: Label)
    requires Inv(provider, s) && Enabled(s, l)
    ensures var s' := Next(provider, s, l);
      s'.cache.Some? ==> EntryOk(provider, s'.cache.value, s'.now)
  {
    var s' := Next(provider, s, l);
    if s.cache.Some? {
      WidenServed(provider, s.cache.value.keys, s.cache.value.stamp, s.now, s.cache.value.stamp - 1.0, s'.now);
    }
    if l.Finish? { assert CallerOk(provider, s.callers[l.who], s.now); }
  }

  lemma {:induction false} CallersOkStep(provider: real -> KeySet, s: State, l: Label, i: nat)
    requires Inv(provider, s) && Enabled(s, l) && i < |s.callers|
    ensures var s' := Next(provider, s, l); |s'.callers| == |s.callers| && CallerOk(provider, s'.callers[i], s'.now)
  {
    assert CallerOk(provider, s.callers[i], s.now);
  }

  lemma {:induction false} ReturnsOkStep(provider: real -> KeySet, s: State, l: Label, n: nat)
    requires Inv(provider, s) && Enabled(s, l)
    requires n < |Next(provider, s, l).log|
    ensures ReturnOk(provider, Next(provider, s, l).log[n])
  {
    if n == |s.log| {
      assert CallerOk(provider, s.callers[l.who], s.now);
      var r := Next(provider, s, l).log[n];
      if r.source.FromCache? {
        WidenServed(provider, r.keys, s.cache.value.stamp, s.now, s.now - TtlSeconds, s.now);
      }
    }
  }

  lemma {:induction false} SettledStep(provider: real -> KeySet, s: State, l: Label)
    requires Inv(provider, s) && Enabled(s, l)
    ensures SettledAll(Next(provider, s, l))
  {
    var s' := Next(provider, s, l);
    forall n | 0 <= n < |s'.log| ensures Settled(s', s'.log[n]) {
      if n < |s.log| { assert Settled(s, s.log[n]); }
    }
    forall i | 0 <= i < |s'.callers| && s'.callers[i].pc == Done(UnknownSigningKey)
      ensures exists n :: 0 <= n < |s'.log| && s'.log[n].who == i && s'.log[n].forced
    {
      if s.callers[i].pc == Done(UnknownSigningKey) {
        var n :| 0 <= n < |s.log| && s.log[n].who == i && s.log[n].forced;
        assert s'.log[n] == s.log[n];
      } else {
        assert s'.log[|s.log|].who == i && s'.log[|s.log|].forced;
      }
    }
  }

  lemma {:induction false} RunInv(provider: real -> KeySet, now: real, kids: seq<Option<string>>, trace: seq<Label>)
    requires Run(provider, Init(now, kids), trace).Some?
    ensures Inv(provider, Run(provider, Init(now, kids), trace).value)
  {
    if trace != [] {
      var n := |trace| - 1;
      RunInv(provider, now, kids, trace[..n]);
      var mid := Run(provider, Init(now, kids), trace[..n]).value;
      var s := Next(provider, mid, trace[n]);
      CacheOkStep(provider, mid, trace[n]);
      SettledStep(provider, mid, trace[n]);
      forall i | 0 <= i < |s.callers| ensures CallerOk(provider, s.callers[i], s.now) {
        CallersOkStep(provider, mid, trace[n], i);
      }
      forall k | 0 <= k < |s.log| ensures ReturnOk(provider, s.log[k]) {
        ReturnsOkStep(provider, mid, trace[n], k);
      }
    }
  }

  // Whatever overlaps, a returned key set was obtained from the provider
  // within the 300 seconds before the call, or during it, unless that call's
  // own fetch failed; then it is still a set the provider once served.
  lemma {:induction false} ReturnedKeysAreFresh(provider: real -> KeySet, now: real, kids: seq<Option<string>>,
      trace: seq<Label>, r: Return)
    requires Run(provider, Init(now, kids), trace).Some?
    requires r in Run(provider, Init(now, kids), trace).value.log
    ensures r.source != StaleAfterFailure ==> ServedAfter(provider, r.keys, r.calledAt - 300.0, r.at)
    ensures r.source == StaleAfterFailure ==> exists stamp: real :: ServedWithin(provider, r.keys, stamp, r.calledAt)
  {
    RunInv(provider, now, kids, trace);
    assert ReturnOk(provider, r);
    if r.source.OwnFetch? {
      WidenServed(provider, r.keys, r.calledAt, r.at, r.calledAt - TtlSeconds, r.at);
    }
  }

  // A verification fetches at most twice, and it is rejected for an unknown
  // key exactly when it made its one forced refresh and the set that refresh
  // returned lacks the token's key id.
  lemma {:induction false} UnknownKeyIsExact(provider: real -> KeySet, now: real, kids: seq<Option<string>>,
      trace: seq<Label>, i: nat)
    requires Run(provider, Init(now, kids), trace).Some?
    ensures var s := Run(provider, Init(now, kids), trace).value;
      i < |s.callers| ==>
        && s.callers[i].fetches <= 2
        && (s.callers[i].pc == Done(UnknownSigningKey) <==>
              exists r :: r in s.log && r.who == i && r.forced && !HasKey(r.keys, s.callers[i].kid))
        && (forall r :: r in s.log && r.who == i && r.forced && HasKey(r.keys, s.callers[i].kid) ==>
              s.callers[i].pc.Done? && s.callers[i].pc.outcome.Found? && s.callers[i].pc.outcome.key in r.keys)
  {
    RunInv(provider, now, kids, trace);
    var s := Run(provider, Init(now, kids), trace).value;
    if i < |s.callers| {
      assert CallerOk(provider, s.callers[i], s.now);
      forall r | r in s.log && r.who == i && r.forced
        ensures s.callers[i].pc == AfterReturn(s.callers[i].kid, r.keys, true)
      {
        assert Settled(s, r);
      }
      if s.callers[i].pc == Done(UnknownSigningKey) {
        var n :| 0 <= n < |s.log| && s.log[n].who == i && s.log[n].forced;
        assert s.log[n] in s.log;
      }
    }
  }
}
