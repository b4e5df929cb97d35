/** The limit a call is given: the limiter key of the middleware in
    pkg/ratelimit/ratelimit.go, and exactly when every call is given the limit configured
    for its own action. */
module Limits {
  import opened Bytes
  import opened RateLimit

  // ----- Keys -----

  /** The action a request is limited under, and its limiter key: account, colon, action. */
  function ActionFor(parts: seq<bytes>): (r: bytes)
    ensures r != []
  {
    if |parts| > 1 && parts[1] != [] then parts[1] else "unknown"
  }

  function KeyFor(account: bytes, action: bytes): bytes {
    account + [':'] + action
  }

  /** The key spelled out, for one, two and more key functions. */
  lemma MiddlewareKey(account: bytes, action: bytes, more: seq<bytes>)
    ensures ActionFor([account]) == "unknown" && ActionFor([account, []] + more) == "unknown"
    ensures action != [] ==> ActionFor([account, action] + more) == action
    ensures KeyFor(account, action) == account + ([':'] + action)
  {
  }

  /** What follows a key's first colon. */
  function ActionOf(key: bytes): bytes {
    var i := IndexByte(key, ':');
    if i < 0 then [] else key[i + 1..]
  }

  /** A key gives back its action exactly when the account has no colon. */
  lemma KeyKeepsAction(account: bytes, action: bytes)
    ensures ActionOf(KeyFor(account, action)) == action <==> ':' !in account
  {
    var key := KeyFor(account, action);
    IndexByteIsFirst(key, 0, ':');
    assert key[|account|] == ':' && key[|account| + 1..] == action;
    assert forall i | 0 <= i < |account| :: key[i] == account[i];
    if ':' in account {
      var i :| 0 <= i < |account| && account[i] == ':';
      assert |ActionOf(key)| > |action|;
    }
  }

  /** One account id goes on, after a colon, where another ends. */
  predicate Extended(x: bytes, y: bytes) {
    x + [':'] <= y
  }

  /** Two accounts and actions share a key only if they are the same, or one account extends
      the other. */
  lemma SharedKey(x: bytes, a: bytes, y: bytes, b: bytes)
    requires KeyFor(x, a) == KeyFor(y, b)
    ensures (x == y && a == b) || Extended(x, y) || Extended(y, x)
  {
    var key := KeyFor(x, a);
    assert key[..|x|] == x && key[|x| + 1..] == a && key[..|x| + 1] == x + [':'];
    assert key[..|y|] == y && key[|y| + 1..] == b && key[..|y| + 1] == y + [':'];
    if |x| < |y| {
      assert y[..|x| + 1] == key[..|x| + 1];
    } else if |y| < |x| {
      assert x[..|y| + 1] == key[..|y| + 1];
    }
  }

  // ----- What callers ask for -----

  /** Which keys are asked for under which actions. */
  type Ask = (bytes, bytes) -> bool

  ghost predicate AllAsked(run: seq<Step>, ask: Ask) {
    forall i | 0 <= i < |run| && run[i].Call? :: ask(run[i].key, run[i].action)
  }

  /** The call a caller made last. */
  ghost function LastCall(run: seq<Step>, t: nat): (r: Option<Step>)
    ensures r.Some? ==> r.value.Call?
  {
    if run == [] then None
    else
      var last := run[|run| - 1];
      if last.Call? && last.t == t then Some(last) else LastCall(run[..|run| - 1], t)
  }

  lemma {:induction false} LastCallAsked(run: seq<Step>, ask: Ask, t: nat)
    requires AllAsked(run, ask) && LastCall(run, t).Some?
    ensures ask(LastCall(run, t).value.key, LastCall(run, t).value.action)
    decreases |run|
  {
    var n := |run| - 1;
    if !(run[n].Call? && run[n].t == t) {
      assert forall i | 0 <= i < n :: run[..n][i] == run[i];
      LastCallAsked(run[..n], ask, t);
    }
  }

  lemma {:induction false} LastCallStays(run: seq<Step>, more: seq<Step>, t: nat)
    requires forall i | 0 <= i < |more| && more[i].Call? :: more[i].t != t
    ensures LastCall(run + more, t) == LastCall(run, t)
    decreases |more|
  {
    if more == [] {
      assert run + more == run;
    } else {
      var n := |more| - 1;
      assert (run + more)[..|run + more| - 1] == run + more[..n];
      LastCallStays(run, more[..n], t);
    }
  }

  /** The return that ends a run is of a limiter with the limit configured for the action
      that very call was made for. */
  ghost predicate GivenItsLimit(cfg: Config, run: seq<Step>)
    requires IsRun(cfg, run) && run != [] && run[|run| - 1].Return?
  {
    var n, h := |run| - 1, After(cfg, run).history;
    var call := LastCall(run[..n], run[n].t);
    && call.Some? && h != [] && h[|h| - 1].Returned?
    && h[|h| - 1].caller == run[n].t && h[|h| - 1].key == call.value.key
    && h[|h| - 1].limiter.bucket == ResolveLimit(cfg, call.value.action)
  }

  /** Every return of a run is. */
  ghost predicate AllGivenTheirs(cfg: Config, run: seq<Step>)
    requires IsRun(cfg, run)
    decreases |run|
  {
    run == [] ||
    (AllGivenTheirs(cfg, run[..|run| - 1]) && (run[|run| - 1].Return? ==> GivenItsLimit(cfg, run)))
  }

  // ----- What every run keeps -----

  /** Each key has one limit: in the map, with every caller that has the key, and in all
      that was ever resolved or returned. */
  ghost predicate LimitsMatch(cfg: Config, wanted: bytes -> Bucket, st: State) {
    && (forall key | key in st.entries :: st.entries[key].limiter.bucket == wanted(key))
    && (forall t | t in st.callers :: CallerMatches(cfg, wanted, st.callers[t]))
    && (forall i | 0 <= i < |st.history| && !st.history[i].Evicted? ::
          st.history[i].limiter.bucket == wanted(st.history[i].key))
  }

  ghost predicate CallerMatches(cfg: Config, wanted: bytes -> Bucket, c: Caller) {
    && (c.Begun? || c.Reading? || c.Absent? || c.Missed? ==> ResolveLimit(cfg, c.action) == wanted(c.key))
    && (c.HasPrivate() || c.HasShared() || c.Leaving? ==> c.limiter.bucket == wanted(c.key))
  }

  /** A call's action has the limit wanted of its key. */
  ghost predicate CallMatches(cfg: Config, wanted: bytes -> Bucket, step: Step) {
    step.Call? ==> ResolveLimit(cfg, step.action) == wanted(step.key)
  }

  lemma KeepsActorLimit(cfg: Config, wanted: bytes -> Bucket, st: State, step: Step)
    requires LimitsMatch(cfg, wanted, st) && Enabled(st, step) && CallMatches(cfg, wanted, step)
    ensures Actor(step) >= 0 ==> CallerMatches(cfg, wanted, Next(cfg, st, step).At(Actor(step)))
  {
    hide ResolveLimit, CanRead, CanWrite;
  }

  lemma KeepsRecordedLimits(cfg: Config, wanted: bytes -> Bucket, st: State, step: Step)
    requires LimitsMatch(cfg, wanted, st) && Enabled(st, step)
    ensures var st' := Next(cfg, st, step);
            && (forall key | key in st'.entries :: st'.entries[key].limiter.bucket == wanted(key))
            && (forall i | 0 <= i < |st'.history| && !st'.history[i].Evicted? ::
                  st'.history[i].limiter.bucket == wanted(st'.history[i].key))
  {
    hide ResolveLimit, CanRead, CanWrite;
  }

  lemma KeepsLimits(cfg: Config, wanted: bytes -> Bucket, st: State, step: Step)
    requires LimitsMatch(cfg, wanted, st) && Enabled(st, step) && CallMatches(cfg, wanted, step)
    ensures LimitsMatch(cfg, wanted, Next(cfg, st, step))
  {
    hide Next, Enabled, CallerMatches, Actor;
    OthersStay(cfg, st, step);
    KeepsActorLimit(cfg, wanted, st, step);
    KeepsRecordedLimits(cfg, wanted, st, step);
  }

  lemma {:induction false} RunLimitsMatch(cfg: Config, wanted: bytes -> Bucket, run: seq<Step>)
    requires IsRun(cfg, run) && forall i | 0 <= i < |run| :: CallMatches(cfg, wanted, run[i])
    ensures LimitsMatch(cfg, wanted, After(cfg, run))
    decreases |run|
  {
    hide Next, Enabled, LimitsMatch, CallMatches;
    if run == [] {
      InitialLimits(cfg, wanted);
    } else {
      var n := |run| - 1;
      assert forall i | 0 <= i < n :: run[..n][i] == run[i];
      RunLimitsMatch(cfg, wanted, run[..n]);
      KeepsLimits(cfg, wanted, After(cfg, run[..n]), run[n]);
    }
  }

  lemma InitialLimits(cfg: Config, wanted: bytes -> Bucket)
    ensures LimitsMatch(cfg, wanted, Initial)
  {
  }

  /** A caller at work has the key of the call it made last. */
  ghost predicate CallsKnown(run: seq<Step>, st: State) {
    forall t | t in st.callers && !st.callers[t].Idle? ::
      LastCall(run, t).Some? && LastCall(run, t).value.key == st.callers[t].key
  }

  lemma KeyMoves(cfg: Config, st: State, step: Step)
    requires Enabled(st, step) && Actor(step) >= 0
    ensures var c, c' := st.At(Actor(step)), Next(cfg, st, step).At(Actor(step));
            if step.Call? then c'.Begun? && c'.key == step.key
            else c'.Idle? || (!c.Idle? && c'.key == c.key)
  {
    hide CanRead, CanWrite;
  }

  lemma {:induction false} RunCallsKnown(cfg: Config, run: seq<Step>)
    requires IsRun(cfg, run)
    ensures CallsKnown(run, After(cfg, run))
    decreases |run|
  {
    hide Next, Enabled;
    if run != [] {
      var n := |run| - 1;
      RunCallsKnown(cfg, run[..n]);
      var st, step := After(cfg, run[..n]), run[n];
      OthersStay(cfg, st, step);
      if Actor(step) >= 0 {
        KeyMoves(cfg, st, step);
      }
    }
  }

  // ----- The exact law -----

  /** No key is asked for under two actions with different limits. */
  ghost predicate Agrees(cfg: Config, ask: Ask) {
    forall key, a, b | ask(key, a) && ask(key, b) :: ResolveLimit(cfg, a) == ResolveLimit(cfg, b)
  }

  /** The limit of the actions a key is asked for under. */
  ghost function Wanted(cfg: Config, ask: Ask): bytes -> Bucket {
    key => if exists a :: ask(key, a) then var a :| ask(key, a); ResolveLimit(cfg, a) else Bucket(0, 0)
  }

  lemma WantedIsAsked(cfg: Config, ask: Ask, key: bytes, action: bytes)
    requires Agrees(cfg, ask) && ask(key, action)
    ensures Wanted(cfg, ask)(key) == ResolveLimit(cfg, action)
  {
  }

  lemma ReturnRecords(cfg: Config, st: State, t: nat)
    requires Enabled(st, Return(t))
    ensures var h := Next(cfg, st, Return(t)).history;
            t in st.callers && st.callers[t].Leaving? &&
            h == st.history + [Returned(t, st.callers[t].key, st.callers[t].limiter)]
  {
  }

  lemma {:induction false} AgreementGivesLimits(cfg: Config, ask: Ask, run: seq<Step>)
    requires Agrees(cfg, ask) && IsRun(cfg, run) && AllAsked(run, ask)
    ensures AllGivenTheirs(cfg, run)
    decreases |run|
  {
    hide Agrees, Wanted, Next, Enabled;
    if run != [] {
      var n := |run| - 1;
      var before := run[..n];
      assert forall i | 0 <= i < n :: before[i] == run[i];
      AgreementGivesLimits(cfg, ask, before);
      if run[n].Return? {
        var t, wanted := run[n].t, Wanted(cfg, ask);
        forall i | 0 <= i < n ensures CallMatches(cfg, wanted, before[i]) {
          if before[i].Call? {
            WantedIsAsked(cfg, ask, before[i].key, before[i].action);
          }
        }
        RunLimitsMatch(cfg, wanted, before);
        RunCallsKnown(cfg, before);
        ReturnRecords(cfg, After(cfg, before), t);
        LastCallAsked(before, ask, t);
        WantedIsAsked(cfg, ask, LastCall(before, t).value.key, LastCall(before, t).value.action);
      }
    }
  }

  /** Where each key is asked for under one action, every return is of a limiter with that
      action's own rate and burst where it has them, and the default ones where not. */
  lemma ReturnedRateAndBurst(cfg: Config, ask: Ask, run: seq<Step>)
    requires forall key, a, b | ask(key, a) && ask(key, b) :: a == b
    requires IsRun(cfg, run) && AllAsked(run, ask) && run != [] && run[|run| - 1].Return?
    ensures var h, call := After(cfg, run).history, LastCall(run[..|run| - 1], run[|run| - 1].t);
            && h != [] && h[|h| - 1].Returned? && call.Some? && h[|h| - 1].key == call.value.key
            && h[|h| - 1].limiter.bucket.rate ==
               (if call.value.action in cfg.action then cfg.action[call.value.action].rate else cfg.rate)
            && h[|h| - 1].limiter.bucket.burst ==
               (if call.value.action in cfg.action then cfg.action[call.value.action].burst else cfg.burst)
  {
    hide After, IsRun, LastCall;
    AgreementGivesLimits(cfg, ask, run);
  }

  /** Two calls that share a key share its limiter, whatever their actions: the second is
      given the first one's limit. */
  lemma SharedKeySharesLimit(cfg: Config, key: bytes, first: bytes, second: bytes) returns (run: seq<Step>, l: Limiter)
    ensures run == MissSteps(0, key, first, 0) + HitSteps(1, key, second, 0) + [Return(1)] && IsRun(cfg, run)
    ensures After(cfg, run).history ==
            [Resolved(0, key, l), Resolved(1, key, l), Returned(1, key, l)]
    ensures l.bucket == ResolveLimit(cfg, first)
  {
    hide Leads, ServedState;
    var miss := MissSteps(0, key, first, 0);
    MissCall(cfg, Initial, 0, key, first, 0);
    RunGoesOn(cfg, [], miss, ServedState(cfg, Initial, 0, key, first, 0));
    assert [] + miss == miss;
    var st := AfterFirst(cfg, key, first);
    l := st.entries[key].limiter;
    var hit := HitSteps(1, key, second, 0);
    HitCall(cfg, st, 1, key, second, 0);
    RunGoesOn(cfg, miss, hit, ServedState(cfg, st, 1, key, second, 0));
    HitRecords(cfg, st, 1, key, second, 0);
    run := OneReturn(cfg, miss + hit, 1);
  }

  lemma HitRecords(cfg: Config, st: State, t: nat, key: bytes, action: bytes, now: int)
    requires key in st.entries
    ensures var end, l := ServedState(cfg, st, t, key, action, now), st.entries[key].limiter;
            end.At(t) == Leaving(key, l) && end.history == st.history + [Resolved(t, key, l)]
  {
  }

  lemma OneReturn(cfg: Config, run: seq<Step>, t: nat) returns (more: seq<Step>)
    requires IsRun(cfg, run) && After(cfg, run).At(t).Leaving?
    ensures more == run + [Return(t)] && IsRun(cfg, more)
    ensures var c := After(cfg, run).At(t);
            After(cfg, more).history == After(cfg, run).history + [Returned(t, c.key, c.limiter)]
  {
    more := run + [Return(t)];
    assert more[..|run|] == run && more[|run|] == Return(t);
  }

  /** The second call of that run is the last its caller made. */
  lemma SecondCall(key: bytes, first: bytes, second: bytes, ask: Ask)
    ensures var steps := MissSteps(0, key, first, 0) + HitSteps(1, key, second, 0);
            && LastCall(steps, 1) == Some(Call(1, key, second, 0))
            && (ask(key, first) && ask(key, second) ==> AllAsked(steps + [Return(1)], ask))
  {
    var miss, hit := MissSteps(0, key, first, 0), HitSteps(1, key, second, 0);
    var opening := miss + [hit[0]];
    assert opening[..|miss|] == miss;
    LastCallStays(opening, hit[1..], 1);
    assert opening + hit[1..] == miss + hit;
  }

  /** A key asked for under two actions with different limits makes a call that is given the
      other action's. */
  lemma DisagreementMisgives(cfg: Config, ask: Ask, key: bytes, a: bytes, b: bytes) returns (run: seq<Step>)
    requires ask(key, a) && ask(key, b) && ResolveLimit(cfg, a) != ResolveLimit(cfg, b)
    ensures IsRun(cfg, run) && AllAsked(run, ask) && !AllGivenTheirs(cfg, run)
  {
    hide After, AllAsked, LastCall;
    var l;
    run, l := SharedKeySharesLimit(cfg, key, a, b);
    SecondCall(key, a, b, ask);
    var steps := MissSteps(0, key, a, 0) + HitSteps(1, key, b, 0);
    assert run[..|run| - 1] == steps && run[|run| - 1] == Return(1);
  }

  /** The law of configured limits, exactly: in every run whose calls ask only for what `ask`
      says, each call is given the limit of its own action, if and only if no key is asked
      for under two actions with different limits. */
  lemma LimitsAreExact(cfg: Config, ask: Ask)
    ensures (forall run | IsRun(cfg, run) && AllAsked(run, ask) :: AllGivenTheirs(cfg, run)) <==> Agrees(cfg, ask)
  {
    hide IsRun, AllAsked, AllGivenTheirs;
    if Agrees(cfg, ask) {
      forall run | IsRun(cfg, run) && AllAsked(run, ask) ensures AllGivenTheirs(cfg, run) {
        AgreementGivesLimits(cfg, ask, run);
      }
    } else {
      var key, a, b :| ask(key, a) && ask(key, b) && ResolveLimit(cfg, a) != ResolveLimit(cfg, b);
      var run := DisagreementMisgives(cfg, ask, key, a, b);
    }
  }

  // ----- The middleware's calls -----

  /** The call the middleware makes for what its key functions extracted: an account, which
      is not empty, the action if there is one, and whatever else. */
  predicate Asks(parts: seq<bytes>, key: bytes, action: bytes) {
    && parts != [] && parts[0] != []
    && action == ActionFor(parts) && key == KeyFor(parts[0], action)
  }

  ghost predicate AskedBy(accounts: iset<bytes>, key: bytes, action: bytes) {
    exists parts :: Asks(parts, key, action) && parts[0] in accounts
  }

  /** All the middleware may ask for on behalf of some accounts. */
  ghost function AskOf(accounts: iset<bytes>): Ask {
    (key, action) => AskedBy(accounts, key, action)
  }

  /** No account id extends another past a colon. */
  ghost predicate Separate(accounts: iset<bytes>) {
    forall x, y | x in accounts && y in accounts && x != [] :: !Extended(x, y)
  }

  lemma ColonFreeIsSeparate(accounts: iset<bytes>)
    requires forall x | x in accounts :: ':' !in x
    ensures Separate(accounts)
  {
    forall x, y | x in accounts && y in accounts ensures !Extended(x, y) {
      if Extended(x, y) {
        ExtendedHasColon(x, y);
      }
    }
  }

  lemma ExtendedHasColon(x: bytes, y: bytes)
    requires Extended(x, y)
    ensures ':' in y
  {
    assert y[|x|] == (x + [':'])[|x|];
  }

  lemma SeparateAsksOnce(accounts: iset<bytes>, key: bytes, a: bytes, b: bytes)
    requires Separate(accounts) && AskedBy(accounts, key, a) && AskedBy(accounts, key, b)
    ensures a == b
  {
    hide Extended, ActionFor;
    var p :| Asks(p, key, a) && p[0] in accounts;
    var q :| Asks(q, key, b) && q[0] in accounts;
    SharedKey(p[0], a, q[0], b);
  }

  /** An account id extending another: a key both ask for, under different actions. */
  lemma ExtendedSharesKey(x: bytes, y: bytes, accounts: iset<bytes>) returns (key: bytes, a: bytes, b: bytes)
    requires x in accounts && y in accounts && x != [] && Extended(x, y)
    ensures AskedBy(accounts, key, a) && AskedBy(accounts, key, b) && a != b
  {
    var rest := y[|x| + 1..];
    b := ['b'];
    a := rest + [':'] + b;
    key := KeyFor(y, b);
    assert y == x + [':'] + rest;
    assert key == KeyFor(x, a);
    assert |a| > |b|;
    assert Asks([x, a], key, a) && [x, a][0] in accounts;
    assert Asks([y, b], key, b) && [y, b][0] in accounts;
  }

  /** Which account ids are safe, exactly: under every configuration each of the middleware's
      calls is given its own action's limit, in every run, if and only if no account id
      extends another past a colon. */
  lemma AccountsAreExact(accounts: iset<bytes>)
    ensures (forall cfg, run | IsRun(cfg, run) && AllAsked(run, AskOf(accounts)) :: AllGivenTheirs(cfg, run))
            <==> Separate(accounts)
  {
    hide IsRun, AllAsked, AllGivenTheirs, AskedBy, Separate;
    if Separate(accounts) {
      forall cfg, run | IsRun(cfg, run) && AllAsked(run, AskOf(accounts)) ensures AllGivenTheirs(cfg, run) {
        forall key, a, b | AskOf(accounts)(key, a) && AskOf(accounts)(key, b) ensures a == b {
          SeparateAsksOnce(accounts, key, a, b);
        }
        AgreementGivesLimits(cfg, AskOf(accounts), run);
      }
    } else {
      var x, y := NotSeparate(accounts);
      var key, a, b := ExtendedSharesKey(x, y, accounts);
      var cfg := Config(0, 0, map[a := Bucket(1, 1)]);
      assert ResolveLimit(cfg, a) != ResolveLimit(cfg, b);
      var run := DisagreementMisgives(cfg, AskOf(accounts), key, a, b);
    }
  }

  lemma NotSeparate(accounts: iset<bytes>) returns (x: bytes, y: bytes)
    requires !Separate(accounts)
    ensures x in accounts && y in accounts && x != [] && Extended(x, y)
  {
    x, y :| x in accounts && y in accounts && x != [] && Extended(x, y);
  }

  /** With colon-free accounts the limit at a key, in the map and in whatever was returned
      for it, is that of the action the key ends in. */
  lemma ColonFreeLimits(cfg: Config, accounts: iset<bytes>, run: seq<Step>)
    requires forall x | x in accounts :: ':' !in x
    requires IsRun(cfg, run) && AllAsked(run, AskOf(accounts))
    ensures LimitsMatch(cfg, key => ResolveLimit(cfg, ActionOf(key)), After(cfg, run))
  {
    hide ActionOf, ResolveLimit, After, IsRun, LimitsMatch;
    var wanted := key => ResolveLimit(cfg, ActionOf(key));
    forall i | 0 <= i < |run| ensures CallMatches(cfg, wanted, run[i]) {
      if run[i].Call? {
        assert AskOf(accounts)(run[i].key, run[i].action);
        var parts :| Asks(parts, run[i].key, run[i].action) && parts[0] in accounts;
        KeyKeepsAction(parts[0], run[i].action);
      }
    }
    RunLimitsMatch(cfg, wanted, run);
  }

  /** Buckets are per account and action: with separate accounts no limiter is returned for
      two of these pairs, and for one of them two calls share it unless it was evicted
      between their resolutions. */
  lemma OneLimiterPerAccountAndAction(
      cfg: Config, accounts: iset<bytes>, run: seq<Step>, m: nat, n: nat, x: bytes, a: bytes, y: bytes, b: bytes)
    requires Separate(accounts) && x in accounts && y in accounts && x != [] && y != [] && IsRun(cfg, run)
    requires var h := After(cfg, run).history;
             && m < n < |h| && h[m].Returned? && h[n].Returned?
             && h[m].key == KeyFor(x, a) && h[n].key == KeyFor(y, b)
    ensures var h := After(cfg, run).history;
            var i, j := ResolvedFor(h, m), ResolvedFor(h, n);
            && 0 <= i && 0 <= j
            && (h[m].limiter.id == h[n].limiter.id ==> x == y && a == b)
            && (x == y && a == b ==> (h[m].limiter == h[n].limiter <==> !EvictedAmid(h, h[m].key, i, j)))
  {
    hide After, IsRun, EvictedAmid, Extended;
    EveryReturnIsSound(cfg, run, m, n);
    if After(cfg, run).history[m].key == After(cfg, run).history[n].key {
      SharedKey(x, a, y, b);
    }
  }

  /** A concrete failure: two accounts, one with a colon, and a call for one action that is
      given the other action's limit wherever the two are configured apart. */
  lemma ColonAccountsCollide(cfg: Config) returns (run: seq<Step>, l: Limiter)
    requires ResolveLimit(cfg, "c") != ResolveLimit(cfg, "b:c")
    ensures IsRun(cfg, run) && AllAsked(run, AskOf(iset{"a:b", "a"}))
    ensures LastCall(run, 1).Some? && LastCall(run, 1).value.action == "b:c"
    ensures var h := After(cfg, run).history;
            |h| == 3 && h[2] == Returned(1, KeyFor("a", "b:c"), l) && l.bucket != ResolveLimit(cfg, "b:c")
  {
    hide After;
    var accounts: iset<bytes> := iset{"a:b", "a"};
    var one, two: seq<bytes> := ["a:b", "c"], ["a", "b:c"];
    var key, first, second: bytes := "a:b:c", "c", "b:c";
    assert Asks(one, key, first) && one[0] in accounts;
    assert Asks(two, key, second) && two[0] in accounts;
    run, l := SharedKeySharesLimit(cfg, key, first, second);
    SecondCall(key, first, second, AskOf(accounts));
    LastCallStays(run[..|run| - 1], [Return(1)], 1);
  }
}
