/** The throttler, pkg/ratelimit/ratelimit.go and config.go: any number of callers of
    getOrCreate and the sweep that evicts idle limiters, as interleaved atomic steps under
    one read-write lock. */
module RateLimit {
  import opened Bytes

  datatype Bucket = Bucket(rate: int, burst: int)
  datatype Config = Config(rate: int, burst: int, action: map<bytes, Bucket>)

  function ResolveLimit(cfg: Config, action: bytes): Bucket {
    if action in cfg.action then cfg.action[action] else Bucket(cfg.rate, cfg.burst)
  }

  /** A limiter is its identity and what it was configured with. */
  datatype Limiter = Limiter(id: nat, bucket: Bucket)
  datatype Entry = Entry(limiter: Limiter, lastSeen: int)
  type Entries = map<bytes, Entry>

  /** Where a caller of getOrCreate stands. */
  datatype Caller =
    | Idle
    | Begun(key: bytes, action: bytes, now: int)
    | Reading(key: bytes, action: bytes, now: int)
    | Found(key: bytes, now: int, limiter: Limiter)
    | Touched(key: bytes, limiter: Limiter)
    | Absent(key: bytes, action: bytes, now: int)
    | Missed(key: bytes, action: bytes, now: int)
    | Made(key: bytes, now: int, limiter: Limiter)
    | Writing(key: bytes, now: int, limiter: Limiter)
    | Lost(key: bytes, now: int, limiter: Limiter)
    | Inserting(key: bytes, now: int, limiter: Limiter)
    | Settled(key: bytes, limiter: Limiter)
    | Leaving(key: bytes, limiter: Limiter)
  {
    predicate HoldsRead() { Reading? || Found? || Touched? || Absent? }
    predicate HoldsWrite() { Writing? || Lost? || Inserting? || Settled? }
    predicate HoldsLock() { HoldsRead() || HoldsWrite() }
    /** It has a limiter of its own making that nobody else has seen. */
    predicate HasPrivate() { Made? || Writing? || Inserting? }
    /** It has the limiter it will return, taken from the map. */
    predicate HasShared() { Found? || Touched? || Lost? || Settled? }
  }

  /** The collector holds the write lock from one end of a sweep to the other; `start` is
      the map as the sweep found it. */
  datatype Collector =
    | Waiting
    | Sweeping(cutoff: int, todo: set<bytes>, start: Entries)
    | Condemning(cutoff: int, todo: set<bytes>, start: Entries, key: bytes)

  /** A limiter is resolved when it is read from or put into the map under the lock; the
      call returns some time later. */
  datatype Event =
    | Resolved(caller: nat, key: bytes, limiter: Limiter)
    | Returned(caller: nat, key: bytes, limiter: Limiter)
    | Evicted(key: bytes)

  datatype State = State(entries: Entries, callers: map<nat, Caller>, gc: Collector, nextId: nat, history: seq<Event>) {
    function At(t: nat): Caller {
      if t in callers then callers[t] else Idle
    }

    function Move(t: nat, c: Caller): State {
      this.(callers := callers[t := c])
    }
  }

  const Initial: State := State(map[], map[], Waiting, 0, [])

  datatype Step =
    | Call(t: nat, key: bytes, action: bytes, now: int)
    | RLock(t: nat)
    | Look(t: nat)
    | Touch(t: nat)
    | RUnlock(t: nat)
    | Make(t: nat)
    | Lock(t: nat)
    | Recheck(t: nat)
    | TouchLost(t: nat)
    | Insert(t: nat)
    | Unlock(t: nat)
    | Return(t: nat)
    | GcLock(cutoff: int)
    | GcVisit(key: bytes)
    | GcDelete
    | GcUnlock

  /** The lock admits a reader beside readers, and a writer alone. */
  ghost predicate CanRead(st: State) {
    st.gc.Waiting? && forall u | u in st.callers :: !st.callers[u].HoldsWrite()
  }

  ghost predicate CanWrite(st: State) {
    st.gc.Waiting? && forall u | u in st.callers :: !st.callers[u].HoldsLock()
  }

  ghost predicate Enabled(st: State, step: Step) {
    match step
    case Call(t, _, _, _) => st.At(t).Idle?
    case RLock(t) => st.At(t).Begun? && CanRead(st)
    case Look(t) => st.At(t).Reading?
    case Touch(t) => st.At(t).Found? && st.At(t).key in st.entries
    case RUnlock(t) => st.At(t).Touched? || st.At(t).Absent?
    case Make(t) => st.At(t).Missed?
    case Lock(t) => st.At(t).Made? && CanWrite(st)
    case Recheck(t) => st.At(t).Writing?
    case TouchLost(t) => st.At(t).Lost? && st.At(t).key in st.entries
    case Insert(t) => st.At(t).Inserting?
    case Unlock(t) => st.At(t).Settled?
    case Return(t) => st.At(t).Leaving?
    case GcLock(_) => CanWrite(st)
    case GcVisit(key) => st.gc.Sweeping? && key in st.gc.todo && key in st.entries
    case GcDelete => st.gc.Condemning?
    case GcUnlock => st.gc.Sweeping? && st.gc.todo == {}
  }

  function Next(cfg: Config, st: State, step: Step): State
    requires Enabled(st, step)
  {
    match step
    case Call(t, key, action, now) => st.Move(t, Begun(key, action, now))
    case RLock(t) => var c := st.At(t); st.Move(t, Reading(c.key, c.action, c.now))
    case Look(t) =>
      var c := st.At(t);
      if c.key in st.entries then
        var l := st.entries[c.key].limiter;
        st.Move(t, Found(c.key, c.now, l)).(history := st.history + [Resolved(t, c.key, l)])
      else st.Move(t, Absent(c.key, c.action, c.now))
    case Touch(t) =>
      var c := st.At(t);
      st.Move(t, Touched(c.key, c.limiter)).(entries := Seen(st.entries, c.key, c.now))
    case RUnlock(t) =>
      var c := st.At(t);
      if c.Touched? then st.Move(t, Leaving(c.key, c.limiter))
      else st.Move(t, Missed(c.key, c.action, c.now))
    case Make(t) =>
      var c := st.At(t);
      st.Move(t, Made(c.key, c.now, Limiter(st.nextId, ResolveLimit(cfg, c.action)))).(nextId := st.nextId + 1)
    case Lock(t) => var c := st.At(t); st.Move(t, Writing(c.key, c.now, c.limiter))
    case Recheck(t) =>
      var c := st.At(t);
      if c.key in st.entries then
        var l := st.entries[c.key].limiter;
        st.Move(t, Lost(c.key, c.now, l)).(history := st.history + [Resolved(t, c.key, l)])
      else st.Move(t, Inserting(c.key, c.now, c.limiter))
    case TouchLost(t) =>
      var c := st.At(t);
      st.Move(t, Settled(c.key, c.limiter)).(entries := Seen(st.entries, c.key, c.now))
    case Insert(t) =>
      var c := st.At(t);
      st.Move(t, Settled(c.key, c.limiter)).(
        entries := st.entries[c.key := Entry(c.limiter, c.now)],
        history := st.history + [Resolved(t, c.key, c.limiter)])
    case Unlock(t) => var c := st.At(t); st.Move(t, Leaving(c.key, c.limiter))
    case Return(t) =>
      var c := st.At(t);
      st.Move(t, Idle).(history := st.history + [Returned(t, c.key, c.limiter)])
    case GcLock(cutoff) => st.(gc := Sweeping(cutoff, st.entries.Keys, st.entries))
    case GcVisit(key) =>
      var todo := st.gc.todo - {key};
      if st.entries[key].lastSeen < st.gc.cutoff then st.(gc := Condemning(st.gc.cutoff, todo, st.gc.start, key))
      else st.(gc := Sweeping(st.gc.cutoff, todo, st.gc.start))
    case GcDelete =>
      st.(entries := st.entries - {st.gc.key}, gc := Sweeping(st.gc.cutoff, st.gc.todo, st.gc.start),
          history := st.history + [Evicted(st.gc.key)])
    case GcUnlock => st.(gc := Waiting)
  }

  function Seen(entries: Entries, key: bytes, now: int): Entries
    requires key in entries
  {
    entries[key := Entry(entries[key].limiter, now)]
  }

  /** A run: every step enabled where it is taken. */
  ghost predicate IsRun(cfg: Config, steps: seq<Step>)
    decreases |steps|, 0
  {
    steps == [] ||
    (IsRun(cfg, steps[..|steps| - 1]) && Enabled(After(cfg, steps[..|steps| - 1]), steps[|steps| - 1]))
  }

  ghost function After(cfg: Config, steps: seq<Step>): State
    requires IsRun(cfg, steps)
    decreases |steps|, 1
  {
    if steps == [] then Initial
    else Next(cfg, After(cfg, steps[..|steps| - 1]), steps[|steps| - 1])
  }

  // ----- What a history may look like -----

  /** The limiter a history leaves at a key. */
  ghost function Current(h: seq<Event>, key: bytes): Option<Limiter> {
    if h == [] then None else Replaced(Current(h[..|h| - 1], key), h[|h| - 1], key)
  }

  /** What one event leaves at a key. */
  function Replaced(current: Option<Limiter>, e: Event, key: bytes): Option<Limiter> {
    if e.Returned? || e.key != key then current
    else if e.Resolved? then Some(e.limiter)
    else None
  }

  ghost predicate NeverResolved(h: seq<Event>, id: nat) {
    forall i | 0 <= i < |h| && h[i].Resolved? :: h[i].limiter.id != id
  }

  /** A resolution is of the limiter in place, or of a new one where there is none. */
  ghost predicate Follows(before: seq<Event>, e: Event) {
    (e.Resolved? ==>
       Current(before, e.key) == Some(e.limiter) ||
       (Current(before, e.key) == None && NeverResolved(before, e.limiter.id)))
    && (e.Evicted? ==> Current(before, e.key).Some?)
  }

  ghost predicate Sound(h: seq<Event>) {
    h == [] || (Sound(h[..|h| - 1]) && Follows(h[..|h| - 1], h[|h| - 1]))
  }

  ghost predicate EvictedBetween(h: seq<Event>, key: bytes, i: nat, j: nat) {
    exists m | i < m < j && m < |h| :: h[m] == Evicted(key)
  }

  lemma EvictedBefore(h: seq<Event>, key: bytes, i: nat)
    requires i + 1 < |h|
    ensures EvictedBetween(h, key, i, |h|) <==>
            EvictedBetween(h[..|h| - 1], key, i, |h| - 1) || h[|h| - 1] == Evicted(key)
  {
    var before := h[..|h| - 1];
    if m :| i < m < |h| && h[m] == Evicted(key) {
      assert m < |h| - 1 ==> before[m] == Evicted(key);
    }
    if m :| i < m < |h| - 1 && before[m] == Evicted(key) {
      assert h[m] == Evicted(key);
    }
  }

  /** A limiter stays in place until its key is evicted, and then never comes back. */
  lemma {:induction false} InPlaceUntilEvicted(h: seq<Event>, i: nat)
    requires Sound(h) && i < |h| && h[i].Resolved?
    ensures var k, c := h[i].key, Current(h, h[i].key);
            if EvictedBetween(h, k, i, |h|) then c.Some? ==> c.value.id != h[i].limiter.id
            else c == Some(h[i].limiter)
    decreases |h|
  {
    var n := |h| - 1;
    if i < n {
      InPlaceUntilEvicted(h[..n], i);
      EvictedBefore(h, h[i].key, i);
    }
  }

  lemma {:induction false} SoundSoFar(h: seq<Event>, n: nat)
    requires Sound(h) && n <= |h|
    ensures Sound(h[..n])
    decreases |h|
  {
    if n == |h| {
      assert h[..n] == h;
    } else {
      SoundSoFar(h[..|h| - 1], n);
      assert h[..|h| - 1][..n] == h[..n];
    }
  }

  /** Two resolutions of a key give the same limiter exactly when it was not evicted between. */
  lemma SameLimiterIffNotEvicted(h: seq<Event>, i: nat, j: nat)
    requires Sound(h) && i < j < |h| && h[i].Resolved? && h[j].Resolved? && h[i].key == h[j].key
    ensures h[i].limiter == h[j].limiter <==> !EvictedBetween(h, h[i].key, i, j)
  {
    var upto := h[..j + 1];
    SoundSoFar(h, j + 1);
    InPlaceUntilEvicted(upto, i);
    assert Current(upto, h[j].key) == Some(h[j].limiter);
    if m :| i < m < j && h[m] == Evicted(h[i].key) {
      assert upto[m] == Evicted(h[i].key);
    }
    if m :| i < m < j + 1 && m < |upto| && upto[m] == Evicted(h[i].key) {
      assert h[m] == Evicted(h[i].key);
    }
  }

  lemma {:induction false} CurrentSource(h: seq<Event>, key: bytes) returns (m: nat)
    requires Current(h, key).Some?
    ensures m < |h| && h[m].Resolved? && h[m].key == key && h[m].limiter == Current(h, key).value
    decreases |h|
  {
    var n := |h| - 1;
    if h[n].Resolved? && h[n].key == key {
      m := n;
    } else {
      m := CurrentSource(h[..n], key);
    }
  }

  /** A limiter is only ever resolved for one key. */
  lemma {:induction false} OneKeyPerLimiter(h: seq<Event>, i: nat, j: nat)
    requires Sound(h) && i < |h| && j < |h| && h[i].Resolved? && h[j].Resolved?
    requires h[i].limiter.id == h[j].limiter.id
    ensures h[i].key == h[j].key && h[i].limiter == h[j].limiter
    decreases i + j
  {
    if i < j {
      var before := h[..j];
      SoundSoFar(h, j + 1);
      assert h[..j + 1][..j] == before;
      assert before[i] == h[i];
      var m := CurrentSource(before, h[j].key);
      OneKeyPerLimiter(h, i, m);
    } else if j < i {
      var before := h[..i];
      SoundSoFar(h, i + 1);
      assert h[..i + 1][..i] == before;
      assert before[j] == h[j];
      var m := CurrentSource(before, h[i].key);
      OneKeyPerLimiter(h, m, j);
    }
  }

  // ----- What every run keeps -----

  /** The lock excludes: a writer is alone, and nobody is in while the collector sweeps. */
  ghost predicate Exclusive(st: State) {
    && (forall t, u | t in st.callers && u in st.callers && t != u && st.callers[t].HoldsWrite() ::
          !st.callers[u].HoldsLock())
    && (!st.gc.Waiting? ==> forall t | t in st.callers :: !st.callers[t].HoldsLock())
  }

  /** The map holds at each key what the history says. */
  ghost predicate InStep(st: State) {
    forall key :: Current(st.history, key) == if key in st.entries then Some(st.entries[key].limiter) else None
  }

  /** Limiters are numbered as they are made; one nobody else has seen is in no history and
      belongs to one caller. */
  ghost predicate Fresh(st: State) {
    && (forall i | 0 <= i < |st.history| && st.history[i].Resolved? :: st.history[i].limiter.id < st.nextId)
    && (forall t | t in st.callers && st.callers[t].HasPrivate() ::
          st.callers[t].limiter.id < st.nextId && NeverResolved(st.history, st.callers[t].limiter.id))
    && (forall t, u | t in st.callers && u in st.callers && t != u && st.callers[t].HasPrivate() && st.callers[u].HasPrivate() ::
          st.callers[t].limiter.id != st.callers[u].limiter.id)
  }

  /** Under the lock a caller's view of its key is the truth. */
  ghost predicate Holding(st: State) {
    && (forall t | t in st.callers && st.callers[t].HasShared() ::
          st.callers[t].key in st.entries && st.entries[st.callers[t].key].limiter == st.callers[t].limiter)
    && (forall t | t in st.callers && st.callers[t].Inserting? :: st.callers[t].key !in st.entries)
  }

  /** Part way through, a sweep has removed exactly the visited entries that were stale
      when it took the lock. */
  ghost predicate SweepExact(st: State) {
    match st.gc
    case Waiting => true
    case Sweeping(cutoff, todo, start) =>
      todo <= start.Keys && st.entries == (map k | k in start && (k in todo || start[k].lastSeen >= cutoff) :: start[k])
    case Condemning(cutoff, todo, start, key) =>
      && todo <= start.Keys && key in start && key !in todo && start[key].lastSeen < cutoff
      && st.entries == (map k | k in start && (k == key || k in todo || start[k].lastSeen >= cutoff) :: start[k])
  }

  ghost predicate Inv(st: State) {
    Exclusive(st) && Sound(st.history) && InStep(st) && Fresh(st) && Holding(st) && SweepExact(st)
  }

  /** Who takes a step: a caller, or -1 for the collector. */
  function Actor(step: Step): int {
    if step.GcLock? || step.GcVisit? || step.GcDelete? || step.GcUnlock? then -1 else step.t
  }

  /** A step moves its actor only. */
  lemma OthersStay(cfg: Config, st: State, step: Step)
    requires Enabled(st, step)
    ensures var st', t := Next(cfg, st, step), Actor(step);
            if t < 0 then st'.callers == st.callers
            else t in st'.callers && st'.callers == st.callers[t := st'.callers[t]] && st'.gc == st.gc
  {
    hide CanRead, CanWrite, Caller.HoldsRead, Caller.HoldsWrite;
  }

  /** The lock is only entered where it admits. */
  lemma LockMoves(cfg: Config, st: State, step: Step)
    requires Enabled(st, step)
    ensures var st', t := Next(cfg, st, step), Actor(step);
            if t < 0 then !st'.gc.Waiting? ==> !st.gc.Waiting? || CanWrite(st)
            else
              && (st'.At(t).HoldsRead() ==> (t in st.callers && st.At(t).HoldsRead()) || CanRead(st))
              && (st'.At(t).HoldsWrite() ==> (t in st.callers && st.At(t).HoldsWrite()) || CanWrite(st))
  {
    hide CanRead, CanWrite;
  }

  lemma KeepsExclusive(cfg: Config, st: State, step: Step)
    requires Exclusive(st) && Enabled(st, step)
    ensures Exclusive(Next(cfg, st, step))
  {
    hide Next, Enabled, Actor, Caller.HoldsRead, Caller.HoldsWrite;
    OthersStay(cfg, st, step);
    LockMoves(cfg, st, step);
  }

  /** What one more event does to a history. */
  lemma AppendEvent(h: seq<Event>, e: Event)
    ensures Sound(h + [e]) <==> Sound(h) && Follows(h, e)
    ensures forall key :: Current(h + [e], key) == Replaced(Current(h, key), e, key)
  {
    assert (h + [e])[..|h|] == h && (h + [e])[|h|] == e;
  }

  lemma KeepsHistory(cfg: Config, st: State, step: Step)
    requires Sound(st.history) && InStep(st) && Fresh(st) && Holding(st) && SweepExact(st) && Enabled(st, step)
    ensures Sound(Next(cfg, st, step).history) && InStep(Next(cfg, st, step))
  {
    hide Sound, Current, NeverResolved;
    var st' := Next(cfg, st, step);
    if st'.history != st.history {
      AppendEvent(st.history, st'.history[|st.history|]);
    }
  }

  lemma NeverResolvedAppend(h: seq<Event>, e: Event, id: nat)
    ensures NeverResolved(h + [e], id) <==> NeverResolved(h, id) && (e.Resolved? ==> e.limiter.id != id)
  {
    assert (h + [e])[|h|] == e;
    assert forall i | 0 <= i < |h| :: (h + [e])[i] == h[i];
  }

  /** Whatever is in the map was made, and resolved, before. */
  lemma EntryIsKnown(st: State, key: bytes)
    requires InStep(st) && Fresh(st) && key in st.entries
    ensures st.entries[key].limiter.id < st.nextId && !NeverResolved(st.history, st.entries[key].limiter.id)
  {
    var m := CurrentSource(st.history, key);
  }

  ghost predicate AllMade(h: seq<Event>, n: nat) {
    forall i | 0 <= i < |h| && h[i].Resolved? :: h[i].limiter.id < n
  }

  ghost predicate PrivateUnseen(st: State) {
    forall t | t in st.callers && st.callers[t].HasPrivate() ::
      st.callers[t].limiter.id < st.nextId && NeverResolved(st.history, st.callers[t].limiter.id)
  }

  ghost predicate PrivateDistinct(st: State) {
    forall t, u | t in st.callers && u in st.callers && t != u && st.callers[t].HasPrivate() && st.callers[u].HasPrivate() ::
      st.callers[t].limiter.id != st.callers[u].limiter.id
  }

  lemma UnmadeIsUnseen(h: seq<Event>, n: nat)
    requires AllMade(h, n)
    ensures NeverResolved(h, n)
  {
  }

  lemma KeepsDistinct(cfg: Config, st: State, step: Step)
    requires PrivateUnseen(st) && PrivateDistinct(st) && Enabled(st, step)
    ensures PrivateDistinct(Next(cfg, st, step))
  {
    hide NeverResolved;
  }

  /** What a step does to its actor's own limiter, and whose limiter it records. */
  lemma PrivateMoves(cfg: Config, st: State, step: Step)
    requires Enabled(st, step)
    ensures var st', t, n := Next(cfg, st, step), Actor(step), |st.history|;
            && st'.nextId >= st.nextId
            && (st'.history == st.history || st'.history == st.history + [st'.history[n]])
            && (t >= 0 && st'.At(t).HasPrivate() ==>
                  && st'.history == st.history
                  && (if step.Make? then st'.At(t).limiter.id == st.nextId < st'.nextId
                      else t in st.callers && st.At(t).HasPrivate() && st'.At(t).limiter == st.At(t).limiter))
            && (st'.history != st.history && st'.history[n].Resolved? ==>
                  var e := st'.history[n];
                  if step.Insert? then t in st.callers && st.At(t).HasPrivate() && e.limiter == st.At(t).limiter
                  else e.key in st.entries && e.limiter == st.entries[e.key].limiter)
  {
    hide CanRead, CanWrite;
  }

  lemma KeepsUnseen(cfg: Config, st: State, step: Step)
    requires Fresh(st) && InStep(st) && Enabled(st, step)
    ensures PrivateUnseen(Next(cfg, st, step))
  {
    hide NeverResolved, Current, Next, Enabled, Actor;
    var st' := Next(cfg, st, step);
    OthersStay(cfg, st, step);
    PrivateMoves(cfg, st, step);
    UnmadeIsUnseen(st.history, st.nextId);
    if st'.history != st.history {
      var e := st'.history[|st.history|];
      if e.Resolved? && e.key in st.entries {
        EntryIsKnown(st, e.key);
      }
      forall id ensures NeverResolved(st'.history, id) <==>
                        NeverResolved(st.history, id) && (e.Resolved? ==> e.limiter.id != id)
      {
        NeverResolvedAppend(st.history, e, id);
      }
    }
  }

  lemma KeepsMade(cfg: Config, st: State, step: Step)
    requires Fresh(st) && InStep(st) && Enabled(st, step)
    ensures AllMade(Next(cfg, st, step).history, Next(cfg, st, step).nextId)
  {
    hide NeverResolved, Current, CanRead, CanWrite;
    forall key | key in st.entries ensures st.entries[key].limiter.id < st.nextId {
      EntryIsKnown(st, key);
    }
  }

  lemma KeepsFresh(cfg: Config, st: State, step: Step)
    requires Fresh(st) && Holding(st) && InStep(st) && Enabled(st, step)
    ensures Fresh(Next(cfg, st, step))
  {
    hide Next, NeverResolved;
    KeepsMade(cfg, st, step);
    KeepsUnseen(cfg, st, step);
    KeepsDistinct(cfg, st, step);
  }

  lemma KeepsHolding(cfg: Config, st: State, step: Step)
    requires Holding(st) && Exclusive(st) && Enabled(st, step)
    ensures Holding(Next(cfg, st, step))
  {
  }

  lemma KeepsSweep(cfg: Config, st: State, step: Step)
    requires SweepExact(st) && Exclusive(st) && Enabled(st, step)
    ensures SweepExact(Next(cfg, st, step))
  {
  }

  lemma {:induction false} RunKeepsInv(cfg: Config, run: seq<Step>)
    requires IsRun(cfg, run)
    ensures Inv(After(cfg, run))
    decreases |run|
  {
    hide Next, Exclusive, InStep, Fresh, Holding, SweepExact, Enabled;
    if run == [] {
      InitialHolds();
    } else {
      var n := |run| - 1;
      RunKeepsInv(cfg, run[..n]);
      var st := After(cfg, run[..n]);
      KeepsExclusive(cfg, st, run[n]);
      KeepsHistory(cfg, st, run[n]);
      KeepsFresh(cfg, st, run[n]);
      KeepsHolding(cfg, st, run[n]);
      KeepsSweep(cfg, st, run[n]);
    }
  }

  lemma InitialHolds()
    ensures Inv(Initial)
  {
  }

  // ----- Over every interleaving -----

  /** In every run: two resolutions of a key give one limiter exactly when the key was not
      evicted between them, and no limiter is resolved for two keys. */
  lemma EveryRunIsSound(cfg: Config, run: seq<Step>, i: nat, j: nat)
    requires IsRun(cfg, run)
    requires var h := After(cfg, run).history; i < j < |h| && h[i].Resolved? && h[j].Resolved?
    ensures var h := After(cfg, run).history;
            && (h[i].key == h[j].key ==>
                  (h[i].limiter == h[j].limiter <==> !EvictedBetween(h, h[i].key, i, j)))
            && (h[i].limiter.id == h[j].limiter.id ==> h[i].key == h[j].key)
  {
    hide After, Sound, IsRun, EvictedBetween;
    RunKeepsInv(cfg, run);
    var h := After(cfg, run).history;
    if h[i].key == h[j].key {
      SameLimiterIffNotEvicted(h, i, j);
    }
    if h[i].limiter.id == h[j].limiter.id {
      OneKeyPerLimiter(h, i, j);
    }
  }

  // ----- What calls return -----

  predicate IsBy(e: Event, t: nat) {
    !e.Evicted? && e.caller == t
  }

  /** The position of the last thing caller `t` did before `n`, or -1. A call resolves once
      and then returns, so before a return this is where the returning call resolved. */
  ghost function LastOf(h: seq<Event>, t: nat, n: nat): (i: int)
    requires n <= |h|
    ensures -1 <= i < n
    decreases n
  {
    if n == 0 then -1 else if IsBy(h[n - 1], t) then n - 1 else LastOf(h, t, n - 1)
  }

  lemma {:induction false} LastOfIsLast(h: seq<Event>, t: nat, n: nat, q: nat)
    requires q < n <= |h| && IsBy(h[q], t)
    ensures q <= LastOf(h, t, n)
    decreases n
  {
    if q < n - 1 {
      LastOfIsLast(h, t, n - 1, q);
    }
  }

  lemma {:induction false} LastOfAppend(h: seq<Event>, e: Event, t: nat, n: nat)
    requires n <= |h|
    ensures LastOf(h + [e], t, n) == LastOf(h, t, n)
    decreases n
  {
    if n > 0 {
      LastOfAppend(h, e, t, n - 1);
    }
  }

  /** By position `n` caller `t` has resolved this limiter, and done nothing since. */
  ghost predicate HasResolved(h: seq<Event>, t: nat, n: nat, key: bytes, limiter: Limiter)
    requires n <= |h|
  {
    LastOf(h, t, n) >= 0 && h[LastOf(h, t, n)] == Resolved(t, key, limiter)
  }

  lemma HasResolvedAppend(h: seq<Event>, e: Event, t: nat, n: nat, key: bytes, limiter: Limiter)
    requires n <= |h| + 1
    ensures HasResolved(h + [e], t, n, key, limiter) <==>
            if n <= |h| then HasResolved(h, t, n, key, limiter)
            else if IsBy(e, t) then e == Resolved(t, key, limiter)
            else HasResolved(h, t, |h|, key, limiter)
  {
    if n <= |h| {
      LastOfAppend(h, e, t, n);
    } else {
      LastOfAppend(h, e, t, |h|);
    }
  }

  /** A caller with a limiter to return has resolved it in this very call; and whatever was
      returned had been. */
  ghost predicate ReturnsResolved(st: State) {
    CallersResolved(st) && AllReturnsResolved(st.history)
  }

  ghost predicate CallersResolved(st: State) {
    forall t | t in st.callers && (st.callers[t].HasShared() || st.callers[t].Leaving?) ::
      HasResolved(st.history, t, |st.history|, st.callers[t].key, st.callers[t].limiter)
  }

  ghost predicate AllReturnsResolved(h: seq<Event>) {
    forall m | 0 <= m < |h| && h[m].Returned? :: HasResolved(h, h[m].caller, m, h[m].key, h[m].limiter)
  }

  /** What a step does to its actor's limiter, and what it records. */
  lemma RecordMoves(cfg: Config, st: State, step: Step)
    requires Enabled(st, step)
    ensures var st', t, n := Next(cfg, st, step), Actor(step), |st.history|;
            && (st'.history == st.history || st'.history == st.history + [st'.history[n]])
            && (st'.history != st.history ==> if t < 0 then st'.history[n].Evicted? else IsBy(st'.history[n], t))
            && (t >= 0 && (st'.At(t).HasShared() || st'.At(t).Leaving?) ==>
                  if st'.history != st.history then st'.history[n] == Resolved(t, st'.At(t).key, st'.At(t).limiter)
                  else Kept(st.At(t), st'.At(t)))
            && (st'.history != st.history && st'.history[n].Returned? ==>
                  st.At(t).Leaving? && st'.history[n] == Returned(t, st.At(t).key, st.At(t).limiter))
  {
    hide CanRead, CanWrite, Caller.HoldsRead, Caller.HoldsWrite;
  }

  predicate Kept(before: Caller, after: Caller)
    requires after.HasShared() || after.Leaving?
  {
    (before.HasShared() || before.Leaving?) && before.key == after.key && before.limiter == after.limiter
  }

  lemma KeepsReturns(cfg: Config, st: State, step: Step)
    requires ReturnsResolved(st) && Enabled(st, step)
    ensures ReturnsResolved(Next(cfg, st, step))
  {
    hide Next, Enabled, Actor, HasResolved;
    OthersStay(cfg, st, step);
    RecordMoves(cfg, st, step);
    var st' := Next(cfg, st, step);
    if st'.history != st.history {
      var e := st'.history[|st.history|];
      forall t, n, key, limiter | 0 <= n <= |st.history| + 1
        ensures HasResolved(st.history + [e], t, n, key, limiter) <==>
                if n <= |st.history| then HasResolved(st.history, t, n, key, limiter)
                else if IsBy(e, t) then e == Resolved(t, key, limiter)
                else HasResolved(st.history, t, |st.history|, key, limiter)
      {
        HasResolvedAppend(st.history, e, t, n, key, limiter);
      }
    }
  }

  /** In every run each return is of what that same call resolved under the lock. */
  lemma {:induction false} RunReturnsResolved(cfg: Config, run: seq<Step>)
    requires IsRun(cfg, run)
    ensures ReturnsResolved(After(cfg, run))
    decreases |run|
  {
    hide Next, Enabled, ReturnsResolved;
    if run == [] {
      InitialReturns();
    } else {
      RunReturnsResolved(cfg, run[..|run| - 1]);
      KeepsReturns(cfg, After(cfg, run[..|run| - 1]), run[|run| - 1]);
    }
  }

  lemma InitialReturns()
    ensures ReturnsResolved(Initial)
  {
  }

  /** Where the call that returns at `m` resolved. */
  ghost function ResolvedFor(h: seq<Event>, m: nat): (i: int)
    requires m < |h| && h[m].Returned?
    ensures -1 <= i < m
  {
    LastOf(h, h[m].caller, m)
  }

  /** The key was evicted between two positions, taken in either order. */
  ghost predicate EvictedAmid(h: seq<Event>, key: bytes, i: nat, j: nat) {
    if i <= j then EvictedBetween(h, key, i, j) else EvictedBetween(h, key, j, i)
  }

  /** The law of returns, over every interleaving: two returns go back to two resolutions of
      their own calls; for one key they give one limiter exactly when the key was not evicted
      between those; and no limiter is returned for two keys. */
  lemma EveryReturnIsSound(cfg: Config, run: seq<Step>, m: nat, n: nat)
    requires IsRun(cfg, run)
    requires var h := After(cfg, run).history; m < n < |h| && h[m].Returned? && h[n].Returned?
    ensures var h := After(cfg, run).history;
            var i, j := ResolvedFor(h, m), ResolvedFor(h, n);
            && 0 <= i && 0 <= j && i != j
            && h[i] == Resolved(h[m].caller, h[m].key, h[m].limiter)
            && h[j] == Resolved(h[n].caller, h[n].key, h[n].limiter)
            && (h[m].key == h[n].key ==>
                  (h[m].limiter == h[n].limiter <==> !EvictedAmid(h, h[m].key, i, j)))
            && (h[m].limiter.id == h[n].limiter.id ==> h[m].key == h[n].key)
  {
    hide After, IsRun, EvictedBetween, LastOf;
    RunReturnsResolved(cfg, run);
    var h := After(cfg, run).history;
    var i, j := ResolvedFor(h, m), ResolvedFor(h, n);
    assert HasResolved(h, h[m].caller, m, h[m].key, h[m].limiter);
    assert HasResolved(h, h[n].caller, n, h[n].key, h[n].limiter);
    if h[m].caller == h[n].caller {
      LastOfIsLast(h, h[n].caller, n, m);
    }
    if i < j {
      EveryRunIsSound(cfg, run, i, j);
    } else if j < i {
      EveryRunIsSound(cfg, run, j, i);
    }
  }

  /** A limiter that nobody holds, has or will get. */
  ghost predicate Discarded(st: State, id: nat) {
    && id < st.nextId && NeverResolved(st.history, id)
    && forall t | t in st.callers && st.callers[t].HasPrivate() :: st.callers[t].limiter.id != id
  }

  /** Losing the insertion race discards the loser's own limiter, for good. */
  lemma LoserIsDiscarded(cfg: Config, st: State, t: nat)
    requires Inv(st) && st.At(t).Writing? && st.At(t).key in st.entries
    ensures Discarded(Next(cfg, st, Recheck(t)), st.At(t).limiter.id)
    ensures Next(cfg, st, Recheck(t)).At(t).limiter == st.entries[st.At(t).key].limiter
  {
    hide Sound, NeverResolved;
    var c, l := st.At(t), st.entries[st.At(t).key].limiter;
    EntryIsKnown(st, c.key);
    NeverResolvedAppend(st.history, Resolved(t, c.key, l), c.limiter.id);
  }

  lemma DiscardedStays(cfg: Config, st: State, step: Step, id: nat)
    requires Inv(st) && Discarded(st, id) && Enabled(st, step)
    ensures Discarded(Next(cfg, st, step), id)
  {
    hide Sound, NeverResolved, Current, SweepExact, Exclusive, Holding;
    var st' := Next(cfg, st, step);
    forall key | key in st.entries ensures !NeverResolved(st.history, st.entries[key].limiter.id) {
      EntryIsKnown(st, key);
    }
    if st'.history != st.history {
      NeverResolvedAppend(st.history, st'.history[|st.history|], id);
    }
  }

  /** Whatever steps follow, a limiter that lost the race is never resolved for anyone. */
  lemma {:induction false} LoserIsNeverPublished(cfg: Config, run: seq<Step>, n: nat, id: nat)
    requires IsRun(cfg, run) && n <= |run| && IsRun(cfg, run[..n]) && Discarded(After(cfg, run[..n]), id)
    ensures Discarded(After(cfg, run), id) && NeverResolved(After(cfg, run).history, id)
    decreases |run|
  {
    hide Discarded, Next, Enabled, Inv, NeverResolved;
    if n == |run| {
      assert run[..n] == run;
    } else {
      var before := run[..|run| - 1];
      assert before[..n] == run[..n];
      LoserIsNeverPublished(cfg, before, n, id);
      RunKeepsInv(cfg, before);
      DiscardedStays(cfg, After(cfg, before), run[|run| - 1], id);
    }
    DiscardedIsUnresolved(After(cfg, run), id);
  }

  lemma DiscardedIsUnresolved(st: State, id: nat)
    requires Discarded(st, id)
    ensures NeverResolved(st.history, id)
  {
  }

  /** When a sweep ends it has removed exactly the entries that were stale when it began. */
  lemma SweepRemovesTheStale(st: State)
    requires Inv(st) && st.gc.Sweeping? && st.gc.todo == {}
    ensures st.entries == Swept(st.gc.start, st.gc.cutoff)
  {
  }

  // ----- One call or sweep with nobody else about -----

  /** `steps` lead from `st` to `end`. */
  ghost predicate Leads(cfg: Config, st: State, steps: seq<Step>, end: State)
    decreases |steps|
  {
    if steps == [] then st == end
    else Enabled(st, steps[0]) && Leads(cfg, Next(cfg, st, steps[0]), steps[1..], end)
  }

  lemma {:induction false} RunGoesOn(cfg: Config, run: seq<Step>, steps: seq<Step>, end: State)
    requires IsRun(cfg, run) && Leads(cfg, After(cfg, run), steps, end)
    ensures IsRun(cfg, run + steps) && After(cfg, run + steps) == end
    decreases |steps|
  {
    hide Enabled, Next;
    if steps == [] {
      assert run + steps == run;
    } else {
      var more := run + [steps[0]];
      assert more[..|run|] == run && more[|run|] == steps[0];
      RunGoesOn(cfg, more, steps[1..], end);
      assert more + steps[1..] == run + steps;
    }
  }

  /** Nobody is in or waiting for the lock. */
  ghost predicate Quiet(st: State) {
    st.gc.Waiting? && forall t | t in st.callers :: st.callers[t].Idle? || st.callers[t].Leaving?
  }

  /** What one undisturbed call does to the map, and the limiter it returns. */
  datatype Served = Served(entries: Entries, nextId: nat, limiter: Limiter)

  function Serve(cfg: Config, entries: Entries, nextId: nat, key: bytes, action: bytes, now: int): Served {
    if key in entries then Served(Seen(entries, key, now), nextId, entries[key].limiter)
    else
      var l := Limiter(nextId, ResolveLimit(cfg, action));
      Served(entries[key := Entry(l, now)], nextId + 1, l)
  }

  function HitSteps(t: nat, key: bytes, action: bytes, now: int): seq<Step> {
    [Call(t, key, action, now), RLock(t), Look(t), Touch(t), RUnlock(t)]
  }

  function MissSteps(t: nat, key: bytes, action: bytes, now: int): seq<Step> {
    [Call(t, key, action, now), RLock(t), Look(t), RUnlock(t), Make(t), Lock(t), Recheck(t), Insert(t), Unlock(t)]
  }

  /** The state once an undisturbed call has left the lock. */
  ghost function ServedState(cfg: Config, st: State, t: nat, key: bytes, action: bytes, now: int): State {
    var s := Serve(cfg, st.entries, st.nextId, key, action, now);
    st.Move(t, Leaving(key, s.limiter)).(
      entries := s.entries, nextId := s.nextId, history := st.history + [Resolved(t, key, s.limiter)])
  }

  lemma LeadsStep(cfg: Config, st: State, step: Step, rest: seq<Step>, end: State)
    requires Enabled(st, step) && Leads(cfg, Next(cfg, st, step), rest, end)
    ensures Leads(cfg, st, [step] + rest, end)
  {
    assert ([step] + rest)[1..] == rest;
  }

  lemma MoveMove(st: State, t: nat, a: Caller, b: Caller)
    ensures st.Move(t, a).Move(t, b) == st.Move(t, b)
  {
    assert st.callers[t := a][t := b] == st.callers[t := b];
  }

  /** The opening steps of any call: up to the lookup under the read lock. */
  lemma CallPart(cfg: Config, st: State, t: nat, key: bytes, action: bytes, now: int, rest: seq<Step>, end: State)
    requires Quiet(st) && st.At(t).Idle?
    requires Leads(cfg, st.Move(t, Reading(key, action, now)), rest, end)
    ensures Leads(cfg, st, [Call(t, key, action, now), RLock(t)] + rest, end)
  {
    var st1 := st.Move(t, Begun(key, action, now));
    MoveMove(st, t, Begun(key, action, now), Reading(key, action, now));
    LeadsStep(cfg, st1, RLock(t), rest, end);
    LeadsStep(cfg, st, Call(t, key, action, now), [RLock(t)] + rest, end);
    assert [Call(t, key, action, now)] + ([RLock(t)] + rest) == [Call(t, key, action, now), RLock(t)] + rest;
  }

  lemma HitCall(cfg: Config, st: State, t: nat, key: bytes, action: bytes, now: int)
    requires Quiet(st) && st.At(t).Idle? && key in st.entries
    ensures Leads(cfg, st, HitSteps(t, key, action, now), ServedState(cfg, st, t, key, action, now))
  {
    hide Quiet;
    var end, l := ServedState(cfg, st, t, key, action, now), st.entries[key].limiter;
    var h := st.(history := st.history + [Resolved(t, key, l)]);
    var served := h.(entries := Seen(st.entries, key, now));
    MoveMove(st, t, Reading(key, action, now), Found(key, now, l));
    MoveMove(h, t, Found(key, now, l), Touched(key, l));
    MoveMove(served, t, Touched(key, l), Leaving(key, l));
    assert Leads(cfg, end, [], end);
    LeadsStep(cfg, served.Move(t, Touched(key, l)), RUnlock(t), [], end);
    LeadsStep(cfg, h.Move(t, Found(key, now, l)), Touch(t), [RUnlock(t)], end);
    LeadsStep(cfg, st.Move(t, Reading(key, action, now)), Look(t), [Touch(t)] + [RUnlock(t)], end);
    CallPart(cfg, st, t, key, action, now, [Look(t)] + ([Touch(t)] + [RUnlock(t)]), end);
    assert HitSteps(t, key, action, now) ==
           [Call(t, key, action, now), RLock(t)] + ([Look(t)] + ([Touch(t)] + [RUnlock(t)]));
  }

  /** What the section under the write lock leaves in the map, and the limiter it keeps. */
  datatype Section = Section(entries: Entries, limiter: Limiter)

  function WriteSection(entries: Entries, key: bytes, own: Limiter, now: int): Section {
    if key in entries then Section(Seen(entries, key, now), entries[key].limiter)
    else Section(entries[key := Entry(own, now)], own)
  }

  function WriteSteps(t: nat, present: bool): seq<Step> {
    [Recheck(t), if present then TouchLost(t) else Insert(t), Unlock(t)]
  }

  /** The state once a caller's section has left the lock. */
  function SectionState(st: State, t: nat, key: bytes, s: Section): State {
    st.Move(t, Leaving(key, s.limiter)).(entries := s.entries, history := st.history + [Resolved(t, key, s.limiter)])
  }

  /** Whatever others do, a caller under the write lock does to the map what the section
      says: it keeps whoever came first and puts its own limiter in where there is none. */
  lemma WritePart(cfg: Config, st: State, t: nat, key: bytes, now: int, own: Limiter)
    ensures Leads(cfg, st.Move(t, Writing(key, now, own)), WriteSteps(t, key in st.entries),
                  SectionState(st, t, key, WriteSection(st.entries, key, own, now)))
  {
    if key in st.entries {
      LostPart(cfg, st, t, key, now, own);
    } else {
      WonPart(cfg, st, t, key, now, own);
    }
  }

  lemma LostPart(cfg: Config, st: State, t: nat, key: bytes, now: int, own: Limiter)
    requires key in st.entries
    ensures Leads(cfg, st.Move(t, Writing(key, now, own)), WriteSteps(t, true),
                  SectionState(st, t, key, Section(Seen(st.entries, key, now), st.entries[key].limiter)))
  {
    var l := st.entries[key].limiter;
    var read := st.(history := st.history + [Resolved(t, key, l)]);
    var put := read.(entries := Seen(st.entries, key, now));
    var end := put.Move(t, Leaving(key, l));
    MoveMove(st, t, Writing(key, now, own), Lost(key, now, l));
    MoveMove(read, t, Lost(key, now, l), Settled(key, l));
    MoveMove(put, t, Settled(key, l), Leaving(key, l));
    LeadsStep(cfg, put.Move(t, Settled(key, l)), Unlock(t), [], end);
    LeadsStep(cfg, read.Move(t, Lost(key, now, l)), TouchLost(t), [Unlock(t)], end);
    LeadsStep(cfg, st.Move(t, Writing(key, now, own)), Recheck(t), [TouchLost(t), Unlock(t)], end);
  }

  lemma WonPart(cfg: Config, st: State, t: nat, key: bytes, now: int, own: Limiter)
    requires key !in st.entries
    ensures Leads(cfg, st.Move(t, Writing(key, now, own)), WriteSteps(t, false),
                  SectionState(st, t, key, Section(st.entries[key := Entry(own, now)], own)))
  {
    var put := st.(entries := st.entries[key := Entry(own, now)], history := st.history + [Resolved(t, key, own)]);
    var end := put.Move(t, Leaving(key, own));
    MoveMove(st, t, Writing(key, now, own), Inserting(key, now, own));
    MoveMove(st, t, Inserting(key, now, own), Settled(key, own));
    MoveMove(put, t, Settled(key, own), Leaving(key, own));
    LeadsStep(cfg, put.Move(t, Settled(key, own)), Unlock(t), [], end);
    LeadsStep(cfg, st.Move(t, Inserting(key, now, own)), Insert(t), [Unlock(t)], end);
    LeadsStep(cfg, st.Move(t, Writing(key, now, own)), Recheck(t), [Insert(t), Unlock(t)], end);
  }

  lemma InsertPart(cfg: Config, st: State, t: nat, key: bytes, action: bytes, now: int)
    requires Quiet(st) && st.At(t).Idle? && key !in st.entries
    ensures Leads(cfg, st.Move(t, Missed(key, action, now)), [Make(t), Lock(t), Recheck(t), Insert(t), Unlock(t)],
                  ServedState(cfg, st, t, key, action, now))
  {
    hide Leads;
    var end, l := ServedState(cfg, st, t, key, action, now), Limiter(st.nextId, ResolveLimit(cfg, action));
    var made := st.(nextId := st.nextId + 1);
    var rest := WriteSteps(t, false);
    WonPart(cfg, made, t, key, now, l);
    MoveMove(st, t, Missed(key, action, now), Made(key, now, l));
    MoveMove(made, t, Made(key, now, l), Writing(key, now, l));
    LeadsStep(cfg, made.Move(t, Made(key, now, l)), Lock(t), rest, end);
    LeadsStep(cfg, st.Move(t, Missed(key, action, now)), Make(t), [Lock(t)] + rest, end);
    assert [Make(t)] + ([Lock(t)] + rest) == [Make(t), Lock(t), Recheck(t), Insert(t), Unlock(t)];
  }

  lemma MissCall(cfg: Config, st: State, t: nat, key: bytes, action: bytes, now: int)
    requires Quiet(st) && st.At(t).Idle? && key !in st.entries
    ensures Leads(cfg, st, MissSteps(t, key, action, now), ServedState(cfg, st, t, key, action, now))
  {
    hide Quiet, Leads;
    var end := ServedState(cfg, st, t, key, action, now);
    var rest := [Make(t), Lock(t), Recheck(t), Insert(t), Unlock(t)];
    InsertPart(cfg, st, t, key, action, now);
    MoveMove(st, t, Reading(key, action, now), Absent(key, action, now));
    MoveMove(st, t, Absent(key, action, now), Missed(key, action, now));
    LeadsStep(cfg, st.Move(t, Absent(key, action, now)), RUnlock(t), rest, end);
    LeadsStep(cfg, st.Move(t, Reading(key, action, now)), Look(t), [RUnlock(t)] + rest, end);
    CallPart(cfg, st, t, key, action, now, [Look(t)] + ([RUnlock(t)] + rest), end);
    assert MissSteps(t, key, action, now) ==
           [Call(t, key, action, now), RLock(t)] + ([Look(t)] + ([RUnlock(t)] + rest));
  }

  lemma DeletePart(cfg: Config, st: State, key: bytes, cutoff: int, start: Entries)
    requires st.gc.Waiting? && st.entries.Keys == {key}
    ensures Leads(cfg, st.(gc := Condemning(cutoff, {}, start, key)), [GcDelete, GcUnlock],
                  st.(entries := map[], history := st.history + [Evicted(key)]))
  {
    var end := st.(entries := map[], history := st.history + [Evicted(key)]);
    assert st.entries - {key} == map[];
    assert Leads(cfg, end, [], end);
    hide Leads;
    LeadsStep(cfg, end.(gc := Sweeping(cutoff, {}, start)), GcUnlock, [], end);
    LeadsStep(cfg, st.(gc := Condemning(cutoff, {}, start, key)), GcDelete, [GcUnlock], end);
    assert [GcDelete] + [GcUnlock] == [GcDelete, GcUnlock];
  }

  lemma SweepOne(cfg: Config, st: State, key: bytes, e: Entry, cutoff: int)
    requires Quiet(st) && st.entries == map[key := e] && e.lastSeen < cutoff
    ensures Leads(cfg, st, [GcLock(cutoff), GcVisit(key), GcDelete, GcUnlock],
                  st.(entries := map[], history := st.history + [Evicted(key)]))
  {
    hide Leads;
    var end := st.(entries := map[], history := st.history + [Evicted(key)]);
    assert {key} - {key} == {};
    DeletePart(cfg, st, key, cutoff, st.entries);
    var rest := [GcDelete, GcUnlock];
    LeadsStep(cfg, st.(gc := Sweeping(cutoff, {key}, st.entries)), GcVisit(key), rest, end);
    LeadsStep(cfg, st, GcLock(cutoff), [GcVisit(key)] + rest, end);
    assert [GcLock(cutoff)] + ([GcVisit(key)] + rest) == [GcLock(cutoff), GcVisit(key), GcDelete, GcUnlock];
  }

  /** Resolution under the lock, not the moment a call returns, is what counts: a call that
      is slow to return can hand out, after a newer limiter was returned, the one evicted
      before, with no eviction between the two returns. */
  lemma SlowReturnIsStale(cfg: Config) returns (run: seq<Step>, stale: Limiter, latest: Limiter)
    ensures IsRun(cfg, run) && stale != latest
    ensures var h := After(cfg, run).history;
            |h| == 5 && h[3] == Returned(1, "k", latest) && h[4] == Returned(0, "k", stale)
  {
    hide Leads, ServedState;
    var k, a: bytes := "k", "a";
    var first := MissSteps(0, k, a, 0);
    MissCall(cfg, Initial, 0, k, a, 0);
    RunGoesOn(cfg, [], first, ServedState(cfg, Initial, 0, k, a, 0));
    assert [] + first == first;
    var st1 := AfterFirst(cfg, k, a);
    stale := st1.entries[k].limiter;
    var sweep := [GcLock(1), GcVisit(k), GcDelete, GcUnlock];
    SweepOne(cfg, st1, k, st1.entries[k], 1);
    var st2 := st1.(entries := map[], history := st1.history + [Evicted(k)]);
    RunGoesOn(cfg, first, sweep, st2);
    var second := MissSteps(1, k, a, 0);
    MissCall(cfg, st2, 1, k, a, 0);
    RunGoesOn(cfg, first + sweep, second, ServedState(cfg, st2, 1, k, a, 0));
    var st3 := AfterSecond(cfg, st2, k, a);
    latest := st3.entries[k].limiter;
    run := first + sweep + second;
    TwoReturns(cfg, run, st3, k, stale, latest);
    run := run + [Return(1), Return(0)];
  }

  lemma AfterFirst(cfg: Config, k: bytes, a: bytes) returns (st: State)
    ensures st == ServedState(cfg, Initial, 0, k, a, 0) && Quiet(st)
    ensures st.entries == map[k := Entry(Limiter(0, ResolveLimit(cfg, a)), 0)] && st.nextId == 1
    ensures st.history == [Resolved(0, k, Limiter(0, ResolveLimit(cfg, a)))]
    ensures st.callers == map[0 := Leaving(k, Limiter(0, ResolveLimit(cfg, a)))]
  {
    st := ServedState(cfg, Initial, 0, k, a, 0);
  }

  lemma AfterSecond(cfg: Config, st2: State, k: bytes, a: bytes) returns (st: State)
    requires st2.entries == map[] && st2.nextId == 1
    ensures st == ServedState(cfg, st2, 1, k, a, 0)
    ensures st.entries == map[k := Entry(Limiter(1, ResolveLimit(cfg, a)), 0)]
    ensures st.history == st2.history + [Resolved(1, k, Limiter(1, ResolveLimit(cfg, a)))]
    ensures st.callers == st2.callers[1 := Leaving(k, Limiter(1, ResolveLimit(cfg, a)))]
  {
    st := ServedState(cfg, st2, 1, k, a, 0);
  }

  lemma TwoReturns(cfg: Config, run: seq<Step>, st: State, k: bytes, l0: Limiter, l1: Limiter)
    requires IsRun(cfg, run) && After(cfg, run) == st
    requires st.callers == map[0 := Leaving(k, l0), 1 := Leaving(k, l1)]
    ensures IsRun(cfg, run + [Return(1), Return(0)])
    ensures After(cfg, run + [Return(1), Return(0)]).history == st.history + [Returned(1, k, l1), Returned(0, k, l0)]
  {
    var st1 := st.Move(1, Idle).(history := st.history + [Returned(1, k, l1)]);
    var st2 := st1.Move(0, Idle).(history := st1.history + [Returned(0, k, l0)]);
    assert st1.At(0) == Leaving(k, l0);
    LeadsStep(cfg, st1, Return(0), [], st2);
    LeadsStep(cfg, st, Return(1), [Return(0)], st2);
    RunGoesOn(cfg, run, [Return(1)] + [Return(0)], st2);
    assert [Return(1)] + [Return(0)] == [Return(1), Return(0)];
    assert st2.history == st.history + [Returned(1, k, l1), Returned(0, k, l0)];
  }

  // ----- The throttler -----

  /** The map without the entries last seen before `cutoff`. */
  function Swept(entries: Entries, cutoff: int): Entries {
    map k | k in entries && entries[k].lastSeen >= cutoff :: entries[k]
  }

  class Throttler {
    const cfg: Config
    var entries: Entries
    var made: nat

    constructor (cfg: Config)
      ensures this.cfg == cfg && entries == map[] && made == 0
    {
      this.cfg := cfg;
      entries, made := map[], 0;
    }

    /** The section under the read lock. */
    method LookUp(key: bytes, now: int) returns (limiter: Option<Limiter>)
      modifies this`entries
      ensures limiter == if key in old(entries) then Some(old(entries)[key].limiter) else None
      ensures entries == if key in old(entries) then old(entries)[key := Entry(old(entries)[key].limiter, now)] else old(entries)
    {
      if key in entries {
        entries := entries[key := entries[key].(lastSeen := now)];
        return Some(entries[key].limiter);
      }
      return None;
    }

    /** The section under the write lock: whoever came first is kept. */
    method InsertUnlessPresent(key: bytes, limiter: Limiter, now: int) returns (kept: Limiter)
      modifies this`entries
      ensures Section(entries, kept) == WriteSection(old(entries), key, limiter, now)
      ensures kept == if key in old(entries) then old(entries)[key].limiter else limiter
      ensures entries == old(entries)[key := Entry(kept, now)]
    {
      if key in entries {
        entries := entries[key := entries[key].(lastSeen := now)];
        return entries[key].limiter;
      }
      entries := entries[key := Entry(limiter, now)];
      return limiter;
    }

    /** Whatever other callers and sweeps do while this caller is outside the lock. */
    method Others()
      modifies this
      ensures made >= old(made)
    {
      entries := *;
      var later: nat :| later >= made;
      made := later;
    }

    /** The whole call, with others at work between its sections. `met` is the map as its last
        section finds it and `own` the limiter made before it. Either way the limiter returned
        is the key's, last seen now, and no other entry changes. */
    method GetOrCreate(key: bytes, action: bytes, now: int) returns (limiter: Limiter, ghost met: Entries, ghost own: Limiter)
      modifies this
      ensures entries == met[key := Entry(limiter, now)]
      ensures key in old(entries) ==>
                && met == old(entries) && limiter == old(entries)[key].limiter && made == old(made)
      ensures key !in old(entries) ==>
                && limiter == (if key in met then met[key].limiter else own)
                && own.bucket == ResolveLimit(cfg, action) && old(made) <= own.id < made
    {
      met, own := entries, Limiter(made, ResolveLimit(cfg, action));
      var found := LookUp(key, now);
      if found.Some? {
        return found.value, met, own;
      }
      Others();
      var created := Limiter(made, ResolveLimit(cfg, action));
      made := made + 1;
      Others();
      met, own := entries, created;
      limiter := InsertUnlessPresent(key, created, now);
    }

    /** One sweep, visiting the keys in any order. */
    method Sweep(cutoff: int)
      modifies this`entries
      ensures entries == Swept(old(entries), cutoff)
      ensures forall k :: k in entries <==> k in old(entries) && old(entries)[k].lastSeen >= cutoff
      ensures forall k | k in entries :: entries[k] == old(entries)[k]
    {
      var todo := entries.Keys;
      while todo != {}
        invariant todo <= old(entries).Keys
        invariant entries == map k | k in old(entries) && (k in todo || old(entries)[k].lastSeen >= cutoff) :: old(entries)[k]
      {
        var key :| key in todo;
        if entries[key].lastSeen < cutoff {
          entries := entries - {key};
        }
        todo := todo - {key};
      }
    }
  }
}
