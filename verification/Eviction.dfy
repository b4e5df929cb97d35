/** What the collector may evict, said of the calls themselves: a limiter's last use, in
    every interleaving, against the sweep's cutoff (pkg/ratelimit/ratelimit.go:70-120). */
module Eviction {
  import opened Bytes
  import opened RateLimit
  import opened Limits

  /** The step that marks a key as seen: a caller touches the entry it found, or the one it
      lost to, or puts its own in. */
  predicate Marks(step: Step) {
    step.Touch? || step.TouchLost? || step.Insert?
  }

  /** When the call was made whose step marked a key last. */
  ghost function LastUse(run: seq<Step>, key: bytes): Option<int> {
    if run == [] then None
    else
      var before, step := run[..|run| - 1], run[|run| - 1];
      if Marks(step) && LastCall(before, step.t).Some? && LastCall(before, step.t).value.key == key
      then Some(LastCall(before, step.t).value.now)
      else LastUse(before, key)
  }

  /** The cutoff of the sweep begun last. */
  ghost function LastCutoff(run: seq<Step>): Option<int> {
    if run == [] then None
    else
      var step := run[|run| - 1];
      if step.GcLock? then Some(step.cutoff) else LastCutoff(run[..|run| - 1])
  }

  predicate HasNow(c: Caller) {
    !c.Idle? && !c.Touched? && !c.Settled? && !c.Leaving?
  }

  /** The map knows when each key was used last, callers when they were called, and the
      collector its cutoff. */
  ghost predicate UsesKnown(run: seq<Step>, st: State) {
    && (forall key | key in st.entries :: LastUse(run, key) == Some(st.entries[key].lastSeen))
    && (forall t | t in st.callers && HasNow(st.callers[t]) ::
          LastCall(run, t).Some? && LastCall(run, t).value.now == st.callers[t].now)
    && (!st.gc.Waiting? ==> LastCutoff(run) == Some(st.gc.cutoff))
  }

  lemma NowMoves(cfg: Config, st: State, step: Step)
    requires Enabled(st, step) && Actor(step) >= 0
    ensures var c, c' := st.At(Actor(step)), Next(cfg, st, step).At(Actor(step));
            HasNow(c') ==> if step.Call? then c'.now == step.now else HasNow(c) && c'.now == c.now
  {
    hide CanRead, CanWrite;
  }

  /** Only a marking step sets an entry, at its caller's key and time, and only the collector
      takes one out. */
  lemma EntryMoves(cfg: Config, st: State, step: Step)
    requires Enabled(st, step)
    ensures var st' := Next(cfg, st, step);
            if Marks(step) then
              var c := st.At(step.t);
              && step.t in st.callers && HasNow(c)
              && c.key in st'.entries && st'.entries[c.key].lastSeen == c.now
              && forall key | key in st'.entries && key != c.key :: key in st.entries && st'.entries[key] == st.entries[key]
            else forall key | key in st'.entries :: key in st.entries && st'.entries[key] == st.entries[key]
  {
    hide CanRead, CanWrite;
  }

  lemma CutoffMoves(cfg: Config, st: State, step: Step)
    requires Enabled(st, step)
    ensures var st' := Next(cfg, st, step);
            !st'.gc.Waiting? ==>
              if step.GcLock? then st'.gc.cutoff == step.cutoff && st'.gc.start == st.entries
              else !st.gc.Waiting? && st'.gc.cutoff == st.gc.cutoff && st'.gc.start == st.gc.start
    ensures Next(cfg, st, step).gc.Waiting? && !st.gc.Waiting? ==> step.GcUnlock?
    ensures step.GcLock? ==> !Next(cfg, st, step).gc.Waiting?
  {
    hide CanRead, CanWrite;
  }

  lemma {:induction false} RunUsesKnown(cfg: Config, run: seq<Step>)
    requires IsRun(cfg, run)
    ensures UsesKnown(run, After(cfg, run))
    decreases |run|
  {
    hide Next, Enabled;
    if run != [] {
      var n := |run| - 1;
      RunUsesKnown(cfg, run[..n]);
      RunCallsKnown(cfg, run[..n]);
      var st, step := After(cfg, run[..n]), run[n];
      OthersStay(cfg, st, step);
      EntryMoves(cfg, st, step);
      CutoffMoves(cfg, st, step);
      if Actor(step) >= 0 {
        NowMoves(cfg, st, step);
      }
    }
  }

  lemma DeleteRecords(cfg: Config, st: State)
    requires Enabled(st, GcDelete) && SweepExact(st)
    ensures var h := Next(cfg, st, GcDelete).history;
            && h == st.history + [Evicted(st.gc.key)]
            && st.gc.key in st.entries && st.entries[st.gc.key].lastSeen < st.gc.cutoff
  {
  }

  /** In every run a key is evicted only if the call that used it last was made before the
      sweep's cutoff. */
  lemma OnlyTheUnusedAreEvicted(cfg: Config, run: seq<Step>)
    requires IsRun(cfg, run) && run != [] && run[|run| - 1].GcDelete?
    ensures var h, before := After(cfg, run).history, run[..|run| - 1];
            && h != [] && h[|h| - 1].Evicted?
            && LastUse(before, h[|h| - 1].key).Some? && LastCutoff(before).Some?
            && LastUse(before, h[|h| - 1].key).value < LastCutoff(before).value
  {
    hide Next, Enabled, LastUse, LastCutoff;
    var before := run[..|run| - 1];
    RunUsesKnown(cfg, before);
    RunKeepsInv(cfg, before);
    DeleteRecords(cfg, After(cfg, before));
    assert !After(cfg, before).gc.Waiting? by {
      CondemningDeletes(After(cfg, before));
    }
  }

  lemma CondemningDeletes(st: State)
    requires Enabled(st, GcDelete)
    ensures st.gc.Condemning?
  {
  }

  /** A sweep under way: neither its start nor its end. */
  predicate Within(steps: seq<Step>) {
    forall i | 0 <= i < |steps| :: !steps[i].GcLock? && !steps[i].GcUnlock?
  }

  lemma {:induction false} SweepGoesOn(cfg: Config, before: seq<Step>, cutoff: int, sweep: seq<Step>)
    requires IsRun(cfg, before + [GcLock(cutoff)] + sweep) && Within(sweep)
    ensures IsRun(cfg, before)
    ensures var st := After(cfg, before + [GcLock(cutoff)] + sweep);
            !st.gc.Waiting? && st.gc.cutoff == cutoff && st.gc.start == After(cfg, before).entries
    decreases |sweep|
  {
    hide Next, Enabled;
    var run := before + [GcLock(cutoff)] + sweep;
    var n := |run| - 1;
    if sweep == [] {
      assert run[..n] == before && run[n] == GcLock(cutoff);
      CutoffMoves(cfg, After(cfg, before), run[n]);
    } else {
      var rest := sweep[..|sweep| - 1];
      assert run[..n] == before + [GcLock(cutoff)] + rest && run[n] == sweep[|sweep| - 1];
      SweepGoesOn(cfg, before, cutoff, rest);
      CutoffMoves(cfg, After(cfg, run[..n]), run[n]);
    }
  }

  lemma UnlockEnds(cfg: Config, st: State)
    requires Enabled(st, GcUnlock)
    ensures st.gc.Sweeping? && st.gc.todo == {} && Next(cfg, st, GcUnlock).entries == st.entries
  {
  }

  /** In every run a whole sweep, whatever its callers do meanwhile, keeps exactly the keys
      of the map whose last use was by a call made at or after the cutoff. */
  lemma SweepIsExact(cfg: Config, before: seq<Step>, cutoff: int, sweep: seq<Step>, key: bytes)
    requires IsRun(cfg, before + [GcLock(cutoff)] + sweep + [GcUnlock]) && Within(sweep)
    ensures IsRun(cfg, before)
    ensures key in After(cfg, before + [GcLock(cutoff)] + sweep + [GcUnlock]).entries <==>
            key in After(cfg, before).entries && LastUse(before, key).Some? && LastUse(before, key).value >= cutoff
  {
    hide Next, Enabled, LastUse;
    var swept := before + [GcLock(cutoff)] + sweep;
    var run := swept + [GcUnlock];
    assert run[..|run| - 1] == swept && run[|run| - 1] == GcUnlock;
    SweepGoesOn(cfg, before, cutoff, sweep);
    UnlockEnds(cfg, After(cfg, swept));
    RunKeepsInv(cfg, swept);
    RunUsesKnown(cfg, before);
  }

  /** An undisturbed call leaves its key in the map with the limiter it returns, seen when it
      was made, and every other key as it was. */
  lemma CallMarksItsKey(cfg: Config, entries: Entries, nextId: nat, key: bytes, action: bytes, now: int)
    ensures var s := Serve(cfg, entries, nextId, key, action, now);
            && s.entries == entries[key := Entry(s.limiter, now)]
            && (key in entries ==> s.limiter == entries[key].limiter)
  {
  }
}
