/** The streamed-body check, pkg/sigv4/payload.go: a reader that hashes what passes through
    it and withholds the read that completes a body with the wrong digest. */
module Payload {
  import opened Bytes

  /** What a read may report. */
  datatype ReadError = NoError | EOF | UnexpectedEOF | Mismatch | Other(code: int)

  /** The outcome of one read: the bytes handed over and the error beside them. */
  datatype Chunk = Chunk(data: bytes, err: ReadError)

  /** What is signed: the hash, kept abstract and taken in hex, the digest, and the length
      when one was declared. */
  datatype Signed = Signed(hex: bytes -> bytes, digest: bytes, sized: bool, length: int)

  /** The wrapper's fields; `hashed` is everything written to the running hash. */
  datatype State = State(hashed: bytes, remaining: int, verified: bool, failed: bool)

  // ----- One read, as a state change -----

  function Start(s: Signed): State {
    State([], s.length, false, false)
  }

  datatype Turn = Turn(state: State, answer: Chunk)

  function Refuse(st: State): Turn {
    Turn(st.(failed := true), Chunk([], Mismatch))
  }

  /** The answer to one read, given what the transport handed over. */
  function Step(s: Signed, st: State, c: Chunk): Turn {
    if st.failed then Turn(st, Chunk([], Mismatch))
    else
      var now := st.(hashed := st.hashed + c.data, remaining := st.remaining - |c.data|);
      if s.sized && now.remaining > 0 && c.err != NoError && c.err != EOF then Refuse(now)
      else if !now.verified && ((s.sized && now.remaining <= 0) || c.err == EOF) then
        if s.hex(now.hashed) != s.digest then Refuse(now) else Turn(now.(verified := true), c)
      else Turn(now, c)
  }

  // ----- Whole runs -----

  function Data(chunks: seq<Chunk>): bytes {
    if chunks == [] then [] else Data(chunks[..|chunks| - 1]) + chunks[|chunks| - 1].data
  }

  /** The wrapper after a run of reads. */
  function After(s: Signed, run: seq<Chunk>): State
    decreases |run|
  {
    if run == [] then Start(s) else Step(s, After(s, run[..|run| - 1]), run[|run| - 1]).state
  }

  /** What the consumer is answered, read by read. */
  function Answers(s: Signed, run: seq<Chunk>): (r: seq<Chunk>)
    ensures |r| == |run|
    decreases |run|
  {
    if run == [] then []
    else
      var before := run[..|run| - 1];
      Answers(s, before) + [Step(s, After(s, before), run[|run| - 1]).answer]
  }

  /** How a body may end: at a declared length, or at end-of-file only. */
  datatype Extent = Extent(sized: bool, length: int)

  function ExtentOf(s: Signed): Extent {
    Extent(s.sized, s.length)
  }

  ghost predicate SawEOF(run: seq<Chunk>) {
    exists i | 0 <= i < |run| :: run[i].err == EOF
  }

  /** The declared length or end-of-file has been handed over. */
  ghost predicate InSight(x: Extent, run: seq<Chunk>) {
    (x.sized && run != [] && |Data(run)| >= x.length) || SawEOF(run)
  }

  /** The run up to and with the read that first brings the end in sight, or all of it. */
  ghost function UpToEnd(x: Extent, run: seq<Chunk>): (r: seq<Chunk>)
    ensures r <= run
    decreases |run|
  {
    if run == [] then []
    else
      var before := run[..|run| - 1];
      if InSight(x, before) then UpToEnd(x, before) else run
  }

  /** A sized body breaks off: bytes are still owed and the error is not end-of-file. */
  ghost predicate BreaksOff(x: Extent, before: seq<Chunk>, c: Chunk) {
    x.sized && |Data(before)| + |c.data| < x.length && c.err != NoError && c.err != EOF
  }

  /** The run before it first breaks off. */
  ghost function Intact(x: Extent, run: seq<Chunk>): (r: seq<Chunk>)
    ensures r <= run
    decreases |run|
  {
    if run == [] then []
    else
      var n := |run| - 1;
      var before := Intact(x, run[..n]);
      if |before| < n || BreaksOff(x, before, run[n]) then before else run
  }

  /** The transport hands over no bytes after the read that brings the end in sight. */
  ghost predicate StopsAtEnd(x: Extent, run: seq<Chunk>) {
    forall j | |UpToEnd(x, run)| <= j < |run| :: run[j].data == []
  }

  /** What a run must be for every read of it to be passed on: it does not break off, and
      what it had handed over when the end came in sight hashes to the digest. */
  ghost predicate Passes(s: Signed, run: seq<Chunk>) {
    && Intact(ExtentOf(s), run) == run
    && (InSight(ExtentOf(s), run) ==> s.hex(Data(UpToEnd(ExtentOf(s), run))) == s.digest)
  }

  /** The wrapper's fields after an unrefused run. */
  ghost predicate Tracked(s: Signed, st: State, run: seq<Chunk>) {
    && !st.failed
    && st.hashed == Data(run) && st.remaining == s.length - |Data(run)|
    && (st.verified <==> InSight(ExtentOf(s), run))
  }

  lemma AppendChunk(x: Extent, run: seq<Chunk>, c: Chunk)
    ensures var more := run + [c];
            && Data(more) == Data(run) + c.data
            && (SawEOF(more) <==> SawEOF(run) || c.err == EOF)
            && UpToEnd(x, more) == (if InSight(x, run) then UpToEnd(x, run) else more)
            && (Intact(x, more) == more <==> Intact(x, run) == run && !BreaksOff(x, run, c))
  {
    hide InSight, BreaksOff;
    var more := run + [c];
    assert more[..|run|] == run && more[|run|] == c;
    assert forall i | 0 <= i < |run| :: more[i] == run[i];
    assert |Intact(x, run)| == |run| ==> Intact(x, run) == run;
  }

  lemma StepTracks(s: Signed, st: State, run: seq<Chunk>, c: Chunk)
    requires Tracked(s, st, run) && Passes(s, run)
    ensures var t := Step(s, st, c);
            && (!t.state.failed <==> Passes(s, run + [c]))
            && (!t.state.failed ==> t.answer == c && Tracked(s, t.state, run + [c]))
  {
    hide Data, SawEOF, UpToEnd, Intact;
    AppendChunk(ExtentOf(s), run, c);
  }

  /** The verdict on every run, exactly: no read has been refused if and only if the run
      passes; and then the answers are what the transport handed over. */
  lemma {:induction false} RunTracks(s: Signed, run: seq<Chunk>)
    ensures !After(s, run).failed <==> Passes(s, run)
    ensures !After(s, run).failed ==> Answers(s, run) == run && Tracked(s, After(s, run), run)
    decreases |run|
  {
    hide Data, Step, SawEOF, Passes, Tracked;
    if run == [] {
      NothingRead(s);
    } else {
      var n := |run| - 1;
      var before, c := run[..n], run[n];
      RunTracks(s, before);
      assert run == before + [c];
      if !After(s, before).failed {
        StepTracks(s, After(s, before), before, c);
      } else {
        StepFailed(s, After(s, before), c);
        if Passes(s, run) {
          PassesSoFar(s, run, n);
        }
      }
    }
  }

  lemma NothingRead(s: Signed)
    ensures Passes(s, []) && Tracked(s, Start(s), [])
  {
  }

  lemma StepFailed(s: Signed, st: State, c: Chunk)
    requires st.failed
    ensures Step(s, st, c).state.failed
  {
  }

  lemma {:induction false} PassesSoFar(s: Signed, run: seq<Chunk>, k: nat)
    requires k <= |run| && Passes(s, run)
    ensures Passes(s, run[..k])
    decreases |run|
  {
    hide Data, SawEOF, Intact, UpToEnd;
    var x := ExtentOf(s);
    if k == |run| {
      assert run[..k] == run;
    } else {
      var before, c := run[..|run| - 1], run[|run| - 1];
      assert run == before + [c] && before[..k] == run[..k];
      AppendChunk(x, before, c);
      PassesSoFar(s, before, k);
    }
  }

  /** A refusal is for good: every later read is answered with no bytes and the mismatch. */
  lemma {:induction false} RefusalIsSticky(s: Signed, run: seq<Chunk>, k: nat)
    requires k <= |run| && After(s, run[..k]).failed
    ensures After(s, run).failed
    ensures forall i | k <= i < |run| :: Answers(s, run)[i] == Chunk([], Mismatch)
    decreases |run|
  {
    if k == |run| {
      assert run[..k] == run;
    } else {
      var before := run[..|run| - 1];
      assert before[..k] == run[..k];
      RefusalIsSticky(s, before, k);
    }
  }

  /** The answers before and after the point of refusal. */
  lemma {:induction false} RefusalPoint(s: Signed, run: seq<Chunk>) returns (k: nat)
    requires After(s, run).failed
    ensures k < |run| && !After(s, run[..k]).failed && After(s, run[..k + 1]).failed
    decreases |run|
  {
    var before := run[..|run| - 1];
    if After(s, before).failed {
      k := RefusalPoint(s, before);
      assert before[..k] == run[..k] && before[..k + 1] == run[..k + 1];
    } else {
      k := |run| - 1;
      assert run[..k + 1] == run;
    }
  }

  lemma {:induction false} AnswersPrefix(s: Signed, run: seq<Chunk>, k: nat)
    requires k <= |run|
    ensures Answers(s, run)[..k] == Answers(s, run[..k])
    decreases |run|
  {
    if k == |run| {
      assert run[..k] == run && Answers(s, run)[..k] == Answers(s, run);
    } else {
      var before := run[..|run| - 1];
      AnswersPrefix(s, before, k);
      assert before[..k] == run[..k];
      assert Answers(s, run)[..k] == Answers(s, before)[..k];
    }
  }

  lemma {:induction false} DataConcat(a: seq<Chunk>, b: seq<Chunk>)
    ensures Data(a + b) == Data(a) + Data(b)
    decreases |b|
  {
    if b == [] {
      assert a + b == a;
    } else {
      var n := |b| - 1;
      assert (a + b)[..|a + b| - 1] == a + b[..n];
      DataConcat(a, b[..n]);
    }
  }

  lemma {:induction false} NoData(chunks: seq<Chunk>)
    requires forall i | 0 <= i < |chunks| :: chunks[i].data == []
    ensures Data(chunks) == []
  {
    if chunks != [] {
      NoData(chunks[..|chunks| - 1]);
    }
  }

  /** Every run delivers exactly what the transport handed over up to some point, and from
      there on nothing but mismatches; without a refusal that point is the end. */
  lemma Delivery(s: Signed, run: seq<Chunk>) returns (k: nat)
    ensures k <= |run| && Passes(s, run[..k]) && (k < |run| ==> !Passes(s, run[..k + 1]))
    ensures Answers(s, run)[..k] == run[..k]
    ensures forall i | k <= i < |run| :: Answers(s, run)[i] == Chunk([], Mismatch)
    ensures Data(Answers(s, run)) == Data(run[..k])
    ensures !After(s, run).failed <==> k == |run|
  {
    hide Step, Data, Passes;
    RunTracks(s, run);
    if !After(s, run).failed {
      k := |run|;
      assert run[..k] == run;
    } else {
      k := RefusalPoint(s, run);
      RunTracks(s, run[..k]);
      RunTracks(s, run[..k + 1]);
      AnswersPrefix(s, run, k);
      RefusedAt(s, run, k);
      RefusalIsSticky(s, run, k + 1);
      var tail := Answers(s, run)[k..];
      assert forall i | 0 <= i < |tail| :: tail[i].data == [];
      NoData(tail);
      DataConcat(run[..k], tail);
      assert Answers(s, run) == run[..k] + tail;
    }
  }

  lemma LastAnswer(s: Signed, run: seq<Chunk>)
    requires run != []
    ensures var n := |run| - 1;
            var t := Step(s, After(s, run[..n]), run[n]);
            Answers(s, run)[n] == t.answer && After(s, run) == t.state
  {
    hide Step;
  }

  lemma RefusingAnswer(s: Signed, st: State, c: Chunk)
    requires !st.failed && Step(s, st, c).state.failed
    ensures Step(s, st, c).answer == Chunk([], Mismatch)
  {
  }

  lemma RefusedAt(s: Signed, run: seq<Chunk>, k: nat)
    requires k < |run| && !After(s, run[..k]).failed && After(s, run[..k + 1]).failed
    ensures Answers(s, run)[k] == Chunk([], Mismatch)
  {
    hide After, Step, Answers;
    var upto := run[..k + 1];
    assert upto[..k] == run[..k];
    LastAnswer(s, upto);
    RefusingAnswer(s, After(s, run[..k]), run[k]);
    AnswersPrefix(s, run, k + 1);
    assert Answers(s, run)[k] == Answers(s, run)[..k + 1][k];
  }

  // ----- The verdict, read by read -----

  /** Read `i` ends the body: end-of-file, or the declared length. */
  ghost predicate EndsAt(s: Signed, run: seq<Chunk>, i: nat)
    requires i < |run|
  {
    run[i].err == EOF || (s.sized && |Data(run[..i + 1])| >= s.length)
  }

  /** Read `i` fails with bytes still owed. */
  ghost predicate FailsAt(s: Signed, run: seq<Chunk>, i: nat)
    requires i < |run|
  {
    run[i].err != NoError && run[i].err != EOF && s.sized && |Data(run[..i + 1])| < s.length
  }

  /** Read `i` is the first to end the body, and what came up to it does not hash to the digest. */
  ghost predicate MismatchesAt(s: Signed, run: seq<Chunk>, i: nat)
    requires i < |run|
  {
    EndsAt(s, run, i) && (forall j | 0 <= j < i :: !EndsAt(s, run, j)) && s.hex(Data(run[..i + 1])) != s.digest
  }

  lemma ReadsSoFar(s: Signed, run: seq<Chunk>, i: nat)
    requires i + 1 < |run|
    ensures EndsAt(s, run[..|run| - 1], i) == EndsAt(s, run, i)
    ensures FailsAt(s, run[..|run| - 1], i) == FailsAt(s, run, i)
  {
    hide Data;
    assert run[..|run| - 1][..i + 1] == run[..i + 1];
  }

  lemma {:induction false} InSightIsEnd(s: Signed, run: seq<Chunk>)
    ensures InSight(ExtentOf(s), run) <==> exists i | 0 <= i < |run| :: EndsAt(s, run, i)
    decreases |run|
  {
    hide InSight, EndsAt;
    if run == [] {
      NothingInSight(ExtentOf(s));
    } else {
      var n := |run| - 1;
      var before := run[..n];
      InSightIsEnd(s, before);
      forall i | 0 <= i < n ensures EndsAt(s, before, i) == EndsAt(s, run, i) {
        ReadsSoFar(s, run, i);
      }
      LastEnds(s, before, run[n]);
      assert run == before + [run[n]];
    }
  }

  lemma LastEnds(s: Signed, before: seq<Chunk>, c: Chunk)
    ensures InSight(ExtentOf(s), before + [c]) <==>
            InSight(ExtentOf(s), before) || EndsAt(s, before + [c], |before|)
  {
    hide Data, SawEOF;
    AppendChunk(ExtentOf(s), before, c);
    assert (before + [c])[..|before| + 1] == before + [c];
  }

  /** A run is refused exactly when some read fails with bytes still owed, or the first read
      to end the body finds that all that came does not hash to the digest. */
  lemma {:induction false} VerdictByReads(s: Signed, run: seq<Chunk>)
    ensures After(s, run).failed <==>
            exists i | 0 <= i < |run| :: FailsAt(s, run, i) || MismatchesAt(s, run, i)
    decreases |run|
  {
    hide Data, Step, InSight, EndsAt, FailsAt, After, Answers, Passes;
    if run == [] {
      NothingFails(s);
    } else {
      var n := |run| - 1;
      var before, c := run[..n], run[n];
      assert run == before + [c];
      VerdictByReads(s, before);
      forall i | 0 <= i < n
        ensures FailsAt(s, before, i) == FailsAt(s, run, i) && EndsAt(s, before, i) == EndsAt(s, run, i)
        ensures MismatchesAt(s, before, i) == MismatchesAt(s, run, i)
      {
        ReadsSoFar(s, run, i);
        assert before[..i + 1] == run[..i + 1];
        forall j | 0 <= j < i ensures EndsAt(s, before, j) == EndsAt(s, run, j) {
          ReadsSoFar(s, run, j);
        }
      }
      LastVerdict(s, before, c);
    }
  }

  lemma NothingFails(s: Signed)
    ensures !After(s, []).failed
  {
  }

  lemma LastVerdict(s: Signed, before: seq<Chunk>, c: Chunk)
    ensures After(s, before + [c]).failed <==>
            After(s, before).failed ||
            FailsAt(s, before + [c], |before|) || MismatchesAt(s, before + [c], |before|)
  {
    hide Data, InSight, Answers, Passes;
    var run := before + [c];
    RunTracks(s, before);
    InSightIsEnd(s, before);
    AppendChunk(ExtentOf(s), before, c);
    assert run[..|before|] == before && run[..|before| + 1] == run;
    forall j | 0 <= j < |before| ensures EndsAt(s, before, j) == EndsAt(s, run, j) {
      ReadsSoFar(s, run, j);
    }
  }

  // ----- Safety -----

  /** Some read, and so the first, has been passed on. */
  ghost predicate PassedOn(s: Signed, run: seq<Chunk>) {
    run != [] && !After(s, run[..1]).failed
  }

  /** Once the declared length has been delivered, or end-of-file answered, what was
      delivered hashes to the signed digest. A declared length of zero is delivered by the
      first read that is passed on: before it nothing has been asked of the wrapper. */
  ghost predicate Safe(s: Signed, run: seq<Chunk>) {
    var out := Data(Answers(s, run));
    && (s.sized && s.length <= |out| && PassedOn(s, run) ==> s.hex(out) == s.digest)
    && ((exists i | 0 <= i < |run| :: Answers(s, run)[i].err == EOF) ==> s.hex(out) == s.digest)
  }

  lemma {:induction false} IntactPrefix(x: Extent, run: seq<Chunk>, k: nat)
    requires k <= |run| && Intact(x, run[..k]) == run[..k]
    ensures run[..k] <= Intact(x, run)
    ensures k < |run| && Intact(x, run[..k + 1]) != run[..k + 1] ==> Intact(x, run) == run[..k]
    decreases |run|
  {
    hide BreaksOff;
    if k == |run| {
      assert run[..k] == run;
    } else {
      var before := run[..|run| - 1];
      assert before[..k] == run[..k];
      IntactPrefix(x, before, k);
      if k + 1 < |run| {
        assert before[..k + 1] == run[..k + 1];
      } else {
        assert run[..k + 1] == run && before == run[..k];
      }
    }
  }

  lemma {:induction false} IntactIsIntact(x: Extent, run: seq<Chunk>)
    ensures Intact(x, Intact(x, run)) == Intact(x, run)
    ensures |Intact(x, run)| < |run| ==> Intact(x, run[..|Intact(x, run)| + 1]) != run[..|Intact(x, run)| + 1]
    decreases |run|
  {
    hide BreaksOff;
    if run != [] {
      var n := |run| - 1;
      IntactIsIntact(x, run[..n]);
      var k := |Intact(x, run)|;
      if k < n {
        assert run[..n][..k + 1] == run[..k + 1];
      } else if k == n {
        assert run[..k + 1] == run;
      }
    }
  }

  lemma {:induction false} EndPrefix(x: Extent, run: seq<Chunk>, k: nat)
    requires k <= |run|
    ensures InSight(x, run[..k]) ==> InSight(x, run) && UpToEnd(x, run) == UpToEnd(x, run[..k])
    ensures !InSight(x, run[..k]) ==> run[..k] <= UpToEnd(x, run)
    decreases |run|
  {
    hide InSight;
    if k == |run| {
      assert run[..k] == run;
      EndIsInSight(x, run);
    } else {
      var before, c := run[..|run| - 1], run[|run| - 1];
      assert before[..k] == run[..k] && run == before + [c];
      EndPrefix(x, before, k);
      if InSight(x, before) {
        InSightStays(x, before, c);
      }
    }
  }

  lemma InSightStays(x: Extent, run: seq<Chunk>, c: Chunk)
    requires InSight(x, run)
    ensures InSight(x, run + [c])
  {
    hide Data, SawEOF;
    AppendChunk(x, run, c);
  }

  lemma {:induction false} EndIsInSight(x: Extent, run: seq<Chunk>)
    ensures InSight(x, run) ==> InSight(x, UpToEnd(x, run)) && UpToEnd(x, run) != []
    ensures !InSight(x, run) ==> UpToEnd(x, run) == run
    decreases |run|
  {
    hide InSight;
    if run == [] {
      NothingInSight(x);
    } else {
      var before, c := run[..|run| - 1], run[|run| - 1];
      assert run == before + [c];
      EndIsInSight(x, before);
      if InSight(x, before) {
        InSightStays(x, before, c);
      }
    }
  }

  lemma NothingInSight(x: Extent)
    ensures !InSight(x, [])
  {
  }

  lemma {:induction false} StopsSoFar(x: Extent, run: seq<Chunk>, k: nat)
    requires k <= |run| && StopsAtEnd(x, run)
    ensures StopsAtEnd(x, run[..k])
  {
    hide InSight, UpToEnd;
    EndPrefix(x, run, k);
    EndIsInSight(x, run[..k]);
  }

  /** Bytes after the end are what tells the delivered data from the checked data. */
  lemma DataPastEnd(x: Extent, run: seq<Chunk>)
    ensures StopsAtEnd(x, run) <==> Data(UpToEnd(x, run)) == Data(run)
  {
    hide Data, UpToEnd;
    var k := |UpToEnd(x, run)|;
    DataConcat(run[..k], run[k..]);
    assert run == run[..k] + run[k..] && run[..k] == UpToEnd(x, run);
    if StopsAtEnd(x, run) {
      NoData(run[k..]);
      assert Data(run[..k]) + [] == Data(run[..k]);
    } else {
      var j :| k <= j < |run| && run[j].data != [];
      SomeData(run[k..], j - k);
    }
  }

  lemma {:induction false} SomeData(chunks: seq<Chunk>, j: nat)
    requires j < |chunks| && chunks[j].data != []
    ensures Data(chunks) != []
    decreases |chunks|
  {
    if j < |chunks| - 1 {
      SomeData(chunks[..|chunks| - 1], j);
    }
  }

  /** What was delivered ends in sight of the end wherever safety asks for its hash. */
  lemma SightOfDelivered(s: Signed, run: seq<Chunk>, k: nat)
    requires k <= |run| && Answers(s, run)[..k] == run[..k] && Data(Answers(s, run)) == Data(run[..k])
    requires forall i | k <= i < |run| :: Answers(s, run)[i] == Chunk([], Mismatch)
    requires 0 < k <= |run| <==> PassedOn(s, run)
    ensures InSight(ExtentOf(s), run[..k]) <==>
            (s.sized && s.length <= |Data(Answers(s, run))| && PassedOn(s, run)) ||
            exists i | 0 <= i < |run| :: Answers(s, run)[i].err == EOF
  {
    hide Data, Answers, PassedOn;
    if i :| 0 <= i < |run| && Answers(s, run)[i].err == EOF {
      assert i < k && Answers(s, run)[i] == Answers(s, run)[..k][i] == run[..k][i];
    }
    if i :| 0 <= i < k && run[..k][i].err == EOF {
      assert Answers(s, run)[i] == Answers(s, run)[..k][i] == run[i];
    }
  }

  lemma FirstReadPassed(s: Signed, run: seq<Chunk>, k: nat)
    requires k <= |run| && Passes(s, run[..k]) && (k < |run| ==> !Passes(s, run[..k + 1]))
    ensures 0 < k <==> PassedOn(s, run)
  {
    hide After, Answers, Passes;
    if k > 0 {
      PassesSoFar(s, run[..k], 1);
      assert run[..k][..1] == run[..1];
      RunTracks(s, run[..1]);
    } else if run != [] {
      RunTracks(s, run[..1]);
    }
  }

  /** Safety comes down to one equation about the part of a run that is passed on. */
  lemma SafeIff(s: Signed, run: seq<Chunk>) returns (k: nat)
    ensures k <= |run| && Passes(s, run[..k]) && (k < |run| ==> !Passes(s, run[..k + 1]))
    ensures Data(Answers(s, run)) == Data(run[..k])
    ensures Safe(s, run) <==> (InSight(ExtentOf(s), run[..k]) ==> s.hex(Data(run[..k])) == s.digest)
  {
    hide After, Step, Answers, Data, Passes, PassedOn, InSight;
    k := Delivery(s, run);
    FirstReadPassed(s, run, k);
    SightOfDelivered(s, run, k);
  }

  /** Safety over all runs: the bytes delivered are a prefix of the transport's, whatever it
      does; and if it stops at the end, what was delivered hashes to the signed digest once
      the declared length has been delivered or end-of-file answered. */
  lemma DeliveredIsVerified(s: Signed, run: seq<Chunk>)
    ensures Data(Answers(s, run)) <= Data(run)
    ensures StopsAtEnd(ExtentOf(s), Intact(ExtentOf(s), run)) ==> Safe(s, run)
  {
    hide Answers, Data, InSight, Safe, StopsAtEnd, Intact, UpToEnd;
    var x := ExtentOf(s);
    var k := SafeIff(s, run);
    DataConcat(run[..k], run[k..]);
    assert run == run[..k] + run[k..];
    if StopsAtEnd(x, Intact(x, run)) {
      IntactPrefix(x, run, k);
      assert Intact(x, run)[..k] == run[..k];
      StopsSoFar(x, Intact(x, run), k);
      DataPastEnd(x, run[..k]);
    }
  }

  /** A hash that tells `good` from every other string. */
  function Marks(good: bytes): bytes -> bytes {
    b => if b == good then ['1'] else ['0']
  }

  /** A transport that hands over bytes after the end has a body signed for it that is
      delivered unverified. */
  lemma BytesPastEndAreUnsafe(x: Extent, run: seq<Chunk>) returns (s: Signed)
    requires !StopsAtEnd(x, Intact(x, run))
    ensures ExtentOf(s) == x && !Safe(s, run)
  {
    hide Answers, Data, InSight, Safe, StopsAtEnd, Intact, UpToEnd;
    var r := Intact(x, run);
    var good := Data(UpToEnd(x, r));
    s := Signed(Marks(good), ['1'], x.sized, x.length);
    IntactIsIntact(x, run);
    DataPastEnd(x, r);
    EndIsInSight(x, r);
    assert Passes(s, r);
    var k := SafeIff(s, run);
    if k < |r| {
      assert r[..k + 1] == run[..k + 1];
      PassesSoFar(s, r, k + 1);
    } else if k > |r| {
      IntactPrefix(x, run, k);
    }
    assert run[..k] == r;
  }

  /** Safety, exactly: a run is safe for every hash and digest if and only if the transport
      hands over no bytes after the read that brings the end in sight, up to where it
      breaks off. */
  lemma BodySafetyIsExact(x: Extent, run: seq<Chunk>)
    ensures (forall hex: bytes -> bytes, digest: bytes :: Safe(Signed(hex, digest, x.sized, x.length), run))
            <==> StopsAtEnd(x, Intact(x, run))
  {
    hide Safe, StopsAtEnd, Intact;
    if StopsAtEnd(x, Intact(x, run)) {
      forall hex: bytes -> bytes, digest: bytes ensures Safe(Signed(hex, digest, x.sized, x.length), run) {
        DeliveredIsVerified(Signed(hex, digest, x.sized, x.length), run);
      }
    } else {
      var s := BytesPastEndAreUnsafe(x, run);
      assert s == Signed(s.hex, s.digest, x.sized, x.length);
    }
  }

  /** A transport with no error but end-of-file never breaks off. */
  lemma {:induction false} NoErrorIsIntact(x: Extent, run: seq<Chunk>)
    requires forall i | 0 <= i < |run| :: run[i].err == NoError || run[i].err == EOF
    ensures Intact(x, run) == run
    decreases |run|
  {
    if run != [] {
      NoErrorIsIntact(x, run[..|run| - 1]);
    }
  }

  // ----- Transparency -----

  /** Any framing of `content`: any chunking, end-of-file with the last bytes, after them or
      not yet, and no other error. */
  ghost predicate Frames(s: Signed, run: seq<Chunk>, content: bytes) {
    && Data(run) <= content
    && (s.sized ==> |content| == s.length)
    && (forall i | 0 <= i < |run| :: run[i].err == NoError || run[i].err == EOF)
    && (forall i | 0 <= i < |run| :: run[i].err == EOF ==> Data(run[..i + 1]) == content)
  }

  /** The run has reached the end of the content in a way the wrapper can see. */
  ghost predicate Completes(s: Signed, run: seq<Chunk>, content: bytes) {
    (s.sized && run != [] && Data(run) == content) || SawEOF(run)
  }

  lemma FramesSoFar(s: Signed, run: seq<Chunk>, content: bytes, k: nat)
    requires Frames(s, run, content) && k <= |run|
    ensures Frames(s, run[..k], content)
  {
    DataConcat(run[..k], run[k..]);
    assert run == run[..k] + run[k..];
    forall i | 0 <= i < k && run[..k][i].err == EOF ensures Data(run[..k][..i + 1]) == content {
      assert run[..k][..i + 1] == run[..i + 1];
    }
  }

  lemma OneChunk(c: Chunk)
    ensures Data([c]) == c.data
  {
    assert Data([c][..0]) == [];
  }

  lemma LongPrefix(x: bytes, y: bytes)
    requires x <= y
    ensures |x| >= |y| ==> x == y
  {
  }

  /** On a framed run what was handed over when the end came in sight is the content. */
  lemma FramedEnd(s: Signed, run: seq<Chunk>, content: bytes)
    requires Frames(s, run, content) && InSight(ExtentOf(s), run)
    ensures Data(UpToEnd(ExtentOf(s), run)) == content
  {
    hide Data, UpToEnd;
    var e := UpToEnd(ExtentOf(s), run);
    EndIsInSight(ExtentOf(s), run);
    FramesSoFar(s, run, content, |e|);
    assert e == run[..|e|];
    if i :| 0 <= i < |e| && e[i].err == EOF {
      DataConcat(e[..i + 1], e[i + 1..]);
      assert e == e[..i + 1] + e[i + 1..];
      LongPrefix(Data(e), content);
    }
  }

  /** Transparency and detection: on every framed run the wrapper answers each read with
      exactly what the transport handed over if and only if the content hashes to the signed
      digest or the end has not been reached. */
  lemma CompleteRunVerdict(s: Signed, run: seq<Chunk>, content: bytes)
    requires Frames(s, run, content)
    ensures Answers(s, run) == run <==> (Completes(s, run, content) ==> s.hex(content) == s.digest)
  {
    hide After, Step, Answers, Data, Intact, UpToEnd;
    var x := ExtentOf(s);
    NoErrorIsIntact(x, run);
    RunTracks(s, run);
    var k := Delivery(s, run);
    assert k < |run| ==> Answers(s, run)[k].err == Mismatch && run[k].err != Mismatch;
    CompletesInSight(s, run, content);
    if InSight(x, run) {
      FramedEnd(s, run, content);
    }
  }

  lemma CompletesInSight(s: Signed, run: seq<Chunk>, content: bytes)
    requires Frames(s, run, content)
    ensures Completes(s, run, content) <==> InSight(ExtentOf(s), run)
  {
    LongPrefix(Data(run), content);
  }

  /** A sized body that breaks off before its declared length is refused, whatever the error
      says and whatever came before. */
  lemma ShortBodyIsRefused(s: Signed, run: seq<Chunk>, c: Chunk)
    requires s.sized && |Data(run)| + |c.data| < s.length && c.err != NoError && c.err != EOF
    ensures After(s, run + [c]).failed && Answers(s, run + [c])[|run|] == Chunk([], Mismatch)
  {
    hide Data;
    RunTracks(s, run);
    assert (run + [c])[..|run|] == run;
  }

  /** A concrete failure: bytes past the declared length are passed on unchecked. */
  lemma PastLengthIsUnchecked()
    ensures var s := Signed((b: bytes) => b, "a", true, 1);
            var run := [Chunk("a", NoError), Chunk("b", NoError)];
            !StopsAtEnd(ExtentOf(s), run) && Answers(s, run) == run && s.hex(Data(Answers(s, run))) != s.digest
  {
    var s := Signed((b: bytes) => b, "a", true, 1);
    var a, b := Chunk("a", NoError), Chunk("b", NoError);
    var run := [a, b];
    assert run[..1] == [a] && [a][..0] == [];
    assert Data([a]) == "a" && Data(run) == "ab" by {
      OneChunk(a);
    }
    assert UpToEnd(ExtentOf(s), run) == [a];
    var st := Step(s, Start(s), a);
    assert st == Turn(State("a", 0, true, false), a);
    assert After(s, [a]) == st.state;
    assert Answers(s, [a]) == [a];
  }

  /** And one that crosses the declared length within a read is checked whole. */
  lemma CrossingReadIsChecked(s: Signed, c: Chunk)
    requires s.sized && 0 < s.length <= |c.data|
    ensures StopsAtEnd(ExtentOf(s), [c])
    ensures Answers(s, [c]) == [c] <==> s.hex(c.data) == s.digest
  {
    assert [c][..0] == [];
    OneChunk(c);
  }

  // ----- The readers -----

  /** A transport: the chunks still to come, delivered in pieces no larger than the buffer,
      and end-of-file after them. */
  class Source {
    var feed: seq<Chunk>
    var closed: bool

    constructor (feed: seq<Chunk>)
      ensures this.feed == feed && !closed
    {
      this.feed, closed := feed, false;
    }

    method Close()
      modifies this`closed
      ensures closed
    {
      closed := true;
    }

    method Read(p: array<byte>) returns (n: nat, err: ReadError)
      modifies this`feed, p
      ensures n <= p.Length
      ensures Chunk(p[..n], err) == NextChunk(old(feed), p.Length)
      ensures feed == Rest(old(feed), p.Length)
      ensures forall i | n <= i < p.Length :: p[i] == old(p[i])
    {
      var c := NextChunk(feed, p.Length);
      n, err := |c.data|, c.err;
      for i := 0 to n
        invariant p[..i] == c.data[..i]
        invariant forall j | i <= j < p.Length :: p[j] == old(p[j])
        invariant feed == old(feed)
      {
        p[i] := c.data[i];
      }
      feed := Rest(feed, p.Length);
    }
  }

  function NextChunk(feed: seq<Chunk>, room: nat): (c: Chunk)
    ensures |c.data| <= room
  {
    if feed == [] then Chunk([], EOF)
    else if |feed[0].data| <= room then feed[0]
    else Chunk(feed[0].data[..room], NoError)
  }

  function Rest(feed: seq<Chunk>, room: nat): seq<Chunk> {
    if feed == [] then []
    else if |feed[0].data| <= room then feed[1..]
    else [feed[0].(data := feed[0].data[room..])] + feed[1..]
  }

  class VerifiedBody {
    const body: Source
    const signed: Signed
    var hash: bytes
    var remaining: int
    var verified: bool
    var err: bool
    ghost var seen: seq<Chunk>

    ghost predicate Valid()
      reads this
    {
      State(hash, remaining, verified, err) == After(signed, seen)
    }

    constructor (body: Source, signed: Signed)
      ensures Valid() && seen == [] && this.body == body && this.signed == signed
    {
      this.body := body;
      this.signed := signed;
      hash, remaining, verified, err := [], signed.length, false, false;
      seen := [];
    }

    /** Reads once. The answer is the run's next answer: with a refusal already made the
        transport is not read. */
    method Read(p: array<byte>) returns (n: nat, e: ReadError)
      requires Valid()
      modifies this`hash, this`remaining, this`verified, this`err, this`seen, body`feed, p
      ensures Valid() && n <= p.Length
      ensures |seen| == |old(seen)| + 1 && seen[..|old(seen)|] == old(seen)
      ensures Chunk(p[..n], e) == Answers(signed, seen)[|old(seen)|]
      ensures !old(err) ==>
                seen[|old(seen)|] == NextChunk(old(body.feed), p.Length) && body.feed == Rest(old(body.feed), p.Length)
      ensures old(err) ==> body.feed == old(body.feed) && p[..] == old(p[..])
    {
      if err {
        seen := seen + [Chunk([], Mismatch)];
        assert seen[..|seen| - 1] == old(seen);
        return 0, Mismatch;
      }
      n, e := body.Read(p);
      ghost var c := Chunk(p[..n], e);
      seen := seen + [c];
      assert seen[..|seen| - 1] == old(seen);
      if n > 0 {
        hash := hash + p[..n];
        remaining := remaining - n;
      } else {
        assert hash + c.data == hash;
      }
      if signed.sized && remaining > 0 && e != NoError && e != EOF {
        err := true;
        return 0, Mismatch;
      }
      if !verified && ((signed.sized && remaining <= 0) || e == EOF) {
        if signed.hex(hash) != signed.digest {
          err := true;
          return 0, Mismatch;
        }
        verified := true;
      }
    }

    method Close()
      modifies body`closed
      ensures body.closed
    {
      body.Close();
    }
  }

  // ----- Binding a request's body -----

  lemma RestData(feed: seq<Chunk>, room: nat)
    ensures NextChunk(feed, room).data + Data(Rest(feed, room)) == Data(feed)
    ensures room > 0 && feed != [] ==> Weight(Rest(feed, room)) < Weight(feed)
  {
    hide Data;
    if feed == [] {
      NoData(feed);
    } else {
      assert feed == [feed[0]] + feed[1..];
      DataConcat([feed[0]], feed[1..]);
      OneChunk(feed[0]);
      if |feed[0].data| > room {
        var left := feed[0].(data := feed[0].data[room..]);
        DataConcat([left], feed[1..]);
        OneChunk(left);
        assert feed[0].data == feed[0].data[..room] + feed[0].data[room..];
      }
    }
  }

  /** What a feed still holds: a bound on the reads that make progress. */
  ghost function Weight(feed: seq<Chunk>): nat {
    |Data(feed)| + |feed|
  }

  /** Reading on until `want` bytes are in or an error comes, and what is then still to come. */
  function Gather(feed: seq<Chunk>, want: nat): (c: Chunk)
    ensures |c.data| <= want && (c.err == NoError <==> |c.data| == want)
    decreases Weight(feed), want
  {
    if want == 0 then Chunk([], NoError)
    else
      var c := NextChunk(feed, want);
      if |c.data| == want then Chunk(c.data, NoError)
      else if c.err != NoError then c
      else
        RestData(feed, want);
        var more := Gather(Rest(feed, want), want - |c.data|);
        Chunk(c.data + more.data, more.err)
  }

  function Remains(feed: seq<Chunk>, want: nat): seq<Chunk>
    decreases Weight(feed), want
  {
    if want == 0 then feed
    else
      var c := NextChunk(feed, want);
      if |c.data| == want || c.err != NoError then Rest(feed, want)
      else
        RestData(feed, want);
        Remains(Rest(feed, want), want - |c.data|)
  }

  /** io.ReadFull of `want` bytes: all of them, or fewer and the error that cut it short,
      with end-of-file after some bytes reported as unexpected. */
  function FullRead(feed: seq<Chunk>, want: nat): (c: Chunk)
    ensures |c.data| <= want && (c.err == NoError <==> |c.data| == want)
  {
    Judged(Gather(feed, want))
  }

  function Judged(c: Chunk): Chunk {
    if c.err == EOF && c.data != [] then Chunk(c.data, UnexpectedEOF) else c
  }

  lemma {:induction false} GatherFraming(feed: seq<Chunk>, want: nat)
    requires forall i | 0 <= i < |feed| :: feed[i].err == NoError || (feed[i].err == EOF && i == |feed| - 1)
    ensures Gather(feed, want) ==
            if want <= |Data(feed)| then Chunk(Data(feed)[..want], NoError) else Chunk(Data(feed), EOF)
    decreases Weight(feed), want
  {
    hide Data;
    if want > 0 {
      var c, rest := NextChunk(feed, want), Rest(feed, want);
      RestData(feed, want);
      if c.err == NoError && |c.data| < want {
        GatherFraming(rest, want - |c.data|);
      } else if feed == [] || |feed| == 1 {
        NoData([]);
      }
    } else {
      assert Data(feed)[..0] == [];
    }
  }

  /** However a body is framed, a full read takes its first `want` bytes, or all there is
      and the end-of-file that cut it short. */
  lemma FullReadOfFraming(feed: seq<Chunk>, want: nat)
    requires forall i | 0 <= i < |feed| :: feed[i].err == NoError || (feed[i].err == EOF && i == |feed| - 1)
    ensures FullRead(feed, want) ==
            if want <= |Data(feed)| then Chunk(Data(feed)[..want], NoError)
            else Chunk(Data(feed), if Data(feed) == [] then EOF else UnexpectedEOF)
  {
    hide Gather, Data;
    GatherFraming(feed, want);
  }

  /** A full read loses nothing: what it took and what remains are what there was. */
  lemma {:induction false} FullReadConserves(feed: seq<Chunk>, want: nat)
    ensures FullRead(feed, want).data + Data(Remains(feed, want)) == Data(feed)
    decreases Weight(feed), want
  {
    hide Data;
    if want == 0 {
      assert [] + Data(feed) == Data(feed);
    } else {
      var c, rest := NextChunk(feed, want), Rest(feed, want);
      RestData(feed, want);
      if |c.data| < want && c.err == NoError {
        FullReadConserves(rest, want - |c.data|);
        Assoc(c.data, Gather(rest, want - |c.data|).data, Data(Remains(rest, want - |c.data|)));
      }
    }
  }

  method CopyInto(buf: array<byte>, at: nat, part: array<byte>, n: nat)
    requires n <= part.Length && at + n <= buf.Length && buf != part
    modifies buf
    ensures buf[..at + n] == old(buf[..at]) + part[..n]
  {
    for k := 0 to n
      invariant buf[..at] == old(buf[..at]) && buf[at..at + k] == part[..k]
    {
      buf[at + k] := part[k];
    }
    assert buf[..at + n] == buf[..at] + buf[at..at + n];
  }

  /** One turn of the loop below, on what was read and what is still to read. */
  lemma GatherTurn(feed: seq<Chunk>, got: bytes, want: nat)
    requires |got| < want
    ensures var room := want - |got|;
            var c, rest := NextChunk(feed, room), Rest(feed, room);
            && Accumulated(got, Gather(feed, room)) ==
               (if c.err == NoError then Accumulated(got + c.data, Gather(rest, room - |c.data|))
                else Chunk(got + c.data, if |got + c.data| == want then NoError else c.err))
            && Remains(feed, room) == (if c.err == NoError then Remains(rest, room - |c.data|) else rest)
  {
    hide Data, NextChunk, Rest;
    var room := want - |got|;
    var c := NextChunk(feed, room);
    if c.err == NoError {
      if |c.data| == room {
        assert got + c.data + [] == got + c.data;
      } else {
        Assoc(got, c.data, Gather(Rest(feed, room), room - |c.data|).data);
      }
    }
  }

  function Accumulated(got: bytes, c: Chunk): Chunk {
    Chunk(got + c.data, c.err)
  }

  method ReadFull(src: Source, buf: array<byte>) returns (n: nat, err: ReadError)
    modifies src`feed, buf
    ensures n <= buf.Length && Chunk(buf[..n], err) == FullRead(old(src.feed), buf.Length)
    ensures src.feed == Remains(old(src.feed), buf.Length)
  {
    hide Gather, Remains, NextChunk, Rest, Data;
    n, err := 0, NoError;
    ghost var whole, left := Gather(src.feed, buf.Length), Remains(src.feed, buf.Length);
    assert buf[..0] + whole.data == whole.data;
    while n < buf.Length && err == NoError
      invariant n <= buf.Length
      invariant err == NoError ==> whole == Accumulated(buf[..n], Gather(src.feed, buf.Length - n))
      invariant err != NoError ==> whole == Chunk(buf[..n], if n == buf.Length then NoError else err)
      invariant left == if err == NoError then Remains(src.feed, buf.Length - n) else src.feed
      decreases err == NoError, Weight(src.feed), buf.Length - n
    {
      var part := new byte[buf.Length - n];
      GatherTurn(src.feed, buf[..n], buf.Length);
      RestData(src.feed, part.Length);
      EmptyFeed(src.feed, part.Length);
      var got;
      got, err := src.Read(part);
      CopyInto(buf, n, part, got);
      n := n + got;
    }
    NothingWanted(src.feed);
    assert buf[..n] + [] == buf[..n];
    if n == buf.Length {
      err := NoError;
    } else if n > 0 && err == EOF {
      err := UnexpectedEOF;
    }
  }

  lemma EmptyFeed(feed: seq<Chunk>, room: nat)
    ensures feed == [] ==> NextChunk(feed, room).err == EOF
  {
  }

  lemma NothingWanted(feed: seq<Chunk>)
    ensures Gather(feed, 0) == Chunk([], NoError) && Remains(feed, 0) == feed
  {
  }

  const MaxPayloadLen: int := 10 * 1024 * 1024
  const EmptyPayloadHead: bytes := "e3b0c44298fc1c149afbf4c8996fb924"
  const EmptyPayloadTail: bytes := "27ae41e4649b934ca495991b7852b855"

  /** The hex digest of an empty body. */
  const EmptyPayload: bytes := EmptyPayloadHead + EmptyPayloadTail

  /** The body a handler will read: none, the transport, a replayed buffer, or the wrapper. */
  datatype Body = NoBody | Stream(src: Source) | Buffered(data: bytes) | Checked(wrapper: VerifiedBody)

  datatype BindError = Unmatched | ReadFailed(err: ReadError)

  /** A transport that ends, if it says so, with its last chunk, and fails in no other way. */
  ghost predicate Clean(feed: seq<Chunk>) {
    forall i | 0 <= i < |feed| :: feed[i].err == NoError || (feed[i].err == EOF && i == |feed| - 1)
  }

  /** One hexadecimal string spells another: the same digits, the letters in any case. */
  predicate Spells(given: bytes, hex: bytes) {
    |given| == |hex| &&
    forall i | 0 <= i < |hex| ::
      given[i] == hex[i] || ('a' <= hex[i] <= 'f' && given[i] as int + 32 == hex[i] as int)
  }

  predicate LowerHex(hex: bytes) {
    forall i | 0 <= i < |hex| :: '0' <= hex[i] <= '9' || 'a' <= hex[i] <= 'f'
  }

  lemma EmptyIsLowerHex()
    ensures LowerHex(EmptyPayload)
  {
    assert LowerHex(EmptyPayloadHead) && LowerHex(EmptyPayloadTail);
  }

  lemma SpellingIsLowered(given: bytes, hex: bytes)
    requires LowerHex(hex)
    ensures Spells(given, hex) <==> ToLower(given) == hex
  {
    if Spells(given, hex) {
      assert ToLower(given) == hex;
    }
    if ToLower(given) == hex {
      forall i | 0 <= i < |hex|
        ensures given[i] == hex[i] || ('a' <= hex[i] <= 'f' && given[i] as int + 32 == hex[i] as int)
      {
        assert LowerByte(given[i]) == hex[i];
      }
    }
  }

  class SignedRequest {
    const hex: bytes -> bytes
    const payloadMode: bytes
    const service: bytes
    const contentHash: bytes
    const hasRequest: bool
    const contentLength: int
    var body: Body

    /** A sentinel mode, another service or no request leaves the body alone. */
    predicate Skips() {
      payloadMode != [] || service != "s3" || !hasRequest
    }

    function Digest(): bytes {
      ToLower(contentHash)
    }

    predicate FitsBuffer() {
      0 <= contentLength <= MaxPayloadLen
    }

    function Expected(): Signed {
      Signed(hex, Digest(), contentLength >= 0, contentLength)
    }

    constructor (hex: bytes -> bytes, payloadMode: bytes, service: bytes, contentHash: bytes,
                 hasRequest: bool, contentLength: int, body: Body)
      ensures this.hex == hex && this.payloadMode == payloadMode && this.service == service
      ensures this.contentHash == contentHash && this.hasRequest == hasRequest
      ensures this.contentLength == contentLength && this.body == body
    {
      this.hex, this.payloadMode, this.service := hex, payloadMode, service;
      this.contentHash, this.hasRequest, this.contentLength := contentHash, hasRequest, contentLength;
      this.body := body;
    }

    /** The verdict of reading a small body in full. */
    function Judge(full: Chunk): Option<BindError> {
      if full.err == EOF || full.err == UnexpectedEOF then Some(Unmatched)
      else if full.err != NoError then Some(ReadFailed(full.err))
      else if hex(full.data) != Digest() then Some(Unmatched)
      else None
    }

    /** The verdict on a small clean body, by its content. */
    lemma BindsBySpelling(feed: seq<Chunk>)
      ensures Digest() == EmptyPayload <==> Spells(contentHash, EmptyPayload)
      ensures FitsBuffer() && Clean(feed) ==>
                && (contentLength == |Data(feed)| ==>
                      && FullRead(feed, contentLength) == Chunk(Data(feed), NoError)
                      && (Judge(FullRead(feed, contentLength)) == None <==> hex(Data(feed)) == ToLower(contentHash))
                      && (LowerHex(hex(Data(feed))) ==>
                            (Judge(FullRead(feed, contentLength)) == None <==> Spells(contentHash, hex(Data(feed))))))
                && (contentLength > |Data(feed)| ==> Judge(FullRead(feed, contentLength)) == Some(Unmatched))
    {
      hide FullRead, Data, ToLower, Spells, LowerHex;
      EmptyIsLowerHex();
      SpellingIsLowered(contentHash, EmptyPayload);
      if FitsBuffer() && Clean(feed) {
        FullReadOfFraming(feed, contentLength);
        if contentLength == |Data(feed)| {
          assert Data(feed)[..contentLength] == Data(feed);
          if LowerHex(hex(Data(feed))) {
            SpellingIsLowered(contentHash, hex(Data(feed)));
          }
        }
      }
    }

    method BindPayload() returns (r: Option<BindError>)
      requires body.NoBody? || body.Stream?
      modifies this`body, if body.Stream? then {body.src} else {}
      ensures Skips() || body.NoBody? ==> body == old(body)
      ensures Skips() ==>
                r == None && (body.Stream? ==> body.src.feed == old(body.src.feed) && body.src.closed == old(body.src.closed))
      ensures !Skips() && old(body).NoBody? ==> r == if Digest() == EmptyPayload then None else Some(Unmatched)
      ensures !Skips() && old(body).Stream? && FitsBuffer() ==>
                var full := FullRead(old(body.src.feed), contentLength);
                && r == Judge(full) && body == (if full.err == NoError then Buffered(full.data) else old(body))
                && old(body).src.feed == Remains(old(body.src.feed), contentLength)
                && old(body).src.closed == (old(body.src.closed) || full.err == NoError)
      ensures !Skips() && old(body).Stream? && !FitsBuffer() ==>
                && r == None && body.Checked? && fresh(body.wrapper) && body.wrapper.Valid() && body.wrapper.seen == []
                && body.wrapper.body == old(body).src && body.wrapper.signed == Expected()
                && body.wrapper.body.feed == old(body.src.feed) && body.wrapper.body.closed == old(body.src.closed)
      // What all this comes to, in the request's own fields.
      ensures payloadMode != [] || service != "s3" || !hasRequest ==> r == None && body == old(body)
      ensures payloadMode == [] && service == "s3" && hasRequest && old(body).NoBody? ==>
                (r == None <==> Spells(contentHash, EmptyPayload))
      ensures payloadMode == [] && service == "s3" && hasRequest && old(body).Stream? &&
              0 <= contentLength <= 10485760 && Clean(old(body.src.feed)) ==>
                && (contentLength == |Data(old(body.src.feed))| ==>
                      && (r == None <==> hex(Data(old(body.src.feed))) == ToLower(contentHash))
                      && (LowerHex(hex(Data(old(body.src.feed)))) ==>
                            (r == None <==> Spells(contentHash, hex(Data(old(body.src.feed))))))
                      && body == Buffered(Data(old(body.src.feed))))
                && (contentLength > |Data(old(body.src.feed))| ==> r == Some(Unmatched))
      ensures payloadMode == [] && service == "s3" && hasRequest && old(body).Stream? &&
              (contentLength < 0 || contentLength > 10485760) ==>
                r == None && body.Checked? && body.wrapper.body == old(body).src && body.wrapper.signed.hex == hex &&
                body.wrapper.signed.digest == ToLower(contentHash) && body.wrapper.signed.length == contentLength &&
                (body.wrapper.signed.sized <==> contentLength >= 0)
    {
      ghost var feed := if body.Stream? then body.src.feed else [];
      BindsBySpelling(feed);
      hide FullRead, Remains, ToLower, Data, Clean, Spells, LowerHex;
      if payloadMode != [] || service != "s3" || !hasRequest {
        return None;
      }
      var digest := ToLower(contentHash);
      if body.NoBody? {
        if digest != EmptyPayload {
          return Some(Unmatched);
        }
        return None;
      }
      var src := body.src;
      if contentLength >= 0 && contentLength <= MaxPayloadLen {
        var buf := new byte[contentLength];
        var n, err := ReadFull(src, buf);
        if err != NoError {
          if err == UnexpectedEOF || err == EOF {
            return Some(Unmatched);
          }
          return Some(ReadFailed(err));
        }
        assert n == buf.Length && buf[..n] == buf[..];
        src.Close();
        body := Buffered(buf[..]);
        if hex(buf[..]) != digest {
          return Some(Unmatched);
        }
        return None;
      }
      var wrapper := new VerifiedBody(src, Signed(hex, digest, contentLength >= 0, contentLength));
      body := Checked(wrapper);
      return None;
    }
  }

  /** A small body whose length is declared truly binds exactly when it hashes to the
      digest, however it is framed; and then the handler reads that body. */
  lemma SmallBodyBindsExactly(q: SignedRequest, feed: seq<Chunk>)
    requires q.FitsBuffer() && |Data(feed)| == q.contentLength
    requires forall i | 0 <= i < |feed| :: feed[i].err == NoError || (feed[i].err == EOF && i == |feed| - 1)
    ensures FullRead(feed, q.contentLength) == Chunk(Data(feed), NoError)
    ensures q.Judge(FullRead(feed, q.contentLength)) == None <==> q.hex(Data(feed)) == q.Digest()
  {
    hide FullRead, ToLower;
    FullReadOfFraming(feed, q.contentLength);
    assert Data(feed)[..q.contentLength] == Data(feed);
  }

  /** One shorter than declared never binds. */
  lemma ShortBodyNeverBinds(q: SignedRequest, feed: seq<Chunk>)
    requires q.FitsBuffer() && |Data(feed)| < q.contentLength
    requires forall i | 0 <= i < |feed| :: feed[i].err == NoError || (feed[i].err == EOF && i == |feed| - 1)
    ensures q.Judge(FullRead(feed, q.contentLength)) == Some(Unmatched)
  {
    FullReadOfFraming(feed, q.contentLength);
  }
}
