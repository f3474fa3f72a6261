/**
  The generator as an object, reading a clock. The mutex makes every call one atomic step.
 */
module IdGenerators {
  import opened Snowflake
  import opened Words

  /** From every point on, the clock passes every bound at some time. */
  ghost predicate Unbounded(reading: Readings) {
    forall from: nat, bound: int :: Passes(reading, from, bound)
  }

  ghost predicate Passes(reading: Readings, from: nat, bound: int) {
    exists k: nat :: k >= from && reading(k) > bound
  }

  class Clock {
    const reading: Readings
    var pos: nat

    constructor (reading: Readings)
      ensures this.reading == reading && pos == 0
    {
      this.reading := reading;
      pos := 0;
    }

    method TimeGen() returns (ts: int)
      modifies this
      ensures ts == reading(old(pos)) && pos == old(pos) + 1
    {
      ts := reading(pos);
      pos := pos + 1;
    }
  }

  class IdGenerator {
    const workerID: int
    var lastTimeStamp: int
    var sequence: int
    /** The clock this generator reads. */
    ghost const reading: Readings
    /** All calls so far, and which readings each of them took. */
    ghost var calls: seq<Call>
    ghost var spans: seq<(nat, nat)>

    ghost function State(): Gen
      reads this
    {
      Gen(lastTimeStamp, sequence)
    }

    ghost predicate Valid()
      reads this
    {
      State() == After(calls) && PossibleRun(calls) && FromClock(reading, calls, spans)
    }

    /** The readings to come are this generator's next ones. */
    ghost predicate Reads(clock: Clock)
      reads this, clock
    {
      clock.reading == reading && (spans != [] ==> spans[|spans| - 1].1 <= clock.pos)
    }

    constructor (workerID: int, clock: Clock)
      ensures Valid() && Reads(clock) && this.workerID == workerID && calls == []
    {
      this.workerID := workerID;
      lastTimeStamp, sequence := -1, 0;
      reading, calls, spans := clock.reading, [], [];
    }

    /** Reads the clock until it has passed `last`: the first such reading, none is skipped. */
    method TimeReGen(clock: Clock, last: int) returns (ts: int)
      requires Passes(clock.reading, clock.pos, last)
      modifies clock
      ensures clock.pos > old(clock.pos)
      ensures ts == clock.reading(clock.pos - 1) && ts > last
      ensures forall k: nat :: old(clock.pos) <= k < clock.pos - 1 ==> clock.reading(k) <= last
    {
      ghost var k: nat :| k >= clock.pos && clock.reading(k) > last;
      ts := clock.TimeGen();
      while ts <= last
        invariant old(clock.pos) < clock.pos <= k + 1
        invariant ts == clock.reading(clock.pos - 1)
        invariant forall j: nat :: old(clock.pos) <= j < clock.pos - 1 ==> clock.reading(j) <= last
        decreases k + 1 - clock.pos
      {
        ts := clock.TimeGen();
      }
    }

    /** The call this generator made: its first reading and the last reading it took. */
    twostate function Made(clock: Clock): Call
      reads clock
      requires clock.pos > 0
    {
      Call(clock.reading(old(clock.pos)), clock.reading(clock.pos - 1))
    }

    /** The call that took the readings since `from` is added to the run. */
    ghost method Record(clock: Clock, from: nat, c: Call, g: Gen)
      requires PossibleRun(calls) && FromClock(reading, calls, spans) && g == After(calls) && PossibleCall(g, c)
      requires clock.reading == reading && from < clock.pos && (spans != [] ==> spans[|spans| - 1].1 <= from)
      requires c == Call(reading(from), reading(clock.pos - 1))
      modifies `calls, `spans
      ensures calls == old(calls) + [c] && PossibleRun(calls) && FromClock(reading, calls, spans)
      ensures spans != [] && spans[|spans| - 1].1 == clock.pos
      ensures After(calls) == Gen(if c.later < g.last then g.last else c.later, NextSeq(g, c.first))
      ensures Ids(workerID, calls) == Ids(workerID, old(calls)) +
              if c.later < g.last then [] else [Pack(c.later, workerID, NextSeq(g, c.first))]
    {
      hide NextSeq, Pack, Ids, After, PossibleRun, FromClock, PossibleCall;
      StepIs(g, c);
      OneMoreCall(workerID, calls, c);
      OneMoreSpan(reading, calls, spans, c, (from, clock.pos));
      calls, spans := calls + [c], spans + [(from, clock.pos)];
    }

    /** The last reading is the first one that has passed the reading at `from`. */
    ghost predicate HasWaited(clock: Clock, from: nat)
      reads clock
    {
      && from + 1 < clock.pos && clock.reading(clock.pos - 1) > clock.reading(from)
      && forall k: nat :: from < k < clock.pos - 1 ==> clock.reading(k) <= clock.reading(from)
    }

    /**
      One id, or an error where the clock went backwards. The ids ever returned are those of
      `Ids` for the calls made, so what is proved of runs holds of every generator object.
     */
    method NextSnowflakeID(clock: Clock) returns (ok: bool, id: int)
      requires Valid() && Reads(clock) && Unbounded(reading)
      modifies this, clock
      ensures Valid() && Reads(clock) && clock.pos > old(clock.pos)
      ensures calls == old(calls) + [Made(clock)]
      ensures Ids(workerID, calls) == old(Ids(workerID, calls)) + if ok then [id] else []
      ensures !ok <==> clock.reading(old(clock.pos)) < old(lastTimeStamp)
      ensures !ok ==> id == 0 && lastTimeStamp == old(lastTimeStamp)
      ensures ok ==> lastTimeStamp == clock.reading(clock.pos - 1) && id == Pack(lastTimeStamp, workerID, sequence)
      ensures var repeats := clock.reading(old(clock.pos)) == old(lastTimeStamp);
              && sequence == (if repeats && old(sequence) < SEQUENCE_MASK then old(sequence) + 1 else 0)
              && if repeats && sequence == 0 then HasWaited(clock, old(clock.pos)) else clock.pos == old(clock.pos) + 1
    {
      hide And64, Pack, Ids, After, PossibleRun, FromClock, Step, NextSeq;
      GeneratorInvariant(calls);
      ghost var g := State();
      var ts := clock.TimeGen();
      NextSeqIs(g, ts);
      if ts == lastTimeStamp {
        sequence := And64(sequence + 1, SEQUENCE_MASK);
        assert sequence == NextSeq(g, ts) by {
          SequenceRepeats(g);
        }
        if sequence == 0 {
          assert Passes(clock.reading, clock.pos, ts);
          ts := TimeReGen(clock, ts);
        }
      } else {
        sequence := 0;
      }
      assert ts == clock.reading(clock.pos - 1);
      Record(clock, old(clock.pos), Made(clock), g);
      if ts < lastTimeStamp {
        return false, 0;
      }
      lastTimeStamp := ts;
      ok, id := true, Pack(ts, workerID, sequence);
    }

    /**
      On a clock that never goes backwards every call so far has returned an id; each is larger
      than the last, if the worker id fits and the clock is within 41 bits of the epoch.
     */
    lemma SteadyGeneratorServes()
      requires Valid() && NonDecreasing(reading) && reading(0) > NEW_GEN.last
      ensures |Ids(workerID, calls)| == |calls|
      ensures TimesInRange(calls) && WorkerFits(workerID) ==> Ascending(Ids(workerID, calls))
    {
      hide PossibleRun, FromClock, NonDecreasing, NeverResumes, TimesInRange, WorkerFits, Ascending, After;
      SteadyClockIsSafe(reading, calls, spans);
      if TimesInRange(calls) && WorkerFits(workerID) {
        IdsIncrease(workerID, calls);
      }
    }
  }

  lemma SequenceRepeats(g: Gen)
    ensures NextSeq(g, g.last) == And64(g.sequence + 1, SEQUENCE_MASK)
  {
    hide And64;
  }

  /** What a call does to the generator, and what it issues: the time is the last reading. */
  lemma StepIs(g: Gen, c: Call)
    requires PossibleCall(g, c)
    ensures var sequence := NextSeq(g, c.first);
            Step(g, c) == if c.later < g.last then (Gen(g.last, sequence), Refused)
                          else (Gen(c.later, sequence), Issued(c.later, sequence))
  {
    hide NextSeq;
  }

  lemma OneMoreCall(worker: int, calls: seq<Call>, c: Call)
    ensures After(calls + [c]) == Step(After(calls), c).0
    ensures PossibleRun(calls + [c]) <==> PossibleRun(calls) && PossibleCall(After(calls), c)
    ensures Ids(worker, calls + [c]) == Ids(worker, calls) +
            match Step(After(calls), c).1 case Issued(ts, sequence) => [Pack(ts, worker, sequence)] case Refused => []
  {
    hide Step, Pack;
    assert (calls + [c])[..|calls|] == calls;
  }

  lemma OneMoreSpan(reading: Readings, calls: seq<Call>, spans: seq<(nat, nat)>, c: Call, span: (nat, nat))
    requires FromClock(reading, calls, spans)
    requires span.0 < span.1 && c == Call(reading(span.0), reading(span.1 - 1))
    requires spans != [] ==> spans[|spans| - 1].1 <= span.0
    ensures FromClock(reading, calls + [c], spans + [span])
  {
    assert (calls + [c])[..|calls|] == calls && (spans + [span])[..|spans|] == spans;
  }
}
