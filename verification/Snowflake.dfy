/**
  Snowflake ids: packing (millisecond timestamp, worker, sequence) into an int64, parsing it
  back, and the generator's state over runs of calls against any clock.
 */
module Snowflake {
  import opened Words

  const EPOCH := 1483200000000
  const WORKER_ID_BITS := 10
  const SEQUENCE_BITS := 12
  const WORKER_ID_SHIFT := 12
  const TIMESTAMP_SHIFT := 22
  const SEQUENCE_MASK := 0xfff
  const MAX_WORKER := 0x3ff

  // ---------------------------------------------------------------- packing

  function Pack(ts: int, worker: int, sequence: int): int {
    Or64(Or64(Shl64(Wrap64(ts - EPOCH), TIMESTAMP_SHIFT), Shl64(worker, WORKER_ID_SHIFT)), sequence)
  }

  /** What an id parses to; the instant is given as `time.Unix` receives it. */
  datatype Parsed = Parsed(unixSeconds: int, nanoseconds: int, ts: int, worker: int, sequence: int)

  /** Go's division and remainder truncate towards zero. */
  function Quo(a: int, b: int): int
    requires b > 0
  {
    if a >= 0 then a / b else -((-a) / b)
  }

  function Rem(a: int, b: int): int
    requires b > 0
  {
    if a >= 0 then a % b else -((-a) % b)
  }

  function ParseSnowflakeID(id: int): Parsed {
    var ts := Shr64(id, TIMESTAMP_SHIFT) + EPOCH;
    Parsed(Quo(ts, 1000), Rem(ts, 1000) * 1000000, ts,
           And64(Shr64(id, WORKER_ID_SHIFT), MAX_WORKER), And64(id, SEQUENCE_MASK))
  }

  predicate PackableTime(ts: int) {
    -0x200_0000_0000 <= ts - EPOCH < 0x200_0000_0000
  }

  predicate Packable(ts: int, worker: int, sequence: int) {
    PackableTime(ts) && 0 <= worker <= MAX_WORKER && 0 <= sequence <= SEQUENCE_MASK
  }

  /** Nothing overflows, and the fields do not overlap: the shift-or expression is a weighted sum. */
  lemma PackIsSum(ts: int, worker: int, sequence: int)
    requires Packable(ts, worker, sequence)
    ensures Pack(ts, worker, sequence) == (ts - EPOCH) * 0x40_0000 + worker * 0x1000 + sequence
    ensures IsInt64(Pack(ts, worker, sequence))
  {
    Powers();
    var t := ts - EPOCH;
    assert Shl64(Wrap64(t), TIMESTAMP_SHIFT) == t * 0x40_0000;
    assert Shl64(worker, WORKER_ID_SHIFT) == worker * 0x1000;
    OrIsSum(22, t, worker * 0x1000, 63);
    var high := t * 0x400 + worker;
    assert t * 0x40_0000 + worker * 0x1000 == high * 0x1000;
    OrIsSum(12, high, sequence, 63);
  }

  /** What parsing computes, arithmetically, for every int64. */
  lemma ParseIsDivision(id: int)
    ensures var p := ParseSnowflakeID(id);
            p.ts == id / 0x40_0000 + EPOCH && p.worker == (id / 0x1000) % 0x400 && p.sequence == id % 0x1000
  {
    Powers();
    AndMask(12, id, 63);
    AndMask(10, id / 0x1000, 63);
  }

  /** The parsed instant is the timestamp, before or after 1970. */
  lemma ParsedInstant(id: int)
    ensures var p := ParseSnowflakeID(id); p.unixSeconds * 1000000000 + p.nanoseconds == p.ts * 1000000
  {
  }

  /** Parsing recovers the three fields of every id packed from fields in range. */
  lemma ParseInvertsPack(ts: int, worker: int, sequence: int)
    requires Packable(ts, worker, sequence)
    ensures var p := ParseSnowflakeID(Pack(ts, worker, sequence));
            p.ts == ts && p.worker == worker && p.sequence == sequence
  {
    PackIsSum(ts, worker, sequence);
    var id := Pack(ts, worker, sequence);
    ParseIsDivision(id);
    DivModUnique(id, 0x40_0000, ts - EPOCH, worker * 0x1000 + sequence);
    DivModUnique(id, 0x1000, (ts - EPOCH) * 0x400 + worker, sequence);
    DivModUnique(id / 0x1000, 0x400, ts - EPOCH, worker);
  }

  /** Whatever the fields, the result is an int64. */
  lemma PackStaysInt64(ts: int, worker: int, sequence: int)
    ensures IsInt64(Pack(ts, worker, sequence))
  {
    hide Bitwise;
    Powers();
    BitwiseRange(Or, Or64(Shl64(Wrap64(ts - EPOCH), TIMESTAMP_SHIFT), Shl64(worker, WORKER_ID_SHIFT)), sequence, 63);
  }

  /**
    The generator does not check its worker id. For any int64 fields the round trip works
    exactly when all three are in range.
   */
  lemma RoundTripExact(ts: int, worker: int, sequence: int)
    ensures (var id := Pack(ts, worker, sequence); var p := ParseSnowflakeID(id);
             p.ts == ts && p.worker == worker && p.sequence == sequence) <==> Packable(ts, worker, sequence)
  {
    hide Pack, ParseSnowflakeID;
    if Packable(ts, worker, sequence) {
      ParseInvertsPack(ts, worker, sequence);
    } else {
      PackStaysInt64(ts, worker, sequence);
      ParseIsDivision(Pack(ts, worker, sequence));
    }
  }

  /** Ids are ordered by time, then worker, then sequence. */
  lemma PackOrders(ts: int, worker: int, sequence: int, ts': int, worker': int, sequence': int)
    requires Packable(ts, worker, sequence) && Packable(ts', worker', sequence')
    ensures Pack(ts, worker, sequence) < Pack(ts', worker', sequence') <==>
            ts < ts' || (ts == ts' && (worker < worker' || (worker == worker' && sequence < sequence')))
  {
    PackIsSum(ts, worker, sequence);
    PackIsSum(ts', worker', sequence');
  }

  // ------------------------------------------------------------- worker ids

  /** All ones in the worker id bits. */
  function GetMaxWorkerID(): (max: int)
    ensures max == MAX_WORKER
  {
    OnesBelow();
    Xor64(-1, Shl64(-1, WORKER_ID_BITS))
  }

  lemma OnesBelow()
    ensures Xor64(-1, Shl64(-1, WORKER_ID_BITS)) == 0x3ff
  {
    Powers();
    assert Shl64(-1, WORKER_ID_BITS) == -0x400;
    XorMinusOne(-0x400, 63);
  }

  function WorkerOf(counter: int): int {
    Rem(counter, GetMaxWorkerID())
  }

  lemma WorkerIsRemainder(counter: int)
    requires 0 <= counter
    ensures WorkerOf(counter) == counter % 1023
  {
    hide GetMaxWorkerID;
  }

  /** Worker ids derived from the Redis counter fit 10 bits, and repeat exactly every 1023 values. */
  lemma WorkersRepeatEvery1023(a: int, b: int)
    requires 0 <= a && 0 <= b
    ensures 0 <= WorkerOf(a) < MAX_WORKER
    ensures WorkerOf(a) == WorkerOf(b) <==> (a - b) % 1023 == 0
  {
    hide WorkerOf;
    WorkerIsRemainder(a);
    WorkerIsRemainder(b);
    assert a - b == 1023 * (a / 1023 - b / 1023) + (a % 1023 - b % 1023);
  }

  // --------------------------------------------------------------- generator

  datatype Gen = Gen(last: int, sequence: int)

  /** A call reads the clock once, and, if the sequence wraps, until it has passed `last`: `later` is the last one. */
  datatype Call = Call(first: int, later: int)

  datatype Outcome = Issued(ts: int, sequence: int) | Refused

  const NEW_GEN := Gen(-1, 0)

  function NextSeq(g: Gen, first: int): int {
    if first == g.last then And64(g.sequence + 1, SEQUENCE_MASK) else 0
  }

  predicate Wraps(g: Gen, first: int) {
    first == g.last && NextSeq(g, first) == 0
  }

  function Step(g: Gen, c: Call): (Gen, Outcome) {
    var sequence := NextSeq(g, c.first);
    var ts := if Wraps(g, c.first) then c.later else c.first;
    if ts < g.last then (Gen(g.last, sequence), Refused) else (Gen(ts, sequence), Issued(ts, sequence))
  }

  predicate PossibleCall(g: Gen, c: Call) {
    if Wraps(g, c.first) then c.later > c.first else c.later == c.first
  }

  function After(calls: seq<Call>): Gen {
    if calls == [] then NEW_GEN else Step(After(calls[..|calls| - 1]), calls[|calls| - 1]).0
  }

  /** The (timestamp, sequence) pairs issued by a run of calls on a new generator. */
  function Pairs(calls: seq<Call>): seq<(int, int)> {
    if calls == [] then [] else
      var before := calls[..|calls| - 1];
      var out := Step(After(before), calls[|calls| - 1]).1;
      Pairs(before) + if out.Issued? then [(out.ts, out.sequence)] else []
  }

  predicate PossibleRun(calls: seq<Call>) {
    calls == [] ||
    (PossibleRun(calls[..|calls| - 1]) && PossibleCall(After(calls[..|calls| - 1]), calls[|calls| - 1]))
  }

  lemma NextSeqIs(g: Gen, first: int)
    ensures NextSeq(g, first) == if first == g.last then (g.sequence + 1) % 0x1000 else 0
  {
    Powers();
    AndMask(12, g.sequence + 1, 63);
  }

  /** In every run, refusals or not, the sequence stays in 12 bits and `last` never goes back. */
  lemma {:induction false} GeneratorInvariant(calls: seq<Call>)
    requires PossibleRun(calls)
    ensures 0 <= After(calls).sequence <= SEQUENCE_MASK
    ensures calls != [] ==> After(calls[..|calls| - 1]).last <= After(calls).last
  {
    hide NextSeq;
    if calls != [] {
      var before, c := calls[..|calls| - 1], calls[|calls| - 1];
      NextSeqIs(After(before), c.first);
    }
  }

  // -------------------------------------------- when ids are never repeated

  predicate PairLess(p: (int, int), q: (int, int)) {
    p.0 < q.0 || (p.0 == q.0 && p.1 < q.1)
  }

  ghost predicate Increasing(pairs: seq<(int, int)>) {
    forall i, j :: 0 <= i < j < |pairs| ==> PairLess(pairs[i], pairs[j])
  }

  ghost predicate Distinct(pairs: seq<(int, int)>) {
    forall i, j :: 0 <= i < j < |pairs| ==> pairs[i] != pairs[j]
  }

  /**
    What the clock has shown since `last` was raised: at most refusals; then repeats of
    `last`; then, after a repeat, a refusal.
   */
  datatype Phase = Fresh | Repeated | Interrupted

  function NextPhase(g: Gen, phase: Phase, c: Call): Phase {
    if c.first > g.last || Wraps(g, c.first) then Fresh
    else if c.first == g.last then Repeated
    else if phase.Fresh? then Fresh
    else Interrupted
  }

  function PhaseAfter(calls: seq<Call>): Phase {
    if calls == [] then Fresh
    else NextPhase(After(calls[..|calls| - 1]), PhaseAfter(calls[..|calls| - 1]), calls[|calls| - 1])
  }

  /** After a repeat of `last` and a refusal, the clock shows `last` again before passing it. */
  predicate Resumes(before: seq<Call>, c: Call) {
    PhaseAfter(before).Interrupted? && c.first == After(before).last
  }

  predicate NeverResumes(calls: seq<Call>) {
    calls == [] ||
    (NeverResumes(calls[..|calls| - 1]) && !Resumes(calls[..|calls| - 1], calls[|calls| - 1]))
  }

  /** How the last issued pair relates to the generator's fields in each phase. */
  ghost predicate Linked(g: Gen, phase: Phase, pairs: seq<(int, int)>) {
    && 0 <= g.sequence <= SEQUENCE_MASK
    && (pairs != [] ==> pairs[|pairs| - 1].0 == g.last)
    && match phase
       case Fresh => g.sequence == 0 && (pairs == [] || pairs[|pairs| - 1].1 == 0)
       case Repeated => g.sequence >= 1 && pairs != [] && pairs[|pairs| - 1].1 == g.sequence && (g.last, 1) in pairs
       case Interrupted => g.sequence == 0 && pairs != [] && (g.last, 1) in pairs
  }

  lemma ExtendIncreasing(pairs: seq<(int, int)>, p: (int, int))
    requires Increasing(pairs) && (pairs != [] ==> PairLess(pairs[|pairs| - 1], p))
    ensures Increasing(pairs + [p])
  {
    forall i, j | 0 <= i < j < |pairs + [p]| ensures PairLess((pairs + [p])[i], (pairs + [p])[j]) {
      if j == |pairs| && i < |pairs| - 1 {
        assert PairLess(pairs[i], pairs[|pairs| - 1]);
      }
    }
  }

  lemma StepLinked(g: Gen, phase: Phase, pairs: seq<(int, int)>, c: Call)
    requires Linked(g, phase, pairs) && (pairs == [] ==> g == NEW_GEN)
    requires PossibleCall(g, c) && !(phase.Interrupted? && c.first == g.last)
    ensures var (g', out) := Step(g, c); var phase' := NextPhase(g, phase, c);
            if out.Refused? then Linked(g', phase', pairs) && (pairs == [] ==> g' == NEW_GEN)
            else Linked(g', phase', pairs + [(out.ts, out.sequence)]) &&
                 (pairs != [] ==> PairLess(pairs[|pairs| - 1], (out.ts, out.sequence)))
  {
    NextSeqIs(g, c.first);
    hide NextSeq;
    var (g', out) := Step(g, c);
    if out.Issued? {
      var pairs' := pairs + [(out.ts, out.sequence)];
      assert pairs'[|pairs'| - 1] == (out.ts, out.sequence);
      if (g.last, 1) in pairs {
        assert (g.last, 1) in pairs';
      }
    }
  }

  /** Without a resumption every pair is larger than all before it. */
  lemma {:induction false} IncreasingWithoutResume(calls: seq<Call>)
    requires PossibleRun(calls) && NeverResumes(calls)
    ensures Linked(After(calls), PhaseAfter(calls), Pairs(calls)) && Increasing(Pairs(calls))
    ensures Pairs(calls) == [] ==> After(calls) == NEW_GEN
  {
    hide NextSeq, Linked;
    if calls == [] {
      NewGeneratorLinked();
    } else {
      var before, c := calls[..|calls| - 1], calls[|calls| - 1];
      IncreasingWithoutResume(before);
      StepLinked(After(before), PhaseAfter(before), Pairs(before), c);
      var out := Step(After(before), c).1;
      if out.Issued? {
        ExtendIncreasing(Pairs(before), (out.ts, out.sequence));
      } else {
        assert Pairs(calls) == Pairs(before);
      }
    }
  }

  lemma NewGeneratorLinked()
    ensures Linked(NEW_GEN, Fresh, [])
  {
  }

  /** The first resumption issues (last, 1) a second time. */
  lemma ResumeRepeats(before: seq<Call>, c: Call)
    requires PossibleRun(before) && NeverResumes(before) && Resumes(before, c)
    ensures Step(After(before), c).1 == Issued(After(before).last, 1) && (After(before).last, 1) in Pairs(before)
  {
    hide NextSeq;
    IncreasingWithoutResume(before);
    ResumeStep(After(before), Pairs(before), c);
  }

  lemma ResumeStep(g: Gen, pairs: seq<(int, int)>, c: Call)
    requires Linked(g, Interrupted, pairs) && c.first == g.last
    ensures Step(g, c).1 == Issued(g.last, 1) && (g.last, 1) in pairs
  {
    NextSeqIs(g, c.first);
    hide NextSeq;
  }

  /**
    For every possible run, whatever the clock does: the issued pairs are pairwise distinct
    exactly when the clock never resumes.
   */
  lemma {:induction false} DistinctExact(calls: seq<Call>)
    requires PossibleRun(calls)
    ensures Distinct(Pairs(calls)) <==> NeverResumes(calls)
  {
    hide NextSeq;
    if calls == [] {
    } else {
      var before, c := calls[..|calls| - 1], calls[|calls| - 1];
      DistinctExact(before);
      if NeverResumes(calls) {
        IncreasingWithoutResume(calls);
      } else if !NeverResumes(before) {
        DistinctPrefix(Pairs(before), Pairs(calls));
      } else {
        ResumeRepeats(before, c);
        var k :| 0 <= k < |Pairs(before)| && Pairs(before)[k] == (After(before).last, 1);
        assert Pairs(calls)[k] == Pairs(calls)[|Pairs(before)|];
      }
    }
  }

  lemma DistinctPrefix(s: seq<(int, int)>, t: seq<(int, int)>)
    requires s <= t && !Distinct(s)
    ensures !Distinct(t)
  {
    var i, j :| 0 <= i < j < |s| && s[i] == s[j];
    assert t[i] == t[j];
  }

  /** No call is refused: each call's first reading is at least the last time the generator has seen. */
  predicate NeverRefused(calls: seq<Call>) {
    calls == [] ||
    (NeverRefused(calls[..|calls| - 1]) && calls[|calls| - 1].first >= After(calls[..|calls| - 1]).last)
  }

  /** In such a run, and in no other, every call issues an id. */
  lemma {:induction false} NeverRefusedExact(calls: seq<Call>)
    requires PossibleRun(calls)
    ensures |Pairs(calls)| <= |calls|
    ensures NeverRefused(calls) <==> |Pairs(calls)| == |calls|
  {
    hide NextSeq;
    if calls == [] {
    } else {
      NeverRefusedExact(calls[..|calls| - 1]);
    }
  }

  lemma {:induction false} NeverRefusedNeverResumes(calls: seq<Call>)
    requires PossibleRun(calls) && NeverRefused(calls)
    ensures NeverResumes(calls) && !PhaseAfter(calls).Interrupted?
  {
    hide NextSeq;
    if calls == [] {
    } else {
      NeverRefusedNeverResumes(calls[..|calls| - 1]);
    }
  }

  /** The k-th reading of the wall clock in milliseconds, ever. */
  type Readings = nat -> int

  ghost predicate NonDecreasing(reading: Readings) {
    forall i: nat, j: nat :: i <= j ==> reading(i) <= reading(j)
  }

  /** These calls were made one after the other, call k with the readings from `spans[k].0` to before `spans[k].1`. */
  predicate FromClock(reading: Readings, calls: seq<Call>, spans: seq<(nat, nat)>) {
    && |calls| == |spans|
    && (calls == [] ||
        var n := |calls| - 1;
        && FromClock(reading, calls[..n], spans[..n])
        && spans[n].0 < spans[n].1 && (n > 0 ==> spans[n - 1].1 <= spans[n].0)
        && calls[n] == Call(reading(spans[n].0), reading(spans[n].1 - 1)))
  }

  /**
    A clock that never goes backwards, and starts after the initial `lastTimeStamp`, is safe: no
    call is ever refused, and `lastTimeStamp` never passes the clock.
   */
  lemma {:induction false} SteadyClockIsSafe(reading: Readings, calls: seq<Call>, spans: seq<(nat, nat)>)
    requires PossibleRun(calls) && FromClock(reading, calls, spans)
    requires NonDecreasing(reading) && reading(0) > NEW_GEN.last
    ensures |Pairs(calls)| == |calls| && NeverRefused(calls) && NeverResumes(calls)
    ensures calls != [] ==> After(calls).last <= reading(spans[|spans| - 1].1 - 1)
  {
    SteadyClockLeads(reading, calls, spans);
    NeverRefusedExact(calls);
    NeverRefusedNeverResumes(calls);
  }

  lemma {:induction false} SteadyClockLeads(reading: Readings, calls: seq<Call>, spans: seq<(nat, nat)>)
    requires PossibleRun(calls) && FromClock(reading, calls, spans)
    requires NonDecreasing(reading) && reading(0) > NEW_GEN.last
    ensures NeverRefused(calls)
    ensures calls != [] ==> After(calls).last <= reading(spans[|spans| - 1].1 - 1)
  {
    hide NextSeq;
    if calls == [] {
    } else {
      var n := |calls| - 1;
      SteadyClockLeads(reading, calls[..n], spans[..n]);
      assert n > 0 ==> reading(spans[n - 1].1 - 1) <= reading(spans[n].0);
      assert reading(0) <= reading(spans[n].0) <= reading(spans[n].1 - 1);
    }
  }

  /** An id carries the last reading its call took: the one it waited for, if the sequence wrapped. */
  lemma IssuedAtLastReading(calls: seq<Call>, i: nat)
    requires PossibleRun(calls) && i < |calls|
    ensures var out := Step(After(calls[..i]), calls[i]).1;
            out.Issued? ==> out.ts == calls[i].later == After(calls[..i + 1]).last
  {
    RunUpTo(calls, i + 1);
    RunStep(calls, i);
  }

  lemma {:induction false} RunUpTo(calls: seq<Call>, i: nat)
    requires PossibleRun(calls) && i <= |calls|
    ensures PossibleRun(calls[..i])
  {
    if i == |calls| {
      assert calls[..i] == calls;
    } else {
      RunUpTo(calls[..|calls| - 1], i);
      assert calls[..|calls| - 1][..i] == calls[..i];
    }
  }

  /** So without refusals, on any clock, the ids carry exactly the last readings of their calls, in order. */
  lemma {:induction false} PairsAreReadings(reading: Readings, calls: seq<Call>, spans: seq<(nat, nat)>)
    requires PossibleRun(calls) && FromClock(reading, calls, spans) && NeverRefused(calls)
    ensures |Pairs(calls)| == |calls|
    ensures forall i :: 0 <= i < |calls| ==> spans[i].1 > 0 && Pairs(calls)[i].0 == reading(spans[i].1 - 1)
  {
    hide NextSeq;
    if calls == [] {
    } else {
      var n := |calls| - 1;
      PairsAreReadings(reading, calls[..n], spans[..n]);
      IssuedAtLastReading(calls, n);
    }
  }

  /** The shortest run that repeats an id: T, T, a step back, T. */
  lemma RefusalCanRepeat(t: int)
    requires t >= 0
    ensures var calls := [Call(t, t), Call(t, t), Call(t - 1, t - 1), Call(t, t)];
            PossibleRun(calls) && Pairs(calls) == [(t, 0), (t, 1), (t, 1)]
  {
    hide NextSeq;
    var calls := [Call(t, t), Call(t, t), Call(t - 1, t - 1), Call(t, t)];
    assert calls[..4] == calls && calls[..0] == [];
    RunStep(calls, 0);
    RunStep(calls, 1);
    RunStep(calls, 2);
    RunStep(calls, 3);
    NextSeqIs(NEW_GEN, t);
    NextSeqIs(Gen(t, 0), t);
    NextSeqIs(Gen(t, 0), t - 1);
    NextSeqIs(Gen(t, 1), t - 1);
  }

  lemma RunStep(calls: seq<Call>, i: nat)
    requires i < |calls|
    ensures PossibleRun(calls[..i + 1]) <==> PossibleRun(calls[..i]) && PossibleCall(After(calls[..i]), calls[i])
    ensures After(calls[..i + 1]) == Step(After(calls[..i]), calls[i]).0
    ensures Pairs(calls[..i + 1]) == Pairs(calls[..i]) +
            var out := Step(After(calls[..i]), calls[i]).1; if out.Issued? then [(out.ts, out.sequence)] else []
  {
    assert calls[..i + 1][..i] == calls[..i];
  }

  // ---------------------------------------------------------------- the ids

  /** The ids a generator returned over a run. */
  function Ids(worker: int, calls: seq<Call>): (ids: seq<int>)
    ensures |ids| == |Pairs(calls)|
    ensures forall i :: 0 <= i < |ids| ==> ids[i] == Pack(Pairs(calls)[i].0, worker, Pairs(calls)[i].1)
  {
    var pairs := Pairs(calls);
    seq(|pairs|, i requires 0 <= i < |pairs| => Pack(pairs[i].0, worker, pairs[i].1))
  }

  ghost predicate TimesInRange(calls: seq<Call>) {
    forall i :: 0 <= i < |Pairs(calls)| ==> PackableTime(Pairs(calls)[i].0)
  }

  /** A possible run whose clock does not resume and stays within 41 bits of the epoch. */
  ghost predicate SafeRun(calls: seq<Call>) {
    PossibleRun(calls) && NeverResumes(calls) && TimesInRange(calls)
  }

  lemma {:induction false} SequencesInRange(calls: seq<Call>)
    requires PossibleRun(calls)
    ensures forall i :: 0 <= i < |Pairs(calls)| ==> 0 <= Pairs(calls)[i].1 <= SEQUENCE_MASK
  {
    hide NextSeq;
    if calls == [] {
    } else {
      var before, c := calls[..|calls| - 1], calls[|calls| - 1];
      SequencesInRange(before);
      GeneratorInvariant(before);
      NextSeqIs(After(before), c.first);
    }
  }

  ghost predicate Ascending(ids: seq<int>) {
    forall i, j :: 0 <= i < j < |ids| ==> ids[i] < ids[j]
  }

  ghost predicate Disjoint(ids: seq<int>, others: seq<int>) {
    forall i, j :: 0 <= i < |ids| && 0 <= j < |others| ==> ids[i] != others[j]
  }

  const WORKER_PERIOD := 0x10_0000_0000_0000

  /** The bits of the worker id that survive the shift fit their field. The generator does not check this. */
  predicate WorkerFits(worker: int) {
    worker % WORKER_PERIOD <= MAX_WORKER
  }

  lemma ShiftDropsHighBits(worker: int)
    ensures Shl64(worker, WORKER_ID_SHIFT) == Shl64(worker % WORKER_PERIOD, WORKER_ID_SHIFT)
    ensures Shl64(worker, WORKER_ID_SHIFT) ==
            var shifted := (worker % WORKER_PERIOD) * 0x1000; if shifted < TWO_63 then shifted else shifted - TWO_64
  {
    hide Pow2;
    Powers();
    assert worker == WORKER_PERIOD * (worker / WORKER_PERIOD) + worker % WORKER_PERIOD;
    var shifted := (worker % WORKER_PERIOD) * 0x1000;
    assert worker * 0x1000 + TWO_63 == TWO_64 * (worker / WORKER_PERIOD) + (shifted + TWO_63);
    if shifted < TWO_63 {
      DivModUnique(worker * 0x1000 + TWO_63, TWO_64, worker / WORKER_PERIOD, shifted + TWO_63);
    } else {
      DivModUnique(worker * 0x1000 + TWO_63, TWO_64, worker / WORKER_PERIOD + 1, shifted - TWO_63);
      DivModUnique(shifted + TWO_63, TWO_64, 1, shifted - TWO_63);
    }
  }

  lemma PackDropsHighBits(ts: int, worker: int, sequence: int)
    ensures Pack(ts, worker, sequence) == Pack(ts, worker % WORKER_PERIOD, sequence)
  {
    hide Shl64;
    ShiftDropsHighBits(worker);
  }

  /** One generator's ids strictly increase over every run whose clock does not resume, if the worker id fits. */
  lemma {:induction false} IdsIncrease(worker: int, calls: seq<Call>)
    requires SafeRun(calls) && WorkerFits(worker)
    ensures Ascending(Ids(worker, calls))
  {
    hide Pack;
    IncreasingWithoutResume(calls);
    SequencesInRange(calls);
    var ids, pairs, low := Ids(worker, calls), Pairs(calls), worker % WORKER_PERIOD;
    forall i, j | 0 <= i < j < |ids| ensures ids[i] < ids[j] {
      PackDropsHighBits(pairs[i].0, worker, pairs[i].1);
      PackDropsHighBits(pairs[j].0, worker, pairs[j].1);
      PackOrders(pairs[i].0, low, pairs[i].1, pairs[j].0, low, pairs[j].1);
    }
  }

  const SIGN_BIT := 0x8_0000_0000_0000

  /** The sign bit apart, which no time since the epoch needs. */
  predicate WorkerFitsSinceEpoch(worker: int) {
    worker % SIGN_BIT <= MAX_WORKER
  }

  /** The shifted worker id is its low 51 bits, and a sign. */
  lemma ShiftedSign(worker: int)
    ensures worker % WORKER_PERIOD == worker % SIGN_BIT || worker % WORKER_PERIOD == worker % SIGN_BIT + SIGN_BIT
    ensures Shl64(worker, WORKER_ID_SHIFT) ==
            (worker % SIGN_BIT) * 0x1000 - if worker % WORKER_PERIOD == worker % SIGN_BIT then 0 else TWO_63
  {
    hide Shl64;
    ShiftDropsHighBits(worker);
    var low := worker % WORKER_PERIOD;
    assert worker == SIGN_BIT * (2 * (worker / WORKER_PERIOD) + low / SIGN_BIT) + low % SIGN_BIT;
    DivModUnique(worker, SIGN_BIT, 2 * (worker / WORKER_PERIOD) + low / SIGN_BIT, low % SIGN_BIT);
  }

  /** Since the epoch, bit 51 of the worker id makes ids negative, and changes nothing else. */
  lemma PackSinceEpoch(ts: int, worker: int, sequence: int)
    requires ts >= EPOCH && PackableTime(ts) && 0 <= sequence <= SEQUENCE_MASK && WorkerFitsSinceEpoch(worker)
    ensures Pack(ts, worker, sequence) == Pack(ts, worker % SIGN_BIT, sequence) -
            if worker % WORKER_PERIOD == worker % SIGN_BIT then 0 else TWO_63
  {
    hide Bitwise;
    var low, t := worker % SIGN_BIT, (ts - EPOCH) * 0x40_0000;
    ShiftedSign(worker);
    Powers();
    assert Shl64(Wrap64(ts - EPOCH), TIMESTAMP_SHIFT) == t;
    assert Shl64(low, WORKER_ID_SHIFT) == low * 0x1000;
    if worker % WORKER_PERIOD != low {
      OrIsSum(22, ts - EPOCH, low * 0x1000, 63);
      OrSetsSign(t, low * 0x1000, 63);
      OrSetsSign(t + low * 0x1000, sequence, 63);
    }
  }

  ghost predicate SinceEpoch(calls: seq<Call>) {
    forall i :: 0 <= i < |Pairs(calls)| ==> Pairs(calls)[i].0 >= EPOCH
  }

  /** On a clock at or after the epoch, ids strictly increase also if bit 51 of the worker id is set. */
  lemma {:induction false} IdsIncreaseSinceEpoch(worker: int, calls: seq<Call>)
    requires SafeRun(calls) && SinceEpoch(calls) && WorkerFitsSinceEpoch(worker)
    ensures Ascending(Ids(worker, calls))
  {
    hide Pack;
    IncreasingWithoutResume(calls);
    SequencesInRange(calls);
    var ids, pairs, low := Ids(worker, calls), Pairs(calls), worker % SIGN_BIT;
    forall i, j | 0 <= i < j < |ids| ensures ids[i] < ids[j] {
      PackSinceEpoch(pairs[i].0, worker, pairs[i].1);
      PackSinceEpoch(pairs[j].0, worker, pairs[j].1);
      PackOrders(pairs[i].0, low, pairs[i].1, pairs[j].0, low, pairs[j].1);
    }
  }

  /** A worker id with a bit from 10 to 50 set hides a bit of the timestamp: two times at which the ids are the same. */
  lemma WideWorkerHidesBit(worker: int) returns (ts: int, ts': int)
    requires !WorkerFitsSinceEpoch(worker)
    ensures EPOCH <= ts < ts' && PackableTime(ts) && PackableTime(ts')
    ensures Pack(ts, worker, 0) == Pack(ts', worker, 0)
  {
    hide Bitwise;
    var low := (worker % SIGN_BIT) * 0x1000;
    ShiftedSign(worker);
    Powers();
    var k := HighestBit(low, 63);
    HighBitPosition(low, k);
    ts, ts' := EPOCH, EPOCH + Pow2(k - 22);
    TimeBit(k);
    NoBits(k);
    BitBelowSign(low, k, 63);
    OrHidesBit(0, Shl64(worker, WORKER_ID_SHIFT), k, 63);
  }

  /** One that does not fit because of bit 51 hides the sign of the timestamp, which tells times before the epoch. */
  lemma WideWorkerHidesTime(worker: int) returns (ts: int, ts': int)
    requires !WorkerFits(worker)
    ensures 0 <= ts < ts' && PackableTime(ts) && PackableTime(ts')
    ensures Pack(ts, worker, 0) == Pack(ts', worker, 0)
  {
    hide Bitwise;
    if !WorkerFitsSinceEpoch(worker) {
      ts, ts' := WideWorkerHidesBit(worker);
    } else {
      ShiftedSign(worker);
      Powers();
      ts, ts' := 0, Pow2(41);
      OrHidesSign(-EPOCH * 0x40_0000, Shl64(worker, WORKER_ID_SHIFT), 63);
      assert Shl64(Wrap64(ts - EPOCH), TIMESTAMP_SHIFT) == -EPOCH * 0x40_0000;
      assert Shl64(Wrap64(ts' - EPOCH), TIMESTAMP_SHIFT) == -EPOCH * 0x40_0000 + TWO_63;
    }
  }

  lemma HighBitPosition(x: int, k: nat)
    requires 0x40_0000 <= x && x < 2 * Pow2(k)
    ensures k >= 22
  {
    Powers();
    if k < 22 {
      PowersGrow(k + 1, 22);
    }
  }

  lemma {:induction false} PowersGrow(j: nat, k: nat)
    requires j <= k
    ensures Pow2(j) <= Pow2(k)
  {
    if j == k {
    } else {
      PowersGrow(j, k - 1);
    }
  }

  lemma PowersGrowStrictly(j: nat, k: nat)
    requires j < k
    ensures 0 < Pow2(j) < Pow2(k)
  {
    PowersGrow(j + 1, k);
  }

  /** One bit of the timestamp field, shifted to its place. */
  lemma TimeBit(k: nat)
    requires 22 <= k < 63
    ensures 0 < Pow2(k - 22) < 0x200_0000_0000
    ensures Shl64(Wrap64(Pow2(k - 22)), TIMESTAMP_SHIFT) == Pow2(k)
    ensures Shl64(Wrap64(0), TIMESTAMP_SHIFT) == 0
  {
    hide Pow2;
    Powers();
    PowAdd(k - 22, 22);
    PowersGrowStrictly(k - 22, 41);
    PowersGrowStrictly(k, 63);
  }

  /** A clock that only advances, over two times: one id at each. */
  lemma TwoTimesRepeat(worker: int, ts: int, ts': int) returns (calls: seq<Call>)
    requires 0 <= ts < ts' && PackableTime(ts) && PackableTime(ts')
    ensures SafeRun(calls) && NeverRefused(calls) && Pairs(calls) == [(ts, 0), (ts', 0)]
    ensures Ids(worker, calls) == [Pack(ts, worker, 0), Pack(ts', worker, 0)]
  {
    hide Pack, NextSeq;
    calls := [Call(ts, ts), Call(ts', ts')];
    assert calls[..2] == calls && calls[..0] == [];
    RunStep(calls, 0);
    RunStep(calls, 1);
    NextSeqIs(NEW_GEN, ts);
    NextSeqIs(Gen(ts, 0), ts');
    assert NeverRefused(calls[..1]);
    NeverRefusedNeverResumes(calls);
  }

  /** So with such a worker id even a clock that only advances makes the generator issue one id twice. */
  lemma WideWorkerRepeats(worker: int) returns (calls: seq<Call>)
    requires !WorkerFits(worker)
    ensures SafeRun(calls) && NeverRefused(calls)
    ensures !WorkerFitsSinceEpoch(worker) ==> SinceEpoch(calls)
    ensures var ids := Ids(worker, calls); |ids| == 2 && ids[0] == ids[1]
  {
    hide Pack, SafeRun, Ids;
    if !WorkerFitsSinceEpoch(worker) {
      var ts, ts' := WideWorkerHidesBit(worker);
      calls := TwoTimesRepeat(worker, ts, ts');
    } else {
      var ts, ts' := WideWorkerHidesTime(worker);
      calls := TwoTimesRepeat(worker, ts, ts');
    }
  }

  ghost predicate AllDifferent(ids: seq<int>) {
    forall i, j :: 0 <= i < j < |ids| ==> ids[i] != ids[j]
  }

  /**
    For every worker id: the ids of all safe runs are pairwise distinct, and likewise ascending,
    exactly when the worker id fits.
   */
  lemma {:induction false} WorkerIdExact(worker: int)
    ensures (forall calls :: SafeRun(calls) ==> AllDifferent(Ids(worker, calls))) <==> WorkerFits(worker)
    ensures (forall calls :: SafeRun(calls) ==> Ascending(Ids(worker, calls))) <==> WorkerFits(worker)
  {
    hide SafeRun, Ids, WorkerFits;
    if WorkerFits(worker) {
      forall calls | SafeRun(calls) ensures Ascending(Ids(worker, calls)) && AllDifferent(Ids(worker, calls)) {
        IdsIncrease(worker, calls);
      }
    } else {
      var calls := WideWorkerRepeats(worker);
      assert !AllDifferent(Ids(worker, calls)) && !Ascending(Ids(worker, calls));
    }
  }

  /** On clocks at or after the epoch, exactly when its low 51 bits fit. */
  lemma {:induction false} WorkerIdExactSinceEpoch(worker: int)
    ensures (forall calls :: SafeRun(calls) && SinceEpoch(calls) ==> AllDifferent(Ids(worker, calls))) <==>
            WorkerFitsSinceEpoch(worker)
    ensures (forall calls :: SafeRun(calls) && SinceEpoch(calls) ==> Ascending(Ids(worker, calls))) <==>
            WorkerFitsSinceEpoch(worker)
  {
    hide SafeRun, SinceEpoch, Ids, WorkerFitsSinceEpoch, WorkerFits;
    if WorkerFitsSinceEpoch(worker) {
      forall calls | SafeRun(calls) && SinceEpoch(calls)
        ensures Ascending(Ids(worker, calls)) && AllDifferent(Ids(worker, calls))
      {
        IdsIncreaseSinceEpoch(worker, calls);
      }
    } else {
      FitsImpliesSinceEpoch(worker);
      var calls := WideWorkerRepeats(worker);
      assert !AllDifferent(Ids(worker, calls)) && !Ascending(Ids(worker, calls));
    }
  }

  lemma FitsImpliesSinceEpoch(worker: int)
    ensures WorkerFits(worker) ==> WorkerFitsSinceEpoch(worker)
  {
    hide Shl64;
    ShiftedSign(worker);
  }

  /**
    Fleet-wide uniqueness: generators whose worker ids come from any 1023 consecutive values of
    the shared counter never issue the same id, each running under a clock that does not resume.
   */
  lemma {:induction false} FleetIdsAreDistinct(first: int, runs: map<int, seq<Call>>)
    requires 0 <= first && forall c :: c in runs ==> first <= c < first + 1023 && SafeRun(runs[c])
    ensures forall c :: c in runs ==> Ascending(Ids(WorkerOf(c), runs[c]))
    ensures forall c, d :: c in runs && d in runs && c != d ==>
              Disjoint(Ids(WorkerOf(c), runs[c]), Ids(WorkerOf(d), runs[d]))
  {
    hide WorkerOf, SafeRun, Ids, Ascending, Disjoint;
    forall c | c in runs ensures Ascending(Ids(WorkerOf(c), runs[c])) {
      WorkersInWindow(first, c, c);
      IdsIncrease(WorkerOf(c), runs[c]);
    }
    forall c, d | c in runs && d in runs && c != d
      ensures Disjoint(Ids(WorkerOf(c), runs[c]), Ids(WorkerOf(d), runs[d]))
    {
      WorkersInWindow(first, c, d);
      OtherWorkersDiffer(WorkerOf(c), runs[c], WorkerOf(d), runs[d]);
    }
  }

  lemma WorkersInWindow(first: int, a: int, b: int)
    requires 0 <= first <= a < first + 1023 && first <= b < first + 1023
    ensures 0 <= WorkerOf(a) <= MAX_WORKER && 0 <= WorkerOf(b) <= MAX_WORKER
    ensures WorkerOf(a) == WorkerOf(b) ==> a == b
  {
    hide WorkerOf;
    WorkersRepeatEvery1023(a, b);
    WorkersRepeatEvery1023(b, a);
  }

  lemma {:induction false} OtherWorkersDiffer(worker: int, calls: seq<Call>, worker': int, calls': seq<Call>)
    requires SafeRun(calls) && SafeRun(calls') && worker != worker'
    requires 0 <= worker <= MAX_WORKER && 0 <= worker' <= MAX_WORKER
    ensures Disjoint(Ids(worker, calls), Ids(worker', calls'))
  {
    hide Pack;
    SequencesInRange(calls);
    SequencesInRange(calls');
    var ids, ids' := Ids(worker, calls), Ids(worker', calls');
    var pairs, pairs' := Pairs(calls), Pairs(calls');
    forall i, j | 0 <= i < |ids| && 0 <= j < |ids'| ensures ids[i] != ids'[j] {
      DifferentWorkers(pairs[i].0, worker, pairs[i].1, pairs'[j].0, worker', pairs'[j].1);
    }
  }

  lemma DifferentWorkers(ts: int, worker: int, sequence: int, ts': int, worker': int, sequence': int)
    requires Packable(ts, worker, sequence) && Packable(ts', worker', sequence') && worker != worker'
    ensures Pack(ts, worker, sequence) != Pack(ts', worker', sequence')
  {
    ParseInvertsPack(ts, worker, sequence);
    ParseInvertsPack(ts', worker', sequence');
  }

  /**
    Without refusals sequences are dense: each pair either starts a new millisecond at 0 or
    continues the pair before it, so ids sharing a timestamp carry exactly 0 to k, k <= 4095.
   */
  lemma {:induction false} SequencesAreDense(calls: seq<Call>, i: nat)
    requires PossibleRun(calls) && NeverRefused(calls) && (calls != [] ==> calls[0].first > NEW_GEN.last)
    requires i < |Pairs(calls)|
    ensures var p := Pairs(calls);
            || (p[i].1 == 0 && (i > 0 ==> p[i - 1].0 < p[i].0))
            || (i > 0 && p[i] == (p[i - 1].0, p[i - 1].1 + 1))
  {
    hide NextSeq;
    var before, c := calls[..|calls| - 1], calls[|calls| - 1];
    if i < |Pairs(before)| {
      SequencesAreDense(before, i);
    } else if before == [] {
      NextSeqIs(NEW_GEN, c.first);
    } else {
      LastPairIsState(before);
      GeneratorInvariant(before);
      NextSeqIs(After(before), c.first);
    }
  }

  /**
    Spelled out: an id with sequence k closes a block of k + 1 ids of its millisecond that
    carry 0 to k, and whatever was issued before the block is of an earlier millisecond.
   */
  lemma {:induction false} SequencesCountUp(calls: seq<Call>, i: nat)
    requires PossibleRun(calls) && NeverRefused(calls) && (calls != [] ==> calls[0].first > NEW_GEN.last)
    requires i < |Pairs(calls)|
    ensures var p := Pairs(calls); var k := p[i].1;
            && 0 <= k <= i && k <= SEQUENCE_MASK
            && (forall j :: i - k <= j <= i ==> p[j] == (p[i].0, j - (i - k)))
            && (k < i ==> p[i - k - 1].0 < p[i].0)
  {
    hide Pairs, NeverRefused, PossibleRun;
    SequencesAreDense(calls, i);
    SequencesInRange(calls);
    if Pairs(calls)[i].1 == 0 {
    } else {
      SequencesCountUp(calls, i - 1);
    }
  }

  /** Without refusals the last pair issued is the generator's own state. */
  lemma {:induction false} LastPairIsState(calls: seq<Call>)
    requires PossibleRun(calls) && NeverRefused(calls) && calls != []
    ensures Pairs(calls) != [] && Pairs(calls)[|Pairs(calls)| - 1] == (After(calls).last, After(calls).sequence)
  {
  }
}
