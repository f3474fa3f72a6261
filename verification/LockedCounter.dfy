/**
  Workers that increment a shared counter under the lock: take the lock, read, write back the
  value plus one, unlock. The read and the write are separate steps. A worker whose attempts
  all failed goes on without the lock.
 */
module LockedCounter {
  import opened LockServer
  import opened Wrappers

  /** `lease` is when the worker's lease runs out, None for a worker that went on without the lock. */
  datatype Worker = Idle | Entered(lease: Option<int>) | HasRead(lease: Option<int>, value: int) | Written

  datatype World = World(server: Server, counter: int, workers: map<LockID, Worker>)

  /**
    `Unheard` is an attempt that reaches the server but whose reply is lost: the worker gives up.
    `GoOn` is a worker whose `Lock` timed out.
   */
  datatype Act =
    | Acquire(id: LockID, lease: int)
    | Unheard(id: LockID, lease: int)
    | GoOn(id: LockID)
    | ReadCounter(id: LockID)
    | WriteCounter(id: LockID)
    | Release(id: LockID)
    | Pass(time: nat)

  function StateOf(w: World, id: LockID): Worker {
    if id in w.workers then w.workers[id] else Idle
  }

  /** One step of one worker. Every worker has its own lock id. A step that is not possible changes nothing. */
  function Next(w: World, a: Act): World {
    match a
    case Acquire(id, lease) =>
      if StateOf(w, id).Idle? then
        var (server, reply) := Step(w.server, SetNX(id, lease));
        if reply == Took(true)
        then w.(server := server, workers := w.workers[id := Entered(Some(w.server.now + lease))])
        else w
      else w
    case Unheard(id, lease) =>
      if StateOf(w, id).Idle? then w.(server := Step(w.server, SetNX(id, lease)).0) else w
    case GoOn(id) =>
      if StateOf(w, id).Idle? then w.(workers := w.workers[id := Entered(None)]) else w
    case ReadCounter(id) =>
      if StateOf(w, id).Entered? then w.(workers := w.workers[id := HasRead(w.workers[id].lease, w.counter)]) else w
    case WriteCounter(id) =>
      if StateOf(w, id).HasRead? then w.(counter := w.workers[id].value + 1, workers := w.workers[id := Written]) else w
    case Release(id) =>
      if StateOf(w, id).Idle? || StateOf(w, id).Written? then w.(server := Step(w.server, Unlock(id)).0) else w
    case Pass(time) => w.(server := Step(w.server, Wait(time)).0)
  }

  function After(run: seq<Act>): World {
    if run == [] then World(Server(0, Free), 0, map[]) else Next(After(run[..|run| - 1]), run[|run| - 1])
  }

  function Completed(w: World): set<LockID> {
    set id | id in w.workers && w.workers[id].Written?
  }

  lemma RunStep(run: seq<Act>, i: nat)
    requires i < |run|
    ensures After(run[..i + 1]) == Next(After(run[..i]), run[i])
  {
    assert run[..i + 1][..i] == run[..i];
  }

  // ---------------------------------------------------- who gets in, and when

  /** In every run an idle worker gets the lock, for its own lease, exactly if the key is absent. */
  lemma AcquireExact(run: seq<Act>, id: LockID, lease: int)
    requires StateOf(After(run), id).Idle?
    ensures var w, w' := After(run), After(run + [Acquire(id, lease)]);
            if Present(w.server) then w' == w
            else var until := w.server.now + lease;
              StateOf(w', id) == Entered(Some(until)) && w'.server.key == Held(id, until)
  {
    assert (run + [Acquire(id, lease)])[..|run|] == run;
  }

  /** An attempt whose reply is lost takes the lock all the same if the key is absent, and its worker stays outside. */
  lemma UnheardExact(run: seq<Act>, id: LockID, lease: int)
    requires StateOf(After(run), id).Idle?
    ensures var w, w' := After(run), After(run + [Unheard(id, lease)]);
            && w'.workers == w.workers && w'.counter == w.counter
            && w'.server.key == if Present(w.server) then w.server.key else Held(id, w.server.now + lease)
  {
    assert (run + [Unheard(id, lease)])[..|run|] == run;
  }

  /** A worker that releases leaves the key absent, unless another worker holds it: then it stays that worker's. */
  lemma ReleaseExact(run: seq<Act>, id: LockID)
    requires StateOf(After(run), id).Idle? || StateOf(After(run), id).Written?
    ensures var w, w' := After(run), After(run + [Release(id)]);
            && (Present(w'.server) <==> Present(w.server) && w.server.key.owner != id)
            && (Present(w'.server) ==> w'.server == w.server)
            && w'.workers == w.workers && w'.counter == w.counter
  {
    assert (run + [Release(id)])[..|run|] == run;
  }

  // ------------------------------------------- exactly when updates are lost

  /** This step is a write that takes effect. */
  predicate Writes(w: World, a: Act) {
    a.WriteCounter? && StateOf(w, a.id).HasRead?
  }

  predicate Reads(w: World, a: Act) {
    a.ReadCounter? && StateOf(w, a.id).Entered?
  }

  /** Since this worker has read the counter, another worker has written it. */
  predicate Overtaken(run: seq<Act>, id: LockID) {
    run != [] &&
    var before, a := run[..|run| - 1], run[|run| - 1];
    if Reads(After(before), a) && a.id == id then false
    else (Writes(After(before), a) && a.id != id) || Overtaken(before, id)
  }

  /** No worker's write falls between another worker's read and that worker's write. */
  predicate NobodyInterferes(run: seq<Act>) {
    run == [] ||
    var before, a := run[..|run| - 1], run[|run| - 1];
    NobodyInterferes(before) && !(Writes(After(before), a) && Overtaken(before, a.id))
  }

  lemma CompletedGrows(w: World, a: Act)
    ensures |Completed(Next(w, a))| == |Completed(w)| + if Writes(w, a) then 1 else 0
  {
    if Writes(w, a) {
      WriteCompletes(w, a.id);
    } else {
      OthersComplete(w, a);
    }
  }

  lemma WriteCompletes(w: World, id: LockID)
    requires StateOf(w, id).HasRead?
    ensures |Completed(Next(w, WriteCounter(id)))| == |Completed(w)| + 1
  {
    assert Completed(Next(w, WriteCounter(id))) == Completed(w) + {id};
  }

  lemma OthersComplete(w: World, a: Act)
    requires !Writes(w, a)
    ensures Completed(Next(w, a)) == Completed(w)
  {
  }

  /** What a worker has read is the counter, unless it was overtaken; then the sections completed have passed it. */
  predicate ReadSound(run: seq<Act>, id: LockID) {
    var w := After(run);
    StateOf(w, id).HasRead? ==>
      if Overtaken(run, id) then StateOf(w, id).value < |Completed(w)| else StateOf(w, id).value == w.counter
  }

  /** The counter is the number of completed sections, or has fallen behind it for good. */
  predicate CounterSound(run: seq<Act>) {
    var w := After(run);
    if NobodyInterferes(run) then w.counter == |Completed(w)| else w.counter < |Completed(w)|
  }

  lemma StepKeepsRead(run: seq<Act>, id: LockID)
    requires run != [] && ReadSound(run[..|run| - 1], id) && CounterSound(run[..|run| - 1])
    ensures ReadSound(run, id)
  {
    CompletedGrows(After(run[..|run| - 1]), run[|run| - 1]);
  }

  lemma StepKeepsCounter(run: seq<Act>)
    requires run != [] && CounterSound(run[..|run| - 1])
    requires run[|run| - 1].WriteCounter? ==> ReadSound(run[..|run| - 1], run[|run| - 1].id)
    ensures CounterSound(run)
  {
    CompletedGrows(After(run[..|run| - 1]), run[|run| - 1]);
  }

  lemma {:induction false} RunSound(run: seq<Act>, id: LockID)
    ensures ReadSound(run, id) && CounterSound(run)
  {
    hide ReadSound, CounterSound;
    if run == [] {
      NothingDone(id);
    } else {
      var before, a := run[..|run| - 1], run[|run| - 1];
      RunSound(before, id);
      StepKeepsRead(run, id);
      if a.WriteCounter? {
        RunSound(before, a.id);
      }
      StepKeepsCounter(run);
    }
  }

  lemma NothingDone(id: LockID)
    ensures ReadSound([], id) && CounterSound([])
  {
    assert Completed(After([])) == {};
  }

  /**
    Over every interleaving of any number of workers, with or without the lock, in time or late:
    no update is lost exactly when no worker writes between another worker's read and write.
    Otherwise the counter stays behind for good.
   */
  lemma {:induction false} LostUpdateExact(run: seq<Act>)
    ensures After(run).counter == |Completed(After(run))| <==> NobodyInterferes(run)
    ensures After(run).counter <= |Completed(After(run))|
  {
    RunSound(run, "");
  }

  // --------------------------------------------------------- what the lock does

  /** The worker is inside its section, and its lease is running. */
  predicate Leased(w: World, id: LockID) {
    var worker := StateOf(w, id);
    (worker.Entered? || worker.HasRead?) && worker.lease.Some? && w.server.now <= worker.lease.value
  }

  /** A leased worker holds the key. */
  predicate Protected(w: World, id: LockID) {
    Leased(w, id) ==> w.server.key == Held(id, StateOf(w, id).lease.value)
  }

  lemma StepProtects(w: World, a: Act, id: LockID)
    requires Protected(w, id)
    ensures Protected(Next(w, a), id)
  {
  }

  lemma {:induction false} RunProtects(run: seq<Act>, id: LockID)
    ensures Protected(After(run), id)
  {
    hide Protected;
    if run == [] {
      NobodyLeased(id);
    } else {
      RunProtects(run[..|run| - 1], id);
      StepProtects(After(run[..|run| - 1]), run[|run| - 1], id);
    }
  }

  lemma NobodyLeased(id: LockID)
    ensures Protected(After([]), id)
  {
  }

  /** In every run at most one worker is inside its section with a running lease. */
  lemma {:induction false} OneInside(run: seq<Act>, a: LockID, b: LockID)
    requires Leased(After(run), a) && Leased(After(run), b)
    ensures a == b
  {
    RunProtects(run, a);
    RunProtects(run, b);
  }

  /** Every write of the run is made by a worker with a running lease. */
  predicate WritesInTime(run: seq<Act>) {
    run == [] ||
    (WritesInTime(run[..|run| - 1]) && InTime(After(run[..|run| - 1]), run[|run| - 1]))
  }

  predicate InTime(w: World, a: Act) {
    Writes(w, a) ==> Leased(w, a.id)
  }

  /** While its lease is running nobody overtakes a worker. */
  lemma {:induction false} LeasedIsNotOvertaken(run: seq<Act>, id: LockID)
    requires WritesInTime(run) && StateOf(After(run), id).HasRead? && Leased(After(run), id)
    ensures !Overtaken(run, id)
  {
    var before, a := run[..|run| - 1], run[|run| - 1];
    if Reads(After(before), a) && a.id == id {
    } else {
      LeasedBefore(After(before), a, id);
      LeasedIsNotOvertaken(before, id);
      if Writes(After(before), a) {
        OneInside(before, id, a.id);
      }
    }
  }

  lemma LeasedBefore(w: World, a: Act, id: LockID)
    requires StateOf(Next(w, a), id).HasRead? && Leased(Next(w, a), id) && !(Reads(w, a) && a.id == id)
    ensures StateOf(w, id).HasRead? && Leased(w, id)
  {
  }

  lemma {:induction false} InTimeNobodyInterferes(run: seq<Act>)
    requires WritesInTime(run)
    ensures NobodyInterferes(run)
  {
    if run == [] {
    } else {
      var before, a := run[..|run| - 1], run[|run| - 1];
      InTimeNobodyInterferes(before);
      if Writes(After(before), a) {
        LeasedIsNotOvertaken(before, a.id);
      }
    }
  }

  /**
    So no update is lost if every write comes from a worker whose lease has not run out: over
    any interleaving of any number of workers the counter is the number of completed sections.
   */
  lemma {:induction false} NoLostUpdate(run: seq<Act>)
    requires WritesInTime(run)
    ensures After(run).counter == |Completed(After(run))|
  {
    InTimeNobodyInterferes(run);
    LostUpdateExact(run);
  }

  // -------------------------------------------------------- what it does not do

  function LateRun(a: LockID, b: LockID): seq<Act> {
    [Acquire(a, 1), ReadCounter(a), Pass(2), Acquire(b, 1), ReadCounter(b), WriteCounter(b), WriteCounter(a)]
  }

  /** A write after the lease does lose an update: two sections complete, the counter is 1. */
  lemma LateWriteLosesUpdate(a: LockID, b: LockID)
    requires a != b
    ensures After(LateRun(a, b)).counter == 1 && Completed(After(LateRun(a, b))) == {a, b}
    ensures !NobodyInterferes(LateRun(a, b)) && !WritesInTime(LateRun(a, b))
  {
    var run := LateRun(a, b);
    SecondWorkerDone(a, b);
    RunStep(run, 6);
    assert run[..7] == run;
    assert After(run) == World(Server(2, Held(b, 3)), 1, map[a := Written, b := Written]);
    TwoCompleted(run, a, b);
  }

  /** A counter of 1 after two sections: somebody interfered, and somebody wrote without a running lease. */
  lemma {:induction false} TwoCompleted(run: seq<Act>, a: LockID, b: LockID)
    requires a != b && After(run).counter == 1 && After(run).workers == map[a := Written, b := Written]
    ensures Completed(After(run)) == {a, b} && !NobodyInterferes(run) && !WritesInTime(run)
  {
    hide After, NobodyInterferes, WritesInTime;
    assert Completed(After(run)) == {a, b} && |{a, b}| == 2;
    LostUpdateExact(run);
    if WritesInTime(run) {
      NoLostUpdate(run);
    }
  }

  lemma FirstWorkerStalls(a: LockID, b: LockID)
    requires a != b
    ensures After(LateRun(a, b)[..3]) == World(Server(2, Held(a, 1)), 0, map[a := HasRead(Some(1), 0)])
  {
    var run := LateRun(a, b);
    assert run[..0] == [];
    RunStep(run, 0);
    assert After(run[..1]) == World(Server(0, Held(a, 1)), 0, map[a := Entered(Some(1))]);
    RunStep(run, 1);
    assert After(run[..2]) == World(Server(0, Held(a, 1)), 0, map[a := HasRead(Some(1), 0)]);
    RunStep(run, 2);
  }

  lemma SecondWorkerDone(a: LockID, b: LockID)
    requires a != b
    ensures After(LateRun(a, b)[..6]) == World(Server(2, Held(b, 3)), 1, map[a := HasRead(Some(1), 0), b := Written])
  {
    var run := LateRun(a, b);
    FirstWorkerStalls(a, b);
    RunStep(run, 3);
    assert After(run[..4]) == World(Server(2, Held(b, 3)), 0, map[a := HasRead(Some(1), 0), b := Entered(Some(3))]);
    RunStep(run, 4);
    assert After(run[..5]) == World(Server(2, Held(b, 3)), 0, map[a := HasRead(Some(1), 0), b := HasRead(Some(3), 0)]);
    RunStep(run, 5);
  }

  function TimedOutRun(a: LockID, b: LockID): seq<Act> {
    [Acquire(a, 100), ReadCounter(a), GoOn(b), ReadCounter(b), WriteCounter(a), WriteCounter(b)]
  }

  /** A holder that has a lease writes while it runs; a worker without the lock may write as it likes. */
  predicate HoldersWriteInTime(run: seq<Act>) {
    run == [] ||
    var w, a := After(run[..|run| - 1]), run[|run| - 1];
    HoldersWriteInTime(run[..|run| - 1]) && (Writes(w, a) && StateOf(w, a.id).lease.Some? ==> Leased(w, a.id))
  }

  /** A worker that goes on after its `Lock` timed out loses an update, though every holder writes in time. */
  lemma TimedOutWorkerLosesUpdate(a: LockID, b: LockID)
    requires a != b
    ensures After(TimedOutRun(a, b)).counter == 1 && Completed(After(TimedOutRun(a, b))) == {a, b}
    ensures HoldersWriteInTime(TimedOutRun(a, b)) && !NobodyInterferes(TimedOutRun(a, b))
  {
    var run := TimedOutRun(a, b);
    BothHaveRead(a, b);
    RunStep(run, 4);
    HolderStep(run, 4);
    assert After(run[..5]) == World(Server(0, Held(a, 100)), 1, map[a := Written, b := HasRead(None, 0)]);
    RunStep(run, 5);
    HolderStep(run, 5);
    assert run[..6] == run;
    TwoCompleted(run, a, b);
  }

  lemma BothHaveRead(a: LockID, b: LockID)
    requires a != b
    ensures After(TimedOutRun(a, b)[..4]) ==
            World(Server(0, Held(a, 100)), 0, map[a := HasRead(Some(100), 0), b := HasRead(None, 0)])
    ensures HoldersWriteInTime(TimedOutRun(a, b)[..4])
  {
    var run := TimedOutRun(a, b);
    HolderHasRead(a, b);
    RunStep(run, 2);
    HolderStep(run, 2);
    assert After(run[..3]).workers == map[a := HasRead(Some(100), 0), b := Entered(None)];
    RunStep(run, 3);
    HolderStep(run, 3);
  }

  lemma HolderHasRead(a: LockID, b: LockID)
    requires a != b
    ensures After(TimedOutRun(a, b)[..2]) == World(Server(0, Held(a, 100)), 0, map[a := HasRead(Some(100), 0)])
    ensures HoldersWriteInTime(TimedOutRun(a, b)[..2])
  {
    var run := TimedOutRun(a, b);
    assert run[..0] == [];
    RunStep(run, 0);
    HolderStep(run, 0);
    assert After(run[..1]) == World(Server(0, Held(a, 100)), 0, map[a := Entered(Some(100))]);
    RunStep(run, 1);
    HolderStep(run, 1);
  }

  lemma HolderStep(run: seq<Act>, i: nat)
    requires i < |run| && HoldersWriteInTime(run[..i])
    requires var w := After(run[..i]); Writes(w, run[i]) && StateOf(w, run[i].id).lease.Some? ==> Leased(w, run[i].id)
    ensures HoldersWriteInTime(run[..i + 1])
  {
    assert run[..i + 1][..i] == run[..i];
  }
}
