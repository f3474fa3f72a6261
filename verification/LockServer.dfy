/**
  The lease lock on the server's side: one Redis key, SETNX with expiry, the compare-and-delete
  script and the server's clock, as atomic actions of any number of clients.
 */
module LockServer {

  type LockID = string

  datatype Key = Free | Held(owner: LockID, until: int)

  datatype Server = Server(now: int, key: Key)

  datatype Action = SetNX(id: LockID, lease: int) | Unlock(id: LockID) | Wait(time: nat)

  /** SetNX replies whether it set the key, Unlock what the script returned. */
  datatype Reply = Took(success: bool) | Script(code: int) | Done

  /** Redis drops a key when its clock is past the expiry, not yet at it. */
  predicate Present(s: Server) {
    s.key.Held? && s.now <= s.key.until
  }

  function Step(s: Server, a: Action): (Server, Reply) {
    match a
    case SetNX(id, lease) =>
      if Present(s) then (s, Took(false)) else (s.(key := Held(id, s.now + lease)), Took(true))
    case Unlock(id) =>
      if !Present(s) then (s, Script(3))
      else if s.key.owner == id then (s.(key := Free), Script(1))
      else (s, Script(2))
    case Wait(time) => (s.(now := s.now + time), Done)
  }

  function After(log: seq<Action>): Server {
    if log == [] then Server(0, Free) else Step(After(log[..|log| - 1]), log[|log| - 1]).0
  }

  predicate Succeeds(log: seq<Action>, i: nat)
    requires i < |log|
  {
    log[i].SetNX? && Step(After(log[..i]), log[i]).1 == Took(true)
  }

  function TimeOf(log: seq<Action>, i: nat): int
    requires i <= |log|
  {
    After(log[..i]).now
  }

  // -------------------------------------------------------- mutual exclusion

  /** Between i and j the holder ran no unlock. */
  predicate NotUnlocked(log: seq<Action>, id: LockID, i: nat, j: nat)
    requires i <= j <= |log|
  {
    forall k :: i < k < j ==> log[k] != Unlock(id)
  }

  /** Between i and j nobody took the lock. */
  predicate NotTaken(log: seq<Action>, i: nat, j: nat)
    requires i <= j <= |log|
  {
    forall k :: i < k < j ==> !Succeeds(log, k)
  }

  lemma AfterNext(log: seq<Action>, k: nat)
    requires k < |log|
    ensures After(log[..k + 1]) == Step(After(log[..k]), log[k]).0
  {
    assert log[..k + 1][..k] == log[..k];
  }

  lemma {:induction false} TimeAdvances(log: seq<Action>, i: nat, j: nat)
    requires i <= j <= |log|
    ensures TimeOf(log, i) <= TimeOf(log, j)
  {
    if i == j {
    } else {
      TimeAdvances(log, i, j - 1);
      AfterNext(log, j - 1);
    }
  }

  /** While the lease runs and its holder does not unlock, the key stays the holder's. */
  lemma {:induction false} HeldThroughout(log: seq<Action>, i: nat, j: nat)
    requires i < j <= |log| && Succeeds(log, i)
    requires NotUnlocked(log, log[i].id, i, j) && TimeOf(log, j) <= TimeOf(log, i) + log[i].lease
    ensures After(log[..j]).key == Held(log[i].id, TimeOf(log, i) + log[i].lease)
  {
    AfterNext(log, j - 1);
    if j == i + 1 {
    } else {
      TimeAdvances(log, j - 1, j);
      HeldThroughout(log, i, j - 1);
    }
  }

  /**
    Mutual exclusion over all interleavings: after a successful SETNX at time t nobody, on any
    client, takes the lock until t + lease has passed, unless an unlock with the holder's own id
    came in between. Late unlocks of former holders and replies that never arrived are all in
    the log.
   */
  lemma MutualExclusion(log: seq<Action>, i: nat, j: nat)
    requires i < j < |log| && Succeeds(log, i) && Succeeds(log, j)
    requires NotUnlocked(log, log[i].id, i, j)
    ensures TimeOf(log, j) > TimeOf(log, i) + log[i].lease
  {
    if TimeOf(log, j) <= TimeOf(log, i) + log[i].lease {
      HeldThroughout(log, i, j);
    }
  }

  /** Once the holder has unlocked, the key is free until somebody takes it. */
  lemma {:induction false} FreeSince(log: seq<Action>, u: nat, j: nat)
    requires u < j <= |log| && !Present(After(log[..u + 1])) && NotTaken(log, u, j)
    ensures !Present(After(log[..j]))
  {
    if j == u + 1 {
    } else {
      FreeSince(log, u, j - 1);
      AfterNext(log, j - 1);
      assert !Succeeds(log, j - 1);
    }
  }

  /** As long as nobody else takes it, the key is the last holder's or absent. */
  lemma {:induction false} HeldOrAbsent(log: seq<Action>, i: nat, j: nat)
    requires i < j <= |log| && Succeeds(log, i) && NotTaken(log, i, j)
    ensures Present(After(log[..j])) ==> After(log[..j]).key == Held(log[i].id, TimeOf(log, i) + log[i].lease)
  {
    AfterNext(log, j - 1);
    if j == i + 1 {
    } else {
      HeldOrAbsent(log, i, j - 1);
      assert !Succeeds(log, j - 1);
    }
  }

  /**
    Exactly when the next attempt gets the lock: the lease has run out, or the holder has
    unlocked. So the lock is neither released early nor held on to.
   */
  lemma NextAttemptExact(log: seq<Action>, i: nat, j: nat)
    requires i < j < |log| && Succeeds(log, i) && log[j].SetNX? && NotTaken(log, i, j)
    ensures Succeeds(log, j) <==>
            TimeOf(log, j) > TimeOf(log, i) + log[i].lease || !NotUnlocked(log, log[i].id, i, j)
  {
    HeldOrAbsent(log, i, j);
    if NotUnlocked(log, log[i].id, i, j) {
      if TimeOf(log, j) <= TimeOf(log, i) + log[i].lease {
        HeldThroughout(log, i, j);
      }
    } else {
      var u :| i < u < j && log[u] == Unlock(log[i].id);
      HeldOrAbsent(log, i, u);
      AfterNext(log, u);
      FreeSince(log, u, j);
    }
  }

  /** An unlock with another id, or after the lease, never touches the current holder's key. */
  lemma ForeignUnlockIsHarmless(s: Server, id: LockID)
    ensures Present(s) && s.key.owner != id ==> Step(s, Unlock(id)).0 == s
    ensures Step(s, Unlock(id)).1 == Script(1) <==> Present(s) && s.key.owner == id
  {
  }
}
