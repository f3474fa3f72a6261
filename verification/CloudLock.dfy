/**
  The lock as clients use it: `CloudLock` objects sharing one server. The server keeps its
  whole history in a ghost log, so what `LockServer` proves of logs holds of every use.
 */
module CloudLocks {
  import opened LockServer
  import opened Wrappers

  class LockService {
    var now: int
    var key: Key
    ghost var log: seq<Action>

    ghost function State(): Server
      reads this
    {
      Server(now, key)
    }

    ghost predicate Valid()
      reads this
    {
      State() == After(log)
    }

    constructor ()
      ensures Valid() && log == []
    {
      now, key, log := 0, Free, [];
    }

    method SetNX(id: LockID, lease: int) returns (success: bool)
      requires Valid()
      modifies this
      ensures Valid() && log == old(log) + [Action.SetNX(id, lease)]
      ensures success == Succeeds(log, |log| - 1)
      ensures success ==> key == Held(id, now + lease) && !Present(old(State()))
      ensures !success ==> State() == old(State()) && Present(old(State()))
      ensures now == old(now)
    {
      success := !(key.Held? && now <= key.until);
      if success {
        key := Held(id, now + lease);
      }
      log := log + [Action.SetNX(id, lease)];
      assert log[..|log| - 1] == old(log);
    }

    /** The compare-and-delete script. */
    method EvalUnlock(id: LockID) returns (code: int)
      requires Valid()
      modifies this
      ensures Valid() && log == old(log) + [Unlock(id)] && now == old(now)
      ensures code == 1 <==> Present(old(State())) && old(key).owner == id
      ensures code == 3 <==> !Present(old(State()))
      ensures key == if code == 1 then Free else old(key)
    {
      if key.Held? && now <= key.until {
        if key.owner == id {
          key := Free;
          code := 1;
        } else {
          code := 2;
        }
      } else {
        code := 3;
      }
      log := log + [Unlock(id)];
      assert log[..|log| - 1] == old(log);
    }

    method WaitFor(time: nat)
      requires Valid()
      modifies this
      ensures Valid() && log == old(log) + [Wait(time)] && now == old(now) + time && key == old(key)
    {
      now := now + time;
      log := log + [Wait(time)];
      assert log[..|log| - 1] == old(log);
    }

    /** Whatever other clients and the clock do in the meantime. */
    method Others(actions: seq<Action>)
      requires Valid()
      modifies this
      ensures Valid() && log == old(log) + actions
    {
      hide After;
      for i := 0 to |actions|
        invariant Valid() && log == old(log) + actions[..i]
      {
        match actions[i] {
          case SetNX(id, lease) => var _ := SetNX(id, lease);
          case Unlock(id) => var _ := EvalUnlock(id);
          case Wait(time) => WaitFor(time);
        }
        assert old(log) + actions[..i] + [actions[i]] == old(log) + actions[..i + 1];
      }
      assert actions[..|actions|] == actions;
    }
  }

  /** What happens before attempt n: attempts 0 to n - 1, and what the others do after each. */
  function Before(attempt: Action, others: nat -> seq<Action>, n: nat): seq<Action>
    decreases n, 0
  {
    if n == 0 then [] else Attempts(attempt, others, n - 1) + others(n - 1)
  }

  /** Up to and including attempt n. */
  function Attempts(attempt: Action, others: nat -> seq<Action>, n: nat): seq<Action>
    decreases n, 1
  {
    Before(attempt, others, n) + [attempt]
  }

  /** After this log, attempts 0 to n - 1 would each find the key present. */
  ghost predicate AllFail(base: seq<Action>, attempt: Action, others: nat -> seq<Action>, n: nat) {
    forall m: nat :: m < n ==> Present(After(base + Before(attempt, others, m)))
  }

  lemma NoAttemptYet(base: seq<Action>, attempt: Action, others: nat -> seq<Action>)
    ensures base + Before(attempt, others, 0) == base && AllFail(base, attempt, others, 0)
  {
    assert base + [] == base;
  }

  lemma AttemptLogged(base: seq<Action>, attempt: Action, others: nat -> seq<Action>, n: nat)
    ensures base + Before(attempt, others, n) + [attempt] == base + Attempts(attempt, others, n)
    ensures base + Before(attempt, others, n) + [] == base + Before(attempt, others, n)
    ensures AllFail(base, attempt, others, n) && Present(After(base + Before(attempt, others, n))) ==>
              AllFail(base, attempt, others, n + 1)
  {
    hide After, Present;
  }

  lemma RoundLogged(base: seq<Action>, attempt: Action, others: nat -> seq<Action>, n: nat)
    ensures base + Attempts(attempt, others, n) + others(n) == base + Before(attempt, others, n + 1)
  {
  }

  class CloudLock {
    const lockID: LockID
    var expiration: int
    var tryLockInterval: int
    var tryLockTimeout: int

    predicate Valid()
      reads this
    {
      expiration > 0 && tryLockInterval > 0 && tryLockTimeout > 0
    }

    /** Durations are in milliseconds. */
    constructor (lockID: LockID)
      ensures Valid() && this.lockID == lockID && expiration == 1000
    {
      this.lockID := lockID;
      expiration, tryLockInterval, tryLockTimeout := 1000, 10, 10000;
    }

    /** A lock can not be configured to hold its key for ever. */
    method SetExpiration(expiration: int)
      requires Valid()
      modifies `expiration
      ensures Valid() && this.expiration == if expiration > 0 then expiration else old(this.expiration)
    {
      if expiration > 0 {
        this.expiration := expiration;
      }
    }

    method TryLock(server: LockService, net: Network) returns (success: bool, err: bool)
      requires Valid() && server.Valid()
      modifies server
      ensures server.Valid() && err == !net.Fine?
      ensures server.log == old(server.log) + if net.RequestLost? then [] else [SetNX(lockID, expiration)]
      ensures success <==> net.Fine? && !Present(old(server.State()))
      ensures !net.RequestLost? && !Present(old(server.State())) ==> server.key == Held(lockID, server.now + expiration)
      ensures net.RequestLost? || Present(old(server.State())) ==> server.State() == old(server.State())
      ensures success ==> Succeeds(server.log, |server.log| - 1)
    {
      success, err := false, !net.Fine?;
      if !net.RequestLost? {
        var took := server.SetNX(lockID, expiration);
        success := took && net.Fine?;
      }
    }

    /**
      Tries until it has the lock, a command fails or the timer fires. In round n the others
      act first, then the select chooses the timer or the ticker. A ready timer is chosen at
      some time. The server's log gains attempts 0 to `last`, and what the others do after each;
      every attempt but the last, and that one too if the timer fired, found the key present.
     */
    method Lock(server: LockService, net: nat -> Network, others: nat -> seq<Action>, timer: nat -> bool)
      returns (success: bool, err: bool, ghost last: nat)
      requires Valid() && server.Valid()
      requires exists n: nat :: timer(n)
      modifies server
      ensures server.Valid()
      ensures var attempt, base := SetNX(lockID, expiration), old(server.log);
              && (success ==> !err && net(last).Fine? && server.log == base + Attempts(attempt, others, last))
              && (success ==> Succeeds(server.log, |server.log| - 1))
              && (err ==> !success && !net(last).Fine?)
              && (err ==> server.log == base + if net(last).RequestLost? then Before(attempt, others, last)
                                               else Attempts(attempt, others, last))
              && (!success && !err ==> timer(last) && net(last).Fine?)
              && (!success && !err ==> server.log == base + Before(attempt, others, last + 1))
              && AllFail(base, attempt, others, if success || err then last else last + 1)
      ensures forall m: nat :: m < last ==> net(m).Fine? && !timer(m)
      ensures success ==> server.key == Held(lockID, server.now + expiration)
    {
      hide After, Present, Succeeds, Before, Attempts, AllFail;
      ghost var end: nat :| timer(end);
      ghost var attempt, base := SetNX(lockID, expiration), server.log;
      last := 0;
      NoAttemptYet(base, attempt, others);
      success, err := TryLock(server, net(0));
      AttemptLogged(base, attempt, others, 0);
      if success || err {
        return;
      }
      var n: nat := 0;
      while true
        invariant server.Valid() && n == last <= end
        invariant server.log == base + Attempts(attempt, others, n)
        invariant AllFail(base, attempt, others, n + 1)
        invariant forall m: nat :: m <= n ==> net(m).Fine?
        invariant forall m: nat :: m < n ==> !timer(m)
        decreases end - n
      {
        server.Others(others(n));
        RoundLogged(base, attempt, others, n);
        if timer(n) {
          return false, false, n;
        }
        n, last := n + 1, n + 1;
        success, err := TryLock(server, net(n));
        AttemptLogged(base, attempt, others, n);
        if success || err {
          return;
        }
      }
    }

    /** Afterwards this lock does not hold the key, unless the command never arrived. */
    method Unlock(server: LockService, net: Network)
      requires server.Valid()
      modifies server
      ensures server.Valid() && server.now == old(server.now)
      ensures server.log == old(server.log) + if net.RequestLost? then [] else [Action.Unlock(lockID)]
      ensures !net.RequestLost? ==> !(Present(server.State()) && server.key.owner == lockID)
      ensures Present(old(server.State())) && old(server.key).owner != lockID ==> server.State() == old(server.State())
    {
      if !net.RequestLost? {
        var _ := server.EvalUnlock(lockID);
      }
    }
  }
}
