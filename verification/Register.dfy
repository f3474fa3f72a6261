/** The registrar object against an etcd server, with `doRegister`, `revoke` and the re-registration loop. */
module Registers {
  import opened Wrappers
  import opened Registration

  /** How the three commands of one `doRegister` go, and what happens on the server between them. */
  datatype Attempt = Attempt(
    grant: Network, beforeKeepAlive: seq<Action>, keepAlive: bool, beforePut: seq<Action>, put: Network)

  predicate CommandsWork(a: Attempt) {
    a.grant.Fine? && a.keepAlive && a.put.Fine?
  }

  /** Nothing but other nodes' grants, leases running out, and puts arriving late. */
  predicate HappensElsewhere(actions: seq<Action>) {
    forall a :: a in actions ==> a.Expire? || a.OtherGrant? || a.LandPut?
  }

  /** No command fails, and no lease runs out in between. */
  predicate Works(a: Attempt) {
    CommandsWork(a) && forall x :: x in a.beforeKeepAlive + a.beforePut ==> !x.Expire?
  }

  /** The key is there, and bound to this lease. */
  predicate EndsKey(key: Option<Binding>, lease: nat) {
    key.Some? && key.value.lease == lease
  }

  class EtcdServer {
    var alive: set<nat>
    var granted: nat
    var key: Option<Binding>
    /** The leases of puts that have timed out and may still arrive. */
    var late: set<nat>

    function State(): Etcd
      reads this
    {
      Etcd(alive, granted, key, late)
    }

    /** Every running lease was granted. */
    predicate Valid()
      reads this
    {
      forall l :: l in alive ==> l < granted
    }

    constructor ()
      ensures Valid() && State() == Etcd({}, 0, None, {})
    {
      alive, granted, key, late := {}, 0, None, {};
    }

    method Grant() returns (lease: nat)
      requires Valid()
      modifies this
      ensures Valid() && State() == Granted(old(State())) && lease == old(granted) && lease !in old(alive)
    {
      lease := granted;
      alive := alive + {lease};
      granted := granted + 1;
    }

    method Put(value: string, lease: nat) returns (ok: bool)
      requires Valid()
      modifies this
      ensures Valid() && State() == PutUnder(old(State()), value, lease) && ok == (lease in alive)
    {
      ok := lease in alive;
      if ok {
        key := Some(Binding(value, lease));
      }
    }

    /** A put of which the caller hears nothing, and that may arrive later. */
    method LosePut(lease: nat)
      requires Valid()
      modifies `late
      ensures Valid() && State() == PutTimedOut(old(State()), lease)
    {
      late := late + {lease};
    }

    method LandPut(value: string, lease: nat)
      requires Valid()
      modifies this
      ensures Valid() && State() == LatePut(old(State()), value, lease)
    {
      if lease in late {
        late := late - {lease};
        var _ := Put(value, lease);
      }
    }

    method Revoke(lease: nat) returns (ok: bool)
      requires Valid()
      modifies this
      ensures Valid() && State() == Ended(old(State()), lease) && ok == (lease in old(alive))
    {
      ok := lease in alive;
      if key.Some? && key.value.lease == lease {
        key := None;
      }
      alive := alive - {lease};
    }
  }

  /**
    The steps of one `doRegister` that are taken: it stops at the first command that fails.
   */
  function Steps(a: Attempt): seq<Action> {
    var granted := [Action.Grant(a.grant)];
    if !a.grant.Fine? then granted else
      var kept := granted + a.beforeKeepAlive + [KeepAlive(a.keepAlive)];
      if !a.keepAlive then kept else kept + a.beforePut + [Action.Put(a.put)]
  }

  lemma RunOneMore(host: string, run: seq<Action>, a: Action)
    ensures After(host, run + [a]) == Next(host, After(host, run), a)
  {
    assert (run + [a])[..|run|] == run;
  }

  /** The registrar is as it was, and a lease ended since exactly if it ran before and is not running now. */
  ghost predicate LeftAlone(w: World, w': World, ended: bool) {
    && w'.stage == w.stage && w'.leaseID == w.leaseID && w'.etcd.granted >= w.etcd.granted
    && (w.leaseID < w.etcd.granted ==> (w.leaseID in w'.etcd.alive <==> w.leaseID in w.etcd.alive && !ended))
  }

  lemma ElsewhereStep(host: string, w: World, w': World, ended: bool, a: Action)
    requires LeftAlone(w, w', ended) && (a.Expire? || a.OtherGrant? || a.LandPut?)
    ensures LeftAlone(w, Next(host, w', a), ended || a == Expire(w.leaseID))
  {
  }

  /** What happens elsewhere leaves the registrar alone, and ends its lease exactly if that runs out. */
  lemma {:induction false} ElsewhereLeavesRegistrar(host: string, run: seq<Action>, actions: seq<Action>)
    requires HappensElsewhere(actions)
    ensures var w := After(host, run); LeftAlone(w, After(host, run + actions), Expire(w.leaseID) in actions)
  {
    hide Next;
    if actions == [] {
      assert run + actions == run;
    } else {
      var front, a := actions[..|actions| - 1], actions[|actions| - 1];
      assert actions == front + [a] && run + actions == run + front + [a];
      assert a in actions;
      forall x | x in front ensures x in actions {
      }
      ElsewhereLeavesRegistrar(host, run, front);
      RunOneMore(host, run + front, a);
      ElsewhereStep(host, After(host, run), After(host, run + front), Expire(After(host, run).leaseID) in front, a);
    }
  }

  class ServiceRegister {
    const registerHost: string
    var leaseID: nat
    /** The lease whose keep-alive responses the channel delivers. */
    var keepAliveChannel: Option<nat>
    ghost var stage: Stage
    /** Everything that has happened to this node's registration. */
    ghost var run: seq<Action>

    /** The registrar and the server are in the state that the run leads to. */
    ghost predicate Valid(etcd: EtcdServer)
      reads this, etcd
    {
      etcd.Valid() && World(etcd.State(), leaseID, stage) == After(registerHost, run)
    }

    constructor (host: string, etcd: EtcdServer)
      requires etcd.Valid() && etcd.State() == Etcd({}, 0, None, {})
      ensures Valid(etcd) && registerHost == host && stage == Down && run == [] && keepAliveChannel == None
    {
      registerHost, leaseID, keepAliveChannel := host, 0, None;
      stage, run := Down, [];
    }

    /** What happens on the server without this registrar. */
    method Elsewhere(etcd: EtcdServer, actions: seq<Action>)
      requires Valid(etcd) && HappensElsewhere(actions)
      modifies etcd, `run
      ensures Valid(etcd) && run == old(run) + actions
      ensures etcd.granted >= old(etcd.granted)
      ensures leaseID < old(etcd.granted) ==>
                (leaseID in etcd.alive <==> leaseID in old(etcd.alive) && Expire(leaseID) !in actions)
    {
      hide After;
      ElsewhereLeavesRegistrar(registerHost, run, actions);
      for i := 0 to |actions|
        invariant Valid(etcd) && run == old(run) + actions[..i]
      {
        assert actions[i] in actions;
        RunOneMore(registerHost, run, actions[i]);
        match actions[i] {
          case Expire(lease) => var _ := etcd.Revoke(lease);
          case OtherGrant => var _ := etcd.Grant();
          case LandPut(lease) => etcd.LandPut(registerHost, lease);
        }
        assert old(run) + actions[..i] + [actions[i]] == old(run) + actions[..i + 1];
        run := run + [actions[i]];
      }
      assert actions[..|actions|] == actions;
    }

    /** Takes one step of the run. */
    ghost method Step(etcd: EtcdServer, a: Action, next: Stage)
      requires etcd.Valid() && World(etcd.State(), leaseID, next) == After(registerHost, run + [a])
      modifies `run, `stage
      ensures Valid(etcd) && run == old(run) + [a] && stage == next
    {
      run, stage := run + [a], next;
    }

    /**
      Success leaves the key bound to the new lease; it fails exactly if a command does, or the
      lease has run out before the put.
     */
    method DoRegister(etcd: EtcdServer, a: Attempt) returns (err: bool)
      requires Valid(etcd) && stage.Down? && HappensElsewhere(a.beforeKeepAlive) && HappensElsewhere(a.beforePut)
      modifies this, etcd
      ensures Valid(etcd) && run == old(run) + Steps(a) && stage == if err then Down else Registered
      ensures !err <==> CommandsWork(a) && Expire(old(etcd.granted)) !in a.beforeKeepAlive + a.beforePut
      ensures !err ==> leaseID in etcd.alive && etcd.key == Some(Binding(registerHost, leaseID))
      ensures !err ==> keepAliveChannel == Some(leaseID) && leaseID == old(etcd.granted)
      ensures etcd.granted >= old(etcd.granted) + if a.grant.RequestLost? then 0 else 1
      ensures a.grant.ReplyLost? ==> etcd.State() == Granted(old(etcd.State()))
    {
      hide After;
      RunOneMore(registerHost, run, Action.Grant(a.grant));
      if a.grant.RequestLost? {
        Step(etcd, Action.Grant(a.grant), Down);
        return true;
      }
      var lease := etcd.Grant();
      if a.grant.ReplyLost? {
        Step(etcd, Action.Grant(a.grant), Down);
        return true;
      }
      leaseID := lease;
      Step(etcd, Action.Grant(a.grant), HasLease);
      Elsewhere(etcd, a.beforeKeepAlive);
      RunOneMore(registerHost, run, KeepAlive(a.keepAlive));
      if !a.keepAlive {
        Step(etcd, KeepAlive(a.keepAlive), Down);
        return true;
      }
      keepAliveChannel := Some(lease);
      Step(etcd, KeepAlive(a.keepAlive), KeptAlive);
      Elsewhere(etcd, a.beforePut);
      RunOneMore(registerHost, run, Action.Put(a.put));
      if a.put.RequestLost? {
        etcd.LosePut(lease);
        Step(etcd, Action.Put(a.put), Down);
        return true;
      }
      var ok := etcd.Put(registerHost, lease);
      err := !ok || a.put.ReplyLost?;
      Step(etcd, Action.Put(a.put), if err then Down else Registered);
    }

    method Revoke(etcd: EtcdServer, net: Network) returns (err: bool)
      requires Valid(etcd) && stage.Registered?
      modifies etcd, `run, `stage
      ensures Valid(etcd) && run == old(run) + [Action.Revoke(net)] && stage.Down?
      ensures etcd.granted == old(etcd.granted)
      ensures err == (!net.Fine? || leaseID !in old(etcd.alive))
      ensures if net.RequestLost? then etcd.State() == old(etcd.State())
              else
                && etcd.alive == old(etcd.alive) - {leaseID}
                && etcd.key == if EndsKey(old(etcd.key), leaseID) then None else old(etcd.key)
    {
      hide After;
      RunOneMore(registerHost, run, Action.Revoke(net));
      err := true;
      if !net.RequestLost? {
        var ok := etcd.Revoke(leaseID);
        err := !ok || net.ReplyLost?;
      }
      Step(etcd, Action.Revoke(net), Down);
    }

    /**
      One loss of the keep-alive channel: revoke the lease, whether that works or not, then
      register again and again until it does, with anything happening on the server before each
      attempt (`pauses`). In the end the key is bound to a new lease, and the old one has ended if
      the revoke reached the server.
     */
    method OnChannelLost(etcd: EtcdServer, net: Network, pauses: nat -> seq<Action>, attempts: nat -> Attempt)
      requires Valid(etcd) && stage.Registered?
      requires forall n :: HappensElsewhere(pauses(n))
      requires forall n :: HappensElsewhere(attempts(n).beforeKeepAlive) && HappensElsewhere(attempts(n).beforePut)
      requires exists n: nat :: Works(attempts(n))
      modifies this, etcd
      ensures Valid(etcd) && stage.Registered? && old(run) + [Action.Revoke(net)] <= run
      ensures leaseID in etcd.alive && leaseID >= old(etcd.granted) > old(leaseID)
      ensures !net.RequestLost? ==> old(leaseID) !in etcd.alive
      ensures etcd.key == Some(Binding(registerHost, leaseID)) && keepAliveChannel == Some(leaseID)
    {
      hide After, HappensElsewhere;
      ghost var end: nat :| Works(attempts(end));
      ghost var lease := leaseID;
      LeaseWasGranted(registerHost, run);
      var _ := Revoke(etcd, net);
      ghost var revoked := run;
      var n := 0;
      var err := true;
      while err
        invariant Valid(etcd) && revoked <= run && stage == if err then Down else Registered
        invariant etcd.granted >= old(etcd.granted)
        invariant err ==> n <= end
        invariant !err ==> leaseID in etcd.alive && etcd.key == Some(Binding(registerHost, leaseID))
        invariant !err ==> keepAliveChannel == Some(leaseID) && leaseID >= old(etcd.granted)
        decreases end - n, err
      {
        Elsewhere(etcd, pauses(n));
        err := DoRegister(etcd, attempts(n));
        n := n + 1;
      }
      if !net.RequestLost? {
        assert run == revoked + run[|revoked|..];
        EndedStaysEnded(registerHost, revoked, run[|revoked|..], lease);
      }
    }
  }

  lemma LeaseWasGranted(host: string, run: seq<Action>)
    requires After(host, run).stage.Registered?
    ensures After(host, run).leaseID < After(host, run).etcd.granted
  {
    KeyFollowsLastPut(host, run);
  }
}
