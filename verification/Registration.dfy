/**
  Registration of one service node in etcd: leases, the key bound to one of them, channel
  loss, revocation and re-registration, with every command failing in any way at any time.
 */
module Registration {
  import opened Wrappers
  import EtcdReplay

  // -------------------------------------------------------------------- keys

  function GetEtcdKey(environment: string, suffix: string): string {
    "/go/" + environment + "/" + suffix
  }

  function NodeKey(environment: string, service: string, host: string): string {
    GetEtcdKey(environment, service + "/" + host)
  }

  function ResolverPrefix(environment: string, service: string): string {
    GetEtcdKey(environment, service) + "/"
  }

  /** Which nodes a resolver sees, for any names. */
  lemma ResolverSeesExactly(environment: string, service: string, other: string, host: string)
    ensures EtcdReplay.HasPrefix(NodeKey(environment, other, host), ResolverPrefix(environment, service)) <==>
            service + "/" <= other + "/" + host
  {
    var base := GetEtcdKey(environment, "");
    assert NodeKey(environment, other, host) == base + (other + "/" + host);
    assert ResolverPrefix(environment, service) == base + (service + "/");
    if base + (service + "/") <= base + (other + "/" + host) {
      PrefixUnderBase(base, other + "/" + host, service + "/");
    }
    if service + "/" <= other + "/" + host {
      BaseBeforePrefix(base, other + "/" + host, service + "/");
    }
  }

  /** So among services without a slash in their names, a resolver sees exactly its own service's nodes. */
  lemma ResolverSeesOwnNodes(environment: string, service: string, other: string, host: string)
    requires '/' !in service && '/' !in other
    ensures EtcdReplay.HasPrefix(NodeKey(environment, other, host), ResolverPrefix(environment, service)) <==>
            other == service
  {
    ResolverSeesExactly(environment, service, other, host);
    if other == service {
      assert other + "/" + host == (service + "/") + host;
    } else if service + "/" <= other + "/" + host {
      FirstSlash(other, host, service);
    }
  }

  lemma BaseBeforePrefix(base: string, s: string, t: string)
    requires t <= s
    ensures base + t <= base + s
  {
    assert s == t + s[|t|..];
    assert base + s == base + t + s[|t|..];
  }

  lemma PrefixUnderBase(base: string, s: string, t: string)
    requires base + t <= base + s
    ensures t <= s
  {
    forall i | 0 <= i < |t| ensures t[i] == s[i] {
      assert (base + t)[|base| + i] == (base + s)[|base| + i];
    }
  }

  lemma FirstSlash(other: string, host: string, service: string)
    requires '/' !in service && '/' !in other && service + "/" <= other + "/" + host
    ensures other == service
  {
    var s, t := other + "/" + host, service + "/";
    assert s[|other|] == '/' && t[|service|] == '/';
    assert t[..|service|] == service && s[..|other|] == other;
    if |other| == |service| {
      assert s[..|t|] == t;
      assert s[..|other|] == t[..|service|];
    }
  }

  // ------------------------------------------------------------------- server

  datatype Binding = Binding(value: string, lease: nat)

  /**
    `alive` are the running leases, `granted` counts the leases ever granted; the key is this
    node's, and `late` are the leases of its puts that have timed out and may still arrive.
   */
  datatype Etcd = Etcd(alive: set<nat>, granted: nat, key: Option<Binding>, late: set<nat>)

  function Granted(e: Etcd): Etcd {
    e.(alive := e.alive + {e.granted}, granted := e.granted + 1)
  }

  /** A put under a lease that no longer runs is refused. */
  function PutUnder(e: Etcd, value: string, lease: nat): Etcd {
    if lease in e.alive then e.(key := Some(Binding(value, lease))) else e
  }

  function PutTimedOut(e: Etcd, lease: nat): Etcd {
    e.(late := e.late + {lease})
  }

  function LatePut(e: Etcd, value: string, lease: nat): Etcd {
    if lease in e.late then PutUnder(e.(late := e.late - {lease}), value, lease) else e
  }

  /** Revoked or expired: the lease goes, and with it every key bound to it. */
  function Ended(e: Etcd, lease: nat): Etcd {
    e.(alive := e.alive - {lease},
       key := if e.key.Some? && e.key.value.lease == lease then None else e.key)
  }

  // ---------------------------------------------------------------- registrar

  /** Where `doRegister` stands: between attempts, after the grant, after keep-alive, or registered. */
  datatype Stage = Down | HasLease | KeptAlive | Registered

  datatype World = World(etcd: Etcd, leaseID: nat, stage: Stage)

  /**
    `Expire` ends any lease; `OtherGrant` is another node's, or one that timed out; `LandPut` is
    a put that had timed out and takes effect after all.
   */
  datatype Action =
    | Grant(net: Network)
    | KeepAlive(ok: bool)
    | Put(net: Network)
    | Revoke(net: Network)
    | Expire(lease: nat)
    | OtherGrant
    | LandPut(lease: nat)

  /** A command that fails sends the registrar back to the start of its retry loop. */
  function Next(host: string, w: World, a: Action): World {
    match a
    case Grant(net) =>
      if !w.stage.Down? || net.RequestLost? then w
      else if net.Fine? then World(Granted(w.etcd), w.etcd.granted, HasLease)
      else w.(etcd := Granted(w.etcd))
    case KeepAlive(ok) =>
      if w.stage.HasLease? then w.(stage := if ok then KeptAlive else Down) else w
    case Put(net) =>
      if !w.stage.KeptAlive? then w
      else if net.RequestLost? then World(PutTimedOut(w.etcd, w.leaseID), w.leaseID, Down)
      else World(PutUnder(w.etcd, host, w.leaseID), w.leaseID,
                 if net.Fine? && w.leaseID in w.etcd.alive then Registered else Down)
    case Revoke(net) =>
      if !w.stage.Registered? then w
      else World(if net.RequestLost? then w.etcd else Ended(w.etcd, w.leaseID), w.leaseID, Down)
    case Expire(lease) => w.(etcd := Ended(w.etcd, lease))
    case OtherGrant => w.(etcd := Granted(w.etcd))
    case LandPut(lease) => w.(etcd := LatePut(w.etcd, host, lease))
  }

  function After(host: string, run: seq<Action>): World {
    if run == [] then World(Etcd({}, 0, None, {}), 0, Down)
    else Next(host, After(host, run[..|run| - 1]), run[|run| - 1])
  }

  /** This step is a put that takes effect, under this lease. */
  function EffectivePut(w: World, a: Action): Option<nat> {
    match a
    case Put(net) =>
      if w.stage.KeptAlive? && !net.RequestLost? && w.leaseID in w.etcd.alive then Some(w.leaseID) else None
    case LandPut(lease) => if lease in w.etcd.late && lease in w.etcd.alive then Some(lease) else None
    case _ => None
  }

  /** The lease of the last put that took effect. */
  function LastPut(host: string, run: seq<Action>): Option<nat> {
    if run == [] then None else
      var put := EffectivePut(After(host, run[..|run| - 1]), run[|run| - 1]);
      if put.Some? then put else LastPut(host, run[..|run| - 1])
  }

  ghost predicate Inv(host: string, w: World, lastPut: Option<nat>) {
    && (forall l :: l in w.etcd.alive || l in w.etcd.late ==> l < w.etcd.granted)
    && (!w.stage.Down? ==> w.leaseID < w.etcd.granted)
    && (lastPut.Some? ==> lastPut.value < w.etcd.granted)
    && (w.stage.Registered? ==> lastPut.Some?)
    && w.etcd.key == if lastPut.Some? && lastPut.value in w.etcd.alive then Some(Binding(host, lastPut.value)) else None
  }

  /** In every run: the key is there exactly as long as the lease of the last effective put runs, and bound to it. */
  lemma {:induction false} KeyFollowsLastPut(host: string, run: seq<Action>)
    ensures Inv(host, After(host, run), LastPut(host, run))
  {
    hide Next, Inv, EffectivePut;
    if run == [] {
      NothingPut(host);
    } else {
      var front := run[..|run| - 1];
      KeyFollowsLastPut(host, front);
      StepFollowsLastPut(host, After(host, front), run[|run| - 1], LastPut(host, front));
    }
  }

  lemma NothingPut(host: string)
    ensures Inv(host, After(host, []), LastPut(host, []))
  {
  }

  lemma StepFollowsLastPut(host: string, w: World, a: Action, lastPut: Option<nat>)
    requires Inv(host, w, lastPut)
    ensures Inv(host, Next(host, w, a), if EffectivePut(w, a).Some? then EffectivePut(w, a) else lastPut)
  {
  }

  /**
    Over every run of grants, puts, channel losses, revocations, failures, expiries and late
    puts: while registered, the key is right (bound to the current lease as long as that runs)
    if and only if the last effective put was the current registration's, or its lease and the
    current one have both ended.
   */
  lemma {:induction false} RegisteredKeyFollowsLease(host: string, run: seq<Action>)
    requires After(host, run).stage.Registered?
    ensures LastPut(host, run).Some?
    ensures var w, l := After(host, run), LastPut(host, run).value;
            w.etcd.key == (if w.leaseID in w.etcd.alive then Some(Binding(host, w.leaseID)) else None) <==>
            l == w.leaseID || (l !in w.etcd.alive && w.leaseID !in w.etcd.alive)
  {
    KeyFollowsLastPut(host, run);
  }

  /** Ending a lease removes the key exactly if it is the lease of the last effective put. */
  lemma {:induction false} EndingRemovesExactly(host: string, run: seq<Action>, lease: nat)
    ensures var w, w' := After(host, run), Next(host, After(host, run), Expire(lease));
            w'.etcd.key == if LastPut(host, run) == Some(lease) then None else w.etcd.key
  {
    KeyFollowsLastPut(host, run);
  }

  /**
    A revoke that reaches etcd ends the registrar's lease and no other, and takes the key with it
    if the key is still that registration's; one that does not reach etcd changes nothing there.
    Either way the registrar is down.
   */
  lemma {:induction false} RevokingEndsLease(host: string, run: seq<Action>, net: Network)
    requires After(host, run).stage.Registered?
    ensures var w, w' := After(host, run), After(host, run + [Revoke(net)]);
            && w'.stage.Down? && w'.leaseID == w.leaseID
            && (if net.RequestLost? then w'.etcd == w.etcd
                else
                  && w'.etcd.alive == w.etcd.alive - {w.leaseID} && w'.etcd.granted == w.etcd.granted
                  && w'.etcd.key == if LastPut(host, run) == Some(w.leaseID) then None else w.etcd.key)
  {
    KeyFollowsLastPut(host, run);
    assert (run + [Revoke(net)])[..|run|] == run;
  }

  /**
    A registration outlives everything but its own lease: until the registrar itself revokes, and
    as long as no timed-out put arrives late, the key stays bound to the lease exactly until that
    lease expires.
   */
  lemma {:induction false} RegistrationLastsExactly(host: string, run: seq<Action>, later: seq<Action>)
    requires var w := After(host, run);
             w.stage.Registered? && w.leaseID in w.etcd.alive && LastPut(host, run) == Some(w.leaseID)
    requires forall a :: a in later ==> !a.Revoke? && !a.LandPut?
    ensures var w, w' := After(host, run), After(host, run + later);
            && w'.stage.Registered? && w'.leaseID == w.leaseID
            && w'.etcd.key == if Expire(w.leaseID) in later then None else Some(Binding(host, w.leaseID))
  {
    LeaseLastsExactly(host, run, later);
    KeyFollowsLastPut(host, run + later);
  }

  lemma {:induction false} LeaseLastsExactly(host: string, run: seq<Action>, later: seq<Action>)
    requires var w := After(host, run); w.stage.Registered? && w.leaseID in w.etcd.alive
    requires forall a :: a in later ==> !a.Revoke? && !a.LandPut?
    ensures var w, w' := After(host, run), After(host, run + later);
            && w'.stage.Registered? && w'.leaseID == w.leaseID
            && (w.leaseID in w'.etcd.alive <==> Expire(w.leaseID) !in later)
            && LastPut(host, run + later) == LastPut(host, run)
  {
    if later == [] {
      assert run + later == run;
    } else {
      var front := later[..|later| - 1];
      assert later == front + [later[|later| - 1]];
      assert (run + later)[..|run + later| - 1] == run + front;
      LeaseLastsExactly(host, run, front);
      KeyFollowsLastPut(host, run + front);
    }
  }

  /** A put that times out, a second attempt that registers, then the late put, and the end of its lease. */
  function LateRun(): seq<Action> {
    [Grant(Fine), KeepAlive(true), Put(RequestLost), Grant(Fine), KeepAlive(true), Put(Fine), LandPut(0), Expire(0)]
  }

  /** The failing case: registered under a running lease, and the key is gone. */
  lemma LatePutLosesKey(host: string)
    ensures var w := After(host, LateRun());
            w.stage.Registered? && w.leaseID == 1 && w.leaseID in w.etcd.alive && w.etcd.key == None
  {
    var run := LateRun();
    SecondAttemptRegisters(host);
    RunStep(host, run, 6);
    assert After(host, run[..7]).etcd == Etcd({0, 1}, 2, Some(Binding(host, 0)), {}) by {
      assert {0} - {0} == {};
    }
    RunStep(host, run, 7);
    assert run[..8] == run;
  }

  lemma SecondAttemptRegisters(host: string)
    ensures After(host, LateRun()[..6]) == World(Etcd({0, 1}, 2, Some(Binding(host, 1)), {0}), 1, Registered)
  {
    var run := LateRun();
    FirstAttemptTimesOut(host);
    RunStep(host, run, 3);
    assert After(host, run[..4]) == World(Etcd({0, 1}, 2, None, {0}), 1, HasLease);
    RunStep(host, run, 4);
    RunStep(host, run, 5);
  }

  lemma FirstAttemptTimesOut(host: string)
    ensures After(host, LateRun()[..3]) == World(Etcd({0}, 1, None, {0}), 0, Down)
  {
    var run := LateRun();
    assert run[..0] == [];
    RunStep(host, run, 0);
    assert After(host, run[..1]) == World(Etcd({0}, 1, None, {}), 0, HasLease);
    RunStep(host, run, 1);
    RunStep(host, run, 2);
  }

  lemma RunStep(host: string, run: seq<Action>, i: nat)
    requires i < |run|
    ensures After(host, run[..i + 1]) == Next(host, After(host, run[..i]), run[i])
  {
    assert run[..i + 1][..i] == run[..i];
  }

  /**
    A successful `doRegister` leaves the key bound to a running lease, newer than the lease of
    every earlier registration.
   */
  lemma {:induction false} RegisteringBinds(host: string, run: seq<Action>, i: nat)
    requires run != [] && After(host, run).stage.Registered? && !After(host, run[..|run| - 1]).stage.Registered?
    requires i < |run|
    ensures var w := After(host, run);
            && w.leaseID in w.etcd.alive && w.etcd.key == Some(Binding(host, w.leaseID))
            && LastPut(host, run) == Some(w.leaseID)
            && (After(host, run[..i]).stage.Registered? ==> After(host, run[..i]).leaseID < w.leaseID)
  {
    if After(host, run[..i]).stage.Registered? {
      LeaseMovesOn(host, run, i, |run| - 1);
    }
  }

  /** From a registration on, the lease is the same until the registrar is down, and newer afterwards. */
  ghost predicate MovedOn(w: World, lease: nat) {
    w.etcd.granted > lease && (w.leaseID > lease || (w.leaseID == lease && (w.stage.Registered? || w.stage.Down?)))
  }

  lemma {:induction false} LeaseMovesOn(host: string, run: seq<Action>, i: nat, j: nat)
    requires i <= j <= |run| && After(host, run[..i]).stage.Registered?
    ensures MovedOn(After(host, run[..j]), After(host, run[..i]).leaseID)
  {
    if i == j {
      KeyFollowsLastPut(host, run[..i]);
    } else {
      LeaseMovesOn(host, run, i, j - 1);
      assert run[..j][..j - 1] == run[..j - 1];
    }
  }

  /** The grants that etcd executes: this registrar's, heard of or not, and all others. */
  function Grants(host: string, run: seq<Action>): nat {
    if run == [] then 0 else
      var w, a := After(host, run[..|run| - 1]), run[|run| - 1];
      Grants(host, run[..|run| - 1]) +
      if a.OtherGrant? || (a.Grant? && w.stage.Down? && !a.net.RequestLost?) then 1 else 0
  }

  /** In every run etcd counts them all, also those whose reply was lost. */
  lemma {:induction false} GrantsCounted(host: string, run: seq<Action>)
    ensures After(host, run).etcd.granted == Grants(host, run)
  {
    if run == [] {
    } else {
      GrantsCounted(host, run[..|run| - 1]);
    }
  }

  /** A lease that has ended does not run again. */
  lemma {:induction false} EndedStaysEnded(host: string, run: seq<Action>, later: seq<Action>, lease: nat)
    requires lease < After(host, run).etcd.granted && lease !in After(host, run).etcd.alive
    ensures var w, w' := After(host, run), After(host, run + later);
            w'.etcd.granted >= w.etcd.granted && lease !in w'.etcd.alive
  {
    if later == [] {
      assert run + later == run;
    } else {
      var front := later[..|later| - 1];
      EndedStaysEnded(host, run, front, lease);
      assert (run + later)[..|run + later| - 1] == run + front;
    }
  }

  /** Lease ids are never reused: a grant's lease differs from every lease bound or running before. */
  lemma GrantsAreFresh(host: string, run: seq<Action>)
    requires After(host, run).stage.Down?
    ensures var w, w' := After(host, run), Next(host, After(host, run), Grant(Fine));
            && w'.leaseID !in w.etcd.alive && w'.leaseID in w'.etcd.alive
            && (w.etcd.key.Some? ==> w.etcd.key.value.lease != w'.leaseID)
  {
    KeyFollowsLastPut(host, run);
  }
}
