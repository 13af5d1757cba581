/**
 * The controller extension of the controller manager: validation of the
 * declared controller definitions, the activation of the controllers
 * implied by the activated ones, the startup plan built from the
 * registrations (startup groups, the controller list and one readiness
 * barrier per controller), the check pass, and the start of one controller
 * behind the barriers of the controllers it must come after.
 *
 * Collaborators whose behaviour is not part of this model (requirement
 * lookup, controller construction, ordering, checks, preparation, group
 * start, the outcome of a blocking barrier wait) are parameters.
 */
module ControllerExtension {
  import opened Wrappers

  type Name = string
  type ClusterName = string

  /** What a controller definition (and a registration, which is one)
      tells the extension. */
  datatype Definition = Definition(
    name: Name,
    required: seq<Name>,   // controllers that must be active with this one
    after: seq<Name>,      // controllers whose setup this one waits for
    requireLease: bool)    // needs leader election before it runs

  /** The declared definitions, by name. */
  type Definitions = map<Name, Definition>

  datatype Error =
    | UndeclaredRequirement(controller: Name, required: Name)  // from Validate
    | SetupAborted                                             // a barrier wait was cancelled
    | Reported(reason: string)                                 // returned by a collaborator

  /** A controller built from a registration, running against its main cluster. */
  datatype Controller = Controller(definition: Definition, mainCluster: ClusterName) {
    function Name(): Name { definition.name }
  }

  // ---------------------------------------------------------------------------
  // Definition validation

  /** Every controller required by a declared controller is declared too. */
  ghost predicate RequirementsDeclared(defs: Definitions) {
    forall n, r :: n in defs && r in defs[n].required ==> r in defs
  }

  /** Succeeds exactly when every requirement is declared; otherwise it reports
      one requiring controller together with the undeclared one it requires. */
  method Validate(defs: Definitions) returns (err: Option<Error>)
    ensures err.None? <==> RequirementsDeclared(defs)
    ensures err.Some? ==>
      && err.value.UndeclaredRequirement?
      && err.value.controller in defs
      && err.value.required in defs[err.value.controller].required
      && err.value.required !in defs
  {
    var todo := defs.Keys;
    while todo != {}
      invariant todo <= defs.Keys
      invariant forall n, r :: n in defs && n !in todo && r in defs[n].required ==> r in defs
      decreases todo
    {
      var n :| n in todo;
      var required := defs[n].required;
      for i := 0 to |required|
        invariant forall j :: 0 <= j < i ==> required[j] in defs
      {
        var r := required[i];
        if r !in defs {
          return Some(UndeclaredRequirement(n, r));
        }
      }
      todo := todo - {n};
    }
    return None;
  }

  // ---------------------------------------------------------------------------
  // Activation of implied controllers

  /** The requirement lookup of the definitions, a collaborator. */
  type Lookup = Name -> Result<set<Name>, Error>

  /** Everything the controllers of `cs` require, as far as their lookup succeeds. */
  function Needs(lookup: Lookup, cs: set<Name>): set<Name> {
    set c, r | c in cs && lookup(c).Success? && r in lookup(c).value :: r
  }

  /** The controllers implied by the activated ones: required, but not activated. */
  function Implied(lookup: Lookup, initial: set<Name>): set<Name> {
    Needs(lookup, initial) - initial
  }

  /** Every requirement of an active controller is active. */
  ghost predicate ClosedUnder(lookup: Lookup, active: set<Name>) {
    forall c, x :: c in active && lookup(c).Success? && x in lookup(c).value ==> x in active
  }

  /** The lookup already yields transitive requirements: whatever a required
      controller requires is required directly too. */
  ghost predicate RequirementsTransitive(lookup: Lookup) {
    forall c, x :: lookup(c).Success? && x in lookup(c).value ==>
      lookup(x).Success? && lookup(x).value <= lookup(c).value
  }

  /** The result of activation: the final active set and the names it added. */
  datatype Activation = Activation(active: set<Name>, implied: set<Name>)

  lemma NeedsAdd(lookup: Lookup, cs: set<Name>, c: Name)
    requires lookup(c).Success?
    ensures Needs(lookup, cs + {c}) == Needs(lookup, cs) + lookup(c).value
  {
    forall x | x in lookup(c).value ensures x in Needs(lookup, cs + {c}) {
      assert c in cs + {c};
    }
  }

  /** One pass over the activated controllers: the names they require
      directly are added; the requirements of added names are not expanded.
      A failing lookup fails the whole activation with its error. */
  method ImplyRequired(initial: set<Name>, lookup: Lookup) returns (r: Result<Activation, Error>)
    ensures r.Failure? <==> exists c :: c in initial && lookup(c).Failure?
    ensures r.Failure? ==> exists c :: c in initial && lookup(c) == Failure(r.error)
    ensures r.Success? ==> r.value.implied == Needs(lookup, initial) - initial
    ensures r.Success? ==> r.value.active == initial + r.value.implied
    ensures r.Success? ==>
      forall c, x :: c in initial && lookup(c).Success? && x in lookup(c).value ==> x in r.value.active
  {
    var added: set<Name> := {};
    var todo := initial;
    while todo != {}
      invariant todo <= initial
      invariant forall c :: c in initial - todo ==> lookup(c).Success?
      invariant added == Needs(lookup, initial - todo)
      decreases todo
    {
      var c :| c in todo;
      var req := lookup(c);
      if req.Failure? {
        return Failure(req.error);
      }
      NeedsAdd(lookup, initial - todo, c);
      assert initial - (todo - {c}) == (initial - todo) + {c};
      added := added + req.value;
      todo := todo - {c};
    }
    assert initial - todo == initial;
    added := added - initial;
    return Success(Activation(initial + added, added));
  }

  /** When the lookup already yields transitive requirements, the single
      pass reaches a set that is closed under the requirements. */
  lemma ImpliedClosedWhenTransitive(lookup: Lookup, initial: set<Name>)
    requires forall c :: c in initial ==> lookup(c).Success?
    requires RequirementsTransitive(lookup)
    ensures ClosedUnder(lookup, initial + Implied(lookup, initial))
  {
    var active := initial + Implied(lookup, initial);
    forall c, x | c in active && lookup(c).Success? && x in lookup(c).value
      ensures x in active
    {
      if c in initial {
        assert x in Needs(lookup, initial);
      } else {
        var c0 :| c0 in initial && lookup(c0).Success? && c in lookup(c0).value;
        assert x in lookup(c0).value;
        assert x in Needs(lookup, initial);
      }
    }
  }

  /** A lookup in which C requires B and B requires A. */
  function ChainLookup(n: Name): Result<set<Name>, Error> {
    if n == "C" then Success({"B"})
    else if n == "B" then Success({"A"})
    else Success({})
  }

  /** The single pass is not a closure: with C requiring B and B requiring A,
      activating C adds B but not A. */
  lemma SinglePassMissesIndirectRequirement()
    ensures Implied(ChainLookup, {"C"}) == {"B"}
    ensures !ClosedUnder(ChainLookup, {"C"} + Implied(ChainLookup, {"C"}))
  {
    var needs := Needs(ChainLookup, {"C"});
    assert "B" in ChainLookup("C").value;
    assert "B" in needs;
    forall x | x in needs ensures x == "B" {
      var c :| c in {"C"} && ChainLookup(c).Success? && x in ChainLookup(c).value;
    }
    assert needs == {"B"};
    var active := {"C"} + Implied(ChainLookup, {"C"});
    assert "B" in active && "A" in ChainLookup("B").value && "A" !in active;
  }

  /** Activating B and C, where B requires A, implies A alone. */
  lemma ExampleActivation()
    ensures Implied(ChainExampleLookup, {"B", "C"}) == {"A"}
  {
    var needs := Needs(ChainExampleLookup, {"B", "C"});
    assert "A" in ChainExampleLookup("B").value;
    assert "A" in needs;
    forall x | x in needs ensures x == "A" {
      var c :| c in {"B", "C"} && ChainExampleLookup(c).Success? && x in ChainExampleLookup(c).value;
    }
    assert needs == {"A"};
  }

  /** B requires A; nothing else requires anything. */
  function ChainExampleLookup(n: Name): Result<set<Name>, Error> {
    if n == "B" then Success({"A"}) else Success({})
  }

  /** The construction of an extension (everything after the groups of the
      configuration have been activated): the implied controllers are added,
      the registrations for the final active set are obtained, and the new
      extension has an empty plan. The first error met is returned instead. */
  method NewControllerExtension(
    activated: Result<set<Name>, Error>,
    lookup: Lookup,
    registrationsFor: set<Name> -> Result<seq<Definition>, Error>)
    returns (ext: Extension?, err: Option<Error>)
    ensures ext == null <==> err.Some?
    ensures activated.Failure? ==> err == Some(activated.error)
    ensures activated.Success? && (exists c :: c in activated.value && lookup(c).Failure?) ==>
      err.Some? && exists c :: c in activated.value && lookup(c) == Failure(err.value)
    ensures activated.Success? && (forall c :: c in activated.value ==> lookup(c).Success?) ==>
      var active := activated.value + Implied(lookup, activated.value);
      && (registrationsFor(active).Failure? ==> err == Some(registrationsFor(active).error))
      && (registrationsFor(active).Success? ==>
            && ext != null && fresh(ext)
            && ext.registrations == registrationsFor(active).value
            && ext.controllers == [] && ext.plainGroups == map[] && ext.leaseGroups == map[]
            && ext.prepared == map[])
  {
    if activated.Failure? {
      return null, Some(activated.error);
    }
    var r := ImplyRequired(activated.value, lookup);
    if r.Failure? {
      return null, Some(r.error);
    }
    var registrations := registrationsFor(r.value.active);
    if registrations.Failure? {
      return null, Some(registrations.error);
    }
    ext := new Extension(registrations.value);
    err := None;
  }

  // ---------------------------------------------------------------------------
  // The startup plan

  /** Startup groups by main cluster; a group keeps the order of its additions. */
  type Groups = map<ClusterName, seq<Controller>>

  /** The group of `cluster`; a missing group reads as empty. */
  function GroupOf(groups: Groups, cluster: ClusterName): seq<Controller> {
    if cluster in groups then groups[cluster] else []
  }

  /** Adds `c` to the group of its main cluster, creating the group if needed. */
  function AddToGroup(groups: Groups, c: Controller): Groups {
    groups[c.mainCluster := GroupOf(groups, c.mainCluster) + [c]]
  }

  /** The state the startup plan is made of. `prepared` maps each name that
      has a barrier to whether that barrier is reached. */
  datatype Plan = Plan(controllers: seq<Controller>, plain: Groups, lease: Groups, prepared: map<Name, bool>)

  /** The plan after accepting one controller: it joins the lease group of its
      main cluster when it requires a lease and the plain group otherwise, is
      appended to the controller list and gets a fresh, unreached barrier. */
  function Accept(p: Plan, c: Controller): Plan {
    Plan(
      p.controllers + [c],
      if c.definition.requireLease then p.plain else AddToGroup(p.plain, c),
      if c.definition.requireLease then AddToGroup(p.lease, c) else p.lease,
      p.prepared[c.Name() := false])
  }

  /** The plan after accepting each of `cs` in turn. */
  function AcceptAll(p: Plan, cs: seq<Controller>): Plan {
    if cs == [] then p else Accept(AcceptAll(p, cs[..|cs| - 1]), cs[|cs| - 1])
  }

  /** The controllers of `cs` with main cluster `k` and lease flag `lease`, in order. */
  function Filed(cs: seq<Controller>, k: ClusterName, lease: bool): (r: seq<Controller>)
    ensures forall c :: c in r ==> c in cs && c.mainCluster == k && c.definition.requireLease == lease
  {
    if cs == [] then []
    else
      var c := cs[|cs| - 1];
      Filed(cs[..|cs| - 1], k, lease) + (if c.mainCluster == k && c.definition.requireLease == lease then [c] else [])
  }

  /** Accepting appends the controllers, in order, to the list. */
  lemma {:induction false} AcceptAllControllers(p: Plan, cs: seq<Controller>)
    ensures AcceptAll(p, cs).controllers == p.controllers + cs
  {
    if cs != [] {
      AcceptAllControllers(p, cs[..|cs| - 1]);
      assert cs == cs[..|cs| - 1] + [cs[|cs| - 1]];
    }
  }

  /** Each group is its old contents followed by the accepted controllers of
      its cluster and lease flag, in acceptance order. */
  lemma {:induction false} AcceptAllGroups(p: Plan, cs: seq<Controller>, k: ClusterName)
    ensures GroupOf(AcceptAll(p, cs).lease, k) == GroupOf(p.lease, k) + Filed(cs, k, true)
    ensures GroupOf(AcceptAll(p, cs).plain, k) == GroupOf(p.plain, k) + Filed(cs, k, false)
  {
    if cs != [] {
      var init, c := cs[..|cs| - 1], cs[|cs| - 1];
      var q := AcceptAll(p, init);
      AcceptAllGroups(p, init, k);
      assert AcceptAll(p, cs) == Accept(q, c);
      if c.mainCluster != k {
        assert GroupOf(Accept(q, c).lease, k) == GroupOf(q.lease, k);
        assert GroupOf(Accept(q, c).plain, k) == GroupOf(q.plain, k);
      } else if c.definition.requireLease {
        assert GroupOf(Accept(q, c).lease, k) == GroupOf(q.lease, k) + [c];
        assert GroupOf(Accept(q, c).plain, k) == GroupOf(q.plain, k);
      } else {
        assert GroupOf(Accept(q, c).lease, k) == GroupOf(q.lease, k);
        assert GroupOf(Accept(q, c).plain, k) == GroupOf(q.plain, k) + [c];
      }
    }
  }

  /** Every controller is filed once per occurrence, in the group of its own
      main cluster and lease flag, and in no other group. */
  lemma {:induction false} FiledExactlyOnce(cs: seq<Controller>, c: Controller, k: ClusterName, lease: bool)
    ensures multiset(Filed(cs, k, lease))[c] ==
      if k == c.mainCluster && lease == c.definition.requireLease then multiset(cs)[c] else 0
  {
    if cs != [] {
      FiledExactlyOnce(cs[..|cs| - 1], c, k, lease);
      assert cs == cs[..|cs| - 1] + [cs[|cs| - 1]];
    }
  }

  /** After acceptance every accepted controller has an unreached barrier, and
      the barriers of all other names are as before. */
  lemma {:induction false} AcceptAllBarriers(p: Plan, cs: seq<Controller>)
    ensures forall c :: c in cs ==> c.Name() in AcceptAll(p, cs).prepared && !AcceptAll(p, cs).prepared[c.Name()]
    ensures forall n :: (forall c :: c in cs ==> c.Name() != n) ==>
      (n in AcceptAll(p, cs).prepared <==> n in p.prepared) &&
      (n in p.prepared ==> AcceptAll(p, cs).prepared[n] == p.prepared[n])
  {
    if cs != [] {
      AcceptAllBarriers(p, cs[..|cs| - 1]);
      assert cs == cs[..|cs| - 1] + [cs[|cs| - 1]];
    }
  }

  /** The controllers built from `regs` before the first failing construction. */
  function Built(construct: Definition -> Result<ClusterName, Error>, regs: seq<Definition>): seq<Controller> {
    if regs == [] then []
    else match construct(regs[0])
      case Failure(_) => []
      case Success(cluster) => [Controller(regs[0], cluster)] + Built(construct, regs[1..])
  }

  /** The error of the first failing construction, if any. */
  function BuildError(construct: Definition -> Result<ClusterName, Error>, regs: seq<Definition>): Option<Error> {
    if regs == [] then None
    else match construct(regs[0])
      case Failure(e) => Some(e)
      case Success(_) => BuildError(construct, regs[1..])
  }

  /** Without a construction error, each registration yields exactly one
      controller, in order, built from that registration; with one, the
      controllers of the registrations before the failing one are built. */
  lemma {:induction false} BuiltPerRegistration(construct: Definition -> Result<ClusterName, Error>, regs: seq<Definition>)
    ensures BuildError(construct, regs).None? ==>
      |Built(construct, regs)| == |regs| &&
      forall i :: 0 <= i < |regs| ==>
        construct(regs[i]) == Success(Built(construct, regs)[i].mainCluster) &&
        Built(construct, regs)[i].definition == regs[i]
    ensures BuildError(construct, regs).Some? ==>
      var n := |Built(construct, regs)|;
      && n < |regs|
      && construct(regs[n]) == Failure(BuildError(construct, regs).value)
      && forall i :: 0 <= i < n ==>
           construct(regs[i]) == Success(Built(construct, regs)[i].mainCluster) &&
           Built(construct, regs)[i].definition == regs[i]
  {
    if regs != [] {
      BuiltPerRegistration(construct, regs[1..]);
    }
  }

  /** Checks the controllers in order and returns the first failure. */
  method CheckAll(cs: seq<Controller>, check: Controller -> Option<Error>) returns (err: Option<Error>)
    ensures err.None? <==> forall c :: c in cs ==> check(c).None?
    ensures err.Some? ==>
      exists i :: 0 <= i < |cs| && check(cs[i]) == err && forall j :: 0 <= j < i ==> check(cs[j]).None?
  {
    for i := 0 to |cs|
      invariant forall j :: 0 <= j < i ==> check(cs[j]).None?
    {
      var e := check(cs[i]);
      if e.Some? {
        return e;
      }
    }
    return None;
  }

  // ---------------------------------------------------------------------------
  // Starting one controller

  /** The names of `after` that have a barrier not yet reached, in order. */
  function Pending(after: seq<Name>, barriers: map<Name, bool>): seq<Name> {
    if after == [] then []
    else
      var a := after[|after| - 1];
      Pending(after[..|after| - 1], barriers) + (if a in barriers && !barriers[a] then [a] else [])
  }

  /** A name is waited for exactly when it has a barrier that is not reached. */
  lemma {:induction false} PendingMembers(after: seq<Name>, barriers: map<Name, bool>, a: Name)
    ensures a in Pending(after, barriers) <==> a in after && a in barriers && !barriers[a]
  {
    if after != [] {
      PendingMembers(after[..|after| - 1], barriers, a);
      assert after == after[..|after| - 1] + [after[|after| - 1]];
    }
  }

  lemma {:induction false} PendingAppend(s: seq<Name>, t: seq<Name>, barriers: map<Name, bool>)
    ensures Pending(s + t, barriers) == Pending(s, barriers) + Pending(t, barriers)
  {
    if t == [] {
      assert s + t == s;
    } else {
      assert (s + t)[..|s + t| - 1] == s + t[..|t| - 1];
      assert (s + t)[|s + t| - 1] == t[|t| - 1];
      PendingAppend(s, t[..|t| - 1], barriers);
    }
  }

  /** The walk over the after list: a name without a barrier is skipped, a
      reached barrier lets the walk go on, and an unreached one is waited
      for. `syncOk(a)` is whether the wait on `a` ends with the barrier
      reached (true) or with the context cancelled (false); the first
      cancelled wait aborts the walk. */
  method AwaitPredecessors(after: seq<Name>, barriers: map<Name, bool>, syncOk: Name -> bool)
    returns (aborted: bool, waited: seq<Name>)
    ensures aborted <==> exists a :: a in Pending(after, barriers) && !syncOk(a)
    ensures !aborted ==> waited == Pending(after, barriers)
    ensures aborted ==>
      && 0 < |waited| <= |Pending(after, barriers)|
      && waited == Pending(after, barriers)[..|waited|]
      && !syncOk(waited[|waited| - 1])
      && forall j :: 0 <= j < |waited| - 1 ==> syncOk(waited[j])
    ensures forall a :: a in waited ==> a in after && a in barriers && !barriers[a]
  {
    waited := [];
    for i := 0 to |after|
      invariant waited == Pending(after[..i], barriers)
      invariant forall a :: a in waited ==> syncOk(a)
    {
      var a := after[i];
      assert after[..i + 1][..i] == after[..i];
      if a in barriers && !barriers[a] {
        waited := waited + [a];
        if !syncOk(a) {
          assert after == after[..i + 1] + after[i + 1..];
          PendingAppend(after[..i + 1], after[i + 1..], barriers);
          forall x | x in waited ensures x in after && x in barriers && !barriers[x] {
            PendingMembers(after, barriers, x);
          }
          return true, waited;
        }
      }
    }
    assert after[..|after|] == after;
    forall x | x in waited ensures x in after && x in barriers && !barriers[x] {
      PendingMembers(after, barriers, x);
    }
    return false, waited;
  }

  // ---------------------------------------------------------------------------
  // The extension

  class Extension {
    const registrations: seq<Definition>
    var controllers: seq<Controller>
    var plainGroups: Groups
    var leaseGroups: Groups
    var prepared: map<Name, bool>   // name to "barrier reached"

    ghost function PlanState(): Plan
      reads this
    {
      Plan(controllers, plainGroups, leaseGroups, prepared)
    }

    /** A new extension for `registrations`, with nothing planned yet. */
    constructor (registrations: seq<Definition>)
      ensures this.registrations == registrations
      ensures controllers == [] && plainGroups == map[] && leaseGroups == map[] && prepared == map[]
    {
      this.registrations := registrations;
      controllers := [];
      plainGroups := map[];
      leaseGroups := map[];
      prepared := map[];
    }

    /** Builds a controller for each registration in order and files it into
        the plan; stops at the first construction error. `construct` stands
        for the mapping lookup and the controller construction and yields the
        new controller's main cluster. */
    method Materialize(construct: Definition -> Result<ClusterName, Error>) returns (err: Option<Error>)
      modifies this
      ensures err == BuildError(construct, registrations)
      ensures PlanState() == AcceptAll(old(PlanState()), Built(construct, registrations))
    {
      ghost var built: seq<Controller> := [];
      for i := 0 to |registrations|
        invariant Built(construct, registrations) == built + Built(construct, registrations[i..])
        invariant BuildError(construct, registrations) == BuildError(construct, registrations[i..])
        invariant PlanState() == AcceptAll(old(PlanState()), built)
      {
        var def := registrations[i];
        assert registrations[i..][0] == def;
        assert registrations[i..][1..] == registrations[i + 1..];
        var mainCluster := construct(def);
        if mainCluster.Failure? {
          assert Built(construct, registrations[i..]) == [];
          assert Built(construct, registrations) == built;
          return Some(mainCluster.error);
        }
        var cntr := Controller(def, mainCluster.value);
        if def.requireLease {
          leaseGroups := AddToGroup(leaseGroups, cntr);
        } else {
          plainGroups := AddToGroup(plainGroups, cntr);
        }
        controllers := controllers + [cntr];
        prepared := prepared[cntr.Name() := false];
        built := built + [cntr];
      }
      assert registrations[|registrations|..] == [];
      assert Built(construct, registrations) == built;
      return None;
    }

    /** Start: plan, order, check every controller, and only then start the
        groups. Any error before the group start is returned and no group is
        started. `order` stands for the dependency ordering (the new list and
        its error), `check` for a controller's check and `startGroups` for the
        start of the plain and lease groups. */
    method Start(
      construct: Definition -> Result<ClusterName, Error>,
      order: seq<Controller> -> (seq<Controller>, Option<Error>),
      check: Controller -> Option<Error>,
      startGroups: (Groups, Groups) -> Option<Error>)
      returns (err: Option<Error>, groupsStarted: bool)
      modifies this
      ensures !groupsStarted ==> err.Some?
      ensures BuildError(construct, registrations).Some? ==>
        && err == BuildError(construct, registrations) && !groupsStarted
        && PlanState() == AcceptAll(old(PlanState()), Built(construct, registrations))
      ensures BuildError(construct, registrations).None? ==>
        var planned := AcceptAll(old(PlanState()), Built(construct, registrations));
        var ordered := order(planned.controllers);
        && controllers == ordered.0
        && plainGroups == planned.plain && leaseGroups == planned.lease && prepared == planned.prepared
        && (ordered.1.Some? ==> err == ordered.1 && !groupsStarted)
        && (ordered.1.None? ==> (groupsStarted <==> forall c :: c in controllers ==> check(c).None?))
      ensures groupsStarted ==> err == startGroups(plainGroups, leaseGroups)
      ensures groupsStarted ==> forall c :: c in controllers ==> check(c).None?
      ensures BuildError(construct, registrations).None? &&
              order(AcceptAll(old(PlanState()), Built(construct, registrations)).controllers).1.None? &&
              !groupsStarted ==>
        exists i :: 0 <= i < |controllers| && check(controllers[i]) == err &&
          forall j :: 0 <= j < i ==> check(controllers[j]).None?
    {
      err := Materialize(construct);
      if err.Some? {
        return err, false;
      }
      var ordered := order(controllers);
      controllers := ordered.0;
      if ordered.1.Some? {
        return ordered.1, false;
      }
      err := CheckAll(controllers, check);
      if err.Some? {
        return err, false;
      }
      err := startGroups(plainGroups, leaseGroups);
      groupsStarted := true;
    }

    /** Starts one controller: waits for the barriers of its after list, then
        prepares it and, when preparation succeeds, reaches its own barrier.
        A cancelled wait aborts the setup before preparation. Only this
        method reaches the controller's own barrier, so a wait on that
        barrier cannot end with it reached. */
    method StartController(c: Controller, syncOk: Name -> bool, prepare: Controller -> Option<Error>)
      returns (err: Option<Error>)
      requires c.Name() in prepared
      requires c.Name() in c.definition.after && !prepared[c.Name()] ==> !syncOk(c.Name())
      modifies this`prepared
      ensures c.Name() in c.definition.after && !old(prepared)[c.Name()] ==>
        err == Some(SetupAborted) && prepared == old(prepared)
      ensures (exists a :: a in Pending(c.definition.after, old(prepared)) && !syncOk(a)) ==>
        err == Some(SetupAborted) && prepared == old(prepared)
      ensures (forall a :: a in Pending(c.definition.after, old(prepared)) ==> syncOk(a)) ==>
        && err == prepare(c)
        && prepared == if err.None? then old(prepared)[c.Name() := true] else old(prepared)
    {
      PendingMembers(c.definition.after, prepared, c.Name());
      var aborted, _ := AwaitPredecessors(c.definition.after, prepared, syncOk);
      if aborted {
        return Some(SetupAborted);
      }
      err := prepare(c);
      if err.Some? {
        return err;
      }
      prepared := prepared[c.Name() := true];
    }
  }
}
