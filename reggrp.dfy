/**
 * Webhook registration groups: for one cluster, a table of webhook
 * declarations grouped by webhook kind, and a table that records, for each
 * registration name, the set of webhook kinds registered under it. A
 * collection of such groups is keyed by cluster id and filled on demand.
 */
module WebhookRegistration {

  /** A webhook kind; the source's kind type is a string type. */
  type WebhookKind = string

  /** A webhook declaration. Only its kind matters to the tables; `name`
      stands for the rest of what a declaration carries. */
  datatype WebhookDeclaration = WebhookDeclaration(kind: WebhookKind, name: string)

  /** A cluster, as far as the groups see it: its id. */
  datatype Cluster = Cluster(id: string)

  /** Declarations grouped by kind; each kind's list keeps insertion order. */
  type Declarations = map<WebhookKind, seq<WebhookDeclaration>>

  /** Registration name to the set of kinds registered under that name. */
  type Registrations = map<string, set<WebhookKind>>

  // ---------------------------------------------------------------------------
  // Declarations table

  /** The list stored under `k`; a missing kind reads as the empty list, as a
      missing key of a Go map reads as a nil slice. */
  function DeclarationsOf(m: Declarations, k: WebhookKind): seq<WebhookDeclaration> {
    if k in m then m[k] else []
  }

  /** The declarations of kind `k` in `ds`, in their order in `ds`. */
  function OfKind(ds: seq<WebhookDeclaration>, k: WebhookKind): (r: seq<WebhookDeclaration>)
    ensures |r| <= |ds|
    ensures forall d :: d in r ==> d in ds && d.kind == k
    ensures forall d :: d in ds && d.kind == k ==> d in r
  {
    if ds == [] then []
    else OfKind(ds[..|ds| - 1], k) + (if ds[|ds| - 1].kind == k then [ds[|ds| - 1]] else [])
  }

  /** The table after appending the declarations of `ds`, one after the
      other, each to the list of its own kind. */
  function Appended(m: Declarations, ds: seq<WebhookDeclaration>): Declarations
  {
    if ds == [] then m
    else
      var p := Appended(m, ds[..|ds| - 1]);
      var d := ds[|ds| - 1];
      p[d.kind := DeclarationsOf(p, d.kind) + [d]]
  }

  /** Every list holds declarations of its own kind only. */
  ghost predicate WellGrouped(m: Declarations) {
    forall k, d :: k in m && d in m[k] ==> d.kind == k
  }

  /** Some kind present in a non-empty table. */
  ghost function AnyKind(m: Declarations): (k: WebhookKind)
    requires |m| > 0
    ensures k in m
  {
    var k :| k in m; k
  }

  /** The number of declarations stored in the table, over all kinds. */
  ghost function Stored(m: Declarations): nat
    decreases |m|
  {
    if |m| == 0 then 0
    else
      var k := AnyKind(m);
      |m[k]| + Stored(m - {k})
  }

  /** Appending per kind: each kind's list is its old list followed by the
      declarations of that kind in argument order; a kind is present
      afterwards exactly when it was before or some declaration has it. */
  lemma {:induction false} AppendedPerKind(m: Declarations, ds: seq<WebhookDeclaration>, k: WebhookKind)
    ensures DeclarationsOf(Appended(m, ds), k) == DeclarationsOf(m, k) + OfKind(ds, k)
    ensures k in Appended(m, ds) <==> k in m || OfKind(ds, k) != []
  {
    if ds != [] {
      AppendedPerKind(m, ds[..|ds| - 1], k);
    }
  }

  /** Kinds that no argument declaration has keep their entry exactly. */
  lemma AppendedLeavesOtherKinds(m: Declarations, ds: seq<WebhookDeclaration>, k: WebhookKind)
    requires forall d :: d in ds ==> d.kind != k
    ensures k in Appended(m, ds) <==> k in m
    ensures k in m ==> Appended(m, ds)[k] == m[k]
  {
    AppendedPerKind(m, ds, k);
  }

  /** Appending keeps every list grouped by its kind. */
  lemma {:induction false} AppendedWellGrouped(m: Declarations, ds: seq<WebhookDeclaration>)
    requires WellGrouped(m)
    ensures WellGrouped(Appended(m, ds))
  {
    if ds != [] {
      AppendedWellGrouped(m, ds[..|ds| - 1]);
    }
  }

  /** The sum does not depend on which key the definition picks first. */
  lemma {:induction false} StoredWithout(m: Declarations, k: WebhookKind)
    requires k in m
    ensures Stored(m) == |m[k]| + Stored(m - {k})
    decreases |m|
  {
    var j := AnyKind(m);
    if j != k {
      assert k in m - {j};
      StoredWithout(m - {j}, k);
      assert j in m - {k};
      StoredWithout(m - {k}, j);
      assert m - {j} - {k} == m - {k} - {j};
    }
  }

  /** Replacing one kind's list changes the total by the difference. */
  lemma StoredUpdate(m: Declarations, k: WebhookKind, v: seq<WebhookDeclaration>)
    ensures Stored(m[k := v]) + |DeclarationsOf(m, k)| == Stored(m) + |v|
  {
    StoredWithout(m[k := v], k);
    assert m[k := v] - {k} == m - {k};
    if k in m {
      StoredWithout(m, k);
    } else {
      assert m - {k} == m;
    }
  }

  /** Appending `ds` stores exactly `|ds|` more declarations. */
  lemma {:induction false} StoredGrows(m: Declarations, ds: seq<WebhookDeclaration>)
    ensures Stored(Appended(m, ds)) == Stored(m) + |ds|
  {
    if ds != [] {
      var p := Appended(m, ds[..|ds| - 1]);
      var d := ds[|ds| - 1];
      StoredGrows(m, ds[..|ds| - 1]);
      StoredUpdate(p, d.kind, DeclarationsOf(p, d.kind) + [d]);
    }
  }

  // ---------------------------------------------------------------------------
  // Registrations table

  /** The kinds recorded for `name`; a missing name reads as no kinds. */
  function KindsOf(m: Registrations, name: string): set<WebhookKind> {
    if name in m then m[name] else {}
  }

  /** The table after adding `kind` to the set of each of `names`, one after
      the other, creating a set for a name seen for the first time. */
  function Registered(m: Registrations, kind: WebhookKind, names: seq<string>): Registrations
  {
    if names == [] then m
    else
      var p := Registered(m, kind, names[..|names| - 1]);
      var n := names[|names| - 1];
      p[n := KindsOf(p, n) + {kind}]
  }

  /** Registering per name: a name is present afterwards exactly when it was
      before or is among `names`; its kinds are the old ones, plus `kind`
      when it is among `names`. */
  lemma {:induction false} RegisteredAt(m: Registrations, kind: WebhookKind, names: seq<string>, n: string)
    ensures n in Registered(m, kind, names) <==> n in m || n in names
    ensures KindsOf(Registered(m, kind, names), n) == KindsOf(m, n) + (if n in names then {kind} else {})
  {
    if names != [] {
      var init := names[..|names| - 1];
      RegisteredAt(m, kind, init, n);
      assert names == init + [names[|names| - 1]];
    }
  }

  /** Registering the same kind under the same names twice is the same as
      registering it once. */
  lemma RegisteredIdempotent(m: Registrations, kind: WebhookKind, names: seq<string>)
    ensures Registered(Registered(m, kind, names), kind, names) == Registered(m, kind, names)
  {
    var once := Registered(m, kind, names);
    var twice := Registered(once, kind, names);
    forall n ensures (n in twice <==> n in once) && (n in once ==> twice[n] == once[n]) {
      RegisteredAt(m, kind, names, n);
      RegisteredAt(once, kind, names, n);
    }
  }

  // ---------------------------------------------------------------------------
  // One group

  /** The webhook registration group of one cluster. */
  class WebhookRegistrationGroup {
    const cluster: Cluster
    var registrations: Registrations
    var groupedDeclarations: Declarations

    /** Every declaration is filed under its own kind. */
    ghost predicate Valid()
      reads this
    {
      WellGrouped(groupedDeclarations)
    }

    /** A new group of `cluster` with both tables empty. */
    constructor (cluster: Cluster)
      ensures this.cluster == cluster
      ensures registrations == map[] && groupedDeclarations == map[]
      ensures Valid()
    {
      this.cluster := cluster;
      registrations := map[];
      groupedDeclarations := map[];
    }

    /** Appends each declaration to the list of its kind, in argument order. */
    method AddDeclarations(decls: seq<WebhookDeclaration>)
      requires Valid()
      modifies this`groupedDeclarations
      ensures Valid()
      ensures groupedDeclarations == Appended(old(groupedDeclarations), decls)
      ensures forall k :: DeclarationsOf(groupedDeclarations, k) == DeclarationsOf(old(groupedDeclarations), k) + OfKind(decls, k)
      ensures forall k :: k in old(groupedDeclarations) && (forall d :: d in decls ==> d.kind != k) ==>
                k in groupedDeclarations && groupedDeclarations[k] == old(groupedDeclarations)[k]
      ensures Stored(groupedDeclarations) == Stored(old(groupedDeclarations)) + |decls|
    {
      for i := 0 to |decls|
        invariant groupedDeclarations == Appended(old(groupedDeclarations), decls[..i])
      {
        var d := decls[i];
        var declarations := DeclarationsOf(groupedDeclarations, d.kind);
        declarations := declarations + [d];
        groupedDeclarations := groupedDeclarations[d.kind := declarations];
        assert decls[..i + 1][..i] == decls[..i];
      }
      assert decls[..|decls|] == decls;
      forall k ensures DeclarationsOf(groupedDeclarations, k) == DeclarationsOf(old(groupedDeclarations), k) + OfKind(decls, k) {
        AppendedPerKind(old(groupedDeclarations), decls, k);
      }
      forall k | k in old(groupedDeclarations) && (forall d :: d in decls ==> d.kind != k)
        ensures k in groupedDeclarations && groupedDeclarations[k] == old(groupedDeclarations)[k]
      {
        AppendedLeavesOtherKinds(old(groupedDeclarations), decls, k);
      }
      StoredGrows(old(groupedDeclarations), decls);
      AppendedWellGrouped(old(groupedDeclarations), decls);
    }

    /** Records `kind` for each of `names`, creating the name's set on first use. */
    method AddRegistrations(kind: WebhookKind, names: seq<string>)
      requires Valid()
      modifies this`registrations
      ensures Valid()
      ensures registrations == Registered(old(registrations), kind, names)
      ensures forall n :: n in names ==> n in registrations && kind in registrations[n]
      ensures forall n :: n in old(registrations) ==> n in registrations && old(registrations)[n] <= registrations[n]
      ensures forall n :: n !in names ==> (n in registrations <==> n in old(registrations))
      ensures forall n :: n !in names && n in old(registrations) ==> registrations[n] == old(registrations)[n]
    {
      for i := 0 to |names|
        invariant registrations == Registered(old(registrations), kind, names[..i])
      {
        var name := names[i];
        var kinds := KindsOf(registrations, name);
        kinds := kinds + {kind};
        registrations := registrations[name := kinds];
        assert names[..i + 1][..i] == names[..i];
      }
      assert names[..|names|] == names;
      forall n ensures (n in registrations <==> n in old(registrations) || n in names)
        && KindsOf(registrations, n) == KindsOf(old(registrations), n) + (if n in names then {kind} else {})
      {
        RegisteredAt(old(registrations), kind, names, n);
      }
    }
  }

  // ---------------------------------------------------------------------------
  // Groups by cluster

  /** The groups of all clusters, keyed by cluster id. A key may map to null,
      which reads as no group, as a nil pointer does in the source's map. */
  class WebhookRegistrationGroups {
    var groups: map<string, WebhookRegistrationGroup?>

    constructor ()
      ensures groups == map[]
    {
      groups := map[];
    }

    /** The group of `cluster`, created empty and stored under the cluster's
        id when there is none yet. */
    method GetOrCreateGroup(cluster: Cluster) returns (g: WebhookRegistrationGroup)
      modifies this
      ensures cluster.id in old(groups) && old(groups)[cluster.id] != null ==>
                g == old(groups)[cluster.id] && groups == old(groups)
      ensures !(cluster.id in old(groups) && old(groups)[cluster.id] != null) ==>
                fresh(g) && g.cluster == cluster && g.registrations == map[] && g.groupedDeclarations == map[] &&
                g.Valid() &&
                groups == old(groups)[cluster.id := g]
      ensures cluster.id in groups && groups[cluster.id] == g
    {
      var found := if cluster.id in groups then groups[cluster.id] else null;
      if found == null {
        g := new WebhookRegistrationGroup(cluster);
        groups := groups[cluster.id := g];
      } else {
        g := found;
      }
    }
  }

  /** Asking twice for the group of the same cluster yields the same group,
      and only that cluster's entry of the map can have changed. */
  method GetOrCreateGroupTwice(gs: WebhookRegistrationGroups, cluster: Cluster)
    returns (first: WebhookRegistrationGroup, second: WebhookRegistrationGroup)
    modifies gs
    ensures first == second
    ensures cluster.id in gs.groups && gs.groups[cluster.id] == first
    ensures forall id :: id != cluster.id ==> (id in gs.groups <==> id in old(gs.groups))
    ensures forall id :: id != cluster.id && id in old(gs.groups) ==> gs.groups[id] == old(gs.groups)[id]
  {
    first := gs.GetOrCreateGroup(cluster);
    second := gs.GetOrCreateGroup(cluster);
  }
}
