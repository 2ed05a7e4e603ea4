/** One pass of `Reconcile` over one LazySidecar, as a function on the cluster,
    and what a sequence of passes converges to. */
module ReconcilePass {
  import opened HostLists
  import opened Projection
  import opened Store
  import opened Types

  // ----- the three writes of a pass -----

  /** `ReconcileSidecar`: create the derived Sidecar, or sync the existing one. */
  function SyncDerived(c: Cluster, n: NamespacedName, spec: LazySpec): Cluster
  {
    var k := Derived(n);
    if k !in c.sidecars then CreateSidecar(c, k, Created(spec))
    else UpdateSidecar(c, k, c.sidecars[k].version, Synced(spec, c.sidecars[k].value))
  }

  predicate SyncPanics(c: Cluster, n: NamespacedName, spec: LazySpec)
  {
    Derived(n) in c.sidecars && SelectorPanics(spec, c.sidecars[Derived(n)].value)
  }

  /** Whether the instance is written back: without stored hosts it always is. */
  predicate WritesHosts(spec: LazySpec, all: seq<Host>)
  {
    spec.egressHosts == [] || Writes(Add(all), spec.egressHosts)
  }

  /** `RewriteSeHostsToCsmLazySidecar`, with the instance that was read. */
  function RewriteHosts(c: Cluster, n: NamespacedName, version: nat, spec: LazySpec, all: seq<Host>): Cluster
  {
    if WritesHosts(spec, all) then UpdateSpec(c, n, version, ApplyToSpec(Add(all), spec)) else c
  }

  /** The version the instance carries on: an accepted update refreshes it. */
  function InstanceVersion(c: Cluster, n: NamespacedName, version: nat, spec: LazySpec, all: seq<Host>): nat
  {
    if WritesHosts(spec, all) && n in c.lazy && version == c.lazy[n].version
    then RewriteHosts(c, n, version, spec, all).lazy[n].version
    else version
  }

  function UpstreamsOf(egress: seq<Listener>): (r: seq<Upstream>)
    ensures |r| == |egress|
    ensures forall i :: 0 <= i < |r| ==> r[i] == UpstreamOf(egress[i])
  {
    seq(|egress|, i requires 0 <= i < |egress| => UpstreamOf(egress[i]))
  }

  function UpstreamOf(listener: Listener): Upstream
  {
    match listener.port
    case None => Upstream(None, "", listener.hosts)
    case Some(port) => Upstream(Some(port.number), port.protocol, listener.hosts)
  }

  function SucceedStatus(n: NamespacedName, sidecar: SidecarSpec, now: nat): Status
  {
    Status("Succeed", UpstreamsOf(sidecar.egress), Derived(n).name, PREFIX + n.name, now)
  }

  /** What a pass sees besides the two objects it writes from: the Sidecar as the
      cache shows it to the status step, if it does, and the time. */
  datatype Visit = Visit(cached: Option<SidecarSpec>, now: nat)

  /** `RewriteCsmLazySidecarStatus`: without a Sidecar in the cache only the
      instance in memory is marked as failed. */
  function RewriteStatus(c: Cluster, n: NamespacedName, version: nat, visit: Visit): Cluster
  {
    match visit.cached
    case None => c
    case Some(sidecar) => UpdateStatus(c, n, version, SucceedStatus(n, sidecar, visit.now))
  }

  /** A pass from an instance that may be stale. */
  function PassFrom(c: Cluster, item: Item, visit: Visit): Cluster
  {
    var n, version, spec, all := item.name, item.stored.version, item.stored.value.spec, AllHosts(c.entries);
    var synced := SyncDerived(c, n, spec);
    RewriteStatus(RewriteHosts(synced, n, version, spec, all), n, InstanceVersion(synced, n, version, spec, all), visit)
  }

  predicate PassPanics(c: Cluster, n: NamespacedName)
  {
    n in c.lazy && SyncPanics(c, n, c.lazy[n].value.spec)
  }

  /** A pass that reads the current object. A deleted one is left alone, and a
      panic comes before the first write. */
  function Pass(c: Cluster, n: NamespacedName, visit: Visit): Cluster
  {
    if n in c.lazy && !PassPanics(c, n) then PassFrom(c, Item(n, c.lazy[n]), visit) else c
  }

  // ----- convergence -----

  function SpecOf(c: Cluster, n: NamespacedName): LazySpec
    requires n in c.lazy
  {
    c.lazy[n].value.spec
  }

  function StatusOf(c: Cluster, n: NamespacedName): Status
    requires n in c.lazy
  {
    c.lazy[n].value.status
  }

  /** The status of a pass that has seen these listeners: one upstream for each,
      with its hosts, its port number if it has a port, and its protocol. */
  ghost predicate Mirrors(status: Status, egress: seq<Listener>)
  {
    && |status.upstream| == |egress|
    && forall i :: 0 <= i < |egress| ==>
         && status.upstream[i].hosts == egress[i].hosts
         && status.upstream[i].port == (if egress[i].port.Some? then Some(egress[i].port.value.number) else None)
         && status.upstream[i].protocol == (if egress[i].port.Some? then egress[i].port.value.protocol else "")
  }

  lemma RewriteEffect(c: Cluster, n: NamespacedName, all: seq<Host>)
    requires n in c.lazy
    ensures var r := RewriteHosts(c, n, c.lazy[n].version, SpecOf(c, n), all);
            && r.entries == c.entries && r.sidecars == c.sidecars && r.lazy.Keys == c.lazy.Keys
            && SpecOf(r, n) == ApplyToSpec(Add(all), SpecOf(c, n)) && StatusOf(r, n) == StatusOf(c, n)
            && InstanceVersion(c, n, c.lazy[n].version, SpecOf(c, n), all) == r.lazy[n].version
  {
  }

  /** What a pass does, field by field. */
  lemma PassEffect(c: Cluster, n: NamespacedName, visit: Visit)
    requires n in c.lazy && !PassPanics(c, n)
    ensures var p, k := Pass(c, n, visit), Derived(n);
            && p.entries == c.entries && p.lazy.Keys == c.lazy.Keys && k in p.sidecars
            && SpecOf(p, n) == ApplyToSpec(Add(AllHosts(c.entries)), SpecOf(c, n))
            && p.sidecars[k].value == (if k in c.sidecars then Synced(SpecOf(c, n), c.sidecars[k].value)
                                       else Created(SpecOf(c, n)))
            && StatusOf(p, n) == (if visit.cached.Some? then SucceedStatus(n, visit.cached.value, visit.now)
                                  else StatusOf(c, n))
  {
    var spec, all := SpecOf(c, n), AllHosts(c.entries);
    var synced := SyncDerived(c, n, spec);
    assert synced.lazy == c.lazy;
    RewriteEffect(synced, n, all);
  }

  /** A first pass creates the Sidecar under the derived name. It has one listener
      without a port, which shows DEFAULT_HOST, then the stored hosts at `at`, which
      are those that are no variant of it, in order, and then the middleware hosts.
      As a set that is the desired list without mere variants of DEFAULT_HOST. */
  lemma FirstPassExactly(c: Cluster, n: NamespacedName, visit: Visit, hosts: seq<Host>) returns (at: seq<nat>)
    requires n in c.lazy && Derived(n) !in c.sidecars && NamesMiddleware(hosts, SpecOf(c, n).middleware)
    ensures var stored := SpecOf(c, n).egressHosts;
            forall k :: 0 <= k < |stored| ==> (k in at <==> !DefaultVariant(stored[k]))
    ensures var spec, p, k := SpecOf(c, n), Pass(c, n, visit), NamespacedName(n.namespace, "lazysidecar-" + n.name);
            && k in p.sidecars
            && var s := p.sidecars[k].value;
               && s.selector == (if spec.selector == map[] then None else Some(spec.selector))
               && |s.egress| == 1 && s.egress[0].port == None
               && |s.egress[0].hosts| == 1 + |at| + |hosts| && s.egress[0].hosts[0] == "istio-system/*"
               && TakenFrom(s.egress[0].hosts[1..1 + |at|], spec.egressHosts, at)
               && s.egress[0].hosts[1 + |at|..] == hosts
               && (forall h :: h in s.egress[0].hosts
                     <==> h in Desired(spec.egressHosts, spec.middleware) && (DefaultVariant(h) ==> h == "istio-system/*"))
  {
    var spec := SpecOf(c, n);
    PassEffect(c, n, visit);
    DerivedExactly(n);
    at := CreatedExactly(spec, hosts);
    forall h ensures h in CreateHosts(spec.egressHosts, spec.middleware)
                <==> h in Desired(spec.egressHosts, spec.middleware) && (DefaultVariant(h) ==> h == "istio-system/*")
    {
      CreateAgrees(spec.egressHosts, spec.middleware, h);
    }
  }

  /** A later pass keeps the listeners and their ports, and makes them all show the
      desired list. */
  lemma LaterPassExactly(c: Cluster, n: NamespacedName, visit: Visit, hosts: seq<Host>)
    requires n in c.lazy && Derived(n) in c.sidecars && !PassPanics(c, n)
    requires NamesMiddleware(hosts, SpecOf(c, n).middleware)
    ensures var spec, before := SpecOf(c, n), c.sidecars[Derived(n)].value;
            var s := Pass(c, n, visit).sidecars[Derived(n)].value;
            && s.selector == (if spec.selector == map[] then None else Some(spec.selector))
            && |s.egress| == (if before.egress == [] then 1 else |before.egress|)
            && forall i :: 0 <= i < |s.egress| ==>
                 && s.egress[i].port == (if before.egress == [] then None else before.egress[i].port)
                 && s.egress[i].hosts == Dedupe(spec.egressHosts + ["istio-system/*"] + hosts)
  {
    PassEffect(c, n, visit);
    SyncedExactly(SpecOf(c, n), c.sidecars[Derived(n)].value, hosts);
  }

  /** What a pass writes into the status, field by field. */
  lemma PassStatusExactly(c: Cluster, n: NamespacedName, visit: Visit)
    requires n in c.lazy && !PassPanics(c, n)
    ensures var status := StatusOf(Pass(c, n, visit), n);
            if visit.cached.None? then status == StatusOf(c, n)
            else && Mirrors(status, visit.cached.value.egress) && status.status == "Succeed"
                 && status.sidecarName == status.envoyFilterName == "lazysidecar-" + n.name
                 && status.lastUpdate == visit.now
  {
    PassEffect(c, n, visit);
  }

  /** A pass concerns one LazySidecar and the Sidecar derived from it. */
  lemma PassFrame(c: Cluster, n: NamespacedName, visit: Visit, m: NamespacedName)
    requires m != n
    ensures var p := Pass(c, n, visit);
            && (m in p.lazy <==> m in c.lazy) && (m in c.lazy ==> p.lazy[m] == c.lazy[m])
            && (Derived(m) in p.sidecars <==> Derived(m) in c.sidecars)
            && (Derived(m) in c.sidecars ==> p.sidecars[Derived(m)] == c.sidecars[Derived(m)])
  {
    if Derived(m) == Derived(n) {
      DerivedInjective(m, n);
      assert false;
    }
  }

  /** Every ServiceEntry host is stored, and every listener shows exactly the
      desired list. */
  ghost predicate Settled(c: Cluster, n: NamespacedName)
  {
    && n in c.lazy && Derived(n) in c.sidecars
    && var spec, sidecar := SpecOf(c, n), c.sidecars[Derived(n)].value;
       && (forall h :: h in AllHosts(c.entries) ==> h in spec.egressHosts)
       && sidecar.selector == (if spec.selector == map[] then None else Some(spec.selector))
       && sidecar.egress != []
       && (forall i :: 0 <= i < |sidecar.egress| ==> sidecar.egress[i].hosts == Desired(spec.egressHosts, spec.middleware))
  }

  /** ... and the status mirrors the listeners and names the derived objects. */
  ghost predicate Converged(c: Cluster, n: NamespacedName)
  {
    && Settled(c, n)
    && Mirrors(StatusOf(c, n), c.sidecars[Derived(n)].value.egress)
    && StatusOf(c, n).status == "Succeed"
    && StatusOf(c, n).sidecarName == StatusOf(c, n).envoyFilterName == "lazysidecar-" + n.name
  }

  /** The cache shows the status step the Sidecar as it is. */
  ghost predicate UpToDate(c: Cluster, n: NamespacedName, visit: Visit)
  {
    Derived(n) in c.sidecars && visit.cached == Some(c.sidecars[Derived(n)].value)
  }

  /** Two passes without an edit in between: the first may add hosts, the second
      never does, and it cannot panic. After it list and Sidecar agree, and so
      does the status unless the cache was behind. */
  lemma TwoPassesConverge(c: Cluster, n: NamespacedName, v1: Visit, v2: Visit)
    requires n in c.lazy && !PassPanics(c, n)
    ensures var c1 := Pass(c, n, v1); var c2 := Pass(c1, n, v2);
            && n in c1.lazy && n in c2.lazy && !PassPanics(c1, n)
            && SpecOf(c2, n) == SpecOf(c1, n)
            && (SpecOf(c1, n) == SpecOf(c, n) <==> forall h :: h in AllHosts(c.entries) ==> h in SpecOf(c, n).egressHosts)
            && Settled(c2, n) && (UpToDate(c2, n, v2) ==> Converged(c2, n))
  {
    var c1 := Pass(c, n, v1);
    PassEffect(c, n, v1);
    PassEffect(c1, n, v2);
    var stored, hosts := SpecOf(c, n).egressHosts, AllHosts(c.entries);
    AddMissingAgain(stored, hosts);
    AddMissingUnchanged(stored, hosts);
    AddMissingUnchanged(AddMissing(stored, hosts), hosts);
  }

  /** From then on a pass changes nothing but the status: neither the spec nor the
      Sidecar, not even its version. */
  lemma SettledIsFixed(c: Cluster, n: NamespacedName, visit: Visit)
    requires Settled(c, n)
    ensures var p := Pass(c, n, visit);
            && !PassPanics(c, n)
            && n in p.lazy && SpecOf(p, n) == SpecOf(c, n)
            && p.sidecars == c.sidecars
            && Settled(p, n) && (UpToDate(c, n, visit) ==> Converged(p, n))
  {
    PassEffect(c, n, visit);
    var spec, sidecar := SpecOf(c, n), c.sidecars[Derived(n)].value;
    AddMissingUnchanged(spec.egressHosts, AllHosts(c.entries));
    var synced := Synced(spec, sidecar);
    assert synced.egress == sidecar.egress;
    assert SyncDerived(c, n, spec).sidecars == c.sidecars;
  }

  function Passes(c: Cluster, n: NamespacedName, visits: seq<Visit>): Cluster
  {
    if visits == [] then c else Pass(Passes(c, n, visits[..|visits| - 1]), n, visits[|visits| - 1])
  }

  /** The whole story: from any stored list and any Sidecar, or none, every
      sequence of two or more passes ends in the same spec and the same Sidecar,
      only its first pass could have panicked, and the status agrees with them
      when the last pass read an up-to-date cache. */
  lemma {:induction false} PassesConverge(c: Cluster, n: NamespacedName, visits: seq<Visit>)
    requires n in c.lazy && !PassPanics(c, n) && |visits| >= 2
    ensures var end, two := Passes(c, n, visits), Passes(c, n, visits[..2]);
            && Settled(end, n) && n in two.lazy
            && !PassPanics(end, n) && !PassPanics(Passes(c, n, visits[..1]), n)
            && SpecOf(end, n) == SpecOf(two, n)
            && end.sidecars == two.sidecars
            && (UpToDate(end, n, visits[|visits| - 1]) ==> Converged(end, n))
  {
    var last := visits[|visits| - 1];
    if |visits| == 2 {
      assert visits[..2] == visits && visits[..1][..0] == [];
      assert Passes(c, n, visits[..1]) == Pass(c, n, visits[0]);
      TwoPassesConverge(c, n, visits[0], last);
    } else {
      var front := visits[..|visits| - 1];
      assert front[..2] == visits[..2] && front[..1] == visits[..1];
      PassesConverge(c, n, front);
      SettledIsFixed(Passes(c, n, front), n, last);
    }
    SettledIsFixed(Passes(c, n, visits), n, last);
  }
}
