/** ServiceEntry events, reports and passes, each run to completion: which of
    them keep the promise that every ServiceEntry host is stored. */
module Coverage {
  import opened GoStrings
  import opened HostLists
  import opened HostParser
  import opened LabelMatch
  import opened Projection
  import opened ReconcilePass
  import opened Store
  import opened Types

  // ----- steps -----

  datatype Event =
    | EntryCreated(entry: ServiceEntry)
    | EntryUpdated(index: nat, entry: ServiceEntry)
    | EntryDeleted(index: nat)
    | Reported(workload: map<string, string>, host: Host)
    | Reconciled(name: NamespacedName, visit: Visit)

  function QualifiedHosts(entry: ServiceEntry): seq<Host>
  {
    Qualify(entry.key.namespace, entry.hosts)
  }

  function Others(entries: seq<ServiceEntry>, index: nat): seq<ServiceEntry>
    requires index < |entries|
  {
    entries[..index] + entries[index + 1..]
  }

  /** The ServiceEntry exists, and the handler runs to its end: a removal panics
      half-way through its list at a Sidecar without a listener. A pass that
      panics is possible: it has written nothing. */
  ghost predicate Possible(c: Cluster, e: Event)
  {
    e.EntryUpdated? || e.EntryDeleted? ==> e.index < |c.entries| && Indexable(c, c.lazy.Keys)
  }

  /** The change of the ServiceEntry together with the handler it triggers. */
  ghost function Next(c: Cluster, e: Event): Cluster
    requires Possible(c, e)
  {
    match e
    case EntryCreated(entry) =>
      RewriteEvery(c.(entries := c.entries + [entry]), All, Add(QualifiedHosts(entry)))
    case EntryUpdated(index, entry) =>
      var removed := RemoveEvery(c.(entries := c.entries[index := entry]), QualifiedHosts(c.entries[index]));
      RewriteEvery(removed, All, Add(QualifiedHosts(entry)))
    case EntryDeleted(index) =>
      RemoveEvery(c.(entries := Others(c.entries, index)), QualifiedHosts(c.entries[index]))
    case Reported(workload, host) =>
      RewriteEvery(c, Matching(workload), Append(host))
    case Reconciled(name, visit) =>
      Pass(c, name, visit)
  }

  // ----- coverage -----

  ghost predicate Covered(c: Cluster, n: NamespacedName)
  {
    n in c.lazy && forall h :: h in AllHosts(c.entries) ==> h in SpecOf(c, n).egressHosts
  }

  /** The step takes away no host that another ServiceEntry still declares, unless
      the new version of the ServiceEntry declares it as well. */
  ghost predicate Harmless(c: Cluster, e: Event)
    requires Possible(c, e)
  {
    match e
    case EntryUpdated(index, entry) =>
      forall h :: h in AllHosts(Others(c.entries, index)) && h in QualifiedHosts(c.entries[index]) ==> h in QualifiedHosts(entry)
    case EntryDeleted(index) =>
      forall h :: h in AllHosts(Others(c.entries, index)) ==> h !in QualifiedHosts(c.entries[index])
    case _ => true
  }

  lemma OthersDeclare(entries: seq<ServiceEntry>, index: nat, entry: ServiceEntry, h: Host)
    requires index < |entries|
    ensures h in AllHosts(entries[index := entry]) <==> h in AllHosts(Others(entries, index)) || h in QualifiedHosts(entry)
  {
    var others, all := Others(entries, index), entries[index := entry];
    AllHostsContains(others, h);
    AllHostsContains(all, h);
    assert forall e :: e in others ==> e in all by {
      assert forall e :: e in others ==> e in entries[..index] || e in entries[index + 1..];
      assert all == entries[..index] + [entry] + entries[index + 1..];
    }
    assert all[index] == entry && Declares(entry, h) == (h in QualifiedHosts(entry));
    assert forall e :: e in all ==> e in others || e == entry by {
      assert all == entries[..index] + [entry] + entries[index + 1..];
    }
  }

  lemma SnocDeclares(entries: seq<ServiceEntry>, entry: ServiceEntry, h: Host)
    ensures h in AllHosts(entries + [entry]) <==> h in AllHosts(entries) || h in QualifiedHosts(entry)
  {
    assert (entries + [entry])[..|entries|] == entries;
  }

  /** The list a step leaves stored. */
  ghost function HostsAfter(c: Cluster, e: Event, n: NamespacedName): seq<Host>
    requires Possible(c, e) && n in c.lazy
  {
    var before := SpecOf(c, n).egressHosts;
    match e
    case EntryCreated(entry) => AddMissing(before, QualifiedHosts(entry))
    case EntryUpdated(index, entry) => AddMissing(Without(before, QualifiedHosts(c.entries[index])), QualifiedHosts(entry))
    case EntryDeleted(index) => Without(before, QualifiedHosts(c.entries[index]))
    case Reported(workload, host) => if Matches(workload, SpecOf(c, n).selector) then AppendIfAbsent(before, host) else before
    case Reconciled(name, visit) => if n == name && !PassPanics(c, n) then AddMissing(before, AllHosts(c.entries)) else before
  }

  lemma NextStores(c: Cluster, e: Event, n: NamespacedName)
    requires Possible(c, e) && n in c.lazy
    ensures n in Next(c, e).lazy
    ensures SpecOf(Next(c, e), n) == SpecOf(c, n).(egressHosts := HostsAfter(c, e, n))
  {
    match e {
      case EntryCreated(entry) => RewriteStores(c.(entries := c.entries + [entry]), All, Add(QualifiedHosts(entry)), n);
      case EntryUpdated(index, entry) =>
        var changed, old' := c.(entries := c.entries[index := entry]), QualifiedHosts(c.entries[index]);
        RewriteStores(changed, All, Remove(old'), n);
        RewriteStores(RemoveEvery(changed, old'), All, Add(QualifiedHosts(entry)), n);
      case EntryDeleted(index) =>
        RewriteStores(c.(entries := Others(c.entries, index)), All, Remove(QualifiedHosts(c.entries[index])), n);
      case Reported(workload, host) => RewriteStores(c, Matching(workload), Append(host), n);
      case Reconciled(name, visit) =>
        if n != name {
          PassFrame(c, name, visit, n);
        } else if !PassPanics(c, n) {
          PassEffect(c, n, visit);
        }
    }
  }

  lemma RewriteStores(c: Cluster, scope: Scope, op: HostOp, n: NamespacedName)
    requires n in c.lazy
    ensures n in RewriteEvery(c, scope, op).lazy
    ensures SpecOf(RewriteEvery(c, scope, op), n)
         == if InScope(scope, SpecOf(c, n)) then ApplyToSpec(op, SpecOf(c, n)) else SpecOf(c, n)
  {
  }

  /** When a host is stored after a step. */
  ghost predicate StoredWhen(c: Cluster, e: Event, n: NamespacedName, h: Host)
    requires Possible(c, e) && n in c.lazy
  {
    var before := h in SpecOf(c, n).egressHosts;
    match e
    case EntryCreated(entry) => before || h in QualifiedHosts(entry)
    case EntryUpdated(index, entry) => (before && h !in QualifiedHosts(c.entries[index])) || h in QualifiedHosts(entry)
    case EntryDeleted(index) => before && h !in QualifiedHosts(c.entries[index])
    case Reported(workload, host) => before || (h == host && Matches(workload, SpecOf(c, n).selector))
    case Reconciled(name, visit) => before || (n == name && !PassPanics(c, n) && h in AllHosts(c.entries))
  }

  lemma StoredAfter(c: Cluster, e: Event, n: NamespacedName, h: Host)
    requires Possible(c, e) && n in c.lazy
    ensures h in HostsAfter(c, e, n) <==> StoredWhen(c, e, n, h)
  {
    var before := SpecOf(c, n).egressHosts;
    match e {
      case EntryCreated(entry) => AddMissingCounts(before, QualifiedHosts(entry), h);
      case EntryUpdated(index, entry) => UpdateLaw(before, QualifiedHosts(c.entries[index]), QualifiedHosts(entry), h);
      case EntryDeleted(index) => WithoutCounts(before, QualifiedHosts(c.entries[index]), h);
      case Reported(workload, host) =>
      case Reconciled(name, visit) => AddMissingCounts(before, AllHosts(c.entries), h);
    }
  }

  /** When a host is declared after a step. */
  ghost predicate DeclaredWhen(c: Cluster, e: Event, h: Host)
    requires Possible(c, e)
  {
    match e
    case EntryCreated(entry) => h in AllHosts(c.entries) || h in QualifiedHosts(entry)
    case EntryUpdated(index, entry) => h in AllHosts(Others(c.entries, index)) || h in QualifiedHosts(entry)
    case EntryDeleted(index) => h in AllHosts(Others(c.entries, index))
    case _ => h in AllHosts(c.entries)
  }

  lemma DeclaredAfter(c: Cluster, e: Event, h: Host)
    requires Possible(c, e)
    ensures h in AllHosts(Next(c, e).entries) <==> DeclaredWhen(c, e, h)
  {
    match e {
      case EntryCreated(entry) => SnocDeclares(c.entries, entry, h);
      case EntryUpdated(index, entry) => OthersDeclare(c.entries, index, entry, h);
      case EntryDeleted(index) =>
      case Reported(_, _) =>
      case Reconciled(name, visit) =>
        if name in c.lazy && !PassPanics(c, name) {
          PassEffect(c, name, visit);
        }
    }
  }

  lemma OthersAreDeclared(entries: seq<ServiceEntry>, index: nat, h: Host)
    requires index < |entries| && h in AllHosts(Others(entries, index))
    ensures h in AllHosts(entries)
  {
    OthersDeclare(entries, index, entries[index], h);
    assert entries[index := entries[index]] == entries;
  }

  lemma CoverageIs(c: Cluster, e: Event, n: NamespacedName)
    requires Possible(c, e) && n in c.lazy
    ensures Covered(Next(c, e), n) <==> forall h :: DeclaredWhen(c, e, h) ==> StoredWhen(c, e, n, h)
  {
    NextStores(c, e, n);
    forall h ensures h in AllHosts(Next(c, e).entries) <==> DeclaredWhen(c, e, h) {
      DeclaredAfter(c, e, h);
    }
    forall h ensures h in SpecOf(Next(c, e), n).egressHosts <==> StoredWhen(c, e, n, h) {
      StoredAfter(c, e, n, h);
    }
  }

  /** A covered LazySidecar stays covered exactly when the step is harmless. */
  lemma CoverageKeptExactly(c: Cluster, e: Event, n: NamespacedName)
    requires Possible(c, e) && Covered(c, n)
    ensures Covered(Next(c, e), n) <==> Harmless(c, e)
  {
    CoverageIs(c, e, n);
    if e.EntryUpdated? || e.EntryDeleted? {
      forall h | h in AllHosts(Others(c.entries, e.index)) ensures h in SpecOf(c, n).egressHosts {
        OthersAreDeclared(c.entries, e.index, h);
      }
      if e.EntryUpdated? {
        assert forall h :: h in AllHosts(Others(c.entries, e.index)) ==> DeclaredWhen(c, e, h);
        assert forall h :: DeclaredWhen(c, e, h) ==> h in AllHosts(Others(c.entries, e.index)) || h in QualifiedHosts(e.entry);
      } else {
        assert forall h :: h in AllHosts(Others(c.entries, e.index)) <==> DeclaredWhen(c, e, h);
      }
    }
  }

  /** A pass covers its LazySidecar whatever happened before, unless it panics,
      which leaves everything as it was. */
  lemma PassCoversExactly(c: Cluster, n: NamespacedName, visit: Visit)
    requires n in c.lazy
    ensures Covered(Pass(c, n, visit), n) <==> !PassPanics(c, n) || Covered(c, n)
  {
    CoverageIs(c, Reconciled(n, visit), n);
  }

  // ----- removal and projection -----

  /** Where the first listener shows exactly the desired list, it does so again
      after a removal if and only if the removed hosts are neither DEFAULT_HOST nor
      middleware hosts of this LazySidecar. */
  lemma RemovalKeepsProjectionExactly(c: Cluster, n: NamespacedName, handled: seq<Host>)
    requires n in c.lazy && Derived(n) in c.sidecars && c.sidecars[Derived(n)].value.egress != []
    requires var spec := SpecOf(c, n);
             c.sidecars[Derived(n)].value.egress[0].hosts == Desired(spec.egressHosts, spec.middleware)
    ensures var r := RemoveEvery(c, handled);
            && n in r.lazy && Derived(n) in r.sidecars && r.sidecars[Derived(n)].value.egress != []
            && var spec := SpecOf(r, n);
               r.sidecars[Derived(n)].value.egress[0].hosts == Desired(spec.egressHosts, spec.middleware)
               <==> forall h :: h in Fixed(spec.middleware) ==> h !in handled
  {
    var spec, k := SpecOf(c, n), Derived(n);
    DeleteAgrees(spec.egressHosts, spec.middleware, handled);
    RewriteStores(c, All, Remove(handled), n);
    assert DerivedFrom(c.lazy.Keys, k);
    assert RemoveEvery(c, handled).sidecars[k] == DropOne(c.sidecars[k], handled);
  }

  // ----- runs -----

  ghost predicate Run(c: Cluster, es: seq<Event>, states: seq<Cluster>)
  {
    && |states| == |es| + 1 && states[0] == c
    && forall i :: 0 <= i < |es| ==> Possible(states[i], es[i]) && states[i + 1] == Next(states[i], es[i])
  }

  /** On every run a LazySidecar is covered from its first pass on, as long as
      that pass does not panic and the steps after it are harmless. */
  lemma {:induction false} CoveredAfterPass(c: Cluster, es: seq<Event>, states: seq<Cluster>, n: NamespacedName, p: nat, k: nat)
    requires Run(c, es, states) && n in c.lazy
    requires p < k <= |es| && es[p].Reconciled? && es[p].name == n && !PassPanics(states[p], n)
    requires forall i :: p < i < k ==> Harmless(states[i], es[i])
    ensures Covered(states[k], n)
  {
    if k == p + 1 {
      StaysListed(c, es, states, n, p);
      PassCoversExactly(states[p], n, es[p].visit);
    } else {
      CoveredAfterPass(c, es, states, n, p, k - 1);
      CoverageKeptExactly(states[k - 1], es[k - 1], n);
    }
  }

  lemma {:induction false} StaysListed(c: Cluster, es: seq<Event>, states: seq<Cluster>, n: NamespacedName, k: nat)
    requires Run(c, es, states) && n in c.lazy && k <= |es|
    ensures n in states[k].lazy
  {
    if k > 0 {
      StaysListed(c, es, states, n, k - 1);
      NextStores(states[k - 1], es[k - 1], n);
    }
  }

  // ----- no panic -----

  /** Where no step can panic: every Sidecar can be indexed, and has a selector to
      write through if its LazySidecar has one to copy. */
  ghost predicate Safe(c: Cluster)
  {
    forall n :: n in c.lazy ==> SafeAt(c, n)
  }

  ghost predicate SafeAt(c: Cluster, n: NamespacedName)
    requires n in c.lazy
  {
    Derived(n) in c.sidecars ==>
      c.sidecars[Derived(n)].value.egress != [] && !SelectorPanics(SpecOf(c, n), c.sidecars[Derived(n)].value)
  }

  lemma RewriteSafe(c: Cluster, scope: Scope, op: HostOp)
    requires Safe(c)
    ensures Safe(RewriteEvery(c, scope, op))
  {
    forall n | n in c.lazy ensures SafeAt(RewriteEvery(c, scope, op), n) {
      assert SafeAt(c, n);
      RewriteStores(c, scope, op, n);
    }
  }

  lemma RemoveSafe(c: Cluster, handled: seq<Host>)
    requires Safe(c)
    ensures Safe(RemoveEvery(c, handled))
  {
    forall n | n in c.lazy ensures SafeAt(RemoveEvery(c, handled), n) {
      assert SafeAt(c, n);
      RewriteStores(c, All, Remove(handled), n);
    }
  }

  lemma PassSafe(c: Cluster, name: NamespacedName, visit: Visit)
    requires Safe(c)
    ensures Safe(Pass(c, name, visit))
  {
    forall n | n in Pass(c, name, visit).lazy ensures SafeAt(Pass(c, name, visit), n) {
      if n != name {
        PassFrame(c, name, visit, n);
        assert SafeAt(c, n);
      } else if !PassPanics(c, n) {
        PassEffect(c, n, visit);
      }
    }
  }

  lemma NextSafe(c: Cluster, e: Event)
    requires Safe(c) && Possible(c, e)
    ensures Safe(Next(c, e))
  {
    match e {
      case EntryCreated(entry) =>
        var changed := c.(entries := c.entries + [entry]);
        assert Safe(changed) by { SameIsSafe(c, changed); }
        RewriteSafe(changed, All, Add(QualifiedHosts(entry)));
      case EntryUpdated(index, entry) =>
        var changed := c.(entries := c.entries[index := entry]);
        assert Safe(changed) by { SameIsSafe(c, changed); }
        RemoveSafe(changed, QualifiedHosts(c.entries[index]));
        RewriteSafe(RemoveEvery(changed, QualifiedHosts(c.entries[index])), All, Add(QualifiedHosts(entry)));
      case EntryDeleted(index) =>
        var changed := c.(entries := Others(c.entries, index));
        assert Safe(changed) by { SameIsSafe(c, changed); }
        RemoveSafe(changed, QualifiedHosts(c.entries[index]));
      case Reported(workload, host) => RewriteSafe(c, Matching(workload), Append(host));
      case Reconciled(name, visit) => PassSafe(c, name, visit);
    }
  }

  lemma SameIsSafe(c: Cluster, d: Cluster)
    requires Safe(c) && d.lazy == c.lazy && d.sidecars == c.sidecars
    ensures Safe(d)
  {
    forall n | n in d.lazy ensures SafeAt(d, n) {
      assert SafeAt(c, n);
    }
  }

  /** Runs that start safe stay safe: at every point of them no pass panics, and
      every handler for a ServiceEntry that exists runs to its end. */
  lemma {:induction false} RunsStaySafe(c: Cluster, es: seq<Event>, states: seq<Cluster>, k: nat)
    requires Run(c, es, states) && Safe(c) && k <= |es|
    ensures Safe(states[k])
    ensures forall n :: !PassPanics(states[k], n)
    ensures forall e: Event :: (e.EntryUpdated? || e.EntryDeleted? ==> e.index < |states[k].entries|) ==>
              Possible(states[k], e)
  {
    if k > 0 {
      RunsStaySafe(c, es, states, k - 1);
      NextSafe(states[k - 1], es[k - 1]);
    }
    forall n | n in states[k].lazy ensures !PassPanics(states[k], n) {
      assert SafeAt(states[k], n);
    }
    forall n | n in states[k].lazy && Derived(n) in states[k].sidecars
      ensures states[k].sidecars[Derived(n)].value.egress != []
    {
      assert SafeAt(states[k], n);
    }
  }

  /** No host is declared by two ServiceEntries. */
  ghost predicate DeclaredOnce(entries: seq<ServiceEntry>)
  {
    forall i, h :: 0 <= i < |entries| && h in AllHosts(Others(entries, i)) ==> h !in QualifiedHosts(entries[i])
  }

  /** So on every run that starts safe a LazySidecar is covered from its first pass
      on for as long as no two ServiceEntries declare the same host. */
  lemma CoveredWhileDeclaredOnce(c: Cluster, es: seq<Event>, states: seq<Cluster>, n: NamespacedName, p: nat, k: nat)
    requires Run(c, es, states) && Safe(c) && n in c.lazy
    requires p < k <= |es| && es[p].Reconciled? && es[p].name == n
    requires forall i :: p < i < k ==> DeclaredOnce(states[i].entries)
    ensures Covered(states[k], n)
  {
    RunsStaySafe(c, es, states, p);
    forall i | p < i < k ensures Harmless(states[i], es[i]) {
      assert DeclaredOnce(states[i].entries) && Possible(states[i], es[i]);
    }
    CoveredAfterPass(c, es, states, n, p, k);
  }

  // ----- reports of one service -----

  /** One report: where it comes from and how it names the service. */
  datatype Mention = Mention(src: string, destination: Destination)

  /** The cluster after one report after the other. */
  ghost function AfterReports(c: Cluster, workload: map<string, string>, hosts: seq<Host>): Cluster
  {
    if hosts == [] then c
    else Next(AfterReports(c, workload, hosts[..|hosts| - 1]), Reported(workload, hosts[|hosts| - 1]))
  }

  lemma {:induction false} SameHostReported(c: Cluster, workload: map<string, string>, hosts: seq<Host>, host: Host,
                                            n: NamespacedName)
    requires n in c.lazy && forall i :: 0 <= i < |hosts| ==> hosts[i] == host
    ensures var end := AfterReports(c, workload, hosts);
            && n in end.lazy
            && var labels := SpecOf(c, n).selector;
               if hosts != [] && host !in SpecOf(c, n).egressHosts
                  && (forall k :: k in labels ==> k in workload && Fold(labels[k]) == Fold(workload[k]))
               then end.lazy[n].value == c.lazy[n].value.(spec := SpecOf(c, n).(egressHosts := SpecOf(c, n).egressHosts + [host]))
               else end.lazy[n] == c.lazy[n]
  {
    if hosts != [] {
      var front := hosts[..|hosts| - 1];
      SameHostReported(c, workload, front, host, n);
      var before := AfterReports(c, workload, front);
      assert before.lazy[n].value.spec.selector == SpecOf(c, n).selector;
      RewriteStores(before, Matching(workload), Append(host), n);
    }
  }

  /** However often and in whatever forms one service is reported, a matched
      LazySidecar ends with the list it had, or with that list and the service's one
      canonical entry after it; an unmatched one is not touched at all. */
  lemma ReportsAddOneEntry(c: Cluster, workload: map<string, string>, mentions: seq<Mention>,
                           svc: string, ns: string, n: NamespacedName)
    requires IsLabel(svc) && IsLabel(ns) && n in c.lazy
    requires forall i :: 0 <= i < |mentions| ==> Locates(mentions[i].src, mentions[i].destination, ns)
    ensures var hosts := seq(|mentions|, i requires 0 <= i < |mentions| =>
                           ParseHost(mentions[i].src, Render(mentions[i].destination, svc, ns)));
            var end, spec := AfterReports(c, workload, hosts), SpecOf(c, n);
            var entry := ns + "/" + svc + "." + ns + ".svc.cluster.local";
            && n in end.lazy
            && if mentions != [] && entry !in spec.egressHosts
                  && (forall k :: k in spec.selector ==> k in workload && Fold(spec.selector[k]) == Fold(workload[k]))
               then end.lazy[n].value == c.lazy[n].value.(spec := spec.(egressHosts := spec.egressHosts + [entry]))
               else end.lazy[n] == c.lazy[n]
  {
    var hosts := seq(|mentions|, i requires 0 <= i < |mentions| =>
                   ParseHost(mentions[i].src, Render(mentions[i].destination, svc, ns)));
    forall i | 0 <= i < |hosts| ensures hosts[i] == ServiceHost(svc, ns) {
      FormsAgree(mentions[i].src, mentions[i].destination, svc, ns);
    }
    SameHostReported(c, workload, hosts, ServiceHost(svc, ns), n);
  }

  /** So a list without duplicates stays without duplicates. */
  lemma ReportsAddNoDuplicate(c: Cluster, workload: map<string, string>, mentions: seq<Mention>,
                              svc: string, ns: string, n: NamespacedName)
    requires IsLabel(svc) && IsLabel(ns) && n in c.lazy
    requires forall i :: 0 <= i < |mentions| ==> Locates(mentions[i].src, mentions[i].destination, ns)
    requires NoDuplicates(SpecOf(c, n).egressHosts)
    ensures var hosts := seq(|mentions|, i requires 0 <= i < |mentions| =>
                           ParseHost(mentions[i].src, Render(mentions[i].destination, svc, ns)));
            var end := AfterReports(c, workload, hosts);
            n in end.lazy && NoDuplicates(SpecOf(end, n).egressHosts)
  {
    ReportsAddOneEntry(c, workload, mentions, svc, ns, n);
  }
}
