/** The controller and the HTTP endpoint as they run against the API server:
    loops over list responses, in-place edits of the copies they got, and whole
    objects written back. Failed writes are logged and dropped. */
module Controller {
  import opened GoStrings
  import opened HostLists
  import opened HostParser
  import opened LabelMatch
  import opened ListKernels
  import opened Projection
  import opened ReconcilePass
  import opened SidecarSync
  import opened Store
  import opened Types

  /** The client both share. */
  class ApiServer {
    var state: Cluster

    constructor (state: Cluster)
      ensures this.state == state
    {
      this.state := state;
    }

    /** A list response names every LazySidecar once, in no particular order. */
    method ListLazySidecars() returns (items: seq<Item>)
      ensures FreshItems(state, items) && ItemNames(items) == state.lazy.Keys
    {
      items := [];
      var rest := state.lazy.Keys;
      while rest != {}
        invariant rest <= state.lazy.Keys && FreshItems(state, items)
        invariant ItemNames(items) == state.lazy.Keys - rest
        decreases |rest|
      {
        var n :| n in rest;
        FreshSnoc(state, items, n);
        ItemNamesSnoc(items, Item(n, state.lazy[n]));
        items := items + [Item(n, state.lazy[n])];
        rest := rest - {n};
      }
    }

    method PutSpec(n: NamespacedName, readVersion: nat, spec: LazySpec) returns (ok: bool)
      modifies this
      ensures state == UpdateSpec(old(state), n, readVersion, spec)
      ensures ok <==> n in old(state).lazy && readVersion == old(state).lazy[n].version
    {
      ok := n in state.lazy && readVersion == state.lazy[n].version;
      if ok {
        var value := state.lazy[n].value.(spec := spec);
        if value != state.lazy[n].value {
          state := state.(lazy := state.lazy[n := Versioned(readVersion + 1, value)]);
        }
      }
      assert n in old(state).lazy ==> old(state).lazy[n := old(state).lazy[n]] == old(state).lazy;
    }

    method PutStatus(n: NamespacedName, readVersion: nat, status: Status) returns (ok: bool)
      modifies this
      ensures state == UpdateStatus(old(state), n, readVersion, status)
    {
      ok := n in state.lazy && readVersion == state.lazy[n].version;
      if ok {
        var value := state.lazy[n].value.(status := status);
        if value != state.lazy[n].value {
          state := state.(lazy := state.lazy[n := Versioned(readVersion + 1, value)]);
        }
      }
      assert n in old(state).lazy ==> old(state).lazy[n := old(state).lazy[n]] == old(state).lazy;
    }

    method PutSidecar(k: NamespacedName, readVersion: nat, sidecar: SidecarSpec) returns (ok: bool)
      modifies this
      ensures state == UpdateSidecar(old(state), k, readVersion, sidecar)
    {
      ok := k in state.sidecars && readVersion == state.sidecars[k].version;
      if ok && sidecar != state.sidecars[k].value {
        state := state.(sidecars := state.sidecars[k := Versioned(readVersion + 1, sidecar)]);
      }
      assert k in old(state).sidecars ==> old(state).sidecars[k := old(state).sidecars[k]] == old(state).sidecars;
    }

    method PostSidecar(k: NamespacedName, sidecar: SidecarSpec) returns (ok: bool)
      modifies this
      ensures state == CreateSidecar(old(state), k, sidecar)
    {
      ok := k !in state.sidecars;
      if ok {
        state := state.(sidecars := state.sidecars[k := Versioned(0, sidecar)]);
      }
    }
  }

  /** The list of a decoded object, in a buffer of its own. */
  method Load(hosts: seq<Host>) returns (buf: array<Host>)
    ensures fresh(buf) && buf[..] == hosts
  {
    buf := new Host[|hosts|](i requires 0 <= i < |hosts| => hosts[i]);
  }

  method QualifyHosts(namespace: string, hosts: seq<string>) returns (handledHosts: seq<Host>)
    ensures handledHosts == Qualify(namespace, hosts)
    ensures |handledHosts| == |hosts| && forall i :: 0 <= i < |hosts| ==> handledHosts[i] == namespace + "/" + hosts[i]
  {
    handledHosts := [];
    for i := 0 to |hosts|
      invariant handledHosts == Qualify(namespace, hosts[..i])
    {
      handledHosts := handledHosts + [namespace + "/" + hosts[i]];
    }
    assert hosts[..|hosts|] == hosts;
  }

  class LazySidecarReconciler {
    const api: ApiServer

    constructor (api: ApiServer)
      ensures this.api == api
    {
      this.api := api;
    }

    // ----- adding hosts -----

    /** The instance's list after `GetNewHosts` and the append, and whether there
        is anything to write. */
    method Extend(egressHosts: seq<Host>, hosts: seq<Host>) returns (extended: seq<Host>, changed: bool)
      ensures changed <==> AddMissing(egressHosts, hosts) != egressHosts
      ensures changed ==> extended == AddMissing(egressHosts, hosts)
    {
      var buf := Load(egressHosts);
      var newHosts := GetNewHosts(buf, hosts);
      extended, changed := buf[..] + newHosts, |newHosts| > 0;
      AddMissingLonger(egressHosts, hosts);
    }

    /** The loop of `ReconcileCsmLazySidecarAddHosts` over any list response, be
        it out of date. */
    method AddHostsTo(items: seq<Item>, handledHosts: seq<Host>)
      modifies api
      ensures api.state == WriteAll(old(api.state), items, All, Add(handledHosts))
    {
      for i := 0 to |items|
        invariant api.state == WriteAll(old(api.state), items[..i], All, Add(handledHosts))
      {
        var item := items[i];
        assert items[..i + 1][..i] == items[..i];
        var spec := item.stored.value.spec;
        var extended, changed := Extend(spec.egressHosts, handledHosts);
        if changed {
          var ok := api.PutSpec(item.name, item.stored.version, spec.(egressHosts := extended));
        }
      }
      assert items[..|items|] == items;
    }

    method ReconcileCsmLazySidecarAddHosts(namespace: string, hosts: seq<string>)
      modifies api
      ensures api.state == RewriteEvery(old(api.state), All, Add(Qualify(namespace, hosts)))
    {
      var items := api.ListLazySidecars();
      var handledHosts := QualifyHosts(namespace, hosts);
      WriteAllIsRewriteEvery(api.state, items, All, Add(handledHosts));
      AddHostsTo(items, handledHosts);
    }

    // ----- removing hosts -----

    /** `RemoveDeriveSidecarHosts`. Indexing the first listener needs one. */
    method RemoveDeriveSidecarHosts(n: NamespacedName, handled: array<Host>)
      requires Sorted(handled[..])
      requires Indexable(api.state, {n})
      modifies api
      ensures api.state == DropFrom(old(api.state), Derived(n), handled[..])
    {
      var k := Derived(n);
      if k !in api.state.sidecars {
        return;
      }
      var read := api.state.sidecars[k];
      var first := read.value.egress[0];
      var buf := Load(first.hosts);
      assert buf[..|first.hosts|] == first.hosts;
      var live := DeleteListed(buf, |first.hosts|, handled);
      var ok := api.PutSidecar(k, read.version,
                               read.value.(egress := read.value.egress[0 := Listener(first.port, buf[..live])]));
    }

    /** The loop of `ReconcileCsmLazySidecarRemoveHosts`. The sorted list is
        carried into the second deletion. */
    method RemoveHostsFrom(items: seq<Item>, handled: array<Host>)
      requires Sorted(handled[..])
      requires Indexable(api.state, ItemNames(items))
      modifies api
      ensures api.state == RemoveAll(old(api.state), items, handled[..])
    {
      ghost var listed := handled[..];
      for i := 0 to |items|
        invariant handled[..] == listed
        invariant api.state == RemoveAll(old(api.state), items[..i], listed)
        invariant Indexable(api.state, ItemNames(items))
      {
        var item := items[i];
        assert item.name in ItemNames(items);
        assert items[..i + 1][..i] == items[..i];
        var spec := item.stored.value.spec;
        var buf := Load(spec.egressHosts);
        assert buf[..|spec.egressHosts|] == spec.egressHosts;
        var live := DeleteListed(buf, |spec.egressHosts|, handled);
        var ok := api.PutSpec(item.name, item.stored.version, spec.(egressHosts := buf[..live]));
        RemoveDeriveSidecarHosts(item.name, handled);
      }
      assert items[..|items|] == items;
    }

    method ReconcileCsmLazySidecarRemoveHosts(namespace: string, hosts: seq<string>)
      requires Indexable(api.state, api.state.lazy.Keys)
      modifies api
      ensures api.state == RemoveEvery(old(api.state), Qualify(namespace, hosts))
    {
      var items := api.ListLazySidecars();
      var handledHosts := QualifyHosts(namespace, hosts);
      var handled := Load(handledHosts);
      SortStrings(handled);
      SortSorts(handledHosts);
      RemoveAllSameSet(api.state, items, Sort(handledHosts), handledHosts);
      RemoveAllIsRemoveEvery(api.state, items, handledHosts);
      RemoveHostsFrom(items, handled);
    }

    // ----- ServiceEntry events -----

    method OnCreate(entry: ServiceEntry)
      modifies api
      ensures api.state == RewriteEvery(old(api.state), All, Add(Qualify(entry.key.namespace, entry.hosts)))
    {
      ReconcileCsmLazySidecarAddHosts(entry.key.namespace, entry.hosts);
    }

    method OnUpdate(oldEntry: ServiceEntry, newEntry: ServiceEntry)
      requires Indexable(api.state, api.state.lazy.Keys)
      modifies api
      ensures api.state == RewriteEvery(RemoveEvery(old(api.state), Qualify(oldEntry.key.namespace, oldEntry.hosts)),
                                        All, Add(Qualify(newEntry.key.namespace, newEntry.hosts)))
    {
      ReconcileCsmLazySidecarRemoveHosts(oldEntry.key.namespace, oldEntry.hosts);
      ReconcileCsmLazySidecarAddHosts(newEntry.key.namespace, newEntry.hosts);
    }

    method OnDelete(entry: ServiceEntry)
      requires Indexable(api.state, api.state.lazy.Keys)
      modifies api
      ensures api.state == RemoveEvery(old(api.state), Qualify(entry.key.namespace, entry.hosts))
    {
      ReconcileCsmLazySidecarRemoveHosts(entry.key.namespace, entry.hosts);
    }

    // ----- Reconcile -----

    method ListAllServiceEntryHosts() returns (all: seq<Host>)
      ensures all == AllHosts(api.state.entries)
    {
      var entries := api.state.entries;
      all := [];
      for i := 0 to |entries|
        invariant all == AllHosts(entries[..i])
      {
        assert entries[..i + 1][..i] == entries[..i];
        var handledHosts := QualifyHosts(entries[i].key.namespace, entries[i].hosts);
        all := all + handledHosts;
      }
      assert entries[..|entries|] == entries;
    }

    method ReconcileSidecar(n: NamespacedName, spec: LazySpec)
      requires !SyncPanics(api.state, n, spec)
      modifies api
      ensures api.state == SyncDerived(old(api.state), n, spec)
    {
      var k := Derived(n);
      if k !in api.state.sidecars {
        var created := ConstructSidecar(spec);
        var ok := api.PostSidecar(k, created);
      } else {
        var read := api.state.sidecars[k];
        var updated := SyncSidecar(spec, read.value);
        var ok := api.PutSidecar(k, read.version, updated);
      }
    }

    /** `RewriteSeHostsToCsmLazySidecar`; the version the instance carries on is
        returned. Without stored hosts the whole list is appended, which is what
        the other branch would do. */
    method RewriteSeHosts(item: Item) returns (version: nat)
      modifies api
      ensures var c, stored := old(api.state), item.stored;
              && api.state == RewriteHosts(c, item.name, stored.version, stored.value.spec, AllHosts(c.entries))
              && version == InstanceVersion(c, item.name, stored.version, stored.value.spec, AllHosts(c.entries))
    {
      version := item.stored.version;
      var spec := item.stored.value.spec;
      var all := ListAllServiceEntryHosts();
      var extended, changed: bool;
      if |spec.egressHosts| == 0 {
        extended, changed := spec.egressHosts + all, true;
        AppendToNothing(all);
      } else {
        extended, changed := Extend(spec.egressHosts, all);
      }
      if changed {
        var ok := api.PutSpec(item.name, version, spec.(egressHosts := extended));
        if ok {
          version := api.state.lazy[item.name].version;
        }
      }
    }

    /** `RewriteCsmLazySidecarStatus`, from the Sidecar that the cache shows. */
    method RewriteStatusOf(n: NamespacedName, version: nat, visit: Visit)
      modifies api
      ensures api.state == RewriteStatus(old(api.state), n, version, visit)
      ensures visit.cached.Some? && n in old(api.state).lazy && version == old(api.state).lazy[n].version ==>
                && n in api.state.lazy
                && var status := api.state.lazy[n].value.status;
                   && Mirrors(status, visit.cached.value.egress) && status.status == "Succeed"
                   && status.sidecarName == status.envoyFilterName == "lazysidecar-" + n.name
    {
      if visit.cached.Some? {
        var egress := visit.cached.value.egress;
        var upstream: seq<Upstream> := [];
        for i := 0 to |egress|
          invariant upstream == UpstreamsOf(egress[..i])
        {
          upstream := upstream + [Upstream(if egress[i].port.Some? then Some(egress[i].port.value.number) else None,
                                           if egress[i].port.Some? then egress[i].port.value.protocol else "",
                                           egress[i].hosts)];
        }
        assert egress[..|egress|] == egress;
        var ok := api.PutStatus(n, version, Status("Succeed", upstream, Derived(n).name, PREFIX + n.name, visit.now));
      }
    }

    /** One pass over the instance that the cache shows, which may be out of date;
        without one there is nothing to do. */
    method Reconcile(n: NamespacedName, instance: Option<Versioned<LazySidecar>>, visit: Visit)
      requires instance.Some? ==> !SyncPanics(api.state, n, instance.value.value.spec)
      modifies api
      ensures api.state == if instance.Some? then PassFrom(old(api.state), Item(n, instance.value), visit)
                           else old(api.state)
    {
      if instance.Some? {
        var item := Item(n, instance.value);
        ReconcileSidecar(n, item.stored.value.spec);
        var version := RewriteSeHosts(item);
        RewriteStatusOf(n, version, visit);
      }
    }
  }

  lemma AppendToNothing(all: seq<Host>)
    ensures [] + all == AddMissing([], all)
  {
    WithoutNothing(all, []);
  }

  lemma {:induction false} RemoveAllSameSet(c: Cluster, items: seq<Item>, h1: seq<Host>, h2: seq<Host>)
    requires forall h :: h in h1 <==> h in h2
    ensures RemoveAll(c, items, h1) == RemoveAll(c, items, h2)
  {
    if items != [] {
      var front, last := items[..|items| - 1], items[|items| - 1];
      RemoveAllSameSet(c, front, h1, h2);
      WithoutSameSet(last.stored.value.spec.egressHosts, h1, h2);
      var k := Derived(last.name);
      var before := WriteBack(RemoveAll(c, front, h1), last, All, Remove(h1));
      if k in before.sidecars && before.sidecars[k].value.egress != [] {
        WithoutSameSet(before.sidecars[k].value.egress[0].hosts, h1, h2);
      }
    }
  }

  // ----- the HTTP endpoint -----

  /** What a report leaves of one LazySidecar: if every label of its selector is a
      label of the workload, up to case, and the host is missing, the host is put
      at the end of its list, once; or else the object is not written at all. */
  ghost predicate ReportedOnce(before: Versioned<LazySidecar>, after: Versioned<LazySidecar>,
                               workload: map<string, string>, host: Host)
  {
    var spec := before.value.spec;
    if (forall k :: k in spec.selector ==> k in workload && Fold(spec.selector[k]) == Fold(workload[k])) && host !in spec.egressHosts
    then after.value == before.value.(spec := spec.(egressHosts := spec.egressHosts + [host]))
    else after == before
  }

  lemma ReportedOnceEach(c: Cluster, workload: map<string, string>, host: Host, n: NamespacedName)
    requires n in c.lazy
    ensures ReportedOnce(c.lazy[n], RewriteEvery(c, Matching(workload), Append(host)).lazy[n], workload, host)
  {
  }

  class Invocation {
    const api: ApiServer

    constructor (api: ApiServer)
      ensures this.api == api
    {
      this.api := api;
    }

    method SyncLazySidecar(item: Item, newHost: Host)
      modifies api
      ensures api.state == WriteBack(old(api.state), item, All, Append(newHost))
      ensures newHost in item.stored.value.spec.egressHosts ==> api.state == old(api.state)
      ensures var n, spec, before := item.name, item.stored.value.spec, old(api.state);
              newHost !in spec.egressHosts && n in before.lazy && before.lazy[n].version == item.stored.version ==>
                && n in api.state.lazy
                && api.state.lazy[n].value.status == before.lazy[n].value.status
                && api.state.lazy[n].value.spec == spec.(egressHosts := spec.egressHosts + [newHost])
    {
      var spec := item.stored.value.spec;
      for i := 0 to |spec.egressHosts|
        invariant newHost !in spec.egressHosts[..i]
        invariant api.state == old(api.state)
      {
        if newHost == spec.egressHosts[i] {
          return;
        }
      }
      assert spec.egressHosts[..|spec.egressHosts|] == spec.egressHosts;
      var ok := api.PutSpec(item.name, item.stored.version, spec.(egressHosts := spec.egressHosts + [newHost]));
    }

    method ReportTo(items: seq<Item>, workload: map<string, string>, host: Host)
      modifies api
      ensures api.state == WriteAll(old(api.state), items, Matching(workload), Append(host))
    {
      for i := 0 to |items|
        invariant api.state == WriteAll(old(api.state), items[..i], Matching(workload), Append(host))
      {
        var item := items[i];
        assert items[..i + 1][..i] == items[..i];
        var matched := IsSourceMatched(workload, item.stored.value.spec.selector);
        if matched {
          SyncLazySidecar(item, host);
        }
      }
      assert items[..|items|] == items;
    }

    method Report(metadata: Metadata, destination: string)
      modifies api
      ensures var (workload, sn) := WorkloadLabels(metadata);
              api.state == RewriteEvery(old(api.state), Matching(workload), Append(ParseHost(sn, destination)))
      ensures var (workload, sn) := WorkloadLabels(metadata);
              forall n :: n in old(api.state).lazy ==>
                n in api.state.lazy && ReportedOnce(old(api.state).lazy[n], api.state.lazy[n], workload, ParseHost(sn, destination))
    {
      var workload, sn := ParseWorkloadLabels(metadata);
      var host := ParseHost(sn, destination);
      var items := api.ListLazySidecars();
      WriteAllIsRewriteEvery(api.state, items, Matching(workload), Append(host));
      forall n | n in api.state.lazy { ReportedOnceEach(api.state, workload, host, n); }
      ReportTo(items, workload, host);
    }
  }
}
