/** The update and create paths of the derived Sidecar on the in-memory object,
    whose listeners share backing arrays along the way. */
module SidecarSync {
  import opened GoStrings
  import opened HostLists
  import opened Slices
  import opened Types
  import opened Projection

  class EgressListener {
    var port: Option<Port>
    var hosts: Slice

    constructor (port: Option<Port>, hosts: Slice)
      ensures this.port == port && this.hosts == hosts
    {
      this.port := port;
      this.hosts := hosts;
    }
  }

  /** Listeners may share an array only if they show the same part of it:
      `live` gives each array in use its one live length. */
  ghost predicate Consistent(listeners: set<EgressListener>, live: map<array<Host>, nat>)
    reads listeners
  {
    forall e :: e in listeners ==> e.hosts.Valid() && e.hosts.buf in live && e.hosts.length == live[e.hosts.buf]
  }

  class Sidecar {
    var selector: Option<map<string, string>>
    var egress: seq<EgressListener>

    constructor (selector: Option<map<string, string>>, egress: seq<EgressListener>)
      ensures this.selector == selector && this.egress == egress
    {
      this.selector := selector;
      this.egress := egress;
    }

    ghost function Listeners(): set<EgressListener>
      reads this
    {
      set e | e in egress
    }

    ghost predicate Valid()
      reads this, egress
    {
      forall e :: e in Listeners() ==> e.hosts.Valid()
    }
  }

  /** `syncWorkloadSelectorToSidecar`. */
  method SyncWorkloadSelector(spec: LazySpec, sidecar: Sidecar)
    requires !(SelectorOf(spec).Some? && sidecar.selector.None?)
    modifies sidecar`selector
    ensures sidecar.selector == SelectorOf(spec)
    ensures sidecar.selector == if spec.selector == map[] then None else Some(spec.selector)
  {
    if |spec.selector| == 0 {
      sidecar.selector := None;
    } else {
      sidecar.selector := Some(spec.selector);
    }
  }

  /** The shared list of `syncEgressHostsToSidecar`; spare capacity remains
      when the list held duplicates. */
  method EgressHostList(egressHosts: seq<Host>) returns (hostList: Slice)
    ensures hostList.Valid() && fresh(hostList.buf) && hostList.View() == EgressPass(egressHosts)
  {
    hostList := Make(0);
    if egressHosts == [] {
      hostList := Append(hostList, [DEFAULT_HOST]);
      assert hostList.View() == [DEFAULT_HOST];
    } else {
      var hl := Make(0);
      hl := Append(hl, egressHosts);
      assert hl.View() == egressHosts;
      hl := Append(hl, [DEFAULT_HOST]);
      hostList := RemoveDuplicateElement(hl);
    }
  }

  /** `syncEgressHostsToSidecar`: afterwards all listeners hold the very same
      slice, spare capacity included. */
  method SyncEgressHosts(spec: LazySpec, sidecar: Sidecar)
    modifies sidecar`egress, sidecar.egress`hosts
    ensures if old(sidecar.egress) == [] then |sidecar.egress| == 1 && fresh(sidecar.egress[0]) && sidecar.egress[0].port == None
            else sidecar.egress == old(sidecar.egress)
    ensures exists shared: Slice :: shared.Valid() && fresh(shared.buf) && shared.View() == EgressPass(spec.egressHosts)
              && forall i :: 0 <= i < |sidecar.egress| ==> sidecar.egress[i].hosts == shared
  {
    var hostList := EgressHostList(spec.egressHosts);
    if sidecar.egress == [] {
      var listener := new EgressListener(None, hostList);
      sidecar.egress := [listener];
    }
    var egress := sidecar.egress;
    for i := 0 to |egress|
      modifies egress`hosts
      invariant forall j :: 0 <= j < i ==> egress[j].hosts == hostList
    {
      egress[i].hosts := hostList;
    }
  }

  /** Where the loop of `syncMiddlewareServiceToSidecar` stands: the listeners
      in `done` hold their new list, the others still show their old one. */
  ghost predicate Halfway(listeners: set<EgressListener>, live: map<array<Host>, nat>,
                          was: map<EgressListener, seq<Host>>, done: set<EgressListener>, hostList: seq<Host>)
    reads *
  {
    && Consistent(listeners, live)
    && was.Keys == listeners
    && forall e :: e in listeners ==>
         e.hosts.View() == if e in done then Dedupe(was[e] + hostList) else was[e]
  }

  /** One turn of that loop. The append may write into an array that other
      listeners show a part of; none of them sees it. */
  method AddToListener(ghost listeners: set<EgressListener>, ghost live: map<array<Host>, nat>,
                       ghost was: map<EgressListener, seq<Host>>, ghost done: set<EgressListener>,
                       e: EgressListener, hostList: seq<Host>)
    requires Halfway(listeners, live, was, done, hostList) && e in listeners
    modifies e`hosts, e.hosts.buf
    ensures fresh(e.hosts.buf)
    ensures Halfway(listeners, live[e.hosts.buf := e.hosts.length], was, done + {e}, hostList)
  {
    DedupeOnce(was[e], hostList);
    var hl := Append(e.hosts, hostList);
    var deduped := RemoveDuplicateElement(hl);
    assert deduped.View() == Dedupe(was[e] + hostList);
    e.hosts := deduped;
  }

  method MiddlewareHostList(middleware: seq<Middleware>) returns (hostList: seq<Host>)
    ensures hostList == MiddlewareHosts(middleware)
  {
    hostList := [];
    for i := 0 to |middleware|
      invariant hostList == MiddlewareHosts(middleware[..i])
    {
      hostList := hostList + [MiddlewareHost(middleware[i])];
    }
    assert middleware[..|middleware|] == middleware;
  }

  /** The loop of `syncMiddlewareServiceToSidecar`, for any number of listeners,
      even when one of them occurs twice. */
  method AddToListeners(egress: seq<EgressListener>, ghost listeners: set<EgressListener>,
                        ghost live: map<array<Host>, nat>, ghost was: map<EgressListener, seq<Host>>, hostList: seq<Host>)
    requires forall e :: e in listeners <==> e in egress
    requires Halfway(listeners, live, was, {}, hostList)
    modifies listeners`hosts, live.Keys
    ensures exists now :: Halfway(listeners, now, was, listeners, hostList)
  {
    ghost var done: set<EgressListener>, now, added: set<array<Host>> := {}, live, {};
    for i := 0 to |egress|
      invariant forall j :: 0 <= j < i ==> egress[j] in done
      invariant fresh(added) && now.Keys == live.Keys + added
      invariant Halfway(listeners, now, was, done, hostList)
    {
      var e := egress[i];
      ghost var before := done;
      done := done + {e};
      assert forall j :: 0 <= j <= i ==> egress[j] in done;
      AddToListener(listeners, now, was, before, e, hostList);
      now, added := now[e.hosts.buf := e.hosts.length], added + {e.hosts.buf};
    }
    assert Halfway(listeners, now, was, listeners, hostList);
  }

  /** `syncMiddlewareServiceToSidecar`. */
  method SyncMiddleware(spec: LazySpec, sidecar: Sidecar, ghost live: map<array<Host>, nat>)
    requires Consistent(sidecar.Listeners(), live)
    modifies sidecar.Listeners()`hosts, live.Keys
    ensures sidecar.Valid()
    ensures forall e :: e in sidecar.Listeners() ==>
              e.hosts.View() == MiddlewarePass(old(e.hosts.View()), spec.middleware)
  {
    if |spec.middleware| != 0 {
      var hostList := MiddlewareHostList(spec.middleware);
      ghost var listeners: set<EgressListener> := sidecar.Listeners();
      ghost var was: map<EgressListener, seq<Host>> := map e | e in listeners :: e.hosts.View();
      AddToListeners(sidecar.egress, listeners, live, was, hostList);
    }
  }

  // ----- the update path, from stored Sidecar to stored Sidecar -----

  /** The in-memory copy a client reads. */
  method Decode(stored: SidecarSpec) returns (sidecar: Sidecar)
    ensures fresh(sidecar) && sidecar.selector == stored.selector && |sidecar.egress| == |stored.egress|
    ensures forall i :: 0 <= i < |sidecar.egress| ==>
              fresh(sidecar.egress[i]) && sidecar.egress[i].port == stored.egress[i].port
  {
    var egress: seq<EgressListener> := [];
    for i := 0 to |stored.egress|
      invariant |egress| == i
      invariant forall j :: 0 <= j < i ==> fresh(egress[j]) && egress[j].port == stored.egress[j].port
    {
      var hosts := Make(0);
      hosts := Append(hosts, stored.egress[i].hosts);
      var listener := new EgressListener(stored.egress[i].port, hosts);
      egress := egress + [listener];
    }
    sidecar := new Sidecar(stored.selector, egress);
  }

  method Encode(sidecar: Sidecar) returns (stored: SidecarSpec)
    requires sidecar.Valid()
    ensures stored.selector == sidecar.selector && |stored.egress| == |sidecar.egress|
    ensures forall i :: 0 <= i < |stored.egress| ==>
              stored.egress[i] == Listener(sidecar.egress[i].port, sidecar.egress[i].hosts.View())
  {
    var egress: seq<Listener> := [];
    for i := 0 to |sidecar.egress|
      invariant |egress| == i
      invariant forall j :: 0 <= j < i ==>
                  egress[j] == Listener(sidecar.egress[j].port, sidecar.egress[j].hosts.View())
    {
      assert sidecar.egress[i] in sidecar.Listeners();
      var e := sidecar.egress[i];
      egress := egress + [Listener(e.port, e.hosts.buf[..e.hosts.length])];
    }
    stored := SidecarSpec(sidecar.selector, egress);
  }

  /** Lines 36-37 of `ReconcileSidecar`, the two host passes: whatever the
      listeners showed, shared or not, each ends with exactly the desired list. */
  method SyncHosts(spec: LazySpec, sidecar: Sidecar)
    modifies sidecar`egress, sidecar.egress`hosts
    ensures sidecar.Valid()
    ensures if old(sidecar.egress) == [] then |sidecar.egress| == 1 && sidecar.egress[0].port == None
            else sidecar.egress == old(sidecar.egress)
    ensures forall e :: e in sidecar.Listeners() ==> e.hosts.View() == Desired(spec.egressHosts, spec.middleware)
  {
    SyncEgressHosts(spec, sidecar);
    ghost var shared: Slice :| shared.Valid() && fresh(shared.buf) && shared.View() == EgressPass(spec.egressHosts)
      && forall i :: 0 <= i < |sidecar.egress| ==> sidecar.egress[i].hosts == shared;
    UpdateAgrees(spec.egressHosts, spec.middleware);
    assert forall e :: e in sidecar.Listeners() ==> e.hosts == shared;
    SyncMiddleware(spec, sidecar, map[shared.buf := shared.length]);
  }

  /** The whole update path. */
  method SyncSidecar(spec: LazySpec, stored: SidecarSpec) returns (updated: SidecarSpec)
    requires !SelectorPanics(spec, stored)
    ensures updated == Synced(spec, stored)
    ensures updated.selector == if spec.selector == map[] then None else Some(spec.selector)
    ensures |updated.egress| == if stored.egress == [] then 1 else |stored.egress|
    ensures forall i :: 0 <= i < |stored.egress| ==> updated.egress[i].port == stored.egress[i].port
    ensures forall i :: 0 <= i < |updated.egress| ==>
              updated.egress[i].hosts == Dedupe(spec.egressHosts + [DEFAULT_HOST] + MiddlewareHosts(spec.middleware))
  {
    var sidecar := Decode(stored);
    SyncWorkloadSelector(spec, sidecar);
    SyncHosts(spec, sidecar);
    updated := Encode(sidecar);
    ghost var synced := Synced(spec, stored);
    forall i | 0 <= i < |updated.egress| ensures updated.egress[i] == synced.egress[i] {
      assert sidecar.egress[i] in sidecar.Listeners();
    }
    assert updated.egress == synced.egress;
    DesiredExactly(spec.egressHosts, spec.middleware, MiddlewareHosts(spec.middleware));
  }

  // ----- the create path -----

  /** `constructSidecarForLazySidecar`. */
  method ConstructSidecar(spec: LazySpec) returns (created: SidecarSpec)
    ensures created == Created(spec)
    ensures created.selector == if spec.selector == map[] then None else Some(spec.selector)
    ensures |created.egress| == 1 && created.egress[0].port == None
    ensures forall h :: h in created.egress[0].hosts
                   <==> || h == DEFAULT_HOST || h in MiddlewareHosts(spec.middleware)
                        || (h in spec.egressHosts && !EqualFold(DEFAULT_HOST, TrimSpace(h)))
  {
    var selector: Option<map<string, string>> := None;
    if |spec.selector| != 0 {
      selector := Some(spec.selector);
    }
    var hostList := [DEFAULT_HOST];
    for i := 0 to |spec.egressHosts|
      invariant hostList == [DEFAULT_HOST] + NotDefault(spec.egressHosts[..i])
    {
      var host := spec.egressHosts[i];
      assert spec.egressHosts[..i + 1][..i] == spec.egressHosts[..i];
      if !EqualFold(DEFAULT_HOST, TrimSpace(host)) {
        hostList := hostList + [host];
      }
    }
    assert spec.egressHosts[..|spec.egressHosts|] == spec.egressHosts;
    ghost var stored := hostList;
    for i := 0 to |spec.middleware|
      invariant hostList == stored + MiddlewareHosts(spec.middleware[..i])
    {
      hostList := hostList + [MiddlewareHost(spec.middleware[i])];
    }
    assert spec.middleware[..|spec.middleware|] == spec.middleware;
    created := SidecarSpec(selector, [Listener(None, hostList)]);
    forall h ensures h in NotDefault(spec.egressHosts) <==> h in spec.egressHosts && !DefaultVariant(h) {
      NotDefaultContains(spec.egressHosts, h);
    }
  }
}
