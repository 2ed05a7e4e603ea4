/** What the derived Sidecar should hold. `Desired` is the one specification;
    the create path, the two sync passes of the update path and the incremental
    delete path are compared with it. */
module Projection {
  import opened GoStrings
  import opened HostLists
  import opened Types

  const FQDN_SUFFIX := ".svc.cluster.local"

  // ----- qualified hosts -----

  function Qualified(namespace: string, host: string): Host
  {
    namespace + "/" + host
  }

  function Qualify(namespace: string, hosts: seq<string>): (r: seq<Host>)
    ensures |r| == |hosts| && forall i :: 0 <= i < |hosts| ==> r[i] == Qualified(namespace, hosts[i])
  {
    seq(|hosts|, i requires 0 <= i < |hosts| => Qualified(namespace, hosts[i]))
  }

  /** A namespace holds no slash, so a qualified host tells which namespace and
      which host it came from. */
  lemma QualifiedInjective(n1: string, h1: string, n2: string, h2: string)
    requires '/' !in n1 && '/' !in n2
    requires Qualified(n1, h1) == Qualified(n2, h2)
    ensures n1 == n2 && h1 == h2
  {
    var q := Qualified(n1, h1);
    assert q[|n1|] == '/' && q[|n2|] == '/';
    assert q[..|n1|] == n1 && q[..|n2|] == n2;
    assert forall k :: 0 <= k < |n1| ==> q[k] == n1[k];
    assert forall k :: 0 <= k < |n2| ==> q[k] == n2[k];
    assert q[|n1| + 1..] == h1 && q[|n2| + 1..] == h2;
  }

  /** DEFAULT_HOST is the qualified host of exactly one declaration: the host
      "*" of a ServiceEntry in istio-system. */
  lemma DefaultHostQualified(namespace: string, hosts: seq<string>)
    requires '/' !in namespace
    ensures DEFAULT_HOST in Qualify(namespace, hosts) <==> namespace == ROOT_NS && "*" in hosts
  {
    assert DEFAULT_HOST == Qualified(ROOT_NS, "*");
    forall i | 0 <= i < |hosts| && Qualified(namespace, hosts[i]) == DEFAULT_HOST
      ensures namespace == ROOT_NS && hosts[i] == "*"
    {
      QualifiedInjective(namespace, hosts[i], ROOT_NS, "*");
    }
    if namespace == ROOT_NS && "*" in hosts {
      var i :| 0 <= i < |hosts| && hosts[i] == "*";
      assert Qualify(namespace, hosts)[i] == DEFAULT_HOST;
    }
  }

  /** The qualified hosts of all ServiceEntries, in listing order. */
  function AllHosts(entries: seq<ServiceEntry>): seq<Host>
  {
    if entries == [] then []
    else
      var last := entries[|entries| - 1];
      AllHosts(entries[..|entries| - 1]) + Qualify(last.key.namespace, last.hosts)
  }

  /** Entry after entry, and within each in its own order. */
  lemma {:induction false} AllHostsInOrder(es: seq<ServiceEntry>, fs: seq<ServiceEntry>)
    ensures AllHosts(es + fs) == AllHosts(es) + AllHosts(fs)
  {
    if fs == [] {
      assert es + fs == es;
    } else {
      var front, last := fs[..|fs| - 1], fs[|fs| - 1];
      assert (es + fs)[..|es + fs| - 1] == es + front && (es + fs)[|es + fs| - 1] == last;
      AllHostsInOrder(es, front);
      assert AllHosts(es + fs) == AllHosts(es + front) + Qualify(last.key.namespace, last.hosts);
    }
  }

  lemma AllHostsOfOne(e: ServiceEntry)
    ensures |AllHosts([e])| == |e.hosts|
    ensures forall i :: 0 <= i < |e.hosts| ==> AllHosts([e])[i] == e.key.namespace + "/" + e.hosts[i]
  {
    assert [e][..0] == [];
    assert AllHosts([e]) == Qualify(e.key.namespace, e.hosts);
  }

  predicate Declares(entry: ServiceEntry, h: Host)
  {
    h in Qualify(entry.key.namespace, entry.hosts)
  }

  lemma {:induction false} AllHostsContains(entries: seq<ServiceEntry>, h: Host)
    ensures h in AllHosts(entries) <==> exists e :: e in entries && Declares(e, h)
  {
    if entries != [] {
      var front, last := entries[..|entries| - 1], entries[|entries| - 1];
      AllHostsContains(front, h);
      assert entries == front + [last];
      assert forall e :: e in entries <==> e in front || e == last;
      assert h in AllHosts(entries) <==> h in AllHosts(front) || Declares(last, h);
    }
  }

  // ----- middleware -----

  function MiddlewareHost(m: Middleware): Host
  {
    m.namespace + "/" + m.serviceName + "." + m.namespace + FQDN_SUFFIX
  }

  function MiddlewareHosts(middleware: seq<Middleware>): (r: seq<Host>)
    ensures |r| == |middleware| && forall i :: 0 <= i < |r| ==> r[i] == MiddlewareHost(middleware[i])
  {
    seq(|middleware|, i requires 0 <= i < |middleware| => MiddlewareHost(middleware[i]))
  }

  // ----- the specification -----

  /** The hosts every listener shows whatever is stored. */
  function Fixed(middleware: seq<Middleware>): seq<Host>
  {
    [DEFAULT_HOST] + MiddlewareHosts(middleware)
  }

  function Desired(egressHosts: seq<Host>, middleware: seq<Middleware>): seq<Host>
  {
    Dedupe(egressHosts + Fixed(middleware))
  }

  lemma DesiredHolds(egressHosts: seq<Host>, middleware: seq<Middleware>)
    ensures NoDuplicates(Desired(egressHosts, middleware))
    ensures forall h :: h in Desired(egressHosts, middleware)
                   <==> h in egressHosts || h == DEFAULT_HOST || h in MiddlewareHosts(middleware)
  {
    DedupeKeepsFirst(egressHosts + Fixed(middleware));
    assert DEFAULT_HOST == Fixed(middleware)[0];
  }

  /** The middleware hosts, spelled out. */
  ghost predicate NamesMiddleware(hosts: seq<Host>, middleware: seq<Middleware>)
  {
    && |hosts| == |middleware|
    && forall i :: 0 <= i < |hosts| ==>
         hosts[i] == middleware[i].namespace + "/" + middleware[i].serviceName + "." + middleware[i].namespace + ".svc.cluster.local"
  }

  /** The desired list, spelled out. */
  lemma DesiredExactly(egressHosts: seq<Host>, middleware: seq<Middleware>, hosts: seq<Host>)
    requires NamesMiddleware(hosts, middleware)
    ensures Desired(egressHosts, middleware) == Dedupe(egressHosts + ["istio-system/*"] + hosts)
  {
    assert hosts == MiddlewareHosts(middleware);
    assert egressHosts + ["istio-system/*"] + hosts == egressHosts + Fixed(middleware);
  }

  // ----- update path -----

  /** The host list `syncEgressHostsToSidecar` puts into every listener. */
  function EgressPass(egressHosts: seq<Host>): seq<Host>
  {
    if egressHosts == [] then [DEFAULT_HOST] else Dedupe(egressHosts + [DEFAULT_HOST])
  }

  /** What `syncMiddlewareServiceToSidecar` makes of one listener's list. */
  function MiddlewarePass(hosts: seq<Host>, middleware: seq<Middleware>): seq<Host>
  {
    if middleware == [] then hosts else Dedupe(hosts + MiddlewareHosts(middleware))
  }

  /** Both passes, each with its special case for an empty input, compute `Desired`. */
  lemma UpdateAgrees(egressHosts: seq<Host>, middleware: seq<Middleware>)
    ensures MiddlewarePass(EgressPass(egressHosts), middleware) == Desired(egressHosts, middleware)
    ensures MiddlewarePass(Desired(egressHosts, middleware), middleware) == Desired(egressHosts, middleware)
  {
    var base := egressHosts + [DEFAULT_HOST];
    assert EgressPass(egressHosts) == Dedupe(base) by {
      if egressHosts == [] {
        assert base == [DEFAULT_HOST];
        DedupeNoDuplicates(base);
      }
    }
    DedupeTwice(base, MiddlewareHosts(middleware));
    assert base + [] == base;
    assert base + MiddlewareHosts(middleware) == egressHosts + Fixed(middleware);
    DedupeOnce(base, MiddlewareHosts(middleware));
  }

  function SyncedListeners(spec: LazySpec, egress: seq<Listener>): (r: seq<Listener>)
    ensures |r| == |egress|
    ensures forall i :: 0 <= i < |r| ==> r[i] == Listener(egress[i].port, Desired(spec.egressHosts, spec.middleware))
  {
    seq(|egress|, i requires 0 <= i < |egress| =>
      Listener(egress[i].port, Desired(spec.egressHosts, spec.middleware)))
  }

  function SelectorOf(spec: LazySpec): Option<map<string, string>>
  {
    if |spec.selector| == 0 then None else Some(spec.selector)
  }

  /** `syncWorkloadSelectorToSidecar` writes through the Sidecar's selector
      pointer: with labels to copy and no selector to copy them into, it panics. */
  predicate SelectorPanics(spec: LazySpec, sidecar: SidecarSpec)
  {
    SelectorOf(spec).Some? && sidecar.selector.None?
  }

  function Synced(spec: LazySpec, sidecar: SidecarSpec): SidecarSpec
  {
    SidecarSpec(SelectorOf(spec),
                SyncedListeners(spec, if sidecar.egress == [] then [Listener(None, [])] else sidecar.egress))
  }

  /** What the update path leaves: the labels of the LazySidecar or no selector,
      as many listeners as there were, or one, each with its port and exactly the
      desired hosts. */
  lemma SyncedExactly(spec: LazySpec, sidecar: SidecarSpec, hosts: seq<Host>)
    requires NamesMiddleware(hosts, spec.middleware)
    ensures var s := Synced(spec, sidecar);
            && (spec.selector == map[] ==> s.selector == None)
            && (spec.selector != map[] ==> s.selector == Some(spec.selector))
            && |s.egress| == (if sidecar.egress == [] then 1 else |sidecar.egress|)
            && forall i :: 0 <= i < |s.egress| ==>
                 && s.egress[i].port == (if sidecar.egress == [] then None else sidecar.egress[i].port)
                 && s.egress[i].hosts == Dedupe(spec.egressHosts + ["istio-system/*"] + hosts)
  {
    DesiredExactly(spec.egressHosts, spec.middleware, hosts);
  }

  // ----- create path -----

  /** A host the create path takes for DEFAULT_HOST and drops. */
  predicate DefaultVariant(h: Host)
  {
    EqualFold(DEFAULT_HOST, TrimSpace(h))
  }

  function NotDefault(hosts: seq<Host>): seq<Host>
  {
    if hosts == [] then []
    else
      var last := hosts[|hosts| - 1];
      NotDefault(hosts[..|hosts| - 1]) + (if DefaultVariant(last) then [] else [last])
  }

  lemma {:induction false} NotDefaultContains(hosts: seq<Host>, h: Host)
    ensures h in NotDefault(hosts) <==> h in hosts && !DefaultVariant(h)
  {
    if hosts != [] {
      NotDefaultContains(hosts[..|hosts| - 1], h);
      assert hosts == hosts[..|hosts| - 1] + [hosts[|hosts| - 1]];
    }
  }

  /** The host list of `constructSidecarForLazySidecar`. */
  function CreateHosts(egressHosts: seq<Host>, middleware: seq<Middleware>): seq<Host>
  {
    [DEFAULT_HOST] + NotDefault(egressHosts) + MiddlewareHosts(middleware)
  }

  function Created(spec: LazySpec): SidecarSpec
  {
    SidecarSpec(SelectorOf(spec), [Listener(None, CreateHosts(spec.egressHosts, spec.middleware))])
  }

  lemma {:induction false} TrimSpaceKeepsEnd(s: string)
    requires s != [] && !IsSpace(s[|s| - 1])
    ensures var t := TrimSpace(s); t != [] && t[|t| - 1] == s[|s| - 1]
  {
    if IsSpace(s[0]) {
      TrimSpaceKeepsEnd(s[1..]);
    }
  }

  /** A middleware host is never mistaken for DEFAULT_HOST. */
  lemma MiddlewareHostNotDefault(m: Middleware)
    ensures !DefaultVariant(MiddlewareHost(m))
  {
    var h := MiddlewareHost(m);
    assert h[|h| - 1] == FQDN_SUFFIX[|FQDN_SUFFIX| - 1] == 'l';
    TrimSpaceKeepsEnd(h);
    var t := TrimSpace(h);
    assert Fold(t)[|t| - 1] == 'l';
    assert Fold(DEFAULT_HOST)[|DEFAULT_HOST| - 1] == '*';
  }

  lemma DefaultIsDefault()
    ensures DefaultVariant(DEFAULT_HOST)
  {
  }

  lemma {:induction false} TrimSpaceLeftAround(l: string, v: string)
    requires AllSpace(l) && v != "" && !IsSpace(v[0])
    ensures TrimSpaceLeft(l + v) == v
  {
    if l == "" {
      assert l + v == v;
    } else {
      assert (l + v)[1..] == l[1..] + v;
      TrimSpaceLeftAround(l[1..], v);
    }
  }

  lemma {:induction false} TrimSpaceRightAround(v: string, r: string)
    requires AllSpace(r) && v != "" && !IsSpace(v[|v| - 1])
    ensures TrimSpaceRight(v + r) == v
  {
    if r == "" {
      assert v + r == v;
    } else {
      assert (v + r)[..|v + r| - 1] == v + r[..|r| - 1];
      TrimSpaceRightAround(v, r[..|r| - 1]);
    }
  }

  /** The variants of DEFAULT_HOST: white space around a string that differs from
      it by case only. */
  lemma DefaultVariantExactly(h: Host)
    ensures DefaultVariant(h) <==> exists l, v, r :: VariantParts(h, l, v, r)
  {
    if DefaultVariant(h) {
      var l, r := TrimSpaceExactly(h);
      assert VariantParts(h, l, TrimSpace(h), r);
    }
    if l, v, r :| VariantParts(h, l, v, r) {
      assert Fold(v)[0] == FoldChar(v[0]) == 'i' && Fold(v)[13] == FoldChar(v[13]) == '*';
      assert h == l + (v + r);
      TrimSpaceLeftAround(l, v + r);
      TrimSpaceRightAround(v, r);
    }
  }

  ghost predicate VariantParts(h: Host, l: string, v: string, r: string)
  {
    h == l + v + r && AllSpace(l) && AllSpace(r) && |v| == 14 && Fold(v) == Fold("istio-system/*")
  }

  /** The created list holds exactly the desired hosts, less the case and white
      space variants of DEFAULT_HOST. */
  lemma CreateAgrees(egressHosts: seq<Host>, middleware: seq<Middleware>, h: Host)
    ensures h in CreateHosts(egressHosts, middleware)
       <==> h in Desired(egressHosts, middleware) && (DefaultVariant(h) ==> h == DEFAULT_HOST)
  {
    NotDefaultContains(egressHosts, h);
    DesiredHolds(egressHosts, middleware);
    forall m | m in middleware ensures !DefaultVariant(MiddlewareHost(m)) {
      MiddlewareHostNotDefault(m);
    }
    DefaultIsDefault();
  }

  /** The two paths give the same set exactly when no variant is stored. */
  lemma CreateAgreesExactly(egressHosts: seq<Host>, middleware: seq<Middleware>)
    ensures (forall h :: h in CreateHosts(egressHosts, middleware) <==> h in Desired(egressHosts, middleware))
       <==> (forall h :: h in egressHosts && DefaultVariant(h) ==> h == DEFAULT_HOST)
  {
    DesiredHolds(egressHosts, middleware);
    forall h ensures h in CreateHosts(egressHosts, middleware)
                <==> h in Desired(egressHosts, middleware) && (DefaultVariant(h) ==> h == DEFAULT_HOST)
    {
      CreateAgrees(egressHosts, middleware, h);
    }
    forall m | m in middleware ensures !DefaultVariant(MiddlewareHost(m)) {
      MiddlewareHostNotDefault(m);
    }
  }

  lemma {:induction false} NotDefaultIsWithout(hosts: seq<Host>) returns (variants: seq<Host>)
    ensures NotDefault(hosts) == Without(hosts, variants)
    ensures forall h :: h in variants <==> h in hosts && DefaultVariant(h)
  {
    if hosts == [] {
      variants := [];
    } else {
      var front, last := hosts[..|hosts| - 1], hosts[|hosts| - 1];
      var before := NotDefaultIsWithout(front);
      assert forall h :: h in hosts <==> h in front || h == last;
      variants := before + if DefaultVariant(last) then [last] else [];
      WithoutSameSet(front, before, variants);
    }
  }

  /** What the create path leaves: the labels of the LazySidecar or no selector, and
      one listener without a port. It shows DEFAULT_HOST, the stored hosts at the
      positions `at`, which are those that are no variant of it, in order, and the
      middleware hosts. */
  lemma CreatedExactly(spec: LazySpec, hosts: seq<Host>) returns (at: seq<nat>)
    requires NamesMiddleware(hosts, spec.middleware)
    ensures forall k :: 0 <= k < |spec.egressHosts| ==> (k in at <==> !DefaultVariant(spec.egressHosts[k]))
    ensures var s := Created(spec);
            && (spec.selector == map[] ==> s.selector == None)
            && (spec.selector != map[] ==> s.selector == Some(spec.selector))
            && |s.egress| == 1 && s.egress[0].port == None
            && |s.egress[0].hosts| == 1 + |at| + |hosts|
            && s.egress[0].hosts[0] == "istio-system/*"
            && TakenFrom(s.egress[0].hosts[1..1 + |at|], spec.egressHosts, at)
            && s.egress[0].hosts[1 + |at|..] == hosts
  {
    var variants := NotDefaultIsWithout(spec.egressHosts);
    at := WithoutKeepsOrder(spec.egressHosts, variants);
    assert Created(spec).egress[0].hosts[1..1 + |at|] == NotDefault(spec.egressHosts);
    assert hosts == MiddlewareHosts(spec.middleware);
  }

  // ----- incremental delete -----

  /** What `RemoveDeriveSidecarHosts` leaves of a Sidecar: only the first
      listener is edited. It indexes that listener without looking. */
  function Dropped(sidecar: SidecarSpec, handled: seq<Host>): SidecarSpec
    requires sidecar.egress != []
  {
    var first := sidecar.egress[0];
    sidecar.(egress := sidecar.egress[0 := Listener(first.port, Without(first.hosts, handled))])
  }

  /** The removal touches nothing but the host list of the first listener, and
      takes nothing out of it but handled hosts. */
  lemma DroppedExactly(sidecar: SidecarSpec, handled: seq<Host>)
    requires sidecar.egress != []
    ensures var d := Dropped(sidecar, handled);
            && d.selector == sidecar.selector && |d.egress| == |sidecar.egress|
            && d.egress[0].port == sidecar.egress[0].port
            && d.egress[1..] == sidecar.egress[1..]
            && forall h :: multiset(d.egress[0].hosts)[h] == if h in handled then 0 else multiset(sidecar.egress[0].hosts)[h]
  {
    forall h { WithoutCounts(sidecar.egress[0].hosts, handled, h); }
  }

  /** Deleting from the projected list equals projecting the list with the hosts
      deleted, as sequences, exactly when nothing handled is DEFAULT_HOST or a
      middleware host. */
  lemma DeleteAgrees(egressHosts: seq<Host>, middleware: seq<Middleware>, handled: seq<Host>)
    ensures Without(Desired(egressHosts, middleware), handled) == Desired(Without(egressHosts, handled), middleware)
       <==> forall h :: h in Fixed(middleware) ==> h !in handled
  {
    var fixed := Fixed(middleware);
    if forall h :: h in fixed ==> h !in handled {
      DedupeWithout(egressHosts + fixed, handled);
      WithoutConcat(egressHosts, fixed, handled);
      WithoutNothing(fixed, handled);
    } else {
      var h :| h in fixed && h in handled;
      WithoutCounts(Desired(egressHosts, middleware), handled, h);
      DedupeKeepsFirst(Without(egressHosts, handled) + fixed);
    }
  }
}
