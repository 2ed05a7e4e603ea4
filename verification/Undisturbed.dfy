/** What the writers of the interleaved cluster do when nothing comes in between:
    a handler and a pass are then those of Store and ReconcilePass, which the
    methods of Controller are proved to compute. So after any interleaving two
    undisturbed passes make everything agree. */
module Undisturbed {
  import opened ClusterRuns
  import opened ClusterSafety
  import Coverage
  import opened HostLists
  import opened Interleaving
  import opened Projection
  import opened ReconcilePass
  import opened SidecarSafety
  import opened Store
  import opened Types

  // ----- handlers -----

  /** A handler finishes the item it is at. */
  ghost function FinishItem(w: World, writer: nat): World
  {
    NextWorld(NextWorld(NextWorld(w, WriteItem(writer, true)), ReadDerived(writer, true)), WriteDerived(writer, true))
  }

  ghost function FinishItems(w: World, writer: nat, count: nat): World
  {
    if count == 0 then w else FinishItem(FinishItems(w, writer, count - 1), writer)
  }

  /** What the handler makes of one item. */
  ghost function ItemEffect(c: Cluster, item: Item, job: Job): Cluster
  {
    var written := WriteBack(c, item, ScopeOf(job), OpOf(job));
    if job.RemoveHosts? then DropFrom(written, Derived(item.name), Qualify(job.namespace, job.hosts)) else written
  }

  lemma CommitDerivedCluster(w: World, n: NamespacedName, draft: SidecarDraft)
    requires draft.version.Some?
    ensures CommitDerived(w, n, draft).cluster
         == UpdateSidecar(w.cluster, Derived(n), draft.version.value, draft.content.sidecar)
  {
    var k := Derived(n);
    var after := UpdateSidecar(w.cluster, k, draft.version.value, draft.content.sidecar);
    if SidecarAt(after, k) == SidecarAt(w.cluster, k) {
      assert after.sidecars == w.cluster.sidecars;
    }
  }

  lemma FinishDropFound(w: World, writer: nat, h: Handler, n: NamespacedName)
    requires w.crashed.None? && Busy(w, writer) && w.handlers[writer] == h && h.items[h.next].name == n
    requires h.stage.AtSidecar? && h.job.RemoveHosts?
    requires Derived(n) in w.cluster.sidecars && w.cluster.sidecars[Derived(n)].value.egress != []
    ensures var after := NextWorld(NextWorld(w, ReadDerived(writer, true)), WriteDerived(writer, true));
            && after.crashed.None? && after.handlers == w.handlers[writer := NextItem(h)]
            && after.cluster == DropFrom(w.cluster, Derived(n), Qualify(h.job.namespace, h.job.hosts))
  {
    var k := Derived(n);
    var draft := Held(w.cluster.sidecars[k], Qualify(h.job.namespace, h.job.hosts), Source(SidecarLogOf(w, k)));
    var holding := SetHandler(w, writer, h.(stage := Holding(draft)));
    assert NextWorld(w, ReadDerived(writer, true)) == holding;
    CommitDerivedCluster(holding, n, draft);
    assert holding.handlers[writer := NextItem(h)] == w.handlers[writer := NextItem(h)];
  }

  lemma FinishDrop(w: World, writer: nat, h: Handler, n: NamespacedName)
    requires w.crashed.None? && Busy(w, writer) && w.handlers[writer] == h && h.items[h.next].name == n
    requires h.stage.AtSidecar? && h.job.RemoveHosts? && Indexable(w.cluster, {n})
    ensures var after := NextWorld(NextWorld(w, ReadDerived(writer, true)), WriteDerived(writer, true));
            && after.crashed.None? && after.handlers == w.handlers[writer := NextItem(h)]
            && after.cluster == DropFrom(w.cluster, Derived(n), Qualify(h.job.namespace, h.job.hosts))
  {
    if Derived(n) in w.cluster.sidecars {
      FinishDropFound(w, writer, h, n);
    }
  }

  lemma FinishItemEffect(w: World, writer: nat)
    requires w.crashed.None? && Busy(w, writer) && w.handlers[writer].stage.AtObject?
    requires Indexable(w.cluster, {w.handlers[writer].items[w.handlers[writer].next].name})
    ensures var h, after := w.handlers[writer], FinishItem(w, writer);
            && after.crashed.None? && after.handlers == w.handlers[writer := NextItem(h)]
            && after.cluster == ItemEffect(w.cluster, h.items[h.next], h.job)
  {
    var h := w.handlers[writer];
    var written := NextWorld(w, WriteItem(writer, true));
    assert written.cluster == WriteBack(w.cluster, h.items[h.next], ScopeOf(h.job), OpOf(h.job));
    assert written.handlers == w.handlers[writer := AfterWrite(h)];
    if h.job.RemoveHosts? {
      FinishDrop(written, writer, AfterWrite(h), h.items[h.next].name);
    }
  }

  /** What the handler makes of its list response, in the words of Store. */
  ghost function HandlerEffect(c: Cluster, items: seq<Item>, job: Job): Cluster
  {
    match job
    case AddHosts(namespace, hosts) => WriteAll(c, items, All, Add(Qualify(namespace, hosts)))
    case RemoveHosts(namespace, hosts) => RemoveAll(c, items, Qualify(namespace, hosts))
    case ReportHost(workload, host) => WriteAll(c, items, Matching(workload), Append(host))
  }

  lemma EffectSnoc(c: Cluster, items: seq<Item>, job: Job, k: nat)
    requires k < |items|
    ensures HandlerEffect(c, items[..k + 1], job) == ItemEffect(HandlerEffect(c, items[..k], job), items[k], job)
  {
    assert items[..k + 1][..k] == items[..k];
  }

  lemma EffectIndexable(c: Cluster, item: Item, job: Job, names: set<NamespacedName>)
    requires Indexable(c, names)
    ensures Indexable(ItemEffect(c, item, job), names)
  {
  }

  /** The handler has done the first `k` items. */
  ghost predicate HasDone(w: World, after: World, writer: nat, h: Handler, k: nat)
    requires k <= |h.items|
  {
    && after.crashed.None? && writer in after.handlers && after.handlers[writer] == h.(next := k)
    && after.cluster == HandlerEffect(w.cluster, h.items[..k], h.job)
    && Indexable(after.cluster, ItemNames(h.items))
  }

  lemma NothingDone(w: World, writer: nat, h: Handler)
    requires w.crashed.None? && writer in w.handlers && w.handlers[writer] == h && h.next == 0
    requires Indexable(w.cluster, ItemNames(h.items))
    ensures HasDone(w, w, writer, h, 0)
  {
    assert h.items[..0] == [];
  }

  lemma DoesNext(w: World, before: World, writer: nat, h: Handler, k: nat)
    requires k < |h.items| && h.stage.AtObject? && HasDone(w, before, writer, h, k)
    ensures HasDone(w, FinishItem(before, writer), writer, h, k + 1)
  {
    assert h.items[k].name in ItemNames(h.items);
    FinishItemEffect(before, writer);
    EffectSnoc(w.cluster, h.items, h.job, k);
    EffectIndexable(before.cluster, h.items[k], h.job, ItemNames(h.items));
  }

  lemma {:induction false} FinishItemsEffect(w: World, writer: nat, h: Handler, k: nat)
    requires w.crashed.None? && writer in w.handlers && w.handlers[writer] == h && h.next == 0 && h.stage.AtObject?
    requires k <= |h.items| && Indexable(w.cluster, ItemNames(h.items))
    ensures HasDone(w, FinishItems(w, writer, k), writer, h, k)
  {
    if k == 0 {
      NothingDone(w, writer, h);
    } else {
      FinishItemsEffect(w, writer, h, k - 1);
      DoesNext(w, FinishItems(w, writer, k - 1), writer, h, k - 1);
    }
  }

  lemma ResponseIndexable(es: seq<Action>, items: seq<Item>)
    requires ListResponse(RunWorld(es), items)
    ensures Indexable(RunWorld(es).cluster, ItemNames(items))
  {
    AlwaysIndexable(es);
    forall n | n in ItemNames(items) ensures n in RunWorld(es).cluster.lazy {
      var i :| 0 <= i < |items| && items[i].name == n;
      assert FromLog(RunWorld(es), items[i]);
    }
  }

  lemma FinishHandler(w: World, writer: nat, job: Job, items: seq<Item>)
    requires w.crashed.None? && writer !in w.handlers && ListResponse(w, items) && Indexable(w.cluster, ItemNames(items))
    ensures var end := FinishItems(NextWorld(w, StartHandler(writer, job, items)), writer, |items|);
            end.crashed.None? && end.cluster == HandlerEffect(w.cluster, items, job)
  {
    assert items[..|items|] == items;
    FinishItemsEffect(NextWorld(w, StartHandler(writer, job, items)), writer, Handler(job, items, 0, AtObject), |items|);
  }

  /** After any interleaving: a handler that runs from its list response to its end
      with nothing in between does what the loops of the controller do, for any
      response, be it out of date ... */
  lemma UndisturbedHandler(es: seq<Action>, writer: nat, job: Job, items: seq<Item>)
    requires RunWorld(es).crashed.None? && writer !in RunWorld(es).handlers && ListResponse(RunWorld(es), items)
    ensures var w := RunWorld(es);
            var end := FinishItems(NextWorld(w, StartHandler(writer, job, items)), writer, |items|);
            end.crashed.None? && end.cluster == HandlerEffect(w.cluster, items, job)
  {
    ResponseIndexable(es, items);
    FinishHandler(RunWorld(es), writer, job, items);
  }

  /** ... and with an up-to-date response every LazySidecar gains the hosts, loses
      them together with its Sidecar, or gains the reported host if it matches. */
  lemma UndisturbedFreshHandler(es: seq<Action>, writer: nat, job: Job, items: seq<Item>)
    requires RunWorld(es).crashed.None? && writer !in RunWorld(es).handlers && ListResponse(RunWorld(es), items)
    requires FreshItems(RunWorld(es).cluster, items) && ItemNames(items) == RunWorld(es).cluster.lazy.Keys
    ensures var w := RunWorld(es);
            var end := FinishItems(NextWorld(w, StartHandler(writer, job, items)), writer, |items|);
            && end.crashed.None?
            && end.cluster == match job
                              case AddHosts(namespace, hosts) => RewriteEvery(w.cluster, All, Add(Qualify(namespace, hosts)))
                              case RemoveHosts(namespace, hosts) => RemoveEvery(w.cluster, Qualify(namespace, hosts))
                              case ReportHost(workload, host) => RewriteEvery(w.cluster, Matching(workload), Append(host))
  {
    var c := RunWorld(es).cluster;
    UndisturbedHandler(es, writer, job, items);
    if job.RemoveHosts? {
      RemoveAllIsRemoveEvery(c, items, Qualify(job.namespace, job.hosts));
    } else {
      WriteAllIsRewriteEvery(c, items, ScopeOf(job), OpOf(job));
    }
  }

  // ----- passes -----

  /** A pass over version `v` of its object; the status step gets version `shown`
      of the Sidecar from the cache. */
  ghost function FinishPass(w: World, n: NamespacedName, v: nat, shown: nat, now: nat): World
  {
    var w1 := NextWorld(w, BeginPass(n, v));
    var w2 := NextWorld(w1, ProjectInPass(n, true));
    var w3 := NextWorld(w2, WriteSidecarInPass(n, true));
    var w4 := NextWorld(w3, WriteHostsInPass(n, w.cluster.entries, true));
    NextWorld(w4, WriteStatusInPass(n, shown, now, true))
  }

  lemma PassProjects(w: World, n: NamespacedName, p: Progress)
    requires w.crashed.None? && n in w.passes && w.passes[n] == p && p.phase == Started
    requires !SyncPanics(w.cluster, n, p.spec)
    ensures var after := NextWorld(NextWorld(w, ProjectInPass(n, true)), WriteSidecarInPass(n, true));
            && after.crashed.None? && after.passes == w.passes[n := p.(phase := Rewriting)]
            && after.cluster == SyncDerived(w.cluster, n, p.spec)
            && after.handlers == w.handlers
  {
    var k, found := Derived(n), SidecarAt(w.cluster, Derived(n));
    var draft := DraftOf(found, p);
    var w2 := SetPass(w, n, p.(phase := Projected(draft)));
    assert NextWorld(w, ProjectInPass(n, true)) == w2;
    if k in w.cluster.sidecars {
      CommitDerivedCluster(w2, n, draft);
    }
    assert w2.passes[n := p.(phase := Rewriting)] == w.passes[n := p.(phase := Rewriting)];
  }

  lemma PassWritesHosts(w: World, n: NamespacedName, p: Progress, entries: seq<ServiceEntry>)
    requires w.crashed.None? && n in w.passes && w.passes[n] == p && p.phase == Rewriting
    ensures var all := AllHosts(entries);
            var after := NextWorld(w, WriteHostsInPass(n, entries, true));
            && after.crashed.None? && n in after.passes
            && after.passes[n] == p.(version := InstanceVersion(w.cluster, n, p.version, p.spec, all), phase := Reporting)
            && after.cluster == RewriteHosts(w.cluster, n, p.version, p.spec, all)
  {
  }

  lemma PassWritesStatus(w: World, n: NamespacedName, shown: nat, now: nat)
    requires w.crashed.None? && PassAt(w, n, Reporting)
    ensures var after := NextWorld(w, WriteStatusInPass(n, shown, now, true));
            && after.crashed.None? && n !in after.passes
            && after.cluster == RewriteStatus(w.cluster, n, w.passes[n].version, Visit(Cached(after, n, shown), now))
  {
  }

  lemma FinishPassEffect(w: World, n: NamespacedName, v: nat, shown: nat, now: nat)
    requires w.crashed.None? && n in w.cluster.lazy && n !in w.passes
    requires SeenOf(w, n) <= v < |LogOf(w, n)| && !SyncPanics(w.cluster, n, LogOf(w, n)[v].stored.spec)
    ensures var after := FinishPass(w, n, v, shown, now);
            && after.crashed.None? && n !in after.passes
            && after.cluster == PassFrom(w.cluster, Item(n, Versioned(v, LogOf(w, n)[v].stored)),
                                        Visit(Cached(after, n, shown), now))
  {
    var p := Progress(v, LogOf(w, n)[v].stored.spec, Started);
    var w1 := NextWorld(w, BeginPass(n, v));
    assert w1.passes[n] == p && w1.cluster == w.cluster;
    PassProjects(w1, n, p);
    var w3 := NextWorld(NextWorld(w1, ProjectInPass(n, true)), WriteSidecarInPass(n, true));
    PassWritesHosts(w3, n, p.(phase := Rewriting), w.cluster.entries);
    var w4 := NextWorld(w3, WriteHostsInPass(n, w.cluster.entries, true));
    PassWritesStatus(w4, n, shown, now);
  }

  lemma RunWorldSnoc(es: seq<Action>, e: Action)
    ensures RunWorld(es + [e]) == NextWorld(RunWorld(es), e)
  {
    assert (es + [e])[..|es|] == es;
  }

  /** The actions of such a pass. */
  ghost function PassActions(w: World, n: NamespacedName, v: nat, shown: nat, now: nat): seq<Action>
  {
    [BeginPass(n, v)] + [ProjectInPass(n, true)] + [WriteSidecarInPass(n, true)]
    + [WriteHostsInPass(n, w.cluster.entries, true)] + [WriteStatusInPass(n, shown, now, true)]
  }

  lemma FinishPassRuns(es: seq<Action>, n: NamespacedName, v: nat, shown: nat, now: nat)
    ensures RunWorld(es + PassActions(RunWorld(es), n, v, shown, now)) == FinishPass(RunWorld(es), n, v, shown, now)
  {
    var e1, e2, e3 := BeginPass(n, v), ProjectInPass(n, true), WriteSidecarInPass(n, true);
    var e4, e5 := WriteHostsInPass(n, RunWorld(es).cluster.entries, true), WriteStatusInPass(n, shown, now, true);
    RunWorldSnoc(es, e1);
    RunWorldSnoc(es + [e1], e2);
    RunWorldSnoc(es + [e1] + [e2], e3);
    RunWorldSnoc(es + [e1] + [e2] + [e3], e4);
    RunWorldSnoc(es + [e1] + [e2] + [e3] + [e4], e5);
    assert es + PassActions(RunWorld(es), n, v, shown, now) == es + [e1] + [e2] + [e3] + [e4] + [e5];
  }

  /** After any interleaving, the steps of a pass with nothing in between are the
      pass that `Reconcile` computes, from any version that it may read and with
      whatever the cache shows of the Sidecar. */
  lemma UndisturbedPass(es: seq<Action>, n: NamespacedName, v: nat, shown: nat, now: nat)
    requires RunWorld(es).crashed.None? && n in RunWorld(es).cluster.lazy && n !in RunWorld(es).passes
    requires SeenOf(RunWorld(es), n) <= v < |LogOf(RunWorld(es), n)|
    requires !SyncPanics(RunWorld(es).cluster, n, LogOf(RunWorld(es), n)[v].stored.spec)
    ensures var w := RunWorld(es);
            var end := RunWorld(es + PassActions(w, n, v, shown, now));
            && end.crashed.None? && n !in end.passes
            && end.cluster == PassFrom(w.cluster, Item(n, Versioned(v, LogOf(w, n)[v].stored)),
                                      Visit(if shown < |SidecarLogOf(end, Derived(n))|
                                            then Some(SidecarLogOf(end, Derived(n))[shown].sidecar) else None, now))
  {
    FinishPassRuns(es, n, v, shown, now);
    FinishPassEffect(RunWorld(es), n, v, shown, now);
  }

  // ----- convergence -----

  /** The version of a LazySidecar that an up-to-date cache shows. */
  ghost function Newest(w: World, n: NamespacedName): nat
    requires n in w.cluster.lazy
  {
    w.cluster.lazy[n].version
  }

  /** In every reachable state, a pass over version `v` panics in the sequential
      model exactly when the selector came after the version that the Sidecar is
      from. */
  lemma SyncPanicsExactly(es: seq<Action>, n: NamespacedName, v: nat)
    requires n in RunWorld(es).cluster.lazy && SeenOf(RunWorld(es), n) <= v < |LogOf(RunWorld(es), n)|
    ensures var w := RunWorld(es);
            SyncPanics(w.cluster, n, LogOf(w, n)[v].stored.spec)
            <==> SelectorCameBetween(LogOf(w, n), SidecarLogOf(w, Derived(n)), v)
  {
    UnwritableInCluster(es, n, v);
  }

  lemma NewestIsStored(es: seq<Action>, n: NamespacedName)
    requires n in RunWorld(es).cluster.lazy
    ensures var w := RunWorld(es);
            && SeenOf(w, n) <= Newest(w, n) && |LogOf(w, n)| == Newest(w, n) + 1
            && Versioned(Newest(w, n), LogOf(w, n)[Newest(w, n)].stored) == w.cluster.lazy[n]
  {
    var c := ReachedCell(es, n);
  }

  /** The states of any interleaving from which the atomic runs of Coverage never
      panic: those in which no selector came after its Sidecar. */
  lemma SafeExactly(es: seq<Action>)
    ensures Coverage.Safe(RunWorld(es).cluster)
       <==> forall n :: n in RunWorld(es).cluster.lazy ==>
              !SelectorCameBetween(LogOf(RunWorld(es), n), SidecarLogOf(RunWorld(es), Derived(n)), Newest(RunWorld(es), n))
  {
    AlwaysIndexable(es);
    forall n | n in RunWorld(es).cluster.lazy
      ensures Coverage.SafeAt(RunWorld(es).cluster, n)
         <==> !SelectorCameBetween(LogOf(RunWorld(es), n), SidecarLogOf(RunWorld(es), Derived(n)), Newest(RunWorld(es), n))
    {
      NewestIsStored(es, n);
      SyncPanicsExactly(es, n, Newest(RunWorld(es), n));
    }
  }

  /** A pass that reads the newest version is `Pass`. */
  lemma UndisturbedNewestPass(es: seq<Action>, n: NamespacedName, shown: nat, now: nat)
    requires RunWorld(es).crashed.None? && n in RunWorld(es).cluster.lazy && n !in RunWorld(es).passes
    requires !PassPanics(RunWorld(es).cluster, n)
    ensures var w := RunWorld(es);
            var end := RunWorld(es + PassActions(w, n, Newest(w, n), shown, now));
            && end.crashed.None? && n !in end.passes
            && end.cluster == Pass(w.cluster, n, Visit(Cached(end, n, shown), now))
  {
    NewestIsStored(es, n);
    UndisturbedPass(es, n, Newest(RunWorld(es), n), shown, now);
  }

  ghost function AfterPass(es: seq<Action>, n: NamespacedName, shown: nat, now: nat): seq<Action>
    requires n in RunWorld(es).cluster.lazy
  {
    es + PassActions(RunWorld(es), n, Newest(RunWorld(es), n), shown, now)
  }

  lemma NewestShown(w: World, n: NamespacedName, c: Cell)
    requires Shows(w, n, c) && Recorded(c) && SidecarLogOf(w, Derived(n)) != []
    ensures Derived(n) in w.cluster.sidecars
    ensures Cached(w, n, |SidecarLogOf(w, Derived(n))| - 1) == Some(w.cluster.sidecars[Derived(n)].value)
  {
  }

  lemma NewestSidecar(es: seq<Action>, n: NamespacedName)
    requires n in RunWorld(es).cluster.lazy && SidecarLogOf(RunWorld(es), Derived(n)) != []
    ensures var w := RunWorld(es);
            && Derived(n) in w.cluster.sidecars
            && Cached(w, n, |SidecarLogOf(w, Derived(n))| - 1) == Some(w.cluster.sidecars[Derived(n)].value)
  {
    var c := ReachedCell(es, n);
    NewestShown(RunWorld(es), n, c);
  }

  ghost predicate EndsInAgreement(es: seq<Action>, n: NamespacedName, shown: nat)
  {
    var w := RunWorld(es);
    && w.crashed.None? && Settled(w.cluster, n)
    && (shown + 1 == |SidecarLogOf(w, Derived(n))| ==> Converged(w.cluster, n))
  }

  lemma TwoPassesAgree(es: seq<Action>, fs: seq<Action>, gs: seq<Action>, n: NamespacedName, v1: Visit, s2: nat, t2: nat)
    requires n in RunWorld(es).cluster.lazy && !PassPanics(RunWorld(es).cluster, n)
    requires RunWorld(fs).cluster == Pass(RunWorld(es).cluster, n, v1)
    requires RunWorld(gs).cluster == Pass(RunWorld(fs).cluster, n, Visit(Cached(RunWorld(gs), n, s2), t2))
    requires RunWorld(gs).crashed.None?
    ensures EndsInAgreement(gs, n, s2)
  {
    var v2 := Visit(Cached(RunWorld(gs), n, s2), t2);
    TwoPassesConverge(RunWorld(es).cluster, n, v1, v2);
    if s2 + 1 == |SidecarLogOf(RunWorld(gs), Derived(n))| {
      NewestSidecar(gs, n);
    }
  }

  /** One undisturbed pass after the run, and what is left for the next. */
  lemma FirstPassLeaves(es: seq<Action>, n: NamespacedName, shown: nat, now: nat) returns (visit: Visit)
    requires RunWorld(es).crashed.None? && n in RunWorld(es).cluster.lazy && n !in RunWorld(es).passes
    requires !PassPanics(RunWorld(es).cluster, n)
    ensures var w := RunWorld(AfterPass(es, n, shown, now));
            && w.crashed.None? && n in w.cluster.lazy && n !in w.passes && !PassPanics(w.cluster, n)
            && w.cluster == Pass(RunWorld(es).cluster, n, visit)
  {
    UndisturbedNewestPass(es, n, shown, now);
    visit := Visit(Cached(RunWorld(AfterPass(es, n, shown, now)), n, shown), now);
    TwoPassesConverge(RunWorld(es).cluster, n, visit, visit);
  }

  /** Whatever the interleaving was, and whatever handlers still have in memory:
      two undisturbed passes over the newest version settle stored hosts and
      Sidecar, if the first of them does not panic. The status agrees as well if
      the second one gets the newest Sidecar from the cache. */
  lemma ConvergesAfterAnyRun(es: seq<Action>, n: NamespacedName, s1: nat, t1: nat, s2: nat, t2: nat)
    requires RunWorld(es).crashed.None? && n in RunWorld(es).cluster.lazy && n !in RunWorld(es).passes
    requires !SelectorCameBetween(LogOf(RunWorld(es), n), SidecarLogOf(RunWorld(es), Derived(n)), Newest(RunWorld(es), n))
    ensures n in RunWorld(AfterPass(es, n, s1, t1)).cluster.lazy
    ensures EndsInAgreement(AfterPass(AfterPass(es, n, s1, t1), n, s2, t2), n, s2)
  {
    NewestIsStored(es, n);
    SyncPanicsExactly(es, n, Newest(RunWorld(es), n));
    var v1 := FirstPassLeaves(es, n, s1, t1);
    var fs := AfterPass(es, n, s1, t1);
    UndisturbedNewestPass(fs, n, s2, t2);
    TwoPassesAgree(es, fs, AfterPass(fs, n, s2, t2), n, v1, s2, t2);
  }
}
