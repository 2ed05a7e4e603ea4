/** What every run of the whole cluster keeps. Each of its objects goes through a
    run of Interleaving, so what is known of those holds for all of them. */
module ClusterSafety {
  import opened ClusterRuns
  import opened HostLists
  import opened Interleaving
  import opened Projection
  import opened ReconcilePass
  import opened SidecarSafety
  import opened Store
  import opened Types

  // ----- the memory of the writers -----

  ghost predicate Unknown(w: World, n: NamespacedName)
  {
    Derived(n) !in w.cluster.sidecars && Derived(n) !in w.sidecarLogs && n !in w.passes
  }

  /** Everything in memory is about objects that were created, and out of a log. */
  ghost predicate Wellformed(w: World)
  {
    && AllFromLog(w)
    && (forall n :: n !in w.cluster.lazy ==> Unknown(w, n))
    && (w.crashed.Some? ==> w.crashed.value in w.cluster.lazy)
  }

  lemma HandlerKeepsLogs(w: World, e: Action, n: NamespacedName)
    requires n in w.cluster.lazy
    ensures var after := NextByHandler(w, e); n in after.cluster.lazy && LogOf(w, n) <= LogOf(after, n)
  {
  }

  lemma PassKeepsLogs(w: World, e: Action, n: NamespacedName)
    requires n in w.cluster.lazy
    ensures var after := NextByPass(w, e); n in after.cluster.lazy && LogOf(w, n) <= LogOf(after, n)
  {
  }

  lemma NextKeepsLogs(w: World, e: Action, n: NamespacedName)
    requires n in w.cluster.lazy
    ensures var after := NextWorld(w, e); n in after.cluster.lazy && LogOf(w, n) <= LogOf(after, n)
  {
    HandlerKeepsLogs(w, e, n);
    PassKeepsLogs(w, e, n);
  }

  predicate SameTask(h: Handler, g: Handler)
  {
    h.items == g.items && h.job == g.job
  }

  lemma ReadKeepsTask(w: World, writer: nat, delivered: bool, v: nat)
    requires v in NextByHandler(w, ReadDerived(writer, delivered)).handlers
    ensures v in w.handlers && SameTask(NextByHandler(w, ReadDerived(writer, delivered)).handlers[v], w.handlers[v])
  {
  }

  /** A handler keeps its job and its list response to the end. */
  lemma HandlerKeepsTask(w: World, e: Action, v: nat)
    requires ByHandler(e) && v in NextByHandler(w, e).handlers
    ensures var h := NextByHandler(w, e).handlers[v];
            || (v in w.handlers && SameTask(h, w.handlers[v]))
            || (e.StartHandler? && h.job == e.job && ListResponse(w, h.items))
  {
    if e.ReadDerived? {
      ReadKeepsTask(w, e.writer, e.delivered, v);
    }
  }

  lemma NextItems(w: World, e: Action, v: nat)
    requires v in NextWorld(w, e).handlers
    ensures var h := NextWorld(w, e).handlers[v];
            || (v in w.handlers && SameTask(h, w.handlers[v]))
            || (e.StartHandler? && h.job == e.job && ListResponse(w, h.items))
  {
    if ByHandler(e) && w.crashed.None? {
      HandlerKeepsTask(w, e, v);
    }
  }

  lemma NextFromLog(w: World, e: Action)
    requires AllFromLog(w)
    ensures AllFromLog(NextWorld(w, e))
  {
    var after := NextWorld(w, e);
    forall writer, i | writer in after.handlers && 0 <= i < |after.handlers[writer].items|
      ensures FromLog(after, after.handlers[writer].items[i])
    {
      var item := after.handlers[writer].items[i];
      NextItems(w, e, writer);
      assert FromLog(w, item);
      NextKeepsLogs(w, e, item.name);
    }
  }

  lemma UserKeepsUnknown(w: World, e: Action, n: NamespacedName)
    requires Unknown(w, n)
    ensures Unknown(NextByUser(w, e), n)
  {
  }

  lemma CommitKeepsUnknown(w: World, m: NamespacedName, draft: SidecarDraft, n: NamespacedName)
    requires Unknown(w, n) && m != n
    ensures Unknown(CommitDerived(w, m, draft), n)
  {
    if Derived(m) == Derived(n) {
      DerivedInjective(m, n);
      assert false;
    }
  }

  lemma HandlerKeepsUnknown(w: World, e: Action, n: NamespacedName)
    requires AllFromLog(w) && Unknown(w, n) && n !in w.cluster.lazy
    ensures Unknown(NextByHandler(w, e), n)
  {
    if e.WriteDerived? && Busy(w, e.writer) && w.handlers[e.writer].stage.Holding? {
      var h := w.handlers[e.writer];
      assert FromLog(w, h.items[h.next]);
      CommitKeepsUnknown(w, h.items[h.next].name, h.stage.draft, n);
    }
  }

  lemma PassKeepsUnknown(w: World, e: Action, n: NamespacedName)
    requires Unknown(w, n) && n !in w.cluster.lazy
    ensures Unknown(NextByPass(w, e), n)
  {
    if e.WriteSidecarInPass? && e.name in w.passes && w.passes[e.name].phase.Projected? {
      CommitKeepsUnknown(w, e.name, w.passes[e.name].phase.draft, n);
    }
  }

  lemma HandlerCrashed(w: World, e: Action)
    requires AllFromLog(w) && w.crashed.None? && NextByHandler(w, e).crashed.Some?
    ensures e.ReadDerived? && NextByHandler(w, e).crashed.value in w.cluster.lazy
  {
    if e.ReadDerived? {
      assert FromLog(w, w.handlers[e.writer].items[w.handlers[e.writer].next]);
    }
  }

  lemma PassCrashed(w: World, e: Action)
    requires w.crashed.None? && NextByPass(w, e).crashed.Some?
    ensures e.ProjectInPass? && e.delivered && e.name in w.passes && NextByPass(w, e).crashed == Some(e.name)
  {
  }

  lemma NextCrashed(w: World, e: Action)
    requires Wellformed(w) && w.crashed.None? && NextWorld(w, e).crashed.Some?
    ensures NextWorld(w, e).crashed.value in w.cluster.lazy
    ensures e.ReadDerived? || (e.ProjectInPass? && e.delivered)
  {
    if ByHandler(e) {
      HandlerCrashed(w, e);
    } else if !ByUser(e) {
      PassCrashed(w, e);
    }
  }

  lemma NextWellformed(w: World, e: Action)
    requires Wellformed(w)
    ensures Wellformed(NextWorld(w, e))
  {
    if w.crashed.None? && NextWorld(w, e).crashed.Some? {
      NextCrashed(w, e);
      NextKeepsLogs(w, e, NextWorld(w, e).crashed.value);
    }
    NextFromLog(w, e);
    forall n | n !in NextWorld(w, e).cluster.lazy ensures Unknown(NextWorld(w, e), n) {
      if n in w.cluster.lazy {
        NextKeepsLogs(w, e, n);
      }
      UserKeepsUnknown(w, e, n);
      HandlerKeepsUnknown(w, e, n);
      PassKeepsUnknown(w, e, n);
    }
  }

  lemma {:induction false} RunWellformed(es: seq<Action>)
    ensures Wellformed(RunWorld(es))
  {
    if es != [] {
      RunWellformed(es[..|es| - 1]);
      NextWellformed(RunWorld(es[..|es| - 1]), es[|es| - 1]);
    }
  }

  /** A call that does not reach the API server leaves everything stored as it was. */
  lemma LostActionsCommitNothing(w: World, e: Action)
    requires || (e.WriteItem? && !e.delivered) || (e.ReadDerived? && !e.delivered) || (e.WriteDerived? && !e.delivered)
             || (e.ProjectInPass? && !e.delivered) || (e.WriteSidecarInPass? && !e.delivered)
             || (e.WriteHostsInPass? && !e.delivered) || (e.WriteStatusInPass? && !e.delivered)
    ensures var after := NextWorld(w, e);
            after.cluster == w.cluster && after.logs == w.logs && after.sidecarLogs == w.sidecarLogs && after.crashed == w.crashed
  {
  }

  // ----- every object goes through a run of its own -----

  lemma {:induction false} RunConcat(c: Cell, es: seq<Event>, fs: seq<Event>)
    ensures Run(c, es + fs) == Run(Run(c, es), fs)
  {
    if fs == [] {
      assert es + fs == es;
    } else {
      var front := fs[..|fs| - 1];
      assert (es + fs)[..|es + fs| - 1] == es + front;
      RunConcat(c, es, front);
    }
  }

  /** What a run of the cluster is for one object, from its creation on. */
  ghost function EventsOf(es: seq<Action>, n: NamespacedName): seq<Event>
  {
    if es == [] then []
    else
      var front := es[..|es| - 1];
      if n in RunWorld(front).cluster.lazy then EventsOf(front, n) + StepsAt(RunWorld(front), es[|es| - 1], n) else []
  }

  lemma NothingHeld(w: World, n: NamespacedName)
    requires AllFromLog(w) && n !in w.cluster.lazy
    ensures DropsOf(w.handlers, n) == map[]
  {
    forall writer ensures !HoldsFor(w.handlers, writer, n) {
      if writer in w.handlers && w.handlers[writer].next < |w.handlers[writer].items| {
        assert FromLog(w, w.handlers[writer].items[w.handlers[writer].next]);
      }
    }
  }

  lemma CreationShows(w: World, e: Action, n: NamespacedName)
    requires Wellformed(w) && n !in w.cluster.lazy && n in NextWorld(w, e).cluster.lazy
    ensures e.CreateObject? && Shows(NextWorld(w, e), n, Fresh(n, e.stored))
  {
    NothingHeld(w, n);
  }

  lemma {:induction false} RunShows(es: seq<Action>, n: NamespacedName) returns (first: LazySidecar)
    requires n in RunWorld(es).cluster.lazy
    ensures Shows(RunWorld(es), n, Run(Fresh(n, first), EventsOf(es, n)))
  {
    var front, last := es[..|es| - 1], es[|es| - 1];
    var w := RunWorld(front);
    RunWellformed(front);
    if n in w.cluster.lazy {
      first := RunShows(front, n);
      NoLostUpdates(n, first, EventsOf(front, n));
      NextFollows(w, last, n, Run(Fresh(n, first), EventsOf(front, n)));
      RunConcat(Fresh(n, first), EventsOf(front, n), StepsAt(w, last, n));
    } else {
      CreationShows(w, last, n);
      first := last.stored;
    }
  }

  /** The object as it was created. */
  ghost function FirstOf(w: World, n: NamespacedName): LazySidecar
    requires LogOf(w, n) != []
  {
    LogOf(w, n)[0].stored
  }

  /** The cell of an object at the end of its own run. */
  ghost function CellAfter(es: seq<Action>, n: NamespacedName): Cell
    requires LogOf(RunWorld(es), n) != []
  {
    Run(Fresh(n, FirstOf(RunWorld(es), n)), EventsOf(es, n))
  }

  /** In every run of the cluster, whatever concerns one LazySidecar - its versions,
      its Sidecar, what its pass and the handlers have in memory, a panic - is as
      after a run of Interleaving. Handlers that share list responses, and all
      Sidecars in one map, make no difference. */
  lemma RunsProject(es: seq<Action>, n: NamespacedName)
    requires n in RunWorld(es).cluster.lazy
    ensures LogOf(RunWorld(es), n) != [] && Shows(RunWorld(es), n, CellAfter(es, n))
  {
    var first := RunShows(es, n);
    LogGrows(Fresh(n, first), EventsOf(es, n), 0);
    assert EventsOf(es, n)[..0] == [];
    assert Run(Fresh(n, first), []).log[0].stored == first;
  }

  /** What is known of that cell. */
  lemma ReachedCell(es: seq<Action>, n: NamespacedName) returns (c: Cell)
    requires n in RunWorld(es).cluster.lazy
    ensures Shows(RunWorld(es), n, c) && Recorded(c) && AllTraced(c)
  {
    RunsProject(es, n);
    c := CellAfter(es, n);
    NoLostUpdates(n, FirstOf(RunWorld(es), n), EventsOf(es, n));
    SelectorsAreTraced(n, FirstOf(RunWorld(es), n), EventsOf(es, n));
  }

  // ----- what that means for the cluster -----

  /** No write is lost anywhere: each committed version of each LazySidecar is the
      effect of one writer on the version committed just before. */
  lemma NothingLost(es: seq<Action>, n: NamespacedName)
    requires n in RunWorld(es).cluster.lazy
    ensures LogRecorded(RunWorld(es).cluster.lazy[n], LogOf(RunWorld(es), n))
  {
    var c := ReachedCell(es, n);
  }

  /** Sidecars can always be indexed: the removal loops never panic. */
  lemma AlwaysIndexable(es: seq<Action>)
    ensures Indexable(RunWorld(es).cluster, RunWorld(es).cluster.lazy.Keys)
  {
    var w := RunWorld(es);
    forall n | n in w.cluster.lazy && Derived(n) in w.cluster.sidecars
      ensures w.cluster.sidecars[Derived(n)].value.egress != []
    {
      var c := ReachedCell(es, n);
      StoredHolds(c);
    }
  }

  predicate PassMeetsBareSidecar(w: World, n: NamespacedName)
  {
    PassAt(w, n, Started) && SelectorCameBetween(LogOf(w, n), SidecarLogOf(w, Derived(n)), w.passes[n].version)
  }

  lemma UnwritableInCluster(es: seq<Action>, n: NamespacedName, v: nat)
    requires n in RunWorld(es).cluster.lazy && SeenOf(RunWorld(es), n) <= v < |LogOf(RunWorld(es), n)|
    ensures var w := RunWorld(es);
            Unwritable(SidecarAt(w.cluster, Derived(n)), LogOf(w, n)[v].stored.spec)
            <==> SelectorCameBetween(LogOf(w, n), SidecarLogOf(w, Derived(n)), v)
  {
    var c := ReachedCell(es, n);
    UnwritableExactly(c, v);
  }

  lemma PassIsRecorded(es: seq<Action>, n: NamespacedName)
    requires PassAt(RunWorld(es), n, Started)
    ensures var w := RunWorld(es);
            && n in w.cluster.lazy && SeenOf(w, n) == w.passes[n].version < |LogOf(w, n)|
            && w.passes[n].spec == LogOf(w, n)[w.passes[n].version].stored.spec
  {
    RunWellformed(es);
    var c := ReachedCell(es, n);
  }

  lemma ProjectPanicsExactly(es: seq<Action>, n: NamespacedName)
    requires RunWorld(es).crashed.None?
    ensures NextWorld(RunWorld(es), ProjectInPass(n, true)).crashed.Some? <==> PassMeetsBareSidecar(RunWorld(es), n)
  {
    if PassAt(RunWorld(es), n, Started) {
      PassIsRecorded(es, n);
      UnwritableInCluster(es, n, RunWorld(es).passes[n].version);
    }
  }

  /** The exact condition in the cluster: the process panics at an action if and
      only if the action is the projection of a pass which has read a version with
      a selector, over a Sidecar projected from an earlier version without one. */
  lemma ClusterPanicsExactly(es: seq<Action>, e: Action)
    requires RunWorld(es).crashed.None?
    ensures NextWorld(RunWorld(es), e).crashed.Some?
       <==> e.ProjectInPass? && e.delivered && PassMeetsBareSidecar(RunWorld(es), e.name)
  {
    var w := RunWorld(es);
    RunWellformed(es);
    AlwaysIndexable(es);
    if e.ProjectInPass? && e.delivered {
      ProjectPanicsExactly(es, e.name);
    } else if NextWorld(w, e).crashed.Some? {
      NextCrashed(w, e);
      assert false;
    }
  }

  /** So where no edit adds a selector the process never panics. */
  lemma ClusterNeverPanics(es: seq<Action>)
    requires forall n :: n in RunWorld(es).cluster.lazy ==> GentleLog(LogOf(RunWorld(es), n))
    ensures RunWorld(es).crashed.None?
  {
    var w := RunWorld(es);
    RunWellformed(es);
    if w.crashed.Some? {
      var n := w.crashed.value;
      RunsProject(es, n);
      NeverCrashes(n, FirstOf(w, n), EventsOf(es, n));
      assert false;
    }
  }

  // ----- what handlers do was started -----

  ghost predicate Begun(es: seq<Action>, job: Job)
  {
    exists i :: 0 <= i < |es| && es[i].StartHandler? && es[i].job == job
  }

  lemma BegunLater(es: seq<Action>, e: Action, job: Job)
    requires Begun(es, job) || (e.StartHandler? && e.job == job)
    ensures Begun(es + [e], job)
  {
    var longer := es + [e];
    assert longer[|es|] == e && forall i :: 0 <= i < |es| ==> longer[i] == es[i];
    if i :| 0 <= i < |es| && es[i].StartHandler? && es[i].job == job {
      assert longer[i] == es[i];
    }
  }

  lemma {:induction false} JobsBegun(es: seq<Action>, writer: nat)
    requires writer in RunWorld(es).handlers
    ensures Begun(es, RunWorld(es).handlers[writer].job)
  {
    var front, last := es[..|es| - 1], es[|es| - 1];
    NextItems(RunWorld(front), last, writer);
    if writer in RunWorld(front).handlers {
      JobsBegun(front, writer);
    }
    BegunLater(front, last, RunWorld(es).handlers[writer].job);
    assert front + [last] == es;
  }

  /** Where the step of an object comes from. */
  ghost predicate Stems(es: seq<Action>, n: NamespacedName, e: Event)
  {
    match e
    case Edit(spec) => EditObject(n, spec) in es
    case Read(_, _, op) => exists job :: Begun(es, job) && OpOf(job) == op
    case ReadSidecar(_, namespace, hosts) => Begun(es, RemoveHosts(namespace, hosts))
    case _ => true
  }

  lemma StepsStem(es: seq<Action>, e: Action, n: NamespacedName, i: nat)
    requires i < |StepsAt(RunWorld(es), e, n)|
    ensures Stems(es + [e], n, StepsAt(RunWorld(es), e, n)[i])
  {
    var w := RunWorld(es);
    if e.WriteItem? || e.ReadDerived? {
      JobsBegun(es, e.writer);
      BegunLater(es, e, w.handlers[e.writer].job);
    }
    assert (es + [e])[|es|] == e;
  }

  lemma StemsLater(es: seq<Action>, e: Action, n: NamespacedName, step: Event)
    requires Stems(es, n, step)
    ensures Stems(es + [e], n, step)
  {
    match step {
      case Read(_, _, op) =>
        var job :| Begun(es, job) && OpOf(job) == op;
        BegunLater(es, e, job);
      case ReadSidecar(_, namespace, hosts) => BegunLater(es, e, RemoveHosts(namespace, hosts));
      case _ =>
    }
  }

  /** Every edit of an object is an edit of the run, and every removal or report is
      that of a handler the run has started. */
  lemma {:induction false} EventsStem(es: seq<Action>, n: NamespacedName, i: nat)
    requires i < |EventsOf(es, n)|
    ensures Stems(es, n, EventsOf(es, n)[i])
  {
    var front, last := es[..|es| - 1], es[|es| - 1];
    assert front + [last] == es;
    var before := EventsOf(front, n);
    if i < |before| {
      EventsStem(front, n, i);
      StemsLater(front, last, n, before[i]);
    } else {
      StepsStem(front, last, n, i - |before|);
    }
  }

  /** A ServiceEntry in istio-system with the host "*" is never removed or updated. */
  ghost predicate SparesWildcard(es: seq<Action>)
  {
    forall namespace, hosts :: Begun(es, RemoveHosts(namespace, hosts)) ==>
      '/' !in namespace && !(namespace == ROOT_NS && "*" in hosts)
  }

  /** Then every version of every Sidecar shows DEFAULT_HOST in every listener. */
  lemma DefaultInCluster(es: seq<Action>, n: NamespacedName, i: nat)
    requires SparesWildcard(es) && n in RunWorld(es).cluster.lazy
    requires i < |SidecarLogOf(RunWorld(es), Derived(n))|
    ensures Defaulted(SidecarLogOf(RunWorld(es), Derived(n))[i].sidecar)
  {
    RunsProject(es, n);
    var steps := EventsOf(es, n);
    forall j | 0 <= j < |steps| ensures SparesDefault(steps[j]) {
      EventsStem(es, n, j);
    }
    DefaultEverywhere(n, FirstOf(RunWorld(es), n), steps);
    assert Holds(CellAfter(es, n), CellAfter(es, n).sidecarLog[i]);
  }

  /** Without an edit of the LazySidecar and without a ServiceEntry handler that
      removes the host, a stored host is in every later version. */
  lemma StaysStoredInCluster(es: seq<Action>, n: NamespacedName, i: nat, j: nat, h: Host)
    requires n in RunWorld(es).cluster.lazy && i <= j < |LogOf(RunWorld(es), n)|
    requires forall spec :: EditObject(n, spec) !in es
    requires forall namespace, hosts :: Begun(es, RemoveHosts(namespace, hosts)) ==> h !in Qualify(namespace, hosts)
    requires h in LogOf(RunWorld(es), n)[i].stored.spec.egressHosts
    ensures h in LogOf(RunWorld(es), n)[j].stored.spec.egressHosts
  {
    RunsProject(es, n);
    var steps := EventsOf(es, n);
    forall a | 0 <= a < |steps|
      ensures !steps[a].Edit? && (steps[a].Read? && steps[a].op.Remove? ==> h !in steps[a].op.handled)
    {
      EventsStem(es, n, a);
      if steps[a].Read? && steps[a].op.Remove? {
        var job :| Begun(es, job) && OpOf(job) == steps[a].op;
        assert job == RemoveHosts(job.namespace, job.hosts);
      }
    }
    StaysStored(n, FirstOf(RunWorld(es), n), steps, i, j, h);
  }
}
