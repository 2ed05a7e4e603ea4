/** What every interleaving keeps of the derived Sidecar: where its selector is
    from, exactly when writing through it panics, and that DEFAULT_HOST stays. */
module SidecarSafety {
  import opened HostLists
  import opened Interleaving
  import opened Projection
  import opened ReconcilePass
  import opened Store
  import opened Types

  // ----- where Sidecars come from -----

  /** A Sidecar that is or was stored, or is about to be written. */
  ghost predicate Holds(c: Cell, x: Rendered)
  {
    || x in c.sidecarLog
    || (c.pass.Some? && c.pass.value.phase.Projected? && x == c.pass.value.phase.draft.content)
    || (exists w :: w in c.drops && x == c.drops[w].content)
  }

  /** The step computes this Sidecar from what it reads. */
  predicate Computes(c: Cell, e: Event, x: Rendered)
  {
    match e
    case ReadSidecar(_, namespace, hosts) =>
      && c.sidecar.Some? && c.sidecar.value.value.egress != []
      && x == Rendered(Dropped(c.sidecar.value.value, Qualify(namespace, hosts)), Source(c.sidecarLog))
    case PassProject(_) =>
      && InPhase(c, Started)
      && x.source == c.pass.value.version
      && x.sidecar == if c.sidecar.None? then Created(c.pass.value.spec)
                      else Synced(c.pass.value.spec, c.sidecar.value.value)
    case _ => false
  }

  lemma HandlerHolds(c: Cell, e: Event, x: Rendered)
    requires (e.ReadSidecar? || e.WriteSidecar?) && Holds(Next(c, e), x)
    ensures Holds(c, x) || Computes(c, e, x)
  {
  }

  lemma PassHolds(c: Cell, e: Event, x: Rendered)
    requires (e.PassProject? || e.PassWriteSidecar?) && Holds(Next(c, e), x)
    ensures Holds(c, x) || Computes(c, e, x)
  {
  }

  /** A Sidecar that is stored or about to be written was so before, or was
      computed in this step. */
  lemma NextHolds(c: Cell, e: Event, x: Rendered)
    requires Holds(Next(c, e), x)
    ensures Holds(c, x) || Computes(c, e, x)
  {
    if e.ReadSidecar? || e.WriteSidecar? {
      HandlerHolds(c, e, x);
    } else if e.PassProject? || e.PassWriteSidecar? {
      PassHolds(c, e, x);
    }
  }

  /** The stored Sidecar is the newest of its log. */
  lemma StoredHolds(c: Cell)
    requires Recorded(c) && c.sidecar.Some?
    ensures Holds(c, Rendered(c.sidecar.value.value, Source(c.sidecarLog)))
  {
    assert c.sidecarLog[c.sidecar.value.version] == Rendered(c.sidecar.value.value, Source(c.sidecarLog));
  }

  // ----- where its selector is from -----

  /** It can be indexed, and its selector is that of a version of the LazySidecar
      which a pass has read. */
  ghost predicate Traced(c: Cell, x: Rendered)
  {
    && x.source <= c.seen < |c.log|
    && x.sidecar.egress != []
    && var labels := c.log[x.source].stored.spec.selector;
       x.sidecar.selector == if labels == map[] then None else Some(labels)
  }

  ghost predicate AllTraced(c: Cell)
  {
    forall x :: Holds(c, x) ==> Traced(c, x)
  }

  lemma NextSeen(c: Cell, e: Event)
    requires Recorded(c)
    ensures c.seen <= Next(c, e).seen < |c.log|
  {
  }

  lemma ComputesTraced(c: Cell, e: Event, x: Rendered)
    requires Recorded(c) && Computes(c, e, x)
    requires c.sidecar.Some? ==> Traced(c, Rendered(c.sidecar.value.value, Source(c.sidecarLog)))
    ensures Traced(c, x)
  {
  }

  lemma TracedStays(c: Cell, e: Event, x: Rendered)
    requires Recorded(c) && Traced(c, x)
    ensures Traced(Next(c, e), x)
  {
    var after := Next(c, e);
    NextCommits(c, e);
    NextSeen(c, e);
    assert c.log[x.source] == after.log[..|c.log|][x.source] == after.log[x.source];
  }

  lemma NextTraced(c: Cell, e: Event)
    requires Recorded(c) && AllTraced(c)
    ensures AllTraced(Next(c, e))
  {
    if c.sidecar.Some? {
      StoredHolds(c);
    }
    forall x | Holds(Next(c, e), x) ensures Traced(Next(c, e), x) {
      NextHolds(c, e, x);
      if Computes(c, e, x) {
        ComputesTraced(c, e, x);
      }
      TracedStays(c, e, x);
    }
  }

  /** In every interleaving, every version of the Sidecar and every Sidecar about
      to be written has a first listener, and the selector of the version of the
      LazySidecar it is recorded to be from. */
  lemma {:induction false} SelectorsAreTraced(name: NamespacedName, stored: LazySidecar, es: seq<Event>)
    ensures AllTraced(Run(Fresh(name, stored), es))
  {
    if es != [] {
      var front := es[..|es| - 1];
      SelectorsAreTraced(name, stored, front);
      NoLostUpdates(name, stored, front);
      NextTraced(Run(Fresh(name, stored), front), es[|es| - 1]);
    }
  }

  // ----- when a step panics -----

  predicate Bare(spec: LazySpec)
  {
    |spec.selector| == 0
  }

  /** The Sidecar is from a version of the LazySidecar before `v`, and the selector
      came in between. */
  predicate SelectorCameBetween(log: seq<Commit>, sidecarLog: seq<Rendered>, v: nat)
  {
    && sidecarLog != [] && Source(sidecarLog) < v < |log|
    && Bare(log[Source(sidecarLog)].stored.spec) && !Bare(log[v].stored.spec)
  }

  /** The step at which a pass writes through the selector of such a Sidecar. */
  predicate WritesThroughNothing(c: Cell, e: Event)
  {
    e == PassProject(true) && InPhase(c, Started) && SelectorCameBetween(c.log, c.sidecarLog, c.pass.value.version)
  }

  lemma UnwritableExactly(c: Cell, v: nat)
    requires Recorded(c) && AllTraced(c) && c.seen <= v < |c.log|
    ensures Unwritable(c.sidecar, c.log[v].stored.spec) <==> SelectorCameBetween(c.log, c.sidecarLog, v)
  {
    if c.sidecar.Some? {
      StoredHolds(c);
      assert Traced(c, Rendered(c.sidecar.value.value, Source(c.sidecarLog)));
    }
  }

  lemma NextPanicsExactly(c: Cell, e: Event)
    requires Recorded(c) && AllTraced(c) && !c.crashed
    ensures Next(c, e).crashed <==> WritesThroughNothing(c, e)
  {
    if c.sidecar.Some? {
      StoredHolds(c);
      assert Traced(c, Rendered(c.sidecar.value.value, Source(c.sidecarLog)));
    }
    if InPhase(c, Started) {
      UnwritableExactly(c, c.pass.value.version);
    }
  }

  /** The same for a step at the end of any interleaving. */
  lemma StepPanicsExactly(name: NamespacedName, stored: LazySidecar, es: seq<Event>, e: Event)
    ensures var c := Run(Fresh(name, stored), es);
            Next(c, e).crashed <==> c.crashed || WritesThroughNothing(c, e)
  {
    NoLostUpdates(name, stored, es);
    SelectorsAreTraced(name, stored, es);
    if !Run(Fresh(name, stored), es).crashed {
      NextPanicsExactly(Run(Fresh(name, stored), es), e);
    }
  }

  lemma RunSnoc(c: Cell, es: seq<Event>, e: Event)
    ensures Run(c, es + [e]) == Next(Run(c, es), e)
  {
    assert (es + [e])[..|es|] == es;
  }

  /** A pass that has read version `v` panics at once if and only if the selector
      came in between. */
  lemma PassCrashesExactly(name: NamespacedName, stored: LazySidecar, es: seq<Event>, v: nat)
    requires var c := Run(Fresh(name, stored), es); !c.crashed && c.pass.None? && c.seen <= v < |c.log|
    ensures var c := Run(Fresh(name, stored), es);
            Next(Next(c, PassRead(v)), PassProject(true)).crashed <==> SelectorCameBetween(c.log, c.sidecarLog, v)
  {
    RunSnoc(Fresh(name, stored), es, PassRead(v));
    StepPanicsExactly(name, stored, es + [PassRead(v)], PassProject(true));
  }

  ghost predicate SomeStepPanics(c: Cell, es: seq<Event>)
  {
    exists i :: 0 <= i < |es| && WritesThroughNothing(Run(c, es[..i]), es[i])
  }

  lemma SomeStepPanicsSnoc(c: Cell, es: seq<Event>, e: Event)
    ensures SomeStepPanics(c, es + [e]) <==> SomeStepPanics(c, es) || WritesThroughNothing(Run(c, es), e)
  {
    var longer := es + [e];
    assert longer[..|es|] == es && longer[|es|] == e;
    forall i | 0 <= i < |es| ensures longer[..i] == es[..i] && longer[i] == es[i] {
    }
  }

  /** The exact condition, for every interleaving: it ends in a panic if and only
      if at some point a pass which had read a version with a selector met a
      Sidecar projected from an earlier version without one. In particular the
      first listener that a removal indexes is never missing. */
  lemma {:induction false} PanicsExactly(name: NamespacedName, stored: LazySidecar, es: seq<Event>)
    ensures Run(Fresh(name, stored), es).crashed <==> SomeStepPanics(Fresh(name, stored), es)
  {
    if es != [] {
      var front, last := es[..|es| - 1], es[|es| - 1];
      PanicsExactly(name, stored, front);
      StepPanicsExactly(name, stored, front, last);
      SomeStepPanicsSnoc(Fresh(name, stored), front, last);
      assert front + [last] == es;
    }
  }

  lemma {:induction false} LogGrows(c: Cell, es: seq<Event>, i: nat)
    requires i <= |es|
    ensures Run(c, es[..i]).log <= Run(c, es).log
  {
    if i < |es| {
      var front := es[..|es| - 1];
      assert front[..i] == es[..i];
      LogGrows(c, front, i);
      NextCommits(Run(c, front), es[|es| - 1]);
    } else {
      assert es[..i] == es;
    }
  }

  /** Sidecars, and what a pass is about to make one from, are from versions that
      passes of the run have read. */
  ghost predicate AllRead(c: Cell, es: seq<Event>)
  {
    && (forall x :: Holds(c, x) ==> PassRead(x.source) in es)
    && (c.pass.Some? && !c.pass.value.phase.Reporting? ==> PassRead(c.pass.value.version) in es)
  }

  lemma NextRead(c: Cell, es: seq<Event>, e: Event)
    requires Recorded(c) && AllRead(c, es)
    ensures AllRead(Next(c, e), es + [e])
  {
    assert forall f :: f in es || f == e ==> f in es + [e];
    if c.sidecar.Some? {
      StoredHolds(c);
    }
    forall x | Holds(Next(c, e), x) ensures PassRead(x.source) in es + [e] {
      NextHolds(c, e, x);
    }
  }

  lemma {:induction false} SourcesAreRead(name: NamespacedName, stored: LazySidecar, es: seq<Event>)
    ensures AllRead(Run(Fresh(name, stored), es), es)
  {
    if es != [] {
      var front := es[..|es| - 1];
      SourcesAreRead(name, stored, front);
      NoLostUpdates(name, stored, front);
      NextRead(Run(Fresh(name, stored), front), front, es[|es| - 1]);
      assert front + [es[|es| - 1]] == es;
    }
  }

  /** So there is no panic unless a pass has read a version without a selector and
      a pass a later one with a selector. To add a selector before any pass reads
      the version without it is safe. */
  lemma PanicNeedsBareRead(name: NamespacedName, stored: LazySidecar, es: seq<Event>)
    returns (u: nat, v: nat)
    requires Run(Fresh(name, stored), es).crashed
    ensures PassRead(u) in es && PassRead(v) in es
    ensures var log := Run(Fresh(name, stored), es).log;
            u < v < |log| && Bare(log[u].stored.spec) && !Bare(log[v].stored.spec)
  {
    PanicsExactly(name, stored, es);
    var i :| 0 <= i < |es| && WritesThroughNothing(Run(Fresh(name, stored), es[..i]), es[i]);
    var c := Run(Fresh(name, stored), es[..i]);
    SourcesAreRead(name, stored, es[..i]);
    LogGrows(Fresh(name, stored), es, i);
    u, v := Source(c.sidecarLog), c.pass.value.version;
    assert c.sidecarLog[|c.sidecarLog| - 1] in c.sidecarLog;
    assert forall f :: f in es[..i] ==> f in es;
  }

  /** No committed edit gives a selector to a LazySidecar that has none. */
  ghost predicate GentleLog(log: seq<Commit>)
  {
    forall i :: 0 < i < |log| && log[i].cause.Edited? && Bare(log[i - 1].stored.spec) ==> Bare(log[i].stored.spec)
  }

  lemma {:induction false} BareStays(c: Cell, i: nat, j: nat)
    requires Recorded(c) && GentleLog(c.log) && i <= j < |c.log| && Bare(c.log[i].stored.spec)
    ensures Bare(c.log[j].stored.spec)
  {
    if i < j {
      BareStays(c, i, j - 1);
      assert c.log[j].stored.spec == Effect(c.log[j].cause, c.log[j - 1].stored.spec);
    }
  }

  /** In every interleaving in which no edit adds a selector, nothing panics. */
  lemma NeverCrashes(name: NamespacedName, stored: LazySidecar, es: seq<Event>)
    requires GentleLog(Run(Fresh(name, stored), es).log)
    ensures !Run(Fresh(name, stored), es).crashed
  {
    var end := Run(Fresh(name, stored), es);
    PanicsExactly(name, stored, es);
    NoLostUpdates(name, stored, es);
    if i :| 0 <= i < |es| && WritesThroughNothing(Run(Fresh(name, stored), es[..i]), es[i]) {
      var c := Run(Fresh(name, stored), es[..i]);
      LogGrows(Fresh(name, stored), es, i);
      BareStays(end, Source(c.sidecarLog), c.pass.value.version);
      assert false;
    }
  }

  /** The condition is met, for every LazySidecar without a selector and every edit
      that gives it one: when a pass comes between its creation and the edit, the
      next pass panics. */
  lemma AddingSelectorCrashes(name: NamespacedName, stored: LazySidecar, spec: LazySpec) returns (es: seq<Event>)
    requires Bare(stored.spec) && !Bare(spec)
    ensures Run(Fresh(name, stored), es).crashed
    ensures |es| == 8 && forall i :: 0 <= i < |es| && es[i].Edit? ==> i == 5 && es[i].spec == spec
  {
    var c := Fresh(name, stored);
    var e5, e6, e7 := Edit(spec), PassRead(1), PassProject(true);
    var first := FirstPass(c);
    var c5 := Run(c, first);
    RunSnoc(c, first, e5);
    var c6 := Run(c, first + [e5]);
    assert c6 == c5.(lazy := Versioned(1, stored.(spec := spec)), log := c5.log + [Commit(stored.(spec := spec), Edited(spec))]);
    RunSnoc(c, first + [e5], e6);
    RunSnoc(c, first + [e5] + [e6], e7);
    es := first + [e5] + [e6] + [e7];
  }

  /** The first pass over an object creates its Sidecar. */
  lemma FirstPass(c: Cell) returns (es: seq<Event>)
    requires c == Fresh(c.name, c.lazy.value)
    ensures |es| == 5 && forall i :: 0 <= i < |es| ==> !es[i].Edit?
    ensures Run(c, es) == c.(sidecar := Some(Versioned(0, Created(c.lazy.value.spec))),
                          sidecarLog := [Rendered(Created(c.lazy.value.spec), 0)])
  {
    var spec := c.lazy.value.spec;
    var draft := SidecarDraft(None, Rendered(Created(spec), 0));
    var c1 := c.(pass := Some(Progress(0, spec, Started)));
    assert Next(c, PassRead(0)) == c1;
    var c2 := c.(pass := Some(Progress(0, spec, Projected(draft))));
    assert Next(c1, PassProject(true)) == c2;
    var c3 := c.(pass := Some(Progress(0, spec, Rewriting)), sidecar := Some(Versioned(0, Created(spec))),
                 sidecarLog := [Rendered(Created(spec), 0)]);
    assert Next(c2, PassWriteSidecar(true)) == c3;
    var c4 := c3.(pass := Some(Progress(0, spec, Reporting)));
    assert Next(c3, PassWriteHosts([], false)) == c4;
    var c5 := c3.(pass := None);
    assert Next(c4, PassWriteStatus(0, 0, false)) == c5;
    es := [PassRead(0), PassProject(true), PassWriteSidecar(true), PassWriteHosts([], false), PassWriteStatus(0, 0, false)];
    assert es[..4][..3][..2][..1][..0] == [];
    assert Run(c, es[..1]) == c1 by { assert es[..1] == [PassRead(0)]; }
    assert Run(c, es[..2]) == c2 by { assert es[..2][..1] == es[..1]; }
    assert Run(c, es[..3]) == c3 by { assert es[..3][..2] == es[..2]; }
    assert Run(c, es[..4]) == c4 by { assert es[..4][..3] == es[..3]; }
  }

  // ----- DEFAULT_HOST -----

  predicate Defaulted(s: SidecarSpec)
  {
    forall i :: 0 <= i < |s.egress| ==> DEFAULT_HOST in s.egress[i].hosts
  }

  ghost predicate AllDefaulted(c: Cell)
  {
    forall x :: Holds(c, x) ==> Defaulted(x.sidecar)
  }

  /** A removal keeps DEFAULT_HOST exactly when it is not among the handled hosts. */
  lemma DropKeepsDefault(s: SidecarSpec, handled: seq<Host>)
    requires s.egress != [] && Defaulted(s)
    ensures Defaulted(Dropped(s, handled)) <==> DEFAULT_HOST !in handled
  {
    WithoutCounts(s.egress[0].hosts, handled, DEFAULT_HOST);
    assert Dropped(s, handled).egress[0].hosts == Without(s.egress[0].hosts, handled);
  }

  lemma ProjectedDefaulted(spec: LazySpec, s: SidecarSpec)
    ensures Defaulted(Created(spec)) && Defaulted(Synced(spec, s))
  {
    DesiredHolds(spec.egressHosts, spec.middleware);
    assert CreateHosts(spec.egressHosts, spec.middleware)[0] == DEFAULT_HOST;
  }

  /** No removal is about a ServiceEntry in istio-system with the host "*". */
  predicate SparesDefault(e: Event)
  {
    e.ReadSidecar? ==> '/' !in e.namespace && !(e.namespace == ROOT_NS && "*" in e.hosts)
  }

  lemma NextDefaulted(c: Cell, e: Event)
    requires Recorded(c) && AllDefaulted(c) && SparesDefault(e)
    ensures AllDefaulted(Next(c, e))
  {
    if c.sidecar.Some? {
      StoredHolds(c);
    }
    forall x | Holds(Next(c, e), x) ensures Defaulted(x.sidecar) {
      NextHolds(c, e, x);
      if Computes(c, e, x) {
        if e.ReadSidecar? {
          DefaultHostQualified(e.namespace, e.hosts);
          DropKeepsDefault(c.sidecar.value.value, Qualify(e.namespace, e.hosts));
        } else {
          ProjectedDefaulted(c.pass.value.spec, if c.sidecar.Some? then c.sidecar.value.value else x.sidecar);
        }
      }
    }
  }

  /** In every interleaving in which no ServiceEntry in istio-system with the host
      "*" is updated or deleted, every listener of every version of the Sidecar shows
      DEFAULT_HOST. */
  lemma {:induction false} DefaultEverywhere(name: NamespacedName, stored: LazySidecar, es: seq<Event>)
    requires forall i :: 0 <= i < |es| ==> SparesDefault(es[i])
    ensures AllDefaulted(Run(Fresh(name, stored), es))
  {
    if es != [] {
      DefaultEverywhere(name, stored, es[..|es| - 1]);
      NoLostUpdates(name, stored, es[..|es| - 1]);
      NextDefaulted(Run(Fresh(name, stored), es[..|es| - 1]), es[|es| - 1]);
    }
  }

  /** A removal with nothing between its read and its write. */
  lemma ReadWriteSidecar(c: Cell, namespace: string, hosts: seq<string>)
    requires !c.crashed && c.sidecar.Some? && c.sidecar.value.value.egress != []
    ensures Next(Next(c, ReadSidecar(0, namespace, hosts)), WriteSidecar(0, true)).sidecar
         == Some(TryUpdate(c.sidecar.value, c.sidecar.value.version, Dropped(c.sidecar.value.value, Qualify(namespace, hosts))))
  {
  }

  lemma WildcardDropped(spec: LazySpec, hosts: seq<string>)
    requires "*" in hosts
    ensures !Defaulted(Dropped(Created(spec), Qualify(ROOT_NS, hosts)))
  {
    ProjectedDefaulted(spec, Created(spec));
    DefaultHostQualified(ROOT_NS, hosts);
    DropKeepsDefault(Created(spec), Qualify(ROOT_NS, hosts));
  }

  /** Such an update or deletion does take it away: from every Sidecar that has
      just been created. */
  lemma WildcardRemovalLosesDefault(c: Cell, hosts: seq<string>) returns (es: seq<Event>)
    requires c == Fresh(c.name, c.lazy.value) && "*" in hosts
    ensures Run(c, es).sidecar.Some? && !Defaulted(Run(c, es).sidecar.value.value)
  {
    var first := FirstPass(c);
    var read, write := ReadSidecar(0, ROOT_NS, hosts), WriteSidecar(0, true);
    RunSnoc(c, first, read);
    RunSnoc(c, first + [read], write);
    es := first + [read] + [write];
    ReadWriteSidecar(Run(c, first), ROOT_NS, hosts);
    WildcardDropped(c.lazy.value.spec, hosts);
  }
}
