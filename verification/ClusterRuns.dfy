/** The whole cluster and everything that writes to it, in any interleaving. The
    handlers loop over list responses, and Sidecars are found by their derived
    name. What one LazySidecar and its Sidecar go through in a run of the cluster
    is proved to be a run of Interleaving. */
module ClusterRuns {
  import opened HostLists
  import opened Interleaving
  import opened Projection
  import opened ReconcilePass
  import opened Store
  import opened Types

  // ----- state -----

  datatype Job =
    | AddHosts(namespace: string, hosts: seq<string>)
    | RemoveHosts(namespace: string, hosts: seq<string>)
    | ReportHost(workload: map<string, string>, host: Host)

  function OpOf(job: Job): HostOp
  {
    match job
    case AddHosts(namespace, hosts) => Add(Qualify(namespace, hosts))
    case RemoveHosts(namespace, hosts) => Remove(Qualify(namespace, hosts))
    case ReportHost(_, host) => Append(host)
  }

  function ScopeOf(job: Job): Scope
  {
    if job.ReportHost? then Matching(job.workload) else All
  }

  /** Where a handler is with the item it is about: only removals go on to the
      Sidecar. */
  datatype Stage = AtObject | AtSidecar | Holding(draft: SidecarDraft)

  /** A handler or report in its loop over a list response. */
  datatype Handler = Handler(job: Job, items: seq<Item>, next: nat, stage: Stage)

  datatype World = World(
    cluster: Cluster,
    logs: map<NamespacedName, seq<Commit>>,           // by LazySidecar
    sidecarLogs: map<NamespacedName, seq<Rendered>>,  // by Sidecar
    handlers: map<nat, Handler>,
    passes: map<NamespacedName, Progress>,
    seen: map<NamespacedName, nat>,
    crashed: Option<NamespacedName>)                  // the object at which the process panicked

  const EMPTY := World(Cluster([], map[], map[]), map[], map[], map[], map[], map[], None)

  function LogOf(w: World, n: NamespacedName): seq<Commit>
  {
    if n in w.logs then w.logs[n] else []
  }

  function SidecarLogOf(w: World, k: NamespacedName): seq<Rendered>
  {
    if k in w.sidecarLogs then w.sidecarLogs[k] else []
  }

  /** The newest version a pass over the object has read. */
  function SeenOf(w: World, n: NamespacedName): nat
  {
    if n in w.seen then w.seen[n] else 0
  }

  function SidecarAt(c: Cluster, k: NamespacedName): Option<Versioned<SidecarSpec>>
  {
    if k in c.sidecars then Some(c.sidecars[k]) else None
  }

  /** A list response from a cache: any version of each object, each at most once. */
  ghost predicate ListResponse(w: World, items: seq<Item>)
  {
    && (forall i :: 0 <= i < |items| ==> FromLog(w, items[i]))
    && (forall i, j :: 0 <= i < j < |items| ==> items[i].name != items[j].name)
  }

  predicate FromLog(w: World, item: Item)
  {
    && item.name in w.cluster.lazy
    && item.stored.version < |LogOf(w, item.name)|
    && item.stored.value == LogOf(w, item.name)[item.stored.version].stored
  }

  // ----- steps -----

  datatype Action =
    | CreateObject(name: NamespacedName, stored: LazySidecar)
    | EditObject(name: NamespacedName, spec: LazySpec)
    | DeclareEntries(entries: seq<ServiceEntry>)
    | StartHandler(writer: nat, job: Job, items: seq<Item>)
    | WriteItem(writer: nat, delivered: bool)
    | ReadDerived(writer: nat, delivered: bool)
    | WriteDerived(writer: nat, delivered: bool)
    | BeginPass(name: NamespacedName, version: nat)
    | ProjectInPass(name: NamespacedName, delivered: bool)
    | WriteSidecarInPass(name: NamespacedName, delivered: bool)
    | WriteHostsInPass(name: NamespacedName, entries: seq<ServiceEntry>, delivered: bool)
    | WriteStatusInPass(name: NamespacedName, shown: nat, now: nat, delivered: bool)

  /** The world after an update of a LazySidecar; an accepted one is logged. */
  function CommitObject(w: World, n: NamespacedName, after: Cluster, cause: Cause): (v: World)
    ensures v.cluster == after && v.sidecarLogs == w.sidecarLogs && v.handlers == w.handlers
    ensures v.passes == w.passes && v.seen == w.seen && v.crashed == w.crashed
    ensures forall m :: if m == n then LogOf(w, m) <= LogOf(v, m) else LogOf(v, m) == LogOf(w, m)
  {
    if n in w.cluster.lazy && n in after.lazy && after.lazy[n] != w.cluster.lazy[n]
    then w.(cluster := after, logs := w.logs[n := LogOf(w, n) + [Commit(after.lazy[n].value, cause)]])
    else w.(cluster := after)
  }

  function CommitDerived(w: World, n: NamespacedName, draft: SidecarDraft): (v: World)
    ensures v.cluster.entries == w.cluster.entries && v.cluster.lazy == w.cluster.lazy && v.logs == w.logs
    ensures v.handlers == w.handlers && v.passes == w.passes && v.seen == w.seen && v.crashed == w.crashed
  {
    var k := Derived(n);
    var after := match draft.version
      case None => CreateSidecar(w.cluster, k, draft.content.sidecar)
      case Some(v) => UpdateSidecar(w.cluster, k, v, draft.content.sidecar);
    if SidecarAt(after, k) == SidecarAt(w.cluster, k) then w
    else w.(cluster := after, sidecarLogs := w.sidecarLogs[k := SidecarLogOf(w, k) + [draft.content]])
  }

  function SetHandler(w: World, writer: nat, h: Handler): World
  {
    w.(handlers := w.handlers[writer := h])
  }

  predicate Busy(w: World, writer: nat)
  {
    writer in w.handlers && w.handlers[writer].next < |w.handlers[writer].items|
  }

  function NextItem(h: Handler): Handler
  {
    h.(next := h.next + 1, stage := AtObject)
  }

  function AfterWrite(h: Handler): Handler
  {
    if h.job.RemoveHosts? then h.(stage := AtSidecar) else NextItem(h)
  }

  ghost function ItemWritten(w: World, item: Item, job: Job, delivered: bool): (v: World)
    ensures v.cluster.lazy.Keys == w.cluster.lazy.Keys && forall m :: LogOf(w, m) <= LogOf(v, m)
    ensures v.handlers == w.handlers
  {
    if delivered
    then CommitObject(w, item.name, WriteBack(w.cluster, item, ScopeOf(job), OpOf(job)), Written(OpOf(job)))
    else w
  }

  /** A Sidecar is read from the API server itself. Indexing its first listener
      panics when there is none. */
  function DerivedRead(w: World, writer: nat, h: Handler, n: NamespacedName, delivered: bool): World
  {
    var k := Derived(n);
    if !delivered || k !in w.cluster.sidecars || !h.job.RemoveHosts? then SetHandler(w, writer, NextItem(h))
    else
      var read := w.cluster.sidecars[k];
      if read.value.egress == [] then w.(crashed := Some(n))
      else
        var draft := Held(read, Qualify(h.job.namespace, h.job.hosts), Source(SidecarLogOf(w, k)));
        SetHandler(w, writer, h.(stage := Holding(draft)))
  }

  function DerivedWritten(w: World, n: NamespacedName, draft: SidecarDraft, delivered: bool): World
  {
    if delivered then CommitDerived(w, n, draft) else w
  }

  function SetPass(w: World, n: NamespacedName, p: Progress): World
  {
    w.(passes := w.passes[n := p])
  }

  predicate PassAt(w: World, n: NamespacedName, phase: Phase)
  {
    n in w.passes && w.passes[n].phase == phase
  }

  function PassProjected(w: World, n: NamespacedName, p: Progress): World
  {
    var found := SidecarAt(w.cluster, Derived(n));
    if Unwritable(found, p.spec) then w.(crashed := Some(n))
    else SetPass(w, n, p.(phase := Projected(DraftOf(found, p))))
  }

  function HostsWritten(w: World, n: NamespacedName, p: Progress, all: seq<Host>): (v: World)
    ensures v.cluster.lazy.Keys == w.cluster.lazy.Keys && forall m :: LogOf(w, m) <= LogOf(v, m)
    ensures v.handlers == w.handlers
  {
    CommitObject(w, n, RewriteHosts(w.cluster, n, p.version, p.spec, all), Written(Add(all)))
  }

  /** What a cache shows of the Sidecar: any version of it, or none. */
  function Cached(w: World, n: NamespacedName, shown: nat): Option<SidecarSpec>
  {
    var log := SidecarLogOf(w, Derived(n));
    if shown < |log| then Some(log[shown].sidecar) else None
  }

  function StatusReported(w: World, n: NamespacedName, p: Progress, shown: nat, now: nat): (v: World)
    ensures v.cluster.lazy.Keys == w.cluster.lazy.Keys && forall m :: LogOf(w, m) <= LogOf(v, m)
    ensures v.handlers == w.handlers
  {
    CommitObject(w, n, RewriteStatus(w.cluster, n, p.version, Visit(Cached(w, n, shown), now)), StatusWritten)
  }

  function WithObject(w: World, n: NamespacedName, stored: LazySidecar): World
  {
    w.(cluster := w.cluster.(lazy := w.cluster.lazy[n := Versioned(0, stored)]),
       logs := w.logs[n := [Commit(stored, First)]], seen := w.seen[n := 0])
  }

  // An action that does not apply changes nothing.

  function NextByUser(w: World, e: Action): (v: World)
    ensures v.handlers == w.handlers && v.passes == w.passes
  {
    match e
    case CreateObject(n, stored) =>
      if n in w.cluster.lazy then w else WithObject(w, n, stored)
    case EditObject(n, spec) =>
      if n !in w.cluster.lazy then w
      else CommitObject(w, n, UpdateSpec(w.cluster, n, w.cluster.lazy[n].version, spec), Edited(spec))
    case DeclareEntries(entries) => w.(cluster := w.cluster.(entries := entries))
    case _ => w
  }

  ghost function NextByHandler(w: World, e: Action): (v: World)
    ensures v.passes == w.passes && v.cluster.lazy.Keys == w.cluster.lazy.Keys
  {
    match e
    case StartHandler(writer, job, items) =>
      if writer in w.handlers || !ListResponse(w, items) then w
      else w.(handlers := w.handlers[writer := Handler(job, items, 0, AtObject)])
    case WriteItem(writer, delivered) =>
      if !Busy(w, writer) || !w.handlers[writer].stage.AtObject? then w
      else
        var h := w.handlers[writer];
        SetHandler(ItemWritten(w, h.items[h.next], h.job, delivered), writer, AfterWrite(h))
    case ReadDerived(writer, delivered) =>
      if !Busy(w, writer) || !w.handlers[writer].stage.AtSidecar? then w
      else
        var h := w.handlers[writer];
        DerivedRead(w, writer, h, h.items[h.next].name, delivered)
    case WriteDerived(writer, delivered) =>
      if !Busy(w, writer) || !w.handlers[writer].stage.Holding? then w
      else
        var h := w.handlers[writer];
        SetHandler(DerivedWritten(w, h.items[h.next].name, h.stage.draft, delivered), writer, NextItem(h))
    case _ => w
  }

  function NextByPass(w: World, e: Action): (v: World)
    ensures v.handlers == w.handlers && v.cluster.lazy.Keys == w.cluster.lazy.Keys
  {
    match e
    case BeginPass(n, v) =>
      if n !in w.cluster.lazy || n in w.passes || v < SeenOf(w, n) || v >= |LogOf(w, n)| then w
      else w.(passes := w.passes[n := Progress(v, LogOf(w, n)[v].stored.spec, Started)], seen := w.seen[n := v])
    case ProjectInPass(n, delivered) =>
      if !PassAt(w, n, Started) then w
      else if delivered then PassProjected(w, n, w.passes[n])
      else SetPass(w, n, w.passes[n].(phase := Rewriting))
    case WriteSidecarInPass(n, delivered) =>
      if n !in w.passes || !w.passes[n].phase.Projected? then w
      else
        var p := w.passes[n];
        SetPass(DerivedWritten(w, n, p.phase.draft, delivered), n, p.(phase := Rewriting))
    case WriteHostsInPass(n, entries, delivered) =>
      if !PassAt(w, n, Rewriting) then w
      else
        var p, all := w.passes[n], AllHosts(entries);
        if !delivered then SetPass(w, n, p.(phase := Reporting))
        else SetPass(HostsWritten(w, n, p, all), n,
                     p.(version := InstanceVersion(w.cluster, n, p.version, p.spec, all), phase := Reporting))
    case WriteStatusInPass(n, shown, now, delivered) =>
      if !PassAt(w, n, Reporting) then w
      else
        var reported := if delivered then StatusReported(w, n, w.passes[n], shown, now) else w;
        reported.(passes := reported.passes - {n})
    case _ => w
  }

  predicate ByUser(e: Action)
  {
    e.CreateObject? || e.EditObject? || e.DeclareEntries?
  }

  predicate ByHandler(e: Action)
  {
    e.StartHandler? || e.WriteItem? || e.ReadDerived? || e.WriteDerived?
  }

  /** Nothing happens after a panic. */
  ghost function NextWorld(w: World, e: Action): World
  {
    if w.crashed.Some? then w
    else if ByUser(e) then NextByUser(w, e)
    else if ByHandler(e) then NextByHandler(w, e)
    else NextByPass(w, e)
  }

  ghost function RunWorld(es: seq<Action>): World
  {
    if es == [] then EMPTY else NextWorld(RunWorld(es[..|es| - 1]), es[|es| - 1])
  }

  // ----- one object of the world -----

  ghost predicate HoldsFor(handlers: map<nat, Handler>, writer: nat, n: NamespacedName)
  {
    && writer in handlers && handlers[writer].next < |handlers[writer].items|
    && handlers[writer].items[handlers[writer].next].name == n && handlers[writer].stage.Holding?
  }

  ghost function DropsOf(handlers: map<nat, Handler>, n: NamespacedName): map<nat, SidecarDraft>
  {
    map writer | writer in handlers && HoldsFor(handlers, writer, n) :: handlers[writer].stage.draft
  }

  function PassOf(w: World, n: NamespacedName): Option<Progress>
  {
    if n in w.passes then Some(w.passes[n]) else None
  }

  /** The cell is all of the world that concerns one LazySidecar. A handler's list
      response is not part of it: the versions in it are in the log, and can still
      be read when the handler comes to the object. */
  ghost predicate Shows(w: World, n: NamespacedName, c: Cell)
  {
    && n in w.cluster.lazy
    && c.name == n && c.lazy == w.cluster.lazy[n] && c.log == LogOf(w, n)
    && c.sidecar == SidecarAt(w.cluster, Derived(n)) && c.sidecarLog == SidecarLogOf(w, Derived(n))
    && c.drafts == map[] && c.drops == DropsOf(w.handlers, n)
    && c.pass == PassOf(w, n) && c.seen == SeenOf(w, n)
    && c.crashed == (w.crashed == Some(n))
  }

  // ----- what each write is for one object -----

  /** A write to one LazySidecar does not concern another one ... */
  lemma CommitElsewhere(w: World, m: NamespacedName, after: Cluster, cause: Cause, n: NamespacedName, c: Cell)
    requires m != n && Shows(w, n, c) && n in after.lazy
    requires after.lazy[n] == w.cluster.lazy[n] && after.sidecars == w.cluster.sidecars
    ensures Shows(CommitObject(w, m, after, cause), n, c)
  {
  }

  /** ... and is a commit to this one. */
  lemma CommitHere(w: World, n: NamespacedName, readVersion: nat, value: LazySidecar, after: Cluster, cause: Cause, c: Cell)
    requires Shows(w, n, c) && n in after.lazy && after.sidecars == w.cluster.sidecars
    requires after.lazy[n] == TryUpdate(w.cluster.lazy[n], readVersion, value)
    ensures Shows(CommitObject(w, n, after, cause), n, CommitTo(c, readVersion, value, cause))
  {
    var done, committed := CommitObject(w, n, after, cause), CommitTo(c, readVersion, value, cause);
    if after.lazy[n] == w.cluster.lazy[n] {
      assert committed == c;
      assert LogOf(done, n) == LogOf(w, n);
    } else {
      assert LogOf(done, n) == LogOf(w, n) + [Commit(value, cause)];
      assert committed.log == c.log + [Commit(value, cause)];
      assert committed.drops == c.drops && committed.drafts == c.drafts && committed.pass == c.pass;
    }
  }

  /** Sidecars derived from different LazySidecars are different. */
  lemma CommitDerivedElsewhere(w: World, m: NamespacedName, draft: SidecarDraft, n: NamespacedName, c: Cell)
    requires m != n && Shows(w, n, c)
    ensures Shows(CommitDerived(w, m, draft), n, c)
  {
    if Derived(m) == Derived(n) {
      DerivedInjective(m, n);
      assert false;
    }
  }

  lemma ReplaceDerived(w: World, n: NamespacedName, s: Versioned<SidecarSpec>, draft: SidecarDraft, c: Cell, after: Cluster)
    requires Shows(w, n, c)
    requires after.lazy == w.cluster.lazy && SidecarAt(after, Derived(n)) == Some(s)
    ensures Shows(w.(cluster := after, sidecarLogs := w.sidecarLogs[Derived(n) := SidecarLogOf(w, Derived(n)) + [draft.content]]),
                  n, c.(sidecar := Some(s), sidecarLog := c.sidecarLog + [draft.content]))
  {
  }

  lemma CommitDerivedHere(w: World, n: NamespacedName, draft: SidecarDraft, c: Cell)
    requires Shows(w, n, c)
    ensures Shows(CommitDerived(w, n, draft), n, CommitSidecar(c, draft))
  {
    var k := Derived(n);
    var after := match draft.version
      case None => CreateSidecar(w.cluster, k, draft.content.sidecar)
      case Some(v) => UpdateSidecar(w.cluster, k, v, draft.content.sidecar);
    if SidecarAt(after, k) == SidecarAt(w.cluster, k) {
      assert CommitSidecar(c, draft) == c;
    } else {
      ReplaceDerived(w, n, after.sidecars[k], draft, c, after);
    }
  }

  // Handlers: what they hold for the Sidecar of one object.

  lemma HandlerElsewhere(w: World, writer: nat, h: Handler, n: NamespacedName, c: Cell)
    requires Shows(w, n, c)
    requires !HoldsFor(w.handlers, writer, n) && !HoldsFor(w.handlers[writer := h], writer, n)
    ensures Shows(SetHandler(w, writer, h), n, c)
  {
    var changed := w.handlers[writer := h];
    forall v ensures HoldsFor(changed, v, n) <==> HoldsFor(w.handlers, v, n) {
    }
    assert DropsOf(changed, n) == DropsOf(w.handlers, n);
  }

  lemma HandlerLetsGo(w: World, writer: nat, h: Handler, n: NamespacedName, c: Cell)
    requires Shows(w, n, c) && !HoldsFor(w.handlers[writer := h], writer, n)
    ensures Shows(SetHandler(w, writer, h), n, c.(drops := c.drops - {writer}))
  {
    var changed := w.handlers[writer := h];
    forall v | v != writer ensures HoldsFor(changed, v, n) <==> HoldsFor(w.handlers, v, n) {
    }
    assert DropsOf(changed, n) == DropsOf(w.handlers, n) - {writer};
  }

  lemma HandlerTakesUp(w: World, writer: nat, h: Handler, n: NamespacedName, c: Cell)
    requires Shows(w, n, c) && HoldsFor(w.handlers[writer := h], writer, n)
    ensures Shows(SetHandler(w, writer, h), n, c.(drops := c.drops[writer := h.stage.draft]))
  {
    var changed := w.handlers[writer := h];
    forall v | v != writer ensures HoldsFor(changed, v, n) <==> HoldsFor(w.handlers, v, n) {
    }
    assert DropsOf(changed, n) == DropsOf(w.handlers, n)[writer := h.stage.draft];
  }

  ghost function ItemEvents(writer: nat, item: Item, job: Job, delivered: bool): seq<Event>
  {
    if delivered && InScope(ScopeOf(job), item.stored.value.spec) && Writes(OpOf(job), item.stored.value.spec.egressHosts)
    then [Read(writer, item.stored.version, OpOf(job)), Write(writer, true)]
    else []
  }

  /** What a handler's write is for the object it is about. */
  ghost function ItemStep(c: Cell, item: Item, job: Job, delivered: bool): Cell
  {
    var spec := item.stored.value.spec;
    if delivered && InScope(ScopeOf(job), spec) && Writes(OpOf(job), spec.egressHosts)
    then CommitTo(c, item.stored.version, c.lazy.value.(spec := ApplyToSpec(OpOf(job), spec)), Written(OpOf(job)))
    else c
  }

  lemma ItemWrittenHere(w: World, item: Item, job: Job, delivered: bool, c: Cell)
    requires Shows(w, item.name, c)
    ensures Shows(ItemWritten(w, item, job, delivered), item.name, ItemStep(c, item, job, delivered))
  {
    var n, spec := item.name, item.stored.value.spec;
    if delivered && InScope(ScopeOf(job), spec) && Writes(OpOf(job), spec.egressHosts) {
      CommitHere(w, n, item.stored.version, w.cluster.lazy[n].value.(spec := ApplyToSpec(OpOf(job), spec)),
                 WriteBack(w.cluster, item, ScopeOf(job), OpOf(job)), Written(OpOf(job)), c);
    }
  }

  lemma ItemWrittenElsewhere(w: World, item: Item, job: Job, delivered: bool, n: NamespacedName, c: Cell)
    requires Shows(w, n, c) && item.name != n
    ensures Shows(ItemWritten(w, item, job, delivered), n, c)
  {
    if delivered {
      CommitElsewhere(w, item.name, WriteBack(w.cluster, item, ScopeOf(job), OpOf(job)), Written(OpOf(job)), n, c);
    }
  }

  lemma RunOne(c: Cell, e: Event)
    ensures Run(c, [e]) == Next(c, e)
  {
    assert [e][..0] == [] && Run(c, []) == c;
  }

  /** A read and a write of one handler with nothing of it in between. */
  lemma ReadWrite(c: Cell, writer: nat, item: Item, job: Job)
    requires !c.crashed && c.drafts == map[]
    requires item.stored.version < |c.log| && c.log[item.stored.version].stored == item.stored.value
    ensures Run(c, ItemEvents(writer, item, job, true)) == ItemStep(c, item, job, true)
  {
    var spec, op := item.stored.value.spec, OpOf(job);
    if InScope(ScopeOf(job), spec) && Writes(op, spec.egressHosts) {
      var read, write := Read(writer, item.stored.version, op), Write(writer, true);
      assert [read, write][..1] == [read];
      RunOne(c, read);
      assert map[writer := Draft(item.stored.version, ApplyToSpec(op, spec), op)] - {writer} == map[];
      assert Next(c, read).(drafts := map[]) == c;
    }
  }

  lemma WriteItemHere(w: World, writer: nat, h: Handler, item: Item, delivered: bool, c: Cell)
    requires Shows(w, item.name, c) && !HoldsFor(w.handlers, writer, item.name)
    ensures Shows(SetHandler(ItemWritten(w, item, h.job, delivered), writer, AfterWrite(h)), item.name,
                  ItemStep(c, item, h.job, delivered))
  {
    ItemWrittenHere(w, item, h.job, delivered, c);
    HandlerElsewhere(ItemWritten(w, item, h.job, delivered), writer, AfterWrite(h), item.name,
                     ItemStep(c, item, h.job, delivered));
  }

  lemma WriteItemElsewhere(w: World, writer: nat, h: Handler, item: Item, delivered: bool, n: NamespacedName, c: Cell)
    requires Shows(w, n, c) && item.name != n && !HoldsFor(w.handlers, writer, n)
    ensures Shows(SetHandler(ItemWritten(w, item, h.job, delivered), writer, AfterWrite(h)), n, c)
  {
    ItemWrittenElsewhere(w, item, h.job, delivered, n, c);
    HandlerElsewhere(ItemWritten(w, item, h.job, delivered), writer, AfterWrite(h), n, c);
  }

  lemma CrashShows(w: World, m: NamespacedName, n: NamespacedName, c: Cell)
    requires Shows(w, n, c) && w.crashed.None?
    ensures Shows(w.(crashed := Some(m)), n, if m == n then c.(crashed := true) else c)
  {
  }

  lemma ReadDerivedHere(w: World, writer: nat, h: Handler, n: NamespacedName, c: Cell)
    requires Shows(w, n, c) && w.crashed.None? && h.job.RemoveHosts?
    requires h.next < |h.items| && h.items[h.next].name == n && !HoldsFor(w.handlers, writer, n)
    ensures Shows(DerivedRead(w, writer, h, n, true), n, ReadForDrop(c, writer, Qualify(h.job.namespace, h.job.hosts)))
  {
    if c.sidecar.None? {
      HandlerElsewhere(w, writer, NextItem(h), n, c);
    } else if c.sidecar.value.value.egress == [] {
      CrashShows(w, n, n, c);
    } else {
      var draft := Held(c.sidecar.value, Qualify(h.job.namespace, h.job.hosts), Source(c.sidecarLog));
      HandlerTakesUp(w, writer, h.(stage := Holding(draft)), n, c);
    }
  }

  lemma ReadDerivedElsewhere(w: World, writer: nat, h: Handler, m: NamespacedName, delivered: bool, n: NamespacedName, c: Cell)
    requires Shows(w, n, c) && w.crashed.None? && (m != n || !delivered || !h.job.RemoveHosts?)
    requires h.next < |h.items| && h.items[h.next].name == m && !HoldsFor(w.handlers, writer, n)
    ensures Shows(DerivedRead(w, writer, h, m, delivered), n, c)
  {
    var after := DerivedRead(w, writer, h, m, delivered);
    if after.crashed.Some? {
      CrashShows(w, m, n, c);
    } else {
      HandlerElsewhere(w, writer, after.handlers[writer], n, c);
    }
  }

  lemma WriteDerivedHere(w: World, writer: nat, h: Handler, n: NamespacedName, delivered: bool, c: Cell)
    requires Shows(w, n, c) && w.crashed.None?
    requires HoldsFor(w.handlers, writer, n) && h == w.handlers[writer]
    ensures var written := if delivered then CommitSidecar(c, h.stage.draft) else c;
            Shows(SetHandler(DerivedWritten(w, n, h.stage.draft, delivered), writer, NextItem(h)), n,
                  written.(drops := c.drops - {writer}))
  {
    CommitDerivedHere(w, n, h.stage.draft, c);
    HandlerLetsGo(DerivedWritten(w, n, h.stage.draft, delivered), writer, NextItem(h), n,
                  if delivered then CommitSidecar(c, h.stage.draft) else c);
  }

  lemma WriteDerivedElsewhere(w: World, writer: nat, h: Handler, m: NamespacedName, delivered: bool, n: NamespacedName, c: Cell)
    requires Shows(w, n, c) && m != n && h.stage.Holding? && !HoldsFor(w.handlers, writer, n)
    ensures Shows(SetHandler(DerivedWritten(w, m, h.stage.draft, delivered), writer, NextItem(h)), n, c)
  {
    CommitDerivedElsewhere(w, m, h.stage.draft, n, c);
    HandlerElsewhere(DerivedWritten(w, m, h.stage.draft, delivered), writer, NextItem(h), n, c);
  }

  // Passes.

  lemma SetPassElsewhere(w: World, m: NamespacedName, p: Progress, n: NamespacedName, c: Cell)
    requires Shows(w, n, c) && m != n
    ensures Shows(SetPass(w, m, p), n, c)
  {
  }

  lemma SetPassHere(w: World, n: NamespacedName, p: Progress, c: Cell)
    requires Shows(w, n, c)
    ensures Shows(SetPass(w, n, p), n, c.(pass := Some(p)))
  {
  }

  lemma EndPass(w: World, m: NamespacedName, n: NamespacedName, c: Cell)
    requires Shows(w, n, c)
    ensures Shows(w.(passes := w.passes - {m}), n, if m == n then c.(pass := None) else c)
  {
  }

  lemma BeginPassHere(w: World, n: NamespacedName, p: Progress, c: Cell)
    requires Shows(w, n, c)
    ensures Shows(w.(passes := w.passes[n := p], seen := w.seen[n := p.version]), n, c.(pass := Some(p), seen := p.version))
  {
  }

  lemma BeginPassElsewhere(w: World, m: NamespacedName, p: Progress, n: NamespacedName, c: Cell)
    requires Shows(w, n, c) && m != n
    ensures Shows(w.(passes := w.passes[m := p], seen := w.seen[m := p.version]), n, c)
  {
  }

  lemma PassProjectedHere(w: World, n: NamespacedName, p: Progress, c: Cell)
    requires Shows(w, n, c) && w.crashed.None? && c.pass == Some(p)
    ensures Shows(PassProjected(w, n, p), n, Project(c))
  {
    if Unwritable(c.sidecar, p.spec) {
      CrashShows(w, n, n, c);
    } else {
      SetPassHere(w, n, p.(phase := Projected(DraftOf(c.sidecar, p))), c);
    }
  }

  lemma PassProjectedElsewhere(w: World, m: NamespacedName, p: Progress, n: NamespacedName, c: Cell)
    requires Shows(w, n, c) && w.crashed.None? && m != n
    ensures Shows(PassProjected(w, m, p), n, c)
  {
    var found := SidecarAt(w.cluster, Derived(m));
    if Unwritable(found, p.spec) {
      CrashShows(w, m, n, c);
    } else {
      SetPassElsewhere(w, m, p.(phase := Projected(DraftOf(found, p))), n, c);
    }
  }

  /** Without anything to add the code does not write at all, and a write would
      change nothing. */
  lemma HostsWrittenHere(w: World, n: NamespacedName, p: Progress, all: seq<Host>, c: Cell)
    requires Shows(w, n, c) && (p.version == c.lazy.version ==> p.spec == c.lazy.value.spec)
    ensures Shows(HostsWritten(w, n, p, all), n,
                  CommitTo(c, p.version, c.lazy.value.(spec := ApplyToSpec(Add(all), p.spec)), Written(Add(all))))
  {
    var after := RewriteHosts(w.cluster, n, p.version, p.spec, all);
    var value := c.lazy.value.(spec := ApplyToSpec(Add(all), p.spec));
    assert after.lazy[n] == TryUpdate(w.cluster.lazy[n], p.version, value);
    CommitHere(w, n, p.version, value, after, Written(Add(all)), c);
  }

  lemma HostsWrittenElsewhere(w: World, m: NamespacedName, p: Progress, all: seq<Host>, n: NamespacedName, c: Cell)
    requires Shows(w, n, c) && m != n
    ensures Shows(HostsWritten(w, m, p, all), n, c)
  {
    CommitElsewhere(w, m, RewriteHosts(w.cluster, m, p.version, p.spec, all), Written(Add(all)), n, c);
  }

  lemma RewriteHere(w: World, n: NamespacedName, p: Progress, all: seq<Host>, c: Cell)
    requires Shows(w, n, c) && c.pass == Some(p) && (p.version == c.lazy.version ==> p.spec == c.lazy.value.spec)
    ensures var version := InstanceVersion(w.cluster, n, p.version, p.spec, all);
            Shows(SetPass(HostsWritten(w, n, p, all), n, p.(version := version, phase := Reporting)), n, Rewrite(c, all))
  {
    var version := InstanceVersion(w.cluster, n, p.version, p.spec, all);
    var committed := CommitTo(c, p.version, c.lazy.value.(spec := ApplyToSpec(Add(all), p.spec)), Written(Add(all)));
    HostsWrittenHere(w, n, p, all, c);
    SetPassHere(HostsWritten(w, n, p, all), n, p.(version := version, phase := Reporting), committed);
    assert version == if p.version == c.lazy.version then committed.lazy.version else p.version;
  }

  lemma StatusReportedHere(w: World, n: NamespacedName, p: Progress, shown: nat, now: nat, c: Cell)
    requires Shows(w, n, c) && c.pass == Some(p)
    ensures Shows(StatusReported(w, n, p, shown, now), n, ReportStatus(c, shown, now))
  {
    var visit := Visit(Cached(w, n, shown), now);
    if visit.cached.Some? {
      var value := c.lazy.value.(status := SucceedStatus(n, visit.cached.value, now));
      CommitHere(w, n, p.version, value, RewriteStatus(w.cluster, n, p.version, visit), StatusWritten, c);
    }
  }

  lemma StatusReportedElsewhere(w: World, m: NamespacedName, p: Progress, shown: nat, now: nat, n: NamespacedName, c: Cell)
    requires Shows(w, n, c) && m != n
    ensures Shows(StatusReported(w, m, p, shown, now), n, c)
  {
    CommitElsewhere(w, m, RewriteStatus(w.cluster, m, p.version, Visit(Cached(w, m, shown), now)), StatusWritten, n, c);
  }

  // ----- one action is its steps -----

  /** The steps that an action is for one object. */
  ghost function StepsAt(w: World, e: Action, n: NamespacedName): seq<Event>
  {
    if w.crashed.Some? then [] else
    match e
    case EditObject(m, spec) => if m == n then [Edit(spec)] else []
    case WriteItem(writer, delivered) =>
      if !Busy(w, writer) || !w.handlers[writer].stage.AtObject? then []
      else
        var h := w.handlers[writer];
        if h.items[h.next].name == n then ItemEvents(writer, h.items[h.next], h.job, delivered) else []
    case ReadDerived(writer, delivered) =>
      if !Busy(w, writer) || !w.handlers[writer].stage.AtSidecar? then []
      else
        var h := w.handlers[writer];
        if h.items[h.next].name == n && delivered && h.job.RemoveHosts? then [ReadSidecar(writer, h.job.namespace, h.job.hosts)]
        else []
    case WriteDerived(writer, delivered) =>
      if HoldsFor(w.handlers, writer, n) then [WriteSidecar(writer, delivered)] else []
    case BeginPass(m, v) => if m == n then [PassRead(v)] else []
    case ProjectInPass(m, delivered) => if m == n then [PassProject(delivered)] else []
    case WriteSidecarInPass(m, delivered) => if m == n then [PassWriteSidecar(delivered)] else []
    case WriteHostsInPass(m, entries, delivered) => if m == n then [PassWriteHosts(AllHosts(entries), delivered)] else []
    case WriteStatusInPass(m, shown, now, delivered) => if m == n then [PassWriteStatus(shown, now, delivered)] else []
    case _ => []
  }

  ghost predicate Follows(w: World, e: Action, n: NamespacedName, c: Cell)
  {
    Shows(NextWorld(w, e), n, Run(c, StepsAt(w, e, n)))
  }

  lemma CreateElsewhere(w: World, m: NamespacedName, stored: LazySidecar, n: NamespacedName, c: Cell)
    requires Shows(w, n, c) && m != n
    ensures Shows(WithObject(w, m, stored), n, c)
  {
  }

  lemma CreateFollows(w: World, m: NamespacedName, stored: LazySidecar, n: NamespacedName, c: Cell)
    requires Shows(w, n, c) && w.crashed.None?
    ensures Follows(w, CreateObject(m, stored), n, c)
  {
    if m !in w.cluster.lazy {
      CreateElsewhere(w, m, stored, n, c);
    }
  }

  lemma EditFollows(w: World, m: NamespacedName, spec: LazySpec, n: NamespacedName, c: Cell)
    requires Shows(w, n, c) && w.crashed.None?
    ensures Follows(w, EditObject(m, spec), n, c)
  {
    if m == n {
      RunOne(c, Edit(spec));
    }
    if m in w.cluster.lazy {
      var after := UpdateSpec(w.cluster, m, w.cluster.lazy[m].version, spec);
      if m == n {
        CommitHere(w, n, c.lazy.version, c.lazy.value.(spec := spec), after, Edited(spec), c);
      } else {
        CommitElsewhere(w, m, after, Edited(spec), n, c);
      }
    }
  }

  lemma StartFollows(w: World, writer: nat, job: Job, items: seq<Item>, n: NamespacedName, c: Cell)
    requires Shows(w, n, c) && w.crashed.None?
    ensures Follows(w, StartHandler(writer, job, items), n, c)
  {
    if writer !in w.handlers {
      HandlerElsewhere(w, writer, Handler(job, items, 0, AtObject), n, c);
    }
  }

  lemma WriteItemFollows(w: World, writer: nat, delivered: bool, n: NamespacedName, c: Cell)
    requires Shows(w, n, c) && w.crashed.None?
    requires Busy(w, writer) ==> FromLog(w, w.handlers[writer].items[w.handlers[writer].next])
    ensures Follows(w, WriteItem(writer, delivered), n, c)
  {
    if Busy(w, writer) && w.handlers[writer].stage.AtObject? {
      var h := w.handlers[writer];
      var item := h.items[h.next];
      if item.name == n {
        WriteItemHere(w, writer, h, item, delivered, c);
        ReadWrite(c, writer, item, h.job);
      } else {
        WriteItemElsewhere(w, writer, h, item, delivered, n, c);
      }
    }
  }

  lemma ReadDerivedFollows(w: World, writer: nat, delivered: bool, n: NamespacedName, c: Cell)
    requires Shows(w, n, c) && w.crashed.None?
    ensures Follows(w, ReadDerived(writer, delivered), n, c)
  {
    if Busy(w, writer) && w.handlers[writer].stage.AtSidecar? {
      var h := w.handlers[writer];
      var m := h.items[h.next].name;
      if m == n && delivered && h.job.RemoveHosts? {
        ReadDerivedHere(w, writer, h, n, c);
        RunOne(c, ReadSidecar(writer, h.job.namespace, h.job.hosts));
      } else {
        ReadDerivedElsewhere(w, writer, h, m, delivered, n, c);
      }
    }
  }

  lemma WriteDerivedFollowsHere(w: World, writer: nat, delivered: bool, n: NamespacedName, c: Cell)
    requires Shows(w, n, c) && w.crashed.None? && HoldsFor(w.handlers, writer, n)
    ensures Follows(w, WriteDerived(writer, delivered), n, c)
  {
    WriteDerivedHere(w, writer, w.handlers[writer], n, delivered, c);
    RunOne(c, WriteSidecar(writer, delivered));
  }

  lemma WriteDerivedFollowsElsewhere(w: World, writer: nat, delivered: bool, n: NamespacedName, c: Cell)
    requires Shows(w, n, c) && w.crashed.None? && !HoldsFor(w.handlers, writer, n)
    ensures Follows(w, WriteDerived(writer, delivered), n, c)
  {
    if Busy(w, writer) && w.handlers[writer].stage.Holding? {
      var h := w.handlers[writer];
      WriteDerivedElsewhere(w, writer, h, h.items[h.next].name, delivered, n, c);
    }
  }

  lemma BeginPassFollows(w: World, m: NamespacedName, v: nat, n: NamespacedName, c: Cell)
    requires Shows(w, n, c) && w.crashed.None?
    ensures Follows(w, BeginPass(m, v), n, c)
  {
    if m == n {
      RunOne(c, PassRead(v));
    }
    if m in w.cluster.lazy && m !in w.passes && SeenOf(w, m) <= v < |LogOf(w, m)| {
      var p := Progress(v, LogOf(w, m)[v].stored.spec, Started);
      if m == n {
        BeginPassHere(w, n, p, c);
      } else {
        BeginPassElsewhere(w, m, p, n, c);
      }
    }
  }

  lemma ProjectFollows(w: World, m: NamespacedName, delivered: bool, n: NamespacedName, c: Cell)
    requires Shows(w, n, c) && w.crashed.None?
    ensures Follows(w, ProjectInPass(m, delivered), n, c)
  {
    if m == n {
      RunOne(c, PassProject(delivered));
    }
    if PassAt(w, m, Started) {
      var p := w.passes[m];
      if m == n {
        PassProjectedHere(w, n, p, c);
        SetPassHere(w, n, p.(phase := Rewriting), c);
      } else {
        PassProjectedElsewhere(w, m, p, n, c);
        SetPassElsewhere(w, m, p.(phase := Rewriting), n, c);
      }
    }
  }

  lemma WriteSidecarFollowsHere(w: World, delivered: bool, n: NamespacedName, c: Cell)
    requires Shows(w, n, c) && w.crashed.None?
    ensures Follows(w, WriteSidecarInPass(n, delivered), n, c)
  {
    RunOne(c, PassWriteSidecar(delivered));
    if n in w.passes && w.passes[n].phase.Projected? {
      var p := w.passes[n];
      CommitDerivedHere(w, n, p.phase.draft, c);
      SetPassHere(DerivedWritten(w, n, p.phase.draft, delivered), n, p.(phase := Rewriting),
                  if delivered then CommitSidecar(c, p.phase.draft) else c);
    }
  }

  lemma WriteSidecarFollowsElsewhere(w: World, m: NamespacedName, delivered: bool, n: NamespacedName, c: Cell)
    requires Shows(w, n, c) && w.crashed.None? && m != n
    ensures Follows(w, WriteSidecarInPass(m, delivered), n, c)
  {
    if m in w.passes && w.passes[m].phase.Projected? {
      var p := w.passes[m];
      CommitDerivedElsewhere(w, m, p.phase.draft, n, c);
      SetPassElsewhere(DerivedWritten(w, m, p.phase.draft, delivered), m, p.(phase := Rewriting), n, c);
    }
  }

  lemma WriteHostsFollowsHere(w: World, entries: seq<ServiceEntry>, delivered: bool, n: NamespacedName, c: Cell)
    requires Shows(w, n, c) && w.crashed.None? && Recorded(c)
    ensures Follows(w, WriteHostsInPass(n, entries, delivered), n, c)
  {
    var all := AllHosts(entries);
    RunOne(c, PassWriteHosts(all, delivered));
    if PassAt(w, n, Rewriting) {
      RewriteHere(w, n, w.passes[n], all, c);
      SetPassHere(w, n, w.passes[n].(phase := Reporting), c);
    }
  }

  lemma WriteHostsFollowsElsewhere(w: World, m: NamespacedName, entries: seq<ServiceEntry>, delivered: bool,
                                   n: NamespacedName, c: Cell)
    requires Shows(w, n, c) && w.crashed.None? && m != n
    ensures Follows(w, WriteHostsInPass(m, entries, delivered), n, c)
  {
    if PassAt(w, m, Rewriting) {
      var p, all := w.passes[m], AllHosts(entries);
      var version := InstanceVersion(w.cluster, m, p.version, p.spec, all);
      HostsWrittenElsewhere(w, m, p, all, n, c);
      SetPassElsewhere(HostsWritten(w, m, p, all), m, p.(version := version, phase := Reporting), n, c);
      SetPassElsewhere(w, m, p.(phase := Reporting), n, c);
    }
  }

  lemma WriteStatusFollowsHere(w: World, shown: nat, now: nat, delivered: bool, n: NamespacedName, c: Cell)
    requires Shows(w, n, c) && w.crashed.None?
    ensures Follows(w, WriteStatusInPass(n, shown, now, delivered), n, c)
  {
    RunOne(c, PassWriteStatus(shown, now, delivered));
    if PassAt(w, n, Reporting) {
      var p := w.passes[n];
      StatusReportedHere(w, n, p, shown, now, c);
      EndPass(if delivered then StatusReported(w, n, p, shown, now) else w, n, n,
              if delivered then ReportStatus(c, shown, now) else c);
    }
  }

  lemma WriteStatusFollowsElsewhere(w: World, m: NamespacedName, shown: nat, now: nat, delivered: bool,
                                    n: NamespacedName, c: Cell)
    requires Shows(w, n, c) && w.crashed.None? && m != n
    ensures Follows(w, WriteStatusInPass(m, shown, now, delivered), n, c)
  {
    if PassAt(w, m, Reporting) {
      var p := w.passes[m];
      StatusReportedElsewhere(w, m, p, shown, now, n, c);
      EndPass(if delivered then StatusReported(w, m, p, shown, now) else w, m, n, c);
    }
  }

  /** Everything that handlers have in memory came out of a log. */
  ghost predicate AllFromLog(w: World)
  {
    forall writer, i :: writer in w.handlers && 0 <= i < |w.handlers[writer].items| ==> FromLog(w, w.handlers[writer].items[i])
  }

  lemma HandlerActionFollows(w: World, e: Action, n: NamespacedName, c: Cell)
    requires Shows(w, n, c) && AllFromLog(w) && w.crashed.None? && ByHandler(e)
    ensures Follows(w, e, n, c)
  {
    match e {
      case StartHandler(writer, job, items) => StartFollows(w, writer, job, items, n, c);
      case WriteItem(writer, delivered) => WriteItemFollows(w, writer, delivered, n, c);
      case ReadDerived(writer, delivered) => ReadDerivedFollows(w, writer, delivered, n, c);
      case WriteDerived(writer, delivered) =>
        if HoldsFor(w.handlers, writer, n) {
          WriteDerivedFollowsHere(w, writer, delivered, n, c);
        } else {
          WriteDerivedFollowsElsewhere(w, writer, delivered, n, c);
        }
    }
  }

  lemma PassActionFollows(w: World, e: Action, n: NamespacedName, c: Cell)
    requires Shows(w, n, c) && w.crashed.None? && Recorded(c) && !ByUser(e) && !ByHandler(e)
    ensures Follows(w, e, n, c)
  {
    match e {
      case BeginPass(m, v) => BeginPassFollows(w, m, v, n, c);
      case ProjectInPass(m, delivered) => ProjectFollows(w, m, delivered, n, c);
      case WriteSidecarInPass(m, delivered) =>
        if m == n {
          WriteSidecarFollowsHere(w, delivered, n, c);
        } else {
          WriteSidecarFollowsElsewhere(w, m, delivered, n, c);
        }
      case WriteHostsInPass(m, entries, delivered) =>
        if m == n {
          WriteHostsFollowsHere(w, entries, delivered, n, c);
        } else {
          WriteHostsFollowsElsewhere(w, m, entries, delivered, n, c);
        }
      case WriteStatusInPass(m, shown, now, delivered) =>
        if m == n {
          WriteStatusFollowsHere(w, shown, now, delivered, n, c);
        } else {
          WriteStatusFollowsElsewhere(w, m, shown, now, delivered, n, c);
        }
    }
  }

  lemma UserActionFollows(w: World, e: Action, n: NamespacedName, c: Cell)
    requires Shows(w, n, c) && w.crashed.None? && ByUser(e)
    ensures Follows(w, e, n, c)
  {
    match e {
      case CreateObject(m, stored) => CreateFollows(w, m, stored, n, c);
      case EditObject(m, spec) => EditFollows(w, m, spec, n, c);
      case DeclareEntries(_) =>
    }
  }

  lemma NothingFollows(w: World, e: Action, n: NamespacedName, c: Cell)
    requires Shows(w, n, c) && w.crashed.Some?
    ensures Follows(w, e, n, c)
  {
  }

  /** Whatever the action is, it is a sequence of steps for the object. */
  lemma NextFollows(w: World, e: Action, n: NamespacedName, c: Cell)
    requires Shows(w, n, c) && AllFromLog(w) && Recorded(c)
    ensures Follows(w, e, n, c)
  {
    if w.crashed.Some? {
      NothingFollows(w, e, n, c);
    } else if ByUser(e) {
      UserActionFollows(w, e, n, c);
    } else if ByHandler(e) {
      HandlerActionFollows(w, e, n, c);
    } else {
      PassActionFollows(w, e, n, c);
    }
  }
}
