/** One LazySidecar, its derived Sidecar and everything that writes to them, in
    any interleaving. Every writer reads an object, which may be an old version
    from a cache, edits it in memory, and writes it back later; the write is
    accepted only if nobody else has written in between. */
module Interleaving {
  import opened HostLists
  import opened Projection
  import opened ReconcilePass
  import opened Store
  import opened Types

  // ----- state -----

  /** Why a version of the LazySidecar was committed. */
  datatype Cause = First | Edited(spec: LazySpec) | StatusWritten | Written(op: HostOp)

  datatype Commit = Commit(stored: LazySidecar, cause: Cause)

  /** A handler or report between its read and its write. */
  datatype Draft = Draft(version: nat, spec: LazySpec, op: HostOp)

  /** A Sidecar, with the version of the LazySidecar that its selector is from. */
  datatype Rendered = Rendered(sidecar: SidecarSpec, source: nat)

  /** A Sidecar to be written; without a version it is to be created. */
  datatype SidecarDraft = SidecarDraft(version: Option<nat>, content: Rendered)

  datatype Phase = Started | Projected(draft: SidecarDraft) | Rewriting | Reporting

  /** `Reconcile` between two of its API calls. One pass at a time per object. */
  datatype Progress = Progress(version: nat, spec: LazySpec, phase: Phase)

  datatype Cell = Cell(
    name: NamespacedName,
    lazy: Versioned<LazySidecar>,
    log: seq<Commit>,                       // every version committed so far
    sidecar: Option<Versioned<SidecarSpec>>,
    sidecarLog: seq<Rendered>,
    drafts: map<nat, Draft>,                // by writer
    drops: map<nat, SidecarDraft>,          // `RemoveDeriveSidecarHosts` calls, by writer
    pass: Option<Progress>,
    seen: nat,                              // the newest version a pass has read
    crashed: bool)

  function Fresh(name: NamespacedName, stored: LazySidecar): Cell
  {
    Cell(name, Versioned(0, stored), [Commit(stored, First)], None, [], map[], map[], None, 0, false)
  }

  // ----- steps -----

  /** `delivered` says whether the call reaches the API server. */
  datatype Event =
    | Edit(spec: LazySpec)
    | Read(writer: nat, version: nat, op: HostOp)
    | Write(writer: nat, delivered: bool)
    | ReadSidecar(writer: nat, namespace: string, hosts: seq<string>)
    | WriteSidecar(writer: nat, delivered: bool)
    | PassRead(version: nat)
    | PassProject(delivered: bool)
    | PassWriteSidecar(delivered: bool)
    | PassWriteHosts(all: seq<Host>, delivered: bool)
    | PassWriteStatus(shown: nat, now: nat, delivered: bool)

  function CommitTo(c: Cell, readVersion: nat, value: LazySidecar, cause: Cause): Cell
  {
    var updated := TryUpdate(c.lazy, readVersion, value);
    if updated == c.lazy then c else c.(lazy := updated, log := c.log + [Commit(value, cause)])
  }

  function CommitSidecar(c: Cell, draft: SidecarDraft): Cell
  {
    var updated := match draft.version
      case None => if c.sidecar.None? then Some(Versioned(0, draft.content.sidecar)) else c.sidecar
      case Some(v) => if c.sidecar.None? then None else Some(TryUpdate(c.sidecar.value, v, draft.content.sidecar));
    if updated == c.sidecar then c else c.(sidecar := updated, sidecarLog := c.sidecarLog + [draft.content])
  }

  predicate InPhase(c: Cell, phase: Phase)
  {
    c.pass.Some? && c.pass.value.phase == phase
  }

  function ToPhase(c: Cell, phase: Phase): Cell
    requires c.pass.Some?
  {
    c.(pass := Some(c.pass.value.(phase := phase)))
  }

  /** What a pass makes of the Sidecar it finds: sync it, or create one. */
  function DraftOf(found: Option<Versioned<SidecarSpec>>, p: Progress): SidecarDraft
  {
    match found
    case None => SidecarDraft(None, Rendered(Created(p.spec), p.version))
    case Some(s) => SidecarDraft(Some(s.version), Rendered(Synced(p.spec, s.value), p.version))
  }

  predicate Unwritable(found: Option<Versioned<SidecarSpec>>, spec: LazySpec)
  {
    found.Some? && SelectorPanics(spec, found.value.value)
  }

  /** In memory; a missing selector to write through is a crash. */
  function Project(c: Cell): Cell
    requires c.pass.Some?
  {
    if Unwritable(c.sidecar, c.pass.value.spec) then c.(crashed := true)
    else ToPhase(c, Projected(DraftOf(c.sidecar, c.pass.value)))
  }

  function Rewrite(c: Cell, all: seq<Host>): Cell
    requires c.pass.Some?
  {
    var p := c.pass.value;
    var after := CommitTo(c, p.version, c.lazy.value.(spec := ApplyToSpec(Add(all), p.spec)), Written(Add(all)));
    after.(pass := Some(p.(version := if p.version == c.lazy.version then after.lazy.version else p.version,
                           phase := Reporting)))
  }

  /** The status step reads the Sidecar from a cache: any version of it, or none. */
  function ReportStatus(c: Cell, shown: nat, now: nat): Cell
    requires c.pass.Some?
  {
    if shown >= |c.sidecarLog| then c
    else CommitTo(c, c.pass.value.version,
                  c.lazy.value.(status := SucceedStatus(c.name, c.sidecarLog[shown].sidecar, now)), StatusWritten)
  }

  /** Where the selector of the stored Sidecar is from. */
  function Source(log: seq<Rendered>): nat
  {
    if log == [] then 0 else log[|log| - 1].source
  }

  /** The Sidecar a handler has read, as the handler holds it. */
  function Held(read: Versioned<SidecarSpec>, handled: seq<Host>, source: nat): SidecarDraft
    requires read.value.egress != []
  {
    SidecarDraft(Some(read.version), Rendered(Dropped(read.value, handled), source))
  }

  /** `RemoveDeriveSidecarHosts` indexes the first listener without looking. */
  function ReadForDrop(c: Cell, w: nat, handled: seq<Host>): Cell
  {
    match c.sidecar
    case None => c
    case Some(s) =>
      if s.value.egress == [] then c.(crashed := true)
      else c.(drops := c.drops[w := Held(s, handled, Source(c.sidecarLog))])
  }

  /** An event that does not apply changes nothing, and nothing happens after a crash. */
  function Next(c: Cell, e: Event): Cell
  {
    if c.crashed then c else
    match e
    case Edit(spec) => CommitTo(c, c.lazy.version, c.lazy.value.(spec := spec), Edited(spec))
    case Read(w, v, op) =>
      if v >= |c.log| then c
      else c.(drafts := c.drafts[w := Draft(v, ApplyToSpec(op, c.log[v].stored.spec), op)])
    case Write(w, delivered) =>
      if w !in c.drafts then c
      else
        var d, rest := c.drafts[w], c.(drafts := c.drafts - {w});
        if delivered then CommitTo(rest, d.version, c.lazy.value.(spec := d.spec), Written(d.op)) else rest
    case ReadSidecar(w, namespace, hosts) =>
      ReadForDrop(c, w, Qualify(namespace, hosts))
    case WriteSidecar(w, delivered) =>
      if w !in c.drops then c
      else (if delivered then CommitSidecar(c, c.drops[w]) else c).(drops := c.drops - {w})
    case PassRead(v) =>
      if c.pass.Some? || v < c.seen || v >= |c.log| then c
      else c.(pass := Some(Progress(v, c.log[v].stored.spec, Started)), seen := v)
    case PassProject(delivered) =>
      if !InPhase(c, Started) then c
      else if delivered then Project(c) else ToPhase(c, Rewriting)
    case PassWriteSidecar(delivered) =>
      if c.pass.None? || !c.pass.value.phase.Projected? then c
      else
        var p := c.pass.value;
        (if delivered then CommitSidecar(c, p.phase.draft) else c).(pass := Some(p.(phase := Rewriting)))
    case PassWriteHosts(all, delivered) =>
      if !InPhase(c, Rewriting) then c
      else if delivered then Rewrite(c, all) else ToPhase(c, Reporting)
    case PassWriteStatus(shown, now, delivered) =>
      if !InPhase(c, Reporting) then c
      else (if delivered then ReportStatus(c, shown, now) else c).(pass := None)
  }

  function Run(c: Cell, es: seq<Event>): Cell
  {
    if es == [] then c else Next(Run(c, es[..|es| - 1]), es[|es| - 1])
  }

  /** A call that does not reach the API server commits nothing. */
  lemma LostCallsCommitNothing(c: Cell, e: Event)
    requires || (e.Write? && !e.delivered) || (e.WriteSidecar? && !e.delivered) || (e.PassWriteSidecar? && !e.delivered)
             || (e.PassWriteHosts? && !e.delivered) || (e.PassWriteStatus? && !e.delivered)
             || (e.PassProject? && !e.delivered)
    ensures var after := Next(c, e);
            && after.lazy == c.lazy && after.log == c.log && after.sidecar == c.sidecar && after.sidecarLog == c.sidecarLog
            && after.crashed == c.crashed
  {
  }

  // ----- no lost updates -----

  /** What a commit makes of the spec that was committed just before it. */
  function Effect(cause: Cause, spec: LazySpec): LazySpec
  {
    match cause
    case First => spec
    case Edited(s) => s
    case StatusWritten => spec
    case Written(op) => ApplyToSpec(op, spec)
  }

  /** The log is complete, and every version in it is the effect of its cause on
      the version before. */
  ghost predicate LogRecorded(lazy: Versioned<LazySidecar>, log: seq<Commit>)
  {
    && |log| == lazy.version + 1
    && log[lazy.version].stored == lazy.value
    && forall i :: 0 < i < |log| ==> log[i].stored.spec == Effect(log[i].cause, log[i - 1].stored.spec)
  }

  /** Everything in memory stems from a version in the log. */
  ghost predicate DraftRecorded(log: seq<Commit>, d: Draft)
  {
    d.version < |log| && d.spec == ApplyToSpec(d.op, log[d.version].stored.spec)
  }

  ghost predicate PassRecorded(c: Cell)
  {
    && c.seen < |c.log|
    && (c.pass.Some? ==> var p := c.pass.value;
          && p.version < |c.log|
          && (!p.phase.Reporting? ==> p.version == c.seen && p.spec == c.log[p.version].stored.spec))
  }

  ghost predicate SidecarRecorded(sidecar: Option<Versioned<SidecarSpec>>, log: seq<Rendered>)
  {
    match sidecar
    case None => log == []
    case Some(s) => |log| == s.version + 1 && log[s.version].sidecar == s.value
  }

  ghost predicate Recorded(c: Cell)
  {
    && LogRecorded(c.lazy, c.log)
    && SidecarRecorded(c.sidecar, c.sidecarLog)
    && (forall w :: w in c.drafts ==> DraftRecorded(c.log, c.drafts[w]))
    && PassRecorded(c)
  }

  lemma CommitRecorded(c: Cell, readVersion: nat, value: LazySidecar, cause: Cause)
    requires Recorded(c)
    requires readVersion == c.lazy.version ==> value.spec == Effect(cause, c.lazy.value.spec)
    ensures Recorded(CommitTo(c, readVersion, value, cause))
  {
    var after := CommitTo(c, readVersion, value, cause);
    assert forall i :: 0 <= i < |c.log| ==> after.log[i] == c.log[i];
  }

  lemma WriteRecorded(c: Cell, w: nat, delivered: bool)
    requires Recorded(c)
    ensures Recorded(Next(c, Write(w, delivered)))
  {
    if !c.crashed && w in c.drafts && delivered {
      var d := c.drafts[w];
      CommitRecorded(c.(drafts := c.drafts - {w}), d.version, c.lazy.value.(spec := d.spec), Written(d.op));
    }
  }

  lemma RewriteRecorded(c: Cell, all: seq<Host>, delivered: bool)
    requires Recorded(c)
    ensures Recorded(Next(c, PassWriteHosts(all, delivered)))
  {
    if !c.crashed && InPhase(c, Rewriting) && delivered {
      var p := c.pass.value;
      CommitRecorded(c, p.version, c.lazy.value.(spec := ApplyToSpec(Add(all), p.spec)), Written(Add(all)));
    }
  }

  lemma StatusRecorded(c: Cell, shown: nat, now: nat, delivered: bool)
    requires Recorded(c)
    ensures Recorded(Next(c, PassWriteStatus(shown, now, delivered)))
  {
    if !c.crashed && InPhase(c, Reporting) && delivered && shown < |c.sidecarLog| {
      CommitRecorded(c, c.pass.value.version,
                     c.lazy.value.(status := SucceedStatus(c.name, c.sidecarLog[shown].sidecar, now)), StatusWritten);
    }
  }

  /** The steps that do not write the LazySidecar. */
  lemma QuietHandlerRecorded(c: Cell, e: Event)
    requires Recorded(c) && (e.Read? || e.ReadSidecar? || e.WriteSidecar?)
    ensures Recorded(Next(c, e))
  {
  }

  lemma PassReadRecorded(c: Cell, version: nat)
    requires Recorded(c)
    ensures Recorded(Next(c, PassRead(version)))
  {
  }

  lemma PassProjectRecorded(c: Cell, delivered: bool)
    requires Recorded(c)
    ensures Recorded(Next(c, PassProject(delivered)))
  {
  }

  lemma PassWriteSidecarRecorded(c: Cell, delivered: bool)
    requires Recorded(c)
    ensures Recorded(Next(c, PassWriteSidecar(delivered)))
  {
  }

  lemma NextRecorded(c: Cell, e: Event)
    requires Recorded(c)
    ensures Recorded(Next(c, e))
  {
    match e {
      case Edit(spec) => CommitRecorded(c, c.lazy.version, c.lazy.value.(spec := spec), Edited(spec));
      case Write(w, delivered) => WriteRecorded(c, w, delivered);
      case PassWriteHosts(all, delivered) => RewriteRecorded(c, all, delivered);
      case PassWriteStatus(shown, now, delivered) => StatusRecorded(c, shown, now, delivered);
      case PassRead(version) => PassReadRecorded(c, version);
      case PassProject(delivered) => PassProjectRecorded(c, delivered);
      case PassWriteSidecar(delivered) => PassWriteSidecarRecorded(c, delivered);
      case _ => QuietHandlerRecorded(c, e);
    }
  }

  /** In every interleaving each committed version is the effect of one writer on
      the version committed immediately before: no write is lost. */
  lemma {:induction false} NoLostUpdates(name: NamespacedName, stored: LazySidecar, es: seq<Event>)
    ensures Recorded(Run(Fresh(name, stored), es))
  {
    if es != [] {
      NoLostUpdates(name, stored, es[..|es| - 1]);
      NextRecorded(Run(Fresh(name, stored), es[..|es| - 1]), es[|es| - 1]);
    }
  }

  /** All the causes one after the other, as if the writers had taken turns. */
  function Replay(log: seq<Commit>, spec: LazySpec): LazySpec
  {
    if log == [] then spec
    else Effect(log[|log| - 1].cause, Replay(log[..|log| - 1], spec))
  }

  /** The outcome of every run is the outcome of running its successful writers
      one at a time, in the order of their commits. */
  lemma {:induction false} Serialisable(c: Cell, i: nat, j: nat)
    requires Recorded(c) && i <= j < |c.log|
    ensures c.log[j].stored.spec == Replay(c.log[i + 1..j + 1], c.log[i].stored.spec)
  {
    if i < j {
      Serialisable(c, i, j - 1);
      assert c.log[i + 1..j + 1][..j - i - 1] == c.log[i + 1..j];
    }
  }

  /** A stored host leaves only at an edit, or at a removal that names it. */
  lemma LeavesOnlyWhenRemoved(c: Cell, i: nat, h: Host)
    requires Recorded(c) && i + 1 < |c.log|
    requires h in c.log[i].stored.spec.egressHosts && h !in c.log[i + 1].stored.spec.egressHosts
    ensures var cause := c.log[i + 1].cause;
            cause.Edited? || (cause.Written? && cause.op.Remove? && h in cause.op.handled)
  {
    var before := c.log[i].stored.spec.egressHosts;
    var cause := c.log[i + 1].cause;
    assert c.log[i + 1].stored.spec == Effect(cause, c.log[i].stored.spec);
    if cause.Written? {
      match cause.op {
        case Add(hosts) => AddMissingCounts(before, hosts, h);
        case Remove(handled) => WithoutCounts(before, handled, h);
        case Append(_) =>
      }
    }
  }

  /** A host that is stored and later is not was taken out by one of the commits
      in between; so without removals and edits the stored set only grows. */
  lemma {:induction false} TakenOutInBetween(c: Cell, i: nat, j: nat, h: Host) returns (k: nat)
    requires Recorded(c) && i <= j < |c.log|
    requires h in c.log[i].stored.spec.egressHosts && h !in c.log[j].stored.spec.egressHosts
    ensures i < k <= j
    ensures var cause := c.log[k].cause;
            cause.Edited? || (cause.Written? && cause.op.Remove? && h in cause.op.handled)
  {
    if h in c.log[j - 1].stored.spec.egressHosts {
      LeavesOnlyWhenRemoved(c, j - 1, h);
      k := j;
    } else {
      k := TakenOutInBetween(c, i, j - 1, h);
    }
  }

  // ----- every commit is some writer's -----

  /** The event brings this cause into the system. */
  predicate Issues(e: Event, cause: Cause)
  {
    match e
    case Edit(spec) => cause == Edited(spec)
    case Read(_, _, op) => cause == Written(op)
    case PassWriteHosts(all, _) => cause == Written(Add(all))
    case PassWriteStatus(_, _, _) => cause == StatusWritten
    case _ => false
  }

  ghost predicate Issued(es: seq<Event>, cause: Cause)
  {
    exists i :: 0 <= i < |es| && Issues(es[i], cause)
  }

  ghost predicate AllIssued(log: seq<Commit>, drafts: map<nat, Draft>, es: seq<Event>)
  {
    && |log| > 0
    && (forall i :: 0 < i < |log| ==> Issued(es, log[i].cause))
    && (forall w :: w in drafts ==> Issued(es, Written(drafts[w].op)))
  }

  lemma IssuedLater(es: seq<Event>, e: Event, cause: Cause)
    requires Issued(es, cause) || Issues(e, cause)
    ensures Issued(es + [e], cause)
  {
    var longer := es + [e];
    assert longer[|es|] == e && forall i :: 0 <= i < |es| ==> longer[i] == es[i];
    assert Issues(e, cause) ==> Issues(longer[|es|], cause);
    if i :| 0 <= i < |es| && Issues(es[i], cause) {
      assert Issues(longer[i], cause);
    }
  }

  /** One step adds at most one version, and adds it for a cause at hand. */
  lemma NextCommits(c: Cell, e: Event)
    ensures var after := Next(c, e);
            after.log == c.log
            || (|after.log| == |c.log| + 1 && after.log[..|c.log|] == c.log
                && (Issues(e, after.log[|c.log|].cause)
                    || exists w :: w in c.drafts && after.log[|c.log|].cause == Written(c.drafts[w].op)))
    ensures forall w :: w in Next(c, e).drafts ==>
              Issues(e, Written(Next(c, e).drafts[w].op)) || (w in c.drafts && Next(c, e).drafts[w] == c.drafts[w])
  {
  }

  lemma NextIssued(c: Cell, es: seq<Event>, e: Event)
    requires AllIssued(c.log, c.drafts, es)
    ensures AllIssued(Next(c, e).log, Next(c, e).drafts, es + [e])
  {
    var after := Next(c, e);
    NextCommits(c, e);
    forall i | 0 < i < |after.log| ensures Issued(es + [e], after.log[i].cause) {
      assert i < |c.log| ==> after.log[i] == c.log[i];
      IssuedLater(es, e, after.log[i].cause);
    }
    forall w | w in after.drafts ensures Issued(es + [e], Written(after.drafts[w].op)) {
      IssuedLater(es, e, Written(after.drafts[w].op));
    }
  }

  /** Whatever is committed was started by an event of the run. */
  lemma {:induction false} CommitsAreIssued(name: NamespacedName, stored: LazySidecar, es: seq<Event>)
    ensures var c := Run(Fresh(name, stored), es); AllIssued(c.log, c.drafts, es)
  {
    if es != [] {
      var front := es[..|es| - 1];
      CommitsAreIssued(name, stored, front);
      NextIssued(Run(Fresh(name, stored), front), front, es[|es| - 1]);
      assert front + [es[|es| - 1]] == es;
    }
  }

  /** In a run without edits and without removals of it, a stored host stays. */
  lemma StaysStored(name: NamespacedName, stored: LazySidecar, es: seq<Event>, i: nat, j: nat, h: Host)
    requires forall a :: 0 <= a < |es| ==> !es[a].Edit? && (es[a].Read? && es[a].op.Remove? ==> h !in es[a].op.handled)
    requires var c := Run(Fresh(name, stored), es); i <= j < |c.log| && h in c.log[i].stored.spec.egressHosts
    ensures h in Run(Fresh(name, stored), es).log[j].stored.spec.egressHosts
  {
    var c := Run(Fresh(name, stored), es);
    NoLostUpdates(name, stored, es);
    if h !in c.log[j].stored.spec.egressHosts {
      var k := TakenOutInBetween(c, i, j, h);
      CommitsAreIssued(name, stored, es);
      assert false;
    }
  }
}
