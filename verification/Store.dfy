/** The API server as its clients see it: versioned objects, and what each writer
    makes of them. The imperative writers in Controller are proved against these
    functions, and Interleaving runs them with stale reads. */
module Store {
  import opened HostLists
  import opened LabelMatch
  import opened Projection
  import opened Types

  // ----- optimistic concurrency -----

  datatype Versioned<T> = Versioned(version: nat, value: T)

  /** An update is accepted only when it was computed from the current version
      (Kubernetes API Conventions, "Concurrency Control and Consistency"). An
      accepted update that changes nothing keeps the version. */
  function TryUpdate<T(==)>(current: Versioned<T>, readVersion: nat, value: T): Versioned<T>
  {
    if readVersion != current.version || value == current.value then current
    else Versioned(current.version + 1, value)
  }

  // ----- what the writers do to a host list -----

  datatype HostOp = Add(hosts: seq<Host>) | Remove(handled: seq<Host>) | Append(host: Host)

  function Apply(op: HostOp, stored: seq<Host>): seq<Host>
  {
    match op
    case Add(hosts) => AddMissing(stored, hosts)
    case Remove(handled) => Without(stored, handled)
    case Append(host) => AppendIfAbsent(stored, host)
  }

  /** Whether the writer calls the API at all: the removal loop always does. */
  predicate Writes(op: HostOp, stored: seq<Host>)
  {
    op.Remove? || Apply(op, stored) != stored
  }

  function ApplyToSpec(op: HostOp, spec: LazySpec): LazySpec
  {
    spec.(egressHosts := Apply(op, spec.egressHosts))
  }

  // ----- the stored objects -----

  datatype Cluster = Cluster(
    entries: seq<ServiceEntry>,
    lazy: map<NamespacedName, Versioned<LazySidecar>>,
    sidecars: map<NamespacedName, Versioned<SidecarSpec>>)

  /** One element of a list response. */
  datatype Item = Item(name: NamespacedName, stored: Versioned<LazySidecar>)

  /** Update of the main resource: the status of the stored object is kept. */
  function UpdateSpec(c: Cluster, n: NamespacedName, readVersion: nat, spec: LazySpec): Cluster
  {
    if n !in c.lazy then c
    else c.(lazy := c.lazy[n := TryUpdate(c.lazy[n], readVersion, c.lazy[n].value.(spec := spec))])
  }

  /** Update of the status subresource: the spec of the stored object is kept. */
  function UpdateStatus(c: Cluster, n: NamespacedName, readVersion: nat, status: Status): Cluster
  {
    if n !in c.lazy then c
    else c.(lazy := c.lazy[n := TryUpdate(c.lazy[n], readVersion, c.lazy[n].value.(status := status))])
  }

  function UpdateSidecar(c: Cluster, k: NamespacedName, readVersion: nat, sidecar: SidecarSpec): Cluster
  {
    if k !in c.sidecars then c
    else c.(sidecars := c.sidecars[k := TryUpdate(c.sidecars[k], readVersion, sidecar)])
  }

  function CreateSidecar(c: Cluster, k: NamespacedName, sidecar: SidecarSpec): Cluster
  {
    if k in c.sidecars then c
    else c.(sidecars := c.sidecars[k := Versioned(0, sidecar)])
  }

  // ----- the writers that go through a list of LazySidecars -----

  /** Which items of the list a writer is about. */
  datatype Scope = All | Matching(workload: map<string, string>)

  ghost predicate InScope(scope: Scope, spec: LazySpec)
  {
    scope.All? || Matches(scope.workload, spec.selector)
  }

  /** Writing one item back: the whole spec, computed from what was read. */
  ghost function WriteBack(c: Cluster, item: Item, scope: Scope, op: HostOp): Cluster
  {
    var spec := item.stored.value.spec;
    if InScope(scope, spec) && Writes(op, spec.egressHosts)
    then UpdateSpec(c, item.name, item.stored.version, ApplyToSpec(op, spec))
    else c
  }

  ghost function WriteAll(c: Cluster, items: seq<Item>, scope: Scope, op: HostOp): Cluster
  {
    if items == [] then c
    else WriteBack(WriteAll(c, items[..|items| - 1], scope, op), items[|items| - 1], scope, op)
  }

  /** What a writer makes of one stored LazySidecar it has read just now. */
  ghost function Rewritten(stored: Versioned<LazySidecar>, scope: Scope, op: HostOp): Versioned<LazySidecar>
  {
    var spec := stored.value.spec;
    if InScope(scope, spec) then TryUpdate(stored, stored.version, stored.value.(spec := ApplyToSpec(op, spec)))
    else stored
  }

  ghost function RewriteEvery(c: Cluster, scope: Scope, op: HostOp): Cluster
  {
    c.(lazy := map n | n in c.lazy :: Rewritten(c.lazy[n], scope, op))
  }

  /** `RemoveDeriveSidecarHosts`; without a Sidecar there is nothing to do. */
  function DropFrom(c: Cluster, k: NamespacedName, handled: seq<Host>): Cluster
  {
    if k !in c.sidecars || c.sidecars[k].value.egress == [] then c
    else UpdateSidecar(c, k, c.sidecars[k].version, Dropped(c.sidecars[k].value, handled))
  }

  ghost function RemoveAll(c: Cluster, items: seq<Item>, handled: seq<Host>): Cluster
  {
    if items == [] then c
    else
      var last := items[|items| - 1];
      DropFrom(WriteBack(RemoveAll(c, items[..|items| - 1], handled), last, All, Remove(handled)),
               Derived(last.name), handled)
  }

  ghost function DropOne(sidecar: Versioned<SidecarSpec>, handled: seq<Host>): Versioned<SidecarSpec>
  {
    if sidecar.value.egress == [] then sidecar
    else TryUpdate(sidecar, sidecar.version, Dropped(sidecar.value, handled))
  }

  /** Every LazySidecar loses the handled hosts, and so does every Sidecar that is
      derived from one. */
  ghost function RemoveEvery(c: Cluster, handled: seq<Host>): Cluster
  {
    RewriteEvery(c, All, Remove(handled)).(
      sidecars := map k | k in c.sidecars ::
                    if DerivedFrom(c.lazy.Keys, k) then DropOne(c.sidecars[k], handled) else c.sidecars[k])
  }

  /** Every Sidecar derived from one of these has a first listener to index. */
  ghost predicate Indexable(c: Cluster, names: set<NamespacedName>)
  {
    forall n :: n in names && Derived(n) in c.sidecars ==> c.sidecars[Derived(n)].value.egress != []
  }

  // ----- a list response with nothing stale in it -----

  ghost predicate FreshItems(c: Cluster, items: seq<Item>)
  {
    && (forall i :: 0 <= i < |items| ==> items[i].name in c.lazy && items[i].stored == c.lazy[items[i].name])
    && (forall i, j :: 0 <= i < j < |items| ==> items[i].name != items[j].name)
  }

  ghost function ItemNames(items: seq<Item>): set<NamespacedName>
  {
    set i | 0 <= i < |items| :: items[i].name
  }

  lemma ItemNamesSnoc(items: seq<Item>, item: Item)
    ensures ItemNames(items + [item]) == ItemNames(items) + {item.name}
  {
    var longer := items + [item];
    assert longer[|items|] == item && forall i :: 0 <= i < |items| ==> longer[i] == items[i];
  }

  lemma FreshSnoc(c: Cluster, items: seq<Item>, n: NamespacedName)
    requires FreshItems(c, items) && n in c.lazy && n !in ItemNames(items)
    ensures FreshItems(c, items + [Item(n, c.lazy[n])])
  {
  }

  /** After a fresh listing the writes do not get in each other's way, in
      whatever order the items come. */
  lemma {:induction false} WriteAllAt(c: Cluster, items: seq<Item>, scope: Scope, op: HostOp, n: NamespacedName)
    requires FreshItems(c, items)
    ensures var w := WriteAll(c, items, scope, op);
            && w.entries == c.entries && w.sidecars == c.sidecars && w.lazy.Keys == c.lazy.Keys
            && (n in c.lazy ==> w.lazy[n] == if n in ItemNames(items) then Rewritten(c.lazy[n], scope, op) else c.lazy[n])
  {
    if items != [] {
      var front, last := items[..|items| - 1], items[|items| - 1];
      assert FreshItems(c, front);
      WriteAllAt(c, front, scope, op, n);
      WriteAllAt(c, front, scope, op, last.name);
      assert last.name !in ItemNames(front);
      assert ItemNames(items) == ItemNames(front) + {last.name};
    }
  }

  lemma WriteAllIsRewriteEvery(c: Cluster, items: seq<Item>, scope: Scope, op: HostOp)
    requires FreshItems(c, items) && ItemNames(items) == c.lazy.Keys
    ensures WriteAll(c, items, scope, op) == RewriteEvery(c, scope, op)
  {
    forall n { WriteAllAt(c, items, scope, op, n); }
    assert WriteAll(c, items, scope, op).lazy == RewriteEvery(c, scope, op).lazy;
  }

  /** Removing from the LazySidecars and removing from their Sidecars are
      independent of each other. */
  lemma {:induction false} RemoveAllLazy(c: Cluster, items: seq<Item>, handled: seq<Host>)
    ensures RemoveAll(c, items, handled).lazy == WriteAll(c, items, All, Remove(handled)).lazy
    ensures RemoveAll(c, items, handled).entries == c.entries
  {
    if items != [] {
      RemoveAllLazy(c, items[..|items| - 1], handled);
    }
  }

  ghost predicate DerivedFrom(names: set<NamespacedName>, k: NamespacedName)
  {
    exists n :: n in names && k == Derived(n)
  }

  lemma {:induction false} RemoveAllAt(c: Cluster, items: seq<Item>, handled: seq<Host>, k: NamespacedName)
    requires FreshItems(c, items)
    ensures var w := RemoveAll(c, items, handled);
            && w.sidecars.Keys == c.sidecars.Keys
            && (k in c.sidecars ==>
                  w.sidecars[k] == if DerivedFrom(ItemNames(items), k) then DropOne(c.sidecars[k], handled) else c.sidecars[k])
  {
    if items != [] {
      var front, last := items[..|items| - 1], items[|items| - 1];
      assert FreshItems(c, front);
      RemoveAllAt(c, front, handled, k);
      assert ItemNames(items) == ItemNames(front) + {last.name};
      assert DerivedFrom(ItemNames(items), k) <==> DerivedFrom(ItemNames(front), k) || k == Derived(last.name);
      if k == Derived(last.name) && DerivedFrom(ItemNames(front), k) {
        var n :| n in ItemNames(front) && k == Derived(n);
        DerivedInjective(n, last.name);
        assert false;
      }
    }
  }

  lemma RemoveAllIsRemoveEvery(c: Cluster, items: seq<Item>, handled: seq<Host>)
    requires FreshItems(c, items) && ItemNames(items) == c.lazy.Keys
    ensures RemoveAll(c, items, handled) == RemoveEvery(c, handled)
  {
    RemoveAllLazy(c, items, handled);
    WriteAllIsRewriteEvery(c, items, All, Remove(handled));
    forall k { RemoveAllAt(c, items, handled, k); }
    assert RemoveAll(c, items, handled).sidecars == RemoveEvery(c, handled).sidecars;
  }
}
