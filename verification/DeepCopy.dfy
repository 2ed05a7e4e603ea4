/** The generated deep copies. A Go struct is a value that may hold references:
    here a datatype whose slices, maps and pointers are heap objects, so that
    `*out = *in` is the copy that shares them all. Nil is null. */
module DeepCopy {
  import opened HostLists
  import opened ListKernels
  import opened Types

  class StringMap {
    var entries: map<string, string>

    constructor (entries: map<string, string>)
      ensures this.entries == entries
    {
      this.entries := entries;
    }
  }

  class IntCell {
    var value: int

    constructor (value: int)
      ensures this.value == value
    {
      this.value := value;
    }
  }

  // ----- lists -----

  ghost function ListValue<T>(a: array?<T>): Option<seq<T>>
    reads a
  {
    if a == null then None else Some(a[..])
  }

  /** `make` and `copy` for a list that is not nil. */
  method CopyList<T(0)>(source: array?<T>) returns (out: array?<T>)
    ensures ListValue(out) == ListValue(source)
    ensures out != null ==> fresh(out)
  {
    if source == null {
      return null;
    }
    out := new T[source.Length];
    forall i | 0 <= i < source.Length { out[i] := source[i]; }
    assert out[..] == source[..];
  }

  // ----- LazySidecarSpec -----

  datatype SpecRef = SpecRef(selector: StringMap?, egressHosts: array?<Host>, middleware: array?<Middleware>)
  datatype SpecValue = SpecValue(
    selector: Option<map<string, string>>, egressHosts: Option<seq<Host>>, middleware: Option<seq<Middleware>>)

  ghost function SpecCells(s: SpecRef): set<object>
  {
    (if s.selector != null then {s.selector as object} else {})
    + (if s.egressHosts != null then {s.egressHosts as object} else {})
    + (if s.middleware != null then {s.middleware as object} else {})
  }

  ghost function ValueOfSpec(s: SpecRef): SpecValue
    reads SpecCells(s)
  {
    SpecValue(if s.selector == null then None else Some(s.selector.entries),
              if s.egressHosts == null then None else Some(s.egressHosts[..]),
              if s.middleware == null then None else Some(s.middleware[..]))
  }

  ghost function MapValue(m: StringMap?): Option<map<string, string>>
    reads m
  {
    if m == null then None else Some(m.entries)
  }

  /** `make` and the loop over the keys, in any order. */
  method CopyMap(source: StringMap?) returns (out: StringMap?)
    ensures MapValue(out) == MapValue(source)
    ensures out != null ==> fresh(out)
  {
    if source == null {
      return null;
    }
    var copy := new StringMap(map[]);
    var rest := source.entries.Keys;
    while rest != {}
      invariant fresh(copy) && rest <= source.entries.Keys
      invariant copy.entries == map k | k in source.entries && k !in rest :: source.entries[k]
      decreases |rest|
    {
      var key :| key in rest;
      copy.entries := copy.entries[key := source.entries[key]];
      rest := rest - {key};
    }
    assert copy.entries == source.entries;
    return copy;
  }

  method CopySpec(source: SpecRef) returns (out: SpecRef)
    ensures ValueOfSpec(out) == ValueOfSpec(source)
    ensures fresh(SpecCells(out))
  {
    var selector := CopyMap(source.selector);
    var egressHosts := CopyList(source.egressHosts);
    var middleware := CopyList(source.middleware);
    out := source.(selector := selector, egressHosts := egressHosts, middleware := middleware);
    assert MapValue(selector) == MapValue(source.selector);
    assert ListValue(egressHosts) == ListValue(source.egressHosts);
    assert ListValue(middleware) == ListValue(source.middleware);
  }

  // ----- Upstream and LazySidecarStatus -----

  datatype UpstreamRef = UpstreamRef(port: IntCell?, protocol: string, hosts: array?<Host>)
  datatype UpstreamValue = UpstreamValue(port: Option<int>, protocol: string, hosts: Option<seq<Host>>)

  ghost function UpstreamCells(u: UpstreamRef): set<object>
  {
    (if u.port != null then {u.port as object} else {})
    + (if u.hosts != null then {u.hosts as object} else {})
  }

  ghost function ValueOfUpstream(u: UpstreamRef): UpstreamValue
    reads UpstreamCells(u)
  {
    UpstreamValue(if u.port == null then None else Some(u.port.value), u.protocol,
                  if u.hosts == null then None else Some(u.hosts[..]))
  }

  method CopyUpstream(source: UpstreamRef) returns (out: UpstreamRef)
    ensures ValueOfUpstream(out) == ValueOfUpstream(source)
    ensures fresh(UpstreamCells(out))
  {
    out := source;
    if source.port != null {
      var port := new IntCell(source.port.value);
      out := out.(port := port);
    }
    var hosts := CopyList(source.hosts);
    assert ListValue(hosts) == ListValue(source.hosts);
    out := out.(hosts := hosts);
  }

  datatype StatusRef = StatusRef(
    status: string, failedMsg: string, lastUpdate: nat, upstream: array?<UpstreamRef>,
    sidecarName: string, envoyFilterName: string)

  ghost function StatusCells(s: StatusRef): set<object>
    reads s.upstream
  {
    if s.upstream == null then {}
    else {s.upstream as object} + set i, o | 0 <= i < s.upstream.Length && o in UpstreamCells(s.upstream[i]) :: o
  }

  ghost predicate SameStatus(a: StatusRef, b: StatusRef)
    reads StatusCells(a), StatusCells(b)
  {
    && a.(upstream := null) == b.(upstream := null)
    && (a.upstream == null <==> b.upstream == null)
    && (a.upstream != null ==>
          && a.upstream.Length == b.upstream.Length
          && forall i :: 0 <= i < a.upstream.Length ==> ValueOfUpstream(a.upstream[i]) == ValueOfUpstream(b.upstream[i]))
  }

  method CopyUpstreams(source: array<UpstreamRef>) returns (out: array<UpstreamRef>)
    ensures fresh(out) && out.Length == source.Length
    ensures forall i :: 0 <= i < out.Length ==>
              ValueOfUpstream(out[i]) == ValueOfUpstream(source[i]) && fresh(UpstreamCells(out[i]))
  {
    var none := UpstreamRef(null, "", null);
    out := new UpstreamRef[source.Length](_ => none);
    for i := 0 to source.Length
      invariant forall j :: 0 <= j < i ==>
                  ValueOfUpstream(out[j]) == ValueOfUpstream(source[j]) && fresh(UpstreamCells(out[j]))
    {
      var u := CopyUpstream(source[i]);
      out[i] := u;
    }
  }

  method CopyStatus(source: StatusRef) returns (out: StatusRef)
    ensures SameStatus(out, source)
    ensures fresh(StatusCells(out))
  {
    out := source;
    if source.upstream != null {
      var upstream := CopyUpstreams(source.upstream);
      out := out.(upstream := upstream);
    }
  }

  // ----- LazySidecar and LazySidecarList -----

  datatype LazySidecarRef = LazySidecarRef(name: NamespacedName, version: nat, spec: SpecRef, status: StatusRef)

  ghost function Cells(s: LazySidecarRef): set<object>
    reads s.status.upstream
  {
    SpecCells(s.spec) + StatusCells(s.status)
  }

  ghost predicate SameLazySidecar(a: LazySidecarRef, b: LazySidecarRef)
    reads Cells(a), Cells(b)
  {
    && a.name == b.name && a.version == b.version
    && ValueOfSpec(a.spec) == ValueOfSpec(b.spec)
    && SameStatus(a.status, b.status)
  }

  method CopyLazySidecar(source: LazySidecarRef) returns (out: LazySidecarRef)
    ensures SameLazySidecar(out, source)
    ensures fresh(Cells(out))
  {
    var spec := CopySpec(source.spec);
    var status := CopyStatus(source.status);
    out := source.(spec := spec, status := status);
  }

  /** The copies of the first items: each shows the value of its source, its cells
      are the recorded ones, and no cell is recorded for two of them. */
  ghost predicate CopiesOf(out: seq<LazySidecarRef>, source: seq<LazySidecarRef>, cells: seq<set<object>>)
    reads *
  {
    && |out| == |cells| <= |source|
    && (forall i :: 0 <= i < |out| ==> SameLazySidecar(out[i], source[i]) && Cells(out[i]) == cells[i])
    && (forall i, j :: 0 <= i < j < |out| ==> cells[i] !! cells[j])
  }

  method CopyNext(source: seq<LazySidecarRef>, out: seq<LazySidecarRef>, ghost cells: seq<set<object>>)
    returns (copy: LazySidecarRef)
    requires CopiesOf(out, source, cells) && |out| < |source|
    ensures CopiesOf(out + [copy], source, cells + [Cells(copy)])
    ensures fresh(Cells(copy))
  {
    copy := CopyLazySidecar(source[|out|]);
    forall i | 0 <= i < |out| ensures SameLazySidecar(out[i], source[i]) && Cells(out[i]) == cells[i] && cells[i] !! Cells(copy) {
    }
  }

  /** The items of a list, each with its spec and status: every copy equals its
      source, no cell is shared with what was there before, and no two copies
      share one. */
  method CopyItems(source: array<LazySidecarRef>) returns (out: array<LazySidecarRef>)
    ensures fresh(out) && out.Length == source.Length
    ensures forall i :: 0 <= i < out.Length ==> SameLazySidecar(out[i], source[i]) && fresh(Cells(out[i]))
    ensures forall i, j :: 0 <= i < j < out.Length ==> Cells(out[i]) !! Cells(out[j])
  {
    ghost var items := source[..];
    var copies: seq<LazySidecarRef> := [];
    ghost var cells: seq<set<object>> := [];
    for i := 0 to source.Length
      invariant |copies| == i && items == source[..] && CopiesOf(copies, items, cells)
      invariant forall j :: 0 <= j < i ==> fresh(cells[j])
    {
      var copy := CopyNext(source[..], copies, cells);
      copies, cells := copies + [copy], cells + [Cells(copy)];
    }
    out := new LazySidecarRef[source.Length](i requires 0 <= i < |copies| => copies[i]);
    assert CopiesOf(copies, items, cells);
  }

  /** The reason the controller may sort and delete in place: on a copy the loop
      leaves the cached object as it was. */
  method RemoveOnCopy(cached: LazySidecarRef, handled: array<Host>) returns (hosts: Option<seq<Host>>)
    requires Sorted(handled[..])
    ensures ValueOfSpec(cached.spec) == old(ValueOfSpec(cached.spec))
    ensures hosts == match ValueOfSpec(cached.spec).egressHosts
                     case None => None
                     case Some(list) => Some(Without(list, handled[..]))
  {
    var copy := CopyLazySidecar(cached);
    var list := copy.spec.egressHosts;
    hosts := None;
    if list != null {
      assert list[..list.Length] == list[..];
      var n := DeleteListed(list, list.Length, handled);
      hosts := Some(list[..n]);
    }
  }

  /** The same for the sort and search that find the hosts to add. */
  method ExtendOnCopy(cached: LazySidecarRef, hosts: seq<Host>) returns (extended: seq<Host>)
    ensures ValueOfSpec(cached.spec) == old(ValueOfSpec(cached.spec))
    ensures extended == match ValueOfSpec(cached.spec).egressHosts
                        case None => hosts
                        case Some(list) => Sort(list) + Without(hosts, list)
  {
    var copy := CopyLazySidecar(cached);
    var list := copy.spec.egressHosts;
    extended := hosts;
    if list != null {
      var newHosts := GetNewHosts(list, hosts);
      extended := list[..] + newHosts;
    }
  }

  lemma ListIsCell(s: LazySidecarRef)
    ensures s.spec.egressHosts != null ==> s.spec.egressHosts as object in Cells(s)
  {
  }

  /** The host lists of the copied items. */
  method CopiedLists(cached: array<LazySidecarRef>) returns (lists: seq<array?<Host>>)
    ensures |lists| == cached.Length
    ensures forall i :: 0 <= i < |lists| ==> ListValue(lists[i]) == ListValue(cached[i].spec.egressHosts)
    ensures forall i :: 0 <= i < |lists| && lists[i] != null ==> fresh(lists[i])
    ensures forall i, j :: 0 <= i < j < |lists| && lists[i] != null ==> lists[i] != lists[j]
  {
    var copies := CopyItems(cached);
    lists := seq(copies.Length, i requires 0 <= i < copies.Length reads copies => copies[i].spec.egressHosts);
    forall i | 0 <= i < |lists|
      ensures ListValue(lists[i]) == ListValue(cached[i].spec.egressHosts)
      ensures lists[i] != null ==> fresh(lists[i])
    {
      assert SameLazySidecar(copies[i], cached[i]);
      ListIsCell(copies[i]);
    }
    forall i, j | 0 <= i < j < |lists| && lists[i] != null ensures lists[i] != lists[j] {
      ListIsCell(copies[i]);
      ListIsCell(copies[j]);
    }
  }

  /** The whole loop over a list response: every cached item stays as it was, and
      no edit of one copy reaches another. */
  method RemoveOnCopies(cached: array<LazySidecarRef>, handled: array<Host>) returns (left: seq<Option<seq<Host>>>)
    requires Sorted(handled[..])
    ensures forall i :: 0 <= i < cached.Length ==> ValueOfSpec(cached[i].spec) == old(ValueOfSpec(cached[i].spec))
    ensures |left| == cached.Length
    ensures forall i :: 0 <= i < |left| ==>
              left[i] == match ListValue(cached[i].spec.egressHosts)
                         case None => None
                         case Some(list) => Some(Without(list, handled[..]))
  {
    var lists := CopiedLists(cached);
    ghost var listed := handled[..];
    left := [];
    for i := 0 to |lists|
      invariant |left| == i && handled[..] == listed
      invariant forall j :: i <= j < |lists| ==> ListValue(lists[j]) == old(ListValue(cached[j].spec.egressHosts))
      invariant forall j :: 0 <= j < i ==>
                  left[j] == match old(ListValue(cached[j].spec.egressHosts))
                             case None => None
                             case Some(list) => Some(Without(list, listed))
    {
      var list := lists[i];
      if list == null {
        left := left + [None];
      } else {
        assert list[..list.Length] == list[..];
        var n := DeleteListed(list, list.Length, handled);
        left := left + [Some(list[..n])];
      }
    }
  }
}
