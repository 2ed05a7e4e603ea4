/** The API objects, as the API server stores them. */
module Types {
  import opened HostLists

  datatype Option<+T> = None | Some(value: T)

  datatype NamespacedName = NamespacedName(namespace: string, name: string)

  datatype Middleware = Middleware(
    serviceName: string, namespace: string, port: int, kind: string, protocol: string)

  /** `LazySidecarSpec`. A nil and an empty list or map are one value here, as
      they are after a JSON round trip under `omitempty`. */
  datatype LazySpec = LazySpec(
    selector: map<string, string>, egressHosts: seq<Host>, middleware: seq<Middleware>)

  datatype Upstream = Upstream(port: Option<int>, protocol: string, hosts: seq<Host>)

  datatype Status = Status(
    status: string, upstream: seq<Upstream>, sidecarName: string, envoyFilterName: string, lastUpdate: nat)

  datatype LazySidecar = LazySidecar(spec: LazySpec, status: Status)

  datatype Port = Port(number: int, protocol: string)

  /** One egress listener of an Istio Sidecar. */
  datatype Listener = Listener(port: Option<Port>, hosts: seq<Host>)

  datatype SidecarSpec = SidecarSpec(selector: Option<map<string, string>>, egress: seq<Listener>)

  datatype ServiceEntry = ServiceEntry(key: NamespacedName, hosts: seq<string>)

  const PREFIX := "lazysidecar-"
  const DEFAULT_HOST := "istio-system/*"
  const ROOT_NS := "istio-system"

  /** The name of the Sidecar derived from a LazySidecar. */
  function Derived(n: NamespacedName): NamespacedName
  {
    NamespacedName(n.namespace, PREFIX + n.name)
  }

  /** Its name and namespace, spelled out. */
  lemma DerivedExactly(n: NamespacedName)
    ensures Derived(n).namespace == n.namespace && Derived(n).name == "lazysidecar-" + n.name
  {
  }

  lemma DerivedInjective(m: NamespacedName, n: NamespacedName)
    requires Derived(m) == Derived(n)
    ensures m == n
  {
    assert m.name == (PREFIX + m.name)[|PREFIX|..];
    assert n.name == (PREFIX + n.name)[|PREFIX|..];
  }
}
