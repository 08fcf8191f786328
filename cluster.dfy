/** The cluster objects the matrix is built from, reduced to the fields the
    code reads: endpoint slices, services, pods and nodes, as snapshots the
    Kubernetes API would return. Constants whose values live outside the
    modelled files are distinct stand-ins; no proof depends on their text
    beyond their being distinct. */
module Cluster {
  import opened Wrappers

  /** An endpoint's reference to its backing pod. */
  datatype ObjectRef = ObjectRef(name: string, namespace: string)

  /** An endpoint slice's owner reference; the owner is a service of that name
      in the slice's namespace. */
  datatype OwnerRef = OwnerRef(name: string)

  /** An endpoint. `targetRef` is None where Go's is nil; the node name is
      always set on the slices the code handles. */
  datatype Endpoint = Endpoint(nodeName: string, targetRef: Option<ObjectRef>, addresses: seq<string>)

  datatype EndpointPort = EndpointPort(port: int, protocol: string)

  datatype EndpointSlice = EndpointSlice(
    name: string,
    namespace: string,
    labels: map<string, string>,
    ownerRefs: seq<OwnerRef>,
    endpoints: seq<Endpoint>,
    ports: seq<EndpointPort>,
    addressType: string)

  datatype Service = Service(name: string, namespace: string, serviceType: string)

  datatype Pod = Pod(name: string, namespace: string, hostNetwork: bool)

  datatype Node = Node(name: string, labels: map<string, string>)

  /** An endpoint slice bundled with its owning service and backing pods
      (`EndpointSliceInfo` in the internal package, `SvcInfo` in pkg). */
  datatype EndpointSliceInfo = EndpointSliceInfo(slice: EndpointSlice, service: Service, pods: seq<Pod>)

  // Go zero values.
  const ZeroSlice := EndpointSlice("", "", map[], [], [], [], "")
  const ZeroService := Service("", "", "")
  const ZeroPod := Pod("", "", false)
  const ZeroInfo := EndpointSliceInfo(ZeroSlice, ZeroService, [])

  // Stand-ins for constants defined outside the modelled files.
  const IngressLabel := "ingress-label"
  const OptionalLabel := "optional-label"
  const OptionalTrue := "true"
  const RoleLabel := "node-role.kubernetes.io/"
  const PlaceHolderIPAddress := "placeholder-ip"
  const DefaultAddressType := "IPv4"
  const ServiceNameLabel := "kubernetes.io/service-name"

  // corev1.ServiceType values.
  const NodePort := "NodePort"
  const LoadBalancer := "LoadBalancer"

  /** getPod: the first pod with the given name and namespace. */
  function GetPod(name: string, namespace: string, pods: seq<Pod>): Option<Pod> {
    if pods == [] then None
    else if pods[0].name == name && pods[0].namespace == namespace then Some(pods[0])
    else GetPod(name, namespace, pods[1..])
  }

  /** The pod found has the name and namespace asked for and no earlier pod
      does; nothing is found exactly when no pod matches. */
  lemma {:induction false} GetPodSpec(name: string, namespace: string, pods: seq<Pod>)
    ensures var r := GetPod(name, namespace, pods);
            (r.None? <==> forall i | 0 <= i < |pods| :: !(pods[i].name == name && pods[i].namespace == namespace))
            && (r.Some? ==> exists i | 0 <= i < |pods| :: pods[i] == r.value && r.value.name == name && r.value.namespace == namespace
                             && forall j | 0 <= j < i :: !(pods[j].name == name && pods[j].namespace == namespace))
    decreases |pods|
  {
    if pods != [] {
      GetPodSpec(name, namespace, pods[1..]);
      assert forall i | 1 <= i < |pods| :: pods[i] == pods[1..][i - 1];
      var r := GetPod(name, namespace, pods);
      if r.Some? && !(pods[0].name == name && pods[0].namespace == namespace) {
        var i :| 0 <= i < |pods[1..]| && pods[1..][i] == r.value && r.value.name == name && r.value.namespace == namespace
                 && forall j | 0 <= j < i :: !(pods[1..][j].name == name && pods[1..][j].namespace == namespace);
        assert pods[i + 1] == r.value;
      }
    }
  }

  /** getService: the first service with the given name and namespace. */
  function GetService(name: string, namespace: string, services: seq<Service>): Option<Service> {
    if services == [] then None
    else if services[0].name == name && services[0].namespace == namespace then Some(services[0])
    else GetService(name, namespace, services[1..])
  }

  /** The service found has the name and namespace asked for and no earlier
      service does; nothing is found exactly when no service matches. */
  lemma {:induction false} GetServiceSpec(name: string, namespace: string, services: seq<Service>)
    ensures var r := GetService(name, namespace, services);
            (r.None? <==> forall i | 0 <= i < |services| :: !(services[i].name == name && services[i].namespace == namespace))
            && (r.Some? ==> exists i | 0 <= i < |services| :: services[i] == r.value && r.value.name == name && r.value.namespace == namespace
                             && forall j | 0 <= j < i :: !(services[j].name == name && services[j].namespace == namespace))
    decreases |services|
  {
    if services != [] {
      GetServiceSpec(name, namespace, services[1..]);
      assert forall i | 1 <= i < |services| :: services[i] == services[1..][i - 1];
      var r := GetService(name, namespace, services);
      if r.Some? && !(services[0].name == name && services[0].namespace == namespace) {
        var i :| 0 <= i < |services[1..]| && services[1..][i] == r.value && r.value.name == name && r.value.namespace == namespace
                 && forall j | 0 <= j < i :: !(services[1..][j].name == name && services[1..][j].namespace == namespace);
        assert services[i + 1] == r.value;
      }
    }
  }

  /** isRequired: an endpoint slice is required unless it carries the
      optional label, whatever that label's value. */
  function IsRequired(slice: EndpointSlice): (required: bool)
    ensures !required <==> OptionalLabel in slice.labels
  {
    if OptionalLabel in slice.labels then false else true
  }

  /** `slice.Labels["kubernetes.io/service-name"]`: "" when absent. */
  function ServiceNameOf(slice: EndpointSlice): (s: string)
    ensures ServiceNameLabel in slice.labels ==> s == slice.labels[ServiceNameLabel]
    ensures ServiceNameLabel !in slice.labels ==> s == ""
  {
    if ServiceNameLabel in slice.labels then slice.labels[ServiceNameLabel] else ""
  }
}
