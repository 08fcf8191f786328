/** The endpointslices package of the public `pkg` tree: it bundles slices the
    way the internal package does, but an unresolved pod is skipped instead of
    failing the bundle, the pods list starts empty, and the filters are plain
    predicates. The cluster lists are snapshots passed in. */
module PkgEndpointSlices {
  import opened Wrappers
  import Seqs
  import opened Cluster
  import Query
  import EndpointSlices
  import InternalTypes

  // ---------------------------------------------------------------------------
  // Bundling
  // ---------------------------------------------------------------------------

  /** The pod behind endpoint `j`: none when the endpoint has no target or its
      target is not in the pod list. */
  function PodAt(slice: EndpointSlice, j: nat, pods: seq<Pod>): Option<Pod>
    requires j < |slice.endpoints|
  {
    match slice.endpoints[j].targetRef
    case None => None
    case Some(ref) => GetPod(ref.name, ref.namespace, pods)
  }

  /** The pods behind the first `n` endpoints, in endpoint order, skipping
      the endpoints whose pod is not found. */
  function ResolvedPods(slice: EndpointSlice, n: nat, pods: seq<Pod>): seq<Pod>
    requires n <= |slice.endpoints|
  {
    if n == 0 then []
    else
      ResolvedPods(slice, n - 1, pods) + match PodAt(slice, n - 1, pods) case None => [] case Some(p) => [p]
  }

  /** A pod is collected iff some endpoint resolves to it; there is at most
      one pod per endpoint. */
  lemma {:induction false} ResolvedPodsMembers(slice: EndpointSlice, n: nat, pods: seq<Pod>, p: Pod)
    requires n <= |slice.endpoints|
    ensures p in ResolvedPods(slice, n, pods) <==> exists j | 0 <= j < n :: PodAt(slice, j, pods) == Some(p)
    ensures |ResolvedPods(slice, n, pods)| <= n
    decreases n
  {
    if n > 0 {
      ResolvedPodsMembers(slice, n - 1, pods, p);
    }
  }

  /** When every endpoint resolves, nothing is skipped: the pods are exactly
      the endpoints' pods in endpoint order. */
  lemma {:induction false} ResolvedPodsAll(slice: EndpointSlice, n: nat, pods: seq<Pod>)
    requires n <= |slice.endpoints|
    requires forall j | 0 <= j < n :: PodAt(slice, j, pods).Some?
    ensures |ResolvedPods(slice, n, pods)| == n
    ensures forall j | 0 <= j < n :: PodAt(slice, j, pods) == Some(ResolvedPods(slice, n, pods)[j])
    decreases n
  {
    if n > 0 {
      ResolvedPodsAll(slice, n - 1, pods);
    }
  }

  /** The records of the slices, in order, with the service carried across
      slices; the second component is the `service` variable at the end. */
  function Bundle(slices: seq<EndpointSlice>, services: seq<Service>, pods: seq<Pod>)
    : Result<(seq<EndpointSliceInfo>, Service), Query.BundleError>
  {
    if slices == [] then Ok(([], ZeroService))
    else
      var init, slice := slices[..|slices| - 1], slices[|slices| - 1];
      var acc :- Bundle(init, services, pods);
      var service :- Query.OwnerService(slice, |slice.ownerRefs|, services, acc.1);
      Ok((acc.0 + [EndpointSliceInfo(slice, service, ResolvedPods(slice, |slice.endpoints|, pods))], service))
  }

  /** Every owner reference of the slice names a service of its namespace. */
  predicate OwnersResolve(slice: EndpointSlice, services: seq<Service>) {
    forall k | 0 <= k < |slice.ownerRefs| :: GetService(slice.ownerRefs[k].name, slice.namespace, services).Some?
  }

  /** Bundling fails exactly when some owner reference does not resolve;
      missing pods never fail it. */
  lemma {:induction false} BundleOk(slices: seq<EndpointSlice>, services: seq<Service>, pods: seq<Pod>)
    ensures Bundle(slices, services, pods).Ok? <==> forall i | 0 <= i < |slices| :: OwnersResolve(slices[i], services)
    decreases |slices|
  {
    if slices != [] {
      var init, slice := slices[..|slices| - 1], slices[|slices| - 1];
      assert forall i | 0 <= i < |init| :: init[i] == slices[i];
      BundleOk(init, services, pods);
      var acc := Bundle(init, services, pods);
      if acc.Ok? {
        Query.OwnerServiceSpec(slice, |slice.ownerRefs|, services, acc.value.1);
        if !OwnersResolve(slice, services) {
          assert !OwnersResolve(slices[|slices| - 1], services);
        }
      } else {
        var i :| 0 <= i < |init| && !OwnersResolve(init[i], services);
        assert slices[i] == init[i];
      }
    }
  }

  /** The record bundling gives a slice: the slice itself, the pods its
      endpoints resolve to, and the last owner's service (a slice without
      owners inherits the previous record's service). */
  predicate RecordOf(info: EndpointSliceInfo, slice: EndpointSlice, services: seq<Service>, pods: seq<Pod>, prev: Service) {
    info.slice == slice
    && info.pods == ResolvedPods(slice, |slice.endpoints|, pods)
    && (slice.ownerRefs != [] ==>
          GetService(slice.ownerRefs[|slice.ownerRefs| - 1].name, slice.namespace, services) == Some(info.service))
    && (slice.ownerRefs == [] ==> info.service == prev)
  }

  lemma BundleLast(slices: seq<EndpointSlice>, services: seq<Service>, pods: seq<Pod>)
    requires slices != [] && Bundle(slices, services, pods).Ok?
    ensures Bundle(slices[..|slices| - 1], services, pods).Ok?
    ensures var b, a := Bundle(slices, services, pods).value, Bundle(slices[..|slices| - 1], services, pods).value;
            |b.0| == |a.0| + 1 && b.0[..|a.0|] == a.0 && b.1 == b.0[|a.0|].service
            && RecordOf(b.0[|a.0|], slices[|slices| - 1], services, pods, a.1)
  {
    var init, slice := slices[..|slices| - 1], slices[|slices| - 1];
    var acc := Bundle(init, services, pods).value;
    Query.OwnerServiceSpec(slice, |slice.ownerRefs|, services, acc.1);
  }

  /** A successful bundling gives one record per slice, in order, each
      carrying the service of the record before it into a slice without
      owners (the zero service for the first). */
  lemma {:induction false} BundleRecords(slices: seq<EndpointSlice>, services: seq<Service>, pods: seq<Pod>)
    requires Bundle(slices, services, pods).Ok?
    ensures var infos := Bundle(slices, services, pods).value.0;
            |infos| == |slices|
            && (forall i | 0 <= i < |slices| :: RecordOf(infos[i], slices[i], services, pods, Query.PrevService(infos, i)))
            && Bundle(slices, services, pods).value.1 == (if slices == [] then ZeroService else infos[|slices| - 1].service)
    decreases |slices|
  {
    if slices != [] {
      var init := slices[..|slices| - 1];
      BundleLast(slices, services, pods);
      BundleRecords(init, services, pods);
      var infos, prior := Bundle(slices, services, pods).value.0, Bundle(init, services, pods).value.0;
      forall i | 0 <= i < |slices|
        ensures RecordOf(infos[i], slices[i], services, pods, Query.PrevService(infos, i))
      {
        var prev := Query.PrevService(prior, i);
        if i < |init| {
          assert RecordOf(prior[i], init[i], services, pods, prev);
          assert infos[i] == prior[i] && slices[i] == init[i];
          assert i > 0 ==> infos[i - 1] == prior[i - 1];
        } else {
          assert RecordOf(infos[i], slices[i], services, pods, Bundle(init, services, pods).value.1);
          assert Bundle(init, services, pods).value.1 == prev;
          assert i > 0 ==> infos[i - 1] == prior[i - 1];
        }
      }
    }
  }

  /** A failure in a prefix of the slices is the failure of the whole list. */
  lemma {:induction false} BundlePrefixErr(slices: seq<EndpointSlice>, n: nat, services: seq<Service>, pods: seq<Pod>)
    requires n <= |slices| && Bundle(slices[..n], services, pods).Err?
    ensures Bundle(slices, services, pods) == Bundle(slices[..n], services, pods)
    decreases |slices|
  {
    if n < |slices| {
      var init := slices[..|slices| - 1];
      assert init[..n] == slices[..n];
      BundlePrefixErr(init, n, services, pods);
    } else {
      assert slices[..n] == slices;
    }
  }

  /** createEndpointSliceInfo (pkg): like the internal one, the records
      follow len(items) zero records; endpoints without a target or with an
      unknown pod are skipped. */
  method CreateEndpointSliceInfo(slices: seq<EndpointSlice>, services: seq<Service>, pods: seq<Pod>)
    returns (r: Result<seq<EndpointSliceInfo>, Query.BundleError>)
    ensures r.Ok? <==> Bundle(slices, services, pods).Ok?
    ensures r.Err? ==> r.error == Bundle(slices, services, pods).error
    ensures r.Ok? ==> r.value == Query.Padding(|slices|) + Bundle(slices, services, pods).value.0
  {
    var service := ZeroService;
    var res := Query.Padding(|slices|);
    ghost var infos: seq<EndpointSliceInfo> := [];
    for i := 0 to |slices|
      invariant Bundle(slices[..i], services, pods) == Ok((infos, service))
      invariant res == Query.Padding(|slices|) + infos
    {
      var slice := slices[i];
      assert slices[..i + 1][..i] == slices[..i] && slices[..i + 1][i] == slice;
      var podsOf := [];
      ghost var prev := service;
      for j := 0 to |slice.ownerRefs|
        invariant Query.OwnerService(slice, j, services, prev) == Ok(service)
      {
        var found := GetService(slice.ownerRefs[j].name, slice.namespace, services);
        if found.None? {
          Query.OwnerServiceSpec(slice, |slice.ownerRefs|, services, prev);
          assert Bundle(slices[..i + 1], services, pods) == Err(Query.BundleFailed(slice.namespace, slice.name));
          BundlePrefixErr(slices, i + 1, services, pods);
          return Err(Query.BundleFailed(slice.namespace, slice.name));
        }
        service := found.value;
      }
      for j := 0 to |slice.endpoints|
        invariant podsOf == ResolvedPods(slice, j, pods)
      {
        var target := slice.endpoints[j].targetRef;
        if target.None? {
          continue;
        }
        var found := GetPod(target.value.name, target.value.namespace, pods);
        if found.None? {
          continue;
        }
        podsOf := podsOf + [found.value];
      }
      res := res + [EndpointSliceInfo(slice, service, podsOf)];
      infos := infos + [EndpointSliceInfo(slice, service, podsOf)];
    }
    assert slices[..|slices|] == slices;
    return Ok(res);
  }

  // ---------------------------------------------------------------------------
  // Filters
  // ---------------------------------------------------------------------------

  /** A filter of this package never fails. */
  type Check = EndpointSliceInfo -> bool

  /** The conjunction of the filters. */
  function AcceptedByAll(filters: seq<Check>): (accept: Check)
    ensures forall x :: accept(x) <==> forall k | 0 <= k < |filters| :: filters[k](x)
  {
    x => forall k | 0 <= k < |filters| :: filters[k](x)
  }

  /** ApplyFilters: the records every filter accepts, in order; the filters
      are tried in order and the first rejection stops them. */
  method ApplyFilters(infos: seq<EndpointSliceInfo>, filters: seq<Check>) returns (r: seq<EndpointSliceInfo>)
    ensures r == Seqs.Filter(AcceptedByAll(filters), infos)
  {
    var accept := AcceptedByAll(filters);
    if |filters| == 0 {
      Seqs.FilterAllPass(accept, infos);
      return infos;
    }
    r := [];
    for i := 0 to |infos|
      invariant r == Seqs.Filter(accept, infos[..i])
    {
      var x := infos[i];
      assert infos[..i + 1] == infos[..i] + [x];
      Seqs.FilterSnoc(accept, infos[..i], x);
      var keep := true;
      var k := 0;
      while k < |filters|
        invariant 0 <= k <= |filters|
        invariant forall k' | 0 <= k' < k :: filters[k'](x)
      {
        if !filters[k](x) {
          keep := false;
          break;
        }
        k := k + 1;
      }
      assert keep <==> accept(x);
      if keep {
        r := r + [x];
      }
    }
    assert infos[..|infos|] == infos;
  }

  /** No filters keep everything, and filtering twice with the same filters
      is filtering once. */
  lemma ApplyFiltersLaws(infos: seq<EndpointSliceInfo>, filters: seq<Check>)
    ensures Seqs.Filter(AcceptedByAll([]), infos) == infos
    ensures Seqs.Filter(AcceptedByAll(filters), Seqs.Filter(AcceptedByAll(filters), infos))
            == Seqs.Filter(AcceptedByAll(filters), infos)
  {
    Seqs.FilterAllPass(AcceptedByAll([]), infos);
    Seqs.FilterIdempotent(AcceptedByAll(filters), infos);
  }

  /** FilterHostNetwork: the first pod is on the host network; a record
      without pods is rejected. */
  function FilterHostNetwork(info: EndpointSliceInfo): (keep: bool)
    ensures keep <==> |info.pods| > 0 && info.pods[0].hostNetwork
  {
    if |info.pods| == 0 then false else info.pods[0].hostNetwork
  }

  /** FilterServiceTypes: the service is a LoadBalancer or a NodePort. */
  function FilterServiceTypes(info: EndpointSliceInfo): (keep: bool)
    ensures keep <==> info.service.serviceType == LoadBalancer || info.service.serviceType == NodePort
  {
    !(info.service.serviceType != LoadBalancer && info.service.serviceType != NodePort)
  }

  /** What FilterForIngressTraffic keeps. */
  predicate IngressTraffic(info: EndpointSliceInfo) {
    |info.pods| > 0 && info.pods[0].hostNetwork
    && (info.service.serviceType == LoadBalancer || info.service.serviceType == NodePort)
  }

  /** FilterForIngressTraffic: both filters, in that order. */
  method FilterForIngressTraffic(infos: seq<EndpointSliceInfo>) returns (r: seq<EndpointSliceInfo>)
    ensures r == Seqs.Filter(IngressTraffic, infos)
    ensures forall x :: x in r <==> x in infos && IngressTraffic(x)
  {
    var filters: seq<Check> := [FilterHostNetwork, FilterServiceTypes];
    r := ApplyFilters(infos, filters);
    forall x ensures AcceptedByAll(filters)(x) == IngressTraffic(x) {
      assert filters[0](x) == FilterHostNetwork(x) && filters[1](x) == FilterServiceTypes(x);
    }
    Seqs.FilterExt(AcceptedByAll(filters), IngressTraffic, infos);
    forall x ensures x in r <==> x in infos && IngressTraffic(x) {
      Seqs.FilterMembers(IngressTraffic, infos, x);
    }
  }

  /** GetIngressEndpointSlices after the three lists: bundle, then keep the
      ingress records. The zero records that pad the bundle have no pods, so
      none of them comes out. */
  method GetIngressEndpointSlices(slices: seq<EndpointSlice>, services: seq<Service>, pods: seq<Pod>)
    returns (r: Result<seq<EndpointSliceInfo>, Query.BundleError>)
    ensures r.Ok? <==> Bundle(slices, services, pods).Ok?
    ensures r.Ok? <==> forall i | 0 <= i < |slices| :: OwnersResolve(slices[i], services)
    ensures r.Err? ==> r.error == Bundle(slices, services, pods).error
    ensures r.Ok? ==> r.value == Seqs.Filter(IngressTraffic, Bundle(slices, services, pods).value.0)
  {
    BundleOk(slices, services, pods);
    var infos := CreateEndpointSliceInfo(slices, services, pods);
    if infos.Err? {
      return Err(infos.error);
    }
    ghost var pad, records := Query.Padding(|slices|), Bundle(slices, services, pods).value.0;
    assert infos.value == pad + records;
    assert forall k | 0 <= k < |pad| :: !IngressTraffic(pad[k]);
    Seqs.FilterNonePass(IngressTraffic, pad);
    Seqs.FilterAppend(IngressTraffic, pad, records);
    var res := FilterForIngressTraffic(infos.value);
    return Ok(res);
  }

  // ---------------------------------------------------------------------------
  // Entries
  // ---------------------------------------------------------------------------

  function SlicesOf(infos: seq<EndpointSliceInfo>): (slices: seq<EndpointSlice>)
    ensures |slices| == |infos| && forall i | 0 <= i < |infos| :: slices[i] == infos[i].slice
  {
    seq(|infos|, i requires 0 <= i < |infos| => infos[i].slice)
  }

  /** ToComDetails (pkg): the entries of every bundled slice, each distinct
      entry once; the first slice naming an unknown node fails it. */
  method ToComDetails(infos: seq<EndpointSliceInfo>, nodes: seq<Node>)
    returns (r: Result<seq<InternalTypes.ComDetails>, EndpointSlices.NodeError>)
    ensures r.Ok? <==> forall i | 0 <= i < |infos| :: EndpointSlices.AllKnown(infos[i].slice, nodes)
    ensures r.Err? ==> exists i :: EndpointSlices.FailsFirstAt(SlicesOf(infos), nodes, i, r.error)
    ensures r.Ok? ==> exists all | EndpointSlices.Gathered(SlicesOf(infos), nodes, all) :: EndpointSlices.DistinctOf(r.value, all)
  {
    r := EndpointSlices.ToComDetails(SlicesOf(infos), nodes);
  }
}
