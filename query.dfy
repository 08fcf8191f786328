/** Endpoint-slice selection and bundling of the internal endpointslices
    package: the label, service-type and host-network predicates of the query
    builder, and the bundling of each slice with its owning service and
    backing pods. */
module Query {
  import opened Wrappers
  import opened Cluster

  // ---------------------------------------------------------------------------
  // Selection predicates
  // ---------------------------------------------------------------------------

  /** withLabels: every requested (key, value) pair is on the slice. The label
      map is walked in an order the model leaves open; the first mismatch
      ends the walk. */
  method WithLabels(slice: EndpointSlice, labels: map<string, string>) returns (r: bool)
    ensures r <==> forall key | key in labels :: key in slice.labels && slice.labels[key] == labels[key]
  {
    var pending := labels.Keys;
    while pending != {}
      invariant pending <= labels.Keys
      invariant forall key | key in labels && key !in pending :: key in slice.labels && slice.labels[key] == labels[key]
      decreases pending
    {
      var key :| key in pending;
      if key !in slice.labels || slice.labels[key] != labels[key] {
        return false;
      }
      pending := pending - {key};
    }
    return true;
  }

  /** The owner reference resolves, in `namespace`, to a service of type `t`. */
  predicate OwnerOfType(ref: OwnerRef, namespace: string, t: string, services: seq<Service>) {
    var s := GetService(ref.name, namespace, services);
    s.Some? && s.value.serviceType == t
  }

  /** The owner loop of withServiceType: unresolved references are skipped,
      the first one of type `t` ends the search. */
  function AnyOwnerOfType(refs: seq<OwnerRef>, namespace: string, t: string, services: seq<Service>): (r: bool)
    ensures r <==> exists i | 0 <= i < |refs| :: OwnerOfType(refs[i], namespace, t, services)
  {
    if refs == [] then false
    else if OwnerOfType(refs[0], namespace, t, services) then true
    else
      var r := AnyOwnerOfType(refs[1..], namespace, t, services);
      assert forall i | 1 <= i < |refs| :: refs[i] == refs[1..][i - 1];
      r
  }

  /** withServiceType: a slice without owners is never selected; otherwise it
      is selected iff one of its owners is a service of the requested type. */
  function WithServiceType(slice: EndpointSlice, t: string, services: seq<Service>): (r: bool)
    ensures r <==> exists i | 0 <= i < |slice.ownerRefs| :: OwnerOfType(slice.ownerRefs[i], slice.namespace, t, services)
  {
    if |slice.ownerRefs| == 0 then false
    else AnyOwnerOfType(slice.ownerRefs, slice.namespace, t, services)
  }

  /** The endpoint has a target that resolves to a host-network pod. */
  predicate OnHostNetwork(e: Endpoint, pods: seq<Pod>) {
    e.targetRef.Some?
    && var p := GetPod(e.targetRef.value.name, e.targetRef.value.namespace, pods);
       p.Some? && p.value.hostNetwork
  }

  /** The endpoint loop of withHostNetwork: endpoints without a target and
      unresolved pods are skipped. */
  function AnyOnHostNetwork(endpoints: seq<Endpoint>, pods: seq<Pod>): (r: bool)
    ensures r <==> exists i | 0 <= i < |endpoints| :: OnHostNetwork(endpoints[i], pods)
  {
    if endpoints == [] then false
    else if OnHostNetwork(endpoints[0], pods) then true
    else
      var r := AnyOnHostNetwork(endpoints[1..], pods);
      assert forall i | 1 <= i < |endpoints| :: endpoints[i] == endpoints[1..][i - 1];
      r
  }

  /** withHostNetwork: a slice without endpoints is never selected; otherwise
      it is selected iff one of its endpoints is backed by a host-network
      pod. */
  function WithHostNetwork(slice: EndpointSlice, pods: seq<Pod>): (r: bool)
    ensures r <==> exists i | 0 <= i < |slice.endpoints| :: OnHostNetwork(slice.endpoints[i], pods)
  {
    if |slice.endpoints| == 0 then false
    else AnyOnHostNetwork(slice.endpoints, pods)
  }

  // ---------------------------------------------------------------------------
  // createEndpointSliceInfo
  // ---------------------------------------------------------------------------

  /** Both lookup failures report the slice with the same message. */
  datatype BundleError = BundleFailed(namespace: string, name: string)

  /** Every endpoint has a target: the code reads the target without a nil
      check, so a nil target would crash it. */
  predicate Targeted(slices: seq<EndpointSlice>) {
    forall i, j | 0 <= i < |slices| && 0 <= j < |slices[i].endpoints| :: slices[i].endpoints[j].targetRef.Some?
  }

  /** The `service` variable after the first `n` owner references of `slice`,
      starting from `prev`: each reference overwrites it, and an unresolved
      one fails the whole bundling. */
  function OwnerService(slice: EndpointSlice, n: nat, services: seq<Service>, prev: Service): Result<Service, BundleError>
    requires n <= |slice.ownerRefs|
  {
    if n == 0 then Ok(prev)
    else if OwnerService(slice, n - 1, services, prev).Err? then OwnerService(slice, n - 1, services, prev)
    else
      match GetService(slice.ownerRefs[n - 1].name, slice.namespace, services)
      case None => Err(BundleFailed(slice.namespace, slice.name))
      case Some(s) => Ok(s)
  }

  /** The service is the last owner's, or the one carried in when there are
      no owners; it fails exactly when some owner does not resolve. */
  lemma {:induction false} OwnerServiceSpec(slice: EndpointSlice, n: nat, services: seq<Service>, prev: Service)
    requires n <= |slice.ownerRefs|
    ensures OwnerService(slice, n, services, prev).Err? <==>
              exists k | 0 <= k < n :: GetService(slice.ownerRefs[k].name, slice.namespace, services).None?
    ensures OwnerService(slice, n, services, prev).Err? ==>
              OwnerService(slice, n, services, prev).error == BundleFailed(slice.namespace, slice.name)
    ensures OwnerService(slice, n, services, prev).Ok? && n > 0 ==>
              Some(OwnerService(slice, n, services, prev).value)
              == GetService(slice.ownerRefs[n - 1].name, slice.namespace, services)
    ensures n == 0 ==> OwnerService(slice, n, services, prev) == Ok(prev)
    decreases n
  {
    if n > 0 {
      OwnerServiceSpec(slice, n - 1, services, prev);
    }
  }

  predicate EndpointsTargeted(slice: EndpointSlice) {
    forall j | 0 <= j < |slice.endpoints| :: slice.endpoints[j].targetRef.Some?
  }

  function PodOf(slice: EndpointSlice, j: nat, pods: seq<Pod>): Option<Pod>
    requires j < |slice.endpoints| && slice.endpoints[j].targetRef.Some?
  {
    GetPod(slice.endpoints[j].targetRef.value.name, slice.endpoints[j].targetRef.value.namespace, pods)
  }

  /** The pods behind the first `n` endpoints of `slice`, in endpoint order; an
      unresolved pod fails the whole bundling. */
  function SlicePods(slice: EndpointSlice, n: nat, pods: seq<Pod>): Result<seq<Pod>, BundleError>
    requires n <= |slice.endpoints| && EndpointsTargeted(slice)
  {
    if n == 0 then Ok([])
    else
      var ps :- SlicePods(slice, n - 1, pods);
      match PodOf(slice, n - 1, pods)
      case None => Err(BundleFailed(slice.namespace, slice.name))
      case Some(p) => Ok(ps + [p])
  }

  lemma {:induction false} SlicePodsSpec(slice: EndpointSlice, n: nat, pods: seq<Pod>)
    requires n <= |slice.endpoints| && EndpointsTargeted(slice)
    ensures SlicePods(slice, n, pods).Err? <==> exists j | 0 <= j < n :: PodOf(slice, j, pods).None?
    ensures SlicePods(slice, n, pods).Err? ==> SlicePods(slice, n, pods).error == BundleFailed(slice.namespace, slice.name)
    ensures SlicePods(slice, n, pods).Ok? ==>
              |SlicePods(slice, n, pods).value| == n
              && forall j | 0 <= j < n :: PodOf(slice, j, pods) == Some(SlicePods(slice, n, pods).value[j])
    decreases n
  {
    if n > 0 {
      SlicePodsSpec(slice, n - 1, pods);
    }
  }

  /** The records of the slices, in order, with the service carried across
      slices; the second component is the `service` variable at the end. */
  function Bundle(slices: seq<EndpointSlice>, services: seq<Service>, pods: seq<Pod>)
    : Result<(seq<EndpointSliceInfo>, Service), BundleError>
    requires Targeted(slices)
  {
    if slices == [] then Ok(([], ZeroService))
    else
      var init, slice := slices[..|slices| - 1], slices[|slices| - 1];
      assert EndpointsTargeted(slice);
      var acc :- Bundle(init, services, pods);
      var service :- OwnerService(slice, |slice.ownerRefs|, services, acc.1);
      var ps :- SlicePods(slice, |slice.endpoints|, pods);
      Ok((acc.0 + [EndpointSliceInfo(slice, service, [ZeroPod] + ps)], service))
  }

  /** Every owner reference and every endpoint target of the slice resolves. */
  predicate Resolvable(slice: EndpointSlice, services: seq<Service>, pods: seq<Pod>)
    requires EndpointsTargeted(slice)
  {
    (forall k | 0 <= k < |slice.ownerRefs| :: GetService(slice.ownerRefs[k].name, slice.namespace, services).Some?)
    && (forall j | 0 <= j < |slice.endpoints| :: PodOf(slice, j, pods).Some?)
  }

  /** Bundling succeeds exactly when every owner reference and every endpoint
      target of every slice resolves. */
  lemma {:induction false} BundleOk(slices: seq<EndpointSlice>, services: seq<Service>, pods: seq<Pod>)
    requires Targeted(slices)
    ensures Bundle(slices, services, pods).Ok? <==>
              forall i | 0 <= i < |slices| :: EndpointsTargeted(slices[i]) && Resolvable(slices[i], services, pods)
    decreases |slices|
  {
    if slices != [] {
      var init, slice := slices[..|slices| - 1], slices[|slices| - 1];
      assert forall i | 0 <= i < |init| :: init[i] == slices[i];
      assert Targeted(init);
      assert EndpointsTargeted(slice);
      BundleOk(init, services, pods);
      var acc := Bundle(init, services, pods);
      if acc.Ok? {
        OwnerServiceSpec(slice, |slice.ownerRefs|, services, acc.value.1);
        SlicePodsSpec(slice, |slice.endpoints|, pods);
        if !Resolvable(slice, services, pods) {
          assert !(EndpointsTargeted(slices[|slices| - 1]) && Resolvable(slices[|slices| - 1], services, pods));
        }
      } else {
        var i :| 0 <= i < |init| && !(EndpointsTargeted(init[i]) && Resolvable(init[i], services, pods));
        assert slices[i] == init[i];
      }
    }
  }

  /** The record bundling gives a slice: the slice itself, a zero pod followed
      by its pods in endpoint order, and the last owner's service (a slice
      without owners inherits the previous record's service). */
  predicate RecordOf(info: EndpointSliceInfo, slice: EndpointSlice, services: seq<Service>, pods: seq<Pod>, prev: Service)
    requires EndpointsTargeted(slice)
  {
    info.slice == slice
    && |info.pods| == 1 + |slice.endpoints|
    && info.pods[0] == ZeroPod
    && (forall j | 0 <= j < |slice.endpoints| :: PodOf(slice, j, pods) == Some(info.pods[j + 1]))
    && (slice.ownerRefs != [] ==>
          GetService(slice.ownerRefs[|slice.ownerRefs| - 1].name, slice.namespace, services) == Some(info.service))
    && (slice.ownerRefs == [] ==> info.service == prev)
  }

  /** One step of a successful bundling: the records of all but the last
      slice, then the last slice's record. */
  lemma BundleLast(slices: seq<EndpointSlice>, services: seq<Service>, pods: seq<Pod>)
    requires Targeted(slices) && slices != [] && Bundle(slices, services, pods).Ok?
    ensures Targeted(slices[..|slices| - 1]) && Bundle(slices[..|slices| - 1], services, pods).Ok?
    ensures EndpointsTargeted(slices[|slices| - 1])
    ensures var b, a := Bundle(slices, services, pods).value, Bundle(slices[..|slices| - 1], services, pods).value;
            |b.0| == |a.0| + 1 && b.0[..|a.0|] == a.0 && b.1 == b.0[|a.0|].service
            && RecordOf(b.0[|a.0|], slices[|slices| - 1], services, pods, a.1)
  {
    var init, slice := slices[..|slices| - 1], slices[|slices| - 1];
    assert forall i | 0 <= i < |init| :: init[i] == slices[i];
    assert Targeted(init);
    assert EndpointsTargeted(slice);
    var acc := Bundle(init, services, pods);
    assert acc.Ok?;
    var owner := OwnerService(slice, |slice.ownerRefs|, services, acc.value.1);
    assert owner.Ok?;
    var ps := SlicePods(slice, |slice.endpoints|, pods);
    assert ps.Ok?;
    var info := EndpointSliceInfo(slice, owner.value, [ZeroPod] + ps.value);
    assert Bundle(slices, services, pods).value == (acc.value.0 + [info], owner.value);
    OwnerServiceSpec(slice, |slice.ownerRefs|, services, acc.value.1);
    SlicePodsSpec(slice, |slice.endpoints|, pods);
    RecordOfParts(slice, services, pods, acc.value.1, owner.value, ps.value);
  }

  lemma RecordOfParts(slice: EndpointSlice, services: seq<Service>, pods: seq<Pod>, prev: Service,
                      service: Service, ps: seq<Pod>)
    requires EndpointsTargeted(slice)
    requires |ps| == |slice.endpoints| && forall j | 0 <= j < |ps| :: PodOf(slice, j, pods) == Some(ps[j])
    requires slice.ownerRefs != [] ==>
               Some(service) == GetService(slice.ownerRefs[|slice.ownerRefs| - 1].name, slice.namespace, services)
    requires slice.ownerRefs == [] ==> service == prev
    ensures RecordOf(EndpointSliceInfo(slice, service, [ZeroPod] + ps), slice, services, pods, prev)
  {
    var info := EndpointSliceInfo(slice, service, [ZeroPod] + ps);
    forall j | 0 <= j < |slice.endpoints| ensures PodOf(slice, j, pods) == Some(info.pods[j + 1]) {
      assert info.pods[j + 1] == ps[j];
    }
  }

  /** The service a record inherits when its slice has no owners. */
  function PrevService(infos: seq<EndpointSliceInfo>, i: nat): Service
    requires i <= |infos|
  {
    if i == 0 then ZeroService else infos[i - 1].service
  }

  /** A successful bundling gives one record per slice, in order, each
      carrying the service of the record before it into a slice without
      owners (the zero service for the first). */
  lemma {:induction false} BundleRecords(slices: seq<EndpointSlice>, services: seq<Service>, pods: seq<Pod>)
    requires Targeted(slices) && Bundle(slices, services, pods).Ok?
    ensures var infos := Bundle(slices, services, pods).value.0;
            |infos| == |slices|
            && (forall i | 0 <= i < |slices| ::
                  EndpointsTargeted(slices[i])
                  && RecordOf(infos[i], slices[i], services, pods, PrevService(infos, i)))
            && Bundle(slices, services, pods).value.1 == (if slices == [] then ZeroService else infos[|slices| - 1].service)
    decreases |slices|
  {
    if slices != [] {
      var init := slices[..|slices| - 1];
      BundleLast(slices, services, pods);
      BundleRecords(init, services, pods);
      var infos, prior := Bundle(slices, services, pods).value.0, Bundle(init, services, pods).value.0;
      forall i | 0 <= i < |slices|
        ensures EndpointsTargeted(slices[i])
        ensures RecordOf(infos[i], slices[i], services, pods, PrevService(infos, i))
      {
        var prev := PrevService(prior, i);
        if i < |init| {
          assert RecordOf(prior[i], init[i], services, pods, prev);
          assert infos[i] == prior[i] && slices[i] == init[i];
          assert i > 0 ==> infos[i - 1] == prior[i - 1];
        } else {
          assert RecordOf(infos[i], slices[i], services, pods, Bundle(init, services, pods).value.1);
          assert Bundle(init, services, pods).value.1 == prev;
          assert i > 0 ==> infos[i - 1] == prior[i - 1];
        }
      }
    }
  }

  /** A failure in a prefix of the slices is the failure of the whole list. */
  lemma {:induction false} BundlePrefixErr(slices: seq<EndpointSlice>, n: nat, services: seq<Service>, pods: seq<Pod>)
    requires Targeted(slices) && n <= |slices|
    requires Targeted(slices[..n]) && Bundle(slices[..n], services, pods).Err?
    ensures Bundle(slices, services, pods) == Bundle(slices[..n], services, pods)
    decreases |slices|
  {
    if n < |slices| {
      var init := slices[..|slices| - 1];
      assert init[..n] == slices[..n];
      assert Targeted(init) by {
        assert forall i | 0 <= i < |init| :: init[i] == slices[i];
      }
      BundlePrefixErr(init, n, services, pods);
    } else {
      assert slices[..n] == slices;
    }
  }

  function Padding(n: nat): (r: seq<EndpointSliceInfo>)
    ensures |r| == n && forall i | 0 <= i < n :: r[i] == ZeroInfo
  {
    seq(n, _ => ZeroInfo)
  }

  /** createEndpointSliceInfo (internal package). The result slice is created
      with length len(items) and then appended to, so the records follow
      that many zero records; each record's pods start with a zero pod. */
  method CreateEndpointSliceInfo(slices: seq<EndpointSlice>, services: seq<Service>, pods: seq<Pod>)
    returns (r: Result<seq<EndpointSliceInfo>, BundleError>)
    requires Targeted(slices)
    ensures r.Ok? <==> Bundle(slices, services, pods).Ok?
    ensures r.Err? ==> r.error == Bundle(slices, services, pods).error
    ensures r.Ok? ==> r.value == Padding(|slices|) + Bundle(slices, services, pods).value.0
  {
    var service := ZeroService;
    var res := Padding(|slices|);
    ghost var infos: seq<EndpointSliceInfo> := [];
    for i := 0 to |slices|
      invariant Targeted(slices[..i])
      invariant Bundle(slices[..i], services, pods) == Ok((infos, service))
      invariant res == Padding(|slices|) + infos
    {
      var slice := slices[i];
      assert slices[..i + 1][..i] == slices[..i] && slices[..i + 1][i] == slice;
      assert Targeted(slices[..i + 1]);
      assert EndpointsTargeted(slice);
      var podsOf := [ZeroPod];
      ghost var prev := service;
      for j := 0 to |slice.ownerRefs|
        invariant OwnerService(slice, j, services, prev) == Ok(service)
      {
        var found := GetService(slice.ownerRefs[j].name, slice.namespace, services);
        if found.None? {
          OwnerServiceSpec(slice, |slice.ownerRefs|, services, prev);
          assert Bundle(slices[..i + 1], services, pods) == Err(BundleFailed(slice.namespace, slice.name));
          BundlePrefixErr(slices, i + 1, services, pods);
          return Err(BundleFailed(slice.namespace, slice.name));
        }
        service := found.value;
      }
      ghost var resolved: seq<Pod> := [];
      for j := 0 to |slice.endpoints|
        invariant SlicePods(slice, j, pods) == Ok(resolved)
        invariant podsOf == [ZeroPod] + resolved
      {
        var ref := slice.endpoints[j].targetRef.value;
        var found := GetPod(ref.name, ref.namespace, pods);
        if found.None? {
          SlicePodsSpec(slice, |slice.endpoints|, pods);
          assert PodOf(slice, j, pods).None?;
          assert Bundle(slices[..i + 1], services, pods) == Err(BundleFailed(slice.namespace, slice.name));
          BundlePrefixErr(slices, i + 1, services, pods);
          return Err(BundleFailed(slice.namespace, slice.name));
        }
        podsOf := podsOf + [found.value];
        resolved := resolved + [found.value];
      }
      res := res + [EndpointSliceInfo(slice, service, podsOf)];
      infos := infos + [EndpointSliceInfo(slice, service, podsOf)];
    }
    assert slices[..|slices|] == slices;
    return Ok(res);
  }

  /** The bundle has twice as many records as there are slices, the first
      half zero records. */
  lemma CreateEndpointSliceInfoShape(slices: seq<EndpointSlice>, services: seq<Service>, pods: seq<Pod>)
    requires Targeted(slices) && Bundle(slices, services, pods).Ok?
    ensures var out := Padding(|slices|) + Bundle(slices, services, pods).value.0;
            |out| == 2 * |slices|
            && (forall i | 0 <= i < |slices| :: out[i] == ZeroInfo && out[|slices| + i].slice == slices[i])
  {
    BundleRecords(slices, services, pods);
    var infos := Bundle(slices, services, pods).value.0;
    var pad := Padding(|slices|);
    var out := pad + infos;
    forall i | 0 <= i < |slices|
      ensures out[i] == ZeroInfo && out[|slices| + i].slice == slices[i]
    {
      assert out[i] == pad[i];
      assert out[|slices| + i] == infos[i];
      assert RecordOf(infos[i], slices[i], services, pods, PrevService(infos, i));
    }
  }
}
