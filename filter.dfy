/** The record filters of the internal endpointslices package: filters that
    may fail, applied in order to every bundled record, and the ingress
    filter built from them. */
module InternalFilter {
  import opened Wrappers
  import opened Seqs
  import opened Cluster
  import Query

  /** A filter judges one record and may fail; some filters only accept
      records of a certain shape. */
  type Filter = EndpointSliceInfo --> Result<bool, string>

  /** The error ApplyFilters wraps a filter failure in. */
  datatype FilterError = FilterFailed(namespace: string, name: string, cause: string)

  ghost predicate Applicable(filters: seq<Filter>, x: EndpointSliceInfo) {
    forall k | 0 <= k < |filters| :: filters[k].requires(x)
  }

  ghost predicate AllApplicable(filters: seq<Filter>, infos: seq<EndpointSliceInfo>) {
    forall i | 0 <= i < |infos| :: Applicable(filters, infos[i])
  }

  /** The filters' verdict on one record: tried in order, the first failure
      or rejection ends the judging. */
  function Verdict(filters: seq<Filter>, x: EndpointSliceInfo): Result<bool, string>
    requires Applicable(filters, x)
    decreases |filters|
  {
    if filters == [] then Ok(true)
    else
      var init := filters[..|filters| - 1];
      assert Applicable(init, x) by {
        assert forall k | 0 <= k < |init| :: init[k] == filters[k];
      }
      var keep :- Verdict(init, x);
      if keep then filters[|filters| - 1](x) else Ok(false)
  }

  /** A record passes iff every filter accepts it. */
  lemma {:induction false} VerdictAccept(filters: seq<Filter>, x: EndpointSliceInfo)
    requires Applicable(filters, x)
    ensures Verdict(filters, x) == Ok(true) <==> forall k | 0 <= k < |filters| :: filters[k](x) == Ok(true)
    decreases |filters|
  {
    if filters != [] {
      var init := filters[..|filters| - 1];
      assert forall k | 0 <= k < |init| :: init[k] == filters[k];
      VerdictAccept(init, x);
    }
  }

  /** A failure or rejection by the first `n` filters is the verdict of all
      of them. */
  lemma {:induction false} VerdictPrefix(filters: seq<Filter>, n: nat, x: EndpointSliceInfo)
    requires Applicable(filters, x) && n <= |filters| && Applicable(filters[..n], x)
    requires Verdict(filters[..n], x) != Ok(true)
    ensures Verdict(filters, x) == Verdict(filters[..n], x)
    decreases |filters|
  {
    if n < |filters| {
      var init := filters[..|filters| - 1];
      assert init[..n] == filters[..n];
      assert forall k | 0 <= k < |init| :: init[k] == filters[k];
      VerdictPrefix(init, n, x);
    } else {
      assert filters[..n] == filters;
    }
  }

  /** The result of ApplyFilters with at least one record and no failure:
      the records every filter accepts, in order; the first failing record
      fails the whole call. */
  function Kept(filters: seq<Filter>, infos: seq<EndpointSliceInfo>): Result<seq<EndpointSliceInfo>, FilterError>
    requires AllApplicable(filters, infos)
    decreases |infos|
  {
    if infos == [] then Ok([])
    else
      var init, last := infos[..|infos| - 1], infos[|infos| - 1];
      assert AllApplicable(filters, init) by {
        assert forall i | 0 <= i < |init| :: init[i] == infos[i];
      }
      var kept :- Kept(filters, init);
      match Verdict(filters, last)
      case Err(e) => Err(FilterFailed(last.slice.namespace, last.slice.name, e))
      case Ok(keep) => Ok(kept + if keep then [last] else [])
  }

  /** Without filters every record is kept. */
  lemma {:induction false} KeptNoFilters(infos: seq<EndpointSliceInfo>)
    ensures AllApplicable([], infos) && Kept([], infos) == Ok(infos)
    decreases |infos|
  {
    if infos != [] {
      KeptNoFilters(infos[..|infos| - 1]);
      assert infos[..|infos| - 1] + [infos[|infos| - 1]] == infos;
    }
  }

  /** A failure among the first `n` records is the failure of the whole call:
      nothing partial is returned. */
  lemma {:induction false} KeptPrefixErr(filters: seq<Filter>, infos: seq<EndpointSliceInfo>, n: nat)
    requires AllApplicable(filters, infos) && n <= |infos| && AllApplicable(filters, infos[..n])
    requires Kept(filters, infos[..n]).Err?
    ensures Kept(filters, infos) == Kept(filters, infos[..n])
    decreases |infos|
  {
    if n < |infos| {
      var init := infos[..|infos| - 1];
      assert init[..n] == infos[..n];
      assert forall i | 0 <= i < |init| :: init[i] == infos[i];
      KeptPrefixErr(filters, init, n);
    } else {
      assert infos[..n] == infos;
    }
  }

  /** One more record judged without failure. */
  lemma KeptStep(filters: seq<Filter>, infos: seq<EndpointSliceInfo>, i: nat)
    requires i < |infos| && AllApplicable(filters, infos[..i + 1])
    requires Kept(filters, infos[..i]).Ok? && Verdict(filters, infos[i]).Ok?
    ensures AllApplicable(filters, infos[..i])
    ensures Kept(filters, infos[..i + 1])
            == Ok(Kept(filters, infos[..i]).value + if Verdict(filters, infos[i]).value then [infos[i]] else [])
  {
    assert infos[..i + 1][..i] == infos[..i] && infos[..i + 1][i] == infos[i];
  }

  /** ApplyFilters (internal package). */
  method ApplyFilters(infos: seq<EndpointSliceInfo>, filters: seq<Filter>)
    returns (r: Result<seq<EndpointSliceInfo>, FilterError>)
    requires AllApplicable(filters, infos)
    ensures r == Kept(filters, infos)
  {
    if |filters| == 0 {
      KeptNoFilters(infos);
      return Ok(infos);
    }
    var res := [];
    for i := 0 to |infos|
      invariant AllApplicable(filters, infos[..i])
      invariant Kept(filters, infos[..i]) == Ok(res)
    {
      var x := infos[i];
      assert infos[..i + 1][..i] == infos[..i] && infos[..i + 1][i] == x;
      assert AllApplicable(filters, infos[..i + 1]);
      var keep := true;
      var j := 0;
      while j < |filters|
        invariant j <= |filters| && Applicable(filters[..j], x)
        invariant keep && Verdict(filters[..j], x) == Ok(true)
      {
        assert filters[..j + 1][..j] == filters[..j];
        assert Applicable(filters[..j + 1], x);
        var ret := filters[j](x);
        if ret.Err? {
          assert Verdict(filters[..j + 1], x) == ret;
          VerdictPrefix(filters, j + 1, x);
          assert Kept(filters, infos[..i + 1]).Err?;
          KeptPrefixErr(filters, infos, i + 1);
          return Err(FilterFailed(x.slice.namespace, x.slice.name, ret.error));
        }
        if !ret.value {
          assert Verdict(filters[..j + 1], x) == Ok(false);
          VerdictPrefix(filters, j + 1, x);
          keep := false;
          break;
        }
        j := j + 1;
      }
      if keep {
        assert filters[..j] == filters;
      }
      assert Verdict(filters, x) == Ok(keep);
      KeptStep(filters, infos, i);
      ghost var step := if keep then [x] else [];
      assert Kept(filters, infos[..i + 1]) == Ok(res + step);
      if keep {
        res := res + [x];
      } else {
        assert res + step == res;
      }
    }
    assert infos[..|infos|] == infos;
    return Ok(res);
  }

  /** The records every filter accepts. */
  ghost function Accepted(filters: seq<Filter>): EndpointSliceInfo -> bool {
    x => Applicable(filters, x) && Verdict(filters, x) == Ok(true)
  }

  /** ApplyFilters fails iff some record's judging fails, and then reports
      the first such record; otherwise it returns, in order, the records
      every filter accepts. */
  lemma {:induction false} KeptSpec(filters: seq<Filter>, infos: seq<EndpointSliceInfo>)
    requires AllApplicable(filters, infos)
    ensures Kept(filters, infos).Ok? <==> forall i | 0 <= i < |infos| :: Verdict(filters, infos[i]).Ok?
    ensures Kept(filters, infos).Ok? ==> Kept(filters, infos).value == Seqs.Filter(Accepted(filters), infos)
    ensures Kept(filters, infos).Err? ==>
              exists i | 0 <= i < |infos| ::
                Verdict(filters, infos[i]).Err?
                && (forall i' | 0 <= i' < i :: Verdict(filters, infos[i']).Ok?)
                && Kept(filters, infos).error
                   == FilterFailed(infos[i].slice.namespace, infos[i].slice.name, Verdict(filters, infos[i]).error)
    decreases |infos|
  {
    if infos != [] {
      var init, last := infos[..|infos| - 1], infos[|infos| - 1];
      assert forall i | 0 <= i < |init| :: init[i] == infos[i];
      KeptSpec(filters, init);
      var k := Kept(filters, init);
      if k.Err? {
        assert Kept(filters, infos) == Err(k.error);
        var i :| 0 <= i < |init| && Verdict(filters, init[i]).Err?
                 && (forall i' | 0 <= i' < i :: Verdict(filters, init[i']).Ok?)
                 && k.error == FilterFailed(init[i].slice.namespace, init[i].slice.name, Verdict(filters, init[i]).error);
        assert infos[i] == init[i];
      } else {
        match Verdict(filters, last)
        case Err(e) =>
          assert Kept(filters, infos) == Err(FilterFailed(last.slice.namespace, last.slice.name, e));
          assert Verdict(filters, infos[|init|]).Err?;
        case Ok(keep) =>
          assert Kept(filters, infos) == Ok(k.value + if keep then [last] else []);
          assert Applicable(filters, last);
          forall i | 0 <= i < |infos| ensures Verdict(filters, infos[i]).Ok? {
            if i < |init| {
              assert infos[i] == init[i];
            }
          }
          assert Accepted(filters)(last) == keep;
          FilterSnoc(Accepted(filters), init, last);
          Snoc(infos);
      }
    }
  }

  // ---------------------------------------------------------------------------
  // The ingress filter
  // ---------------------------------------------------------------------------

  /** FilterHostNetwork: reads the first pod only, so it demands one. */
  function FilterHostNetwork(info: EndpointSliceInfo): Result<bool, string>
    requires |info.pods| > 0
  {
    Ok(info.pods[0].hostNetwork)
  }

  function IngressFilters(filterLabels: EndpointSliceInfo -> Result<bool, string>): seq<Filter> {
    [FilterHostNetwork, filterLabels]
  }

  /** FilterForIngressTrafic: the host-network filter, then the label filter,
      which is not part of this model and is taken as a parameter. */
  method FilterForIngressTrafic(infos: seq<EndpointSliceInfo>, filterLabels: EndpointSliceInfo -> Result<bool, string>)
    returns (r: Result<seq<EndpointSliceInfo>, FilterError>)
    requires forall i | 0 <= i < |infos| :: |infos[i].pods| > 0
    ensures AllApplicable(IngressFilters(filterLabels), infos)
    ensures r == Kept(IngressFilters(filterLabels), infos)
  {
    r := ApplyFilters(infos, IngressFilters(filterLabels));
  }

  /** The ingress filter keeps, in order, the records whose first pod is on
      the host network and that the label filter accepts. */
  lemma IngressKept(infos: seq<EndpointSliceInfo>, filterLabels: EndpointSliceInfo -> Result<bool, string>)
    requires forall i | 0 <= i < |infos| :: |infos[i].pods| > 0
    requires AllApplicable(IngressFilters(filterLabels), infos)
    requires Kept(IngressFilters(filterLabels), infos).Ok?
    ensures Kept(IngressFilters(filterLabels), infos).value
            == Seqs.Filter((x: EndpointSliceInfo) => |x.pods| > 0 && x.pods[0].hostNetwork && filterLabels(x) == Ok(true), infos)
  {
    var fs := IngressFilters(filterLabels);
    KeptSpec(fs, infos);
    forall x: EndpointSliceInfo
      ensures Accepted(fs)(x) == (|x.pods| > 0 && x.pods[0].hostNetwork && filterLabels(x) == Ok(true))
    {
      if Applicable(fs, x) {
        VerdictAccept(fs, x);
      }
    }
    FilterExt(Accepted(fs), (x: EndpointSliceInfo) => |x.pods| > 0 && x.pods[0].hostNetwork && filterLabels(x) == Ok(true), infos);
  }

  // ---------------------------------------------------------------------------
  // The bundle fed to the ingress filter
  // ---------------------------------------------------------------------------

  /** A record whose first pod is not on the host network is rejected by the
      ingress filters without consulting the label filter. */
  lemma OffHostNetworkRejected(x: EndpointSliceInfo, filterLabels: EndpointSliceInfo -> Result<bool, string>)
    requires |x.pods| > 0 && !x.pods[0].hostNetwork
    ensures Applicable(IngressFilters(filterLabels), x)
    ensures Verdict(IngressFilters(filterLabels), x) == Ok(false)
  {
    var fs := IngressFilters(filterLabels);
    assert fs[..1] == [FilterHostNetwork];
    assert fs[..1][..0] == [];
    assert Verdict(fs[..1], x) == Ok(false);
  }

  /** As written, the bundle opens with zero records that have no pods, on
      which the host-network filter cannot be applied (the code indexes an
      empty list), and every real record starts with a zero pod, which is
      not on the host network, so the ingress filter rejects all of them. */
  lemma BundleRejectedByIngress(slices: seq<EndpointSlice>, services: seq<Service>, pods: seq<Pod>,
                                filterLabels: EndpointSliceInfo -> Result<bool, string>)
    requires Query.Targeted(slices) && Query.Bundle(slices, services, pods).Ok?
    ensures var out := Query.Padding(|slices|) + Query.Bundle(slices, services, pods).value.0;
            slices != [] ==> |out[0].pods| == 0
    ensures var infos := Query.Bundle(slices, services, pods).value.0;
            AllApplicable(IngressFilters(filterLabels), infos)
            && Kept(IngressFilters(filterLabels), infos) == Ok([])
  {
    Query.BundleRecords(slices, services, pods);
    var infos := Query.Bundle(slices, services, pods).value.0;
    var fs := IngressFilters(filterLabels);
    forall i | 0 <= i < |infos|
      ensures Applicable(fs, infos[i]) && Verdict(fs, infos[i]) == Ok(false)
    {
      assert Query.RecordOf(infos[i], slices[i], services, pods, Query.PrevService(infos, i));
      OffHostNetworkRejected(infos[i], filterLabels);
    }
    KeptSpec(fs, infos);
    Seqs.FilterNonePass(Accepted(fs), infos);
  }

  /** The evidently intended host-network filter: a record without pods is
      not on the host network. */
  function FilterHostNetworkTotal(info: EndpointSliceInfo): (r: Result<bool, string>)
    ensures r.Ok? && (r.value <==> |info.pods| > 0 && info.pods[0].hostNetwork)
  {
    Ok(|info.pods| > 0 && info.pods[0].hostNetwork)
  }

  /** The evidently intended records: one per slice, holding only the
      resolved pods. */
  function Unpadded(infos: seq<EndpointSliceInfo>): (r: seq<EndpointSliceInfo>)
    requires forall i | 0 <= i < |infos| :: |infos[i].pods| > 0
    ensures |r| == |infos|
    ensures forall i | 0 <= i < |infos| :: r[i] == infos[i].(pods := infos[i].pods[1..])
  {
    seq(|infos|, i requires 0 <= i < |infos| => infos[i].(pods := infos[i].pods[1..]))
  }

  /** With those records and that filter, a slice's record passes the
      host-network test iff the pod behind its first endpoint is on the host
      network. */
  lemma IntendedHostNetwork(slices: seq<EndpointSlice>, services: seq<Service>, pods: seq<Pod>, i: nat)
    requires Query.Targeted(slices) && Query.Bundle(slices, services, pods).Ok? && i < |slices|
    ensures Query.EndpointsTargeted(slices[i])
    ensures |Query.Bundle(slices, services, pods).value.0| == |slices|
    ensures forall k | 0 <= k < |Query.Bundle(slices, services, pods).value.0| ::
              |Query.Bundle(slices, services, pods).value.0[k].pods| > 0
    ensures var rec := Unpadded(Query.Bundle(slices, services, pods).value.0)[i];
            rec.slice == slices[i]
            && (FilterHostNetworkTotal(rec) == Ok(true) <==>
                  |slices[i].endpoints| > 0 && Query.PodOf(slices[i], 0, pods).Some?
                  && Query.PodOf(slices[i], 0, pods).value.hostNetwork)
  {
    Query.BundleRecords(slices, services, pods);
    var infos := Query.Bundle(slices, services, pods).value.0;
    assert Query.RecordOf(infos[i], slices[i], services, pods, Query.PrevService(infos, i));
  }
}
