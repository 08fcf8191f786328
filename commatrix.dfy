/** The commatrix package: the matrix is the entries declared by the selected
    endpoint slices, followed by the listeners the socket scan finds on known
    ports that no declared entry covers. The cluster lists are snapshots
    passed in; each node comes with the command runner of its debug pod. */
module Commatrix {
  import opened Wrappers
  import opened Seqs
  import opened Cluster
  import opened InternalTypes
  import Ss
  import EndpointSlices

  // ---------------------------------------------------------------------------
  // Listener identity and the difference of two lists
  // ---------------------------------------------------------------------------

  /** isComDetailsEqual: the same node role, port and protocol; direction,
      service and the required flag are not compared. */
  predicate SameListener(a: ComDetails, b: ComDetails) {
    a.nodeRole == b.nodeRole && a.port == b.port && a.protocol == b.protocol
  }

  /** Some entry of `other` is the same listener as `cd`. */
  predicate Listed(other: seq<ComDetails>, cd: ComDetails) {
    exists j | 0 <= j < |other| :: SameListener(cd, other[j])
  }

  function NotListed(other: seq<ComDetails>): (p: ComDetails -> bool)
    ensures forall cd :: p(cd) == !Listed(other, cd)
  {
    cd => !Listed(other, cd)
  }

  /** getDiffComDetails: the entries of the first list, in order, with no
      listener match in the second. */
  method GetDiffComDetails(comDetails1: seq<ComDetails>, comDetails2: seq<ComDetails>) returns (res: seq<ComDetails>)
    ensures res == Filter(NotListed(comDetails2), comDetails1)
    ensures forall x :: x in res <==> x in comDetails1 && !Listed(comDetails2, x)
  {
    var keep := NotListed(comDetails2);
    res := [];
    for i := 0 to |comDetails1|
      invariant res == Filter(keep, comDetails1[..i])
    {
      var cd1 := comDetails1[i];
      assert comDetails1[..i + 1] == comDetails1[..i] + [cd1];
      FilterSnoc(keep, comDetails1[..i], cd1);
      var found := false;
      for j := 0 to |comDetails2|
        invariant found <==> exists k | 0 <= k < j :: SameListener(cd1, comDetails2[k])
      {
        if SameListener(cd1, comDetails2[j]) {
          found := true;
          break;
        }
      }
      assert found == Listed(comDetails2, cd1);
      if !found {
        res := res + [cd1];
      }
    }
    assert comDetails1[..|comDetails1|] == comDetails1;
    forall x ensures x in res <==> x in comDetails1 && !Listed(comDetails2, x) {
      FilterMembers(keep, comDetails1, x);
    }
  }

  /** A list minus itself is empty. */
  lemma DiffOfSelf(cds: seq<ComDetails>)
    ensures Filter(NotListed(cds), cds) == []
  {
    forall k | 0 <= k < |cds| ensures !NotListed(cds)(cds[k]) {
      assert SameListener(cds[k], cds[k]);
    }
    FilterNonePass(NotListed(cds), cds);
  }

  /** A list minus nothing is the list. */
  lemma DiffOfNothing(cds: seq<ComDetails>)
    ensures Filter(NotListed([]), cds) == cds
  {
    FilterAllPass(NotListed([]), cds);
  }

  // ---------------------------------------------------------------------------
  // Scanning the nodes
  // ---------------------------------------------------------------------------

  /** A node and the command runner of the debug pod on it. */
  datatype ScanTarget = ScanTarget(node: Node, exec: string -> Result<string, string>)

  /** `all` is the concatenation of one successful scan per node, in node
      order; `outs` holds the scans and `roles` the role texts each node gave
      for its UDP and TCP tables. */
  ghost predicate ScannedFrom(targets: seq<ScanTarget>, decode: string -> Option<seq<string>>,
                              all: seq<ComDetails>, outs: seq<seq<ComDetails>>, roles: seq<(string, string)>)
    decreases |targets|
  {
    |outs| == |targets| && |roles| == |targets| && all == Flatten(outs)
    && (targets != [] ==>
          var n := |targets| - 1;
          Ss.NodeScanWith(targets[n].exec, decode, targets[n].node, outs[n], roles[n].0, roles[n].1)
          && ScannedFrom(targets[..n], decode, Flatten(outs[..n]), outs[..n], roles[..n]))
  }

  ghost predicate Scanned(targets: seq<ScanTarget>, decode: string -> Option<seq<string>>, all: seq<ComDetails>) {
    exists outs, roles :: ScannedFrom(targets, decode, all, outs, roles)
  }

  /** Every node's scan gets through. */
  predicate AllScansSucceed(targets: seq<ScanTarget>, decode: string -> Option<seq<string>>) {
    forall i | 0 <= i < |targets| :: Ss.NodeScanFailure(targets[i].exec, decode).None?
  }

  /** `e` is the error of the first node, in node order, whose scan fails. */
  predicate FirstScanFailure(targets: seq<ScanTarget>, decode: string -> Option<seq<string>>, e: Ss.ScanError) {
    exists i | 0 <= i < |targets| ::
      Ss.NodeScanFailure(targets[i].exec, decode) == Some(e)
      && forall j | 0 <= j < i :: Ss.NodeScanFailure(targets[j].exec, decode).None?
  }

  /** The node loop of getComDetailsFromSS: every node is scanned in turn and
      the entries are concatenated; the first failing node ends the loop with
      its error. */
  method ScanNodes(targets: seq<ScanTarget>, decode: string -> Option<seq<string>>)
    returns (r: Result<seq<ComDetails>, Ss.ScanError>)
    ensures r.Ok? ==> Scanned(targets, decode, r.value)
    ensures r.Ok? <==> AllScansSucceed(targets, decode)
    ensures r.Err? ==> FirstScanFailure(targets, decode, r.error)
  {
    var all := [];
    ghost var outs: seq<seq<ComDetails>> := [];
    ghost var roles: seq<(string, string)> := [];
    for i := 0 to |targets|
      invariant ScannedFrom(targets[..i], decode, all, outs, roles)
      invariant AllScansSucceed(targets[..i], decode)
    {
      var cds;
      ghost var udpRoles, tcpRoles;
      cds, udpRoles, tcpRoles := Ss.CreateComDetailsFromNode(targets[i].exec, decode, targets[i].node);
      if cds.Err? {
        FirstScanFailureAt(targets, decode, i, cds.error);
        return Err(cds.error);
      }
      AllScansSucceedSnoc(targets, decode, i);
      ScannedFromSnoc(targets, decode, i, all, outs, roles, cds.value, udpRoles, tcpRoles);
      all := all + cds.value;
      outs, roles := outs + [cds.value], roles + [(udpRoles, tcpRoles)];
    }
    assert targets[..|targets|] == targets;
    return Ok(all);
  }

  /** A failing node after only successful ones is the first failure, and
      not every scan succeeds. */
  lemma FirstScanFailureAt(targets: seq<ScanTarget>, decode: string -> Option<seq<string>>, i: nat, e: Ss.ScanError)
    requires i < |targets| && Ss.NodeScanFailure(targets[i].exec, decode) == Some(e)
    requires AllScansSucceed(targets[..i], decode)
    ensures FirstScanFailure(targets, decode, e) && !AllScansSucceed(targets, decode)
  {
    assert forall j | 0 <= j < i :: targets[..i][j] == targets[j];
  }

  lemma AllScansSucceedSnoc(targets: seq<ScanTarget>, decode: string -> Option<seq<string>>, i: nat)
    requires i < |targets| && AllScansSucceed(targets[..i], decode)
    requires Ss.NodeScanFailure(targets[i].exec, decode).None?
    ensures AllScansSucceed(targets[..i + 1], decode)
  {
    assert forall j | 0 <= j < i :: targets[..i][j] == targets[j];
  }

  /** One more successful node scan extends the record by one node. */
  lemma ScannedFromSnoc(targets: seq<ScanTarget>, decode: string -> Option<seq<string>>, i: nat,
                        all: seq<ComDetails>, outs: seq<seq<ComDetails>>, roles: seq<(string, string)>,
                        cds: seq<ComDetails>, udpRoles: string, tcpRoles: string)
    requires i < |targets| && ScannedFrom(targets[..i], decode, all, outs, roles)
    requires Ss.NodeScanWith(targets[i].exec, decode, targets[i].node, cds, udpRoles, tcpRoles)
    ensures ScannedFrom(targets[..i + 1], decode, all + cds, outs + [cds], roles + [(udpRoles, tcpRoles)])
  {
    SnocPrefix(outs, cds);
    SnocPrefix(roles, (udpRoles, tcpRoles));
    PrefixOfPrefix(targets, i, i + 1);
    FlattenSnoc(outs, cds);
  }

  lemma {:induction false} ScannedFromMembers(targets: seq<ScanTarget>, decode: string -> Option<seq<string>>,
                                              all: seq<ComDetails>, outs: seq<seq<ComDetails>>,
                                              roles: seq<(string, string)>, e: ComDetails)
    requires ScannedFrom(targets, decode, all, outs, roles) && e in all
    ensures exists i | 0 <= i < |targets| ::
              Ss.NodeScanWith(targets[i].exec, decode, targets[i].node, outs[i], roles[i].0, roles[i].1) && e in outs[i]
    decreases |targets|
  {
    var n := |targets| - 1;
    if e !in outs[n] {
      ScannedFromMembers(targets[..n], decode, Flatten(outs[..n]), outs[..n], roles[..n], e);
      var i :| 0 <= i < n && Ss.NodeScanWith(targets[..n][i].exec, decode, targets[..n][i].node, outs[..n][i],
                                             roles[..n][i].0, roles[..n][i].1) && e in outs[..n][i];
      assert targets[..n][i] == targets[i] && outs[..n][i] == outs[i] && roles[..n][i] == roles[i];
    }
  }

  /** Every scanned entry comes from a successful scan of some node. */
  lemma ScannedMembers(targets: seq<ScanTarget>, decode: string -> Option<seq<string>>, all: seq<ComDetails>, e: ComDetails)
    requires Scanned(targets, decode, all) && e in all
    ensures exists i, cds | 0 <= i < |targets| && Ss.NodeScan(targets[i].exec, decode, targets[i].node, cds) :: e in cds
  {
    var outs: seq<seq<ComDetails>>, roles: seq<(string, string)> :| ScannedFrom(targets, decode, all, outs, roles);
    ScannedFromMembers(targets, decode, all, outs, roles, e);
    var i :| 0 <= i < |targets| && Ss.NodeScanWith(targets[i].exec, decode, targets[i].node, outs[i], roles[i].0, roles[i].1)
             && e in outs[i];
    Ss.NodeScanIntro(targets[i].exec, decode, targets[i].node, outs[i], roles[i].0, roles[i].1);
  }

  /** What getComDetailsFromSS adds to the matrix: each scanned entry on a
      known port with no listener match among the existing entries, once. */
  ghost predicate NewListeners(out: seq<ComDetails>, all: seq<ComDetails>, existing: seq<ComDetails>,
                               knownTCP: map<string, bool>, knownUDP: map<string, bool>) {
    NoDup(out)
    && forall x :: x in out <==> x in all && Ss.IsKnownPort(knownTCP, knownUDP, x) && !Listed(existing, x)
  }

  /** getComDetailsFromSS: scan every node, drop repeated entries, keep the
      known ports, and drop what the existing entries already list. */
  method GetComDetailsFromSS(targets: seq<ScanTarget>, decode: string -> Option<seq<string>>,
                             knownTCP: map<string, bool>, knownUDP: map<string, bool>, existing: seq<ComDetails>)
    returns (r: Result<seq<ComDetails>, Ss.ScanError>)
    ensures r.Ok? ==> exists all | Scanned(targets, decode, all) :: NewListeners(r.value, all, existing, knownTCP, knownUDP)
    ensures r.Ok? <==> AllScansSucceed(targets, decode)
    ensures r.Err? ==> FirstScanFailure(targets, decode, r.error)
  {
    var all := ScanNodes(targets, decode);
    if all.Err? {
      return Err(all.error);
    }
    var cleaned := UnsortedList(all.value);
    var known, _ := Ss.FilterPorts(knownTCP, knownUDP, cleaned);
    var diff := GetDiffComDetails(known, existing);
    FilterNoDup(Ss.IsKnown(knownTCP, knownUDP), cleaned);
    FilterNoDup(NotListed(existing), known);
    forall x ensures x in known <==> x in all.value && Ss.IsKnownPort(knownTCP, knownUDP, x) {
      FilterMembers(Ss.IsKnown(knownTCP, knownUDP), cleaned, x);
    }
    assert NewListeners(diff, all.value, existing, knownTCP, knownUDP);
    return Ok(diff);
  }

  // ---------------------------------------------------------------------------
  // The matrix
  // ---------------------------------------------------------------------------

  datatype MatrixError = DeclaredFailed(declared: EndpointSlices.NodeError) | ScanFailed(scan: Ss.ScanError)

  /** `m` is the declared entries of the slices, each once (its first `k`
      entries), then the new scanned listeners. */
  ghost predicate MatrixOf(slices: seq<EndpointSlice>, nodes: seq<Node>, targets: seq<ScanTarget>,
                           decode: string -> Option<seq<string>>, knownTCP: map<string, bool>,
                           knownUDP: map<string, bool>, m: seq<ComDetails>, k: nat) {
    k <= |m|
    && (exists all | EndpointSlices.Gathered(slices, nodes, all) :: EndpointSlices.DistinctOf(m[..k], all))
    && (exists all | Scanned(targets, decode, all) :: NewListeners(m[k..], all, m[..k], knownTCP, knownUDP))
  }

  /** New, after the query that selects the slices: the declared entries,
      then the scanned listeners they do not cover. */
  method New(slices: seq<EndpointSlice>, nodes: seq<Node>, targets: seq<ScanTarget>,
             decode: string -> Option<seq<string>>, knownTCP: map<string, bool>, knownUDP: map<string, bool>)
    returns (r: Result<seq<ComDetails>, MatrixError>)
    ensures r.Ok? ==> forall i | 0 <= i < |slices| :: EndpointSlices.AllKnown(slices[i], nodes)
    ensures (exists i | 0 <= i < |slices| :: !EndpointSlices.AllKnown(slices[i], nodes)) ==> r.Err? && r.error.DeclaredFailed?
    ensures r.Err? && r.error.DeclaredFailed? ==> exists i :: EndpointSlices.FailsFirstAt(slices, nodes, i, r.error.declared)
    ensures r.Ok? ==> exists k :: MatrixOf(slices, nodes, targets, decode, knownTCP, knownUDP, r.value, k)
    ensures (forall i | 0 <= i < |slices| :: EndpointSlices.AllKnown(slices[i], nodes)) ==>
              (r.Ok? <==> AllScansSucceed(targets, decode))
              && (r.Err? ==> r.error.ScanFailed? && FirstScanFailure(targets, decode, r.error.scan))
  {
    var declared := EndpointSlices.ToComDetails(slices, nodes);
    if declared.Err? {
      return Err(DeclaredFailed(declared.error));
    }
    var scanned := GetComDetailsFromSS(targets, decode, knownTCP, knownUDP, declared.value);
    if scanned.Err? {
      return Err(ScanFailed(scanned.error));
    }
    var m := declared.value + scanned.value;
    assert m[..|declared.value|] == declared.value && m[|declared.value|..] == scanned.value;
    assert MatrixOf(slices, nodes, targets, decode, knownTCP, knownUDP, m, |declared.value|);
    return Ok(m);
  }

  /** No scanned entry of the matrix is the same listener as a declared one. */
  lemma ScannedNotDeclared(slices: seq<EndpointSlice>, nodes: seq<Node>, targets: seq<ScanTarget>,
                           decode: string -> Option<seq<string>>, knownTCP: map<string, bool>,
                           knownUDP: map<string, bool>, m: seq<ComDetails>, k: nat)
    requires MatrixOf(slices, nodes, targets, decode, knownTCP, knownUDP, m, k)
    ensures forall i, j | 0 <= i < k <= j < |m| :: !SameListener(m[j], m[i])
  {
    var all :| Scanned(targets, decode, all) && NewListeners(m[k..], all, m[..k], knownTCP, knownUDP);
    forall i, j | 0 <= i < k <= j < |m| ensures !SameListener(m[j], m[i]) {
      assert m[j] == m[k..][j - k];
      assert !Listed(m[..k], m[j]);
      assert m[i] == m[..k][i];
    }
  }
}
