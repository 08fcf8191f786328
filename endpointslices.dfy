/** The translation of endpoint slices into matrix entries: every role of
    the nodes behind a slice's endpoints, paired with every port the slice
    declares. The internal endpointslices package, the pkg endpointslices
    package and the commatrix package carry identical copies of this code;
    the copies are modelled once, here. */
module EndpointSlices {
  import opened Wrappers
  import opened Seqs
  import opened Text
  import opened Cluster
  import opened Nodes
  import opened InternalTypes

  datatype NodeError = NodeNotFound(nodeName: string)

  /** The last node of the list with this name: the search loop does not stop
      at a match. */
  function LastNamed(nodes: seq<Node>, name: string): Option<Node>
    decreases |nodes|
  {
    if nodes == [] then None
    else if nodes[|nodes| - 1].name == name then Some(nodes[|nodes| - 1])
    else LastNamed(nodes[..|nodes| - 1], name)
  }

  predicate Known(nodes: seq<Node>, name: string) {
    exists j | 0 <= j < |nodes| :: nodes[j].name == name
  }

  /** A node is found iff one has the name, and the one found is the last
      such node. */
  lemma {:induction false} LastNamedSpec(nodes: seq<Node>, name: string)
    ensures LastNamed(nodes, name).Some? <==> Known(nodes, name)
    ensures LastNamed(nodes, name).Some? ==>
              exists j | 0 <= j < |nodes| ::
                nodes[j] == LastNamed(nodes, name).value && nodes[j].name == name
                && forall j' | j < j' < |nodes| :: nodes[j'].name != name
    decreases |nodes|
  {
    if nodes != [] {
      var n := |nodes| - 1;
      var init := nodes[..n];
      if nodes[n].name == name {
        assert Known(nodes, name) by { assert nodes[n].name == name; }
      } else {
        LastNamedSpec(init, name);
        assert LastNamed(nodes, name) == LastNamed(init, name);
        if Known(nodes, name) {
          var j :| 0 <= j < |nodes| && nodes[j].name == name;
          assert init[j].name == name;
        }
        if LastNamed(init, name).Some? {
          var j :| 0 <= j < |init| && init[j] == LastNamed(init, name).value && init[j].name == name
                   && forall j' | j < j' < |init| :: init[j'].name != name;
          assert nodes[j] == init[j];
          assert forall j' | j < j' < |nodes| :: nodes[j'].name != name by {
            forall j' | j < j' < |nodes| ensures nodes[j'].name != name {
              if j' < n { assert init[j'] == nodes[j']; }
            }
          }
        } else {
          assert !Known(init, name);
          assert forall j | 0 <= j < |init| :: init[j] == nodes[j];
        }
      }
    }
  }

  /** The label keys of the node an endpoint runs on (none when unknown). */
  function NodeKeys(nodes: seq<Node>, name: string): set<string> {
    match LastNamed(nodes, name)
    case Some(n) => n.labels.Keys
    case None => {}
  }

  /** The nodes of the first `n` endpoints are all known. */
  predicate KnownUpTo(slice: EndpointSlice, nodes: seq<Node>, n: nat)
    requires n <= |slice.endpoints|
  {
    forall i | 0 <= i < n :: Known(nodes, slice.endpoints[i].nodeName)
  }

  predicate AllKnown(slice: EndpointSlice, nodes: seq<Node>) {
    KnownUpTo(slice, nodes, |slice.endpoints|)
  }

  /** The error names the node of the first endpoint whose node is unknown. */
  ghost predicate FirstMissing(slice: EndpointSlice, nodes: seq<Node>, e: NodeError) {
    exists i | 0 <= i < |slice.endpoints| ::
      KnownUpTo(slice, nodes, i) && !Known(nodes, slice.endpoints[i].nodeName)
      && e == NodeNotFound(slice.endpoints[i].nodeName)
  }

  /** `picked` holds, for each endpoint, a role text of its node: the text
      is only fixed up to order, and is computed afresh for every endpoint. */
  predicate RolesPicked(slice: EndpointSlice, nodes: seq<Node>, picked: seq<string>)
    requires |picked| <= |slice.endpoints|
  {
    forall i | 0 <= i < |picked| :: IsRoleString(NodeKeys(nodes, slice.endpoints[i].nodeName), picked[i])
  }

  /** The entry for one role and one declared port. */
  function Entry(slice: EndpointSlice, role: string, p: EndpointPort): ComDetails {
    ComDetails(IngressLabel, p.protocol, IntToString(p.port), role, ServiceNameOf(slice), IsRequired(slice))
  }

  /** One role paired with every declared port, in port order. */
  function PortEntries(slice: EndpointSlice, role: string): (r: seq<ComDetails>)
    ensures |r| == |slice.ports|
    ensures forall k | 0 <= k < |slice.ports| :: r[k] == Entry(slice, role, slice.ports[k])
  {
    seq(|slice.ports|, k requires 0 <= k < |slice.ports| => Entry(slice, role, slice.ports[k]))
  }

  /** The roles, in the order the role map is walked, each paired with every
      port. */
  function FanOut(slice: EndpointSlice, order: seq<string>): seq<ComDetails> {
    if order == [] then []
    else FanOut(slice, order[..|order| - 1]) + PortEntries(slice, order[|order| - 1])
  }

  lemma PortEntriesPrefix(slice: EndpointSlice, role: string, k: nat, cd: ComDetails)
    requires k < |slice.ports| && cd == Entry(slice, role, slice.ports[k])
    ensures PortEntries(slice, role)[..k + 1] == PortEntries(slice, role)[..k] + [cd]
  {
  }

  lemma FanOutSnoc(slice: EndpointSlice, order: seq<string>, role: string)
    ensures FanOut(slice, order + [role]) == FanOut(slice, order) + PortEntries(slice, role)
  {
    assert (order + [role])[..|order|] == order;
  }

  /** A possible result of toComDetails: the fan-out of some walk of a role
      set the endpoints' nodes give. */
  ghost predicate Fanned(slice: EndpointSlice, nodes: seq<Node>, out: seq<ComDetails>) {
    exists picked: seq<string>, order: seq<string> :: FannedBy(slice, nodes, out, picked, order)
  }

  /** `out` is the fan-out of the walk `order` of the role texts `picked`. */
  ghost predicate FannedBy(slice: EndpointSlice, nodes: seq<Node>, out: seq<ComDetails>, picked: seq<string>, order: seq<string>) {
    |picked| == |slice.endpoints| && RolesPicked(slice, nodes, picked)
    && NoDup(order) && (forall x :: x in order <==> x in picked) && out == FanOut(slice, order)
  }

  /** The node search of toComDetails: the whole list is scanned and the
      last node with the name wins. */
  method FindNode(nodes: seq<Node>, name: string) returns (node: Node, found: bool)
    ensures found <==> Known(nodes, name)
    ensures found ==> LastNamed(nodes, name) == Some(node)
  {
    node := Node("", map[]);
    found := false;
    for j := 0 to |nodes|
      invariant found == LastNamed(nodes[..j], name).Some?
      invariant found ==> node == LastNamed(nodes[..j], name).value
    {
      assert nodes[..j + 1][..j] == nodes[..j];
      if nodes[j].name == name {
        node := nodes[j];
        found := true;
      }
    }
    assert nodes[..|nodes|] == nodes;
    LastNamedSpec(nodes, name);
  }

  /** The fan-out loop of toComDetails: the role map is walked in an order
      left open, and every role is paired with every port. */
  method PairWithPorts(slice: EndpointSlice, roles: map<string, bool>) returns (res: seq<ComDetails>, order: seq<string>)
    ensures NoDup(order) && (forall x :: x in order <==> x in roles)
    ensures res == FanOut(slice, order)
  {
    var required := IsRequired(slice);
    var service := ServiceNameOf(slice);
    res := [];
    var pending := roles.Keys;
    order := [];
    while pending != {}
      invariant pending <= roles.Keys
      invariant NoDup(order)
      invariant forall x :: x in order <==> x in roles.Keys && x !in pending
      invariant res == FanOut(slice, order)
      decreases pending
    {
      var role :| role in pending;
      for k := 0 to |slice.ports|
        invariant res == FanOut(slice, order) + PortEntries(slice, role)[..k]
      {
        var cd := ComDetails(IngressLabel, slice.ports[k].protocol, IntToString(slice.ports[k].port), role, service, required);
        PortEntriesPrefix(slice, role, k, cd);
        res := res + [cd];
      }
      assert PortEntries(slice, role)[..|slice.ports|] == PortEntries(slice, role);
      FanOutSnoc(slice, order, role);
      order := order + [role];
      pending := pending - {role};
    }
  }

  /** toComDetails: the node of every endpoint is looked up by name (an
      unknown node is an error) and its role text is put in a role map; then
      every role is paired with every port. The node list is a snapshot
      passed in. */
  method EpSliceToComDetails(slice: EndpointSlice, nodes: seq<Node>) returns (r: Result<seq<ComDetails>, NodeError>)
    ensures r.Ok? <==> AllKnown(slice, nodes)
    ensures r.Err? ==> FirstMissing(slice, nodes, r.error)
    ensures r.Ok? ==> Fanned(slice, nodes, r.value)
  {
    var roles: map<string, bool> := map[];
    ghost var picked: seq<string> := [];
    for i := 0 to |slice.endpoints|
      invariant KnownUpTo(slice, nodes, i)
      invariant |picked| == i && RolesPicked(slice, nodes, picked)
      invariant forall x :: x in roles <==> x in picked
    {
      var name := slice.endpoints[i].nodeName;
      var node, found := FindNode(nodes, name);
      if !found {
        assert KnownUpTo(slice, nodes, i) && !Known(nodes, slice.endpoints[i].nodeName);
        return Err(NodeNotFound(name));
      }
      var role := GetRoles(node);
      assert IsRoleString(NodeKeys(nodes, slice.endpoints[i].nodeName), role);
      roles := roles[role := true];
      picked := picked + [role];
    }
    var res, order := PairWithPorts(slice, roles);
    assert FannedBy(slice, nodes, res, picked, order);
    return Ok(res);
  }

  // ---------------------------------------------------------------------------
  // What a fan-out holds
  // ---------------------------------------------------------------------------

  lemma {:induction false} FanOutLength(slice: EndpointSlice, order: seq<string>)
    ensures |FanOut(slice, order)| == |order| * |slice.ports|
    decreases |order|
  {
    if order != [] {
      FanOutLength(slice, order[..|order| - 1]);
    }
  }

  /** Role `i` of the walk and port `k` give the entry at i·|ports| + k: each
      (role, port) pair once, grouped by role. */
  lemma {:induction false} FanOutIndex(slice: EndpointSlice, order: seq<string>, i: nat, k: nat)
    requires i < |order| && k < |slice.ports|
    ensures i * |slice.ports| + k < |FanOut(slice, order)|
    ensures FanOut(slice, order)[i * |slice.ports| + k] == Entry(slice, order[i], slice.ports[k])
    decreases |order|
  {
    var init := order[..|order| - 1];
    FanOutLength(slice, init);
    FanOutLength(slice, order);
    if i < |init| {
      FanOutIndex(slice, init, i, k);
      MulLe(i + 1, |init|, |slice.ports|);
    } else {
      assert i * |slice.ports| == |FanOut(slice, init)|;
    }
  }

  lemma {:induction false} MulLe(a: nat, b: nat, c: nat)
    requires a <= b
    ensures a * c <= b * c
    decreases c
  {
    if c > 0 {
      MulLe(a, b, c - 1);
      assert a * c == a * (c - 1) + a && b * c == b * (c - 1) + b;
    }
  }

  /** Every entry of a fan-out pairs a walked role with a declared port. */
  lemma {:induction false} FanOutMembers(slice: EndpointSlice, order: seq<string>, e: ComDetails)
    ensures e in FanOut(slice, order) <==>
              exists i, k | 0 <= i < |order| && 0 <= k < |slice.ports| :: e == Entry(slice, order[i], slice.ports[k])
    decreases |order|
  {
    if order != [] {
      var init := order[..|order| - 1];
      FanOutMembers(slice, init, e);
      assert forall i | 0 <= i < |init| :: init[i] == order[i];
      if e in PortEntries(slice, order[|order| - 1]) {
        var k :| 0 <= k < |slice.ports| && PortEntries(slice, order[|order| - 1])[k] == e;
      }
    }
  }

  /** Every entry of a possible result is an ingress entry carrying the
      slice's service-name label and optional flag, one of the slice's ports,
      and the role text of the node of one of its endpoints. */
  lemma FannedEntries(slice: EndpointSlice, nodes: seq<Node>, out: seq<ComDetails>, e: ComDetails)
    requires Fanned(slice, nodes, out) && e in out
    ensures e.direction == IngressLabel && e.serviceName == ServiceNameOf(slice) && e.required == IsRequired(slice)
    ensures exists k | 0 <= k < |slice.ports| :: e.protocol == slice.ports[k].protocol && e.port == IntToString(slice.ports[k].port)
    ensures exists i | 0 <= i < |slice.endpoints| :: IsRoleString(NodeKeys(nodes, slice.endpoints[i].nodeName), e.nodeRole)
  {
    var picked: seq<string>, order: seq<string> :| FannedBy(slice, nodes, out, picked, order);
    FanOutMembers(slice, order, e);
    var i, k :| 0 <= i < |order| && 0 <= k < |slice.ports| && e == Entry(slice, order[i], slice.ports[k]);
    assert order[i] in picked;
    var m :| 0 <= m < |picked| && picked[m] == order[i];
    assert IsRoleString(NodeKeys(nodes, slice.endpoints[m].nodeName), e.nodeRole);
  }

  /** For some choice of a role text per endpoint, every chosen text is
      paired with every port of the slice, and the result holds one entry
      per distinct chosen text and port. */
  lemma FannedCovers(slice: EndpointSlice, nodes: seq<Node>, out: seq<ComDetails>)
    requires Fanned(slice, nodes, out)
    ensures exists picked | |picked| == |slice.endpoints| && RolesPicked(slice, nodes, picked) ::
              |out| == |set x | x in picked| * |slice.ports|
              && forall i, k | 0 <= i < |picked| && 0 <= k < |slice.ports| :: Entry(slice, picked[i], slice.ports[k]) in out
  {
    var picked: seq<string>, order: seq<string> :| FannedBy(slice, nodes, out, picked, order);
    forall i, k | 0 <= i < |picked| && 0 <= k < |slice.ports|
      ensures Entry(slice, picked[i], slice.ports[k]) in out
    {
      assert picked[i] in order;
      var n :| 0 <= n < |order| && order[n] == picked[i];
      FanOutIndex(slice, order, n, k);
      var idx := n * |slice.ports| + k;
      assert idx < |out| && out[idx] == Entry(slice, picked[i], slice.ports[k]);
    }
    FanOutLength(slice, order);
    NoDupCard(order);
    assert (set x | x in order) == (set x | x in picked);
  }

  lemma {:induction false} NoDupCard<T>(s: seq<T>)
    requires NoDup(s)
    ensures |set x | x in s| == |s|
    decreases |s|
  {
    if s != [] {
      var init, last := s[..|s| - 1], s[|s| - 1];
      NoDupCard(init);
      assert (set x | x in s) == (set x | x in init) + {last};
      assert last !in (set x | x in init);
    }
  }

  // ---------------------------------------------------------------------------
  // ToComDetails
  // ---------------------------------------------------------------------------

  /** A possible concatenation of the per-slice results, in slice order. */
  ghost predicate Gathered(slices: seq<EndpointSlice>, nodes: seq<Node>, all: seq<ComDetails>) {
    exists outs: seq<seq<ComDetails>> :: GatheredFrom(slices, nodes, all, outs)
  }

  ghost predicate GatheredFrom(slices: seq<EndpointSlice>, nodes: seq<Node>, all: seq<ComDetails>, outs: seq<seq<ComDetails>>) {
    |outs| == |slices| && (forall i | 0 <= i < |slices| :: Fanned(slices[i], nodes, outs[i])) && all == Flatten(outs)
  }

  /** Slice `i` is the first whose nodes are not all known, and `e` names its
      first unknown node. */
  ghost predicate FailsFirstAt(slices: seq<EndpointSlice>, nodes: seq<Node>, i: nat, e: NodeError) {
    i < |slices| && (forall i' | 0 <= i' < i :: AllKnown(slices[i'], nodes)) && FirstMissing(slices[i], nodes, e)
  }

  /** `out` holds every entry of `all` exactly once. */
  ghost predicate DistinctOf(out: seq<ComDetails>, all: seq<ComDetails>) {
    NoDup(out) && forall e :: e in out <==> e in all
  }

  /** ToComDetails: the per-slice results concatenated; the first failing
      slice fails the call with no partial result; then every distinct entry
      is kept once, in an order left open. */
  method ToComDetails(slices: seq<EndpointSlice>, nodes: seq<Node>) returns (r: Result<seq<ComDetails>, NodeError>)
    ensures r.Ok? <==> forall i | 0 <= i < |slices| :: AllKnown(slices[i], nodes)
    ensures r.Err? ==> exists i :: FailsFirstAt(slices, nodes, i, r.error)
    ensures r.Ok? ==> exists all | Gathered(slices, nodes, all) :: DistinctOf(r.value, all)
  {
    var comDetails: seq<ComDetails> := [];
    ghost var outs: seq<seq<ComDetails>> := [];
    for i := 0 to |slices|
      invariant forall i' | 0 <= i' < i :: AllKnown(slices[i'], nodes)
      invariant |outs| == i && (forall i' | 0 <= i' < i :: Fanned(slices[i'], nodes, outs[i']))
      invariant comDetails == Flatten(outs)
    {
      var cds := EpSliceToComDetails(slices[i], nodes);
      if cds.Err? {
        assert FailsFirstAt(slices, nodes, i, cds.error);
        return Err(cds.error);
      }
      FlattenSnoc(outs, cds.value);
      assert forall i' | 0 <= i' < i :: (outs + [cds.value])[i'] == outs[i'];
      comDetails := comDetails + cds.value;
      outs := outs + [cds.value];
    }
    assert GatheredFrom(slices, nodes, comDetails, outs);
    var cleaned := UnsortedList(comDetails);
    assert DistinctOf(cleaned, comDetails);
    return Ok(cleaned);
  }

  /** Every entry of a possible concatenation comes from one slice's
      possible result. */
  lemma GatheredMembers(slices: seq<EndpointSlice>, nodes: seq<Node>, all: seq<ComDetails>, e: ComDetails)
    requires Gathered(slices, nodes, all) && e in all
    ensures exists i, out | 0 <= i < |slices| && Fanned(slices[i], nodes, out) :: e in out
  {
    var outs: seq<seq<ComDetails>> :| GatheredFrom(slices, nodes, all, outs);
    FlattenMembers(outs, e);
  }
}
