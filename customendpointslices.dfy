/** The custom endpoint slices: every scanned listener on a known port that
    no declared endpoint slice covers is published as an endpoint slice of
    its own, named after the entry and placed on a node of the entry's role.
    The cluster's list of nodes and the namespace the slices are created in
    are snapshots passed in; the API server's refusals are a parameter. */
module CustomEndpointSlices {
  import opened Wrappers
  import opened Seqs
  import opened Text
  import opened Cluster
  import opened InternalTypes
  import Nodes
  import EndpointSlices
  import Commatrix

  const DefaultNamespace := "default"

  // ---------------------------------------------------------------------------
  // Inverting a map
  // ---------------------------------------------------------------------------

  /** `n` inverts `m`: its keys are the values of `m`, and each maps back to a
      key of `m` that holds it. */
  predicate Reverses(n: map<string, string>, m: map<string, string>) {
    n.Keys == m.Values && forall v | v in n :: n[v] in m && m[n[v]] == v
  }

  predicate Injective(m: map<string, string>) {
    forall k, k' | k in m && k' in m && m[k] == m[k'] :: k == k'
  }

  /** reverseMap: walks `m` in map order (left open here) and maps each value
      to its key; when keys share a value, the one met last wins. */
  method ReverseMap(m: map<string, string>) returns (n: map<string, string>)
    ensures Reverses(n, m)
  {
    n := map[];
    var pending := m.Keys;
    while pending != {}
      invariant pending <= m.Keys
      invariant n.Keys == set k | k in m.Keys - pending :: m[k]
      invariant forall v | v in n :: n[v] in m && m[n[v]] == v
      decreases pending
    {
      var k :| k in pending;
      pending := pending - {k};
      n := n[m[k] := k];
    }
  }

  /** An injective map is undone by its inverse, and inverting the inverse
      gives the map back. */
  lemma ReverseTwice(m: map<string, string>, n: map<string, string>, n2: map<string, string>)
    requires Injective(m) && Reverses(n, m) && Reverses(n2, n)
    ensures forall k | k in m :: m[k] in n && n[m[k]] == k
    ensures n2 == m
  {
    forall k | k in m ensures m[k] in n && n[m[k]] == k {
      assert m[k] in m.Values;
    }
    assert n2.Keys == m.Keys by {
      forall k | k in m ensures k in n.Values {
        assert n[m[k]] == k;
      }
    }
    forall k | k in n2 ensures n2[k] == m[k] {
      var v := n2[k];
      assert n[v] == k;
    }
  }

  /** When two keys share a value, either may be the one the inverse keeps. */
  lemma ReverseWinnerOpen()
    ensures Reverses(map["x" := "a"], map["a" := "x", "b" := "x"])
    ensures Reverses(map["x" := "b"], map["a" := "x", "b" := "x"])
  {
    var m := map["a" := "x", "b" := "x"];
    assert m.Values == {"x"} by {
      assert m["a"] == "x";
    }
  }

  // ---------------------------------------------------------------------------
  // Node names and their roles
  // ---------------------------------------------------------------------------

  /** The names of the listed nodes. */
  function Names(nodes: seq<Node>): (names: set<string>)
    ensures forall i | 0 <= i < |nodes| :: nodes[i].name in names
  {
    set i | 0 <= i < |nodes| :: nodes[i].name
  }

  lemma NamesSnoc(nodes: seq<Node>, i: nat)
    requires i < |nodes|
    ensures Names(nodes[..i + 1]) == Names(nodes[..i]) + {nodes[i].name}
  {
    PrefixOfPrefix(nodes, i, i + 1);
    var pre, pre' := nodes[..i], nodes[..i + 1];
    forall x | x in Names(pre') ensures x in Names(pre) + {nodes[i].name} {
      var j :| 0 <= j < |pre'| && pre'[j].name == x;
      if j < i { assert pre[j] == pre'[j]; }
    }
    assert pre'[i] == nodes[i];
    forall j | 0 <= j < |pre| ensures pre[j].name in Names(pre') {
      assert pre'[j] == pre[j];
    }
  }

  /** `res` maps every listed node name to a role text GetRoles may give for
      the last node of that name. */
  predicate RolesByName(nodes: seq<Node>, res: map<string, string>) {
    res.Keys == Names(nodes)
    && forall name | name in res :: Nodes.IsRoleString(EndpointSlices.NodeKeys(nodes, name), res[name])
  }

  lemma NodeKeysSnoc(nodes: seq<Node>, i: nat, name: string)
    requires i < |nodes|
    ensures EndpointSlices.NodeKeys(nodes[..i + 1], name)
            == if nodes[i].name == name then nodes[i].labels.Keys else EndpointSlices.NodeKeys(nodes[..i], name)
  {
    PrefixOfPrefix(nodes, i, i + 1);
  }

  lemma RolesByNameSnoc(nodes: seq<Node>, i: nat, res: map<string, string>, role: string)
    requires i < |nodes| && RolesByName(nodes[..i], res)
    requires Nodes.IsRoleString(nodes[i].labels.Keys, role)
    ensures RolesByName(nodes[..i + 1], res[nodes[i].name := role])
  {
    var res' := res[nodes[i].name := role];
    NamesSnoc(nodes, i);
    forall name | name in res'
      ensures Nodes.IsRoleString(EndpointSlices.NodeKeys(nodes[..i + 1], name), res'[name])
    {
      NodeKeysSnoc(nodes, i, name);
    }
  }

  /** getNodeNamesToRolesMap, after the nodes are listed: each node's name
      mapped to its roles; of two nodes with one name, the later wins. */
  method NodeNamesToRoles(nodes: seq<Node>) returns (res: map<string, string>)
    ensures RolesByName(nodes, res)
  {
    res := map[];
    for i := 0 to |nodes|
      invariant RolesByName(nodes[..i], res)
    {
      var role := Nodes.GetRoles(nodes[i]);
      RolesByNameSnoc(nodes, i, res, role);
      res := res[nodes[i].name := role];
    }
    assert nodes[..|nodes|] == nodes;
  }

  /** Through the inverted map, a role text leads to a listed node that has
      those roles; a role text no node has leads nowhere. */
  lemma NodeOfRole(nodes: seq<Node>, names: map<string, string>, roleNodes: map<string, string>, role: string)
    requires RolesByName(nodes, names) && Reverses(roleNodes, names)
    ensures role in roleNodes <==> exists name | name in names :: names[name] == role
    ensures role in roleNodes ==>
              (exists i | 0 <= i < |nodes| :: nodes[i].name == roleNodes[role])
              && Nodes.IsRoleString(EndpointSlices.NodeKeys(nodes, roleNodes[role]), role)
  {
    if role in roleNodes {
      var name := roleNodes[role];
      assert name in names.Keys;
    }
    if exists name | name in names :: names[name] == role {
      var name :| name in names && names[name] == role;
      assert role in names.Values;
    }
  }

  // ---------------------------------------------------------------------------
  // comDetailsToEPSlice
  // ---------------------------------------------------------------------------

  /** The name of the slice published for an entry. */
  function SliceName(cd: ComDetails): (name: string)
    ensures IsPrefix("commatrix-test-", name)
  {
    "commatrix-test-" + cd.serviceName + "-" + cd.nodeRole + "-" + cd.port
  }

  /** Slice names tell entries apart when roles and ports hold no '-'
      (service names may). */
  lemma SliceNameInjective(a: ComDetails, b: ComDetails)
    requires '-' !in a.nodeRole && '-' !in a.port && '-' !in b.nodeRole && '-' !in b.port
    requires SliceName(a) == SliceName(b)
    ensures a.serviceName == b.serviceName && a.nodeRole == b.nodeRole && a.port == b.port
  {
    var p := "commatrix-test-";
    var x, y := a.serviceName + "-" + a.nodeRole, b.serviceName + "-" + b.nodeRole;
    assert SliceName(a) == p + x + "-" + a.port;
    assert SliceName(b) == p + y + "-" + b.port;
    SplitAtLast(p + x, a.port, p + y, b.port, '-');
    assert x == (p + x)[|p|..] && y == (p + y)[|p|..];
    SplitAtLast(a.serviceName, a.nodeRole, b.serviceName, b.nodeRole, '-');
  }

  /** A '-' inside a role lets two different entries share a slice name. */
  lemma SliceNameCollision()
    ensures var a := ComDetails(IngressLabel, "TCP", "80", "c", "a-b", true);
            var b := ComDetails(IngressLabel, "TCP", "80", "b-c", "a", true);
            a != b && SliceName(a) == SliceName(b)
  {
  }

  /** The labels of the slice published for an entry: always the ingress
      label and the service name, and the optional label exactly when the
      entry is not required. */
  function SliceLabels(cd: ComDetails): (labels: map<string, string>)
    ensures IngressLabel in labels && labels[IngressLabel] == ""
    ensures ServiceNameLabel in labels && labels[ServiceNameLabel] == cd.serviceName
    ensures OptionalLabel in labels <==> !cd.required
    ensures OptionalLabel in labels ==> labels[OptionalLabel] == OptionalTrue
    ensures labels.Keys <= {IngressLabel, ServiceNameLabel, OptionalLabel}
  {
    var labels := map[IngressLabel := "", ServiceNameLabel := cd.serviceName];
    if !cd.required then labels[OptionalLabel := OptionalTrue] else labels
  }

  /** `nodeRolesToNodeNames[cd.NodeRole]`: "" when the role is not there. */
  function NodeNameFor(roleNodes: map<string, string>, role: string): (name: string)
    ensures role in roleNodes ==> name == roleNodes[role]
    ensures role !in roleNodes ==> name == ""
  {
    if role in roleNodes then roleNodes[role] else ""
  }

  datatype TranslateError = InvalidPort(port: string)

  /** comDetailsToEPSlice: fails when the port is not a base-10 int32;
      otherwise one slice in the default namespace with one port and one
      endpoint, on the node the role maps to. */
  function ComDetailsToEPSlice(cd: ComDetails, roleNodes: map<string, string>): (r: Result<EndpointSlice, TranslateError>)
    ensures r.Err? <==> ParseInt32(cd.port).None?
    ensures r.Err? ==> r.error == InvalidPort(cd.port)
    ensures r.Ok? ==> r.value.ports == [EndpointPort(ParseInt32(cd.port).value, cd.protocol)]
    ensures r.Ok? ==> |r.value.endpoints| == 1 && r.value.endpoints[0].nodeName == NodeNameFor(roleNodes, cd.nodeRole)
    ensures r.Ok? ==> r.value.name == SliceName(cd) && r.value.namespace == DefaultNamespace
    ensures r.Ok? ==> r.value.labels == SliceLabels(cd)
  {
    match ParseInt32(cd.port)
    case None => Err(InvalidPort(cd.port))
    case Some(port) =>
      Ok(ToEndpointSlice(cd, SliceName(cd), DefaultNamespace, NodeNameFor(roleNodes, cd.nodeRole), SliceLabels(cd), port))
  }

  /** Reading the published slice back as the declared endpoint slices are
      read gives the entry again, with the ingress direction and the port as
      %d prints the parsed number. */
  lemma SliceRoundTrip(cd: ComDetails, roleNodes: map<string, string>)
    requires ParseInt32(cd.port).Some?
    ensures var s := ComDetailsToEPSlice(cd, roleNodes).value;
            IngressLabel in s.labels && IsRequired(s) == cd.required && ServiceNameOf(s) == cd.serviceName
            && EndpointSlices.PortEntries(s, cd.nodeRole)
               == [cd.(direction := IngressLabel, port := IntToString(ParseInt32(cd.port).value))]
  {
    var s := ComDetailsToEPSlice(cd, roleNodes).value;
    assert EndpointSlices.PortEntries(s, cd.nodeRole)[0]
           == cd.(direction := IngressLabel, port := IntToString(ParseInt32(cd.port).value));
  }

  /** An ingress entry whose port is already in %d form comes back unchanged. */
  lemma CanonicalRoundTrip(cd: ComDetails, roleNodes: map<string, string>, v: int)
    requires cd.direction == IngressLabel && MinInt32 <= v <= MaxInt32 && cd.port == IntToString(v)
    ensures ComDetailsToEPSlice(cd, roleNodes).Ok?
    ensures EndpointSlices.PortEntries(ComDetailsToEPSlice(cd, roleNodes).value, cd.nodeRole) == [cd]
  {
    ParseInt32RoundTrip(v);
    SliceRoundTrip(cd, roleNodes);
  }

  /** Placed through the inverted role map, the slice's endpoint is on a
      listed node with the entry's roles, or on no node ("") when no node has
      them. */
  lemma SlicePlacement(nodes: seq<Node>, names: map<string, string>, roleNodes: map<string, string>, cd: ComDetails)
    requires RolesByName(nodes, names) && Reverses(roleNodes, names)
    requires ParseInt32(cd.port).Some?
    ensures var node := ComDetailsToEPSlice(cd, roleNodes).value.endpoints[0].nodeName;
            if exists name | name in names :: names[name] == cd.nodeRole then
              (exists i | 0 <= i < |nodes| :: nodes[i].name == node)
              && Nodes.IsRoleString(EndpointSlices.NodeKeys(nodes, node), cd.nodeRole)
            else node == ""
  {
    NodeOfRole(nodes, names, roleNodes, cd.nodeRole);
  }

  // ---------------------------------------------------------------------------
  // createEpSlices
  // ---------------------------------------------------------------------------

  /** The slice an entry translates to, if any: a list of one or none. */
  function SliceOf(cd: ComDetails, roleNodes: map<string, string>): (r: seq<EndpointSlice>)
    ensures |r| <= 1
  {
    var t := ComDetailsToEPSlice(cd, roleNodes);
    if t.Ok? then [t.value] else []
  }

  /** The slices the entries translate to, in order; an entry that fails to
      translate has none. */
  function Translated(cds: seq<ComDetails>, roleNodes: map<string, string>): seq<EndpointSlice> {
    FlatMap(Translator(roleNodes), cds)
  }

  function Translator(roleNodes: map<string, string>): (f: ComDetails -> seq<EndpointSlice>)
    ensures forall cd :: f(cd) == SliceOf(cd, roleNodes)
  {
    cd => SliceOf(cd, roleNodes)
  }

  /** A slice is requested exactly when some entry translates to it. */
  lemma TranslatedMembers(cds: seq<ComDetails>, roleNodes: map<string, string>, s: EndpointSlice)
    ensures s in Translated(cds, roleNodes) <==> exists i | 0 <= i < |cds| :: ComDetailsToEPSlice(cds[i], roleNodes) == Ok(s)
  {
    FlatMapMembers(Translator(roleNodes), cds, s);
  }

  /** Every entry is requested when every port parses; never more. */
  lemma TranslatedLength(cds: seq<ComDetails>, roleNodes: map<string, string>)
    ensures |Translated(cds, roleNodes)| <= |cds|
    ensures (forall i | 0 <= i < |cds| :: ParseInt32(cds[i].port).Some?) ==> |Translated(cds, roleNodes)| == |cds|
  {
    FlatMapAtMostOne(Translator(roleNodes), cds);
    if forall i | 0 <= i < |cds| :: ParseInt32(cds[i].port).Some? {
      FlatMapLength(Translator(roleNodes), cds);
    }
  }

  datatype CreateOutcome = Created | AlreadyExists | Failed

  /** The Create call of the endpoint slices API on the default namespace,
      held as a map from slice name to slice: a taken name is answered with
      AlreadyExists; otherwise the slice is stored unless the API server
      refuses it. */
  method CreateSlice(store: map<string, EndpointSlice>, s: EndpointSlice, refused: EndpointSlice -> bool)
    returns (outcome: CreateOutcome, after: map<string, EndpointSlice>)
    ensures outcome == AlreadyExists <==> s.name in store
    ensures outcome == Failed <==> s.name !in store && refused(s)
    ensures outcome == Created ==> after == store[s.name := s]
    ensures outcome != Created ==> after == store
  {
    if s.name in store {
      return AlreadyExists, store;
    }
    if refused(s) {
      return Failed, store;
    }
    return Created, store[s.name := s];
  }

  /** The namespace after creating the slices in order. */
  function Publish(store: map<string, EndpointSlice>, slices: seq<EndpointSlice>, refused: EndpointSlice -> bool)
    : map<string, EndpointSlice>
    decreases |slices|
  {
    if slices == [] then store
    else
      var before := Publish(store, slices[..|slices| - 1], refused);
      var s := slices[|slices| - 1];
      if s.name in before || refused(s) then before else before[s.name := s]
  }

  lemma PublishSnoc(store: map<string, EndpointSlice>, slices: seq<EndpointSlice>, s: EndpointSlice,
                    refused: EndpointSlice -> bool)
    ensures var before := Publish(store, slices, refused);
            Publish(store, slices + [s], refused)
            == if s.name in before || refused(s) then before else before[s.name := s]
  {
    SnocPrefix(slices, s);
  }

  /** Creating never replaces a slice already there. */
  lemma {:induction false} PublishKeeps(store: map<string, EndpointSlice>, slices: seq<EndpointSlice>,
                                        refused: EndpointSlice -> bool)
    ensures forall k | k in store :: k in Publish(store, slices, refused) && Publish(store, slices, refused)[k] == store[k]
    decreases |slices|
  {
    if slices != [] {
      PublishKeeps(store, slices[..|slices| - 1], refused);
    }
  }

  /** A name ends up taken exactly when it was, or some requested slice of
      that name was not refused. */
  lemma {:induction false} PublishNames(store: map<string, EndpointSlice>, slices: seq<EndpointSlice>,
                                        refused: EndpointSlice -> bool, k: string)
    ensures k in Publish(store, slices, refused)
            <==> k in store || exists i | 0 <= i < |slices| :: slices[i].name == k && !refused(slices[i])
    decreases |slices|
  {
    if slices != [] {
      var n := |slices| - 1;
      var init := slices[..n];
      PublishNames(store, init, refused, k);
      if exists i | 0 <= i < |init| :: init[i].name == k && !refused(init[i]) {
        var i :| 0 <= i < |init| && init[i].name == k && !refused(init[i]);
        assert slices[i] == init[i];
      }
      if exists i | 0 <= i < |slices| :: slices[i].name == k && !refused(slices[i]) {
        var i :| 0 <= i < |slices| && slices[i].name == k && !refused(slices[i]);
        if i < n { assert init[i] == slices[i]; }
      }
    }
  }

  /** Every slice the namespace gained is a requested slice the API server
      did not refuse, stored under its own name. */
  lemma {:induction false} PublishFrom(store: map<string, EndpointSlice>, slices: seq<EndpointSlice>,
                                       refused: EndpointSlice -> bool, k: string)
    requires k in Publish(store, slices, refused) && k !in store
    ensures exists i | 0 <= i < |slices| ::
              Publish(store, slices, refused)[k] == slices[i] && slices[i].name == k && !refused(slices[i])
    decreases |slices|
  {
    var n := |slices| - 1;
    var init := slices[..n];
    if k in Publish(store, init, refused) {
      PublishFrom(store, init, refused, k);
      var i :| 0 <= i < |init| && Publish(store, init, refused)[k] == init[i] && init[i].name == k && !refused(init[i]);
      assert slices[i] == init[i];
    } else {
      assert Publish(store, slices, refused)[k] == slices[n];
    }
  }

  /** createEpSlices, after the nodes are listed: every entry that translates
      is created; translation failures and refused creations are skipped, and
      a name already taken is not a failure. */
  method CreateEpSlices(nodes: seq<Node>, cds: seq<ComDetails>, store: map<string, EndpointSlice>,
                        refused: EndpointSlice -> bool)
    returns (after: map<string, EndpointSlice>, roleNodes: map<string, string>)
    ensures exists names :: RolesByName(nodes, names) && Reverses(roleNodes, names)
    ensures after == Publish(store, Translated(cds, roleNodes), refused)
  {
    var names := NodeNamesToRoles(nodes);
    var nodeRolesToNodeNames := ReverseMap(names);
    roleNodes := nodeRolesToNodeNames;
    after := store;
    for i := 0 to |cds|
      invariant after == Publish(store, Translated(cds[..i], nodeRolesToNodeNames), refused)
    {
      FlatMapSnoc(Translator(nodeRolesToNodeNames), cds, i);
      var endpointSlice := ComDetailsToEPSlice(cds[i], nodeRolesToNodeNames);
      if endpointSlice.Err? {
        assert SliceOf(cds[i], nodeRolesToNodeNames) == [];
        assert Translated(cds[..i + 1], nodeRolesToNodeNames) == Translated(cds[..i], nodeRolesToNodeNames) + [];
        assert Translated(cds[..i], nodeRolesToNodeNames) + [] == Translated(cds[..i], nodeRolesToNodeNames);
        continue;
      }
      var slice := endpointSlice.value;
      assert SliceOf(cds[i], nodeRolesToNodeNames) == [slice];
      assert Translated(cds[..i + 1], nodeRolesToNodeNames) == Translated(cds[..i], nodeRolesToNodeNames) + [slice];
      PublishSnoc(store, Translated(cds[..i], nodeRolesToNodeNames), slice, refused);
      var outcome;
      outcome, after := CreateSlice(after, slice, refused);
      if outcome == Failed {
        continue;
      }
    }
    assert cds[..|cds|] == cds;
  }

  /** With every port valid and nothing refused, the slice of every entry is
      in the namespace afterwards. */
  lemma AllPublished(cds: seq<ComDetails>, roleNodes: map<string, string>, store: map<string, EndpointSlice>,
                     refused: EndpointSlice -> bool)
    requires forall i | 0 <= i < |cds| :: ParseInt32(cds[i].port).Some?
    requires forall s :: !refused(s)
    ensures forall i | 0 <= i < |cds| :: SliceName(cds[i]) in Publish(store, Translated(cds, roleNodes), refused)
  {
    var slices := Translated(cds, roleNodes);
    forall i | 0 <= i < |cds| ensures SliceName(cds[i]) in Publish(store, slices, refused) {
      var s := ComDetailsToEPSlice(cds[i], roleNodes).value;
      TranslatedMembers(cds, roleNodes, s);
      var j :| 0 <= j < |slices| && slices[j] == s;
      assert slices[j].name == SliceName(cds[i]) && !refused(slices[j]);
      PublishNames(store, slices, refused, SliceName(cds[i]));
    }
  }

  // ---------------------------------------------------------------------------
  // Create
  // ---------------------------------------------------------------------------

  /** The entries Create publishes: the scanned listeners on known ports,
      each once, that no declared entry covers. */
  ghost predicate Missing(slices: seq<EndpointSlice>, nodes: seq<Node>, targets: seq<Commatrix.ScanTarget>,
                          decode: string -> Option<seq<string>>, knownTCP: map<string, bool>,
                          knownUDP: map<string, bool>, missing: seq<ComDetails>) {
    exists existing, all | EndpointSlices.Gathered(slices, nodes, all) && EndpointSlices.DistinctOf(existing, all) ::
      exists scanned | Commatrix.Scanned(targets, decode, scanned) ::
        Commatrix.NewListeners(missing, scanned, existing, knownTCP, knownUDP)
  }

  /** Create, after the query that selects the slices: the declared entries,
      the scanned listeners they do not cover, and a slice published for each
      of those; a declared slice on an unknown node or a failed scan ends it
      before anything is created. */
  method Create(slices: seq<EndpointSlice>, nodes: seq<Node>, targets: seq<Commatrix.ScanTarget>,
                decode: string -> Option<seq<string>>, knownTCP: map<string, bool>, knownUDP: map<string, bool>,
                store: map<string, EndpointSlice>, refused: EndpointSlice -> bool)
    returns (r: Result<map<string, EndpointSlice>, Commatrix.MatrixError>,
             ghost missing: seq<ComDetails>, ghost roleNodes: map<string, string>)
    ensures (exists i | 0 <= i < |slices| :: !EndpointSlices.AllKnown(slices[i], nodes)) ==> r.Err? && r.error.DeclaredFailed?
    ensures r.Err? && r.error.DeclaredFailed? ==> exists i :: EndpointSlices.FailsFirstAt(slices, nodes, i, r.error.declared)
    ensures (forall i | 0 <= i < |slices| :: EndpointSlices.AllKnown(slices[i], nodes)) ==>
              (r.Ok? <==> Commatrix.AllScansSucceed(targets, decode))
              && (r.Err? ==> r.error.ScanFailed? && Commatrix.FirstScanFailure(targets, decode, r.error.scan))
    ensures r.Ok? ==> Missing(slices, nodes, targets, decode, knownTCP, knownUDP, missing)
    ensures r.Ok? ==> exists names :: RolesByName(nodes, names) && Reverses(roleNodes, names)
    ensures r.Ok? ==> r.value == Publish(store, Translated(missing, roleNodes), refused)
  {
    missing, roleNodes := [], map[];
    var existing := EndpointSlices.ToComDetails(slices, nodes);
    if existing.Err? {
      return Err(Commatrix.DeclaredFailed(existing.error)), missing, roleNodes;
    }
    var diff := Commatrix.GetComDetailsFromSS(targets, decode, knownTCP, knownUDP, existing.value);
    if diff.Err? {
      return Err(Commatrix.ScanFailed(diff.error)), missing, roleNodes;
    }
    missing := diff.value;
    var after;
    after, roleNodes := CreateEpSlices(nodes, diff.value, store, refused);
    return Ok(after), missing, roleNodes;
  }
}
