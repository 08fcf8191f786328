/** The six-field matrix entry of the internal `types` package: its text
    rendering, the matrix text, the TCP/UDP port lists handed to the nftables
    template, and the endpoint slice an entry is published as. */
module InternalTypes {
  import opened Text
  import opened Seqs
  import opened Cluster
  import opened Wrappers

  /** One ingress listener; the port is kept as text. */
  datatype ComDetails = ComDetails(
    direction: string,
    protocol: string,
    port: string,
    nodeRole: string,
    serviceName: string,
    required: bool)

  function BoolString(b: bool): string {
    if b then "true" else "false"
  }

  /** The six values ComDetails.String prints, in order. */
  function Cells(cd: ComDetails): seq<string> {
    [cd.direction, cd.protocol, cd.port, cd.nodeRole, cd.serviceName, BoolString(cd.required)]
  }

  /** ComDetails.String */
  function String(cd: ComDetails): string {
    Join(Cells(cd), ",")
  }

  predicate CommaFree(cd: ComDetails) {
    ',' !in cd.direction && ',' !in cd.protocol && ',' !in cd.port
    && ',' !in cd.nodeRole && ',' !in cd.serviceName
  }

  /** ToCSV cuts the text at every comma: when no field holds a comma this
      gives back the six values, in order. */
  lemma CsvRecordOfCommaFree(cd: ComDetails)
    requires CommaFree(cd)
    ensures Split(String(cd), ',') == Cells(cd)
  {
    SplitJoin(Cells(cd), ',');
  }

  /** A node with both roles yields a seven-cell record, with the required
      flag pushed into a seventh column. */
  lemma CsvRecordOfTwoRoles(cd: ComDetails)
    requires CommaFree(cd.(nodeRole := ""))
    requires cd.nodeRole == "master,worker"
    ensures |Split(String(cd), ',')| == 7
    ensures Split(String(cd), ',')[4] == "worker"
  {
    var c := Cells(cd);
    var seven := c[..3] + ["master", "worker"] + c[4..];
    assert "master" + "," + "worker" == "master,worker";
    assert c == c[..3] + [c[3]] + c[4..];
    JoinSplice(c[..3], "master", "worker", c[4..], ",");
    assert forall k | 0 <= k < |seven| :: ',' !in seven[k];
    SplitJoin(seven, ',');
  }

  function Strings(m: seq<ComDetails>): (r: seq<string>)
    ensures |r| == |m| && forall k | 0 <= k < |m| :: r[k] == String(m[k])
  {
    seq(|m|, k requires 0 <= k < |m| => String(m[k]))
  }

  /** ComMatrix.String: each entry's text followed by a newline, in matrix
      order. */
  method MatrixString(m: seq<ComDetails>) returns (s: string)
    ensures s == Lines(Strings(m))
  {
    s := "";
    for i := 0 to |m|
      invariant s == Lines(Strings(m)[..i])
    {
      assert Strings(m)[..i + 1][..i] == Strings(m)[..i];
      s := s + String(m[i]) + "\n";
    }
    assert Strings(m)[..|m|] == Strings(m);
  }

  predicate NewlineFree(cd: ComDetails) {
    '\n' !in cd.direction && '\n' !in cd.protocol && '\n' !in cd.port
    && '\n' !in cd.nodeRole && '\n' !in cd.serviceName
  }

  /** Reading the matrix text back line by line gives each entry's text, then
      the empty text after the final newline. */
  lemma MatrixStringLines(m: seq<ComDetails>)
    requires forall k | 0 <= k < |m| :: NewlineFree(m[k])
    ensures Split(Lines(Strings(m)), '\n') == Strings(m) + [""]
  {
    forall k | 0 <= k < |m| ensures '\n' !in Strings(m)[k] {
      var c := Cells(m[k]);
      assert forall j | 0 <= j < |c| :: '\n' !in c[j];
      JoinFree(c, ",", '\n');
    }
    SplitLines(Strings(m));
  }

  // ---------------------------------------------------------------------------
  // The port lists of the nftables rules
  // ---------------------------------------------------------------------------

  /** The ports of the entries whose protocol is exactly `protocol`, in order,
      duplicates included. */
  function PortsOf(cds: seq<ComDetails>, protocol: string): seq<string> {
    if cds == [] then []
    else
      var init, last := cds[..|cds| - 1], cds[|cds| - 1];
      PortsOf(init, protocol) + (if last.protocol == protocol then [last.port] else [])
  }

  datatype NftablesData = NftablesData(allowedTCPPorts: seq<string>, allowedUDPPorts: seq<string>)

  /** The loop of ComMatrix.ToNftables that fills the template data; the
      template rendering itself is not modelled. */
  method ToNftables(m: seq<ComDetails>) returns (data: NftablesData)
    ensures data.allowedTCPPorts == PortsOf(m, "TCP")
    ensures data.allowedUDPPorts == PortsOf(m, "UDP")
  {
    data := NftablesData([], []);
    for i := 0 to |m|
      invariant data.allowedTCPPorts == PortsOf(m[..i], "TCP")
      invariant data.allowedUDPPorts == PortsOf(m[..i], "UDP")
    {
      assert m[..i + 1][..i] == m[..i];
      var cd := m[i];
      if cd.protocol == "TCP" {
        data := data.(allowedTCPPorts := data.allowedTCPPorts + [cd.port]);
      }
      if cd.protocol == "UDP" {
        data := data.(allowedUDPPorts := data.allowedUDPPorts + [cd.port]);
      }
    }
    assert m[..|m|] == m;
  }

  /** A port is listed for a protocol iff some entry of exactly that protocol
      has it; any other protocol text, lowercase included, adds nothing. */
  lemma {:induction false} PortsOfMembers(cds: seq<ComDetails>, protocol: string, p: string)
    ensures p in PortsOf(cds, protocol) <==> exists i | 0 <= i < |cds| :: cds[i].protocol == protocol && cds[i].port == p
    decreases |cds|
  {
    if cds != [] {
      var init := cds[..|cds| - 1];
      PortsOfMembers(init, protocol, p);
      assert forall i | 0 <= i < |init| :: init[i] == cds[i];
    }
  }

  /** Duplicates are kept: one port per entry of the protocol. */
  lemma {:induction false} PortsOfCount(cds: seq<ComDetails>, protocol: string)
    ensures |PortsOf(cds, protocol)| == |Filter((cd: ComDetails) => cd.protocol == protocol, cds)|
    decreases |cds|
  {
    if cds != [] {
      PortsOfCount(cds[..|cds| - 1], protocol);
    }
  }

  /** No entry lands in both lists, so together they are no longer than the
      matrix. */
  lemma {:induction false} PortsOfBound(cds: seq<ComDetails>)
    ensures |PortsOf(cds, "TCP")| + |PortsOf(cds, "UDP")| <= |cds|
    decreases |cds|
  {
    if cds != [] {
      PortsOfBound(cds[..|cds| - 1]);
    }
  }

  // ---------------------------------------------------------------------------
  // ToEndpointSlice
  // ---------------------------------------------------------------------------

  /** ComDetails.ToEndpointSlice: a slice with one port (the given number as
      an int32, with the entry's protocol) and one endpoint on the given node
      at the placeholder address. */
  function ToEndpointSlice(cd: ComDetails, name: string, namespace: string, nodeName: string,
                           labels: map<string, string>, port: int): (s: EndpointSlice)
    ensures s.name == name && s.namespace == namespace && s.labels == labels
    ensures |s.ports| == 1 && s.ports[0].protocol == cd.protocol
    ensures MinInt32 <= port <= MaxInt32 ==> s.ports[0].port == port
    ensures |s.endpoints| == 1 && s.endpoints[0].nodeName == nodeName
    ensures s.endpoints[0].addresses == [PlaceHolderIPAddress]
    ensures s.ownerRefs == [] && s.endpoints[0].targetRef.None?
  {
    EndpointSlice(name, namespace, labels, [],
                  [Endpoint(nodeName, None, [PlaceHolderIPAddress])],
                  [EndpointPort(ToInt32(port), cd.protocol)],
                  DefaultAddressType)
  }
}
