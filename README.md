# Communication matrix, modelled in Dafny

This project models the core of node-comm-lib (commatrix). The tool builds the
*communication matrix* of an OpenShift cluster: the list of ingress listeners.
Each entry records a direction, a protocol, a port, the node role and the
service, and says whether the listener is required or optional.

Entries come from two sources:

- **Declared entries.** Endpoint slices are selected by label, service type
  and host network. Each slice is bundled with its owning service and its
  pods. Every role of the nodes behind its endpoints is paired with every
  port the slice declares.
- **Scanned entries.** The socket tables (`ss -anplt`, `ss -anplu`) of every
  node are filtered and parsed. Each entry is attributed to a host service or
  to the container that owns the process.

The two sources are merged, deduplicated and compared. The results are
rendered as text, CSV records, nftables port lists and endpoint slices.
Scanned listeners that no declared entry covers can be published back to the
cluster as endpoint slices of their own.

The repository has two generations of the entry type:

- `types/types.go`: nine fields, an integer port and an `Optional` flag.
  This is `Types.ComDetails`.
- `internal/types/types.go`: six fields, a string port and a `Required` flag.
  This is `InternalTypes.ComDetails`.

Each file is modelled against its own generation. Code that the repository
carries in identical copies is modelled once:

- the slice-to-entries translation of the internal endpointslices,
  pkg endpointslices and commatrix packages, in `EndpointSlices`;
- the list difference of commatrix and customendpointslices, in
  `Commatrix.GetDiffComDetails`;
- `comDetailsToEPSlice` and `reverseMap` of customendpointslices and of the
  create-custom-endpointslices example, in `CustomEndpointSlices`.

The model follows the code's own form:

- **Loops** that append, fill maps or grow strings are methods. Each is
  proved against a specification function.
- **Expressions and searches** are functions.
- **Go map iteration order** is left open wherever the code depends on it:
  the order of roles, `sets.UnsortedList` and the winner in `reverseMap`.

Everything outside the modelled code is a parameter:

- the cluster's lists of slices, services, pods and nodes, as snapshots;
- the command runner of a node's debug pod;
- the container list that crictl's JSON decodes to;
- the known-port tables;
- the label filter of the query;
- the API server's refusals.

| module | file | models |
|---|---|---|
| `Wrappers` | wrappers.dfy | Option and Result for Go's (value, found) and (value, error) pairs |
| `Text` | text.dfy | the `strings`, `strconv`, `fmt` and `cmp` functions the code uses |
| `Seqs` | seqs.dfy | order-preserving filtering, concatenation, set-to-list |
| `Cluster` | cluster.dfy | endpoint slices, services, pods, nodes; `getPod`, `getService`, `isRequired` |
| `Nodes` | nodes.dfy | internal/nodes/nodes.go |
| `Types` | types.dfy | types/types.go |
| `InternalTypes` | internal_types.dfy | internal/types/types.go and the port loop of pkg/nftables/nftables.go |
| `Ss` | ss.dfy | internal/ss/ss.go |
| `Query` | query.dfy | internal/endpointslices/query.go |
| `InternalFilter` | filter.dfy | internal/endpointslices/filter.go |
| `EndpointSlices` | endpointslices.dfy | internal/endpointslices/endpointslices.go and its copies |
| `PkgEndpointSlices` | pkg_endpointslices.dfy | pkg/endpointslices/endpointslices.go and filter.go |
| `Commatrix` | commatrix.dfy | commatrix/commatrix.go |
| `CustomEndpointSlices` | customendpointslices.dfy | internal/customendpointslices/customendpointslices.go and the create-custom-endpointslices example |
| `Cmd` | cmd.dfy | cmd/main.go: flags, the scan matrix, the diff report |

## Model

| member | source | states |
|---|---|---|
| Nodes.RoleKeyShape | internal/nodes/nodes.go:13-19 | a label key contributes a role exactly when it is the role prefix followed by "worker" or "master" |
| Nodes.RoleKeysDiffer | internal/nodes/nodes.go:13 | the worker and master label keys are different keys, so each role is kept at most once |
| Nodes.GetRoles | internal/nodes/nodes.go:11-26 | the result is "" without role keys, the single role with one, and "worker,master" or "master,worker" with both; label values and other keys are ignored |
| Nodes.RolesOrderOpen | internal/nodes/nodes.go:15-25 | with both role keys both orders are possible results, and they are different texts |
| Ss.SplitByLines | internal/ss/ss.go:126-129 | the pieces hold no newline and joining them with "\n" gives back the output |
| Ss.FilterStrings | internal/ss/ss.go:239-250 | the result is, in order, exactly the lines the filter does not reject |
| Ss.TcpLinesKept | internal/ss/ss.go:29-31 | a TCP line is kept iff it contains "LISTEN" and does not contain "127.0.0" |
| Ss.UdpLinesKept | internal/ss/ss.go:34-36 | a UDP line is kept iff it contains "ESTAB" and does not contain "127.0.0" |
| Ss.EmptyLineDropped | internal/ss/ss.go:29-36 | the empty piece after the last newline is dropped by both filters |
| Ss.PidAtSpec | internal/ss/ss.go:227 | a `pid=(\d+)` match at a position is "pid=" then a digit, and captures the whole digit run |
| Ss.ServiceNameAtSpec | internal/ss/ss.go:280 | a `users:(("…"` match at a position captures the non-empty quote-free text up to the next quote, and exists iff such text follows |
| Ss.ContainerIdAtSpec | internal/ss/ss.go:214 | a `crio-…\.scope` match at a position captures `v` exactly when the text there is "crio-", the non-empty hex run `v`, then ".scope" |
| Ss.FindSpec | internal/ss/ss.go:214-216 | FindStringSubmatch reports the match at the leftmost matching position, and nothing iff no position matches |
| Ss.ExtractPidSpec | internal/ss/ss.go:226-237 | the pid is found iff some "pid=" is followed by a digit, and is then the digit run after the leftmost such "pid=" |
| Ss.ExtractServiceNameSpec | internal/ss/ss.go:279-291 | a found name is the non-empty quote-free text of the leftmost `users:(("` group; an error means no position matches |
| Ss.ExtractContainerIdSpec | internal/ss/ss.go:208-224 | an exec failure is returned as is; otherwise an id is found exactly when the cgroup output holds "crio-", a non-empty hex run and ".scope", the id is the run of the leftmost such match, and a miss is the not-found error |
| Ss.ExtractContainerInfo | internal/ss/ss.go:172-206 | the name is returned iff crictl ran, its output decoded and it listed exactly one container, whose name is the result |
| Ss.ParseComDetailFields | internal/ss/ss.go:252-277 | a missing service name is the error; a parsed entry is ingress and required, its port is the text after the last ':' of the fourth field, and its service is the process name for a host service and the identified container otherwise |
| Ss.ShortLineRejected | internal/ss/ss.go:268-270 | a line with fewer than four fields is rejected (Go panics on the index) |
| Ss.Stamp | internal/ss/ss.go:140-146 | the stamped entry has the protocol and role text set and is required iff its service is not an optional process |
| Ss.StampAll | internal/ss/ss.go:135-148 | every parsed entry is stamped, one output per input, in order |
| Ss.ParseAllSpec | internal/ss/ss.go:135-139 | the lines all parse iff the scan succeeds, each line's entry sits at the line's position, and a failure is the first failing line's error |
| Ss.ParseAllPrefixErr | internal/ss/ss.go:136-139 | once a prefix of the lines fails, the whole scan fails with that error |
| Ss.ToComDetails | internal/ss/ss.go:131-151 | the scan succeeds iff every line parses, fails with the first line error otherwise, and stamps every entry with one role text GetRoles may give for the node |
| Ss.FilterPorts | internal/ss/ss.go:56-84 | known and unknown entries are the order-preserving split by isKnownPort, and together they are the input |
| Ss.HostServicesKnown | internal/ss/ss.go:62-64 | an entry of a host service is known whatever its port and protocol |
| Ss.CreateComDetailsFromNode | internal/ss/ss.go:86-124 | the scan succeeds exactly when both `ss` commands succeed and every kept line of both tables parses; otherwise the error is the first failure in the order TCP read, UDP read, TCP lines, UDP lines; on success the UDP entries precede the TCP entries, each parsed from its filtered table and stamped |
| Types.MatrixString | types/types.go:72-79 | the matrix text is every entry's text followed by a newline, in matrix order |
| Types.StringNewlineFree | types/types.go:81-83 | the text of an entry whose fields hold no newline is a single line |
| Types.CsvRecordOfCommaFree | types/types.go:42-44 | when no field holds a comma, the record ToCSV writes is the nine values in declaration order, matching the nine-column header |
| Types.CsvRecordMisaligned | types/types.go:31-43 | for the role "master,worker" the record has ten cells and the Optional column receives "worker" |
| Types.CsvFields | types/types.go:81-83 | the nine values as written by String, which joined with commas give String |
| Types.CsvFieldsAgree | types/types.go:43 | the nine values and the comma split agree whenever no field holds a comma |
| Types.EqualsIsNarrow | types/types.go:99-104 | Equals holds for entries with the same role, port and protocol, ignoring the other six fields, and only for those when role and protocol hold no '-' |
| Types.KeyCollision | types/types.go:89 | two entries with different (role, port, protocol) can have the same formatted key |
| Types.RemoveDups | types/types.go:85-97 | the result is, in input order, exactly the entries whose key no earlier entry has |
| Types.FirstByKeyFromInput | types/types.go:88-93 | RemoveDups only keeps input entries, each at most as often as it occurs |
| Types.FirstByKeyKeys | types/types.go:89-92 | RemoveDups loses no key |
| Types.FirstByKeyUnique | types/types.go:90-92 | no two kept entries are Equals |
| Types.FirstByKeyCovers | types/types.go:85-97 | every input entry is Equals to some kept entry |
| Types.FirstByKeyKeepsFirst | types/types.go:90-93 | an entry whose key no earlier entry has is kept |
| Types.FirstByKeyOfUnique | types/types.go:85-97 | a list without Equals pairs is returned unchanged |
| Types.RemoveDupsIdempotent | types/types.go:85-97 | applying RemoveDups twice equals applying it once |
| Types.FirstByKeyArrivalOrder | types/types.go:88-93 | of two entries with the same key, RemoveDups keeps the one that comes first, so its result depends on the input order |
| Types.Contains | types/types.go:125-133 | true iff some matrix entry is Equals to the entry |
| Types.Diff | types/types.go:106-123 | the result is, in order, the entries of m with no Equals partner in the other matrix |
| Types.UnmatchedMembers | types/types.go:109-119 | an entry is in the diff iff it is in m and has no Equals partner in the other matrix |
| Types.UnmatchedAllMatched | types/types.go:109-119 | when every entry has a partner the diff is empty |
| Types.DiffSelf | types/types.go:107-123 | m.Diff(m) is empty |
| Types.DiffEmpty | types/types.go:107-123 | m.Diff of an empty matrix is m |
| Types.CmpComDetails | types/types.go:135-147 | the comparison is -1, 0 or 1, and 0 iff role, protocol and port are equal |
| Types.CmpAntisymmetric | types/types.go:135-147 | swapping the arguments negates the comparison |
| Types.CmpTransitive | types/types.go:135-147 | the order is transitive |
| Types.Insert | cmd/main.go:163 | the reference insertion adds exactly the one entry |
| Types.InsertSorted | cmd/main.go:163 | inserting into a sorted list keeps it sorted |
| Types.SortedHeads | types/types.go:135-147 | two sorted arrangements of the same entries without Equals pairs start with the same entry |
| Types.SortedUnique | types/types.go:135-147 | two sorted arrangements of the same entries without Equals pairs are the same list |
| Types.SortByCmp | cmd/main.go:163 | the reference sort is a permutation of its input |
| Types.SortByCmpSorted | cmd/main.go:163 | the reference sort's result is sorted by CmpComDetails |
| InternalTypes.CsvRecordOfCommaFree | internal/types/types.go:38-39 | when no field holds a comma, cutting the text at commas gives back the six values in order |
| InternalTypes.CsvRecordOfTwoRoles | internal/types/types.go:39 | for the role "master,worker" the record has seven cells and "worker" lands in the service-name column |
| InternalTypes.Strings | internal/types/types.go:97-99 | one text per entry, in matrix order |
| InternalTypes.MatrixString | internal/types/types.go:88-95 | the matrix text is every entry's text followed by a newline, in matrix order |
| InternalTypes.MatrixStringLines | internal/types/types.go:88-95 | reading the matrix text back line by line gives each entry's text and then the empty text after the last newline |
| InternalTypes.ToNftables | internal/types/types.go:59-73 | the TCP list is the ports of the "TCP" entries and the UDP list those of the "UDP" entries, in order |
| InternalTypes.PortsOfMembers | pkg/nftables/nftables.go:46-52 | a port is listed for a protocol iff an entry of exactly that protocol has it, so other protocol texts, lowercase ones included, add nothing |
| InternalTypes.PortsOfCount | pkg/nftables/nftables.go:47-49 | duplicates are kept: one port per entry of the protocol |
| InternalTypes.PortsOfBound | pkg/nftables/nftables.go:46-53 | the TCP and UDP lists together are no longer than the entries |
| InternalTypes.ToEndpointSlice | internal/types/types.go:101-124 | the slice has the given name, namespace and labels, one port (the number, with the entry's protocol) and one endpoint on the given node at the placeholder address |
| Cluster.GetPodSpec | internal/endpointslices/query.go:156-163 | the pod found has the name and namespace asked for and no earlier pod does; nothing is found iff no pod matches |
| Cluster.GetServiceSpec | internal/endpointslices/query.go:165-173 | the service found has the name and namespace asked for and no earlier service does; nothing is found iff no service matches |
| Query.WithLabels | internal/endpointslices/query.go:103-111 | true iff every requested (key, value) pair is on the slice with an equal value, so an empty request selects every slice |
| Query.AnyOwnerOfType | internal/endpointslices/query.go:118-130 | true iff some owner reference resolves in the slice's namespace to a service of the requested type; unresolved references are skipped |
| Query.WithServiceType | internal/endpointslices/query.go:113-131 | a slice without owners is not selected; otherwise it is selected iff some owner is a service of the requested type |
| Query.AnyOnHostNetwork | internal/endpointslices/query.go:138-153 | true iff some endpoint with a target resolves to a pod on the host network; nil targets and unresolved pods are skipped |
| Query.WithHostNetwork | internal/endpointslices/query.go:133-154 | a slice without endpoints is not selected; otherwise it is selected iff some endpoint is backed by a host-network pod |
| Query.OwnerServiceSpec | internal/endpointslices/query.go:74-80 | the service is the last owner's, or the one carried in when there are none; it fails, reporting the slice, iff some owner does not resolve |
| Query.SlicePodsSpec | internal/endpointslices/query.go:83-91 | the pods are those behind the endpoints in endpoint order; it fails, reporting the slice, iff some target pod does not resolve |
| Query.BundleOk | internal/endpointslices/query.go:69-98 | bundling succeeds iff every owner reference and every endpoint target of every slice resolves |
| Query.BundleLast | internal/endpointslices/query.go:69-98 | a successful bundling of a list is the bundling of all but its last slice followed by the last slice's record |
| Query.RecordOfParts | internal/endpointslices/query.go:93-97 | a slice with its resolved service and a zero pod followed by its pods is that slice's record |
| Query.BundleRecords | internal/endpointslices/query.go:69-98 | one record per slice, in order, each with a zero pod then its pods, and the last owner's service or, without owners, the previous record's service |
| Query.BundlePrefixErr | internal/endpointslices/query.go:77-89 | a failure in a prefix of the slices is the failure of the whole bundling |
| Query.Padding | internal/endpointslices/query.go:67 | make with a length gives that many zero records |
| Query.CreateEndpointSliceInfo | internal/endpointslices/query.go:63-101 | succeeds iff bundling succeeds, fails with the bundling error otherwise, and on success returns len(items) zero records followed by the records |
| Query.CreateEndpointSliceInfoShape | internal/endpointslices/query.go:67-98 | the output is twice as long as the slice list: zero records first, then one record per slice in order |
| InternalFilter.VerdictAccept | internal/endpointslices/filter.go:20-31 | a record is kept iff every filter accepts it |
| InternalFilter.VerdictPrefix | internal/endpointslices/filter.go:22-30 | the first failure or rejection ends the judging of a record |
| InternalFilter.KeptNoFilters | internal/endpointslices/filter.go:10-12 | with no filters the input is returned unchanged |
| InternalFilter.KeptPrefixErr | internal/endpointslices/filter.go:24-26 | a failure among the first records is the result of the whole call, with no partial output |
| InternalFilter.KeptStep | internal/endpointslices/filter.go:19-35 | judging one more record without failure appends it iff it passed |
| InternalFilter.ApplyFilters | internal/endpointslices/filter.go:9-39 | the result is the specification Kept: the first failing record's wrapped error, or the records every filter accepts, in order |
| InternalFilter.KeptSpec | internal/endpointslices/filter.go:17-38 | the call fails iff some record's judging fails, and then reports the first such record with its namespace, name and cause; otherwise it returns, in order, the records every filter accepts |
| InternalFilter.FilterForIngressTrafic | internal/endpointslices/filter.go:41-50 | the records are filtered by the host-network filter, then the label filter, with ApplyFilters' result |
| InternalFilter.IngressKept | internal/endpointslices/filter.go:41-60 | the records kept are, in order, those whose first pod is on the host network and that the label filter accepts |
| InternalFilter.OffHostNetworkRejected | internal/endpointslices/filter.go:53-57 | a record whose first pod is not on the host network is rejected without consulting the label filter |
| InternalFilter.BundleRejectedByIngress | internal/endpointslices/filter.go:55 | on the bundle as written the padding records have no pod to read, and every real record starts with a zero pod, so the ingress filter keeps none of them |
| InternalFilter.FilterHostNetworkTotal | internal/endpointslices/filter.go:53-60 | the intended filter never fails, and accepts iff the record has a first pod on the host network |
| InternalFilter.IntendedHostNetwork | internal/endpointslices/query.go:69-98 | with unpadded records, a slice's record passes the host-network test iff the pod behind its first endpoint is on the host network |
| Cluster.IsRequired | internal/endpointslices/endpointslices.go:75-82 | a slice is required iff it does not carry the optional label, whatever that label's value |
| EndpointSlices.LastNamedSpec | internal/endpointslices/endpointslices.go:30-35 | a node is found iff one has the name, and the node found is the last one with that name |
| EndpointSlices.FindNode | internal/endpointslices/endpointslices.go:28-38 | the search reports found iff some node has the name, and then gives the last such node |
| EndpointSlices.PairWithPorts | internal/endpointslices/endpointslices.go:46-57 | the roles are walked once each, in an order left open, and the result is every walked role paired with every port |
| EndpointSlices.EpSliceToComDetails | internal/endpointslices/endpointslices.go:18-60 | succeeds iff every endpoint's node is known, reports the first unknown node otherwise, and on success gives a fan-out of the roles the endpoints' nodes give |
| EndpointSlices.FanOutLength | commatrix/commatrix.go:153-164 | the fan-out has one entry per walked role and declared port |
| EndpointSlices.FanOutIndex | commatrix/commatrix.go:153-164 | walked role i and port k give the entry at position i·|ports| + k |
| EndpointSlices.FanOutMembers | commatrix/commatrix.go:153-164 | an entry is in the fan-out iff it pairs a walked role with a declared port |
| EndpointSlices.FannedEntries | pkg/endpointslices/endpointslices.go:145-160 | every entry is ingress, carries the service-name label and the required flag, one of the slice's ports, and the role text of one endpoint's node |
| EndpointSlices.FannedCovers | commatrix/commatrix.go:134-164 | for some role text per endpoint, every chosen text is paired with every port, and the result has one entry per distinct text and port |
| EndpointSlices.ToComDetails | internal/endpointslices/endpointslices.go:62-74 | succeeds iff every slice's nodes are known, otherwise reports the first failing slice's first unknown node, and on success holds every entry of the concatenated per-slice results exactly once |
| EndpointSlices.GatheredMembers | commatrix/commatrix.go:111-123 | every entry of the concatenation comes from one slice's possible result |
| Seqs.UnsortedList | internal/endpointslices/endpointslices.go:84-89 | the result holds every distinct input element exactly once, in an order left open |
| PkgEndpointSlices.ResolvedPodsMembers | pkg/endpointslices/endpointslices.go:76-91 | a pod is collected iff some endpoint's target resolves to it, and at most one pod is collected per endpoint |
| PkgEndpointSlices.ResolvedPodsAll | pkg/endpointslices/endpointslices.go:76-91 | when every endpoint resolves, nothing is skipped: the pods are the endpoints' pods in endpoint order |
| PkgEndpointSlices.BundleOk | pkg/endpointslices/endpointslices.go:67-75 | bundling fails exactly when some owner reference does not name a listed service; a missing pod never fails it |
| PkgEndpointSlices.BundleLast | pkg/endpointslices/endpointslices.go:64-97 | one more slice extends the records by one record of that slice, carrying the previous service when it has no owners |
| PkgEndpointSlices.BundleRecords | pkg/endpointslices/endpointslices.go:64-97 | a successful bundling gives one record per slice, in order, each with the slice, its resolved pods and the service of its last owner or of the record before |
| PkgEndpointSlices.BundlePrefixErr | pkg/endpointslices/endpointslices.go:70-73 | the first failing slice decides the error: later slices do not change it |
| PkgEndpointSlices.CreateEndpointSliceInfo | pkg/endpointslices/endpointslices.go:57-100 | fails iff the bundling fails, with its error; on success the bundled records follow one zero record per slice |
| PkgEndpointSlices.AcceptedByAll | pkg/endpointslices/filter.go:22-28 | a record is accepted iff every filter accepts it |
| PkgEndpointSlices.ApplyFilters | pkg/endpointslices/filter.go:9-36 | the result is, in order, exactly the records every filter accepts |
| PkgEndpointSlices.ApplyFiltersLaws | pkg/endpointslices/filter.go:10-12 | with no filters everything is kept, and filtering twice with the same filters is filtering once |
| PkgEndpointSlices.FilterHostNetwork | pkg/endpointslices/filter.go:45-51 | a record is kept exactly when it has a first pod and that pod is on the host network; a record without pods is rejected |
| PkgEndpointSlices.FilterServiceTypes | pkg/endpointslices/filter.go:54-61 | kept iff the service is a LoadBalancer or a NodePort |
| PkgEndpointSlices.FilterForIngressTraffic | pkg/endpointslices/filter.go:38-42 | the result is, in order, the records whose first pod is on the host network and whose service is a LoadBalancer or a NodePort; a record is in it iff it is in the input and passes both |
| PkgEndpointSlices.GetIngressEndpointSlices | pkg/endpointslices/endpointslices.go:26-56 | fails iff some owner reference does not resolve, with the bundling's error; on success gives the ingress records of the bundling, the zero padding never among them |
| PkgEndpointSlices.ToComDetails | pkg/endpointslices/endpointslices.go:164-176 | succeeds iff every record's slice has all its nodes known, otherwise fails with the first failing slice's first unknown node, and on success holds every entry of a possible concatenation exactly once |
| Commatrix.NotListed | commatrix/commatrix.go:91-93 | an entry passes iff no entry of the other list has its node role, port and protocol |
| Commatrix.GetDiffComDetails | commatrix/commatrix.go:73-89 | the result is, in order, the entries of the first list with no listener match in the second; an entry is in it iff it is in the first list and unmatched |
| Commatrix.DiffOfSelf | commatrix/commatrix.go:73-89 | a list minus itself is empty |
| Commatrix.DiffOfNothing | internal/customendpointslices/customendpointslices.go:137-153 | a list minus the empty list is the list |
| Commatrix.ScanNodes | commatrix/commatrix.go:55-62 | the call succeeds exactly when every node's scan succeeds, and then returns the concatenation, in node order, of one scan of every node; a failure is the error of the first failing node |
| Commatrix.ScannedFromSnoc | commatrix/commatrix.go:56-62 | one more successful node scan extends the concatenation by that node's entries |
| Commatrix.ScannedFromMembers | commatrix/commatrix.go:56-62 | every entry of the concatenation is in the scan of some node |
| Commatrix.ScannedMembers | commatrix/commatrix.go:56-62 | every scanned entry comes from a successful scan of some node |
| Commatrix.GetComDetailsFromSS | commatrix/commatrix.go:49-69 | the call succeeds exactly when every node's scan succeeds, a failure being the first failing node's error; on success the result holds, once each, the scanned entries on a known port with no listener match among the existing entries |
| Commatrix.New | commatrix/commatrix.go:22-47 | an unknown node behind a declared slice fails the call with the first such slice's error; with all nodes known it succeeds exactly when every node scan does, and a scan failure is the first failing node's error; on success the matrix is the distinct declared entries followed by the new scanned listeners |
| Commatrix.ScannedNotDeclared | commatrix/commatrix.go:43-44 | no scanned entry of the matrix is the same listener as a declared one |
| CustomEndpointSlices.ReverseMap | internal/customendpointslices/customendpointslices.go:182-188 | the keys of the result are exactly the values of the map, and each maps back to a key holding that value |
| CustomEndpointSlices.ReverseTwice | internal/customendpointslices/customendpointslices.go:182-188 | for a map without shared values the inverse undoes it, and inverting twice gives the map back |
| CustomEndpointSlices.ReverseWinnerOpen | examples/create_custom_endpointslices/main.go:88-94 | when two keys share a value, either key may be the one the inverse keeps |
| CustomEndpointSlices.NodeNamesToRoles | internal/customendpointslices/customendpointslices.go:78-92 | every listed node name maps to a role text GetRoles may give for the last node of that name, and no other name is mapped |
| CustomEndpointSlices.NodeOfRole | internal/customendpointslices/customendpointslices.go:57 | through the inverted map, a role text is present iff some node has it, and then leads to a listed node with those roles |
| CustomEndpointSlices.SliceName | internal/customendpointslices/customendpointslices.go:99 | every slice name starts with "commatrix-test-" |
| CustomEndpointSlices.SliceNameInjective | examples/create_custom_endpointslices/main.go:71 | when roles and ports hold no '-', equal slice names mean equal service, role and port |
| CustomEndpointSlices.SliceNameCollision | internal/customendpointslices/customendpointslices.go:99 | a '-' inside a role lets two different entries share a slice name |
| CustomEndpointSlices.SliceLabels | internal/customendpointslices/customendpointslices.go:103-109 | the ingress label maps to "" and the service-name label to the service, the optional label is present iff the entry is not required and then maps to "true", and there are no other labels |
| CustomEndpointSlices.NodeNameFor | internal/customendpointslices/customendpointslices.go:101 | the node is the inverted map's entry for the role, or "" when the role is absent |
| CustomEndpointSlices.ComDetailsToEPSlice | internal/customendpointslices/customendpointslices.go:94-114 | fails iff the port is not a base-10 int32, naming the port; otherwise one slice in the default namespace named after the entry, with its labels, one port of the parsed number and the entry's protocol, and one endpoint on the node the role maps to |
| CustomEndpointSlices.SliceRoundTrip | internal/customendpointslices/customendpointslices.go:94-114 | reading the published slice back as declared slices are read gives the entry again, as an ingress entry with the port in %d form |
| CustomEndpointSlices.CanonicalRoundTrip | examples/create_custom_endpointslices/main.go:66-86 | an ingress entry whose port is already a 32-bit number in %d form comes back unchanged |
| CustomEndpointSlices.SlicePlacement | internal/customendpointslices/customendpointslices.go:101 | the slice's endpoint is on a listed node with the entry's roles, or on "" when no node has them |
| CustomEndpointSlices.SliceOf | internal/customendpointslices/customendpointslices.go:60-64 | an entry gives at most one slice |
| CustomEndpointSlices.TranslatedMembers | internal/customendpointslices/customendpointslices.go:59-64 | a slice is requested iff some entry translates to it |
| CustomEndpointSlices.TranslatedLength | internal/customendpointslices/customendpointslices.go:59-64 | no more slices than entries are requested, and one per entry when every port parses |
| CustomEndpointSlices.CreateSlice | internal/customendpointslices/customendpointslices.go:66-70 | a taken name is answered AlreadyExists and changes nothing; a refused slice fails and changes nothing; otherwise the slice is stored under its name |
| CustomEndpointSlices.PublishKeeps | internal/customendpointslices/customendpointslices.go:66-67 | creating never replaces a slice already in the namespace |
| CustomEndpointSlices.PublishNames | internal/customendpointslices/customendpointslices.go:59-73 | a name ends up taken iff it was, or some requested slice of that name was not refused |
| CustomEndpointSlices.PublishFrom | internal/customendpointslices/customendpointslices.go:66-72 | every slice the namespace gained is a requested, unrefused slice stored under its own name |
| CustomEndpointSlices.CreateEpSlices | internal/customendpointslices/customendpointslices.go:52-76 | the namespace afterwards is the creation, in entry order, of every entry that translates through the inverted role map; failures are skipped |
| CustomEndpointSlices.AllPublished | internal/customendpointslices/customendpointslices.go:59-73 | with every port valid and nothing refused, every entry's slice name is taken afterwards |
| CustomEndpointSlices.Create | internal/customendpointslices/customendpointslices.go:26-50 | an unknown node behind a declared slice fails the call with the first such slice's error; with all nodes known it succeeds exactly when every node scan does, and a scan failure is the first failing node's error; on success every scanned listener on a known port that no declared entry covers is published |
| Cmd.ParseFormat | cmd/main.go:42-51 | a format is accepted iff it is "json", "csv" or "yaml", and the accepted value carries that name |
| Cmd.ParseEnv | cmd/main.go:58-66 | an environment is accepted iff it is "baremetal" or "aws", and the accepted value carries that name |
| Cmd.ParseDeployment | cmd/main.go:68-76 | a deployment type is accepted iff it is "mno" or "sno", and the accepted value carries that name |
| Cmd.ParseOptions | cmd/main.go:42-76 | the options are accepted iff the format, KUBECONFIG, environment and deployment are all valid, with those values; otherwise the first failing check in that order is reported |
| Cmd.OptionsByName | cmd/main.go:34-37 | every known format, environment and deployment is accepted by its name, and the flag defaults select CSV, bare metal and multi-node |
| Cmd.ScanMatrix | cmd/main.go:162-164 | the scan matrix is sorted by CmpComDetails and is a permutation of the first entry of every key of the scan results |
| Cmd.SortedScanDetermined | cmd/main.go:163 | any two sorted permutations of the narrowed scan results are equal, so the unstable sort's choice does not matter |
| Cmd.MatLines | cmd/main.go:189-195 | one line per generated entry |
| Cmd.RemovedLines | cmd/main.go:197-201 | one line per scan entry the generated matrix lacks |
| Cmd.DiffLines | cmd/main.go:187-204 | the report has one line per generated entry plus one per scan entry the generated matrix does not contain |
| Cmd.Diff | cmd/main.go:187-204 | the report is the text of DiffLines, each line followed by a newline |
| Cmd.MatLinesIndex | cmd/main.go:190-194 | line k of the first part is entry k, marked "+ " iff the scan has no match for it |
| Cmd.RemovedLinesIndex | cmd/main.go:198-200 | line k of the second part is the k-th unmatched scan entry marked "- " |
| Cmd.DiffLineMeaning | cmd/main.go:189-201 | a line for a generated entry is plain iff the scan contains it and "+ " otherwise; every later line is "- " and a scan entry the generated matrix lacks |
| Cmd.DiffOfSelf | cmd/main.go:189-201 | a matrix compared with itself gives only plain lines, one per entry |
| Cmd.DiffOfEmptyScan | cmd/main.go:194 | against an empty scan every generated entry is marked "+ " |
| Cmd.DiffTextLines | cmd/main.go:191-199 | every line ends with a newline: cutting the report at newlines gives the lines back, then the empty text |
| Text.ParseInt32 | internal/customendpointslices/customendpointslices.go:95 | a text parses iff it is an optionally signed run of decimal digits whose value fits in 32 bits, and then gives that value |
| Text.ParseInt32RoundTrip | examples/create_custom_endpointslices/main.go:67 | a 32-bit value printed by %d parses back to itself |
| Text.ToInt32 | internal/types/types.go:110 | the conversion lands in the 32-bit range, agrees with the value modulo 2^32, and keeps values already in range |
| Text.AfterLast | internal/ss/ss.go:269 | the text after the last separator is the longest separator-free suffix |
| Text.Fields | internal/ss/ss.go:268 | every field is non-empty and holds no white space |
| Text.FieldsOfWord | internal/ss/ss.go:268 | a non-empty text without white space is its own only field |
| Text.FieldsAtSpace | internal/ss/ss.go:268 | a white-space character separates fields: the fields of `a`, a space, `b` are those of `a` then those of `b`; with FieldsOfWord this fixes the fields of every text as its maximal non-space runs in order |
| Text.JoinSplit | internal/ss/ss.go:128 | joining the pieces of a split with the separator gives the input back |
| Text.SplitJoin | types/types.go:43 | splitting a join of separator-free pieces gives the pieces back |
| Text.CompareStrings | types/types.go:136 | the comparison is -1, 0 or 1, and 0 exactly for equal texts |
| Text.CompareStringsAntisymmetric | types/types.go:141 | swapping the arguments negates the comparison |
| Text.CompareStringsTransitive | types/types.go:146 | the order on texts is transitive |

## Left out

- **The Kubernetes API.** Listing slices, services, pods and nodes, and their list errors, is not modelled. The lists are snapshots passed in. `getEndpointSlices` in every package is not part of this model. So are the second node listing in customendpointslices and commatrix, which is taken to return the same snapshot, and `client.New`.
- **The query builder.** `NewQuery`, `Query()` and the builder bodies are not part of this model. The selection predicates `withLabels`, `withServiceType` and `withHostNetwork` are modelled. The selected slices are an input. The internal query calls `getPod` and `getService` with arguments that do not match their signatures. The model takes the evident meaning: a lookup by name and namespace.
- **FilterLabels** (internal endpointslices) is not shown in the source. It is a parameter that may accept, reject or fail.
- **Remote execution.** The debug pod (`debug.New`, `Clean`), its namespace, `ExecWithRetry` and its retry budget and timing are not modelled. Exec is an oracle from command to output or error.
- **crictl JSON.** Decoding it is an oracle that gives the container names it lists, or nothing for malformed output.
- **Regular expressions.** They are explicit scanners over the same language, matched leftmost.
- **Concurrency.** The errgroup in cmd/main.go scans nodes concurrently under a mutex. The model concatenates the results in node order.
  - Cmd.ScanMatrix: takes that concatenation, in node order, as its input. In cmd/main.go the results arrive in completion order, and RemoveDups keeps the first entry of each key (Types.FirstByKeyArrivalOrder). So when two nodes report entries with one key that differ in another field, which of them represents the key depends on which scan finished first; the sort does not undo that. The model fixes one order.
- **Serialisation.** The JSON, YAML and CSV writers, the text and HTML templates, and all file reads and writes are not modelled. Only the record split inside ToCSV is kept.
- **matrixcustomizer.** internal/matrixcustomizer/matrixcustomizer.go and the static entry catalogues are not part of this model.
- **Known ports.** The known-port tables (`getKnownTCPPorts`, `getKnownUDPorts`), the host-service list and the optional-process list are parameters or opaque constants.
- **Constants.** The labels `IngressLabel`, `OptionalLabel`, `OptionalTrue`, `RoleLabel` and `PlaceHolderIPAddress` are distinct stand-in texts.
- **Nil and empty slices.** Go's nil slices are not distinguished from empty ones. So `ApplyFilters`' nil-input branch coincides with the empty input.
- **Logging.** `log.Printf` and `fmt.Printf` are not modelled. A skipped entry in createEpSlices is simply absent.
- **KUBECONFIG.** Reading the variable is an `Option<string>` input to Cmd.ParseOptions. A panic is a `UsageError`.
- **Panics.** Go panics on an `ss` line with fewer than four fields (index out of range); the model reports that line as an error. The internal host-network filter indexes `pods[0]`; the model makes a non-empty pods list its precondition. The internal query reads `endpoint.TargetRef.Name` (internal/endpointslices/query.go:84) without a nil check, and endpoints without a target reference occur; Query.CreateEndpointSliceInfo requires every endpoint to have one (`Targeted`), so the panic is not modelled. The endpoint's node name and the port's number and protocol are nil-able fields that Go dereferences without a check (internal/endpointslices/endpointslices.go:31,37,52-53, pkg/endpointslices/endpointslices.go:133,139,152-153, commatrix/commatrix.go:138,144,157-158); the model's endpoints and ports hold plain values, so those panics are not modelled either.
- **commatrix.New's signature.** commatrix/commatrix.go takes only a kubeconfig path, but cmd/main.go calls `commatrix.New` with four arguments. That call belongs to a generation whose commatrix package is not part of this model. The matrix cmd/main.go diffs against is an input of Cmd.Diff.
- **The example program.** The scan, RemoveDups and create loop of examples/create_custom_endpointslices/main.go (with `log.Fatalf` on a failed create) call `commatrix.GetNodesRoles`, which is not shown. Only its `comDetailsToEPSlice` and `reverseMap` are modelled; they are identical to the internal package's.
- **The pkg record type.** pkg/endpointslices builds entries of a record type whose file is not shown. Its fields match the six-field internal entry, which the model uses. The `SvcInfo` / `EndpointSlicesInfo` name mismatch between its two files is read as one type.
- **Sorting.** `slices.SortFunc` is not stable and its algorithm is not specified. Types.SortByCmp is a reference insertion sort. Any sorted permutation is accepted, and SortedScanDetermined shows they all coincide.
- **Map order.** Go's map iteration order is left open. Results that depend on it are stated up to that order: the role order of GetRoles, the fan-out walk of the role map, `sets.UnsortedList` and the winner in reverseMap.
- Commatrix.ScanNodes: the role text a node's entries carry is stated up to map order (see "Map order"); success and the error are stated exactly.
- CustomEndpointSlices.Create: the API server's answers to creates are a `refused` predicate.
- Query.CreateEndpointSliceInfo: requires every endpoint to carry a target reference (`Targeted`); the nil reference the source dereferences is outside the model (see "Panics").
- PkgEndpointSlices.ToComDetails and EndpointSlices.ToComDetails: the result is stated up to the order of the set conversion.

## Findings

| source | as written | input that shows it | evidently intended | confidence | as-written member | corrected member |
|---|---|---|---|---|---|---|
| types/types.go:43 | ToCSV cuts the entry text at every ',' to form the record | an entry whose node role is "master,worker" (a node with both role labels) gives ten cells, and "worker" lands in the Optional column | one cell per field, nine cells matching the header | not executed | Types.CsvRecordMisaligned | Types.CsvFields |
| internal/endpointslices/query.go:67-71 | the record list starts with len(items) zero records, and each record's pods start with a zero pod | any non-empty list of bundled slices: the host-network filter indexes the empty pods of the first padding record, and every real record's first pod is the zero pod, which is off the host network | one record per slice, holding only the resolved pods, so the filter reads the pod behind the first endpoint | not executed | InternalFilter.BundleRejectedByIngress | InternalFilter.IntendedHostNetwork |
